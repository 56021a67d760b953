/** Routing rules: what each criterion means (the naive predicates), and the compiled matchers that
    answer the same question faster. */
module Rules {
  import opened Basics
  import opened Text
  import opened Regex
  import opened Bloom

  // ---- what a rule means ---------------------------------------------------------------------

  datatype Addr = V4(n: nat) | V6(n: nat)

  /** An IP network: an address of it as a number, and its prefix length. */
  datatype Net = Net4(base: nat, prefix: nat) | Net6(base: nat, prefix: nat)

  function Pow2(n: nat): (p: nat)
    ensures p >= 1
  {
    if n == 0 then 1 else 2 * Pow2(n - 1)
  }

  /** The number of addresses in the network. */
  function NetSize(net: Net): (n: nat)
    ensures n >= 1
  {
    match net
    case Net4(_, prefix) => if prefix <= 32 then Pow2(32 - prefix) else 1
    case Net6(_, prefix) => if prefix <= 128 then Pow2(128 - prefix) else 1
  }

  /** A number with its low bits cleared: the start of its aligned block. */
  function Masked(n: nat, size: nat): nat
    requires size >= 1
  {
    size * (n / size)
  }

  /** `addr in net`: same version, and the address masked is the network's. */
  predicate InNet(addr: Addr, net: Net) {
    addr.V4? == net.Net4? && Masked(addr.n, NetSize(net)) == Masked(net.base, NetSize(net))
  }

  datatype EntryType = Exact | Suffix | Keyword | Other

  datatype SiteEntry = SiteEntry(kind: EntryType, value: string)

  datatype Criterion =
    | Domain(value: string)
    | DomainSuffix(value: string)
    | DomainKeyword(value: string)
    | DomainRegex(ops: seq<Op>)
    | IpCidr(net: Net)
    | Geosite(entries: seq<SiteEntry>)
    | Geoip(nets: seq<Net>, inverse: bool)

  predicate EntryHolds(e: SiteEntry, host: string) {
    match e.kind
    case Exact => host == Lower(e.value)
    case Suffix => EndsWith(host, "." + Lower(e.value))
    case Keyword => Contains(host, Lower(e.value))
    case Other => false
  }

  predicate InSome(addr: Addr, nets: seq<Net>) {
    exists i :: 0 <= i < |nets| && InNet(addr, nets[i])
  }

  /** The naive meaning of a criterion on a (lower-case) host and the address it may denote. */
  ghost predicate Holds(c: Criterion, host: string, addr: Option<Addr>) {
    match c
    case Domain(v) => host == Lower(v)
    case DomainSuffix(v) => var d := DropLeft(Lower(v), '.'); host == d || EndsWith(host, "." + d)
    case DomainKeyword(v) => Contains(host, Lower(v))
    case DomainRegex(ops) => Search(ops, host)
    case IpCidr(net) => addr.Some? && InNet(addr.value, net)
    case Geosite(entries) => exists i :: 0 <= i < |entries| && EntryHolds(entries[i], host)
    case Geoip(nets, inverse) => addr.Some? && InSome(addr.value, nets) != inverse
  }

  /** A suffix entry of a geosite list is not met by the bare domain: that is exactly where it
      differs from a DOMAIN-SUFFIX rule for the same name. */
  lemma GeositeSuffixIsProper(name: string, host: string)
    requires name == [] || name[0] != '.'
    ensures Holds(DomainSuffix(name), host, None)
      <==> Holds(Geosite([SiteEntry(Suffix, name)]), host, None) || host == Lower(name)
    ensures !Holds(Geosite([SiteEntry(Suffix, name)]), Lower(name), None)
    ensures forall t :: TablesOf(t, [SiteEntry(Suffix, name)]) ==> forall p: nat :: !SuffixAt(t, Lower(name), p)
  {
    assert DropLeft(Lower(name), '.') == Lower(name);
    var entries := [SiteEntry(Suffix, name)];
    assert EntryHolds(entries[0], host) <==> EndsWith(host, "." + Lower(name));
    assert EntryHolds(entries[0], Lower(name)) <==> EndsWith(Lower(name), "." + Lower(name));
    forall t, p: nat | TablesOf(t, entries) ensures !SuffixAt(t, Lower(name), p) {
      if p < |Lower(name)| {
        assert Lower(name)[p + 1..] in t.suffix ==> ValuesOf(Suffix, entries, Lower(name)[p + 1..]);
      }
    }
  }

  // ---- compiled forms ------------------------------------------------------------------------

  /** The three tables of a geosite rule, with a Bloom filter over the suffixes if there are many. */
  datatype SiteTables = SiteTables(exact: set<string>, suffix: set<string>, keywords: seq<string>, bloom: Option<Frozen>)

  datatype Matcher =
    | MDomain(d: string)
    | MSuffix(d: string, dot: string)
    | MKeyword(k: string)
    | MRegex(literal: string, search: string -> bool)
    | MCidr(net: Net)
    | MGeosite(tables: SiteTables)
    | MGeoip(v4: seq<(nat, nat)>, v6: seq<Net>, inverse: bool)

  predicate ValuesOf(kind: EntryType, entries: seq<SiteEntry>, value: string) {
    exists i :: 0 <= i < |entries| && entries[i].kind == kind && Lower(entries[i].value) == value
  }

  /** The filter, if there is one, knows every suffix. */
  ghost predicate BloomComplete(t: SiteTables) {
    t.bloom.Some? ==> forall s :: s in t.suffix ==> t.bloom.value.MayContain(s)
  }

  ghost predicate TablesOf(t: SiteTables, entries: seq<SiteEntry>) {
    && (forall v :: v in t.exact <==> ValuesOf(Exact, entries, v))
    && (forall v :: v in t.suffix <==> ValuesOf(Suffix, entries, v))
    && (forall v :: v in t.keywords <==> ValuesOf(Keyword, entries, v))
    && BloomComplete(t)
  }

  predicate SortedByStart(v4: seq<(nat, nat)>) {
    forall i, j :: 0 <= i < j < |v4| ==> v4[i].0 <= v4[j].0
  }

  predicate InRange(n: nat, r: (nat, nat)) {
    r.0 <= n <= r.1
  }

  predicate InSomeRange(n: nat, v4: seq<(nat, nat)>) {
    exists i :: 0 <= i < |v4| && InRange(n, v4[i])
  }

  ghost predicate RangesOf(v4: seq<(nat, nat)>, v6: seq<Net>, nets: seq<Net>) {
    && SortedByStart(v4)
    && (forall n: nat :: InSomeRange(n, v4) <==> InSome(V4(n), nets))
    && (forall n: nat :: InSome(V6(n), v6) <==> InSome(V6(n), nets))
  }

  /** The compiled matcher was made from this criterion. */
  ghost predicate MadeFrom(m: Matcher, c: Criterion) {
    match c
    case Domain(v) => m == MDomain(Lower(v))
    case DomainSuffix(v) => m == MSuffix(DropLeft(Lower(v), '.'), "." + DropLeft(Lower(v), '.'))
    case DomainKeyword(v) => m == MKeyword(Lower(v))
    case DomainRegex(ops) => m.MRegex? && LiteralOf(ops, m.literal) && forall s :: m.search(s) <==> Search(ops, s)
    case IpCidr(net) => m == MCidr(net)
    case Geosite(entries) => m.MGeosite? && TablesOf(m.tables, entries)
    case Geoip(nets, inverse) => m.MGeoip? && m.inverse == inverse && RangesOf(m.v4, m.v6, nets)
  }

  // ---- geosite: dot-walk and Bloom filter ----------------------------------------------------

  datatype Outcome = Miss | Hit | HitExact(value: string) | HitSuffix(value: string) | HitKeyword(value: string)

  /** `host.rfind('.', 0, end)`: the last dot before position `end`, or -1. */
  function RFindDot(host: string, end: nat): (p: int)
    requires end <= |host|
    ensures -1 <= p < end
    ensures p >= 0 ==> host[p] == '.'
    ensures forall q :: p < q < end ==> host[q] != '.'
  {
    if end == 0 then -1 else if host[end - 1] == '.' then end - 1 else RFindDot(host, end - 1)
  }

  /** Is the part of the host after position p a suffix entry, with a dot at p? */
  predicate SuffixAt(t: SiteTables, host: string, p: nat) {
    p < |host| && host[p] == '.' && host[p + 1..] in t.suffix
  }

  lemma SuffixAtIsSuffix(t: SiteTables, host: string, v: string)
    ensures v in t.suffix && EndsWith(host, "." + v) <==> |v| < |host| && host[|host| - |v|..] == v && SuffixAt(t, host, |host| - |v| - 1)
  {
    var dotted := "." + v;
    assert |dotted| == |v| + 1 && dotted[0] == '.' && dotted[1..] == v;
    if |v| < |host| {
      var p := |host| - |v| - 1;
      assert host[p..] == [host[p]] + host[p + 1..];
      if host[p..] == dotted {
        assert host[p] == '.' && host[p + 1..] == v;
      }
    }
  }

  /** Is this the first of the keywords that the host contains? */
  ghost predicate FirstKeyword(keywords: seq<string>, host: string, value: string) {
    exists i :: 0 <= i < |keywords| && keywords[i] == value && Contains(host, value)
                && forall j :: 0 <= j < i ==> !Contains(host, keywords[j])
  }

  /** `_GeositeRule._inner`. */
  method MatchSite(t: SiteTables, host: string) returns (r: Outcome)
    requires BloomComplete(t)
    ensures r == Miss <==>
      !(host in t.exact || (exists v :: v in t.suffix && EndsWith(host, "." + v))
        || exists i :: 0 <= i < |t.keywords| && Contains(host, t.keywords[i]))
    ensures r != Hit
    ensures r.HitExact? ==> r.value == host && host in t.exact
    ensures r.HitSuffix? ==>
      r.value in t.suffix && EndsWith(host, "." + r.value) && host !in t.exact
      && forall v :: v in t.suffix && EndsWith(host, "." + v) ==> |r.value| <= |v|
    ensures r.HitKeyword? ==>
      host !in t.exact && FirstKeyword(t.keywords, host, r.value)
      && forall v :: v in t.suffix ==> !EndsWith(host, "." + v)
  {
    if host in t.exact {
      return HitExact(host);
    }
    if t.suffix != {} {
      var p := DotWalk(t, host);
      if p >= 0 {
        NearestSuffix(t, host, p);
        return HitSuffix(host[p + 1..]);
      }
    }
    assert forall v :: v in t.suffix ==> !EndsWith(host, "." + v) by {
      forall v | v in t.suffix ensures !EndsWith(host, "." + v) {
        SuffixAtIsSuffix(t, host, v);
      }
    }
    for i := 0 to |t.keywords|
      invariant forall j :: 0 <= j < i ==> !Contains(host, t.keywords[j])
    {
      if Contains(host, t.keywords[i]) {
        return HitKeyword(t.keywords[i]);
      }
    }
    return Miss;
  }

  /** The walk over dots from the right; the filter only skips suffixes that are not entries. */
  method DotWalk(t: SiteTables, host: string) returns (p: int)
    requires BloomComplete(t)
    ensures p >= 0 ==> SuffixAt(t, host, p) && forall q :: p < q < |host| ==> !SuffixAt(t, host, q)
    ensures p < 0 ==> forall q :: 0 <= q < |host| ==> !SuffixAt(t, host, q)
  {
    var dot: int := |host|;
    while true
      invariant 0 <= dot <= |host|
      invariant forall q :: dot <= q < |host| ==> !SuffixAt(t, host, q)
      decreases dot
    {
      dot := RFindDot(host, dot);
      if dot < 0 {
        return -1;
      }
      var suffix := host[dot + 1..];
      if t.bloom.Some? && !t.bloom.value.MayContain(suffix) {
        continue;
      }
      if suffix in t.suffix {
        return dot;
      }
    }
  }

  lemma NearestSuffix(t: SiteTables, host: string, p: nat)
    requires SuffixAt(t, host, p) && forall q :: p < q < |host| ==> !SuffixAt(t, host, q)
    ensures EndsWith(host, "." + host[p + 1..])
    ensures forall v :: v in t.suffix && EndsWith(host, "." + v) ==> |host[p + 1..]| <= |v|
  {
    SuffixAtIsSuffix(t, host, host[p + 1..]);
    forall v | v in t.suffix && EndsWith(host, "." + v) ensures |host[p + 1..]| <= |v| {
      SuffixAtIsSuffix(t, host, v);
    }
  }

  // ---- geoip: binary search and backward scan -----------------------------------------------

  /** `_v4_contains`: exact for any intervals sorted by start, however they overlap. */
  method V4Contains(v4: seq<(nat, nat)>, n: nat) returns (b: bool)
    requires SortedByStart(v4)
    ensures b == InSomeRange(n, v4)
  {
    var lo, hi := 0, |v4| - 1;
    var best := -1;
    while lo <= hi
      invariant 0 <= lo <= hi + 1 <= |v4| && best == lo - 1
      invariant forall i :: 0 <= i < lo ==> v4[i].0 <= n
      invariant forall i :: hi < i < |v4| ==> v4[i].0 > n
    {
      var mid := (lo + hi) / 2;
      if v4[mid].0 <= n {
        best := mid;
        lo := mid + 1;
      } else {
        hi := mid - 1;
      }
    }
    var i := best;
    while i >= 0 && v4[i].0 <= n
      invariant -1 <= i <= best
      invariant forall j :: i < j <= best ==> v4[j].1 < n
    {
      if v4[i].1 >= n {
        assert InRange(n, v4[i]);
        return true;
      }
      i := i - 1;
    }
    return false;
  }

  /** First and last address of a network. */
  function RangeOf(net: Net): (nat, nat) {
    (Masked(net.base, NetSize(net)), Masked(net.base, NetSize(net)) + NetSize(net) - 1)
  }

  lemma RangeIsNet(n: nat, net: Net)
    requires net.Net4?
    ensures InRange(n, RangeOf(net)) <==> InNet(V4(n), net)
  {
    SameBlock(n, net.base, NetSize(net));
  }

  /** Two numbers have the same masked value exactly when one lies between the block's ends. */
  lemma SameBlock(n: nat, base: nat, size: nat)
    requires size >= 1
    ensures Masked(base, size) <= n <= Masked(base, size) + size - 1 <==> Masked(n, size) == Masked(base, size)
  {
    var q, k := base / size, n / size;
    assert n == size * k + n % size;
    if k < q {
      MulStep(k, q, size);
    } else if q < k {
      MulStep(q, k, size);
    }
  }

  /** Tuple order. */
  predicate Before(a: (nat, nat), b: (nat, nat)) {
    a.0 < b.0 || (a.0 == b.0 && a.1 <= b.1)
  }

  function InsertRange(r: (nat, nat), sorted: seq<(nat, nat)>): seq<(nat, nat)> {
    if sorted == [] || Before(r, sorted[0]) then [r] + sorted else [sorted[0]] + InsertRange(r, sorted[1..])
  }

  lemma {:induction false} InsertRangeElements(r: (nat, nat), sorted: seq<(nat, nat)>)
    ensures multiset(InsertRange(r, sorted)) == multiset(sorted) + multiset{r}
  {
    if sorted != [] && !Before(r, sorted[0]) {
      InsertRangeElements(r, sorted[1..]);
      assert sorted == [sorted[0]] + sorted[1..];
    }
  }

  lemma {:induction false} InsertRangeSorted(r: (nat, nat), sorted: seq<(nat, nat)>)
    requires SortedByStart(sorted)
    ensures SortedByStart(InsertRange(r, sorted))
  {
    if sorted != [] && !Before(r, sorted[0]) {
      InsertRangeSorted(r, sorted[1..]);
      InsertRangeElements(r, sorted[1..]);
      var rest := InsertRange(r, sorted[1..]);
      forall j | 0 <= j < |rest| ensures sorted[0].0 <= rest[j].0 {
        assert rest[j] in multiset(rest);
        assert rest[j] == r || rest[j] in multiset(sorted[1..]);
      }
    }
  }

  /** `v4.sort()`. */
  function SortRanges(rs: seq<(nat, nat)>): seq<(nat, nat)> {
    if rs == [] then [] else InsertRange(rs[0], SortRanges(rs[1..]))
  }

  lemma {:induction false} SortRangesSorts(rs: seq<(nat, nat)>)
    ensures SortedByStart(SortRanges(rs)) && multiset(SortRanges(rs)) == multiset(rs)
  {
    if rs != [] {
      SortRangesSorts(rs[1..]);
      InsertRangeSorted(rs[0], SortRanges(rs[1..]));
      InsertRangeElements(rs[0], SortRanges(rs[1..]));
      assert rs == [rs[0]] + rs[1..];
    }
  }
}
