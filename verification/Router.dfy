/** The router: rules compiled one by one, scanned in order, the first hit deciding. Whatever the
    compiled forms do, `Match` gives the answer of the rules' naive meanings. */
module Router {
  import opened Basics
  import opened Text
  import opened Regex
  import opened Bloom
  import opened Rules

  /** A rule as configured: one criterion, or groups of criteria that must all be met. */
  datatype RuleSpec =
    | OneOf(criterion: Criterion, action: string, invert: bool)
    | AllOf(groups: seq<seq<Criterion>>, action: string, invert: bool)

  ghost predicate SomeHolds(cs: seq<Criterion>, host: string, addr: Option<Addr>) {
    exists i :: 0 <= i < |cs| && Holds(cs[i], host, addr)
  }

  ghost predicate RuleHolds(r: RuleSpec, host: string, addr: Option<Addr>) {
    match r
    case OneOf(c, _, invert) => Holds(c, host, addr) != invert
    case AllOf(groups, _, invert) => (forall g :: 0 <= g < |groups| ==> SomeHolds(groups[g], host, addr)) != invert
  }

  /** First match over the naive meanings. */
  ghost function NaiveAction(rules: seq<RuleSpec>, default: string, host: string, addr: Option<Addr>): string {
    if rules == [] then default
    else if RuleHolds(rules[0], host, addr) then rules[0].action
    else NaiveAction(rules[1..], default, host, addr)
  }

  ghost predicate NoneHolds(rules: seq<RuleSpec>, host: string, addr: Option<Addr>) {
    forall i :: 0 <= i < |rules| ==> !RuleHolds(rules[i], host, addr)
  }

  lemma {:induction false} NaiveActionSkips(a: seq<RuleSpec>, b: seq<RuleSpec>, default: string, host: string, addr: Option<Addr>)
    requires NoneHolds(a, host, addr)
    ensures NaiveAction(a + b, default, host, addr) == NaiveAction(b, default, host, addr)
  {
    hide RuleHolds;
    if a == [] {
      assert a + b == b;
    } else {
      assert (a + b)[1..] == a[1..] + b;
      assert forall i :: 0 <= i < |a[1..]| ==> a[1..][i] == a[i + 1];
      NaiveActionSkips(a[1..], b, default, host, addr);
    }
  }

  // ---- compiling -----------------------------------------------------------------------------

  datatype Rule =
    | Simple(m: Matcher, action: string, invert: bool)
    | Compound(groups: seq<seq<Matcher>>, action: string, invert: bool)

  ghost predicate GroupMadeFrom(ms: seq<Matcher>, cs: seq<Criterion>) {
    |ms| == |cs| && forall i :: 0 <= i < |ms| ==> MadeFrom(ms[i], cs[i])
  }

  ghost predicate RuleMadeFrom(r: Rule, spec: RuleSpec) {
    match (r, spec)
    case (Simple(m, a, v), OneOf(c, a', v')) => MadeFrom(m, c) && a == a' && v == v'
    case (Compound(gs, a, v), AllOf(gs', a', v')) =>
      |gs| == |gs'| && a == a' && v == v' && forall g :: 0 <= g < |gs| ==> GroupMadeFrom(gs[g], gs'[g])
    case _ => false
  }

  /** How a filter for n keys is sized, and its hash. Any sizes will do. */
  datatype BloomParams = BloomParams(size: nat -> (nat, nat), hash: HashPair)
  {
    ghost predicate Valid() {
      forall n: nat :: n > 0 ==> size(n).0 > 0
    }
  }

  const BLOOM_THRESHOLD := 64

  /** `_GeositeRule.__init__`. */
  method BuildSite(entries: seq<SiteEntry>, p: BloomParams) returns (t: SiteTables)
    requires p.Valid()
    ensures TablesOf(t, entries)
  {
    var exact: set<string>, suffix: set<string>, keywords: seq<string> := {}, {}, [];
    for i := 0 to |entries|
      invariant forall v :: v in exact <==> ValuesOf(Exact, entries[..i], v)
      invariant forall v :: v in suffix <==> ValuesOf(Suffix, entries[..i], v)
      invariant forall v :: v in keywords <==> ValuesOf(Keyword, entries[..i], v)
    {
      ValuesSnoc(entries, i);
      var v := Lower(entries[i].value);
      match entries[i].kind
      case Exact => exact := exact + {v};
      case Suffix => suffix := suffix + {v};
      case Keyword => keywords := keywords + [v];
      case Other =>
    }
    assert entries[..|entries|] == entries;
    var bloom := None;
    if |suffix| >= BLOOM_THRESHOLD {
      var frozen := BuildBloom(suffix, p);
      bloom := Some(frozen);
    }
    t := SiteTables(exact, suffix, keywords, bloom);
  }

  lemma ValuesSnoc(entries: seq<SiteEntry>, i: nat)
    requires i < |entries|
    ensures forall kind, v :: ValuesOf(kind, entries[..i + 1], v)
              <==> ValuesOf(kind, entries[..i], v) || (entries[i].kind == kind && Lower(entries[i].value) == v)
  {
    forall kind, v
      ensures ValuesOf(kind, entries[..i + 1], v)
         <==> ValuesOf(kind, entries[..i], v) || (entries[i].kind == kind && Lower(entries[i].value) == v)
    {
      assert entries[..i + 1] == entries[..i] + [entries[i]];
      if ValuesOf(kind, entries[..i], v) {
        var k :| 0 <= k < i && entries[..i][k].kind == kind && Lower(entries[..i][k].value) == v;
        assert entries[..i + 1][k] == entries[..i][k];
      }
      assert entries[..i + 1][i] == entries[i];
    }
  }

  method BuildBloom(keys: set<string>, p: BloomParams) returns (f: Frozen)
    requires p.Valid() && |keys| > 0
    ensures forall s :: s in keys ==> f.MayContain(s)
  {
    var (m, k) := p.size(|keys|);
    var filter := new BloomFilter(m, k, p.hash);
    var todo := keys;
    ghost var done: set<string> := {};
    while todo != {}
      invariant filter.Valid() && fresh(filter.bits) && keys == todo + done
      invariant forall e :: e in done ==> filter.AsFrozen().MayContain(e)
      decreases todo
    {
      var key :| key in todo;
      filter.AddKey(key, done);
      done := done + {key};
      todo := todo - {key};
    }
    f := filter.AsFrozen();
  }

  /** `_GeoipRule.__init__`. */
  method BuildRanges(nets: seq<Net>) returns (v4: seq<(nat, nat)>, v6: seq<Net>)
    ensures RangesOf(v4, v6, nets)
  {
    hide InRange, InNet;
    v4, v6 := [], [];
    for i := 0 to |nets|
      invariant forall n: nat :: InSomeRange(n, v4) <==> InSome(V4(n), nets[..i])
      invariant forall n: nat :: InSome(V6(n), v6) <==> InSome(V6(n), nets[..i])
    {
      ghost var v4', v6' := v4, v6;
      if nets[i].Net4? {
        v4 := v4 + [RangeOf(nets[i])];
      } else {
        v6 := v6 + [nets[i]];
      }
      forall n: nat
        ensures InSomeRange(n, v4) <==> InSome(V4(n), nets[..i + 1])
        ensures InSome(V6(n), v6) <==> InSome(V6(n), nets[..i + 1])
      {
        OneMoreNet(n, nets, i, v4', v6');
      }
    }
    assert nets[..|nets|] == nets;
    SortRangesSorts(v4);
    SameRanges(v4, SortRanges(v4));
    v4 := SortRanges(v4);
  }

  lemma InSomeSnoc(addr: Addr, nets: seq<Net>, net: Net)
    ensures InSome(addr, nets + [net]) <==> InSome(addr, nets) || InNet(addr, net)
  {
    hide InNet;
    if InSome(addr, nets) {
      var k :| 0 <= k < |nets| && InNet(addr, nets[k]);
      assert (nets + [net])[k] == nets[k];
    }
    assert (nets + [net])[|nets|] == net;
  }

  lemma InSomeRangeSnoc(n: nat, v4: seq<(nat, nat)>, r: (nat, nat))
    ensures InSomeRange(n, v4 + [r]) <==> InSomeRange(n, v4) || InRange(n, r)
  {
    if InSomeRange(n, v4) {
      var k :| 0 <= k < |v4| && InRange(n, v4[k]);
      assert (v4 + [r])[k] == v4[k];
    }
    assert (v4 + [r])[|v4|] == r;
  }

  lemma OneMoreNet(n: nat, nets: seq<Net>, i: nat, v4: seq<(nat, nat)>, v6: seq<Net>)
    requires i < |nets| && (InSomeRange(n, v4) <==> InSome(V4(n), nets[..i]))
    requires InSome(V6(n), v6) <==> InSome(V6(n), nets[..i])
    ensures InSomeRange(n, if nets[i].Net4? then v4 + [RangeOf(nets[i])] else v4) <==> InSome(V4(n), nets[..i + 1])
    ensures InSome(V6(n), if nets[i].Net4? then v6 else v6 + [nets[i]]) <==> InSome(V6(n), nets[..i + 1])
  {
    hide InSome, InSomeRange, Masked, RangeOf, InRange;
    assert nets[..i + 1] == nets[..i] + [nets[i]];
    InSomeSnoc(V4(n), nets[..i], nets[i]);
    InSomeSnoc(V6(n), nets[..i], nets[i]);
    if nets[i].Net4? {
      RangeIsNet(n, nets[i]);
      InSomeRangeSnoc(n, v4, RangeOf(nets[i]));
    } else {
      InSomeSnoc(V6(n), v6, nets[i]);
    }
  }

  lemma SameRanges(a: seq<(nat, nat)>, b: seq<(nat, nat)>)
    requires multiset(a) == multiset(b)
    ensures forall n: nat :: InSomeRange(n, a) <==> InSomeRange(n, b)
  {
    forall n: nat ensures InSomeRange(n, a) <==> InSomeRange(n, b) {
      if InSomeRange(n, a) {
        var i :| 0 <= i < |a| && InRange(n, a[i]);
        assert a[i] in multiset(b);
      }
      if InSomeRange(n, b) {
        var i :| 0 <= i < |b| && InRange(n, b[i]);
        assert b[i] in multiset(a);
      }
    }
  }

  /** One criterion compiled. `search` is the regex engine's compiled pattern. */
  method Compile(c: Criterion, p: BloomParams, search: string -> bool) returns (m: Matcher)
    requires p.Valid()
    requires c.DomainRegex? ==> forall s :: search(s) <==> Search(c.ops, s)
    ensures MadeFrom(m, c)
  {
    match c
    case Domain(v) => m := MDomain(Lower(v));
    case DomainSuffix(v) => m := MSuffix(DropLeft(Lower(v), '.'), "." + DropLeft(Lower(v), '.'));
    case DomainKeyword(v) => m := MKeyword(Lower(v));
    case DomainRegex(ops) =>
      var literal := ExtractLiteral(ops);
      m := MRegex(literal, search);
    case IpCidr(net) => m := MCidr(net);
    case Geosite(entries) =>
      var t := BuildSite(entries, p);
      m := MGeosite(t);
    case Geoip(nets, inverse) =>
      var v4, v6 := BuildRanges(nets);
      m := MGeoip(v4, v6, inverse);
  }

  // ---- matching ------------------------------------------------------------------------------

  lemma SiteMeaning(t: SiteTables, entries: seq<SiteEntry>, host: string)
    requires TablesOf(t, entries)
    ensures (host in t.exact || (exists v :: v in t.suffix && EndsWith(host, "." + v))
             || exists i :: 0 <= i < |t.keywords| && Contains(host, t.keywords[i]))
       <==> Holds(Geosite(entries), host, None)
  {
    hide EndsWith, Contains, BloomComplete;
    if host in t.exact {
      var i :| 0 <= i < |entries| && entries[i].kind == Exact && Lower(entries[i].value) == host;
      assert EntryHolds(entries[i], host);
    }
    if v :| v in t.suffix && EndsWith(host, "." + v) {
      var i :| 0 <= i < |entries| && entries[i].kind == Suffix && Lower(entries[i].value) == v;
      assert EntryHolds(entries[i], host);
    }
    if k :| 0 <= k < |t.keywords| && Contains(host, t.keywords[k]) {
      assert t.keywords[k] in t.keywords;
      var i :| 0 <= i < |entries| && entries[i].kind == Keyword && Lower(entries[i].value) == t.keywords[k];
      assert EntryHolds(entries[i], host);
    }
    if i :| 0 <= i < |entries| && EntryHolds(entries[i], host) {
      assert ValuesOf(entries[i].kind, entries, Lower(entries[i].value));
      if entries[i].kind == Keyword {
        var k :| 0 <= k < |t.keywords| && t.keywords[k] == Lower(entries[i].value);
      }
    }
  }

  function Answer(b: bool): Outcome {
    if b then Hit else Miss
  }

  /** `_inner` of a rule with one criterion: the fast form answers the naive question. */
  method Inner(m: Matcher, host: string, addr: Option<Addr>, ghost c: Criterion) returns (r: Outcome)
    requires MadeFrom(m, c) && IsLower(host)
    ensures r != Miss <==> Holds(c, host, addr)
  {
    match m
    case MDomain(d) => r := Answer(host == d);
    case MSuffix(d, dot) => r := Answer(host == d || EndsWith(host, dot));
    case MKeyword(k) => r := Answer(Contains(host, k));
    case MRegex(literal, search) =>
      PrefilterSound(c.ops, literal, host);
      if literal != "" && !Contains(host, literal) {
        return Miss;
      }
      r := Answer(search(host));
    case MCidr(net) => r := Answer(addr.Some? && InNet(addr.value, net));
    case MGeosite(t) =>
      SiteMeaning(t, c.entries, host);
      r := MatchSite(t, host);
    case MGeoip(v4, v6, inverse) =>
      match addr {
        case None => return Miss;
        case Some(V4(n)) =>
          var inside := V4Contains(v4, n);
          r := Answer(inside != inverse);
        case Some(V6(n)) =>
          r := Answer(InSome(V6(n), v6) != inverse);
      }
  }

  /** `any(r.matches(...) for r in group)`. */
  method AnyInner(ms: seq<Matcher>, host: string, addr: Option<Addr>, ghost cs: seq<Criterion>) returns (b: bool)
    requires GroupMadeFrom(ms, cs) && IsLower(host)
    ensures b == SomeHolds(cs, host, addr)
  {
    hide MadeFrom, Holds;
    for i := 0 to |ms|
      invariant forall j :: 0 <= j < i ==> !Holds(cs[j], host, addr)
    {
      var r := Inner(ms[i], host, addr, cs[i]);
      if r != Miss {
        return true;
      }
    }
    return false;
  }

  /** `matches`: the inner answer, inverted if the rule says so. */
  method RuleMatches(rule: Rule, host: string, addr: Option<Addr>, ghost spec: RuleSpec) returns (r: Outcome)
    requires RuleMadeFrom(rule, spec) && IsLower(host)
    ensures r != Miss <==> RuleHolds(spec, host, addr)
  {
    hide MadeFrom, Holds, GroupMadeFrom, SomeHolds;
    match rule
    case Simple(m, _, invert) =>
      r := Inner(m, host, addr, spec.criterion);
      if invert {
        r := Answer(r == Miss);
      }
    case Compound(groups, _, invert) =>
      r := Hit;
      var g := 0;
      while g < |groups|
        invariant 0 <= g <= |groups| && r == Hit
        invariant forall h :: 0 <= h < g ==> SomeHolds(spec.groups[h], host, addr)
      {
        var b := AnyInner(groups[g], host, addr, spec.groups[g]);
        if !b {
          r := Miss;
          break;
        }
        g := g + 1;
      }
      if invert {
        r := Answer(r == Miss);
      }
  }

  /** Which rule decided (its number counts from 1), or that none did. */
  datatype Source = Final | Rule(number: nat, detail: Outcome)

  /** `host.lower().rstrip(".")`. */
  function Normal(host: string): (h: string)
    ensures IsLower(h)
  {
    LowerDrop(Lower(host));
    DropRight(Lower(host), '.')
  }

  lemma {:induction false} LowerDrop(s: string)
    requires IsLower(s)
    ensures IsLower(DropRight(s, '.'))
    decreases |s|
  {
    if s != [] && s[|s| - 1] == '.' {
      LowerDrop(s[..|s| - 1]);
    }
  }

  /** The normal form is the lowercased name without the dots it ends in, and nothing else is lost. */
  lemma NormalIs(host: string, h: string)
    ensures h == Normal(host)
       <==> (h == "" || h[|h| - 1] != '.') && exists dots: string :: Lower(host) == h + dots && AllSame(dots, '.')
  {
    hide Lower, DropRight;
    DroppedExactly(Lower(host), '.', h);
  }

  lemma NormalOfLower(host: string)
    ensures Normal(Lower(host)) == Normal(host)
  {
    LowerIsLower(host);
  }

  class Router {
    var rules: seq<Rule>
    var numbers: seq<nat>
    var default: string
    var nextIdx: nat
    ghost var specs: seq<RuleSpec>

    /** Each rule answers for its specification and carries its place in the list. */
    ghost predicate Valid()
      reads this
    {
      && |rules| == |specs| == |numbers|
      && nextIdx == |rules| + 1
      && (forall i :: 0 <= i < |rules| ==> RuleMadeFrom(rules[i], specs[i]) && numbers[i] == i + 1)
    }

    constructor (default: string)
      ensures Valid() && specs == [] && this.default == default
    {
      rules, numbers, nextIdx, specs, this.default := [], [], 1, [], default;
    }

    method SetDefault(action: string)
      requires Valid()
      modifies `default
      ensures Valid() && default == action
    {
      default := action;
    }

    method Add(rule: Rule, ghost spec: RuleSpec)
      requires Valid() && RuleMadeFrom(rule, spec)
      modifies this
      ensures Valid() && specs == old(specs) + [spec] && default == old(default)
    {
      hide RuleMadeFrom;
      rules := rules + [rule];
      numbers := numbers + [nextIdx];
      nextIdx := nextIdx + 1;
      specs := specs + [spec];
    }

    /** The decision for a host: the first rule whose naive meaning holds, else the default. */
    method Match(host: string, parse: string -> Option<Addr>) returns (action: string, source: Source)
      requires Valid()
      ensures action == NaiveAction(specs, default, Normal(host), parse(Normal(host)))
      ensures source == Final <==> NoneHolds(specs, Normal(host), parse(Normal(host)))
      ensures source.Rule? ==>
        && 1 <= source.number <= |specs| && source.detail != Miss
        && RuleHolds(specs[source.number - 1], Normal(host), parse(Normal(host)))
        && NoneHolds(specs[..source.number - 1], Normal(host), parse(Normal(host)))
        && action == specs[source.number - 1].action
    {
      hide RuleHolds, RuleMadeFrom, Normal;
      var h := Normal(host);
      var addr := parse(h);
      for i := 0 to |rules|
        invariant NoneHolds(specs[..i], h, addr)
      {
        var r := RuleMatches(rules[i], h, addr, specs[i]);
        assert specs == specs[..i] + specs[i..];
        NaiveActionSkips(specs[..i], specs[i..], default, h, addr);
        if r != Miss {
          ActionsAgree(rules[i], specs[i]);
          return rules[i].action, Rule(numbers[i], r);
        }
        assert specs[..i + 1] == specs[..i] + [specs[i]];
      }
      assert specs[..|rules|] == specs && specs + [] == specs;
      NaiveActionSkips(specs, [], default, h, addr);
      return default, Final;
    }
  }

  lemma ActionsAgree(r: Rule, spec: RuleSpec)
    requires RuleMadeFrom(r, spec)
    ensures r.action == spec.action
  {}
}
