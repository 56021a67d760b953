/** The geosite.dat and geoip.dat readers. Reading what any encoder wrote for a table, with unknown
    fields anywhere, gives back the table; and reading ends on every input. */
module GeoData {
  import opened Basics
  import opened Protobuf
  import Rules

  /** `bytes.decode(errors="replace")`, its inverse on text, and `str.upper`. */
  datatype TextCodec = TextCodec(decode: Bytes -> string, encode: string -> Bytes, upper: string -> string)
  {
    ghost predicate Lawful() {
      forall s: string :: decode(encode(s)) == s
    }
  }

  /** What a message parser comes to: an exception, None, or a value. */
  datatype Parsed<+T> = Raised | Nothing | Got(value: T)

  type Domain = (nat, string)
  type SiteTable = map<string, seq<Domain>>
  type IpTable = map<string, (seq<Rules.Net>, bool)>

  function TextOf(c: TextCodec, contents: seq<Bytes>): string {
    if contents == [] then "" else c.decode(contents[|contents| - 1])
  }

  function CodeOf(c: TextCodec, contents: seq<Bytes>): string {
    if contents == [] then "" else c.upper(c.decode(contents[|contents| - 1]))
  }

  /** A list field: every content parsed, None skipped, an exception passed on. */
  function ParseEach<T>(parse: Bytes -> Parsed<T>, contents: seq<Bytes>): Parsed<seq<T>> {
    if contents == [] then Got([])
    else
      match (parse(contents[0]), ParseEach(parse, contents[1..]))
      case (Raised, _) => Raised
      case (_, Raised) => Raised
      case (Nothing, rest) => rest
      case (Got(v), Got(vs)) => Got([v] + vs)
      case (Got(v), Nothing) => Got([v])
  }

  lemma {:induction false} ParseEachGot<T>(parse: Bytes -> Parsed<T>, contents: seq<Bytes>)
    ensures !ParseEach(parse, contents).Nothing?
  {
    if contents != [] {
      ParseEachGot(parse, contents[1..]);
    }
  }

  lemma {:induction false} ParseEachSnoc<T>(parse: Bytes -> Parsed<T>, contents: seq<Bytes>, last: Bytes)
    ensures ParseEach(parse, contents + [last])
         == match (ParseEach(parse, contents), parse(last))
            case (Raised, _) => Raised
            case (_, Raised) => Raised
            case (vs, Nothing) => vs
            case (Got(vs), Got(v)) => Got(vs + [v])
            case (Nothing, Got(v)) => Got([v])
  {
    ParseEachGot(parse, contents);
    if contents == [] {
      assert contents + [last] == [last] && ParseEach(parse, [last][1..]) == Got([]);
      if parse(last).Got? {
        assert [parse(last).value] + [] == [] + [parse(last).value];
      }
    } else {
      ParseEachGot(parse, contents[1..]);
      ParseEachSnoc(parse, contents[1..], last);
      assert (contents + [last])[1..] == contents[1..] + [last];
      if parse(contents[0]).Got? && ParseEach(parse, contents[1..]).Got? && parse(last).Got? {
        var v, vs, w := parse(contents[0]).value, ParseEach(parse, contents[1..]).value, parse(last).value;
        assert [v] + (vs + [w]) == ([v] + vs) + [w];
      }
    }
  }

  /** If an early content raises, so does the list. */
  lemma {:induction false} ParseEachRaised<T>(parse: Bytes -> Parsed<T>, contents: seq<Bytes>, i: nat)
    requires i < |contents| && parse(contents[i]) == Raised
    ensures ParseEach(parse, contents) == Raised
  {
    if i > 0 {
      ParseEachRaised(parse, contents[1..], i - 1);
    }
  }

  /** The entries of a file go into the table in order; an exception ends the reading. */
  function LoadEach<V>(parse: Bytes -> Parsed<(string, V)>, contents: seq<Bytes>, table: map<string, V>): map<string, V>
    decreases |contents|
  {
    if contents == [] then table
    else
      match parse(contents[0])
      case Raised => table
      case Nothing => LoadEach(parse, contents[1..], table)
      case Got((code, v)) => LoadEach(parse, contents[1..], table[code := v])
  }

  ghost predicate NoneRaises<V>(parse: Bytes -> Parsed<(string, V)>, contents: seq<Bytes>) {
    forall i :: 0 <= i < |contents| ==> !parse(contents[i]).Raised?
  }

  lemma {:induction false} LoadEachSnoc<V>(parse: Bytes -> Parsed<(string, V)>, contents: seq<Bytes>, last: Bytes, table: map<string, V>)
    requires NoneRaises(parse, contents)
    ensures LoadEach(parse, contents + [last], table) == LoadEach(parse, [last], LoadEach(parse, contents, table))
    decreases |contents|
  {
    if contents == [] {
      assert contents + [last] == [last];
    } else {
      assert (contents + [last])[1..] == contents[1..] + [last];
      assert NoneRaises(parse, contents[1..]) by {
        assert forall i :: 0 <= i < |contents[1..]| ==> contents[1..][i] == contents[i + 1];
      }
      match parse(contents[0])
      case Nothing => LoadEachSnoc(parse, contents[1..], last, table);
      case Got((code, v)) => LoadEachSnoc(parse, contents[1..], last, table[code := v]);
    }
  }

  lemma LoadEachOne<V>(parse: Bytes -> Parsed<(string, V)>, last: Bytes, table: map<string, V>)
    ensures LoadEach(parse, [last], table) == match parse(last) case Got((code, v)) => table[code := v] case _ => table
  {
    assert [last][1..] == [];
  }

  /** An exception hides whatever comes after it. */
  lemma {:induction false} LoadEachStops<V>(parse: Bytes -> Parsed<(string, V)>, contents: seq<Bytes>, i: nat, table: map<string, V>)
    requires i < |contents| && parse(contents[i]) == Raised && NoneRaises(parse, contents[..i])
    ensures LoadEach(parse, contents, table) == LoadEach(parse, contents[..i], table)
    decreases |contents|
  {
    if i > 0 {
      assert contents[..i][0] == contents[0] && contents[..i][1..] == contents[1..][..i - 1];
      assert NoneRaises(parse, contents[1..][..i - 1]) by {
        var early := contents[1..][..i - 1];
        forall k | 0 <= k < |early| ensures !parse(early[k]).Raised? {
          assert contents[..i][k + 1] == early[k];
        }
      }
      match parse(contents[0])
      case Nothing => LoadEachStops(parse, contents[1..], i - 1, table);
      case Got((code, v)) => LoadEachStops(parse, contents[1..], i - 1, table[code := v]);
    }
  }

  // ---- the messages --------------------------------------------------------------------------

  function ParseDomain(c: TextCodec, b: Bytes): Parsed<Domain> {
    var (fs, end) := Fields(b);
    if end == Truncated then Raised
    else
      var value := TextOf(c, Contents(fs, 2));
      if value == "" then Nothing else Got((Last(Varints(fs, 1), 0), value))
  }

  function DomainParser(c: TextCodec): Bytes -> Parsed<Domain> {
    b => ParseDomain(c, b)
  }

  function SiteParser(c: TextCodec): Bytes -> Parsed<(string, seq<Domain>)> {
    b => ParseSite(c, b)
  }

  function IpParser(c: TextCodec): Bytes -> Parsed<(string, (seq<Rules.Net>, bool))> {
    b => ParseIp(c, b)
  }

  function CidrParser(): Bytes -> Parsed<Rules.Net> {
    b => ParseCidr(b)
  }

  function ParseSite(c: TextCodec, b: Bytes): Parsed<(string, seq<Domain>)> {
    var (fs, end) := Fields(b);
    match ParseEach(DomainParser(c), Contents(fs, 2))
    case Got(domains) =>
      var code := CodeOf(c, Contents(fs, 1));
      if end == Truncated then Raised else if code == "" then Nothing else Got((code, domains))
    case _ => Raised
  }

  function FromBig(b: Bytes): nat {
    if b == [] then 0 else 256 * FromBig(b[..|b| - 1]) + b[|b| - 1] as int
  }

  function ParseCidr(b: Bytes): Parsed<Rules.Net> {
    var (fs, end) := Fields(b);
    var ip, prefix := Last(Contents(fs, 1), []), Last(Varints(fs, 2), 0);
    if end == Truncated then Raised
    else if |ip| == 4 && prefix <= 32 then Got(Rules.Net4(FromBig(ip), prefix))
    else if |ip| == 16 && prefix <= 128 then Got(Rules.Net6(FromBig(ip), prefix))
    else Nothing
  }

  function ParseIp(c: TextCodec, b: Bytes): Parsed<(string, (seq<Rules.Net>, bool))> {
    var (fs, end) := Fields(b);
    match ParseEach(CidrParser(), Contents(fs, 2))
    case Got(nets) =>
      var code := CodeOf(c, Contents(fs, 1));
      if end == Truncated then Raised
      else if code == "" then Nothing
      else Got((code, (nets, Last(Varints(fs, 3), 0) != 0)))
    case _ => Raised
  }

  function LoadSites(c: TextCodec, b: Bytes): SiteTable {
    LoadEach(SiteParser(c), Contents(Fields(b).0, 1), map[])
  }

  function LoadIps(c: TextCodec, b: Bytes): IpTable {
    LoadEach(IpParser(c), Contents(Fields(b).0, 1), map[])
  }

  // ---- what an encoder may write -------------------------------------------------------------

  /** A scalar field holding n: of several occurrences the last counts, and proto3 encoders leave out a zero. */
  predicate Holds(values: seq<nat>, n: nat) {
    if values == [] then n == 0 else values[|values| - 1] == n
  }

  function Power256(k: nat): (p: nat)
    ensures p >= 1
  {
    if k == 0 then 1 else 256 * Power256(k - 1)
  }

  /** The bytes of an address of that size, the most significant first. */
  ghost predicate IsAddress(ip: Bytes, n: nat, size: nat) {
    |ip| == size && n < Power256(size)
    && forall i :: 0 <= i < size ==> ip[i] as int == n / Power256(size - 1 - i) % 256
  }

  /** A single content: of several occurrences the last counts. */
  predicate LastIs(contents: seq<Bytes>, content: Bytes) {
    contents != [] && contents[|contents| - 1] == content
  }

  /** Some encoding of a domain: its own fields, and any other fields anywhere. */
  ghost predicate DomainMsg(c: TextCodec, b: Bytes, d: Domain) {
    exists fs :: FieldsBytes(b, fs) && Holds(Varints(fs, 1), d.0) && LastIs(Contents(fs, 2), c.encode(d.1))
  }

  ghost predicate DomainMsgs(c: TextCodec, bs: seq<Bytes>, ds: seq<Domain>) {
    |bs| == |ds| && forall i :: 0 <= i < |bs| ==> DomainMsg(c, bs[i], ds[i]) && ds[i].1 != ""
  }

  ghost predicate SiteMsg(c: TextCodec, b: Bytes, code: string, ds: seq<Domain>) {
    exists fs :: FieldsBytes(b, fs) && LastIs(Contents(fs, 1), c.encode(code)) && DomainMsgs(c, Contents(fs, 2), ds)
  }

  ghost predicate CidrMsg(b: Bytes, net: Rules.Net) {
    exists fs, ip ::
      && FieldsBytes(b, fs) && LastIs(Contents(fs, 1), ip) && Holds(Varints(fs, 2), net.prefix)
      && if net.Net4? then IsAddress(ip, net.base, 4) && net.prefix <= 32 else IsAddress(ip, net.base, 16) && net.prefix <= 128
  }

  ghost predicate CidrMsgs(bs: seq<Bytes>, nets: seq<Rules.Net>) {
    |bs| == |nets| && forall i :: 0 <= i < |bs| ==> CidrMsg(bs[i], nets[i])
  }

  ghost predicate IpMsg(c: TextCodec, b: Bytes, code: string, nets: seq<Rules.Net>, inverse: bool) {
    exists fs ::
      && FieldsBytes(b, fs) && LastIs(Contents(fs, 1), c.encode(code)) && CidrMsgs(Contents(fs, 2), nets)
      && exists flag :: Holds(Varints(fs, 3), flag) && inverse == (flag != 0)
  }

  /** A table's codes: nonempty, upper case, and each once. */
  ghost predicate GoodCodes(c: TextCodec, codes: seq<string>) {
    && (forall i :: 0 <= i < |codes| ==> codes[i] != "" && c.upper(codes[i]) == codes[i])
    && (forall i, j :: 0 <= i < j < |codes| ==> codes[i] != codes[j])
  }

  ghost predicate SiteFile(c: TextCodec, b: Bytes, codes: seq<string>, lists: seq<seq<Domain>>) {
    |codes| == |lists| &&
    exists fs :: FieldsBytes(b, fs) && |Contents(fs, 1)| == |codes|
                 && forall i :: 0 <= i < |codes| ==> SiteMsg(c, Contents(fs, 1)[i], codes[i], lists[i])
  }

  ghost predicate IpFile(c: TextCodec, b: Bytes, codes: seq<string>, lists: seq<(seq<Rules.Net>, bool)>) {
    |codes| == |lists| &&
    exists fs :: FieldsBytes(b, fs) && |Contents(fs, 1)| == |codes|
                 && forall i :: 0 <= i < |codes| ==> IpMsg(c, Contents(fs, 1)[i], codes[i], lists[i].0, lists[i].1)
  }

  /** The table holds exactly these lists under these codes. */
  ghost predicate IsTable<V>(table: map<string, V>, codes: seq<string>, lists: seq<V>) {
    |codes| == |lists|
    && (forall i :: 0 <= i < |codes| ==> codes[i] in table && table[codes[i]] == lists[i])
    && (forall code :: code in table ==> code in codes)
  }

  // ---- round trips ---------------------------------------------------------------------------

  lemma DomainReadsBack(c: TextCodec, b: Bytes, d: Domain)
    requires c.Lawful() && DomainMsg(c, b, d) && d.1 != ""
    ensures ParseDomain(c, b) == Got(d)
  {
    hide Contents, Varints, FieldsBytes;
    var fs :| FieldsBytes(b, fs) && Holds(Varints(fs, 1), d.0) && LastIs(Contents(fs, 2), c.encode(d.1));
    FieldsRoundTrip(b, fs);
  }

  lemma {:induction false} DomainsReadBack(c: TextCodec, bs: seq<Bytes>, ds: seq<Domain>)
    requires c.Lawful() && DomainMsgs(c, bs, ds)
    ensures ParseEach(DomainParser(c), bs) == Got(ds)
    decreases |bs|
  {
    hide ParseDomain, DomainMsg;
    if bs != [] {
      assert DomainMsg(c, bs[0], ds[0]);
      DomainReadsBack(c, bs[0], ds[0]);
      assert forall i :: 0 <= i < |bs[1..]| ==> bs[1..][i] == bs[i + 1] && ds[1..][i] == ds[i + 1];
      DomainsReadBack(c, bs[1..], ds[1..]);
      assert [ds[0]] + ds[1..] == ds;
    }
  }

  lemma SiteReadsBack(c: TextCodec, b: Bytes, code: string, ds: seq<Domain>)
    requires c.Lawful() && SiteMsg(c, b, code, ds) && code != "" && c.upper(code) == code
    ensures ParseSite(c, b) == Got((code, ds))
  {
    hide Contents, FieldsBytes, ParseDomain, DomainMsgs;
    var fs :| FieldsBytes(b, fs) && LastIs(Contents(fs, 1), c.encode(code)) && DomainMsgs(c, Contents(fs, 2), ds);
    FieldsRoundTrip(b, fs);
    DomainsReadBack(c, Contents(fs, 2), ds);
  }

  lemma {:induction false} FromBigReads(ip: Bytes, n: nat, size: nat)
    requires IsAddress(ip, n, size)
    ensures FromBig(ip) == n
    decreases size
  {
    if size > 0 {
      var front := ip[..size - 1];
      forall i | 0 <= i < size - 1 ensures front[i] as int == n / 256 / Power256(size - 2 - i) % 256 {
        DivTwice(n, 256, Power256(size - 2 - i), Power256(size - 1 - i));
      }
      FromBigReads(front, n / 256, size - 1);
    }
  }

  lemma CidrReadsBack(b: Bytes, net: Rules.Net)
    requires CidrMsg(b, net)
    ensures ParseCidr(b) == Got(net)
  {
    hide Contents, Varints, FieldsBytes, FromBig, Power256;
    var fs, ip :|
      && FieldsBytes(b, fs) && LastIs(Contents(fs, 1), ip) && Holds(Varints(fs, 2), net.prefix)
      && if net.Net4? then IsAddress(ip, net.base, 4) && net.prefix <= 32 else IsAddress(ip, net.base, 16) && net.prefix <= 128;
    FieldsRoundTrip(b, fs);
    FromBigReads(ip, net.base, |ip|);
  }

  lemma {:induction false} CidrsReadBack(bs: seq<Bytes>, nets: seq<Rules.Net>)
    requires CidrMsgs(bs, nets)
    ensures ParseEach(CidrParser(), bs) == Got(nets)
    decreases |bs|
  {
    hide CidrMsg;
    if bs != [] {
      CidrReadsBack(bs[0], nets[0]);
      assert forall i :: 0 <= i < |bs[1..]| ==> bs[1..][i] == bs[i + 1] && nets[1..][i] == nets[i + 1];
      CidrsReadBack(bs[1..], nets[1..]);
      assert [nets[0]] + nets[1..] == nets;
    }
  }

  lemma IpReadsBack(c: TextCodec, b: Bytes, code: string, nets: seq<Rules.Net>, inverse: bool)
    requires c.Lawful() && IpMsg(c, b, code, nets, inverse) && code != "" && c.upper(code) == code
    ensures ParseIp(c, b) == Got((code, (nets, inverse)))
  {
    hide Contents, Varints, FieldsBytes, ParseCidr, CidrMsgs;
    var fs :|
      && FieldsBytes(b, fs) && LastIs(Contents(fs, 1), c.encode(code)) && CidrMsgs(Contents(fs, 2), nets)
      && inverse == (Last(Varints(fs, 3), 0) != 0);
    FieldsRoundTrip(b, fs);
    CidrsReadBack(Contents(fs, 2), nets);
  }

  /** Entries with distinct codes fill a table with exactly themselves. */
  lemma {:induction false} LoadedIsTable<V>(parse: Bytes -> Parsed<(string, V)>, bs: seq<Bytes>, codes: seq<string>, lists: seq<V>)
    requires |bs| == |codes| == |lists|
    requires forall i :: 0 <= i < |bs| ==> parse(bs[i]) == Got((codes[i], lists[i]))
    requires forall i, j :: 0 <= i < j < |codes| ==> codes[i] != codes[j]
    ensures IsTable(LoadEach(parse, bs, map[]), codes, lists)
    decreases |bs|
  {
    if bs != [] {
      var n := |bs| - 1;
      var bs', codes', lists' := bs[..n], codes[..n], lists[..n];
      LoadedIsTable(parse, bs', codes', lists');
      assert bs == bs' + [bs[n]] && codes == codes' + [codes[n]];
      LoadEachSnoc(parse, bs', bs[n], map[]);
      LoadEachOne(parse, bs[n], LoadEach(parse, bs', map[]));
      forall i | 0 <= i < n ensures codes[i] == codes'[i] && lists[i] == lists'[i] {}
    }
  }

  /** Any encoding of a geosite table, unknown fields and all, reads back as that table. */
  lemma SiteFileRoundTrip(c: TextCodec, b: Bytes, codes: seq<string>, lists: seq<seq<Domain>>)
    requires c.Lawful() && SiteFile(c, b, codes, lists) && GoodCodes(c, codes)
    ensures IsTable(LoadSites(c, b), codes, lists)
  {
    hide SiteMsg, ParseSite, Contents, FieldsBytes, IsTable;
    var fs :| FieldsBytes(b, fs) && |Contents(fs, 1)| == |codes|
              && forall i :: 0 <= i < |codes| ==> SiteMsg(c, Contents(fs, 1)[i], codes[i], lists[i]);
    FieldsRoundTrip(b, fs);
    forall i | 0 <= i < |codes| ensures ParseSite(c, Contents(fs, 1)[i]) == Got((codes[i], lists[i])) {
      SiteReadsBack(c, Contents(fs, 1)[i], codes[i], lists[i]);
    }
    LoadedIsTable(SiteParser(c), Contents(fs, 1), codes, lists);
  }

  lemma IpFileRoundTrip(c: TextCodec, b: Bytes, codes: seq<string>, lists: seq<(seq<Rules.Net>, bool)>)
    requires c.Lawful() && IpFile(c, b, codes, lists) && GoodCodes(c, codes)
    ensures IsTable(LoadIps(c, b), codes, lists)
  {
    hide IpMsg, ParseIp, Contents, FieldsBytes, IsTable;
    var fs :| FieldsBytes(b, fs) && |Contents(fs, 1)| == |codes|
              && forall i :: 0 <= i < |codes| ==> IpMsg(c, Contents(fs, 1)[i], codes[i], lists[i].0, lists[i].1);
    FieldsRoundTrip(b, fs);
    forall i | 0 <= i < |codes| ensures ParseIp(c, Contents(fs, 1)[i]) == Got((codes[i], lists[i])) {
      IpReadsBack(c, Contents(fs, 1)[i], codes[i], lists[i].0, lists[i].1);
    }
    LoadedIsTable(IpParser(c), Contents(fs, 1), codes, lists);
  }

  // ---- the readers' loops ----------------------------------------------------------------------

  /** The fields before position pos are `done`; those from there on are still to be read. */
  ghost predicate ReadSoFar(mv: Bytes, pos: nat, done: seq<Field>) {
    pos <= |mv| && Fields(mv).0 == done + Fields(mv[pos..]).0 && Fields(mv).1 == Fields(mv[pos..]).1
  }

  lemma ReadStart(mv: Bytes)
    ensures ReadSoFar(mv, 0, [])
  {
    assert mv[0..] == mv && [] + Fields(mv).0 == Fields(mv).0;
  }

  lemma ReadOn(mv: Bytes, pos: nat, done: seq<Field>, r: FieldRead, next: nat)
    requires ReadSoFar(mv, pos, done) && pos < |mv| && r == FirstField(mv[pos..])
    requires r.OneField? ==> next <= |mv| && r.rest == mv[next..]
    ensures r.OneField? ==> ReadSoFar(mv, next, done + [r.field])
    ensures r.NoField? ==> Fields(mv) == (done, r.ending)
  {
    hide FirstField;
    if r.OneField? {
      assert done + ([r.field] + Fields(mv[next..]).0) == (done + [r.field]) + Fields(mv[next..]).0;
    } else {
      assert done + [] == done;
    }
  }

  lemma ReadEnd(mv: Bytes, pos: nat, done: seq<Field>)
    requires ReadSoFar(mv, pos, done) && pos >= |mv|
    ensures Fields(mv) == (done, Finished)
  {
    assert mv[pos..] == [] && done + [] == done;
  }

  method ParseDomainMsg(c: TextCodec, mv: Bytes) returns (r: Parsed<Domain>)
    ensures r == ParseDomain(c, mv)
  {
    hide FirstField, Fields;
    var pos, kind, value := 0, 0, "";
    ghost var done: seq<Field> := [];
    ReadStart(mv);
    while pos < |mv|
      invariant ReadSoFar(mv, pos, done)
      invariant kind == Last(Varints(done, 1), 0) && value == TextOf(c, Contents(done, 2))
      decreases |mv| - pos
    {
      var read, next := ReadField(mv, pos);
      ReadOn(mv, pos, done, read, next);
      if read.NoField? {
        if read.ending == Truncated {
          return Raised;
        }
        return if value == "" then Nothing else Got((kind, value));
      }
      VarintsSnoc(done, read.field, 1);
      ContentsSnoc(done, read.field, 2);
      match read.field {
        case VarintField(number, v) => kind := if number == 1 then v else kind;
        case BytesField(number, content) => value := if number == 2 then c.decode(content) else value;
      }
      done := done + [read.field];
      pos := next;
    }
    ReadEnd(mv, pos, done);
    return if value == "" then Nothing else Got((kind, value));
  }

  method ParseCidrMsg(mv: Bytes) returns (r: Parsed<Rules.Net>)
    ensures r == ParseCidr(mv)
  {
    hide FirstField, Fields, FromBig;
    var pos, ip: Bytes, prefix := 0, [], 0;
    ghost var done: seq<Field> := [];
    ReadStart(mv);
    while pos < |mv|
      invariant ReadSoFar(mv, pos, done)
      invariant ip == Last(Contents(done, 1), []) && prefix == Last(Varints(done, 2), 0)
      decreases |mv| - pos
    {
      var read, next := ReadField(mv, pos);
      ReadOn(mv, pos, done, read, next);
      if read.NoField? {
        if read.ending == Truncated {
          return Raised;
        }
        return MakeNet(ip, prefix);
      }
      VarintsSnoc(done, read.field, 2);
      ContentsSnoc(done, read.field, 1);
      match read.field {
        case VarintField(number, v) => prefix := if number == 2 then v else prefix;
        case BytesField(number, content) => ip := if number == 1 then content else ip;
      }
      done := done + [read.field];
      pos := next;
    }
    ReadEnd(mv, pos, done);
    return MakeNet(ip, prefix);
  }

  /** The network object of an address and prefix; None for other lengths or a prefix too long. */
  function MakeNet(ip: Bytes, prefix: nat): Parsed<Rules.Net> {
    if |ip| == 4 && prefix <= 32 then Got(Rules.Net4(FromBig(ip), prefix))
    else if |ip| == 16 && prefix <= 128 then Got(Rules.Net6(FromBig(ip), prefix))
    else Nothing
  }

  lemma NothingYet<T>(parse: Bytes -> Parsed<T>)
    ensures Contents([], 1) == [] && Varints([], 3) == [] && ParseEach(parse, Contents([], 2)) == Got([])
  {
  }

  method ParseSiteMsg(c: TextCodec, mv: Bytes) returns (r: Parsed<(string, seq<Domain>)>)
    ensures r == ParseSite(c, mv)
  {
    hide FirstField, Fields, ParseDomain, Contents, ParseEach;
    var parse := DomainParser(c);
    var pos, code, domains: seq<Domain> := 0, "", [];
    ghost var done: seq<Field> := [];
    NothingYet(parse);
    ReadStart(mv);
    while pos < |mv|
      invariant ReadSoFar(mv, pos, done)
      invariant code == CodeOf(c, Contents(done, 1))
      invariant ParseEach(parse, Contents(done, 2)) == Got(domains)
      decreases |mv| - pos
    {
      var read, next := ReadField(mv, pos);
      ReadOn(mv, pos, done, read, next);
      if read.NoField? {
        if read.ending == Truncated {
          return Raised;
        }
        return if code == "" then Nothing else Got((code, domains));
      }
      ContentsSnoc(done, read.field, 1);
      ContentsSnoc(done, read.field, 2);
      assert Contents(done, 2) + [] == Contents(done, 2) && Contents(done, 1) + [] == Contents(done, 1);
      if read.field.BytesField? {
        if read.field.number == 1 {
          code := c.upper(c.decode(read.field.content));
        } else if read.field.number == 2 {
          var d := ParseDomainMsg(c, read.field.content);
          ParseEachSnoc(parse, Contents(done, 2), read.field.content);
          if d.Raised? {
            RaisedLater(parse, mv, next, done + [read.field], 2);
            return Raised;
          }
          if d.Got? {
            domains := domains + [d.value];
          }
        }
      }
      done := done + [read.field];
      pos := next;
    }
    ReadEnd(mv, pos, done);
    return if code == "" then Nothing else Got((code, domains));
  }

  /** Once a content raises, so does the list of all of them. */
  lemma RaisedLater<T>(parse: Bytes -> Parsed<T>, mv: Bytes, pos: nat, done: seq<Field>, number: nat)
    requires ReadSoFar(mv, pos, done) && ParseEach(parse, Contents(done, number)) == Raised
    ensures ParseEach(parse, Contents(Fields(mv).0, number)) == Raised
  {
    hide Fields, Contents;
    ContentsAppend(done, Fields(mv[pos..]).0, number);
    RaisedPrefix(parse, Contents(done, number), Contents(Fields(mv[pos..]).0, number));
  }

  lemma {:induction false} RaisedPrefix<T>(parse: Bytes -> Parsed<T>, a: seq<Bytes>, b: seq<Bytes>)
    requires ParseEach(parse, a) == Raised
    ensures ParseEach(parse, a + b) == Raised
    decreases |a|
  {
    assert (a + b)[0] == a[0] && (a + b)[1..] == a[1..] + b;
    ParseEachGot(parse, a[1..]);
    if ParseEach(parse, a[1..]) == Raised {
      RaisedPrefix(parse, a[1..], b);
    }
  }

  method ParseIpMsg(c: TextCodec, mv: Bytes) returns (r: Parsed<(string, (seq<Rules.Net>, bool))>)
    ensures r == ParseIp(c, mv)
  {
    hide FirstField, Fields, ParseCidr, Contents, Varints, ParseEach;
    var pos, code, nets: seq<Rules.Net>, inverse := 0, "", [], false;
    ghost var done: seq<Field> := [];
    NothingYet(CidrParser());
    ReadStart(mv);
    while pos < |mv|
      invariant ReadSoFar(mv, pos, done)
      invariant code == CodeOf(c, Contents(done, 1))
      invariant ParseEach(CidrParser(), Contents(done, 2)) == Got(nets)
      invariant inverse == (Last(Varints(done, 3), 0) != 0)
      decreases |mv| - pos
    {
      var read, next := ReadField(mv, pos);
      ReadOn(mv, pos, done, read, next);
      if read.NoField? {
        if read.ending == Truncated {
          return Raised;
        }
        return if code == "" then Nothing else Got((code, (nets, inverse)));
      }
      ContentsSnoc(done, read.field, 1);
      ContentsSnoc(done, read.field, 2);
      VarintsSnoc(done, read.field, 3);
      assert Contents(done, 2) + [] == Contents(done, 2) && Contents(done, 1) + [] == Contents(done, 1);
      match read.field {
        case VarintField(number, v) =>
          if number == 3 {
            inverse := v != 0;
          }
        case BytesField(number, content) =>
          if number == 1 {
            code := c.upper(c.decode(content));
          } else if number == 2 {
            var net := ParseCidrMsg(content);
            ParseEachSnoc(CidrParser(), Contents(done, 2), content);
            if net.Raised? {
              RaisedLater(CidrParser(), mv, next, done + [read.field], 2);
              return Raised;
            }
            if net.Got? {
              nets := nets + [net.value];
            }
          }
      }
      done := done + [read.field];
      pos := next;
    }
    ReadEnd(mv, pos, done);
    return if code == "" then Nothing else Got((code, (nets, inverse)));
  }

  /** An entry that raises ends the file: the table is what came before it. */
  lemma StopsHere<V>(parse: Bytes -> Parsed<(string, V)>, mv: Bytes, next: nat, done: seq<Field>, f: Field, number: nat)
    requires ReadSoFar(mv, next, done + [f]) && f.BytesField? && f.number == number
    requires NoneRaises(parse, Contents(done, number)) && parse(f.content) == Raised
    ensures LoadEach(parse, Contents(Fields(mv).0, number), map[]) == LoadEach(parse, Contents(done, number), map[])
  {
    hide Fields, Contents, LoadEach;
    var before, rest := Contents(done, number), Contents(Fields(mv[next..]).0, number);
    ContentsSnoc(done, f, number);
    ContentsAppend(done + [f], Fields(mv[next..]).0, number);
    var all := (before + [f.content]) + rest;
    assert all[..|before|] == before && all[|before|] == f.content;
    LoadEachStops(parse, all, |before|, map[]);
  }

  /** One more entry read: the table is that of the entries so far. */
  lemma OneMoreEntry<V>(parse: Bytes -> Parsed<(string, V)>, done: seq<Field>, f: Field, number: nat)
    requires NoneRaises(parse, Contents(done, number))
    requires ContentIn(f, number) != [] ==> f.BytesField? && !parse(f.content).Raised?
    ensures NoneRaises(parse, Contents(done + [f], number))
    ensures LoadEach(parse, Contents(done + [f], number), map[])
         == var table := LoadEach(parse, Contents(done, number), map[]);
            if ContentIn(f, number) == [] then table
            else match parse(f.content) case Got((code, v)) => table[code := v] case _ => table
  {
    hide Contents, LoadEach;
    var before := Contents(done, number);
    ContentsSnoc(done, f, number);
    if ContentIn(f, number) == [] {
      assert before + [] == before;
    } else {
      LoadEachSnoc(parse, before, f.content, map[]);
      LoadEachOne(parse, f.content, LoadEach(parse, before, map[]));
    }
  }

  /** `load_geosite_dat`: an exception or an unknown wire type ends the reading, keeping what was read. */
  method LoadGeosite(c: TextCodec, data: Bytes) returns (table: SiteTable)
    ensures table == LoadSites(c, data)
  {
    hide FirstField, Fields, ParseSite, LoadEach, Contents;
    table := map[];
    var pos := 0;
    ghost var done: seq<Field> := [];
    ReadStart(data);
    EmptyTable(SiteParser(c), 1);
    while pos < |data|
      invariant ReadSoFar(data, pos, done) && NoneRaises(SiteParser(c), Contents(done, 1))
      invariant table == LoadEach(SiteParser(c), Contents(done, 1), map[])
      decreases |data| - pos
    {
      var read, next := ReadField(data, pos);
      ReadOn(data, pos, done, read, next);
      if read.NoField? {
        return;
      }
      if read.field.BytesField? && read.field.number == 1 {
        var entry := ParseSiteMsg(c, read.field.content);
        if entry.Raised? {
          StopsHere(SiteParser(c), data, next, done, read.field, 1);
          return;
        }
        OneMoreEntry(SiteParser(c), done, read.field, 1);
        if entry.Got? {
          table := table[entry.value.0 := entry.value.1];
        }
      } else {
        OneMoreEntry(SiteParser(c), done, read.field, 1);
      }
      done := done + [read.field];
      pos := next;
    }
    ReadEnd(data, pos, done);
  }

  lemma EmptyTable<V>(parse: Bytes -> Parsed<(string, V)>, number: nat)
    ensures NoneRaises(parse, Contents([], number)) && LoadEach(parse, Contents([], number), map[]) == map[]
  {
  }

  /** `load_geoip_dat`. */
  method LoadGeoip(c: TextCodec, data: Bytes) returns (table: IpTable)
    ensures table == LoadIps(c, data)
  {
    hide FirstField, Fields, ParseIp, LoadEach, Contents;
    table := map[];
    var pos := 0;
    ghost var done: seq<Field> := [];
    ReadStart(data);
    EmptyTable(IpParser(c), 1);
    while pos < |data|
      invariant ReadSoFar(data, pos, done) && NoneRaises(IpParser(c), Contents(done, 1))
      invariant table == LoadEach(IpParser(c), Contents(done, 1), map[])
      decreases |data| - pos
    {
      var read, next := ReadField(data, pos);
      ReadOn(data, pos, done, read, next);
      if read.NoField? {
        return;
      }
      if read.field.BytesField? && read.field.number == 1 {
        var entry := ParseIpMsg(c, read.field.content);
        if entry.Raised? {
          StopsHere(IpParser(c), data, next, done, read.field, 1);
          return;
        }
        OneMoreEntry(IpParser(c), done, read.field, 1);
        if entry.Got? {
          table := table[entry.value.0 := entry.value.1];
        }
      } else {
        OneMoreEntry(IpParser(c), done, read.field, 1);
      }
      done := done + [read.field];
      pos := next;
    }
    ReadEnd(data, pos, done);
  }
}
