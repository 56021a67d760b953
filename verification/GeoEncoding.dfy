/** An encoder of geosite and geoip tables: what it writes is among the encodings that load as the table. */
module GeoEncoding {
  import opened Basics
  import opened Protobuf
  import opened GeoData
  import Rules

  /** Contents under one field number, in order. */
  function Fielded(number: nat, contents: seq<Bytes>): seq<Field> {
    seq(|contents|, i requires 0 <= i < |contents| => BytesField(number, contents[i]))
  }

  lemma {:induction false} FieldedReads(number: nat, contents: seq<Bytes>, other: nat)
    requires other != number
    ensures Contents(Fielded(number, contents), number) == contents
    ensures Contents(Fielded(number, contents), other) == []
    ensures Varints(Fielded(number, contents), other) == []
  {
    var fs := Fielded(number, contents);
    if contents != [] {
      FieldedReads(number, contents[1..], other);
      assert fs[1..] == Fielded(number, contents[1..]);
      assert [contents[0]] + contents[1..] == contents;
    }
  }

  // ---- geosite -------------------------------------------------------------------------------

  function EncodeDomain(c: TextCodec, d: Domain): Bytes {
    EncodeFields([VarintField(1, d.0), BytesField(2, c.encode(d.1))])
  }

  function EncodeSite(c: TextCodec, code: string, ds: seq<Domain>): Bytes {
    EncodeFields([BytesField(1, c.encode(code))]
                 + Fielded(2, seq(|ds|, i requires 0 <= i < |ds| => EncodeDomain(c, ds[i]))))
  }

  function EncodeSites(c: TextCodec, codes: seq<string>, lists: seq<seq<Domain>>): Bytes
    requires |codes| == |lists|
  {
    EncodeFields(Fielded(1, seq(|codes|, i requires 0 <= i < |codes| => EncodeSite(c, codes[i], lists[i]))))
  }

  lemma DomainWritten(c: TextCodec, d: Domain)
    ensures DomainMsg(c, EncodeDomain(c, d), d)
  {
    hide FieldsBytes, EncodeFields;
    var fs := [VarintField(1, d.0), BytesField(2, c.encode(d.1))];
    var parts := ShortestFields(fs);
    PairReads(fs[0], fs[1]);
  }

  lemma PairReads(f: Field, g: Field)
    ensures forall n :: Contents([f, g], n) == ContentIn(f, n) + ContentIn(g, n)
    ensures forall n :: Varints([f, g], n) == VarintIn(f, n) + VarintIn(g, n)
  {
    hide ContentIn, VarintIn;
    hide Contents, Varints;
    forall n ensures Contents([f, g], n) == ContentIn(f, n) + ContentIn(g, n) && Varints([f, g], n) == VarintIn(f, n) + VarintIn(g, n) {
      HeadReads(f, [g], n);
      HeadReads(g, [], n);
      NothingReads(n);
      assert [f] + [g] == [f, g] && [g] + [] == [g];
      assert ContentIn(g, n) + [] == ContentIn(g, n) && VarintIn(g, n) + [] == VarintIn(g, n);
    }
  }

  lemma NothingReads(n: nat)
    ensures Contents([], n) == [] && Varints([], n) == []
  {}

  lemma HeadReads(f: Field, rest: seq<Field>, n: nat)
    ensures Contents([f] + rest, n) == ContentIn(f, n) + Contents(rest, n)
    ensures Varints([f] + rest, n) == VarintIn(f, n) + Varints(rest, n)
  {
    assert ([f] + rest)[1..] == rest;
  }

  lemma SiteWritten(c: TextCodec, code: string, ds: seq<Domain>)
    requires forall i :: 0 <= i < |ds| ==> ds[i].1 != ""
    ensures SiteMsg(c, EncodeSite(c, code, ds), code, ds)
  {
    hide FieldsBytes, EncodeFields, EncodeDomain, DomainMsg, Contents, Varints;
    var bs := seq(|ds|, i requires 0 <= i < |ds| => EncodeDomain(c, ds[i]));
    var head := BytesField(1, c.encode(code));
    var fs := [head] + Fielded(2, bs);
    var parts := ShortestFields(fs);
    FieldedReads(2, bs, 1);
    HeadReads(head, Fielded(2, bs), 1);
    HeadReads(head, Fielded(2, bs), 2);
    assert [] + bs == bs && [c.encode(code)] + [] == [c.encode(code)];
    forall i | 0 <= i < |ds| ensures DomainMsg(c, bs[i], ds[i]) {
      DomainWritten(c, ds[i]);
    }
  }

  /** A written geosite table loads as that table. */
  lemma WrittenSitesLoad(c: TextCodec, codes: seq<string>, lists: seq<seq<Domain>>)
    requires c.Lawful() && GoodCodes(c, codes) && |codes| == |lists|
    requires forall i :: 0 <= i < |lists| ==> forall k :: 0 <= k < |lists[i]| ==> lists[i][k].1 != ""
    ensures IsTable(LoadSites(c, EncodeSites(c, codes, lists)), codes, lists)
  {
    hide FieldsBytes, EncodeFields, EncodeSite, SiteMsg, Contents, Varints, LoadSites, IsTable;
    var bs := seq(|codes|, i requires 0 <= i < |codes| => EncodeSite(c, codes[i], lists[i]));
    var fs := Fielded(1, bs);
    var parts := ShortestFields(fs);
    FieldedReads(1, bs, 2);
    forall i | 0 <= i < |codes| ensures SiteMsg(c, bs[i], codes[i], lists[i]) {
      SiteWritten(c, codes[i], lists[i]);
    }
    SiteFileRoundTrip(c, EncodeSites(c, codes, lists), codes, lists);
  }

  // ---- geoip ---------------------------------------------------------------------------------

  /** A network that there is: an address and a prefix of its version. */
  predicate Proper(net: Rules.Net) {
    match net
    case Net4(base, prefix) => base < Power256(4) && prefix <= 32
    case Net6(base, prefix) => base < Power256(16) && prefix <= 128
  }

  function AddressBytes(n: nat, size: nat): (b: Bytes)
    ensures |b| == size
  {
    seq(size, i requires 0 <= i < size => n / Power256(size - 1 - i) % 256)
  }

  function EncodeCidr(net: Rules.Net): Bytes {
    EncodeFields([BytesField(1, AddressBytes(net.base, if net.Net4? then 4 else 16)), VarintField(2, net.prefix)])
  }

  function EncodeIp(c: TextCodec, code: string, nets: seq<Rules.Net>, inverse: bool): Bytes {
    EncodeFields([BytesField(1, c.encode(code)), VarintField(3, if inverse then 1 else 0)]
                 + Fielded(2, seq(|nets|, i requires 0 <= i < |nets| => EncodeCidr(nets[i]))))
  }

  function EncodeIps(c: TextCodec, codes: seq<string>, lists: seq<(seq<Rules.Net>, bool)>): Bytes
    requires |codes| == |lists|
  {
    EncodeFields(Fielded(1, seq(|codes|, i requires 0 <= i < |codes| => EncodeIp(c, codes[i], lists[i].0, lists[i].1))))
  }

  lemma AddressWritten(n: nat, size: nat)
    requires n < Power256(size)
    ensures IsAddress(AddressBytes(n, size), n, size)
  {
    hide Power256;
  }

  lemma CidrWritten(net: Rules.Net)
    requires Proper(net)
    ensures CidrMsg(EncodeCidr(net), net)
  {
    hide FieldsBytes, EncodeFields, Power256, Contents, Varints, IsAddress;
    var size := if net.Net4? then 4 else 16;
    var ip := AddressBytes(net.base, size);
    AddressWritten(net.base, size);
    var fs := [BytesField(1, ip), VarintField(2, net.prefix)];
    var parts := ShortestFields(fs);
    PairReads(fs[0], fs[1]);
    assert LastIs(Contents(fs, 1), ip) && Holds(Varints(fs, 2), net.prefix);
  }

  lemma IpWritten(c: TextCodec, code: string, nets: seq<Rules.Net>, inverse: bool)
    requires forall i :: 0 <= i < |nets| ==> Proper(nets[i])
    ensures IpMsg(c, EncodeIp(c, code, nets, inverse), code, nets, inverse)
  {
    hide FieldsBytes, EncodeFields, EncodeCidr, CidrMsg, Contents, Varints, Proper;
    var bs := seq(|nets|, i requires 0 <= i < |nets| => EncodeCidr(nets[i]));
    var flag := if inverse then 1 else 0;
    var f, g := BytesField(1, c.encode(code)), VarintField(3, flag);
    var fs := [f, g] + Fielded(2, bs);
    assert fs == [f] + ([g] + Fielded(2, bs));
    var parts := ShortestFields(fs);
    FieldedReads(2, bs, 1);
    FieldedReads(2, bs, 3);
    forall n ensures Contents(fs, n) == ContentIn(f, n) + (ContentIn(g, n) + Contents(Fielded(2, bs), n))
             ensures Varints(fs, n) == VarintIn(f, n) + (VarintIn(g, n) + Varints(Fielded(2, bs), n)) {
      HeadReads(f, [g] + Fielded(2, bs), n);
      HeadReads(g, Fielded(2, bs), n);
    }
    assert Contents(fs, 1) == [c.encode(code)] && Contents(fs, 2) == bs && Varints(fs, 3) == [flag];
    assert Holds(Varints(fs, 3), flag);
    forall i | 0 <= i < |nets| ensures CidrMsg(bs[i], nets[i]) {
      CidrWritten(nets[i]);
    }
  }

  /** A written geoip table loads as that table. */
  lemma WrittenIpsLoad(c: TextCodec, codes: seq<string>, lists: seq<(seq<Rules.Net>, bool)>)
    requires c.Lawful() && GoodCodes(c, codes) && |codes| == |lists|
    requires forall i :: 0 <= i < |lists| ==> forall k :: 0 <= k < |lists[i].0| ==> Proper(lists[i].0[k])
    ensures IsTable(LoadIps(c, EncodeIps(c, codes, lists)), codes, lists)
  {
    hide FieldsBytes, EncodeFields, EncodeIp, IpMsg, Contents, Varints, LoadIps, IsTable, Proper;
    var bs := seq(|codes|, i requires 0 <= i < |codes| => EncodeIp(c, codes[i], lists[i].0, lists[i].1));
    var fs := Fielded(1, bs);
    var parts := ShortestFields(fs);
    FieldedReads(1, bs, 2);
    forall i | 0 <= i < |codes| ensures IpMsg(c, bs[i], codes[i], lists[i].0, lists[i].1) {
      IpWritten(c, codes[i], lists[i].0, lists[i].1);
    }
    IpFileRoundTrip(c, EncodeIps(c, codes, lists), codes, lists);
  }
}
