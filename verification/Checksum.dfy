/** The Internet checksum (RFC 1071) as the Android client computes it, and the packets built with it. */
module Checksum {
  import opened Basics

  /** The 16-bit big-endian words of the data, an odd last byte padded with zero, added up. */
  function SumWords(data: Bytes): nat {
    if data == [] then 0
    else if |data| == 1 then 256 * data[0] as int
    else 256 * data[0] as int + data[1] as int + SumWords(data[2..])
  }

  function Fold(sum: nat): (r: nat)
    ensures r < 65536
  {
    if sum < 65536 then sum else Fold(sum % 65536 + sum / 65536)
  }

  function ChecksumOf(data: Bytes): nat {
    65535 - Fold(SumWords(data))
  }

  // ---- folding -------------------------------------------------------------------------------

  /** Folding keeps the remainder modulo 65535, and is zero only for zero. */
  lemma {:induction false} FoldKeeps(sum: nat)
    ensures Fold(sum) % 65535 == sum % 65535 && (Fold(sum) == 0 <==> sum == 0)
  {
    hide Fold;
    FoldOnce(sum);
    if sum >= 65536 {
      FoldKeeps(sum % 65536 + sum / 65536);
      SameWhenAdded(sum % 65536 + sum / 65536, sum / 65536);
    }
  }

  lemma FoldOnce(sum: nat)
    ensures sum < 65536 ==> Fold(sum) == sum
    ensures sum >= 65536 ==> 0 < sum % 65536 + sum / 65536 < sum && Fold(sum) == Fold(sum % 65536 + sum / 65536)
    ensures sum == (sum % 65536 + sum / 65536) + 65535 * (sum / 65536)
  {}

  lemma SameWhenAdded(a: nat, k: nat)
    ensures (a + 65535 * k) % 65535 == a % 65535
  {}

  /** The check a receiver makes, as arithmetic. */
  lemma VerifiesExactly(data: Bytes)
    ensures 0 <= ChecksumOf(data) < 65536
    ensures ChecksumOf(data) == 0 <==> SumWords(data) > 0 && SumWords(data) % 65535 == 0
  {
    hide Fold, SumWords;
    FoldKeeps(SumWords(data));
    FullExactly(Fold(SumWords(data)), SumWords(data));
  }

  lemma FullExactly(f: nat, sum: nat)
    requires f < 65536 && f % 65535 == sum % 65535 && (f == 0 <==> sum == 0)
    ensures f == 65535 <==> sum > 0 && sum % 65535 == 0
  {
    if f < 65535 {
      assert f % 65535 == f;
    }
  }

  // ---- RFC 1071, section 1 -------------------------------------------------------------------

  /** One's complement addition: the carry out goes back in. */
  function OnesAdd(a: nat, b: nat): (s: nat)
    requires a < 65536 && b < 65536
    ensures s < 65536
  {
    if a + b < 65536 then a + b else a + b - 65535
  }

  function OnesSum(data: Bytes): (s: nat)
    ensures s < 65536
  {
    if data == [] then 0
    else if |data| == 1 then 256 * data[0] as int
    else OnesAdd(256 * data[0] as int + data[1] as int, OnesSum(data[2..]))
  }

  lemma {:induction false} OnesSumKeeps(data: Bytes)
    ensures OnesSum(data) % 65535 == SumWords(data) % 65535 && (OnesSum(data) == 0 <==> SumWords(data) == 0)
    decreases |data|
  {
    if |data| >= 2 {
      OnesSumKeeps(data[2..]);
      var w := 256 * data[0] as int + data[1] as int;
      SameAfter(w, OnesSum(data[2..]), SumWords(data[2..]));
      assert OnesSum(data) == OnesAdd(w, OnesSum(data[2..])) && SumWords(data) == w + SumWords(data[2..]);
    }
  }

  lemma SameAfter(w: nat, a: nat, b: nat)
    requires a % 65535 == b % 65535
    ensures (w + a) % 65535 == (w + b) % 65535
    ensures w + a >= 65535 ==> (w + a - 65535) % 65535 == (w + b) % 65535
  {
    assert a == b + 65535 * (a / 65535 - b / 65535);
  }

  /** Adding everything and folding at the end is the complement of the one's complement sum. */
  lemma ChecksumIsOnesComplement(data: Bytes)
    ensures ChecksumOf(data) == 65535 - OnesSum(data)
  {
    hide Fold, SumWords, OnesSum;
    FoldKeeps(SumWords(data));
    OnesSumKeeps(data);
    SameResidue(Fold(SumWords(data)), OnesSum(data));
  }

  /** A residue modulo 65535 and whether it is zero tell a 16-bit number. */
  lemma SameResidue(a: nat, b: nat)
    requires a < 65536 && b < 65536 && a % 65535 == b % 65535 && (a == 0 <==> b == 0)
    ensures a == b
  {}

  // ---- filling the field in ------------------------------------------------------------------

  lemma {:induction false} SumSplit(a: Bytes, b: Bytes)
    requires |a| % 2 == 0
    ensures SumWords(a + b) == SumWords(a) + SumWords(b)
    decreases |a|
  {
    if a == [] {
      assert a + b == b;
    } else {
      SumSplit(a[2..], b);
      assert (a + b)[2..] == a[2..] + b;
    }
  }

  function Put(data: Bytes, k: nat, n: nat): (r: Bytes)
    requires k + 1 < |data| && n < 65536
    ensures |r| == |data|
  {
    data[k := n / 256][k + 1 := n % 256]
  }

  lemma SumPut(data: Bytes, k: nat, n: nat)
    requires k % 2 == 0 && k + 1 < |data| && n < 65536
    ensures SumWords(Put(data, k, n)) == SumWords(data) - U16At(data, k) + n
  {
    var filled := Put(data, k, n);
    SumAround(data, k);
    SumAround(filled, k);
    assert filled[..k] == data[..k] && filled[k + 2..] == data[k + 2..];
  }

  lemma SumAround(data: Bytes, k: nat)
    requires k % 2 == 0 && k + 1 < |data|
    ensures SumWords(data) == SumWords(data[..k]) + U16At(data, k) + SumWords(data[k + 2..])
  {
    assert data == data[..k] + data[k..] && data[k..][2..] == data[k + 2..];
    SumSplit(data[..k], data[k..]);
  }

  /** With the checksum written over the zero field, the data checks out, whatever its length. */
  lemma FilledVerifies(data: Bytes, k: nat)
    requires k % 2 == 0 && k + 1 < |data| && data[k] == data[k + 1] == 0
    ensures ChecksumOf(data) < 65536 && ChecksumOf(Put(data, k, ChecksumOf(data))) == 0
  {
    VerifiesExactly(data);
    var sum, c := SumWords(data), ChecksumOf(data);
    FoldKeeps(sum);
    SumPut(data, k, c);
    VerifiesExactly(Put(data, k, c));
    assert sum + c == sum - Fold(sum) + 65535;
    Multiple(sum, Fold(sum));
  }

  lemma Multiple(a: nat, b: nat)
    requires a % 65535 == b % 65535
    ensures (a - b + 65535) % 65535 == 0
  {
    assert a - b + 65535 == 65535 * (a / 65535 - b / 65535 + 1);
  }

  /** What one changed word does to data that checked out: it still does only if the word went between
      the two zeros of one's complement arithmetic and not all is zero. */
  lemma DetectsExactly(data: Bytes, k: nat, n: nat)
    requires k % 2 == 0 && k + 1 < |data| && n < 65536 && ChecksumOf(data) == 0
    ensures ChecksumOf(Put(data, k, n)) == 0 <==>
      n % 65535 == U16At(data, k) % 65535 && SumWords(Put(data, k, n)) > 0
  {
    VerifiesExactly(data);
    SumPut(data, k, n);
    VerifiesExactly(Put(data, k, n));
    var rest := SumWords(data) - U16At(data, k);
    assert rest >= 0 by { SumAround(data, k); }
    SameRemainder(rest, U16At(data, k), n);
  }

  lemma SameRemainder(rest: nat, a: nat, b: nat)
    requires (rest + a) % 65535 == 0
    ensures (rest + b) % 65535 == 0 <==> a % 65535 == b % 65535
  {
    var q := (rest + a) / 65535;
    assert rest == 65535 * q - a;
    assert rest + b == 65535 * q + (b - a);
    if (rest + b) % 65535 == 0 {
      var q' := (rest + b) / 65535;
      assert b == a + 65535 * (q' - q);
    }
    if a % 65535 == b % 65535 {
      assert rest + b == 65535 * (q + b / 65535 - a / 65535);
    }
  }

  // ---- the methods ---------------------------------------------------------------------------

  /** `checksum`. Its sum stays far below the 64 bits it has. */
  method ComputeChecksum(data: Bytes) returns (c: nat)
    ensures c == ChecksumOf(data)
  {
    var sum: nat, i: nat := 0, 0;
    while i + 1 < |data|
      invariant i <= |data| && i % 2 == 0
      invariant sum + SumWords(data[i..]) == SumWords(data)
    {
      assert data[i..][2..] == data[i + 2..];
      sum := sum + (data[i] as int * 256 + data[i + 1] as int);
      i := i + 2;
    }
    if i < |data| {
      sum := sum + data[i] as int * 256;
    }
    assert sum == SumWords(data);
    while sum / 65536 != 0
      invariant Fold(sum) == Fold(SumWords(data))
      decreases sum
    {
      sum := sum % 65536 + sum / 65536;
    }
    return 65535 - sum;
  }

  lemma {:induction false} SumFits(data: Bytes)
    requires |data| < 0x8000_0000
    ensures SumWords(data) <= 32768 * (|data| + 1) < 0x7FFF_FFFF_FFFF_FFFF
    decreases |data|
  {
    if |data| >= 2 {
      SumFits(data[2..]);
    }
  }

  /** `putChecksum`: over the header at `off`, into its field at byte 10. */
  method PutChecksum(pkt: array<byte>, off: nat, hdrLen: nat)
    requires off + hdrLen <= pkt.Length && hdrLen >= 12
    modifies pkt
    ensures ChecksumOf(pkt[off..off + hdrLen]) == 0
    ensures forall i :: 0 <= i < pkt.Length && i != off + 10 && i != off + 11 ==> pkt[i] == old(pkt[i])
  {
    pkt[off + 10], pkt[off + 11] := 0, 0;
    ghost var zeroed := pkt[off..off + hdrLen];
    FilledVerifies(zeroed, 10);
    var c := ComputeChecksum(pkt[off..off + hdrLen]);
    pkt[off + 10] := c / 256 % 256;
    pkt[off + 11] := c % 256;
    assert pkt[off..off + hdrLen] == Put(zeroed, 10, c);
  }

  // ---- packets -------------------------------------------------------------------------------

  const PROTO_TCP := 6
  const PROTO_UDP := 17
  const FLAG_SYN := 2

  /** The low 16 bits: `putShort(n.toShort())`. */
  function Short(n: int): Bytes {
    [n % 65536 / 256, n % 256]
  }

  /** The low 32 bits: `putInt(n.toInt())`. */
  function Int32(n: int): Bytes {
    Short(n / 65536) + Short(n)
  }

  function IpIHL(pkt: Bytes): nat
    requires pkt != []
  {
    pkt[0] as int % 16 * 4
  }

  function TcpDataOff(pkt: Bytes, ihl: nat): nat
    requires ihl + 12 < |pkt|
  {
    pkt[ihl + 12] as int / 16 * 4
  }

  /** Lengths of headers are counted in words of four bytes: in the lower half of the first byte, and in the upper
      half of a segment's thirteenth. */
  lemma HeaderLengths(pkt: Bytes, ihl: nat, high: nat, low: nat)
    requires ihl + 12 < |pkt| && high < 16 && low < 16
    ensures pkt[0] as int == 16 * high + low ==> IpIHL(pkt) == 4 * low
    ensures pkt[ihl + 12] as int == 16 * high + low ==> TcpDataOff(pkt, ihl) == 4 * high
  {
  }

  /** The header that is checksummed with a segment (RFC 9293, section 3.1) but not sent. */
  function Pseudo(srcIp: Bytes, dstIp: Bytes, proto: byte, segment: Bytes): Bytes {
    srcIp + dstIp + [0, proto] + Short(|segment|) + segment
  }

  function IpHeader(srcIp: Bytes, dstIp: Bytes, proto: byte, ipLen: nat): Bytes {
    [0x45, 0x00] + Short(ipLen) + Short(0) + Short(0x4000) + [64, proto] + Short(0) + srcIp + dstIp
  }

  predicate IsSyn(flags: int) {
    flags / FLAG_SYN % 2 == 1
  }

  function TcpHeader(srcPort: int, dstPort: int, sq: int, ack: int, flags: int, window: int): (h: Bytes)
    ensures |h| == if IsSyn(flags) then 24 else 20
  {
    var n := if IsSyn(flags) then 24 else 20;
    Short(srcPort) + Short(dstPort) + Int32(sq) + Int32(ack) + [n / 4 * 16, flags % 256] + Short(window) + Short(0) + Short(0)
    + if IsSyn(flags) then [0x02, 0x04] + Short(1460) else []
  }

  /** The fields of the header, read back. */
  ghost predicate TcpFields(h: Bytes, srcPort: int, dstPort: int, sq: int, ack: int, flags: int, window: int) {
    && |h| >= 20
    && U16At(h, 0) == srcPort % 65536 && U16At(h, 2) == dstPort % 65536
    && U32At(h, 4) == sq % 0x1_0000_0000 && U32At(h, 8) == ack % 0x1_0000_0000
    && h[12] as int / 16 * 4 == (if flags / 2 % 2 == 1 then 24 else 20) && h[12] as int % 16 == 0 && h[13] as int == flags % 256
    && U16At(h, 14) == window % 65536 && h[18] == h[19] == 0
    && (flags / 2 % 2 == 1 ==> |h| >= 24 && h[20..24] == [2, 4, 5, 180])
  }

  lemma ShortReads(n: int, before: Bytes, tail: Bytes)
    ensures U16At(before + Short(n) + tail, |before|) == n % 65536
  {
    var b := before + Short(n) + tail;
    assert b[|before|] == Short(n)[0] && b[|before| + 1] == Short(n)[1];
    assert n % 256 == n % 65536 % 256;
  }

  lemma IntReads(n: int, before: Bytes, tail: Bytes)
    ensures U32At(before + Int32(n) + tail, |before|) == n % 0x1_0000_0000
  {
    var b := before + Int32(n) + tail;
    ShortReads(n / 65536, before, Short(n) + tail);
    ShortReads(n, before + Short(n / 65536), tail);
    assert b == before + Short(n / 65536) + (Short(n) + tail) == (before + Short(n / 65536)) + Short(n) + tail;
  }

  lemma TcpHeaderReads(srcPort: int, dstPort: int, sq: int, ack: int, flags: int, window: int)
    ensures TcpFields(TcpHeader(srcPort, dstPort, sq, ack, flags, window), srcPort, dstPort, sq, ack, flags, window)
  {
    hide Short, Int32, U32At, U16At, TcpHeader;
    var n := if IsSyn(flags) then 24 else 20;
    var opts := if IsSyn(flags) then [0x02, 0x04] + Short(1460) else [];
    var bits: Bytes := [n / 4 * 16, flags % 256];
    var front := Short(srcPort) + Short(dstPort) + Int32(sq) + Int32(ack);
    var tail := Short(window) + Short(0) + Short(0) + opts;
    Sizes(srcPort, dstPort, sq, ack, window);
    TcpParts(srcPort, dstPort, sq, ack, flags, window, front, bits, tail);
    FourFieldsRead(srcPort, dstPort, sq, ack, bits + tail);
    TailReads(front + bits, window, opts);
    BitsRead(front, bits, tail);
    SegmentSize();
  }

  lemma TcpParts(srcPort: int, dstPort: int, sq: int, ack: int, flags: int, window: int, front: Bytes, bits: Bytes, tail: Bytes)
    requires front == Short(srcPort) + Short(dstPort) + Int32(sq) + Int32(ack)
    requires bits == [(if IsSyn(flags) then 24 else 20) / 4 * 16, flags % 256]
    requires tail == Short(window) + Short(0) + Short(0) + if IsSyn(flags) then [0x02, 0x04] + Short(1460) else []
    ensures TcpHeader(srcPort, dstPort, sq, ack, flags, window) == front + (bits + tail) == (front + bits) + tail
  {
    hide Short, Int32, IsSyn;
  }

  lemma BitsRead(front: Bytes, bits: Bytes, tail: Bytes)
    requires |front| == 12 && |bits| == 2
    ensures var h := front + (bits + tail); h[12] == bits[0] && h[13] == bits[1]
  {
  }

  lemma TailReads(front: Bytes, window: int, opts: Bytes)
    requires |front| == 14
    ensures var h := front + (Short(window) + Short(0) + Short(0) + opts);
            |h| == 20 + |opts| && U16At(h, 14) == window % 65536 && h[18] == h[19] == 0 && h[20..] == opts
  {
    hide U16At;
    ShortReads(window, front, Short(0) + Short(0) + opts);
    var h := front + (Short(window) + Short(0) + Short(0) + opts);
    assert h == front + Short(window) + (Short(0) + Short(0) + opts);
    assert Short(0) == [0, 0] && h[18] == Short(0)[0] && h[19] == Short(0)[1];
  }

  /** The option of a SYN: a maximum segment size of 1460. */
  lemma SegmentSize()
    ensures [2, 4] + Short(1460) == [2, 4, 5, 180]
  {
    assert Short(1460) == [5, 180];
  }

  lemma Sizes(srcPort: int, dstPort: int, sq: int, ack: int, window: int)
    ensures |Short(srcPort)| == |Short(dstPort)| == |Short(window)| == 2 && |Int32(sq)| == |Int32(ack)| == 4
  {}

  /** The first four fields, whatever follows them. */
  lemma FourFieldsRead(srcPort: int, dstPort: int, sq: int, ack: int, rest: Bytes)
    ensures var h := Short(srcPort) + Short(dstPort) + Int32(sq) + Int32(ack) + rest;
            U16At(h, 0) == srcPort % 65536 && U16At(h, 2) == dstPort % 65536
            && U32At(h, 4) == sq % 0x1_0000_0000 && U32At(h, 8) == ack % 0x1_0000_0000
  {
    hide Short, Int32, U32At, U16At;
    Sizes(srcPort, dstPort, sq, ack, 0);
    var a, b, c, d := Short(srcPort), Short(dstPort), Int32(sq), Int32(ack);
    var h := a + b + c + d + rest;
    ShortReads(srcPort, [], b + c + d + rest);
    assert h == [] + a + (b + c + d + rest);
    ShortReads(dstPort, a, c + d + rest);
    assert h == a + b + (c + d + rest);
    IntReads(sq, a + b, d + rest);
    assert h == (a + b) + c + (d + rest);
    IntReads(ack, a + b + c, rest);
  }

  /** The header the packet starts with, read back; its checksum field is apart. */
  ghost predicate IpFields(h: Bytes, srcIp: Bytes, dstIp: Bytes, proto: byte, ipLen: nat) {
    && |h| >= 20
    && h[0] == 0x45 && IpIHL(h) == 20 && h[1] == 0 && U16At(h, 2) == ipLen % 65536 && U16At(h, 4) == 0
    && U16At(h, 6) == 0x4000 && h[8] == 64 && h[9] == proto && h[12..16] == srcIp && h[16..20] == dstIp
  }

  lemma IpHeaderReads(srcIp: Bytes, dstIp: Bytes, proto: byte, ipLen: nat, tail: Bytes)
    requires |srcIp| == |dstIp| == 4
    ensures |IpHeader(srcIp, dstIp, proto, ipLen)| == 20
    ensures IpFields(IpHeader(srcIp, dstIp, proto, ipLen) + tail, srcIp, dstIp, proto, ipLen)
  {
    var rest := Short(0x4000) + [64, proto] + Short(0) + srcIp + dstIp;
    var h := IpHeader(srcIp, dstIp, proto, ipLen) + tail;
    assert h == [0x45, 0x00] + Short(ipLen) + (Short(0) + rest + tail);
    ShortReads(ipLen, [0x45, 0x00], Short(0) + rest + tail);
    assert h[12..16] == srcIp && h[16..20] == dstIp;
  }

  /** Everything but one two-byte field is as it was. */
  ghost predicate SameBut(a: Bytes, b: Bytes, field: nat) {
    |a| == |b| && forall i :: 0 <= i < |a| && i != field && i != field + 1 ==> a[i] == b[i]
  }

  lemma IpFieldsKept(a: Bytes, b: Bytes, srcIp: Bytes, dstIp: Bytes, proto: byte, ipLen: nat, field: nat)
    requires IpFields(a, srcIp, dstIp, proto, ipLen) && SameBut(a, b, field) && (field == 10 || field >= 20)
    ensures IpFields(b, srcIp, dstIp, proto, ipLen)
  {
    assert a[12..16] == b[12..16] && a[16..20] == b[16..20];
  }

  /** The field in the pseudo-header's data is the field in the segment. */
  lemma PseudoPut(srcIp: Bytes, dstIp: Bytes, proto: byte, segment: Bytes, k: nat, c: nat)
    requires |srcIp| == |dstIp| == 4 && k + 1 < |segment| && c < 65536
    ensures |Pseudo(srcIp, dstIp, proto, segment)| == 12 + |segment|
    ensures U16At(Pseudo(srcIp, dstIp, proto, segment), 12 + k) == U16At(segment, k)
    ensures Put(Pseudo(srcIp, dstIp, proto, segment), 12 + k, c) == Pseudo(srcIp, dstIp, proto, Put(segment, k, c))
  {
    var front := srcIp + dstIp + [0, proto] + Short(|segment|);
    assert |front| == 12;
    assert (front + segment)[12 + k] == segment[k] && (front + segment)[12 + k + 1] == segment[k + 1];
    assert Put(front + segment, 12 + k, c) == front + Put(segment, k, c);
  }

  /** The segment's checksum, put over a zero field, checks out with the pseudo-header. */
  lemma SegmentVerifies(srcIp: Bytes, dstIp: Bytes, proto: byte, segment: Bytes)
    requires |srcIp| == |dstIp| == 4 && |segment| >= 18 && segment[16] == segment[17] == 0
    ensures var c := ChecksumOf(Pseudo(srcIp, dstIp, proto, segment));
            c < 65536 && ChecksumOf(Pseudo(srcIp, dstIp, proto, Put(segment, 16, c))) == 0
  {
    hide Pseudo, Put, SumWords;
    var pseudo := Pseudo(srcIp, dstIp, proto, segment);
    VerifiesExactly(pseudo);
    PseudoPut(srcIp, dstIp, proto, segment, 16, ChecksumOf(pseudo));
    FilledVerifies(pseudo, 28);
  }

  /** `buildTcpPacket`: both checksums check out, whatever the payload, and the fields read back, each
      cut to its width. */
  method BuildTcpPacket(srcIp: Bytes, dstIp: Bytes, srcPort: int, dstPort: int, sq: int, ack: int, flags: int,
                        window: int, payload: Bytes) returns (pkt: array<byte>)
    requires |srcIp| == |dstIp| == 4
    ensures fresh(pkt) && pkt.Length == 20 + (if flags / 2 % 2 == 1 then 24 else 20) + |payload|
    ensures ChecksumOf(pkt[..20]) == 0
    ensures ChecksumOf(srcIp + dstIp + [0, 6] + [(pkt.Length - 20) % 65536 / 256, (pkt.Length - 20) % 256] + pkt[20..]) == 0
    ensures IpFields(pkt[..], srcIp, dstIp, 6, pkt.Length)
    ensures TcpFields(pkt[20..], srcPort, dstPort, sq, ack, flags, window)
    ensures 20 + TcpDataOff(pkt[..], 20) <= pkt.Length && pkt[20 + TcpDataOff(pkt[..], 20)..] == payload
    ensures TcpDataOff(pkt[..], 20) == if flags / 2 % 2 == 1 then 24 else 20
  {
    hide SumWords, Pseudo, TcpFields, IpFields, ChecksumOf, IpHeader, TcpHeader, U16At, U32At;
    var header := TcpHeader(srcPort, dstPort, sq, ack, flags, window);
    var ipLen := 20 + |header| + |payload|;
    var ipHeader := IpHeader(srcIp, dstIp, PROTO_TCP, ipLen);
    var buf := ipHeader + header + payload;
    IpHeaderReads(srcIp, dstIp, PROTO_TCP, ipLen, header + payload);
    HeaderField(srcPort, dstPort, sq, ack, flags, window);
    TcpHeaderReads(srcPort, dstPort, sq, ack, flags, window);
    pkt := new byte[|buf|](i requires 0 <= i < |buf| => buf[i]);
    assert pkt[..] == buf == ipHeader + (header + payload);
    PutChecksum(pkt, 0, 20);
    assert pkt[..20] == pkt[0..20];
    IpFieldsKept(buf, pkt[..], srcIp, dstIp, PROTO_TCP, ipLen, 10);
    assert pkt[36] == header[16] && pkt[37] == header[17];
    ghost var half, rest := pkt[..], 20 + |header|;
    PutTcpChecksum(pkt, srcIp, dstIp);
    assert pkt[..20] == half[..20];
    assert buf[rest..] == payload;
    KeptBehind(buf, half, 10, rest);
    KeptBehind(half, pkt[..], 36, rest);
    assert pkt[..][rest..] == pkt[rest..];
    IpFieldsKept(half, pkt[..], srcIp, dstIp, PROTO_TCP, ipLen, 36);
    TcpFieldsKept(header, pkt[20..], srcPort, dstPort, sq, ack, flags, window);
    PseudoIs(srcIp, dstIp, pkt[20..]);
  }

  lemma PseudoIs(srcIp: Bytes, dstIp: Bytes, segment: Bytes)
    ensures Pseudo(srcIp, dstIp, PROTO_TCP, segment)
         == srcIp + dstIp + [0, 6] + [|segment| % 65536 / 256, |segment| % 256] + segment
  {
  }

  lemma KeptBehind(a: Bytes, b: Bytes, k: nat, n: nat)
    requires SameBut(a, b, k) && k + 2 <= n <= |a|
    ensures n <= |b| && b[n..] == a[n..]
  {
  }

  /** The end of `buildTcpPacket`, over the segment behind a 20-byte header. */
  method PutTcpChecksum(pkt: array<byte>, srcIp: Bytes, dstIp: Bytes)
    requires |srcIp| == |dstIp| == 4 && pkt.Length >= 38 && pkt[36] == pkt[37] == 0
    modifies pkt
    ensures ChecksumOf(Pseudo(srcIp, dstIp, PROTO_TCP, pkt[20..])) == 0
    ensures SameBut(old(pkt[..]), pkt[..], 36)
  {
    hide SumWords, Pseudo, ChecksumOf;
    ghost var segment := pkt[20..];
    var c := ComputeChecksum(Pseudo(srcIp, dstIp, PROTO_TCP, pkt[20..]));
    SegmentVerifies(srcIp, dstIp, PROTO_TCP, segment);
    pkt[36] := c / 256 % 256;
    pkt[37] := c % 256;
    assert pkt[20..] == Put(segment, 16, c);
  }

  lemma HeaderField(srcPort: int, dstPort: int, sq: int, ack: int, flags: int, window: int)
    ensures var h := TcpHeader(srcPort, dstPort, sq, ack, flags, window); h[16] == h[17] == 0
  {
  }

  lemma TcpFieldsKept(h: Bytes, segment: Bytes, srcPort: int, dstPort: int, sq: int, ack: int, flags: int, window: int)
    requires TcpFields(h, srcPort, dstPort, sq, ack, flags, window)
    requires |segment| >= |h| && forall i :: 0 <= i < |h| && i != 16 && i != 17 ==> segment[i] == h[i]
    ensures TcpFields(segment, srcPort, dstPort, sq, ack, flags, window)
    ensures segment[12] as int / 16 * 4 == if IsSyn(flags) then 24 else 20
  {
  }

  /** `buildUdpPacket`: only the IP header carries a checksum; a zero one in UDP means none. */
  method BuildUdpPacket(srcIp: Bytes, dstIp: Bytes, srcPort: int, dstPort: int, payload: Bytes) returns (pkt: array<byte>)
    requires |srcIp| == |dstIp| == 4
    ensures fresh(pkt) && pkt.Length == 28 + |payload|
    ensures ChecksumOf(pkt[..20]) == 0
    ensures IpFields(pkt[..], srcIp, dstIp, 17, pkt.Length)
    ensures U16At(pkt[..], 20) == srcPort % 65536 && U16At(pkt[..], 22) == dstPort % 65536
    ensures U16At(pkt[..], 24) == (8 + |payload|) % 65536 && U16At(pkt[..], 26) == 0
    ensures pkt[28..] == payload
  {
    hide SumWords, IpFields, ChecksumOf, IpHeader, UdpHeader, U16At;
    var udpLen := 8 + |payload|;
    var header := UdpHeader(srcPort, dstPort, udpLen);
    var ipHeader := IpHeader(srcIp, dstIp, PROTO_UDP, 20 + udpLen);
    var buf := ipHeader + header + payload;
    IpHeaderReads(srcIp, dstIp, PROTO_UDP, 20 + udpLen, header + payload);
    UdpHeaderReads(srcPort, dstPort, udpLen);
    pkt := new byte[|buf|](i requires 0 <= i < |buf| => buf[i]);
    assert pkt[..] == buf == ipHeader + (header + payload);
    PutChecksum(pkt, 0, 20);
    assert pkt[..20] == pkt[0..20];
    IpFieldsKept(buf, pkt[..], srcIp, dstIp, PROTO_UDP, 20 + udpLen, 10);
    assert buf[20..] == header + payload;
    KeptBehind(buf, pkt[..], 10, 20);
    UdpReadsBehind(pkt[..], header, payload);
    assert pkt[..][28..] == pkt[28..];
  }

  lemma UdpReadsBehind(pkt: Bytes, header: Bytes, payload: Bytes)
    requires |pkt| >= 20 && |header| == 8 && pkt[20..] == header + payload
    ensures |pkt| == 28 + |payload| && pkt[28..] == payload
    ensures U16At(pkt, 20) == U16At(header, 0) && U16At(pkt, 22) == U16At(header, 2)
    ensures U16At(pkt, 24) == U16At(header, 4) && U16At(pkt, 26) == U16At(header, 6)
  {
    assert forall i :: 0 <= i < |header + payload| ==> pkt[20 + i] == (header + payload)[i];
  }

  function UdpHeader(srcPort: int, dstPort: int, udpLen: nat): (h: Bytes)
    ensures |h| == 8
  {
    Short(srcPort) + Short(dstPort) + Short(udpLen) + Short(0)
  }

  lemma UdpHeaderReads(srcPort: int, dstPort: int, udpLen: nat)
    ensures var h := UdpHeader(srcPort, dstPort, udpLen);
            U16At(h, 0) == srcPort % 65536 && U16At(h, 2) == dstPort % 65536
            && U16At(h, 4) == udpLen % 65536 && U16At(h, 6) == 0
  {
    var h := UdpHeader(srcPort, dstPort, udpLen);
    assert h[0] == Short(srcPort)[0] && h[1] == Short(srcPort)[1] && h[2] == Short(dstPort)[0] && h[3] == Short(dstPort)[1];
    assert h[4] == Short(udpLen)[0] && h[5] == Short(udpLen)[1] && h[6] == Short(0)[0] && h[7] == Short(0)[1];
    ShortWord(srcPort);
    ShortWord(dstPort);
    ShortWord(udpLen);
  }

  lemma ShortWord(n: int)
    ensures 256 * Short(n)[0] as int + Short(n)[1] as int == n % 65536
  {
    assert n % 256 == n % 65536 % 256;
  }
}
