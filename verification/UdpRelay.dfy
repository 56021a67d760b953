/** UDP datagrams carried over the encrypted tunnel: packed into length-prefixed frames, cut into
    records by the sender, reassembled by `FrameReader` from whatever bodies `recv` returns. */
module UdpRelay {
  import opened Basics
  import opened Framing
  import T = Tunnel

  datatype Datagram = Datagram(host: string, port: nat, payload: Bytes)

  /** `str.encode` and `bytes.decode`; decoding fails on malformed bytes. */
  datatype HostCodec = HostCodec(encode: string -> Bytes, decode: Bytes -> Option<string>)
  {
    ghost predicate Lawful() {
      forall host: string :: decode(encode(host)) == Some(host)
    }
  }

  /** `pack_address`: None where `struct.pack` raises. */
  function PackAddress(c: HostCodec, host: string, port: nat): Option<Bytes> {
    var name := c.encode(host);
    if |name| < 256 && port < 65536 then Some([|name|] + name + U16(port)) else None
  }

  /** The part of `pack_udp_frame` after the length prefix; None where a `struct.pack` raises. */
  function PackBody(c: HostCodec, d: Datagram): Option<Body> {
    match PackAddress(c, d.host, d.port)
    case None => None
    case Some(addr) => if |addr + d.payload| < 65536 then Some(addr + d.payload) else None
  }

  /** `unpack_address` followed by taking the rest as the payload; None where it raises. */
  function ParseBody(c: HostCodec, body: Bytes): Option<Datagram> {
    if body == [] || |body| < 3 + body[0] as int then None
    else
      var n := body[0] as int;
      match c.decode(body[1..1 + n])
      case None => None
      case Some(host) => Some(Datagram(host, FromU16(body[1 + n..3 + n]), body[3 + n..]))
  }

  /** What can be packed: a name of up to 255 bytes, a port of 16 bits, and a body whose length has 16 bits. */
  lemma PackDefined(c: HostCodec, d: Datagram)
    ensures PackBody(c, d).Some?
       <==> |c.encode(d.host)| <= 0xFF && d.port <= 0xFFFF && 3 + |c.encode(d.host)| + |d.payload| <= 0xFFFF
  {
  }

  /** Address packing is inverted by unpacking, whatever the payload. */
  lemma ParsePacked(c: HostCodec, d: Datagram)
    requires c.Lawful() && PackBody(c, d).Some?
    ensures ParseBody(c, PackBody(c, d).value) == Some(d)
  {
    var name := c.encode(d.host);
    var body := PackBody(c, d).value;
    assert body == [|name|] + name + U16(d.port) + d.payload;
    assert body[1..1 + |name|] == name;
    assert body[1 + |name|..3 + |name|] == U16(d.port) + [];
    U16RoundTrip(d.port, []);
    assert body[3 + |name|..] == d.payload;
  }

  /** The datagrams of a series of frame bodies; bodies that do not parse are skipped. */
  function Parsed(c: HostCodec, bodies: seq<Body>): seq<Datagram> {
    if bodies == [] then []
    else
      var rest := Parsed(c, bodies[1..]);
      match ParseBody(c, bodies[0])
      case None => rest
      case Some(d) => [d] + rest
  }

  lemma {:induction false} ParsedAppend(c: HostCodec, a: seq<Body>, b: seq<Body>)
    ensures Parsed(c, a + b) == Parsed(c, a) + Parsed(c, b)
  {
    hide Parsed;
    if a == [] {
      ParsedNone(c);
      assert a + b == b && [] + Parsed(c, b) == Parsed(c, b);
    } else {
      var rest := a[1..];
      ParsedAppend(c, rest, b);
      ParsedCons(c, a[0], rest);
      ParsedCons(c, a[0], rest + b);
      Assoc([a[0]], rest, b);
      Assoc(ParsedOne(c, a[0]), Parsed(c, rest), Parsed(c, b));
      assert a == [a[0]] + rest;
    }
  }

  function ParsedOne(c: HostCodec, body: Body): seq<Datagram> {
    match ParseBody(c, body)
    case None => []
    case Some(d) => [d]
  }

  lemma ParsedNone(c: HostCodec)
    ensures Parsed(c, []) == []
  {
  }

  lemma ParsedCons(c: HostCodec, first: Body, rest: seq<Body>)
    ensures Parsed(c, [first] + rest) == ParsedOne(c, first) + Parsed(c, rest)
  {
    hide ParseBody;
    assert ([first] + rest)[1..] == rest && [] + Parsed(c, rest) == Parsed(c, rest);
  }

  lemma ParsedSnoc(c: HostCodec, bodies: seq<Body>, last: Body)
    ensures Parsed(c, bodies + [last])
         == Parsed(c, bodies) + (match ParseBody(c, last) case None => [] case Some(d) => [d])
  {
    ParsedAppend(c, bodies, [last]);
    assert Parsed(c, [last][1..]) == [];
  }

  /** What `frames()` yields from a buffer, and what it leaves in it. */
  function ReadFrames(c: HostCodec, buf: Bytes): (seq<Datagram>, Bytes) {
    (Parsed(c, Split(buf).0), Split(buf).1)
  }

  class FrameReader {
    const codec: HostCodec
    var buf: Bytes

    constructor (codec: HostCodec)
      ensures this.codec == codec && buf == []
    {
      this.codec, buf := codec, [];
    }

    method Feed(chunk: Bytes)
      modifies this
      ensures buf == old(buf) + chunk
    {
      buf := buf + chunk;
    }

    method Frames() returns (out: seq<Datagram>)
      modifies this
      ensures (out, buf) == ReadFrames(codec, old(buf))
    {
      hide Split, ParseBody;
      out := [];
      ghost var taken: seq<Body>, all: seq<Body> := [], Split(buf).0;
      assert taken + Split(buf).0 == all;
      while |buf| >= 2
        invariant taken + Split(buf).0 == all && Split(buf).1 == Split(old(buf)).1
        invariant out == Parsed(codec, taken)
        decreases |buf|
      {
        var total := FromU16(buf);
        if |buf| < 2 + total {
          break;
        }
        var body := buf[2..2 + total];
        ghost var later := Split(buf[2 + total..]).0;
        FrontSplit(buf);
        ParsedSnoc(codec, taken, body);
        assert taken + ([body] + later) == (taken + [body]) + later;
        taken := taken + [body];
        buf := buf[2 + total..];
        var d := ParseBody(codec, body);
        if d.Some? {
          out := out + [d.value];
        }
      }
      NoFrameLeft(buf);
      assert taken + [] == taken;
    }
  }

  /** A consumer's use of a reader: bodies fed one at a time, frames asked for at any points. */
  datatype Use = Feed(chunk: Bytes) | AskFrames

  function Run(c: HostCodec, buf: Bytes, uses: seq<Use>): (seq<Datagram>, Bytes)
    decreases |uses|
  {
    if uses == [] then ([], buf)
    else
      match uses[0]
      case Feed(chunk) => Run(c, buf + chunk, uses[1..])
      case AskFrames =>
        var (out, left) := ReadFrames(c, buf);
        var (more, left') := Run(c, left, uses[1..]);
        (out + more, left')
  }

  function FedBy(uses: seq<Use>): seq<Bytes> {
    if uses == [] then []
    else match uses[0]
         case Feed(chunk) => [chunk] + FedBy(uses[1..])
         case AskFrames => FedBy(uses[1..])
  }

  /** However feeding and asking alternate, what has been yielded is what a single pass over all
      bytes fed so far would yield, up to the frames still sitting in the buffer. */
  lemma {:induction false} RunTakes(c: HostCodec, buf: Bytes, uses: seq<Use>) returns (taken: seq<Body>)
    ensures Run(c, buf, uses).0 == Parsed(c, taken)
    ensures var left := Run(c, buf, uses).1;
            Split(buf + Flatten(FedBy(uses))) == (taken + Split(left).0, Split(left).1)
    ensures uses != [] && uses[|uses| - 1].AskFrames? ==> !HasFrame(Run(c, buf, uses).1)
    decreases |uses|
  {
    hide Split, Parsed, Flatten, Run, FedBy;
    NothingRun(c, buf);
    if uses == [] {
      taken := [];
      assert buf + [] == buf && [] + Split(buf).0 == Split(buf).0;
    } else {
      RunStep(c, buf, uses);
      match uses[0]
      case Feed(chunk) =>
        taken := RunTakes(c, buf + chunk, uses[1..]);
        FlattenCons(chunk, FedBy(uses[1..]));
        Assoc(buf, chunk, Flatten(FedBy(uses[1..])));
      case AskFrames =>
        var (xs, left) := Split(buf);
        var ys := RunTakes(c, left, uses[1..]);
        taken := xs + ys;
        SplitChunk(buf, Flatten(FedBy(uses)));
        ParsedAppend(c, xs, ys);
        Assoc(xs, ys, Split(Run(c, left, uses[1..]).1).0);
        NothingRun(c, left);
    }
  }

  lemma NothingRun(c: HostCodec, buf: Bytes)
    ensures Run(c, buf, []) == ([], buf) && FedBy([]) == [] && Parsed(c, []) == [] && Flatten<byte>([]) == []
  {}

  lemma RunStep(c: HostCodec, buf: Bytes, uses: seq<Use>)
    requires uses != []
    ensures var rest := uses[1..];
            match uses[0]
            case Feed(chunk) => Run(c, buf, uses) == Run(c, buf + chunk, rest) && FedBy(uses) == [chunk] + FedBy(rest)
            case AskFrames =>
              FedBy(uses) == FedBy(rest)
              && var more := Run(c, Split(buf).1, rest); Run(c, buf, uses) == (Parsed(c, Split(buf).0) + more.0, more.1)
  {
    hide Split, Parsed;
  }

  ghost predicate Packable(c: HostCodec, sent: seq<Datagram>) {
    forall i :: 0 <= i < |sent| ==> PackBody(c, sent[i]).Some?
  }

  ghost function Bodies(c: HostCodec, sent: seq<Datagram>): seq<Body>
    requires Packable(c, sent)
  {
    seq(|sent|, i requires 0 <= i < |sent| => PackBody(c, sent[i]).value)
  }

  lemma {:induction false} ParsedBodies(c: HostCodec, sent: seq<Datagram>)
    requires c.Lawful() && Packable(c, sent)
    ensures Parsed(c, Bodies(c, sent)) == sent
    decreases |sent|
  {
    if sent != [] {
      ParsePacked(c, sent[0]);
      ParsedBodies(c, sent[1..]);
      assert Bodies(c, sent)[1..] == Bodies(c, sent[1..]);
    }
  }

  /** `cuts[i]` are the chunks into which `send` cut the frame of the i-th datagram. */
  ghost predicate CutsOf(c: HostCodec, sent: seq<Datagram>, cuts: seq<seq<Bytes>>)
    requires Packable(c, sent)
  {
    |cuts| == |sent| &&
    forall i :: 0 <= i < |sent| ==>
      T.AllChunks(cuts[i]) && Flatten(cuts[i]) == Frame(PackBody(c, sent[i]).value)
  }

  lemma {:induction false} CutsCarryFrames(c: HostCodec, sent: seq<Datagram>, cuts: seq<seq<Bytes>>)
    requires Packable(c, sent) && CutsOf(c, sent, cuts)
    ensures T.AllChunks(Flatten(cuts))
    ensures Flatten(Flatten(cuts)) == Frames(Bodies(c, sent))
    decreases |sent|
  {
    if sent != [] {
      CutsCarryFrames(c, sent[1..], cuts[1..]);
      FlattenAppend(cuts[0], Flatten(cuts[1..]));
      assert Bodies(c, sent)[1..] == Bodies(c, sent[1..]);
    }
  }

  /** A reader fed any prefix of the frames of `sent`, cut anywhere and asked at any points. */
  lemma ReaderYieldsPrefix(c: HostCodec, sent: seq<Datagram>, ahead: Bytes, uses: seq<Use>)
    requires c.Lawful() && Packable(c, sent)
    requires Flatten(FedBy(uses)) + ahead == Frames(Bodies(c, sent))
    ensures Run(c, [], uses).0 <= sent
    ensures ahead == [] && uses != [] && uses[|uses| - 1].AskFrames? ==> Run(c, [], uses) == (sent, [])
  {
    hide Split, Frames, Run, ReadFrames, Bodies, FedBy, ParseBody;
    var fed, bodies := Flatten(FedBy(uses)), Bodies(c, sent);
    SplitOfPrefix(fed, ahead, bodies);
    var taken := RunTakes(c, [], uses);
    assert [] + fed == fed;
    var untaken := bodies[|taken|..];
    assert bodies == taken + untaken;
    ParsedAppend(c, taken, untaken);
    ParsedBodies(c, sent);
    if ahead == [] && uses != [] && uses[|uses| - 1].AskFrames? {
      NoFrameLeft(Run(c, [], uses).1);
      assert taken + [] == taken == bodies;
    }
  }

  /** End to end. Whatever record sizes `send` draws (`cuts`), however much of the sealed stream has
      arrived (`seen`), and however the received bodies are fed and frames asked for (`uses`): the
      reader has yielded a prefix of the datagrams sent, and once everything has arrived and frames
      were asked for last, it has yielded all of them and its buffer is empty. */
  lemma Delivered(c: HostCodec, cipher: T.Cipher, nonce: nat, sent: seq<Datagram>,
                  cuts: seq<seq<Bytes>>, seen: Bytes, ahead: Bytes, uses: seq<Use>)
    requires c.Lawful() && cipher.Lawful() && Packable(c, sent) && CutsOf(c, sent, cuts)
    requires T.AllChunks(Flatten(cuts)) && seen + ahead == T.Records(cipher, nonce, Flatten(cuts))
    requires FedBy(uses) <= T.RecvAll(cipher, nonce, seen).0
    ensures Run(c, [], uses).0 <= sent
    ensures ahead == [] && FedBy(uses) == T.RecvAll(cipher, nonce, seen).0
            && uses != [] && uses[|uses| - 1].AskFrames?
            ==> Run(c, [], uses) == (sent, [])
  {
    hide *;
    var chunks, fed := Flatten(cuts), FedBy(uses);
    CutsCarryFrames(c, sent, cuts);
    T.RecvAllOfPrefix(cipher, nonce, chunks, seen, ahead);
    var unfed := chunks[|fed|..];
    assert chunks == fed + unfed;
    FlattenAppend(fed, unfed);
    FlattenNone<byte>();
    ReaderYieldsPrefix(c, sent, Flatten(unfed), uses);
  }
}
