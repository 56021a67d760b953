/** Length-prefixed frames on a byte stream: a 16-bit big-endian length, then that many bytes.
    DNS over TCP (section 4.2.2 of RFC 1035) and the relay's UDP frames share this shape, and both
    readers accumulate chunks in a buffer and cut complete frames off its front. */
module Framing {
  import opened Basics

  type Body = b: Bytes | |b| < 65536

  function Frame(body: Body): Bytes {
    U16(|body|) + body
  }

  function Frames(bodies: seq<Body>): Bytes {
    if bodies == [] then [] else Frame(bodies[0]) + Frames(bodies[1..])
  }

  /** Does the buffer start with a complete frame? */
  predicate HasFrame(buf: Bytes) {
    |buf| >= 2 && |buf| >= 2 + FromU16(buf)
  }

  /** The complete frames at the front of a buffer, and the bytes left over. */
  function Split(buf: Bytes): (r: (seq<Body>, Bytes))
    ensures !HasFrame(r.1)
    decreases |buf|
  {
    if !HasFrame(buf) then
      ([], buf)
    else
      var n := FromU16(buf);
      var (bodies, rest) := Split(buf[2 + n..]);
      ([buf[2..2 + n]] + bodies, rest)
  }

  lemma FrontSplit(buf: Bytes)
    requires HasFrame(buf)
    ensures var n := FromU16(buf);
            Split(buf) == ([buf[2..2 + n]] + Split(buf[2 + n..]).0, Split(buf[2 + n..]).1)
  {}

  lemma NoFrameLeft(buf: Bytes)
    requires !HasFrame(buf)
    ensures Split(buf) == ([], buf)
  {}

  lemma FrontFrame(body: Body, tail: Bytes)
    ensures HasFrame(Frame(body) + tail)
    ensures FromU16(Frame(body) + tail) == |body|
    ensures (Frame(body) + tail)[2..2 + |body|] == body
    ensures (Frame(body) + tail)[2 + |body|..] == tail
  {
    assert Frame(body) + tail == U16(|body|) + (body + tail);
    U16RoundTrip(|body|, body + tail);
  }

  lemma FrameOfFront(buf: Bytes)
    requires HasFrame(buf)
    ensures var n := FromU16(buf); Frame(buf[2..2 + n]) + buf[2 + n..] == buf
  {
    var n := FromU16(buf);
    assert U16(n) == buf[..2];
    assert buf == buf[..2] + (buf[2..2 + n] + buf[2 + n..]);
  }

  /** Nothing is lost or reordered: the frames cut off and the leftover are the buffer. */
  lemma {:induction false} SplitIsInverse(buf: Bytes)
    ensures Frames(Split(buf).0) + Split(buf).1 == buf
    decreases |buf|
  {
    hide Split, Frames, Frame;
    if HasFrame(buf) {
      var n := FromU16(buf);
      var body, tail := buf[2..2 + n], buf[2 + n..];
      SplitIsInverse(tail);
      FrontSplit(buf);
      FramesCons(body, Split(tail).0);
      Assoc(Frame(body), Frames(Split(tail).0), Split(tail).1);
      FrameOfFront(buf);
    } else {
      NoFrameLeft(buf);
      FramesNone();
      assert [] + buf == buf;
    }
  }

  lemma FramesNone()
    ensures Frames([]) == []
  {}

  lemma FramesCons(first: Body, rest: seq<Body>)
    ensures Frames([first] + rest) == Frame(first) + Frames(rest)
  {
    assert ([first] + rest)[1..] == rest;
  }

  /** Chunk boundaries do not matter: cutting after each of two chunks gives the same frames as
      cutting once after both. */
  lemma {:induction false} SplitChunk(a: Bytes, b: Bytes)
    ensures var (xs, r) := Split(a);
            var (ys, r') := Split(r + b);
            Split(a + b) == (xs + ys, r')
    decreases |a|
  {
    hide Split;
    if HasFrame(a) {
      var n := FromU16(a);
      var body := a[2..2 + n];
      SplitChunk(a[2 + n..], b);
      FrontSplit(a);
      FrontOfBoth(a, b);
      FrontSplit(a + b);
      var (xs, r) := Split(a[2 + n..]);
      Assoc([body], xs, Split(r + b).0);
    } else {
      NoFrameLeft(a);
      assert [] + Split(a + b).0 == Split(a + b).0;
    }
  }

  /** More bytes behind a complete frame leave it the first. */
  lemma FrontOfBoth(a: Bytes, b: Bytes)
    requires HasFrame(a)
    ensures var n := FromU16(a);
            HasFrame(a + b) && FromU16(a + b) == n
            && (a + b)[2 + n..] == a[2 + n..] + b && (a + b)[2..2 + n] == a[2..2 + n]
  {}

  /** Cutting a stream of whole frames gives back exactly those frames. */
  lemma {:induction false} SplitFrames(bodies: seq<Body>)
    ensures Split(Frames(bodies)) == (bodies, [])
  {
    if bodies != [] {
      SplitFrames(bodies[1..]);
      FrontFrame(bodies[0], Frames(bodies[1..]));
      assert [bodies[0]] + bodies[1..] == bodies;
    }
  }

  /** A reader that has seen any prefix of a stream of frames has cut off a prefix of the frames;
      what it has left over and what is still to come are exactly the frames not yet cut. */
  lemma SplitOfPrefix(seen: Bytes, ahead: Bytes, bodies: seq<Body>)
    requires seen + ahead == Frames(bodies)
    ensures Split(seen).0 <= bodies
    ensures Split(seen).1 + ahead == Frames(bodies[|Split(seen).0|..])
    ensures ahead == [] ==> Split(seen) == (bodies, [])
  {
    SplitFrames(bodies);
    SplitChunk(seen, ahead);
    var (xs, r) := Split(seen);
    var (ys, r') := Split(r + ahead);
    assert bodies == xs + ys && r' == [];
    SplitIsInverse(r + ahead);
    assert bodies[|xs|..] == ys;
    assert Frames(ys) + [] == Frames(ys);
    if ahead == [] {
      assert seen + ahead == seen;
    }
  }

  lemma {:induction false} FramesAppend(a: seq<Body>, b: seq<Body>)
    ensures Frames(a + b) == Frames(a) + Frames(b)
  {
    hide Frames, Frame;
    if a == [] {
      FramesNone();
      assert a + b == b && [] + Frames(b) == Frames(b);
    } else {
      var rest := a[1..];
      FramesAppend(rest, b);
      FramesCons(a[0], rest);
      FramesCons(a[0], rest + b);
      Assoc([a[0]], rest, b);
      Assoc(Frame(a[0]), Frames(rest), Frames(b));
      assert a == [a[0]] + rest;
    }
  }
}
