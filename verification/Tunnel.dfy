/** The encrypted tunnel: application data is cut into TLS-1.3-shaped records (section 5.2 of
    RFC 8446), each sealed under a nonce that both ends count by themselves. */
module Tunnel {
  import opened Basics

  const TAG_SIZE := 16
  const MAX_RECORD := 16384
  const HEADER_SIZE := 5

  const APPLICATION_DATA: byte := 0x17
  const ALERT: byte := 0x15

  /** One direction's AEAD under its session key. `decrypt` fails on a bad tag. */
  datatype Cipher = Cipher(encrypt: (nat, Bytes) -> Bytes, decrypt: (nat, Bytes) -> Option<Bytes>)
  {
    /** The only law used of the primitive. */
    ghost predicate Lawful() {
      forall nonce: nat, plain: Bytes {:trigger encrypt(nonce, plain)} ::
        decrypt(nonce, encrypt(nonce, plain)) == Some(plain)
        && |encrypt(nonce, plain)| == |plain| + TAG_SIZE
    }
  }

  lemma SealLaw(c: Cipher, nonce: nat, plain: Bytes)
    requires c.Lawful()
    ensures c.decrypt(nonce, c.encrypt(nonce, plain)) == Some(plain)
    ensures |c.encrypt(nonce, plain)| == |plain| + TAG_SIZE
  {}

  predicate IsChunk(chunk: Bytes) {
    0 < |chunk| <= MAX_RECORD
  }

  predicate AllChunks(chunks: seq<Bytes>) {
    forall i :: 0 <= i < |chunks| ==> IsChunk(chunks[i])
  }

  /** The bytes of one record sealing `inner` under `nonce`. */
  function Record(c: Cipher, nonce: nat, inner: Bytes): Bytes
    requires |c.encrypt(nonce, inner)| < 65536
  {
    var sealed := c.encrypt(nonce, inner);
    [0x17, 0x03, 0x03] + U16(|sealed|) + sealed
  }

  ghost function DataRecord(c: Cipher, nonce: nat, chunk: Bytes): Bytes
    requires c.Lawful() && IsChunk(chunk)
  {
    SealLaw(c, nonce, chunk + [APPLICATION_DATA]);
    Record(c, nonce, chunk + [APPLICATION_DATA])
  }

  /** The records of consecutive chunks of application data, from a given nonce on. */
  ghost function Records(c: Cipher, nonce: nat, chunks: seq<Bytes>): Bytes
    requires c.Lawful() && AllChunks(chunks)
    decreases |chunks|
  {
    if chunks == [] then []
    else
      DataRecord(c, nonce, chunks[0]) + Records(c, nonce + 1, chunks[1..])
  }

  ghost function CloseNotify(c: Cipher, nonce: nat): Bytes
    requires c.Lawful()
  {
    SealLaw(c, nonce, [1, 0, ALERT]);
    Record(c, nonce, [1, 0, ALERT])
  }

  /** On the wire a chunk is the five bytes of a record header and the sealed chunk, which carries the content
      type behind it; the record is twenty-two bytes longer than the chunk. */
  lemma RecordLayout(c: Cipher, nonce: nat, chunk: Bytes)
    requires c.Lawful() && 0 < |chunk| <= 0x4000
    ensures IsChunk(chunk)
    ensures var n := |chunk| + 17;
            DataRecord(c, nonce, chunk) == [0x17, 3, 3, n / 256, n % 256] + c.encrypt(nonce, chunk + [0x17])
    ensures |DataRecord(c, nonce, chunk)| == |chunk| + 22
    ensures CloseNotify(c, nonce) == [0x17, 3, 3, 0, 19] + c.encrypt(nonce, [1, 0, 0x15])
  {
    SealLaw(c, nonce, chunk + [0x17]);
    SealLaw(c, nonce, [1, 0, 0x15]);
  }

  lemma NothingSent(c: Cipher, nonce: nat)
    requires c.Lawful()
    ensures AllChunks([]) && Records(c, nonce, []) == [] && Flatten<byte>([]) == []
  {}

  lemma ChunkSizes(chunks: seq<Bytes>)
    ensures AllChunks(chunks) <==> forall i :: 0 <= i < |chunks| ==> 0 < |chunks[i]| <= 16384
  {
    assert forall i :: 0 <= i < |chunks| ==> (IsChunk(chunks[i]) <==> 0 < |chunks[i]| <= 16384);
  }

  lemma OneMoreChunk(chunks: seq<Bytes>, chunk: Bytes)
    requires AllChunks(chunks) && 0 < |chunk| <= MAX_RECORD
    ensures IsChunk(chunk) && AllChunks(chunks + [chunk])
  {}

  /** What one `recv` call comes to: a body, an end of stream, a rejected record, or a record whose
      bytes have not all arrived. */
  datatype Received = Data(body: Bytes) | PeerClosed | Rejected | Starved

  function Recv(c: Cipher, nonce: nat, input: Bytes): (r: (Received, Bytes))
    ensures r.0 == Starved || |r.1| < |input|
    ensures r.0 == Starved ==> r.1 == input
  {
    if |input| < HEADER_SIZE then (Starved, input)
    else
      var length := FromU16(input[3..5]);
      if |input| < HEADER_SIZE + length then (Starved, input)
      else
        var rest := input[HEADER_SIZE + length..];
        match c.decrypt(nonce, input[HEADER_SIZE..HEADER_SIZE + length])
        case None => (Rejected, rest)
        case Some(plain) =>
          if plain == [] then (PeerClosed, rest)
          else
            var innerType := plain[|plain| - 1];
            if innerType == APPLICATION_DATA then (Data(plain[..|plain| - 1]), rest)
            else if innerType == ALERT then (PeerClosed, rest)
            else (Rejected, rest)
  }

  /** The bodies that repeated `recv` calls return, and how the series ends. */
  function RecvAll(c: Cipher, nonce: nat, input: Bytes): (r: (seq<Bytes>, Received))
    decreases |input|
  {
    var (got, rest) := Recv(c, nonce, input);
    match got
    case Data(body) =>
      var (bodies, end) := RecvAll(c, nonce + 1, rest);
      ([body] + bodies, end)
    case _ => ([], got)
  }

  class EncryptedTunnel {
    const sendCipher: Cipher
    const recvCipher: Cipher
    var sendNonce: nat
    var recvNonce: nat
    var written: Bytes     // everything handed to the stream writer
    var incoming: Bytes    // bytes of the stream reader not yet consumed
    var closing: bool      // the writer's `is_closing`

    constructor (sendCipher: Cipher, recvCipher: Cipher)
      ensures this.sendCipher == sendCipher && this.recvCipher == recvCipher
      ensures sendNonce == 0 && recvNonce == 0 && written == [] && incoming == [] && !closing
    {
      this.sendCipher, this.recvCipher := sendCipher, recvCipher;
      sendNonce, recvNonce, written, incoming, closing := 0, 0, [], [], false;
    }

    /** Seals `inner` under the next nonce and hands the record to the writer. */
    method WriteRecord(inner: Bytes)
      requires |sendCipher.encrypt(sendNonce, inner)| < 65536
      modifies `sendNonce, `written
      ensures sendNonce == old(sendNonce) + 1
      ensures written == old(written) + Record(sendCipher, old(sendNonce), inner)
    {
      var sealed := sendCipher.encrypt(sendNonce, inner);
      sendNonce := sendNonce + 1;
      written := written + ([0x17, 0x03, 0x03] + U16(|sealed|) + sealed);
    }

    method WriteData(chunk: Bytes)
      requires sendCipher.Lawful() && IsChunk(chunk)
      modifies `sendNonce, `written
      ensures sendNonce == old(sendNonce) + 1
      ensures written == old(written) + DataRecord(sendCipher, old(sendNonce), chunk)
    {
      SealLaw(sendCipher, sendNonce, chunk + [APPLICATION_DATA]);
      WriteRecord(chunk + [APPLICATION_DATA]);
    }

    /** Cuts the plaintext into records of randomly drawn limits: whatever is drawn, the chunks
        are the plaintext in order and their records follow what was written before. */
    method Send(plaintext: Bytes) returns (ghost chunks: seq<Bytes>)
      requires sendCipher.Lawful()
      modifies `sendNonce, `written
      ensures AllChunks(chunks) && Flatten(chunks) == plaintext
      ensures forall i :: 0 <= i < |chunks| ==> 0 < |chunks[i]| <= 16384
      ensures sendNonce == old(sendNonce) + |chunks|
      ensures written == old(written) + Records(sendCipher, old(sendNonce), chunks)
    {
      hide DataRecord, Records, Flatten, AllChunks, IsChunk;
      var off := 0;
      chunks := [];
      NothingSent(sendCipher, sendNonce);
      assert plaintext[..0] == [] && written + [] == written;
      while off < |plaintext|
        invariant 0 <= off <= |plaintext|
        invariant AllChunks(chunks) && Flatten(chunks) == plaintext[..off]
        invariant sendNonce == old(sendNonce) + |chunks|
        invariant written == old(written) + Records(sendCipher, old(sendNonce), chunks)
      {
        var limit: nat :| limit in {16384, 8192, 4096};
        var chunk := plaintext[off..if off + limit <= |plaintext| then off + limit else |plaintext|];
        OneMoreChunk(chunks, chunk);
        WriteData(chunk);
        RecordsAppend(sendCipher, old(sendNonce), chunks, chunk);
        Assoc(old(written), Records(sendCipher, old(sendNonce), chunks), DataRecord(sendCipher, old(sendNonce) + |chunks|, chunk));
        FlattenSnoc(chunks, chunk);
        assert plaintext[..off] + chunk == plaintext[..off + |chunk|];
        off := off + |chunk|;
        chunks := chunks + [chunk];
      }
      assert plaintext[..off] == plaintext;
      ChunkSizes(chunks);
    }

    /** Silent on a writer that is closing. */
    method SendCloseNotify()
      requires sendCipher.Lawful()
      modifies `sendNonce, `written
      ensures closing ==> sendNonce == old(sendNonce) && written == old(written)
      ensures !closing ==>
        sendNonce == old(sendNonce) + 1 && written == old(written) + CloseNotify(sendCipher, old(sendNonce))
    {
      if closing {
        return;
      }
      SealLaw(sendCipher, sendNonce, [1, 0, ALERT]);
      WriteRecord([1, 0, ALERT]);
    }

    method Receive() returns (got: Received)
      modifies `recvNonce, `incoming
      ensures (got, incoming) == Recv(recvCipher, old(recvNonce), old(incoming))
      ensures recvNonce == if got.Starved? then old(recvNonce) else old(recvNonce) + 1
    {
      if |incoming| < HEADER_SIZE {
        return Starved;
      }
      var length := FromU16(incoming[3..5]);
      if |incoming| < HEADER_SIZE + length {
        return Starved;
      }
      var sealed := incoming[HEADER_SIZE..HEADER_SIZE + length];
      incoming := incoming[HEADER_SIZE + length..];
      var unsealed := recvCipher.decrypt(recvNonce, sealed);
      recvNonce := recvNonce + 1;
      if unsealed.None? {
        return Rejected;
      }
      var plain := unsealed.value;
      if plain == [] {
        return PeerClosed;
      }
      var innerType := plain[|plain| - 1];
      if innerType == APPLICATION_DATA {
        return Data(plain[..|plain| - 1]);
      }
      return if innerType == ALERT then PeerClosed else Rejected;
    }
  }

  lemma {:induction false} RecordsAppend(c: Cipher, nonce: nat, chunks: seq<Bytes>, chunk: Bytes)
    requires c.Lawful() && IsChunk(chunk) && AllChunks(chunks)
    ensures Records(c, nonce, chunks + [chunk])
         == Records(c, nonce, chunks) + DataRecord(c, nonce + |chunks|, chunk)
    decreases |chunks|
  {
    if chunks == [] {
      assert Records(c, nonce + 1, [chunk][1..]) == [];
    } else {
      RecordsAppend(c, nonce + 1, chunks[1..], chunk);
      assert (chunks + [chunk])[1..] == chunks[1..] + [chunk];
    }
  }

  /** `recv` with the sender's nonce opens a record, whatever follows it. */
  lemma RecvOfRecord(c: Cipher, nonce: nat, inner: Bytes, tail: Bytes)
    requires c.Lawful() && 0 < |inner| <= MAX_RECORD + 1 && |c.encrypt(nonce, inner)| < 65536
    ensures Recv(c, nonce, Record(c, nonce, inner) + tail)
         == (if inner[|inner| - 1] == APPLICATION_DATA then Data(inner[..|inner| - 1])
             else if inner[|inner| - 1] == ALERT then PeerClosed else Rejected, tail)
  {
    var sealed := c.encrypt(nonce, inner);
    SealLaw(c, nonce, inner);
    var stream := Record(c, nonce, inner) + tail;
    assert stream[3..5] == U16(|sealed|) + [];
    U16RoundTrip(|sealed|, []);
    assert stream[HEADER_SIZE..HEADER_SIZE + |sealed|] == sealed;
    assert stream[HEADER_SIZE + |sealed|..] == tail;
  }

  /** Until all bytes of the record are in, `recv` waits and consumes nothing. */
  lemma RecvOfPartial(c: Cipher, nonce: nat, chunk: Bytes, seen: Bytes)
    requires c.Lawful() && IsChunk(chunk)
    requires seen < DataRecord(c, nonce, chunk)
    ensures RecvAll(c, nonce, seen) == ([], Starved)
  {
    var sealed := c.encrypt(nonce, chunk + [APPLICATION_DATA]);
    SealLaw(c, nonce, chunk + [APPLICATION_DATA]);
    if |seen| >= HEADER_SIZE {
      assert seen[3..5] == DataRecord(c, nonce, chunk)[3..5] == U16(|sealed|) + [];
      U16RoundTrip(|sealed|, []);
    }
  }

  lemma RecvAllOfRecord(c: Cipher, nonce: nat, chunk: Bytes, tail: Bytes)
    requires c.Lawful() && IsChunk(chunk)
    ensures RecvAll(c, nonce, DataRecord(c, nonce, chunk) + tail)
         == ([chunk] + RecvAll(c, nonce + 1, tail).0, RecvAll(c, nonce + 1, tail).1)
  {
    var inner := chunk + [APPLICATION_DATA];
    SealLaw(c, nonce, inner);
    RecvOfRecord(c, nonce, inner, tail);
    assert inner[..|inner| - 1] == chunk;
  }

  /** Lockstep counters: of any prefix of what the sender wrote, the receiver gets a prefix of the
      chunks sent, in order and unchanged; of all of it, all of them. */
  lemma {:induction false} RecvAllOfPrefix(c: Cipher, nonce: nat, chunks: seq<Bytes>, seen: Bytes, ahead: Bytes)
    requires c.Lawful() && AllChunks(chunks)
    requires seen + ahead == Records(c, nonce, chunks)
    ensures RecvAll(c, nonce, seen).0 <= chunks
    ensures RecvAll(c, nonce, seen).1 == Starved
    ensures ahead == [] ==> RecvAll(c, nonce, seen).0 == chunks
    decreases |chunks|
  {
    hide Recv, DataRecord;
    if chunks != [] {
      assert IsChunk(chunks[0]);
      var first := DataRecord(c, nonce, chunks[0]);
      var others := Records(c, nonce + 1, chunks[1..]);
      if |seen| < |first| {
        assert seen == (first + others)[..|seen|] == first[..|seen|];
        RecvOfPartial(c, nonce, chunks[0], seen);
      } else {
        var seen' := seen[|first|..];
        assert seen == first + seen' by {
          assert seen[..|first|] == (first + others)[..|first|] == first;
        }
        assert seen' + ahead == others by {
          assert (seen + ahead)[|first|..] == seen' + ahead;
        }
        RecvAllOfRecord(c, nonce, chunks[0], seen');
        RecvAllOfPrefix(c, nonce + 1, chunks[1..], seen', ahead);
        assert chunks == [chunks[0]] + chunks[1..];
      }
    }
  }

  /** Whatever follows the records, the receiver first gets their chunks. */
  lemma {:induction false} RecvAllOfRecords(c: Cipher, nonce: nat, chunks: seq<Bytes>, tail: Bytes)
    requires c.Lawful() && AllChunks(chunks)
    ensures RecvAll(c, nonce, Records(c, nonce, chunks) + tail)
         == (chunks + RecvAll(c, nonce + |chunks|, tail).0, RecvAll(c, nonce + |chunks|, tail).1)
    decreases |chunks|
  {
    hide Recv, DataRecord;
    if chunks == [] {
      assert Records(c, nonce, chunks) + tail == tail;
      assert chunks + RecvAll(c, nonce, tail).0 == RecvAll(c, nonce, tail).0;
    } else {
      assert IsChunk(chunks[0]);
      var first, others := DataRecord(c, nonce, chunks[0]), Records(c, nonce + 1, chunks[1..]);
      assert (first + others) + tail == first + (others + tail);
      RecvAllOfRecord(c, nonce, chunks[0], others + tail);
      RecvAllOfRecords(c, nonce + 1, chunks[1..], tail);
      assert nonce + 1 + |chunks[1..]| == nonce + |chunks|;
      assert [chunks[0]] + (chunks[1..] + RecvAll(c, nonce + |chunks|, tail).0)
          == chunks + RecvAll(c, nonce + |chunks|, tail).0;
    }
  }

  /** After a close_notify the receiver has every chunk, and then sees the end of the stream
      rather than more data, even if bytes follow. */
  lemma RecvAllThenClose(c: Cipher, nonce: nat, chunks: seq<Bytes>, tail: Bytes)
    requires c.Lawful() && AllChunks(chunks)
    ensures RecvAll(c, nonce, Records(c, nonce, chunks) + (CloseNotify(c, nonce + |chunks|) + tail))
         == (chunks, PeerClosed)
  {
    RecvAllOfRecords(c, nonce, chunks, CloseNotify(c, nonce + |chunks|) + tail);
    SealLaw(c, nonce + |chunks|, [1, 0, ALERT]);
    RecvOfRecord(c, nonce + |chunks|, [1, 0, ALERT], tail);
    assert chunks + [] == chunks;
  }
}
