/** The pipelined DNS upstreams (plain and DoT): queries share one stream, an allocator rewrites
    their IDs (section 6.2.1.1 of RFC 7766), and a reader reassembles the answers and hands each to
    the query waiting under its ID. asyncio code is atomic between awaits, so a run is a sequence of
    the events below in any order. */
module DnsPipeline {
  import opened Basics
  import opened Framing
  import opened TxIds

  // ---- the client's own tables -------------------------------------------------------------

  /** `_next_tx`, `_pending` (ID to handle of the waiting future) and the results set so far. */
  datatype Client = Client(next: nat, pending: map<nat, nat>, results: map<nat, Bytes>)

  /** What the reader does with one reassembled response. */
  function Dispatch(c: Client, body: Bytes): Client {
    if |body| < 2 || FromU16(body) !in c.pending then c
    else
      var h := c.pending[FromU16(body)];
      Client(c.next, c.pending - {FromU16(body)}, if h in c.results then c.results else c.results[h := body])
  }

  function DispatchAll(c: Client, bodies: seq<Body>): Client
    decreases |bodies|
  {
    if bodies == [] then c else DispatchAll(Dispatch(c, bodies[0]), bodies[1..])
  }

  lemma {:induction false} DispatchSnoc(c: Client, bodies: seq<Body>, last: Body)
    ensures DispatchAll(c, bodies + [last]) == Dispatch(DispatchAll(c, bodies), last)
    decreases |bodies|
  {
    hide Dispatch;
    if bodies == [] {
      assert bodies + [last] == [last] && DispatchAll(Dispatch(c, last), [last][1..]) == Dispatch(c, last);
    } else {
      DispatchSnoc(Dispatch(c, bodies[0]), bodies[1..], last);
      assert (bodies + [last])[1..] == bodies[1..] + [last];
    }
  }

  class PipelinedUpstream {
    var nextTx: nat
    var pending: map<nat, nat>
    var results: map<nat, Bytes>
    var buf: Bytes

    ghost function View(): Client
      reads this
    {
      Client(nextTx, pending, results)
    }

    constructor ()
      ensures View() == Client(1, map[], map[]) && buf == []
    {
      nextTx, pending, results, buf := 1, map[], map[], [];
    }

    /** `_allocate_tx`: None where the source raises. */
    method AllocateTx() returns (tx: Option<nat>)
      modifies `nextTx
      ensures (tx, nextTx) == Allocate(old(nextTx), pending.Keys, 0x10000)
    {
      var tries := 0x10000;
      while tries > 0
        invariant 0 <= tries <= 0x10000
        invariant Allocate(nextTx, pending.Keys, tries) == Allocate(old(nextTx), pending.Keys, 0x10000)
      {
        var id := nextTx;
        nextTx := (nextTx + 1) % 0x10000;
        if nextTx == 0 {
          nextTx := 1;
        }
        if id !in pending {
          return Some(id);
        }
        tries := tries - 1;
      }
      return None;
    }

    /** The inner loop of `_reader_loop` on one chunk. */
    method ReadChunk(chunk: Bytes)
      modifies `pending, `results, `buf
      ensures View() == DispatchAll(old(View()), Split(old(buf) + chunk).0)
      ensures buf == Split(old(buf) + chunk).1
    {
      hide Split, Dispatch;
      buf := buf + chunk;
      ghost var done: seq<Body>, all := [], Split(buf);
      assert done + Split(buf).0 == all.0;
      while |buf| >= 2
        invariant done + Split(buf).0 == all.0 && Split(buf).1 == all.1
        invariant View() == DispatchAll(old(View()), done)
        decreases |buf|
      {
        var length := FromU16(buf);
        if |buf| < 2 + length {
          break;
        }
        var resp := buf[2..2 + length];
        ghost var later := Split(buf[2 + length..]).0;
        FrontSplit(buf);
        assert done + ([resp] + later) == (done + [resp]) + later;
        DispatchSnoc(old(View()), done, resp);
        done := done + [resp];
        buf := buf[2 + length..];
        DispatchOne(resp);
      }
      NoFrameLeft(buf);
      assert done + [] == done;
    }

    method DispatchOne(resp: Bytes)
      modifies `pending, `results
      ensures View() == Dispatch(old(View()), resp)
    {
      if |resp| >= 2 {
        var tx := FromU16(resp);
        if tx in pending {
          var handle := pending[tx];
          pending := pending - {tx};
          if handle !in results {
            results := results[handle := resp];
          }
        }
      }
    }

    /** The end of `_send_recv` once the future is set: the response under the query's own ID. */
    method Complete(handle: nat, tx: nat, data: Bytes) returns (response: Bytes)
      requires |data| >= 2 && handle in results && |results[handle]| >= 2
      modifies `pending
      ensures response == data[..2] + results[handle][2..]
      ensures View() == Client(old(nextTx), old(pending) - {tx}, old(results))
    {
      response := data[..2] + results[handle][2..];
      pending := pending - {tx};
    }
  }

  // ---- the whole pipeline ------------------------------------------------------------------

  datatype Phase =
    | Ready(attempt: nat)                  // holding the semaphore, about to send
    | Waiting(attempt: nat, handle: nat)   // sent, awaiting its future
    | Done(handle: nat, response: Bytes)   // returned to the caller
    | Raised

  datatype Query = Query(data: Bytes, phase: Phase)

  /** A message sent: for which query, under which ID, and when the ID came up. */
  datatype Sent = Sent(query: nat, tx: nat, use: Use)

  /** A frame the upstream wrote and the reader has not cut off yet. */
  datatype Reply = Answer(handle: nat) | Runt(body: Body)

  /** A live tunnel: messages not answered yet, frames not read yet, the bytes of those frames still
      on the way, and the reader's buffer. */
  datatype Link = Link(asked: set<nat>, unread: seq<Reply>, wire: Bytes, buf: Bytes)

  /** `answers` records what the upstream answered to each message. */
  datatype State = State(client: Client, queries: map<nat, Query>, sent: seq<Sent>,
                         answers: map<nat, Bytes>, link: Option<Link>, tick: nat)

  const Init := State(Client(1, map[], map[]), map[], [], map[], None, 0)

  datatype Event =
    | Begin(query: nat, data: Bytes)       // a caller gets the semaphore
    | Connect                              // a new tunnel and reader
    | Ask(query: nat)                      // allocate an ID and send
    | Answered(handle: nat, answer: Bytes) // the upstream answers a message, echoing its ID
    | Noise(body: Body)                    // the upstream sends a frame too short for an ID
    | Arrive(n: nat)                       // the reader gets the next n bytes
    | Finish(query: nat)                   // a query resumes with its future's result
    | Timeout(query: nat)
    | Fail(query: nat)                     // any other exception in a query: drop, maybe retry
    | ReaderError                          // the reader dies, failing every pending future
    | Drop

  predicate Live(p: Phase) {
    p.Ready? || p.Waiting?
  }

  function LiveQueries(s: State): set<nat> {
    set q | q in s.queries && Live(s.queries[q].phase)
  }

  predicate Enabled(cap: nat, s: State, e: Event) {
    match e
    case Begin(q, data) => q !in s.queries && |data| >= 2 && |LiveQueries(s)| < cap
    case Connect => s.link.None?
    case Ask(q) => q in s.queries && s.queries[q].phase.Ready? && s.link.Some? && |s.queries[q].data| < 65536
    case Answered(h, body) => s.link.Some? && h in s.link.value.asked && h < |s.sent|
                           && s.sent[h].tx < 65536 && |body| < 65534
    case Noise(body) => s.link.Some? && |body| < 2
    case Arrive(n) => s.link.Some? && 0 < n <= |s.link.value.wire|
    case Finish(q) => q in s.queries && s.queries[q].phase.Waiting? && s.queries[q].phase.handle < |s.sent|
                      && s.queries[q].phase.handle in s.client.results
                      && |s.client.results[s.queries[q].phase.handle]| >= 2 && |s.queries[q].data| >= 2
    case Timeout(q) => q in s.queries && s.queries[q].phase.Waiting? && s.queries[q].phase.handle < |s.sent|
    case Fail(q) => q in s.queries && Live(s.queries[q].phase)
                    && (s.queries[q].phase.Waiting? ==> s.queries[q].phase.handle < |s.sent|)
    case ReaderError => s.link.Some?
    case Drop => true
  }

  function WithPhase(s: State, q: nat, p: Phase): map<nat, Query>
    requires q in s.queries
  {
    s.queries[q := Query(s.queries[q].data, p)]
  }

  /** `_pending.pop` of a waiting query's ID. */
  function Forget(s: State, q: nat): Client
    requires q in s.queries && s.queries[q].phase.Waiting? && s.queries[q].phase.handle < |s.sent|
  {
    Client(s.client.next, s.client.pending - {s.sent[s.queries[q].phase.handle].tx}, s.client.results)
  }

  function Apply(cap: nat, s: State, e: Event): State
    requires Enabled(cap, s, e)
  {
    match e
    case Begin(q, data) => s.(queries := s.queries[q := Query(data, Ready(0))])
    case Connect => s.(link := Some(Link({}, [], [], [])))
    case Ask(q) => AskStep(s, q)
    case Answered(h, body) =>
      var l := s.link.value;
      s.(answers := s.answers[h := body],
         link := Some(Link(l.asked - {h}, l.unread + [Answer(h)], l.wire + Frame(U16(s.sent[h].tx) + body), l.buf)))
    case Noise(body) =>
      var l := s.link.value;
      s.(link := Some(Link(l.asked, l.unread + [Runt(body)], l.wire + Frame(body), l.buf)))
    case Arrive(n) => ArriveStep(s, n)
    case Finish(q) =>
      var h := s.queries[q].phase.handle;
      s.(client := Forget(s, q), queries := WithPhase(s, q, Done(h, s.queries[q].data[..2] + s.client.results[h][2..])))
    case Timeout(q) => s.(client := Forget(s, q), queries := WithPhase(s, q, Raised))
    case Fail(q) => FailStep(s, q)
    case ReaderError => s.(client := s.client.(pending := map[]), link := None)
    case Drop => s.(link := None)
  }

  function AskStep(s: State, q: nat): State
    requires q in s.queries && s.queries[q].phase.Ready? && s.link.Some?
  {
    var (tx, next) := Allocate(s.client.next, s.client.pending.Keys, 0x10000);
    match tx
    case None => FailStep(s.(client := s.client.(next := next)), q)
    case Some(id) => Asked(s, q, id, next, FirstFree(s.tick, s.client.pending.Keys, 0x10000))
  }

  /** The query's message goes out under the ID `id`, which came up at tick `found`. */
  function Asked(s: State, q: nat, id: nat, next: nat, found: nat): State
    requires q in s.queries && s.queries[q].phase.Ready? && s.link.Some?
  {
    var l := s.link.value;
    State(Client(next, s.client.pending[id := |s.sent|], s.client.results),
          WithPhase(s, q, Waiting(s.queries[q].phase.attempt, |s.sent|)),
          s.sent + [Sent(q, id, Use(found, s.client.pending.Keys))],
          s.answers, Some(l.(asked := l.asked + {|s.sent|})), found + 1)
  }

  function FailStep(s: State, q: nat): State
    requires q in s.queries && Live(s.queries[q].phase)
    requires s.queries[q].phase.Waiting? ==> s.queries[q].phase.handle < |s.sent|
  {
    s.(client := if s.queries[q].phase.Waiting? then Forget(s, q) else s.client,
       queries := WithPhase(s, q, if s.queries[q].phase.attempt == 0 then Ready(1) else Raised),
       link := None)
  }

  function ArriveStep(s: State, n: nat): State
    requires s.link.Some? && n <= |s.link.value.wire|
  {
    var l := s.link.value;
    var (bodies, rest) := Split(l.buf + l.wire[..n]);
    s.(client := DispatchAll(s.client, bodies),
       link := Some(Link(l.asked, if |bodies| <= |l.unread| then l.unread[|bodies|..] else [], l.wire[n..], rest)))
  }

  /** The state after a run, event by event. */
  ghost predicate Reaches(cap: nat, s: State, events: seq<Event>, end: State)
    decreases |events|
  {
    if events == [] then s == end
    else Enabled(cap, s, events[0]) && Reaches(cap, Apply(cap, s, events[0]), events[1..], end)
  }
}
