/** The hypothesis of delivery is needed and can be met: from any reachable state in which an ID is given
    out while an answer to its earlier use is outstanding, some run goes wrong; such states are reached;
    and a lone query completes. */
module DnsReuse {
  import opened Basics
  import opened Framing
  import opened TxIds
  import opened DnsPipeline
  import opened DnsDelivery

  lemma AtEnd(cap: nat, s: State)
    ensures Reaches(cap, s, [], s) && Orderly(cap, s, [])
  {
  }

  lemma StepOn(cap: nat, s: State, e: Event, rest: seq<Event>, end: State)
    requires Enabled(cap, s, e) && Reaches(cap, Apply(cap, s, e), rest, end)
    ensures Reaches(cap, s, [e] + rest, end)
    ensures (e.Ask? ==> FreshAsk(s)) && Orderly(cap, Apply(cap, s, e), rest) ==> Orderly(cap, s, [e] + rest)
  {
    hide Enabled, Apply, FreshAsk;
    assert ([e] + rest)[1..] == rest;
  }

  /** The steps from an answer to the completion of the query its ID now stands for. */
  function Completion(q: nat, h: nat, answer: Bytes): seq<Event> {
    [Answered(h, answer)] + ([Arrive(|answer| + 4)] + ([Finish(q)] + []))
  }

  /** On a quiet link, message h answered under an ID that q waits on completes q with that answer. */
  lemma AnswerCompletes(cap: nat, s: State, q: nat, h: nat, answer: Bytes) returns (end: State)
    requires q in s.queries && s.queries[q].phase.Waiting? && |s.queries[q].data| >= 2 && |answer| < 65534
    requires s.link.Some? && s.link.value == Link(s.link.value.asked, [], [], []) && h in s.link.value.asked && h < |s.sent|
    requires var w := s.queries[q].phase.handle;
             w < |s.sent| && s.sent[w].tx == s.sent[h].tx < 65536 && w !in s.client.results
             && s.sent[h].tx in s.client.pending && s.client.pending[s.sent[h].tx] == w
    ensures Reaches(cap, s, Completion(q, h, answer), end) && Orderly(cap, s, Completion(q, h, answer))
    ensures q in end.queries && end.queries[q].phase.Done? && end.queries[q].phase.response == s.queries[q].data[..2] + answer
    ensures end.queries[q].phase.handle == s.queries[q].phase.handle && end.answers == s.answers[h := answer]
  {
    hide Reaches, Orderly, Frame, Apply, Dispatch;
    var body: Body := U16(s.sent[h].tx) + answer;
    AnswerGoesOut(cap, s, h, answer);
    var s2 := Apply(cap, s, Answered(h, answer));
    OneFrameArrives(cap, s2, body);
    var s3 := Apply(cap, s2, Arrive(|answer| + 4));
    ResultSet(s.client, s.sent[h].tx, answer, s.queries[q].phase.handle);
    end := FinishWith(cap, s3, q, answer);
    AtEnd(cap, end);
    StepOn(cap, s3, Finish(q), [], end);
    StepOn(cap, s2, Arrive(|answer| + 4), [Finish(q)] + [], end);
    StepOn(cap, s, Answered(h, answer), [Arrive(|answer| + 4)] + ([Finish(q)] + []), end);
  }

  lemma AnswerGoesOut(cap: nat, s: State, h: nat, answer: Bytes)
    requires s.link.Some? && s.link.value == Link(s.link.value.asked, [], [], []) && h in s.link.value.asked
    requires h < |s.sent| && s.sent[h].tx < 65536 && |answer| < 65534
    ensures Enabled(cap, s, Answered(h, answer))
    ensures var l := Link(s.link.value.asked - {h}, [Answer(h)], Frame(U16(s.sent[h].tx) + answer), []);
            Apply(cap, s, Answered(h, answer)) == s.(answers := s.answers[h := answer], link := Some(l))
  {
    hide Frame;
    var frame := Frame(U16(s.sent[h].tx) + answer);
    assert [] + frame == frame && [] + [Answer(h)] == [Answer(h)];
  }

  lemma OneFrameArrives(cap: nat, s: State, body: Body)
    requires s.link.Some? && |s.link.value.unread| == 1 && s.link.value.wire == Frame(body) && s.link.value.buf == []
    ensures Enabled(cap, s, Arrive(|body| + 2))
    ensures Apply(cap, s, Arrive(|body| + 2))
         == s.(client := Dispatch(s.client, body), link := Some(Link(s.link.value.asked, [], [], [])))
  {
    hide Split, Dispatch, Frames;
    var wire := Frame(body);
    assert [] + wire[..|body| + 2] == wire && wire[|body| + 2..] == [];
    FramesCons(body, []);
    FramesNone();
    assert [body] + [] == [body] && wire + [] == wire;
    SplitFrames([body]);
    assert [body][1..] == [] && DispatchAll(Dispatch(s.client, body), []) == Dispatch(s.client, body);
  }

  lemma ResultSet(c: Client, tx: nat, answer: Bytes, w: nat)
    requires tx < 65536 && tx in c.pending && c.pending[tx] == w && w !in c.results && |answer| < 65534
    ensures Dispatch(c, U16(tx) + answer).results == c.results[w := U16(tx) + answer]
  {
    U16RoundTrip(tx, answer);
  }

  lemma FinishWith(cap: nat, s: State, q: nat, answer: Bytes) returns (end: State)
    requires q in s.queries && s.queries[q].phase.Waiting? && |s.queries[q].data| >= 2
    requires var w := s.queries[q].phase.handle;
             w < |s.sent| && w in s.client.results && |s.client.results[w]| >= 2 && s.client.results[w][2..] == answer
    ensures Enabled(cap, s, Finish(q)) && end == Apply(cap, s, Finish(q))
    ensures end.queries == s.queries[q := Query(s.queries[q].data, Done(s.queries[q].phase.handle, s.queries[q].data[..2] + answer))]
    ensures end.answers == s.answers
  {
    end := Apply(cap, s, Finish(q));
  }

  /** The hypotheses of delivery can be met: a lone query, with any message and any answer, completes. */
  lemma LoneQueryCompletes(cap: nat, q: nat, data: Bytes, answer: Bytes)
    requires 0 < cap < IDS && 2 <= |data| < 65536 && |answer| < 65534
    ensures exists events, end ::
      Reaches(cap, Init, events, end) && Orderly(cap, Init, events)
      && q in end.queries && end.queries[q].phase.Done? && end.queries[q].phase.response == data[..2] + answer
  {
    hide FirstFree, Allocate, Reaches, Orderly, Completion;
    var s1 := Apply(cap, Init, Begin(q, data));
    var s2 := Apply(cap, s1, Connect);
    assert LiveQueries(Init) == {};
    AllocateFinds(0, {});
    assert IdAt(0) == 1 && s2.client.pending.Keys == {};
    var s3 := Apply(cap, s2, Ask(q));
    var end := AnswerCompletes(cap, s3, q, 0, answer);
    StepOn(cap, s2, Ask(q), Completion(q, 0, answer), end);
    StepOn(cap, s1, Connect, [Ask(q)] + Completion(q, 0, answer), end);
    StepOn(cap, Init, Begin(q, data), [Connect] + ([Ask(q)] + Completion(q, 0, answer)), end);
  }

  // ---- what the stream holds on every run ----------------------------------------------------

  ghost predicate ResultsFit(c: Client, sent: nat) {
    forall h :: h in c.results ==> h < sent && |c.results[h]| >= 2
  }

  ghost predicate RepliesFit(s: State, replies: seq<Reply>) {
    forall i :: 0 <= i < |replies| ==> ReplyOk(s, replies[i])
  }

  /** The bytes under way are the frames of the replies not read, and what is unanswered has no answer. */
  ghost predicate WireLink(s: State, l: Link) {
    && (forall h :: h in l.asked ==> h < |s.sent| && h !in s.answers)
    && RepliesFit(s, l.unread)
    && l.buf + l.wire == Frames(ReplyBodies(s, l.unread))
    && !HasFrame(l.buf)
  }

  ghost predicate WireOk(s: State) {
    && ResultsFit(s.client, |s.sent|)
    && (forall h :: h in s.answers ==> h < |s.sent|)
    && (forall q :: q in s.queries ==> |s.queries[q].data| >= 2)
    && (s.link.Some? ==> WireLink(s, s.link.value))
  }

  /** Replies already written stay as they are. */
  lemma SameBodies(s: State, s': State, replies: seq<Reply>)
    requires RepliesFit(s, replies)
    requires |s.sent| <= |s'.sent| && forall h :: 0 <= h < |s.sent| ==> s'.sent[h] == s.sent[h]
    requires forall h :: h in s.answers && Answer(h) in replies ==> h in s'.answers && s'.answers[h] == s.answers[h]
    ensures RepliesFit(s', replies)
    ensures ReplyBodies(s', replies) == ReplyBodies(s, replies)
    ensures forall i :: 0 <= i < |replies| ==> ReplyBody(s', replies[i]) == ReplyBody(s, replies[i])
  {
    forall i | 0 <= i < |replies|
      ensures ReplyOk(s', replies[i]) && ReplyBody(s', replies[i]) == ReplyBody(s, replies[i])
    {
      assert ReplyOk(s, replies[i]) && replies[i] in replies;
    }
  }

  lemma WireQuiet(s: State, s': State)
    requires WireOk(s) && s'.sent == s.sent && s'.answers == s.answers && s'.client.results == s.client.results
    requires s'.link == s.link || s'.link == None || s'.link == Some(Link({}, [], [], []))
    requires forall q :: q in s'.queries ==> |s'.queries[q].data| >= 2
    ensures WireOk(s')
  {
    hide Frames;
    if s'.link == s.link && s.link.Some? {
      SameBodies(s, s', s.link.value.unread);
    } else if s'.link.Some? {
      NothingOnWire(s');
    }
  }

  lemma NothingOnWire(s: State)
    ensures WireLink(s, Link({}, [], [], []))
  {
    assert ReplyBodies(s, []) == [];
  }

  lemma WireAsked(s: State, q: nat, id: nat, next: nat, found: nat)
    requires WireOk(s) && q in s.queries && s.queries[q].phase.Ready? && s.link.Some?
    ensures WireOk(Asked(s, q, id, next, found))
  {
    hide Frames, HasFrame;
    SameBodies(s, Asked(s, q, id, next, found), s.link.value.unread);
  }

  lemma WireWritten(s: State, s': State, r: Reply)
    requires WireOk(s) && s.link.Some? && ReplyOk(s', r)
    requires s'.sent == s.sent && s'.client == s.client && s'.queries == s.queries
    requires if r.Answer? then r.handle in s.link.value.asked && r.handle in s'.answers
                               && s'.answers == s.answers[r.handle := s'.answers[r.handle]]
             else s'.answers == s.answers
    requires var l := s.link.value;
             s'.link == Some(Link(if r.Answer? then l.asked - {r.handle} else l.asked, l.unread + [r],
                                  l.wire + Frame(ReplyBody(s', r)), l.buf))
    ensures WireOk(s')
  {
    hide Frame, HasFrame, Frames;
    var l := s.link.value;
    forall h | Answer(h) in l.unread ensures h in s.answers {
      var i :| 0 <= i < |l.unread| && l.unread[i] == Answer(h);
      assert ReplyOk(s, l.unread[i]);
    }
    SameBodies(s, s', l.unread);
    WriteFrames(s, s', l.unread, r);
    assert (l.buf + l.wire) + Frame(ReplyBody(s', r)) == l.buf + (l.wire + Frame(ReplyBody(s', r)));
  }

  lemma {:induction false} DispatchFits(c: Client, bodies: seq<Body>, sent: nat)
    requires ResultsFit(c, sent) && forall tx :: tx in c.pending ==> c.pending[tx] < sent
    ensures ResultsFit(DispatchAll(c, bodies), sent)
    decreases |bodies|
  {
    if bodies != [] {
      DispatchFits(Dispatch(c, bodies[0]), bodies[1..], sent);
    }
  }

  lemma WireArrived(s: State, n: nat)
    requires WireOk(s) && PendingOk(s) && s.link.Some? && n <= |s.link.value.wire|
    ensures WireOk(ArriveStep(s, n))
  {
    hide Split, DispatchAll, Frames, HasFrame, ResultsFit;
    var l := s.link.value;
    var s' := ArriveStep(s, n);
    var seen, ahead, all := l.buf + l.wire[..n], l.wire[n..], ReplyBodies(s, l.unread);
    assert seen + ahead == l.buf + l.wire;
    SplitOfPrefix(seen, ahead, all);
    SplitLeavesNone(seen);
    var k := |Split(seen).0|;
    assert all[k..] == ReplyBodies(s, l.unread[k..]);
    SameBodies(s, s', l.unread[k..]);
    forall tx | tx in s.client.pending ensures s.client.pending[tx] < |s.sent| {
      assert EntryOk(s, tx);
    }
    DispatchFits(s.client, Split(seen).0, |s.sent|);
  }

  lemma SplitLeavesNone(seen: Bytes)
    ensures !HasFrame(Split(seen).1)
  {
    SplitIsInverse(seen);
  }

  lemma WireStep(cap: nat, s: State, e: Event)
    requires TablesOk(cap, s) && WireOk(s) && Enabled(cap, s, e) && cap < IDS
    ensures WireOk(Apply(cap, s, e))
  {
    hide WireOk, CounterOk, SentOk, PendingOk, AskStep, LiveQueries, ArriveStep, Frame, Asked;
    QueriesFit(s);
    match e
    case Ask(q) =>
      var found := AskAllocates(cap, s, q);
      WireAsked(s, q, IdAt(found), IdAt(found + 1), found);
    case Answered(h, answer) => WireWritten(s, Apply(cap, s, e), Answer(h));
    case Noise(b) => WireWritten(s, Apply(cap, s, e), Runt(b));
    case Arrive(n) => WireArrived(s, n);
    case _ => WireQuiet(s, Apply(cap, s, e));
  }

  lemma QueriesFit(s: State)
    requires WireOk(s)
    ensures forall q :: q in s.queries ==> |s.queries[q].data| >= 2
  {
  }

  lemma {:induction false} RunKeepsWire(cap: nat, s: State, events: seq<Event>, end: State)
    requires TablesOk(cap, s) && WireOk(s) && Reaches(cap, s, events, end) && cap < IDS
    ensures TablesOk(cap, end) && WireOk(end)
    decreases |events|
  {
    hide TablesOk, WireOk, Enabled, Apply;
    if events != [] {
      StepKeepsTables(cap, s, events[0]);
      WireStep(cap, s, events[0]);
      RunKeepsWire(cap, Apply(cap, s, events[0]), events[1..], end);
    }
  }

  // ---- an ID used again too early ------------------------------------------------------------

  /** Reading everything on the wire. */
  function Drain(s: State): seq<Event>
    requires s.link.Some?
  {
    if s.link.value.wire == [] then [] else [Arrive(|s.link.value.wire|)]
  }

  /** Reading it hands every reply to the dispatcher and leaves the link quiet. */
  lemma Drains(cap: nat, s: State) returns (end: State)
    requires WireOk(s) && s.link.Some?
    ensures RepliesFit(s, s.link.value.unread)
    ensures end == State(DispatchAll(s.client, ReplyBodies(s, s.link.value.unread)), s.queries, s.sent, s.answers,
                         Some(Link(s.link.value.asked, [], [], [])), s.tick)
    ensures forall rest, last :: Reaches(cap, end, rest, last) ==> Reaches(cap, s, Drain(s) + rest, last)
  {
    hide Split, DispatchAll, Reaches;
    var l := s.link.value;
    var bodies := ReplyBodies(s, l.unread);
    SplitFrames(bodies);
    if l.wire == [] {
      assert l.buf + [] == l.buf;
      NoFrameLeft(l.buf);
      assert bodies == [] && l.unread == [] && l.buf == [];
      DispatchNone(s.client);
      end := s;
      forall rest, last | Reaches(cap, end, rest, last) ensures Reaches(cap, s, Drain(s) + rest, last) {
        assert [] + rest == rest;
      }
    } else {
      assert l.wire[..|l.wire|] == l.wire;
      assert Split(l.buf + l.wire[..|l.wire|]) == (bodies, []);
      assert |bodies| == |l.unread| && l.unread[|bodies|..] == [] && l.wire[|l.wire|..] == [];
      end := ArriveStep(s, |l.wire|);
      assert end == Apply(cap, s, Arrive(|l.wire|));
      forall rest, last | Reaches(cap, end, rest, last) ensures Reaches(cap, s, Drain(s) + rest, last) {
        StepOn(cap, s, Arrive(|l.wire|), rest, last);
      }
    }
  }

  lemma DispatchNone(c: Client)
    ensures DispatchAll(c, []) == c
  {
  }

  /** After dispatching, a waiting handle has a result, or its ID is still pending and was in no body. */
  lemma {:induction false} DispatchOutcome(c: Client, bodies: seq<Body>, tx: nat, w: nat)
    requires tx in c.pending && c.pending[tx] == w && w !in c.results
    ensures var c' := DispatchAll(c, bodies);
            w in c'.results
            || (tx in c'.pending && c'.pending[tx] == w
                && forall i :: 0 <= i < |bodies| && |bodies[i]| >= 2 ==> FromU16(bodies[i]) != tx)
    decreases |bodies|
  {
    if bodies != [] {
      var c1 := Dispatch(c, bodies[0]);
      if w in c1.results {
        ResultsStay(c1, bodies[1..], w);
      } else {
        DispatchOutcome(c1, bodies[1..], tx, w);
        assert forall i :: 0 < i < |bodies| ==> bodies[i] == bodies[1..][i - 1];
      }
    }
  }

  lemma {:induction false} ResultsStay(c: Client, bodies: seq<Body>, w: nat)
    requires w in c.results
    ensures w in DispatchAll(c, bodies).results
    decreases |bodies|
  {
    if bodies != [] {
      ResultsStay(Dispatch(c, bodies[0]), bodies[1..], w);
    }
  }

  /** A query waiting on w under an ID that an outstanding answer to another message carries can be completed
      before anything was answered to w. */
  lemma WrongCompletion(cap: nat, s: State, q: nat, h: nat) returns (more: seq<Event>, end: State)
    requires TablesOk(cap, s) && WireOk(s) && s.link.Some? && q in s.queries && s.queries[q].phase.Waiting?
    requires var w := s.queries[q].phase.handle;
             && w < |s.sent| && h < |s.sent| && h != w && s.sent[h].tx == s.sent[w].tx && w !in s.answers
             && w !in s.client.results && s.sent[w].tx in s.client.pending && s.client.pending[s.sent[w].tx] == w
    requires Outstanding(s, h)
    ensures Reaches(cap, s, more, end) && q in end.queries && end.queries[q].phase.Done? && !AnsweredOwn(end, q)
  {
    hide DispatchAll, CounterOk, LiveQueries, Reaches, Drain, HasFrame, Frames, Completion;
    var w, tx, l := s.queries[q].phase.handle, s.sent[h].tx, s.link.value;
    assert tx == IdAt(s.sent[h].use.tick);
    var quiet := Drains(cap, s);
    var bodies := ReplyBodies(s, l.unread);
    DispatchOutcome(s.client, bodies, tx, w);
    forall t | t in s.client.pending ensures s.client.pending[t] < |s.sent| {
      assert EntryOk(s, t);
    }
    DispatchFits(s.client, bodies, |s.sent|);
    if w in quiet.client.results {
      end := Apply(cap, quiet, Finish(q));
      AtEnd(cap, end);
      StepOn(cap, quiet, Finish(q), [], end);
      more := Drain(s) + ([Finish(q)] + []);
    } else {
      if Answer(h) in l.unread {
        CarriesId(s, l.unread, h);
      }
      end := AnswerCompletes(cap, quiet, q, h, []);
      more := Drain(s) + Completion(q, h, []);
    }
  }

  lemma CarriesId(s: State, replies: seq<Reply>, h: nat)
    requires RepliesFit(s, replies) && Answer(h) in replies
    ensures h < |s.sent| && exists i :: 0 <= i < |replies| && |ReplyBodies(s, replies)[i]| >= 2
                                        && FromU16(ReplyBodies(s, replies)[i]) == s.sent[h].tx
  {
    var i :| 0 <= i < |replies| && replies[i] == Answer(h);
    assert ReplyOk(s, replies[i]);
    U16RoundTrip(s.sent[h].tx, s.answers[h]);
    assert ReplyBodies(s, replies)[i] == U16(s.sent[h].tx) + s.answers[h];
  }

  /** The hypothesis of delivery is needed at every reachable state: if the ID that q is given is that of a
      message whose answer is outstanding, a run goes on to complete q without any answer to its message. */
  lemma LateAnswerGoesToNewQuery(cap: nat, events: seq<Event>, s: State, q: nat)
    requires Reaches(cap, Init, events, s) && Enabled(cap, s, Ask(q)) && cap < IDS && !FreshAsk(s)
    ensures exists more, end :: Reaches(cap, s, [Ask(q)] + more, end)
                                && q in end.queries && end.queries[q].phase.Done? && !AnsweredOwn(end, q)
  {
    hide TablesOk, WireOk, Allocate, FirstFree, Reaches, Outstanding, AskStep;
    InitTables(cap);
    InitWire();
    RunKeepsWire(cap, Init, events, s);
    var found := AskAllocates(cap, s, q);
    var s1 := Asked(s, q, IdAt(found), IdAt(found + 1), found);
    AskKeeps(cap, s, q);
    WireAsked(s, q, IdAt(found), IdAt(found + 1), found);
    var h :| 0 <= h < |s.sent| && Outstanding(s, h) && s.sent[h].tx == IdAt(found);
    NewHandle(s);
    StillOutstanding(s, s1, h);
    var more, end := WrongCompletion(cap, s1, q, h);
    StepOn(cap, s, Ask(q), more, end);
  }

  lemma InitWire()
    ensures WireOk(Init)
  {
  }

  lemma NewHandle(s: State)
    requires WireOk(s)
    ensures |s.sent| !in s.answers && |s.sent| !in s.client.results
  {
  }

  lemma StillOutstanding(s: State, s': State, h: nat)
    requires Outstanding(s, h) && s'.link.Some?
    requires s.link.value.asked <= s'.link.value.asked && s.link.value.unread == s'.link.value.unread
    ensures Outstanding(s', h)
  {
  }

  // ---- such a state is reached ---------------------------------------------------------------

  lemma {:induction false} ReachesAppend(cap: nat, s: State, a: seq<Event>, mid: State, b: seq<Event>, end: State)
    requires Reaches(cap, s, a, mid) && Reaches(cap, mid, b, end)
    ensures Reaches(cap, s, a + b, end)
    decreases |a|
  {
    hide Enabled, Apply;
    if a == [] {
      assert a + b == b;
    } else {
      ReachesAppend(cap, Apply(cap, s, a[0]), a[1..], mid, b, end);
      assert (a + b)[1..] == a[1..] + b;
    }
  }

  /** After n messages that all timed out on one tunnel, the first of them still unanswered. */
  ghost predicate TimedOut(s: State, n: nat) {
    && s.client == Client(IdAt(n), map[], map[]) && s.tick == n && |s.sent| == n
    && (forall q :: q in s.queries ==> q < n && s.queries[q].phase == Raised)
    && s.link.Some? && (n > 0 ==> 0 in s.link.value.asked && s.sent[0].tx == IdAt(0))
  }

  lemma NoneLive(s: State, n: nat)
    requires TimedOut(s, n)
    ensures LiveQueries(s) == {} && n !in s.queries
  {
  }

  /** With nothing pending, the ID given out is the counter's. */
  lemma NextId(n: nat)
    ensures Allocate(IdAt(n), {}, 0x10000) == (Some(IdAt(n)), IdAt(n + 1)) && FirstFree(n, {}, 0x10000) == n
  {
    hide Allocate, IdAt;
    AllocateFinds(n, {});
  }

  /** One more query, about to send. */
  function WithNext(s: State, n: nat): State {
    s.(queries := s.queries[n := Query([0, 0], Ready(0))])
  }

  lemma BeginNext(cap: nat, s: State, n: nat)
    requires LiveQueries(s) == {} && cap > 0 && n !in s.queries
    ensures Enabled(cap, s, Begin(n, [0, 0])) && Apply(cap, s, Begin(n, [0, 0])) == WithNext(s, n)
  {
  }

  lemma AskNext(cap: nat, s: State, n: nat)
    requires TimedOut(s, n)
    ensures Enabled(cap, WithNext(s, n), Ask(n))
    ensures Apply(cap, WithNext(s, n), Ask(n)) == Asked(WithNext(s, n), n, IdAt(n), IdAt(n + 1), n)
  {
    hide Allocate, FirstFree, IdAt, Asked;
    NextId(n);
    assert s.client.pending.Keys == {};
  }

  lemma TimeoutNext(cap: nat, s: State, n: nat) returns (end: State)
    requires TimedOut(s, n)
    ensures var s2 := Asked(WithNext(s, n), n, IdAt(n), IdAt(n + 1), n);
            Enabled(cap, s2, Timeout(n)) && end == Apply(cap, s2, Timeout(n))
    ensures TimedOut(end, n + 1)
  {
    hide IdAt;
    var s2 := Asked(WithNext(s, n), n, IdAt(n), IdAt(n + 1), n);
    assert s2.sent[n].tx == IdAt(n) && s2.client.pending - {IdAt(n)} == map[];
    end := Apply(cap, s2, Timeout(n));
  }

  lemma OneMoreTimeout(cap: nat, s: State, n: nat) returns (end: State)
    requires cap > 0 && TimedOut(s, n)
    ensures TimedOut(end, n + 1)
    ensures Reaches(cap, s, [Begin(n, [0, 0])] + ([Ask(n)] + ([Timeout(n)] + [])), end)
  {
    hide Allocate, FirstFree, IdAt, Reaches, Orderly, TimedOut, Apply, Enabled, Asked;
    NoneLive(s, n);
    BeginNext(cap, s, n);
    var s1 := Apply(cap, s, Begin(n, [0, 0]));
    AskNext(cap, s, n);
    var s2 := Apply(cap, s1, Ask(n));
    end := TimeoutNext(cap, s, n);
    AtEnd(cap, end);
    StepOn(cap, s2, Timeout(n), [], end);
    StepOn(cap, s1, Ask(n), [Timeout(n)] + [], end);
    StepOn(cap, s, Begin(n, [0, 0]), [Ask(n)] + ([Timeout(n)] + []), end);
  }

  lemma {:induction false} ManyTimeouts(cap: nat, n: nat) returns (events: seq<Event>, s: State)
    requires cap > 0
    ensures Reaches(cap, Init, events, s) && TimedOut(s, n)
  {
    hide Reaches, TimedOut;
    if n == 0 {
      s := Apply(cap, Init, Connect);
      FirstTunnel(cap);
      AtEnd(cap, s);
      StepOn(cap, Init, Connect, [], s);
      events := [Connect] + [];
    } else {
      var early, mid := ManyTimeouts(cap, n - 1);
      s := OneMoreTimeout(cap, mid, n - 1);
      var more := [Begin(n - 1, [0, 0])] + ([Ask(n - 1)] + ([Timeout(n - 1)] + []));
      ReachesAppend(cap, Init, early, mid, more, s);
      events := early + more;
    }
  }

  lemma FirstTunnel(cap: nat)
    ensures TimedOut(Apply(cap, Init, Connect), 0)
  {
  }

  /** Once round the IDs: the first message is still unanswered when its ID comes up again. */
  lemma ReuseIsReached(cap: nat) returns (events: seq<Event>, s: State, q: nat)
    requires cap > 0
    ensures Reaches(cap, Init, events, s) && Enabled(cap, s, Ask(q)) && !FreshAsk(s)
  {
    hide Allocate, FirstFree, Reaches;
    var early, mid := ManyTimeouts(cap, IDS);
    NoneLive(mid, IDS);
    NextId(IDS);
    q := IDS;
    s := Apply(cap, mid, Begin(q, [0, 0]));
    AtEnd(cap, s);
    StepOn(cap, mid, Begin(q, [0, 0]), [], s);
    events := early + ([Begin(q, [0, 0])] + []);
    ReachesAppend(cap, Init, early, mid, [Begin(q, [0, 0])] + [], s);
    assert s.client.pending.Keys == {} && Outstanding(s, 0) && IdAt(IDS) == IdAt(0);
  }

  /** So without the hypothesis delivery fails: a run from the start completes a query with no answer to its
      own message. */
  lemma DeliveryCanFail(cap: nat)
    requires 0 < cap < IDS
    ensures exists events, end, q :: Reaches(cap, Init, events, end) && q in end.queries && end.queries[q].phase.Done?
                                     && !AnsweredOwn(end, q)
  {
    hide Enabled, FreshAsk, Reaches, AnsweredOwn;
    var early, s, q := ReuseIsReached(cap);
    LateAnswerGoesToNewQuery(cap, early, s, q);
    var more, end :| Reaches(cap, s, [Ask(q)] + more, end)
                     && q in end.queries && end.queries[q].phase.Done? && !AnsweredOwn(end, q);
    ReachesAppend(cap, Init, early, s, [Ask(q)] + more, end);
  }
}
