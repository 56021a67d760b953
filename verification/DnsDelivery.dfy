/** What every run of the DNS pipeline keeps: its IDs stay distinct, in range and few, the allocator
    never raises, and a query that completes gets its own ID back with the answer to its own
    message, as long as no answer to an earlier use of an ID is still outstanding when the ID is
    given out again. */
module DnsDelivery {
  import opened Basics
  import opened Framing
  import opened TxIds
  import opened DnsPipeline

  // ---- the tables --------------------------------------------------------------------------

  ghost predicate WaitsOn(s: State, q: nat, h: nat) {
    q in s.queries && s.queries[q].phase.Waiting? && s.queries[q].phase.handle == h
  }

  ghost predicate EntryOk(s: State, tx: nat)
    requires tx in s.client.pending
  {
    var h := s.client.pending[tx];
    h < |s.sent| && s.sent[h].tx == tx && WaitsOn(s, s.sent[h].query, h)
  }

  /** Each pending ID belongs to a query that is waiting under it. */
  ghost predicate PendingOk(s: State) {
    forall tx :: tx in s.client.pending ==> EntryOk(s, tx)
  }

  ghost predicate WaitingOk(s: State) {
    forall q :: q in s.queries && s.queries[q].phase.Waiting? ==>
      s.queries[q].phase.handle < |s.sent| && s.sent[s.queries[q].phase.handle].query == q
  }

  ghost predicate SentOk(s: State) {
    forall h :: 0 <= h < |s.sent| ==> s.sent[h].tx == IdAt(s.sent[h].use.tick)
  }

  ghost function Log(s: State): seq<Use> {
    seq(|s.sent|, h requires 0 <= h < |s.sent| => s.sent[h].use)
  }

  ghost predicate CounterOk(cap: nat, s: State) {
    s.client.next == IdAt(s.tick) && Tracked(Log(s), s.tick, s.client.pending.Keys, cap)
  }

  ghost predicate TablesOk(cap: nat, s: State) {
    && PendingOk(s) && WaitingOk(s) && SentOk(s)
    && |LiveQueries(s)| <= cap
    && CounterOk(cap, s)
  }

  ghost predicate Submap(a: map<nat, nat>, b: map<nat, nat>) {
    forall tx :: tx in a ==> tx in b && a[tx] == b[tx]
  }

  lemma {:induction false} DispatchShrinks(c: Client, bodies: seq<Body>)
    ensures Submap(DispatchAll(c, bodies).pending, c.pending)
    ensures DispatchAll(c, bodies).next == c.next
    decreases |bodies|
  {
    if bodies != [] {
      DispatchShrinks(Dispatch(c, bodies[0]), bodies[1..]);
    }
  }

  /** Distinct keys with distinct images in a set are at most as many as the set. */
  lemma {:induction false} InjectionSize(keys: set<nat>, f: map<nat, nat>, image: set<nat>)
    requires forall k :: k in keys ==> k in f && f[k] in image
    requires forall k, k' :: k in keys && k' in keys && k != k' ==> f[k] != f[k']
    ensures |keys| <= |image|
  {
    if keys != {} {
      var k :| k in keys;
      InjectionSize(keys - {k}, f, image - {f[k]});
    }
  }

  /** Pending IDs are no more than the waiting queries. */
  lemma PendingFewer(s: State, waiting: set<nat>)
    requires PendingOk(s)
    requires forall q :: q in s.queries && s.queries[q].phase.Waiting? ==> q in waiting
    ensures |s.client.pending| <= |waiting|
  {
    var owner := map tx | tx in s.client.pending :: (assert EntryOk(s, tx); s.sent[s.client.pending[tx]].query);
    forall tx | tx in s.client.pending ensures owner[tx] in waiting {
      assert EntryOk(s, tx);
    }
    forall tx, tx' | tx in s.client.pending && tx' in s.client.pending && tx != tx'
      ensures owner[tx] != owner[tx']
    {
      assert EntryOk(s, tx) && EntryOk(s, tx');
    }
    InjectionSize(s.client.pending.Keys, owner, waiting);
  }

  lemma InitTables(cap: nat)
    ensures TablesOk(cap, Init)
  {}

  /** Losing pending entries, or tunnels, keeps the tables in order. */
  lemma ShrinkKeeps(cap: nat, s: State, s': State)
    requires TablesOk(cap, s)
    requires s'.queries == s.queries && s'.sent == s.sent && s'.tick == s.tick
    requires s'.client.next == s.client.next && Submap(s'.client.pending, s.client.pending)
    ensures TablesOk(cap, s')
  {
    forall tx | tx in s'.client.pending ensures EntryOk(s', tx) {
      assert EntryOk(s, tx);
    }
    TrackedRelease(Log(s), s.tick, s.client.pending.Keys, s'.client.pending.Keys, cap);
    assert Log(s') == Log(s);
    assert LiveQueries(s') == LiveQueries(s);
  }

  /** A query leaving its wait, or failing before it sent, keeps the tables in order. */
  lemma LeaveKeeps(cap: nat, s: State, q: nat, s': State)
    requires TablesOk(cap, s) && q in s.queries && Live(s.queries[q].phase)
    requires s'.queries.Keys == s.queries.Keys && !s'.queries[q].phase.Waiting?
    requires forall p :: p in s.queries && p != q ==> s'.queries[p] == s.queries[p]
    requires s'.sent == s.sent && s'.tick == s.tick
    requires s'.client.next == s.client.next
    requires s'.client.pending == if s.queries[q].phase.Waiting?
                                  then s.client.pending - {s.sent[s.queries[q].phase.handle].tx}
                                  else s.client.pending
    ensures TablesOk(cap, s')
  {
    forall tx | tx in s'.client.pending ensures EntryOk(s', tx) {
      assert EntryOk(s, tx);
      assert s.sent[s.client.pending[tx]].query != q;
    }
    TrackedRelease(Log(s), s.tick, s.client.pending.Keys, s'.client.pending.Keys, cap);
    assert Log(s') == Log(s);
    SubsetSize(LiveQueries(s'), LiveQueries(s));
  }

  lemma BeginKeeps(cap: nat, s: State, q: nat, data: Bytes)
    requires TablesOk(cap, s) && Enabled(cap, s, Begin(q, data))
    ensures TablesOk(cap, Apply(cap, s, Begin(q, data)))
  {
    var s' := Apply(cap, s, Begin(q, data));
    forall tx | tx in s'.client.pending ensures EntryOk(s', tx) {
      assert EntryOk(s, tx);
    }
    assert Log(s') == Log(s);
    SubsetSize(LiveQueries(s'), LiveQueries(s) + {q});
  }

  lemma AskHasRoom(cap: nat, s: State, q: nat)
    requires PendingOk(s) && |LiveQueries(s)| <= cap && q in s.queries && s.queries[q].phase.Ready?
    ensures |s.client.pending| < cap && |s.client.pending.Keys| == |s.client.pending|
  {
    PendingFewer(s, LiveQueries(s) - {q});
  }

  /** With the semaphore's limit far below the ID space, the allocator never raises. */
  lemma AskAllocates(cap: nat, s: State, q: nat) returns (found: nat)
    requires TablesOk(cap, s) && Enabled(cap, s, Ask(q)) && cap < IDS
    ensures |s.client.pending| < cap
    ensures found >= s.tick && IdAt(found) !in s.client.pending
    ensures forall t :: s.tick <= t < found ==> IdAt(t) in s.client.pending
    ensures Allocate(s.client.next, s.client.pending.Keys, 0x10000) == (Some(IdAt(found)), IdAt(found + 1))
    ensures AskStep(s, q) == Asked(s, q, IdAt(found), IdAt(found + 1), found)
  {
    hide Allocate, FirstFree, Tracked, PendingOk, WaitingOk, SentOk, Log, LiveQueries, IdAt, Asked;
    AskHasRoom(cap, s, q);
    AllocateFinds(s.tick, s.client.pending.Keys);
    found := FirstFree(s.tick, s.client.pending.Keys, 0x10000);
  }

  lemma AskedCounter(cap: nat, s: State, q: nat, found: nat)
    requires CounterOk(cap, s) && |s.client.pending| < cap && q in s.queries && s.queries[q].phase.Ready? && s.link.Some?
    requires found >= s.tick && forall t :: s.tick <= t < found ==> IdAt(t) in s.client.pending
    ensures CounterOk(cap, Asked(s, q, IdAt(found), IdAt(found + 1), found))
  {
    hide Tracked, IdAt;
    var s' := Asked(s, q, IdAt(found), IdAt(found + 1), found);
    assert |s.client.pending.Keys| == |s.client.pending|;
    TrackedAllocate(Log(s), s.tick, s.client.pending.Keys, cap, found);
    assert Log(s') == Log(s) + [Use(found, s.client.pending.Keys)];
    assert s'.client.pending.Keys == s.client.pending.Keys + {IdAt(found)};
  }

  lemma AskKeeps(cap: nat, s: State, q: nat)
    requires TablesOk(cap, s) && Enabled(cap, s, Ask(q)) && cap < IDS
    ensures TablesOk(cap, AskStep(s, q))
  {
    hide AskStep, CounterOk, IdAt, PendingOk, WaitingOk, SentOk, LiveQueries, Asked, Enabled;
    var found := AskAllocates(cap, s, q);
    AskReady(cap, s, q);
    AskedCounter(cap, s, q, found);
    AskedOwners(s, q, IdAt(found), IdAt(found + 1), found);
    AskedLive(s, q, IdAt(found), IdAt(found + 1), found);
  }

  lemma AskReady(cap: nat, s: State, q: nat)
    requires Enabled(cap, s, Ask(q))
    ensures q in s.queries && s.queries[q].phase.Ready? && s.link.Some?
  {}

  lemma AskedOwners(s: State, q: nat, id: nat, next: nat, found: nat)
    requires PendingOk(s) && WaitingOk(s) && SentOk(s) && id == IdAt(found)
    requires q in s.queries && s.queries[q].phase.Ready? && s.link.Some?
    ensures var s' := Asked(s, q, id, next, found);
            PendingOk(s') && WaitingOk(s') && SentOk(s')
  {
    hide IdAt;
    var s' := Asked(s, q, id, next, found);
    forall tx | tx in s'.client.pending ensures EntryOk(s', tx) {
      if tx != id {
        assert EntryOk(s, tx);
      }
    }
  }

  lemma AskedLive(s: State, q: nat, id: nat, next: nat, found: nat)
    requires q in s.queries && s.queries[q].phase.Ready? && s.link.Some?
    ensures LiveQueries(Asked(s, q, id, next, found)) == LiveQueries(s)
  {}

  lemma StepKeepsTables(cap: nat, s: State, e: Event)
    requires TablesOk(cap, s) && Enabled(cap, s, e) && cap < IDS
    ensures TablesOk(cap, Apply(cap, s, e))
  {
    hide TablesOk, AskStep, FailStep, ArriveStep, LiveQueries;
    match e
    case Begin(q, data) => BeginKeeps(cap, s, q, data);
    case Ask(q) => AskKeeps(cap, s, q);
    case Finish(q) => LeaveKeeps(cap, s, q, Apply(cap, s, e));
    case Timeout(q) => LeaveKeeps(cap, s, q, Apply(cap, s, e));
    case Fail(q) => FailKeeps(cap, s, q);
    case Arrive(n) => ArriveKeeps(cap, s, n);
    case _ => ShrinkKeeps(cap, s, Apply(cap, s, e));
  }

  lemma FailKeeps(cap: nat, s: State, q: nat)
    requires TablesOk(cap, s) && Enabled(cap, s, Fail(q))
    ensures TablesOk(cap, FailStep(s, q))
  {
    LeaveKeeps(cap, s, q, FailStep(s, q));
  }

  lemma ArriveKeeps(cap: nat, s: State, n: nat)
    requires TablesOk(cap, s) && Enabled(cap, s, Arrive(n))
    ensures TablesOk(cap, ArriveStep(s, n))
  {
    hide Split, DispatchAll;
    var l := s.link.value;
    DispatchShrinks(s.client, Split(l.buf + l.wire[..n]).0);
    ShrinkKeeps(cap, s, ArriveStep(s, n));
  }

  /** On every run, whatever the interleaving. */
  lemma {:induction false} RunKeepsTables(cap: nat, s: State, events: seq<Event>, end: State)
    requires TablesOk(cap, s) && Reaches(cap, s, events, end) && cap < IDS
    ensures TablesOk(cap, end)
    decreases |events|
  {
    hide TablesOk, Enabled, Apply;
    if events != [] {
      StepKeepsTables(cap, s, events[0]);
      RunKeepsTables(cap, Apply(cap, s, events[0]), events[1..], end);
    }
  }

  /** The allocation guarantees of every run from the start: pending IDs are in range, at most `cap`
      many, each owned by the one query waiting under it; another `Ask` finds a free ID; and two
      messages under the same ID have at least 65535 - cap others between them. */
  lemma AllocationSafety(cap: nat, events: seq<Event>, s: State)
    requires Reaches(cap, Init, events, s) && cap < IDS
    ensures |s.client.pending| <= cap
    ensures forall tx :: tx in s.client.pending ==>
      1 <= tx <= IDS && s.client.pending[tx] < |s.sent|
      && WaitsOn(s, s.sent[s.client.pending[tx]].query, s.client.pending[tx])
    ensures forall q :: Enabled(cap, s, Ask(q)) ==>
      Allocate(s.client.next, s.client.pending.Keys, 0x10000).0.Some?
    ensures forall i, j :: 0 <= i < j < |s.sent| && s.sent[i].tx == s.sent[j].tx ==> j - i - 1 >= IDS - cap
  {
    InitTables(cap);
    RunKeepsTables(cap, Init, events, s);
    PendingFewer(s, LiveQueries(s));
    forall tx | tx in s.client.pending ensures EntryOk(s, tx) && 1 <= tx <= IDS {}
    forall q | Enabled(cap, s, Ask(q))
      ensures Allocate(s.client.next, s.client.pending.Keys, 0x10000).0.Some?
    {
      var _ := AskAllocates(cap, s, q);
    }
    forall i, j | 0 <= i < j < |s.sent| && s.sent[i].tx == s.sent[j].tx ensures j - i - 1 >= IDS - cap {
      ReuseDistance(Log(s), s.tick, s.client.pending.Keys, cap, i, j);
    }
  }

  // ---- answers on their way ----------------------------------------------------------------

  /** If a message's ID is pending at all, it is pending for that message. */
  ghost predicate HandleFree(s: State, c: Client, h: nat) {
    h < |s.sent| && (s.sent[h].tx in c.pending ==> c.pending[s.sent[h].tx] == h)
  }

  ghost predicate ReplyOk(s: State, r: Reply) {
    match r
    case Answer(h) => h < |s.sent| && s.sent[h].tx < 65536 && h in s.answers && |s.answers[h]| < 65534
    case Runt(b) => |b| < 2
  }

  ghost function ReplyBody(s: State, r: Reply): Body
    requires ReplyOk(s, r)
  {
    match r
    case Answer(h) => U16(s.sent[h].tx) + s.answers[h]
    case Runt(b) => b
  }

  ghost predicate RepliesOk(s: State, c: Client, replies: seq<Reply>) {
    forall i :: 0 <= i < |replies| ==>
      ReplyOk(s, replies[i]) && (replies[i].Answer? ==> HandleFree(s, c, replies[i].handle))
  }

  ghost function ReplyBodies(s: State, replies: seq<Reply>): seq<Body>
    requires forall i :: 0 <= i < |replies| ==> ReplyOk(s, replies[i])
  {
    seq(|replies|, i requires 0 <= i < |replies| => ReplyBody(s, replies[i]))
  }

  ghost predicate ResultOk(s: State, h: nat, result: Bytes) {
    h < |s.sent| && s.sent[h].tx < 65536 && h in s.answers && result == U16(s.sent[h].tx) + s.answers[h]
  }

  /** Every future's result is the answer to the message it was made for. */
  ghost predicate ResultsOk(s: State, c: Client) {
    forall h :: h in c.results ==> ResultOk(s, h, c.results[h])
  }

  ghost predicate AskedOk(s: State, asked: set<nat>) {
    forall h :: h in asked ==> HandleFree(s, s.client, h) && h !in s.answers
  }

  ghost predicate LinkOk(s: State, l: Link) {
    && AskedOk(s, l.asked)
    && RepliesOk(s, s.client, l.unread)
    && l.buf + l.wire == Frames(ReplyBodies(s, l.unread))
    && !HasFrame(l.buf)
  }

  /** The query was answered with its own original ID and the answer to its own message. */
  ghost predicate AnsweredOwn(s: State, q: nat)
    requires q in s.queries && s.queries[q].phase.Done?
  {
    var Query(data, Done(h, response)) := s.queries[q];
    h < |s.sent| && s.sent[h].query == q && h in s.answers && |data| >= 2
    && response == data[..2] + s.answers[h]
  }

  ghost predicate DoneOk(s: State) {
    forall q :: q in s.queries && s.queries[q].phase.Done? ==> AnsweredOwn(s, q)
  }

  ghost predicate DeliveryOk(s: State) {
    && (s.link.Some? ==> LinkOk(s, s.link.value))
    && ResultsOk(s, s.client)
    && DoneOk(s)
    && (forall h :: h in s.answers ==> h < |s.sent|)
  }

  /** The hypothesis: the ID about to be given out is not that of a message whose answer is still
      outstanding on this tunnel, unwritten or unread. */
  ghost predicate Outstanding(s: State, h: nat) {
    s.link.Some? && (h in s.link.value.asked || Answer(h) in s.link.value.unread)
  }

  ghost predicate FreshAsk(s: State) {
    forall h :: 0 <= h < |s.sent| && Outstanding(s, h) ==>
      Allocate(s.client.next, s.client.pending.Keys, 0x10000).0 != Some(s.sent[h].tx)
  }

  ghost predicate Orderly(cap: nat, s: State, events: seq<Event>)
    decreases |events|
  {
    events == [] ||
    (Enabled(cap, s, events[0]) && (events[0].Ask? ==> FreshAsk(s))
     && Orderly(cap, Apply(cap, s, events[0]), events[1..]))
  }

  lemma {:induction false} DispatchReplies(s: State, c: Client, replies: seq<Reply>)
    requires RepliesOk(s, c, replies) && ResultsOk(s, c)
    ensures ResultsOk(s, DispatchAll(c, ReplyBodies(s, replies)))
    decreases |replies|
  {
    if replies != [] {
      assert ReplyOk(s, replies[0]);
      var body := ReplyBody(s, replies[0]);
      var c' := Dispatch(c, body);
      if replies[0].Answer? {
        U16RoundTrip(s.sent[replies[0].handle].tx, s.answers[replies[0].handle]);
      }
      forall i | 0 <= i < |replies[1..]|
        ensures ReplyOk(s, replies[1..][i])
        ensures replies[1..][i].Answer? ==> HandleFree(s, c', replies[1..][i].handle)
      {
        assert replies[1..][i] == replies[i + 1];
      }
      DispatchReplies(s, c', replies[1..]);
      assert ReplyBodies(s, replies)[1..] == ReplyBodies(s, replies[1..]);
    }
  }

  /** Reading any number of bytes hands over whole answers, each to its own future. */
  lemma ArriveDelivers(s: State, n: nat)
    requires DeliveryOk(s) && s.link.Some? && n <= |s.link.value.wire|
    ensures DeliveryOk(ArriveStep(s, n))
  {
    hide Split, DispatchAll, Frames, HasFrame;
    var l := s.link.value;
    var s' := ArriveStep(s, n);
    var seen, ahead, all := l.buf + l.wire[..n], l.wire[n..], ReplyBodies(s, l.unread);
    assert seen + ahead == l.buf + l.wire;
    SplitOfPrefix(seen, ahead, all);
    var bodies := Split(seen).0;
    var k := |bodies|;
    assert bodies == all[..k] == ReplyBodies(s, l.unread[..k]);
    assert all[k..] == ReplyBodies(s, l.unread[k..]);
    DispatchReplies(s, s.client, l.unread[..k]);
    DispatchShrinks(s.client, bodies);
    SameTables(s, s', l.unread[k..]);
  }

  /** Bodies, results and finished queries do not depend on the client's tables. */
  lemma SameTables(s: State, s': State, replies: seq<Reply>)
    requires s'.sent == s.sent && s'.answers == s.answers && s'.queries == s.queries
    requires forall i :: 0 <= i < |replies| ==> ReplyOk(s, replies[i])
    ensures forall i :: 0 <= i < |replies| ==> ReplyOk(s', replies[i])
    ensures ReplyBodies(s', replies) == ReplyBodies(s, replies)
    ensures ResultsOk(s, s'.client) ==> ResultsOk(s', s'.client)
    ensures DoneOk(s) ==> DoneOk(s')
  {
    forall i | 0 <= i < |replies| ensures ReplyOk(s', replies[i]) && ReplyBody(s', replies[i]) == ReplyBody(s, replies[i]) {
      assert ReplyOk(s, replies[i]);
    }
    if ResultsOk(s, s'.client) {
      forall h | h in s'.client.results ensures ResultOk(s', h, s'.client.results[h]) {
        assert ResultOk(s, h, s'.client.results[h]);
      }
    }
    if DoneOk(s) {
      forall q | q in s'.queries && s'.queries[q].phase.Done? ensures AnsweredOwn(s', q) {
        assert AnsweredOwn(s, q);
      }
    }
  }

  /** Steps of the queries and of the tunnel that neither send nor receive. */
  lemma QuietKeeps(s: State, s': State)
    requires DeliveryOk(s) && s'.sent == s.sent && s'.answers == s.answers
    requires s'.client.results == s.client.results && Submap(s'.client.pending, s.client.pending)
    requires s'.link == s.link || s'.link == None || s'.link == Some(Link({}, [], [], []))
    requires forall q :: q in s'.queries && s'.queries[q].phase.Done? ==>
      (q in s.queries && s.queries[q] == s'.queries[q]) || AnsweredOwn(s', q)
    ensures DeliveryOk(s')
  {
    hide Frames;
    forall q | q in s'.queries && s'.queries[q].phase.Done? ensures AnsweredOwn(s', q) {
      if q in s.queries && s.queries[q] == s'.queries[q] {
        assert AnsweredOwn(s, q);
      }
    }
    forall h | h in s'.client.results ensures ResultOk(s', h, s'.client.results[h]) {
      assert ResultOk(s, h, s.client.results[h]);
    }
    if s'.link.Some? {
      QuietLink(s, s', s'.link.value);
    }
  }

  lemma QuietLink(s: State, s': State, l: Link)
    requires (s.link == Some(l) && LinkOk(s, l)) || l == Link({}, [], [], [])
    requires s'.sent == s.sent && s'.answers == s.answers && Submap(s'.client.pending, s.client.pending)
    ensures LinkOk(s', l)
  {
    if l == Link({}, [], [], []) {
      assert ReplyBodies(s', []) == [];
    } else {
      forall i | 0 <= i < |l.unread|
        ensures ReplyOk(s', l.unread[i]) && ReplyBody(s', l.unread[i]) == ReplyBody(s, l.unread[i])
        ensures l.unread[i].Answer? ==> HandleFree(s', s'.client, l.unread[i].handle)
      {
        assert ReplyOk(s, l.unread[i]);
      }
      assert ReplyBodies(s', l.unread) == ReplyBodies(s, l.unread);
    }
  }

  /** The upstream writes one more frame, answering message h if `r` is an answer. */
  lemma WriteKeeps(s: State, s': State, r: Reply)
    requires DeliveryOk(s) && s.link.Some?
    requires s'.sent == s.sent && s'.client == s.client && s'.queries == s.queries
    requires if r.Answer? then r.handle in s.link.value.asked && r.handle in s'.answers
                               && s'.answers == s.answers[r.handle := s'.answers[r.handle]]
             else s'.answers == s.answers
    requires ReplyOk(s', r)
    requires var l := s.link.value;
             s'.link == Some(Link(if r.Answer? then l.asked - {r.handle} else l.asked, l.unread + [r],
                                  l.wire + Frame(ReplyBody(s', r)), l.buf))
    ensures DeliveryOk(s')
  {
    hide LinkOk;
    WriteLink(s, s', s.link.value, r);
    forall h | h in s'.client.results ensures ResultOk(s', h, s'.client.results[h]) {
      assert ResultOk(s, h, s.client.results[h]);
      assert r.Answer? ==> r.handle !in s.answers by { UnansweredYet(s, r); }
    }
    forall q | q in s'.queries && s'.queries[q].phase.Done? ensures AnsweredOwn(s', q) {
      assert AnsweredOwn(s, q);
      assert r.Answer? ==> r.handle !in s.answers by { UnansweredYet(s, r); }
    }
  }

  lemma UnansweredYet(s: State, r: Reply)
    requires s.link.Some? && LinkOk(s, s.link.value) && (r.Answer? ==> r.handle in s.link.value.asked)
    ensures r.Answer? ==> HandleFree(s, s.client, r.handle) && r.handle !in s.answers
  {}

  lemma WriteLink(s: State, s': State, l: Link, r: Reply)
    requires LinkOk(s, l) && s'.sent == s.sent && s'.client == s.client
    requires if r.Answer? then r.handle in l.asked && r.handle in s'.answers
                               && s'.answers == s.answers[r.handle := s'.answers[r.handle]]
             else s'.answers == s.answers
    requires ReplyOk(s', r)
    ensures LinkOk(s', Link(if r.Answer? then l.asked - {r.handle} else l.asked, l.unread + [r],
                            l.wire + Frame(ReplyBody(s', r)), l.buf))
  {
    hide Frame, HasFrame, Frames;
    assert r.Answer? ==> HandleFree(s, s.client, r.handle) && r.handle !in s.answers;
    forall i | 0 <= i < |l.unread|
      ensures ReplyOk(s', l.unread[i]) && ReplyBody(s', l.unread[i]) == ReplyBody(s, l.unread[i])
      ensures l.unread[i].Answer? ==> HandleFree(s', s'.client, l.unread[i].handle)
    {
      assert ReplyOk(s, l.unread[i]);
    }
    WriteFrames(s, s', l.unread, r);
    assert (l.buf + l.wire) + Frame(ReplyBody(s', r)) == l.buf + (l.wire + Frame(ReplyBody(s', r)));
  }

  lemma WriteFrames(s: State, s': State, replies: seq<Reply>, r: Reply)
    requires forall i :: 0 <= i < |replies| ==> ReplyOk(s, replies[i]) && ReplyOk(s', replies[i])
                                                && ReplyBody(s', replies[i]) == ReplyBody(s, replies[i])
    requires ReplyOk(s', r)
    ensures forall i :: 0 <= i < |replies + [r]| ==> ReplyOk(s', (replies + [r])[i])
    ensures Frames(ReplyBodies(s', replies + [r])) == Frames(ReplyBodies(s, replies)) + Frame(ReplyBody(s', r))
  {
    hide Frame;
    assert ReplyBodies(s', replies + [r]) == ReplyBodies(s, replies) + [ReplyBody(s', r)];
    FramesAppend(ReplyBodies(s, replies), [ReplyBody(s', r)]);
    assert Frames([ReplyBody(s', r)]) == Frame(ReplyBody(s', r)) + Frames([ReplyBody(s', r)][1..]);
    assert Frame(ReplyBody(s', r)) + [] == Frame(ReplyBody(s', r));
  }

  /** A message going out under an ID that no outstanding answer carries. */
  lemma AskedKeeps(s: State, q: nat, id: nat, next: nat, found: nat)
    requires DeliveryOk(s) && q in s.queries && s.queries[q].phase.Ready? && s.link.Some?
    requires forall h :: 0 <= h < |s.sent| && Outstanding(s, h) ==> s.sent[h].tx != id
    ensures DeliveryOk(Asked(s, q, id, next, found))
  {
    hide Frames, HasFrame;
    var s' := Asked(s, q, id, next, found);
    var l := s.link.value;
    forall h | h in s'.link.value.asked ensures HandleFree(s', s'.client, h) && h !in s'.answers {
      if h in l.asked {
        assert HandleFree(s, s.client, h) && Outstanding(s, h);
      }
    }
    forall i | 0 <= i < |l.unread|
      ensures ReplyOk(s', l.unread[i]) && ReplyBody(s', l.unread[i]) == ReplyBody(s, l.unread[i])
      ensures l.unread[i].Answer? ==> HandleFree(s', s'.client, l.unread[i].handle)
    {
      assert ReplyOk(s, l.unread[i]);
      assert l.unread[i].Answer? ==> Outstanding(s, l.unread[i].handle);
    }
    assert ReplyBodies(s', l.unread) == ReplyBodies(s, l.unread);
    forall h | h in s'.client.results ensures ResultOk(s', h, s'.client.results[h]) {
      assert ResultOk(s, h, s.client.results[h]);
    }
    forall p | p in s'.queries && s'.queries[p].phase.Done? ensures AnsweredOwn(s', p) {
      assert AnsweredOwn(s, p);
    }
  }

  lemma FinishKeeps(cap: nat, s: State, q: nat)
    requires DeliveryOk(s) && WaitingOk(s) && Enabled(cap, s, Finish(q))
    ensures DeliveryOk(Apply(cap, s, Finish(q)))
  {
    var h := s.queries[q].phase.handle;
    assert ResultOk(s, h, s.client.results[h]);
    assert s.client.results[h][2..] == s.answers[h];
    QuietKeeps(s, Apply(cap, s, Finish(q)));
  }

  lemma StepKeepsDelivery(cap: nat, s: State, e: Event)
    requires TablesOk(cap, s) && DeliveryOk(s) && Enabled(cap, s, e) && cap < IDS
    requires e.Ask? ==> FreshAsk(s)
    ensures DeliveryOk(Apply(cap, s, e))
  {
    hide DeliveryOk, CounterOk, SentOk, PendingOk, AskStep, FreshAsk, LiveQueries, ArriveStep, Frame, Asked;
    match e
    case Ask(q) =>
      var found := AskAllocates(cap, s, q);
      FreshFor(s, IdAt(found));
      AskedKeeps(s, q, IdAt(found), IdAt(found + 1), found);
    case Answered(h, answer) => WriteKeeps(s, Apply(cap, s, e), Answer(h));
    case Noise(b) => WriteKeeps(s, Apply(cap, s, e), Runt(b));
    case Arrive(n) => ArriveDelivers(s, n);
    case Finish(q) => FinishKeeps(cap, s, q);
    case _ => QuietKeeps(s, Apply(cap, s, e));
  }

  lemma FreshFor(s: State, id: nat)
    requires FreshAsk(s) && Allocate(s.client.next, s.client.pending.Keys, 0x10000).0 == Some(id)
    ensures forall h :: 0 <= h < |s.sent| && Outstanding(s, h) ==> s.sent[h].tx != id
  {}

  lemma {:induction false} RunKeepsDelivery(cap: nat, s: State, events: seq<Event>, end: State)
    requires TablesOk(cap, s) && DeliveryOk(s) && cap < IDS
    requires Reaches(cap, s, events, end) && Orderly(cap, s, events)
    ensures DeliveryOk(end)
    decreases |events|
  {
    hide TablesOk, DeliveryOk, Enabled, Apply, FreshAsk;
    if events != [] {
      StepKeepsTables(cap, s, events[0]);
      StepKeepsDelivery(cap, s, events[0]);
      RunKeepsDelivery(cap, Apply(cap, s, events[0]), events[1..], end);
    }
  }

  /** Delivery: over every interleaving of queries, chunks, timeouts, drops and retries in which no
      answer to an earlier use of an ID is outstanding when the ID is given out again, a query that
      completed has its own ID and the answer to its own message. */
  lemma Delivery(cap: nat, events: seq<Event>, s: State, q: nat)
    requires Reaches(cap, Init, events, s) && Orderly(cap, Init, events) && cap < IDS
    requires q in s.queries && s.queries[q].phase.Done?
    ensures AnsweredOwn(s, q)
  {
    InitTables(cap);
    RunKeepsDelivery(cap, Init, events, s);
  }

  // ---- when the hypothesis holds -------------------------------------------------------------

  /** Every outstanding answer belongs to one of the last 65535 - cap messages. */
  ghost predicate PromptAsk(cap: nat, s: State) {
    forall h :: 0 <= h < |s.sent| && Outstanding(s, h) ==> |s.sent| - h - 1 < IDS - cap
  }

  ghost predicate Prompt(cap: nat, s: State, events: seq<Event>)
    decreases |events|
  {
    events == [] ||
    (Enabled(cap, s, events[0]) && (events[0].Ask? ==> PromptAsk(cap, s))
     && Prompt(cap, Apply(cap, s, events[0]), events[1..]))
  }

  lemma PromptIsFresh(cap: nat, s: State, q: nat)
    requires TablesOk(cap, s) && Enabled(cap, s, Ask(q)) && cap < IDS && PromptAsk(cap, s)
    ensures FreshAsk(s)
  {
    hide CounterOk, PendingOk, WaitingOk, Allocate, LiveQueries, IdAt, AskStep, Outstanding;
    var found := AskAllocates(cap, s, q);
    AskKeeps(cap, s, q);
    var s' := Asked(s, q, IdAt(found), IdAt(found + 1), found);
    forall h | 0 <= h < |s.sent| && Outstanding(s, h) ensures s.sent[h].tx != IdAt(found) {
      if s.sent[h].tx == IdAt(found) {
        SameIdFarApart(cap, s', h, |s.sent|);
      }
    }
  }

  lemma SameIdFarApart(cap: nat, s: State, i: nat, j: nat)
    requires TablesOk(cap, s) && i < j < |s.sent| && s.sent[i].tx == s.sent[j].tx
    ensures j - i - 1 >= IDS - cap
  {
    ReuseDistance(Log(s), s.tick, s.client.pending.Keys, cap, i, j);
  }

  lemma {:induction false} PromptIsOrderly(cap: nat, s: State, events: seq<Event>)
    requires TablesOk(cap, s) && Prompt(cap, s, events) && cap < IDS
    ensures Orderly(cap, s, events)
    decreases |events|
  {
    hide TablesOk, Apply, FreshAsk, PromptAsk;
    if events != [] {
      StepKeepsTables(cap, s, events[0]);
      PromptIsOrderly(cap, Apply(cap, s, events[0]), events[1..]);
      if events[0].Ask? {
        PromptIsFresh(cap, s, events[0].query);
      }
    }
  }

  /** Reuse distance turns the hypothesis into one on delay alone: it is enough that no answer is
      still outstanding once 65535 - cap newer messages have gone out on its tunnel. */
  lemma PromptDelivery(cap: nat, events: seq<Event>, s: State, q: nat)
    requires Reaches(cap, Init, events, s) && Prompt(cap, Init, events) && cap < IDS
    requires q in s.queries && s.queries[q].phase.Done?
    ensures AnsweredOwn(s, q)
  {
    InitTables(cap);
    PromptIsOrderly(cap, Init, events);
    Delivery(cap, events, s, q);
  }
}
