/** How often a query is sent: once more after a failure, and never a third time. */
module DnsRetry {
  import opened Basics
  import opened Framing
  import opened TxIds
  import opened DnsPipeline

  /** The messages sent for a query. */
  function Sends(sent: seq<Sent>, q: nat): nat {
    if sent == [] then 0
    else Sends(sent[..|sent| - 1], q) + if sent[|sent| - 1].query == q then 1 else 0
  }

  lemma SendsSnoc(sent: seq<Sent>, m: Sent, q: nat)
    ensures Sends(sent + [m], q) == Sends(sent, q) + if m.query == q then 1 else 0
  {
    assert (sent + [m])[..|sent|] == sent;
  }

  /** How many messages a query may have sent by now. */
  function Budget(p: Phase): nat {
    match p
    case Ready(attempt) => attempt
    case Waiting(attempt, _) => attempt + 1
    case _ => 2
  }

  ghost predicate InBudget(s: State) {
    && (forall q :: q in s.queries ==> Sends(s.sent, q) <= Budget(s.queries[q].phase) <= 2)
    && (forall q: nat :: q !in s.queries ==> Sends(s.sent, q) == 0)
    && (forall q :: q in s.queries && Live(s.queries[q].phase) ==> Attempt(s.queries[q].phase) <= 1)
  }

  function Attempt(p: Phase): nat {
    if p.Ready? || p.Waiting? then p.attempt else 0
  }

  lemma AskedInBudget(s: State, q: nat, id: nat, next: nat, found: nat)
    requires InBudget(s) && q in s.queries && s.queries[q].phase.Ready? && s.link.Some?
    ensures InBudget(Asked(s, q, id, next, found))
  {
    hide Sends;
    var s' := Asked(s, q, id, next, found);
    forall p: nat ensures Sends(s'.sent, p) == Sends(s.sent, p) + if p == q then 1 else 0 {
      SendsSnoc(s.sent, Sent(q, id, Use(found, s.client.pending.Keys)), p);
    }
  }

  lemma FailedInBudget(s: State, q: nat)
    requires InBudget(s) && q in s.queries && Live(s.queries[q].phase)
    requires s.queries[q].phase.Waiting? ==> s.queries[q].phase.handle < |s.sent|
    ensures InBudget(FailStep(s, q))
  {
    hide Sends;
  }

  lemma StepInBudget(cap: nat, s: State, e: Event)
    requires InBudget(s) && Enabled(cap, s, e)
    ensures InBudget(Apply(cap, s, e))
  {
    hide Sends, Asked, FailStep, Allocate, FirstFree;
    match e
    case Ask(q) =>
      var (tx, next) := Allocate(s.client.next, s.client.pending.Keys, 0x10000);
      if tx.Some? {
        AskedInBudget(s, q, tx.value, next, FirstFree(s.tick, s.client.pending.Keys, 0x10000));
      } else {
        FailedInBudget(s.(client := s.client.(next := next)), q);
      }
    case Fail(q) => FailedInBudget(s, q);
    case _ =>
  }

  /** On every run, whatever fails and when, no query is sent more than twice. */
  lemma {:induction false} NeverSentThrice(cap: nat, s: State, events: seq<Event>, end: State)
    requires InBudget(s) && Reaches(cap, s, events, end)
    ensures InBudget(end) && forall q: nat :: Sends(end.sent, q) <= 2
    decreases |events|
  {
    hide Enabled, Apply, InBudget;
    if events == [] {
      BudgetMeans(end);
    } else {
      StepInBudget(cap, s, events[0]);
      NeverSentThrice(cap, Apply(cap, s, events[0]), events[1..], end);
    }
  }

  lemma BudgetMeans(s: State)
    requires InBudget(s)
    ensures forall q: nat :: Sends(s.sent, q) <= 2
  {
    hide Sends;
  }

  lemma InitInBudget()
    ensures InBudget(Init)
  {
  }

  /** A query that fails gets a second chance with its message, on a tunnel yet to be made; when that fails too,
      the caller gets the error. A timeout is final at once. */
  lemma SecondChance(cap: nat, s: State, q: nat)
    requires InBudget(s) && Enabled(cap, s, Fail(q))
    ensures var s' := Apply(cap, s, Fail(q));
            && s'.link == None && s'.sent == s.sent && s'.queries.Keys == s.queries.Keys && s'.queries[q].data == s.queries[q].data
            && s'.queries[q].phase == (if Attempt(s.queries[q].phase) == 0 then Ready(1) else Raised)
            && (forall p :: p in s.queries && p != q ==> s'.queries[p] == s.queries[p])
    ensures Enabled(cap, s, Timeout(q)) ==> Apply(cap, s, Timeout(q)).queries[q].phase == Raised
  {
  }

  // ---- what the world may do -------------------------------------------------------------------

  /** The tunnel may break at any time, the reader may die and may get any part of what is on the way, and the
      upstream may answer any message asked, with any bytes, or send anything too short for an ID. */
  lemma WorldIsFree(cap: nat, s: State)
    ensures Enabled(cap, s, Drop) && (s.link.None? ==> Enabled(cap, s, Connect))
    ensures s.link.Some? ==>
      && Enabled(cap, s, ReaderError)
      && (forall n :: 1 <= n <= |s.link.value.wire| ==> Enabled(cap, s, Arrive(n)))
      && (forall body :: |body| <= 1 ==> Enabled(cap, s, Noise(body)))
      && (forall h, body: Bytes :: h in s.link.value.asked && h < |s.sent| && s.sent[h].tx <= 0xFFFF && |body| <= 0xFFFD ==>
            Enabled(cap, s, Answered(h, body)))
  {
  }

  /** Any query on the way may fail, any that waits may time out, and it resumes as soon as its future is set. */
  lemma QueriesAreFree(cap: nat, s: State, q: nat)
    requires q in s.queries && Live(s.queries[q].phase)
    requires s.queries[q].phase.Waiting? ==> s.queries[q].phase.handle < |s.sent|
    ensures Enabled(cap, s, Fail(q))
    ensures s.queries[q].phase.Waiting? ==> Enabled(cap, s, Timeout(q))
    ensures var p, data := s.queries[q].phase, s.queries[q].data;
            && (p.Ready? && s.link.Some? && |data| <= 0xFFFF ==> Enabled(cap, s, Ask(q)))
            && (p.Waiting? && p.handle in s.client.results && |s.client.results[p.handle]| >= 2 && |data| >= 2 ==>
                  Enabled(cap, s, Finish(q)))
  {
  }

  /** A dying reader fails every pending future; a dropped tunnel leaves the table as it is. */
  lemma EndsOfTunnels(cap: nat, s: State)
    requires s.link.Some?
    ensures Apply(cap, s, ReaderError) == s.(client := Client(s.client.next, map[], s.client.results), link := None)
    ensures Apply(cap, s, Drop) == s.(link := None)
  {
  }
}
