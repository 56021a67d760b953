/** Routing decisions through the caches while the router is replaced under them. */
module HotReload {
  import opened Basics
  import opened Text
  import opened DecisionCache
  import opened DnsMessage
  import Rules
  import R = Router

  type Addresses = string -> Option<Rules.Addr>

  /** What a router decides: its rules, its default, and how addresses are read. */
  datatype Policy = Policy(specs: seq<R.RuleSpec>, default: string, parse: Addresses)
  {
    /** The action of the first rule whose naive meaning holds. */
    ghost function Action(host: string): string {
      R.NaiveAction(specs, default, R.Normal(host), parse(R.Normal(host)))
    }
  }

  /** The keys of both caches are lowercased names, and decide like the names themselves. */
  lemma KeyDecides(p: Policy, host: string)
    ensures p.Action(Lower(host)) == p.Action(host)
  {
    R.NormalOfLower(host);
  }

  // ---- a decision ----------------------------------------------------------------------------

  /** A decision through the cache: the tag found, or the router's answer, which is then kept. */
  function Decide(items: seq<Entry<string, string>>, host: string, answer: string, now: real, ttl: real, max: nat)
    : (string, seq<Entry<string, string>>)
  {
    var (found, items') := Look(items, Lower(host), now);
    if found.Some? then (found.value, items')
    else (answer, Store(items', Entry(Lower(host), answer, now + ttl), max))
  }

  /** Every cached decision is the router's own. */
  ghost predicate Agrees(items: seq<Entry<string, string>>, p: Policy) {
    forall i :: 0 <= i < |items| ==> items[i].value == p.Action(items[i].key)
  }

  /** Every cached response came through the outbound the router now chooses for its name. */
  ghost predicate AnswersAgree(items: seq<Entry<(string, nat), Response>>, p: Policy) {
    forall i :: 0 <= i < |items| ==> items[i].value.via == p.Action(items[i].key.0)
  }

  /** The cache is transparent: it changes no decision, and stays in agreement. */
  lemma DecideIsTransparent(items: seq<Entry<string, string>>, p: Policy, host: string, now: real, ttl: real, max: nat)
    requires Agrees(items, p)
    ensures Decide(items, host, p.Action(host), now, ttl, max).0 == p.Action(host)
    ensures Agrees(Decide(items, host, p.Action(host), now, ttl, max).1, p)
  {
    hide Policy.Action, Look, Store;
    KeyDecides(p, host);
    var e := Entry(Lower(host), p.Action(host), now + ttl);
    NothingElse(items, Lower(host), now, e, max);
    NothingElse(Look(items, Lower(host), now).1, Lower(host), now, e, max);
    AgreesIn(items, p);
  }

  lemma AgreesIn(items: seq<Entry<string, string>>, p: Policy)
    ensures Agrees(items, p) <==> forall x :: x in items ==> x.value == p.Action(x.key)
  {
    hide Policy.Action;
  }

  // ---- runs ----------------------------------------------------------------------------------

  /** A DNS question under way, with the decision made for it. */
  datatype Flight = Flight(domain: string, qtype: nat, via: string)

  /** Questions under way go by the place in the run of the event that asked them; `clock` counts events. */
  datatype World = World(policy: Policy, routes: seq<Entry<string, string>>,
                         answers: seq<Entry<(string, nat), Response>>, flights: map<nat, Flight>, clock: nat)

  /** What happens between two awaits: a connection routed, a DNS question taken (answered from the
      cache or sent on), a response arriving for a question under way, one lost, the router replaced. */
  datatype Event =
    | Dispatch(host: string, now: real)
    | Ask(domain: string, qtype: nat, now: real)
    | Answered(question: nat, bytes: Bytes, now: real)
    | Lost(question: nat)
    | NewRouter(policy: Policy)

  datatype Limits = Limits(ttl: real, routes: nat, answers: nat)

  ghost function Step(w: World, e: Event, l: Limits): World {
    match e
    case Dispatch(host, now) =>
      w.(routes := Decide(w.routes, host, w.policy.Action(host), now, l.ttl, l.routes).1, clock := w.clock + 1)
    case Ask(domain, qtype, now) =>
      var (hit, answers) := Look(w.answers, (Lower(domain), qtype), now);
      if hit.Some? then w.(answers := answers, clock := w.clock + 1)
      else
        var (tag, routes) := Decide(w.routes, domain, w.policy.Action(domain), now, l.ttl, l.routes);
        World(w.policy, routes, answers, w.flights[w.clock := Flight(domain, qtype, tag)], w.clock + 1)
    case Answered(q, bytes, now) =>
      if q !in w.flights then w.(clock := w.clock + 1)
      else
        var f := w.flights[q];
        w.(answers := StoreAnswer(w.answers, f.domain, f.qtype, Response(bytes, f.via), now, TtlOf(bytes), l.answers),
           flights := w.flights - {q}, clock := w.clock + 1)
    case Lost(q) => w.(flights := w.flights - {q}, clock := w.clock + 1)
    case NewRouter(p) => World(p, [], [], w.flights, w.clock + 1)
  }

  ghost function Run(w: World, events: seq<Event>, l: Limits): World {
    if events == [] then w else Step(Run(w, events[..|events| - 1], l), events[|events| - 1], l)
  }

  ghost predicate Fresh(w: World) {
    w.routes == [] && w.answers == [] && w.flights == map[] && w.clock == 0
  }

  lemma RunNone(w: World, l: Limits)
    ensures Run(w, [], l) == w
  {
  }

  lemma RunNext(w: World, events: seq<Event>, n: nat, l: Limits)
    requires n < |events|
    ensures Run(w, events[..n + 1], l) == Step(Run(w, events[..n], l), events[n], l)
  {
    assert events[..n + 1][..n] == events[..n];
  }

  lemma StepAgrees(w: World, e: Event, l: Limits)
    requires Agrees(w.routes, w.policy)
    ensures Agrees(Step(w, e, l).routes, Step(w, e, l).policy)
  {
    hide Agrees, Decide, Look, Policy.Action, StoreAnswer, TtlOf;
    match e
    case Dispatch(host, now) => DecideIsTransparent(w.routes, w.policy, host, now, l.ttl, l.routes);
    case Ask(domain, qtype, now) => DecideIsTransparent(w.routes, w.policy, domain, now, l.ttl, l.routes);
    case NewRouter(p) => EmptyAgrees(p);
    case _ =>
  }

  lemma EmptyAgrees(p: Policy)
    ensures Agrees([], p) && AnswersAgree([], p)
  {
  }

  /** At every point of every run each cached decision is the current router's, so deciding with the
      cache and without it choose the same outbound. */
  lemma {:induction false} CacheIsTransparent(w: World, events: seq<Event>, l: Limits)
    requires Fresh(w)
    ensures Agrees(Run(w, events, l).routes, Run(w, events, l).policy)
    ensures forall host, now :: var c := Run(w, events, l);
              Decide(c.routes, host, c.policy.Action(host), now, l.ttl, l.routes).0 == c.policy.Action(host)
  {
    hide Agrees, Decide, Policy.Action, Step;
    if events == [] {
      EmptyAgrees(w.policy);
    } else {
      CacheIsTransparent(w, events[..|events| - 1], l);
      StepAgrees(Run(w, events[..|events| - 1], l), events[|events| - 1], l);
    }
    var c := Run(w, events, l);
    forall host, now ensures Decide(c.routes, host, c.policy.Action(host), now, l.ttl, l.routes).0 == c.policy.Action(host) {
      DecideIsTransparent(c.routes, c.policy, host, now, l.ttl, l.routes);
    }
  }

  // ---- responses that arrive after a reload ----------------------------------------------------

  /** The policy in force before the n-th event. */
  function PolicyAt(w: World, events: seq<Event>, n: nat): Policy
    requires n <= |events|
  {
    if n == 0 then w.policy
    else if events[n - 1].NewRouter? then events[n - 1].policy
    else PolicyAt(w, events, n - 1)
  }

  /** A question under way was asked by the event it goes by, and sent where the policy of that moment said. */
  ghost predicate FlightsTell(w: World, events: seq<Event>, n: nat, flights: map<nat, Flight>)
    requires n <= |events|
  {
    forall q :: q in flights ==>
      q < n && events[q].Ask? && flights[q].domain == events[q].domain
      && flights[q].via == PolicyAt(w, events, q).Action(events[q].domain)
  }

  lemma {:induction false} RunTells(w: World, events: seq<Event>, n: nat, l: Limits)
    requires Fresh(w) && n <= |events|
    ensures var c := Run(w, events[..n], l);
            c.policy == PolicyAt(w, events, n) && c.clock == n && FlightsTell(w, events, n, c.flights)
  {
    hide Run, Policy.Action, Decide, Look, StoreAnswer, TtlOf;
    if n == 0 {
      RunNone(w, l);
    } else {
      RunTells(w, events, n - 1, l);
      RunNext(w, events, n - 1, l);
      CacheIsTransparent(w, events[..n - 1], l);
    }
  }

  /** Is the n-th event an answer that is kept for a question whose name the router in force now sends
      elsewhere than the router in force when it was asked? */
  ghost predicate KeptLate(w: World, events: seq<Event>, n: nat, l: Limits)
    requires n < |events|
  {
    && events[n].Answered? && TtlOf(events[n].bytes) > 0.0 && l.answers > 0
    && var q := events[n].question;
    && q < n && events[q].Ask? && q in Run(w, events[..n], l).flights
    && PolicyAt(w, events, q).Action(events[q].domain) != PolicyAt(w, events, n).Action(events[q].domain)
  }

  lemma StoreAnswerAgrees(items: seq<Entry<(string, nat), Response>>, p: Policy, f: Flight, bytes: Bytes, now: real, ttl: real, max: nat)
    requires AnswersAgree(items, p)
    ensures AnswersAgree(StoreAnswer(items, f.domain, f.qtype, Response(bytes, f.via), now, ttl, max), p)
       <==> (ttl > 0.0 && max > 0 ==> f.via == p.Action(f.domain))
  {
    hide Policy.Action, Place;
    KeyDecides(p, f.domain);
    var items' := StoreAnswer(items, f.domain, f.qtype, Response(bytes, f.via), now, ttl, max);
    if ttl > 0.0 && max > 0 {
      assert items'[|items'| - 1] == Entry((Lower(f.domain), f.qtype), Response(bytes, f.via), now + ttl);
    }
  }

  lemma AnswersStep(w: World, e: Event, l: Limits)
    requires AnswersAgree(w.answers, w.policy)
    ensures AnswersAgree(Step(w, e, l).answers, Step(w, e, l).policy) <==>
      !(e.Answered? && TtlOf(e.bytes) > 0.0 && l.answers > 0 && e.question in w.flights
        && w.flights[e.question].via != w.policy.Action(w.flights[e.question].domain))
  {
    hide Policy.Action, Place, Decide, Store, TtlOf;
    if e.Answered? && e.question in w.flights {
      StoreAnswerAgrees(w.answers, w.policy, w.flights[e.question], e.bytes, e.now, TtlOf(e.bytes), l.answers);
    }
  }

  /** Does the response cache agree with the router at this point of the run? */
  ghost predicate AgreesAt(w: World, events: seq<Event>, n: nat, l: Limits)
    requires n <= |events|
  {
    AnswersAgree(Run(w, events[..n], l).answers, Run(w, events[..n], l).policy)
  }

  lemma AgreesNext(w: World, events: seq<Event>, n: nat, l: Limits)
    requires Fresh(w) && n < |events| && AgreesAt(w, events, n, l)
    ensures AgreesAt(w, events, n + 1, l) <==> !KeptLate(w, events, n, l)
  {
    hide Run, Step, AnswersAgree, Policy.Action, TtlOf;
    RunTells(w, events, n, l);
    RunNext(w, events, n, l);
    AnswersStep(Run(w, events[..n], l), events[n], l);
  }

  /** The response cache agrees with the router up to any point of a run exactly when no answer has been
      kept for a question that was asked under a router of another mind. */
  lemma {:induction false} AnswersAgreeExactly(w: World, events: seq<Event>, n: nat, l: Limits)
    requires Fresh(w) && n <= |events|
    ensures (forall k :: 0 <= k <= n ==> AgreesAt(w, events, k, l)) <==> (forall k :: 0 <= k < n ==> !KeptLate(w, events, k, l))
  {
    hide AgreesAt, KeptLate;
    if n == 0 {
      AgreesAtStart(w, events, l);
    } else {
      AnswersAgreeExactly(w, events, n - 1, l);
      if AgreesAt(w, events, n - 1, l) {
        AgreesNext(w, events, n - 1, l);
      }
    }
  }

  lemma AgreesAtStart(w: World, events: seq<Event>, l: Limits)
    requires Fresh(w)
    ensures AgreesAt(w, events, 0, l)
  {
    assert events[..0] == [];
    RunNone(w, l);
  }

  /** Where the routers of two moments differ on a name, a replacement between them changed its action. */
  lemma {:induction false} ChangedBetween(w: World, events: seq<Event>, q: nat, n: nat, host: string) returns (k: nat)
    requires q <= n <= |events| && PolicyAt(w, events, q).Action(host) != PolicyAt(w, events, n).Action(host)
    ensures q <= k < n && events[k].NewRouter? && events[k].policy.Action(host) != PolicyAt(w, events, k).Action(host)
    decreases n
  {
    hide Policy.Action;
    if PolicyAt(w, events, n - 1).Action(host) != PolicyAt(w, events, n).Action(host) {
      k := n - 1;
    } else {
      k := ChangedBetween(w, events, q, n - 1, host);
    }
  }

  /** A question under way has been under way since it was asked. */
  lemma {:induction false} UnderWaySince(w: World, events: seq<Event>, q: nat, k: nat, n: nat, l: Limits)
    requires Fresh(w) && q < k <= n <= |events| && q in Run(w, events[..n], l).flights
    ensures q in Run(w, events[..k], l).flights
    decreases n
  {
    hide Run, Policy.Action, Decide, Look, StoreAnswer, TtlOf;
    if k < n {
      RunTells(w, events, n - 1, l);
      RunNext(w, events, n - 1, l);
      UnderWaySince(w, events, q, k, n - 1, l);
    }
  }

  /** An answer kept late was asked for before a replacement that changed its name's action, under way then
      and answered after. */
  lemma KeptLateMeansReload(w: World, events: seq<Event>, n: nat, l: Limits) returns (k: nat)
    requires Fresh(w) && n < |events| && KeptLate(w, events, n, l)
    ensures var q := events[n].question;
            q < k < n && events[k].NewRouter? && q in Run(w, events[..k], l).flights && !NeverAnswered(events, q, k)
            && events[k].policy.Action(Run(w, events[..k], l).flights[q].domain)
               != Run(w, events[..k], l).policy.Action(Run(w, events[..k], l).flights[q].domain)
  {
    hide Run, Policy.Action, TtlOf, PolicyAt;
    var q := events[n].question;
    k := ChangedBetween(w, events, q, n, events[q].domain);
    assert k != q;
    UnderWaySince(w, events, q, k, n, l);
    RunTells(w, events, k, l);
  }

  /** Whenever the router is replaced, every question under way keeps its action or is never answered. */
  ghost predicate GentleReloads(w: World, events: seq<Event>, l: Limits) {
    forall k, q :: 0 <= k < |events| && events[k].NewRouter? && q in Run(w, events[..k], l).flights ==>
      || events[k].policy.Action(Run(w, events[..k], l).flights[q].domain)
         == Run(w, events[..k], l).policy.Action(Run(w, events[..k], l).flights[q].domain)
      || NeverAnswered(events, q, k)
  }

  ghost predicate NeverAnswered(events: seq<Event>, q: nat, k: nat) {
    forall m :: k < m < |events| && events[m].Answered? ==> events[m].question != q
  }

  /** Then the response cache always agrees with the router. */
  lemma GentleReloadsAgree(w: World, events: seq<Event>, l: Limits)
    requires Fresh(w) && GentleReloads(w, events, l)
    ensures forall n :: 0 <= n <= |events| ==> AgreesAt(w, events, n, l)
  {
    hide AgreesAt, KeptLate, Run, Policy.Action;
    forall n | 0 <= n < |events| ensures !KeptLate(w, events, n, l) {
      if KeptLate(w, events, n, l) {
        var k := KeptLateMeansReload(w, events, n, l);
      }
    }
    AnswersAgreeExactly(w, events, |events|, l);
  }

  /** A reload empties the response cache but stops no question. For any two routers that send a name to
      different outbounds, and any response worth keeping: ask, reload, answer, and the cache disagrees. */
  lemma ReloadUnderWay(before: Policy, after: Policy, domain: string, qtype: nat, bytes: Bytes, l: Limits)
    requires before.Action(domain) != after.Action(domain) && TtlOf(bytes) > 0.0 && l.answers > 0
    ensures var w := World(before, [], [], map[], 0);
            var events := [Ask(domain, qtype, 0.0), NewRouter(after), Answered(0, bytes, 0.0)];
            Fresh(w) && KeptLate(w, events, 2, l) && !AgreesAt(w, events, 3, l)
  {
    hide Run, Policy.Action, TtlOf, StoreAnswer, Decide, AnswersAgree;
    var w := World(before, [], [], map[], 0);
    var events := [Ask(domain, qtype, 0.0), NewRouter(after), Answered(0, bytes, 0.0)];
    assert events[..0] == [];
    RunNone(w, l);
    RunNext(w, events, 0, l);
    RunNext(w, events, 1, l);
    AgreesAtStart(w, events, l);
    EmptyAgrees(before);
    EmptyAgrees(after);
    assert events[0] == Ask(domain, qtype, 0.0) && events[1] == NewRouter(after);
    assert PolicyAt(w, events, 0) == before;
    assert PolicyAt(w, events, 1) == before;
    assert PolicyAt(w, events, 2) == after;
    AgreesNext(w, events, 2, l);
  }

  /** A response to the question for a name "a": no error, and one address to be kept five minutes. */
  function Reply(): Message {
    var name := Name([[97]], None);
    Message([0, 1, 0x81, 0x80], [Question(name, 1, 1)], [Record(Name([], Some((0xC0, 12))), 1, 1, 300, [10, 0, 0, 1])], [0, 0, 0, 0])
  }

  lemma ReplyIsKept()
    ensures Reply().Valid() && TtlOf(Encode(Reply())) == 300.0
  {
    hide TtlOf, Encode;
    var m := Reply();
    TtlIsLeast(m, []);
    assert Encode(m) + [] == Encode(m);
    assert TtlsOf(m.answers) == [300];
  }

  /** With that response, a router that sends everything direct and one that sends everything through a proxy. */
  lemma LateAnswerIsKept()
    ensures Reply().Valid()
    ensures var before, after := Policy([], "direct", s => None), Policy([], "proxy", s => None);
            var w := World(before, [], [], map[], 0);
            var events := [Ask("a", 1, 0.0), NewRouter(after), Answered(0, Encode(Reply()), 0.0)];
            Fresh(w) && !AgreesAt(w, events, 3, Limits(3600.0, 10000, 10000))
  {
    hide TtlOf, Encode, AgreesAt, KeptLate;
    ReplyIsKept();
    var before, after := Policy([], "direct", s => None), Policy([], "proxy", s => None);
    assert before.Action("a") == "direct" && after.Action("a") == "proxy";
    ReloadUnderWay(before, after, "a", 1, Encode(Reply()), Limits(3600.0, 10000, 10000));
  }

  // ---- the running form ------------------------------------------------------------------------

  /** `RouterRef`: everyone asks the router through this. */
  class RouterRef {
    var inner: R.Router

    constructor (inner: R.Router)
      ensures this.inner == inner
    {
      this.inner := inner;
    }

    ghost function Current(parse: Addresses): Policy
      reads this, inner
    {
      Policy(inner.specs, inner.default, parse)
    }

    method Replace(inner: R.Router)
      modifies this
      ensures this.inner == inner
    {
      this.inner := inner;
    }

    method Match(host: string, parse: Addresses) returns (action: string)
      requires inner.Valid()
      ensures action == Current(parse).Action(host)
    {
      var source;
      action, source := inner.Match(host, parse);
    }
  }

  /** The decision in `_dispatch` and in the DNS forwarder, with a cache or without one. */
  method Route(router: RouterRef, cache: RoutingCache?, host: string, parse: Addresses, now: real) returns (action: string)
    requires router.inner.Valid()
    modifies cache
    ensures cache == null ==> action == router.Current(parse).Action(host)
    ensures cache != null ==>
      (action, cache.items) == Decide(old(cache.items), host, router.Current(parse).Action(host), now, cache.ttl, cache.max)
    ensures cache != null && Agrees(old(cache.items), router.Current(parse)) ==>
      action == router.Current(parse).Action(host) && Agrees(cache.items, router.Current(parse))
  {
    hide Policy.Action, Look, Store, Agrees;
    if cache != null {
      if Agrees(cache.items, router.Current(parse)) {
        DecideIsTransparent(cache.items, router.Current(parse), host, now, cache.ttl, cache.max);
      }
      var cached := cache.Get(host, now);
      if cached.Some? {
        return cached.value;
      }
    }
    action := router.Match(host, parse);
    if cache != null {
      cache.Put(host, action, now);
    }
  }

  /** The first half of `_handle`: a response from the cache, or the outbound to ask through. */
  method TakeQuestion(router: RouterRef, routes: RoutingCache?, answers: DnsCache?, domain: string, qtype: Option<nat>,
                      parse: Addresses, now: real)
    returns (hit: Option<Response>, via: string)
    requires router.inner.Valid()
    modifies routes, answers
    ensures answers != null && qtype.Some? ==>
      (hit, answers.items) == Look(old(answers.items), (Lower(domain), qtype.value), now)
    ensures answers == null || qtype.None? ==> hit == None && (answers != null ==> answers.items == old(answers.items))
    ensures routes != null && hit.Some? ==> routes.items == old(routes.items)
    ensures routes != null && hit.None? ==>
      (via, routes.items) == Decide(old(routes.items), domain, router.Current(parse).Action(domain), now, routes.ttl, routes.max)
    ensures routes == null && hit.None? ==> via == router.Current(parse).Action(domain)
  {
    hide Policy.Action, Look, Agrees, Decide;
    hit, via := None, "";
    if answers != null && qtype.Some? {
      hit := answers.Get(domain, qtype.value, now);
      if hit.Some? {
        return;
      }
    }
    via := Route(router, routes, domain, parse, now);
  }

  /** The router step of a reload or of a geo data refresh: one uninterrupted block. */
  method InstallRouter(router: RouterRef, inner: R.Router, routes: RoutingCache?, answers: DnsCache?)
    modifies router, routes, answers
    ensures router.inner == inner
    ensures routes != null ==> routes.items == []
    ensures answers != null ==> answers.items == []
  {
    router.Replace(inner);
    if routes != null {
      var n := routes.Invalidate(None);
    }
    if answers != null {
      var n := answers.Invalidate();
    }
  }
}
