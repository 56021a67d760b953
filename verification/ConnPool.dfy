/** The pool of ready tunnels: builders, takers and probes interleaving over a queue, a count of builds
    under way, and one cursor that spaces the builds out. */
module ConnPool {
  import opened Basics

  // ---- the stagger cursor --------------------------------------------------------------------

  function MaxReal(a: real, b: real): real {
    if a < b then b else a
  }

  /** One reservation: when it was made, and the jitter drawn for it. */
  datatype Draw = Draw(now: real, wobble: real)

  ghost predicate Bounded(draws: seq<Draw>, jitter: real) {
    forall i :: 0 <= i < |draws| ==> -jitter <= draws[i].wobble <= jitter
  }

  /** The cursor after a series of reservations. */
  function Cursor(start: real, draws: seq<Draw>, step: real): real {
    if draws == [] then start
    else
      var last := draws[|draws| - 1];
      MaxReal(Cursor(start, draws[..|draws| - 1], step), last.now) + step + last.wobble
  }

  /** The time given to the i-th reservation. */
  function Slot(start: real, draws: seq<Draw>, step: real, i: nat): real
    requires i < |draws|
  {
    MaxReal(Cursor(start, draws[..i], step), draws[i].now)
  }

  /** Any two builds lie apart by the step less the jitter for each place between them, however the
      clock runs and whoever reserves: the cursor belongs to the pool. */
  lemma {:induction false} SlotsApart(start: real, draws: seq<Draw>, step: real, jitter: real, i: nat, j: nat)
    requires Bounded(draws, jitter) && i <= j < |draws|
    ensures Slot(start, draws, step, i) >= draws[i].now
    ensures Slot(start, draws, step, j) - Slot(start, draws, step, i) >= (j - i) as real * (step - jitter)
    decreases j - i
  {
    hide Cursor, Slot, Bounded;
    SlotNotBefore(start, draws, step, i);
    if i < j {
      SlotsApart(start, draws, step, jitter, i, j - 1);
      NextSlot(start, draws, step, jitter, j);
      FurtherApart(Slot(start, draws, step, i), Slot(start, draws, step, j - 1), Slot(start, draws, step, j), step - jitter, j - i);
    }
  }

  lemma SlotNotBefore(start: real, draws: seq<Draw>, step: real, i: nat)
    requires i < |draws|
    ensures Slot(start, draws, step, i) >= draws[i].now
  {
  }

  lemma NextSlot(start: real, draws: seq<Draw>, step: real, jitter: real, j: nat)
    requires Bounded(draws, jitter) && 0 < j < |draws|
    ensures Slot(start, draws, step, j) >= Slot(start, draws, step, j - 1) + (step - jitter)
  {
    assert draws[..j][..j - 1] == draws[..j - 1] && draws[..j][j - 1] == draws[j - 1];
  }

  lemma FurtherApart(first: real, before: real, last: real, d: real, n: nat)
    requires n > 0 && before - first >= (n - 1) as real * d && last >= before + d
    ensures last - first >= n as real * d
  {
    assert n as real * d == (n - 1) as real * d + d;
  }

  /** A build begins at the slot it reserves or, for a probe, at once. */
  datatype Way = Reserving | Probing

  /** When a build asked for at `d.now` begins, after the reservations so far. */
  function Begins(start: real, draws: seq<Draw>, step: real, way: Way, d: Draw): real {
    if way.Reserving? then Slot(start, draws + [d], step, |draws|) else d.now
  }

  /** How much later than one build the next one begins, perhaps with a warm-up at some moment between. */
  function Gap(start: real, draws: seq<Draw>, step: real, first: Way, d1: Draw, warmup: Option<real>, second: Way, d2: Draw): real {
    var later := if first.Reserving? then draws + [d1] else draws;
    (if warmup.Some? then Begins(warmup.value, [], step, second, d2) else Begins(start, later, step, second, d2))
    - Begins(start, draws, step, first, d1)
  }

  ghost predicate Apart(gap: real, d: real) {
    gap >= d || -gap >= d
  }

  ghost predicate ApartOn(start: real, draws: seq<Draw>, step: real, jitter: real, first: Way, warmed: bool, second: Way,
                          d1: Draw, w: real, d2: Draw) {
    Bounded([d1, d2], jitter) ==>
      Apart(Gap(start, draws, step, first, d1, if warmed then Some(w) else None, second, d2), step - jitter)
  }

  /** However the clock and the jitter fall, with the clock not running back. */
  ghost predicate AlwaysApart(start: real, draws: seq<Draw>, step: real, jitter: real, since: real, first: Way, warmed: bool, second: Way) {
    forall d1: Draw, w: real, d2: Draw :: since <= d1.now <= w <= d2.now ==>
      ApartOn(start, draws, step, jitter, first, warmed, second, d1, w, d2)
  }

  /** After any reservations up to any moment, the next two builds are always step less jitter apart exactly
      when both reserve a slot and no warm-up starts the cursor afresh between them. */
  lemma ApartUnderOneCursor(start: real, draws: seq<Draw>, step: real, jitter: real, since: real, first: Way, warmed: bool, second: Way)
    requires 0.0 <= jitter < step && forall i :: 0 <= i < |draws| ==> draws[i].now <= since
    ensures AlwaysApart(start, draws, step, jitter, since, first, warmed, second)
       <==> first.Reserving? && second.Reserving? && !warmed
  {
    hide Slot, Cursor;
    if first.Reserving? && second.Reserving? && !warmed {
      forall d1: Draw, d2: Draw | Bounded([d1, d2], jitter)
        ensures Gap(start, draws, step, first, d1, None, second, d2) >= step - jitter
      {
        assert [d1, d2][0] == d1;
        LastSlot(start, draws, d1, step);
        LastSlot(start, draws + [d1], d2, step);
      }
    } else {
      var w, d1, d2 := Together(start, draws, step, since, first, warmed, second);
      assert Bounded([d1, d2], jitter);
      assert !ApartOn(start, draws, step, jitter, first, warmed, second, d1, w, d2);
    }
  }

  /** Otherwise the clock may read so that both begin at one moment. */
  lemma Together(start: real, draws: seq<Draw>, step: real, since: real, first: Way, warmed: bool, second: Way)
    returns (w: real, d1: Draw, d2: Draw)
    requires !(first.Reserving? && second.Reserving? && !warmed)
    ensures since <= d1.now <= w <= d2.now && d1.wobble == d2.wobble == 0.0
    ensures Gap(start, draws, step, first, d1, if warmed then Some(w) else None, second, d2) == 0.0
  {
    hide Slot, Cursor;
    var at := MaxReal(Cursor(start, draws, step), since);
    w, d1, d2 := at, Draw(at, 0.0), Draw(at, 0.0);
    LastSlot(start, draws, d1, step);
    LastSlot(start, draws, d2, step);
    LastSlot(w, [], d2, step);
    FreshCursor(w, step);
  }

  lemma FreshCursor(start: real, step: real)
    ensures Cursor(start, [], step) == start
  {
  }

  // ---- the pool as a state machine -----------------------------------------------------------

  /** A builder sleeps until its slot, then connects. */
  datatype Phase = Waiting | Connecting

  /** Tunnels are numbered as they are built. `taken` have left the queue and are being examined. */
  datatype Pool = Pool(size: nat, queue: seq<nat>, building: int, builders: seq<Phase>,
                       taken: set<nat>, out: set<nat>, closed: set<nat>, made: nat)

  datatype Event =
    | Warmup                                // starts the whole size, whatever is there
    | Refill                                // `acquire` begins
    | Reserve                               // a builder that reserves its own place
    | Take                                  // a taker gets the head of the queue
    | Examine(tunnel: nat, good: bool)      // handed out, or closed and refilled for
    | Direct                                // the wait timed out: built and handed out at once
    | Wake(builder: nat)                    // its slot has come
    | Built(builder: nat)
    | Failed(builder: nat)
    | Probed                                // `probe_once` has built a tunnel

  function Empty(size: nat): Pool {
    Pool(size, [], 0, [], {}, {}, {}, 0)
  }

  function Deficit(size: nat, queued: nat, building: int): nat {
    Max(0, size - queued - building)
  }

  function AddBuilders(p: Pool, n: nat): Pool {
    p.(building := p.building + n, builders := p.builders + seq(n, i => Waiting))
  }

  /** `_schedule_refills`. */
  function Refilled(p: Pool): Pool {
    AddBuilders(p, Deficit(p.size, |p.queue|, p.building))
  }

  function DropAt<T>(s: seq<T>, i: nat): seq<T>
    requires i < |s|
  {
    s[..i] + s[i + 1..]
  }

  function Ended(p: Pool, b: nat): Pool
    requires b < |p.builders|
  {
    p.(building := p.building - 1, builders := DropAt(p.builders, b))
  }

  function Queued(p: Pool): Pool {
    p.(queue := p.queue + [p.made], made := p.made + 1)
  }

  /** A full pool gives up its oldest tunnel to a probe's. */
  function MadeRoom(p: Pool): Pool {
    if |p.queue| >= p.size && p.queue != [] then p.(queue := p.queue[1..], closed := p.closed + {p.queue[0]}) else p
  }

  function Step(p: Pool, e: Event): Pool {
    match e
    case Warmup => AddBuilders(p, p.size)
    case Refill => Refilled(p)
    case Reserve =>
      if |p.queue| + p.building >= p.size then p
      else p.(building := p.building + 1, builders := p.builders + [Waiting])
    case Take => if p.queue == [] then p else p.(queue := p.queue[1..], taken := p.taken + {p.queue[0]})
    case Examine(t, good) =>
      if t !in p.taken then p
      else if good then p.(taken := p.taken - {t}, out := p.out + {t})
      else Refilled(p.(taken := p.taken - {t}, closed := p.closed + {t}))
    case Direct => p.(out := p.out + {p.made}, made := p.made + 1)
    case Wake(b) =>
      if b >= |p.builders| || p.builders[b] != Waiting then p
      else if |p.queue| >= p.size then Ended(p, b)
      else p.(builders := p.builders[b := Connecting])
    case Built(b) =>
      if b >= |p.builders| || p.builders[b] != Connecting then p else Ended(Queued(p), b)
    case Failed(b) =>
      if b >= |p.builders| || p.builders[b] != Connecting then p else Ended(p, b)
    case Probed => Queued(MadeRoom(p))
  }

  function Run(p: Pool, events: seq<Event>): Pool {
    if events == [] then p else Step(Run(p, events[..|events| - 1]), events[|events| - 1])
  }

  lemma {:induction false} RunAppend(p: Pool, a: seq<Event>, b: seq<Event>)
    ensures Run(p, a + b) == Run(Run(p, a), b)
  {
    hide Step;
    if b == [] {
      assert a + b == a;
    } else {
      RunAppend(p, a, b[..|b| - 1]);
      assert (a + b)[..|a + b| - 1] == a + b[..|b| - 1];
    }
  }

  // ---- where a tunnel is ---------------------------------------------------------------------

  function One(b: bool): nat {
    if b then 1 else 0
  }

  /** In how many places a tunnel is. */
  function Places(p: Pool, t: nat): nat {
    multiset(p.queue)[t] + One(t in p.taken) + One(t in p.out) + One(t in p.closed)
  }

  /** Every tunnel built is in exactly one place, and nothing else is anywhere. */
  ghost predicate Accounted(p: Pool) {
    forall t: nat :: Places(p, t) == One(t < p.made)
  }

  lemma QueueHead(p: Pool, t: nat)
    requires p.queue != []
    ensures multiset(p.queue)[t] == multiset(p.queue[1..])[t] + One(t == p.queue[0])
  {
    assert p.queue == [p.queue[0]] + p.queue[1..];
  }

  lemma QueuedPlaces(p: Pool, t: nat)
    ensures Places(Queued(p), t) == Places(p, t) + One(t == p.made)
  {
  }

  lemma MadeRoomPlaces(p: Pool, t: nat)
    requires Accounted(p)
    ensures Places(MadeRoom(p), t) == Places(p, t) && MadeRoom(p).made == p.made
  {
    if p.queue != [] {
      QueueHead(p, t);
      QueueHead(p, p.queue[0]);
      assert Places(p, p.queue[0]) <= 1;
    }
  }

  lemma StepPlaces(p: Pool, e: Event, t: nat)
    requires Accounted(p)
    ensures Places(Step(p, e), t) == Places(p, t) + One(t == p.made && Step(p, e).made > p.made)
    ensures p.made <= Step(p, e).made <= p.made + 1
  {
    hide Accounted, MadeRoom, Places;
    match e
    case Take => TakePlaces(p, t);
    case Examine(x, good) => ExaminePlaces(p, x, t);
    case Direct => DirectPlaces(p, t);
    case Built(b) =>
      QueuedPlaces(p, t);
      SamePlaces(if Step(p, e) == p then p else Queued(p), Step(p, e), t);
    case Probed =>
      MadeRoomPlaces(p, t);
      QueuedPlaces(MadeRoom(p), t);
    case _ => SamePlaces(p, Step(p, e), t);
  }

  lemma SamePlaces(p: Pool, q: Pool, t: nat)
    requires q.queue == p.queue && q.taken == p.taken && q.out == p.out && q.closed == p.closed
    ensures Places(q, t) == Places(p, t)
  {
  }

  lemma DirectPlaces(p: Pool, t: nat)
    requires Accounted(p)
    ensures Places(Step(p, Direct), t) == Places(p, t) + One(t == p.made)
  {
    FreshNowhere(p);
  }

  lemma FreshNowhere(p: Pool)
    requires Accounted(p)
    ensures Places(p, p.made) == 0
  {
  }

  lemma TakePlaces(p: Pool, t: nat)
    requires Accounted(p)
    ensures Places(Step(p, Take), t) == Places(p, t)
  {
    if p.queue != [] {
      QueueHead(p, t);
      QueueHead(p, p.queue[0]);
      assert Places(p, p.queue[0]) <= 1;
    }
  }

  lemma ExaminePlaces(p: Pool, x: nat, t: nat)
    requires Accounted(p)
    ensures forall good :: Places(Step(p, Examine(x, good)), t) == Places(p, t)
  {
    assert Places(p, x) <= 1;
  }

  lemma StepAccounted(p: Pool, e: Event)
    requires Accounted(p)
    ensures Accounted(Step(p, e))
  {
    forall t: nat ensures Places(Step(p, e), t) == One(t < Step(p, e).made) {
      StepPlaces(p, e, t);
      assert Places(p, t) == One(t < p.made);
    }
  }

  // ---- how many there may be -----------------------------------------------------------------

  /** The count is the number of live builders, and tunnels and builds together stay within bounds:
      the pool's size while nothing is probed, and otherwise twice that. */
  ghost predicate Bounds(p: Pool, probed: bool) {
    && p.building == |p.builders| <= p.size
    && |p.queue| + p.building <= if !probed then p.size else Max(1, 2 * p.size)
  }

  lemma StepBounds(p: Pool, e: Event, probed: bool)
    requires Bounds(p, probed) && (e.Probed? ==> probed) && (e.Warmup? ==> p.queue == [] && p.building == 0)
    ensures Bounds(Step(p, e), probed) && Step(p, e).size == p.size
  {
  }

  ghost predicate NoProbes(events: seq<Event>) {
    forall i :: 0 <= i < |events| ==> !events[i].Probed?
  }

  /** The pool is warmed up only while it holds nothing and builds nothing. */
  ghost predicate WarmedUpEmpty(size: nat, events: seq<Event>) {
    forall i :: 0 <= i < |events| && events[i].Warmup? ==>
      Run(Empty(size), events[..i]).queue == [] && Run(Empty(size), events[..i]).building == 0
  }

  /** Every run accounts for every tunnel. */
  lemma {:induction false} RunAccounts(size: nat, events: seq<Event>)
    ensures Accounted(Run(Empty(size), events))
  {
    hide Accounted, Bounds, Step;
    if events == [] {
      EmptyIsSafe(size);
    } else {
      RunAccounts(size, events[..|events| - 1]);
      StepAccounted(Run(Empty(size), events[..|events| - 1]), events[|events| - 1]);
    }
  }

  /** The safety of every run from an empty pool that is warmed up empty. */
  lemma {:induction false} RunIsSafe(size: nat, events: seq<Event>)
    requires WarmedUpEmpty(size, events)
    ensures Accounted(Run(Empty(size), events)) && Run(Empty(size), events).size == size
    ensures Bounds(Run(Empty(size), events), !NoProbes(events))
    ensures var p := Run(Empty(size), events);
            && p.building == |p.builders| <= size
            && |p.queue| + p.building <= if NoProbes(events) then size else if size == 0 then 1 else 2 * size
  {
    hide Accounted, Bounds, Step;
    RunAccounts(size, events);
    if events == [] {
      EmptyIsSafe(size);
    } else {
      var n := |events| - 1;
      assert forall i :: 0 <= i < n ==> events[..n][i] == events[i] && events[..n][..i] == events[..i];
      RunIsSafe(size, events[..n]);
      var p := Run(Empty(size), events[..n]);
      assert NoProbes(events) ==> NoProbes(events[..n]) && !events[n].Probed?;
      BoundsRelax(p, !NoProbes(events[..n]), !NoProbes(events));
      StepBounds(p, events[n], !NoProbes(events));
    }
    BoundsMean(Run(Empty(size), events), !NoProbes(events));
  }

  lemma BoundsMean(p: Pool, probed: bool)
    requires Bounds(p, probed)
    ensures p.building == |p.builders| <= p.size
    ensures |p.queue| + p.building <= if !probed then p.size else if p.size == 0 then 1 else 2 * p.size
  {
  }

  /** A second warm-up that finds the first one's builders is not bounded: as many builders again. */
  lemma SecondWarmup(size: nat)
    ensures Run(Empty(size), [Warmup, Warmup]).building == 2 * size
  {
    assert [Warmup, Warmup][..1] == [Warmup] && [Warmup][..0] == [];
    assert Run(Empty(size), [Warmup]) == Step(Empty(size), Warmup);
  }

  lemma EmptyIsSafe(size: nat)
    ensures Accounted(Empty(size)) && Bounds(Empty(size), false)
  {
  }

  lemma BoundsRelax(p: Pool, a: bool, b: bool)
    requires Bounds(p, a) && (a ==> b)
    ensures Bounds(p, b)
  {
  }

  // ---- the bound is reached ------------------------------------------------------------------

  function Wakes(n: nat): seq<Event> {
    if n == 0 then [] else Wakes(n - 1) + [Wake(n - 1)]
  }

  function Repeat(e: Event, n: nat): seq<Event> {
    if n == 0 then [] else Repeat(e, n - 1) + [e]
  }

  lemma {:induction false} WakeAll(p: Pool, n: nat)
    requires n <= |p.builders| && |p.queue| < p.size && forall i :: 0 <= i < |p.builders| ==> p.builders[i] == Waiting
    ensures var q := Run(p, Wakes(n));
            q.queue == p.queue && q.size == p.size && |q.builders| == |p.builders|
            && (forall i :: 0 <= i < |p.builders| ==> q.builders[i] == if i < n then Connecting else Waiting)
  {
    hide Run;
    RunLast(p, Wakes(n));
    if n > 0 {
      WakeAll(p, n - 1);
      WakesSize(n - 1);
      assert Wakes(n)[..n - 1] == Wakes(n - 1);
    }
  }

  lemma RunLast(p: Pool, events: seq<Event>)
    ensures events == [] ==> Run(p, events) == p
    ensures events != [] ==> Run(p, events) == Step(Run(p, events[..|events| - 1]), events[|events| - 1])
  {
  }

  lemma {:induction false} WakesSize(n: nat)
    ensures |Wakes(n)| == n && forall i :: 0 <= i < n ==> Wakes(n)[i].Wake?
  {
    if n > 0 {
      WakesSize(n - 1);
    }
  }

  lemma {:induction false} RepeatSize(e: Event, n: nat)
    ensures |Repeat(e, n)| == n && forall i :: 0 <= i < n ==> Repeat(e, n)[i] == e
  {
    if n > 0 {
      RepeatSize(e, n - 1);
    }
  }

  lemma {:induction false} ProbeAll(p: Pool, n: nat)
    requires |p.queue| + n <= p.size
    ensures var q := Run(p, Repeat(Probed, n)); |q.queue| == |p.queue| + n && q.size == p.size && q.builders == p.builders
  {
    hide Run;
    RunLast(p, Repeat(Probed, n));
    if n > 0 {
      ProbeAll(p, n - 1);
      RepeatSize(Probed, n - 1);
      assert Repeat(Probed, n)[..n - 1] == Repeat(Probed, n - 1);
    }
  }

  lemma {:induction false} BuildAll(p: Pool, n: nat)
    requires n <= |p.builders| && forall i :: 0 <= i < |p.builders| ==> p.builders[i] == Connecting
    ensures var q := Run(p, Repeat(Built(0), n));
            |q.queue| == |p.queue| + n && |q.builders| == |p.builders| - n
            && forall i :: 0 <= i < |q.builders| ==> q.builders[i] == Connecting
  {
    hide Run;
    RunLast(p, Repeat(Built(0), n));
    if n > 0 {
      BuildAll(p, n - 1);
      RepeatSize(Built(0), n - 1);
      assert Repeat(Built(0), n)[..n - 1] == Repeat(Built(0), n - 1);
    }
  }

  lemma OneWarmup(size: nat, events: seq<Event>)
    requires forall i :: 0 < i < |events| ==> !events[i].Warmup?
    ensures WarmedUpEmpty(size, events)
  {
    hide Step;
    assert events[..0] == [];
  }

  /** All builders connecting, nothing queued. */
  lemma AfterWakes(size: nat)
    requires size > 0
    ensures var p := Run(Empty(size), [Warmup] + Wakes(size));
            p.queue == [] && p.size == size && |p.builders| == size && forall i :: 0 <= i < size ==> p.builders[i] == Connecting
  {
    hide Run;
    var p1 := Step(Empty(size), Warmup);
    assert [Warmup][..0] == [];
    RunLast(Empty(size), [Warmup]);
    RunLast(Empty(size), []);
    RunAppend(Empty(size), [Warmup], Wakes(size));
    WakeAll(p1, size);
  }

  /** The pool filled by probes meanwhile. */
  lemma AfterProbes(size: nat)
    requires size > 0
    ensures var p := Run(Empty(size), [Warmup] + Wakes(size) + Repeat(Probed, size));
            |p.queue| == size && |p.builders| == size && forall i :: 0 <= i < size ==> p.builders[i] == Connecting
  {
    hide Run, Wakes;
    AfterWakes(size);
    RunAppend(Empty(size), [Warmup] + Wakes(size), Repeat(Probed, size));
    ProbeAll(Run(Empty(size), [Warmup] + Wakes(size)), size);
  }

  /** Probes that fill the pool while its builders connect leave it holding twice its size. */
  lemma TwiceFull(size: nat)
    requires size > 0
    ensures exists events :: WarmedUpEmpty(size, events) && |Run(Empty(size), events).queue| == 2 * size
  {
    hide Run, Wakes, Repeat, WarmedUpEmpty;
    AfterProbes(size);
    var early := [Warmup] + Wakes(size) + Repeat(Probed, size);
    var events := early + Repeat(Built(0), size);
    RunAppend(Empty(size), early, Repeat(Built(0), size));
    BuildAll(Run(Empty(size), early), size);
    WakesSize(size);
    RepeatSize(Probed, size);
    RepeatSize(Built(0), size);
    OneWarmup(size, events);
  }

  // ---- the running form ----------------------------------------------------------------------

  /** The pool's fields as they are, beside the state machine they follow. */
  class BrutalPool {
    const size: nat
    const step: real
    var queue: seq<nat>
    var building: int
    var nextBuildAt: real
    ghost var state: Pool
    ghost var start: real
    ghost var draws: seq<Draw>

    ghost predicate Valid()
      reads this
    {
      state.size == size && state.queue == queue && state.building == building && Spaced()
    }

    ghost predicate Spaced()
      reads this
    {
      nextBuildAt == Cursor(start, draws, step)
    }

    constructor (size: nat, step: real)
      ensures Valid() && state == Empty(size) && this.step == step
    {
      this.size, this.step, queue, building, nextBuildAt := size, step, [], 0, 0.0;
      state, start, draws := Empty(size), 0.0, [];
    }

    /** The delay until the slot reserved. */
    method ReserveBuildSlot(now: real, wobble: real) returns (delay: real)
      requires Spaced()
      modifies `nextBuildAt, `draws
      ensures Spaced() && draws == old(draws) + [Draw(now, wobble)]
      ensures now + delay == Slot(start, draws, step, |draws| - 1) && delay >= 0.0
    {
      if nextBuildAt < now {
        nextBuildAt := now;
      }
      delay := nextBuildAt - now;
      nextBuildAt := nextBuildAt + step + wobble;
      draws := draws + [Draw(now, wobble)];
      LastSlot(start, old(draws), Draw(now, wobble), step);
    }

    /** Reserve a place and a slot for each of n new builders; `draw` is the clock and the dice. */
    method StartBuilders(n: nat, draw: nat -> Draw) returns (delays: seq<real>)
      requires Valid()
      modifies `nextBuildAt, `draws, `building, `state
      ensures Valid() && state == AddBuilders(old(state), n)
      ensures |delays| == n && draws == old(draws) + seq(n, i requires 0 <= i < n => draw(i))
      ensures SlotsFit(start, draws, step, |old(draws)|, delays, draw)
    {
      hide Cursor, Slot;
      delays := [];
      ghost var before := draws;
      for k := 0 to n
        invariant |delays| == k && building == old(building) + k && state == old(state) && Spaced()
        invariant draws == before + seq(k, i requires 0 <= i < k => draw(i))
        invariant SlotsFit(start, draws, step, |before|, delays, draw)
      {
        building := building + 1;
        ghost var was := draws;
        var delay := ReserveBuildSlot(draw(k).now, draw(k).wobble);
        SlotsKept(start, was, draws[|was|], step);
        delays := delays + [delay];
      }
      state := AddBuilders(state, n);
    }

    /** `_schedule_refills`. */
    method ScheduleRefills(draw: nat -> Draw) returns (delays: seq<real>)
      requires Valid()
      modifies `nextBuildAt, `draws, `building, `state
      ensures Valid() && state == Step(old(state), Refill)
      ensures |delays| == Deficit(size, |queue|, old(building))
      ensures SlotsFit(start, draws, step, |old(draws)|, delays, draw)
    {
      var deficit := size - |queue| - building;
      delays := StartBuilders(Max(0, deficit), draw);
    }

    /** `warmup` starts the cursor afresh. */
    method Warmup(now: real, draw: nat -> Draw) returns (delays: seq<real>)
      requires Valid()
      modifies this
      ensures Valid() && state == Step(old(state), Event.Warmup) && start == now
      ensures |delays| == |draws| == size
      ensures SlotsFit(now, draws, step, 0, delays, draw)
    {
      hide Slot;
      nextBuildAt, start, draws := now, now, [];
      delays := StartBuilders(size, draw);
    }

    method TryReserve() returns (ok: bool)
      requires Valid()
      modifies `building, `state
      ensures Valid() && state == Step(old(state), Reserve) && ok == (|queue| + old(building) < size)
      ensures building == old(building) + if ok then 1 else 0
    {
      state := Step(state, Reserve);
      if |queue| + building >= size {
        return false;
      }
      building := building + 1;
      return true;
    }

    /** A builder's slot has come: it goes on, unless the pool has filled up meanwhile. */
    method WakeBuilder(ghost b: nat) returns (go: bool)
      requires Valid() && b < |state.builders| && state.builders[b] == Waiting
      modifies `building, `state
      ensures Valid() && state == Step(old(state), Wake(b)) && go == (|queue| < size)
    {
      state := Step(state, Wake(b));
      go := |queue| < size;
      if !go {
        building := building - 1;
      }
    }

    /** The end of a build, with the tunnel built if any. */
    method FinishBuild(ghost b: nat, tunnel: Option<nat>)
      requires Valid() && b < |state.builders| && state.builders[b] == Connecting
      requires tunnel.Some? ==> tunnel.value == state.made
      modifies `queue, `building, `state
      ensures Valid() && state == Step(old(state), if tunnel.Some? then Built(b) else Failed(b))
    {
      state := Step(state, if tunnel.Some? then Built(b) else Failed(b));
      if tunnel.Some? {
        queue := queue + [tunnel.value];
      }
      building := building - 1;
    }

    method GetNext() returns (tunnel: nat)
      requires Valid() && queue != []
      modifies `queue, `state
      ensures Valid() && state == Step(old(state), Take) && tunnel == old(queue)[0]
    {
      state := Step(state, Take);
      tunnel := queue[0];
      queue := queue[1..];
    }

    /** What `acquire` does with the tunnel it got. */
    method Inspect(tunnel: nat, stale: bool, alive: bool, draw: nat -> Draw) returns (handedOut: bool)
      requires Valid() && tunnel in state.taken
      modifies `nextBuildAt, `draws, `building, `state
      ensures Valid() && state == Step(old(state), Examine(tunnel, handedOut)) && handedOut == (!stale && alive)
    {
      ghost var before := state;
      handedOut := !stale && alive;
      if !handedOut {
        state := state.(taken := state.taken - {tunnel}, closed := state.closed + {tunnel});
        var delays := ScheduleRefills(draw);
      } else {
        state := Step(state, Examine(tunnel, true));
      }
    }

    /** The end of `probe_once`, with the tunnel it built. */
    method FinishProbe(tunnel: nat) returns (dropped: Option<nat>)
      requires Valid() && tunnel == state.made
      modifies `queue, `state
      ensures Valid() && state == Step(old(state), Probed)
      ensures dropped == if |old(queue)| >= size && old(queue) != [] then Some(old(queue)[0]) else None
    {
      state := Step(state, Probed);
      dropped := None;
      if |queue| >= size && queue != [] {
        dropped := Some(queue[0]);
        queue := queue[1..];
      }
      queue := queue + [tunnel];
    }
  }

  /** Each delay leads from its reservation to its slot. */
  ghost predicate SlotsFit(start: real, draws: seq<Draw>, step: real, base: nat, delays: seq<real>, draw: nat -> Draw) {
    base + |delays| <= |draws|
    && forall i :: 0 <= i < |delays| ==> draw(i).now + delays[i] == Slot(start, draws, step, base + i)
  }

  lemma LastSlot(start: real, draws: seq<Draw>, d: Draw, step: real)
    ensures Slot(start, draws + [d], step, |draws|) == MaxReal(Cursor(start, draws, step), d.now)
    ensures Cursor(start, draws + [d], step) == MaxReal(Cursor(start, draws, step), d.now) + step + d.wobble
  {
    assert (draws + [d])[..|draws|] == draws;
  }

  /** Later reservations move no slot. */
  lemma SlotsKept(start: real, draws: seq<Draw>, d: Draw, step: real)
    ensures forall i :: 0 <= i < |draws| ==> Slot(start, draws + [d], step, i) == Slot(start, draws, step, i)
  {
    forall i | 0 <= i < |draws| ensures Slot(start, draws + [d], step, i) == Slot(start, draws, step, i) {
      assert (draws + [d])[..i] == draws[..i];
    }
  }
}
