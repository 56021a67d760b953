/** Laws of group resolution: resolving again changes nothing, current children change only for
    the stated reasons, and healthy groups resolve to healthy leaves. */
module GroupLaws {
  import opened Basics
  import opened Groups

  // ---- settled nodes stay settled ------------------------------------------------------------

  lemma {:induction false} SameTimings(g: Graph, sel: Choice, cur: Choice, next: Choice, cs: seq<nat>)
    requires Dag(g) && Below(cs, |g|)
    requires forall i :: 0 <= i < |cs| ==> LatencyOf(g, sel, next, cs[i]) == LatencyOf(g, sel, cur, cs[i])
    ensures Timings(g, sel, next, cs) == Timings(g, sel, cur, cs)
  {
    if cs != [] {
      SameTimings(g, sel, cur, next, cs[1..]);
    }
  }

  lemma SameChoose(g: Graph, sel: Choice, cur: Choice, next: Choice, x: nat, prior: Option<nat>)
    requires Dag(g) && x < |g| && g[x].UrlTest? && Candidates(g, sel, x) != []
    requires forall c :: c in Candidates(g, sel, x) ==> LatencyOf(g, sel, next, c) == LatencyOf(g, sel, cur, c)
    ensures Choose(g, sel, next, x, prior) == Choose(g, sel, cur, x, prior)
  {
    hide LatencyOf;
    SameTimings(g, sel, cur, next, Candidates(g, sel, x));
  }

  ghost predicate Kept(g: Graph, sel: Choice, cur: Choice, next: Choice)
    requires Dag(g)
  {
    forall y :: 0 <= y < |g| && Settled(g, sel, cur, y) ==> Get(next, y) == Get(cur, y)
  }

  /** If settled choices are kept, settled nodes stay settled and lead where they did. */
  lemma {:induction false} SettledStays(g: Graph, sel: Choice, cur: Choice, next: Choice, x: nat)
    requires Dag(g) && x < |g| && Kept(g, sel, cur, next) && Settled(g, sel, cur, x)
    ensures Settled(g, sel, next, x)
    ensures LeafOf(g, sel, next, x) == LeafOf(g, sel, cur, x)
    ensures LatencyOf(g, sel, next, x) == LatencyOf(g, sel, cur, x)
    decreases x
  {
    hide Choose, Candidates, Target;
    assert Get(next, x) == Get(cur, x);
    match g[x]
    case Leaf(_, _) =>
    case UrlTest(_, _) =>
      var cands := Candidates(g, sel, x);
      forall c | c in cands
        ensures Settled(g, sel, next, c) && LeafOf(g, sel, next, c) == LeafOf(g, sel, cur, c)
        ensures LatencyOf(g, sel, next, c) == LatencyOf(g, sel, cur, c)
      {
        SettledStays(g, sel, cur, next, c);
      }
      if cands != [] {
        SameChoose(g, sel, cur, next, x, Some(cur[x]));
      }
    case _ =>
      if g[x].children != [] {
        SettledStays(g, sel, cur, next, Target(g, sel, x));
      }
  }

  lemma EvolvesRefl(g: Graph, sel: Choice, cur: Choice)
    requires Dag(g)
    ensures Evolves(g, sel, cur, cur)
  {}

  lemma EvolvesTrans(g: Graph, sel: Choice, a: Choice, b: Choice, c: Choice)
    requires Dag(g) && Evolves(g, sel, a, b) && Evolves(g, sel, b, c)
    ensures Evolves(g, sel, a, c)
  {
    hide Settled, Choose, Candidates;
    forall y | 0 <= y < |g| && Settled(g, sel, a, y) ensures Get(c, y) == Get(a, y) {
      SettledStays(g, sel, a, b, y);
    }
    forall y | 0 <= y && Get(c, y) != Get(a, y) ensures Justified(g, sel, a, c, y) {
      if Get(b, y) != Get(a, y) {
        assert Justified(g, sel, a, b, y);
        JustifiedStays(g, sel, a, b, c, y);
      } else {
        assert Justified(g, sel, b, c, y);
      }
    }
  }

  lemma JustifiedStays(g: Graph, sel: Choice, a: Choice, b: Choice, c: Choice, y: nat)
    requires Dag(g) && Justified(g, sel, a, b, y) && Kept(g, sel, b, c)
    ensures Justified(g, sel, a, c, y)
  {
    hide Choose, Candidates, LatencyOf, LeafOf;
    SettledStays(g, sel, b, c, y);
    forall d | d in Candidates(g, sel, y) ensures LatencyOf(g, sel, c, d) == LatencyOf(g, sel, b, d) {
      SettledStays(g, sel, b, c, d);
    }
    SameChoose(g, sel, b, c, y, Get(a, y));
  }

  // ---- reading a settled node changes nothing --------------------------------------------------

  /** The node a settled node leads to is a leaf, or a group that resolves to itself. */
  ghost predicate Terminal(g: Graph, sel: Choice, x: nat)
    requires Dag(g) && x < |g|
  {
    g[x].Leaf? || (if g[x].UrlTest? then Candidates(g, sel, x) == [] else g[x].children == [])
  }

  lemma {:induction false} LeafIsTerminal(g: Graph, sel: Choice, cur: Choice, x: nat)
    requires Dag(g) && x < |g| && Settled(g, sel, cur, x)
    ensures Terminal(g, sel, LeafOf(g, sel, cur, x))
    decreases x
  {
    hide Candidates, Target;
    match g[x]
    case Leaf(_, _) =>
    case UrlTest(_, _) =>
      if Candidates(g, sel, x) != [] {
        ChooseIsCandidate(g, sel, cur, x, Some(cur[x]));
        LeafIsTerminal(g, sel, cur, cur[x]);
      }
    case _ =>
      if g[x].children != [] {
        LeafIsTerminal(g, sel, cur, Target(g, sel, x));
      }
  }

  lemma {:induction false} TimedAreGiven(g: Graph, sel: Choice, cur: Choice, cs: seq<nat>)
    requires Dag(g) && Below(cs, |g|)
    ensures forall t :: t in Timings(g, sel, cur, cs) ==>
      t.0 in cs && t.1.Some? && t.0 < |g| && t.1 == LatencyOf(g, sel, cur, t.0)
    ensures forall c :: c in cs && LatencyOf(g, sel, cur, c).Some? ==>
      (c, LatencyOf(g, sel, cur, c)) in Timings(g, sel, cur, cs)
  {
    hide LatencyOf;
    if cs != [] {
      TimedAreGiven(g, sel, cur, cs[1..]);
    }
  }

  lemma ChooseIsCandidate(g: Graph, sel: Choice, cur: Choice, x: nat, prior: Option<nat>)
    requires Dag(g) && x < |g| && g[x].UrlTest? && Candidates(g, sel, x) != []
    ensures Choose(g, sel, cur, x, prior) in Candidates(g, sel, x)
  {
    hide Candidates, LatencyOf;
    TimedAreGiven(g, sel, cur, Candidates(g, sel, x));
  }

  /** Asked again with its own pick as the current child, the rule picks the same. */
  lemma ChooseTwice(g: Graph, sel: Choice, cur: Choice, x: nat, prior: Option<nat>)
    requires Dag(g) && x < |g| && g[x].UrlTest? && Candidates(g, sel, x) != []
    ensures var c := Choose(g, sel, cur, x, prior); Choose(g, sel, cur, x, Some(c)) == c
  {
    hide Candidates, LatencyOf;
    ChooseIsCandidate(g, sel, cur, x, prior);
    TimedAreGiven(g, sel, cur, Candidates(g, sel, x));
  }

  lemma {:induction false} MeasureSettled(g: Graph, sel: Choice, cur: Choice, x: nat, cs: seq<nat>)
    requires Dag(g) && x < |g| && ValidCurrent(g, cur) && Below(cs, x) && Below(cs, |g|)
    requires forall i :: 0 <= i < |cs| ==> Latency(g, sel, cur, cs[i]) == (LatencyOf(g, sel, cur, cs[i]), cur)
    ensures Measure(g, sel, cur, x, cs) == (Timings(g, sel, cur, cs), cur)
  {
    hide Latency, LatencyOf;
    if cs != [] {
      MeasureSettled(g, sel, cur, x, cs[1..]);
    }
  }

  /** Resolving, or reading the latency of, a settled node follows the choices and changes none. */
  lemma {:induction false} ReadSettled(g: Graph, sel: Choice, cur: Choice, x: nat)
    requires Dag(g) && x < |g| && ValidCurrent(g, cur) && Settled(g, sel, cur, x)
    ensures Resolve(g, sel, cur, x) == (LeafOf(g, sel, cur, x), cur)
    ensures Latency(g, sel, cur, x) == (LatencyOf(g, sel, cur, x), cur)
    decreases x
  {
    hide Measure, KeepsCurrent, LogSwitch, Choose, Candidates, Target;
    match g[x]
    case Leaf(_, _) =>
    case UrlTest(_, _) =>
      if Candidates(g, sel, x) != [] {
        forall c | c in Candidates(g, sel, x)
          ensures Latency(g, sel, cur, c) == (LatencyOf(g, sel, cur, c), cur)
          ensures Resolve(g, sel, cur, c) == (LeafOf(g, sel, cur, c), cur)
        {
          ReadSettled(g, sel, cur, c);
        }
        ChooseIsCandidate(g, sel, cur, x, Some(cur[x]));
        ResolveUrlTest(g, sel, cur, x);
        ReadTerminal(g, sel, cur, x);
      }
    case _ =>
      if g[x].children != [] {
        ReadSettled(g, sel, cur, Target(g, sel, x));
        ReadTerminal(g, sel, cur, x);
      }
  }

  lemma ReadTerminal(g: Graph, sel: Choice, cur: Choice, x: nat)
    requires Dag(g) && x < |g| && ValidCurrent(g, cur) && Settled(g, sel, cur, x)
    requires Resolve(g, sel, cur, x) == (LeafOf(g, sel, cur, x), cur)
    ensures Latency(g, sel, cur, x) == (LatencyOf(g, sel, cur, x), cur)
  {
    hide Candidates, Target, Measure, KeepsCurrent, LogSwitch, Settled;
    LeafIsTerminal(g, sel, cur, x);
    var l := LeafOf(g, sel, cur, x);
    if l != x && !g[l].Leaf? {
      assert Resolve(g, sel, cur, l) == (l, cur);
    }
  }

  /** A url-test group whose healthy children read as settled picks by the rule. */
  lemma ResolveUrlTest(g: Graph, sel: Choice, cur: Choice, x: nat)
    requires Dag(g) && x < |g| && ValidCurrent(g, cur) && g[x].UrlTest? && Candidates(g, sel, x) != []
    requires forall c :: c in Candidates(g, sel, x) ==>
      Latency(g, sel, cur, c) == (LatencyOf(g, sel, cur, c), cur)
    requires x in cur && cur[x] == Choose(g, sel, cur, x, Some(cur[x]))
    requires Resolve(g, sel, cur, cur[x]) == (LeafOf(g, sel, cur, cur[x]), cur)
    ensures Resolve(g, sel, cur, x) == (LeafOf(g, sel, cur, x), cur)
  {
    hide Candidates, Latency, LatencyOf, Measure, Timings, Pick, Resolve, Choose;
    var cands := Candidates(g, sel, x);
    MeasureSettled(g, sel, cur, x, cands);
    ResolveByPick(g, sel, cur, x);
    PickSettled(g, sel, cur, x);
    ChooseIsCandidate(g, sel, cur, x, Some(cur[x]));
    LeafOfPick(g, sel, cur, x);
  }

  /** A url-test group with a healthy child resolves the child picked. */
  lemma ResolveByPick(g: Graph, sel: Choice, cur: Choice, x: nat)
    requires Dag(g) && x < |g| && ValidCurrent(g, cur) && g[x].UrlTest? && Candidates(g, sel, x) != []
    ensures var (timed, cur1) := Measure(g, sel, cur, x, Candidates(g, sel, x));
            var (child, cur2) := Pick(g, sel, cur1, x, Candidates(g, sel, x), timed);
            child < x && Resolve(g, sel, cur, x) == Resolve(g, sel, cur2, child)
  {
    hide Candidates, Measure, Pick;
  }

  lemma PickSettled(g: Graph, sel: Choice, cur: Choice, x: nat)
    requires Dag(g) && x < |g| && ValidCurrent(g, cur) && g[x].UrlTest? && Candidates(g, sel, x) != []
    requires forall c :: c in Candidates(g, sel, x) ==>
      Latency(g, sel, cur, c) == (LatencyOf(g, sel, cur, c), cur)
    requires x in cur && cur[x] == Choose(g, sel, cur, x, Some(cur[x]))
    ensures var timed := Timings(g, sel, cur, Candidates(g, sel, x));
            (forall t :: t in timed ==> t.0 in Candidates(g, sel, x))
            && Pick(g, sel, cur, x, Candidates(g, sel, x), timed) == (cur[x], cur)
  {
    hide Candidates, Latency, LatencyOf, Timings;
    var cands := Candidates(g, sel, x);
    TimedAreGiven(g, sel, cur, cands);
    ChooseIsCandidate(g, sel, cur, x, Some(cur[x]));
    assert cur[x := cur[x]] == cur;
  }

  // ---- any resolution settles what it reads ----------------------------------------------------

  lemma CandidatesMeanHealthy(g: Graph, sel: Choice, x: nat)
    requires Dag(g) && x < |g| && g[x].UrlTest? && Candidates(g, sel, x) != []
    ensures Healthy(g, sel, x)
  {
    var c := Candidates(g, sel, x)[0];
    assert c in Candidates(g, sel, x);
  }

  /** Resolving an unhealthy node changes no choice, so logging its latency is harmless. */
  lemma {:induction false} UnhealthySettled(g: Graph, sel: Choice, cur: Choice, x: nat)
    requires Dag(g) && x < |g| && !Healthy(g, sel, x)
    ensures Settled(g, sel, cur, x)
    decreases x
  {
    if g[x].UrlTest? && Candidates(g, sel, x) != [] {
      CandidatesMeanHealthy(g, sel, x);
    } else if !g[x].Leaf? && !g[x].UrlTest? && g[x].children != [] {
      UnhealthySettled(g, sel, cur, Target(g, sel, x));
    }
  }

  /** Setting a group to the rule's pick, once its healthy children are settled. */
  lemma SetChoice(g: Graph, sel: Choice, cur: Choice, x: nat) returns (p: nat, next: Choice)
    requires Dag(g) && x < |g| && ValidCurrent(g, cur) && g[x].UrlTest? && Candidates(g, sel, x) != []
    requires forall c :: c in Candidates(g, sel, x) ==> Settled(g, sel, cur, c)
    ensures p == Choose(g, sel, cur, x, Get(cur, x)) && next == cur[x := p]
    ensures p in Candidates(g, sel, x) && ValidCurrent(g, next)
    ensures Evolves(g, sel, cur, next) && Settled(g, sel, next, x) && Settled(g, sel, next, p)
    ensures LeafOf(g, sel, next, x) == LeafOf(g, sel, next, p)
  {
    hide Choose, Candidates, LatencyOf, LeafOf;
    p := Choose(g, sel, cur, x, Get(cur, x));
    next := cur[x := p];
    ChooseIsCandidate(g, sel, cur, x, Get(cur, x));
    assert Kept(g, sel, cur, next);
    forall c | c in Candidates(g, sel, x)
      ensures Settled(g, sel, next, c) && LatencyOf(g, sel, next, c) == LatencyOf(g, sel, cur, c)
    {
      SettledStays(g, sel, cur, next, c);
    }
    SameChoose(g, sel, cur, next, x, Get(cur, x));
    SameChoose(g, sel, cur, next, x, Some(p));
    ChooseTwice(g, sel, cur, x, Get(cur, x));
    LeafOfPick(g, sel, next, x);
  }

  lemma LeafOfPick(g: Graph, sel: Choice, cur: Choice, x: nat)
    requires Dag(g) && x < |g| && g[x].UrlTest? && x in cur && cur[x] in Candidates(g, sel, x)
    ensures LeafOf(g, sel, cur, x) == LeafOf(g, sel, cur, cur[x])
  {}

  lemma LogIsHarmless(g: Graph, sel: Choice, cur: Choice, x: nat, best: nat)
    requires Dag(g) && x < |g| && ValidCurrent(g, cur) && g[x].UrlTest?
    requires forall c :: c in Candidates(g, sel, x) ==> Settled(g, sel, cur, c)
    ensures LogSwitch(g, sel, cur, x, best) == cur
  {
    hide Candidates, Latency, LatencyOf, Settled;
    if x in cur && cur[x] != best {
      if cur[x] !in Candidates(g, sel, x) {
        UnhealthySettled(g, sel, cur, cur[x]);
      }
      ReadSettled(g, sel, cur, cur[x]);
    }
  }

  lemma KeepTestReads(g: Graph, sel: Choice, cur: Choice, x: nat, best: real, tolerance: real)
    requires Dag(g) && x < |g| && ValidCurrent(g, cur) && g[x].UrlTest?
    requires forall c :: c in Candidates(g, sel, x) ==> Settled(g, sel, cur, c)
    ensures KeepsCurrent(g, sel, cur, x, Candidates(g, sel, x), best, tolerance)
         == (x in cur && cur[x] in Candidates(g, sel, x) && LatencyOf(g, sel, cur, cur[x]).Some?
             && Millis(LatencyOf(g, sel, cur, cur[x])) - best < tolerance, cur)
  {
    hide Candidates, Latency, LatencyOf, Settled;
    if x in cur && cur[x] in Candidates(g, sel, x) {
      ReadSettled(g, sel, cur, cur[x]);
    }
  }

  /** After measuring, a url-test group resolves the rule's pick. */
  lemma AfterMeasure(g: Graph, sel: Choice, cur: Choice, x: nat, cur1: Choice)
    requires Dag(g) && x < |g| && ValidCurrent(g, cur) && ValidCurrent(g, cur1)
    requires g[x].UrlTest? && Candidates(g, sel, x) != []
    requires Measure(g, sel, cur, x, Candidates(g, sel, x)) == (Timings(g, sel, cur1, Candidates(g, sel, x)), cur1)
    requires forall c :: c in Candidates(g, sel, x) ==> Settled(g, sel, cur1, c)
    requires var p := Choose(g, sel, cur1, x, Get(cur1, x));
             p in Candidates(g, sel, x) && ValidCurrent(g, cur1[x := p])
    ensures var p := Choose(g, sel, cur1, x, Get(cur1, x));
            Resolve(g, sel, cur, x) == Resolve(g, sel, cur1[x := p], p)
  {
    hide Candidates, Latency, LatencyOf, Measure, Timings, KeepsCurrent, LogSwitch, Settled, Resolve;
    ResolveByPick(g, sel, cur, x);
    var timed := Timings(g, sel, cur1, Candidates(g, sel, x));
    if timed != [] {
      KeepTestReads(g, sel, cur1, x, Millis(Best(timed).1), g[x].tolerance);
      LogIsHarmless(g, sel, cur1, x, Best(timed).0);
    }
    if x in cur1 {
      assert cur1[x := cur1[x]] == cur1;
    }
  }

  /** Resolving settles the node, follows the choices made, and changes choices only by the rule. */
  lemma {:induction false} Resolves(g: Graph, sel: Choice, cur: Choice, x: nat)
    requires Dag(g) && x < |g| && ValidCurrent(g, cur)
    ensures var (leaf, next) := Resolve(g, sel, cur, x);
            Settled(g, sel, next, x) && leaf == LeafOf(g, sel, next, x) && Evolves(g, sel, cur, next)
    decreases x, 1, 0
  {
    hide Measure, Choose, Candidates, Target, Evolves, KeepsCurrent, LogSwitch;
    EvolvesRefl(g, sel, cur);
    match g[x]
    case Leaf(_, _) =>
    case UrlTest(_, _) =>
      if Candidates(g, sel, x) != [] {
        ResolvesUrlTest(g, sel, cur, x);
      }
    case _ =>
      if g[x].children != [] {
        Resolves(g, sel, cur, Target(g, sel, x));
      }
  }

  lemma {:induction false} ResolvesUrlTest(g: Graph, sel: Choice, cur: Choice, x: nat)
    requires Dag(g) && x < |g| && ValidCurrent(g, cur) && g[x].UrlTest? && Candidates(g, sel, x) != []
    ensures var (leaf, next) := Resolve(g, sel, cur, x);
            Settled(g, sel, next, x) && leaf == LeafOf(g, sel, next, x) && Evolves(g, sel, cur, next)
    decreases x, 0, |Candidates(g, sel, x)| + 1
  {
    hide Measure, Choose, Candidates, Evolves, Resolve, Settled, LeafOf, Timings;
    var cands := Candidates(g, sel, x);
    MeasureResolves(g, sel, cur, x, cands);
    var cur1 := Measure(g, sel, cur, x, cands).1;
    var p, next := SetChoice(g, sel, cur1, x);
    AfterMeasure(g, sel, cur, x, cur1);
    ReadSettled(g, sel, next, p);
    EvolvesTrans(g, sel, cur, cur1, next);
  }

  lemma {:induction false} MeasureResolves(g: Graph, sel: Choice, cur: Choice, x: nat, cs: seq<nat>)
    requires Dag(g) && x < |g| && ValidCurrent(g, cur) && Below(cs, x) && Below(cs, |g|)
    ensures var (timed, next) := Measure(g, sel, cur, x, cs);
            Evolves(g, sel, cur, next) && timed == Timings(g, sel, next, cs)
            && forall c :: c in cs ==> c < |g| && Settled(g, sel, next, c)
    decreases x, 0, |cs|
  {
    hide Evolves, Resolve, Settled, LeafOf, Latency, LatencyOf;
    EvolvesRefl(g, sel, cur);
    if cs != [] {
      ReadSettles(g, sel, cur, cs[0]);
      var cur1 := Latency(g, sel, cur, cs[0]).1;
      ReadSettled(g, sel, cur1, cs[0]);
      MeasureResolves(g, sel, cur1, x, cs[1..]);
      var next := Measure(g, sel, cur1, x, cs[1..]).1;
      EvolvesTrans(g, sel, cur, cur1, next);
      EvolvesKept(g, sel, cur1, next);
      SettledStays(g, sel, cur1, next, cs[0]);
    }
  }

  lemma EvolvesKept(g: Graph, sel: Choice, cur: Choice, next: Choice)
    requires Dag(g) && Evolves(g, sel, cur, next)
    ensures Kept(g, sel, cur, next)
  {}

  /** Reading a latency resolves the node, and gives the latency of the leaf it settles on. */
  lemma {:induction false} ReadSettles(g: Graph, sel: Choice, cur: Choice, x: nat)
    requires Dag(g) && x < |g| && ValidCurrent(g, cur)
    ensures var (sample, next) := Latency(g, sel, cur, x);
            Settled(g, sel, next, x) && sample == LatencyOf(g, sel, next, x) && Evolves(g, sel, cur, next)
    decreases x, 2, 0
  {
    hide Evolves, Resolve;
    if g[x].Leaf? {
      EvolvesRefl(g, sel, cur);
    } else {
      Resolves(g, sel, cur, x);
      var next := Resolve(g, sel, cur, x).1;
      ReadSettled(g, sel, next, x);
      LatencyAfterResolve(g, sel, cur, x);
    }
  }

  /** The read after a resolve is the read of the resolved state. */
  lemma LatencyAfterResolve(g: Graph, sel: Choice, cur: Choice, x: nat)
    requires Dag(g) && x < |g| && ValidCurrent(g, cur) && !g[x].Leaf?
    requires var (leaf, next) := Resolve(g, sel, cur, x);
             ValidCurrent(g, next) && Resolve(g, sel, next, x) == (leaf, next)
    ensures Latency(g, sel, cur, x) == Latency(g, sel, Resolve(g, sel, cur, x).1, x)
  {
    hide Resolve;
  }

  // ---- the main results ------------------------------------------------------------------------

  /** Resolving again, with health and latencies unchanged, gives the same leaf and changes no
      choice, on any graph of nested and shared groups. */
  lemma ResolveTwice(g: Graph, sel: Choice, cur: Choice, x: nat)
    requires Dag(g) && x < |g| && ValidCurrent(g, cur)
    ensures var (leaf, next) := Resolve(g, sel, cur, x);
            Resolve(g, sel, next, x) == (leaf, next)
  {
    hide Resolve;
    Resolves(g, sel, cur, x);
    ReadSettled(g, sel, Resolve(g, sel, cur, x).1, x);
  }

  /** After resolving a url-test group its current child is exactly what the rule picks from the old
      one and the latencies now in force. */
  lemma CurrentFollowsRule(g: Graph, sel: Choice, cur: Choice, x: nat)
    requires Dag(g) && x < |g| && ValidCurrent(g, cur) && g[x].UrlTest? && Candidates(g, sel, x) != []
    ensures var next := Resolve(g, sel, cur, x).1;
            Get(next, x) == Some(Choose(g, sel, next, x, Get(cur, x)))
  {
    hide Resolve, Choose, Candidates;
    Resolves(g, sel, cur, x);
    var next := Resolve(g, sel, cur, x).1;
    if Get(next, x) != Get(cur, x) {
      assert Justified(g, sel, cur, next, x);
    }
  }

  /** Is `c` a child that may still be used rather than switched away from, given the best? */
  ghost predicate WorthKeeping(g: Graph, sel: Choice, cur: Choice, y: nat, c: nat, best: nat)
    requires Dag(g) && y < |g| && g[y].UrlTest? && c < |g| && best < |g|
  {
    && c in g[y].children && Healthy(g, sel, c)
    && LatencyOf(g, sel, cur, c).Some?
    && (LatencyOf(g, sel, cur, best).Some? ==>
          LatencyOf(g, sel, cur, c).value - LatencyOf(g, sel, cur, best).value < g[y].tolerance)
  }

  /** No child with a sample is faster than `best`. */
  ghost predicate Fastest(g: Graph, sel: Choice, cur: Choice, y: nat, best: nat)
    requires Dag(g) && y < |g| && g[y].UrlTest?
  {
    && best < |g| && best in g[y].children && Healthy(g, sel, best)
    && forall c :: c in Candidates(g, sel, y) && LatencyOf(g, sel, cur, c).Some? ==>
         LatencyOf(g, sel, cur, best).Some?
         && LatencyOf(g, sel, cur, best).value <= LatencyOf(g, sel, cur, c).value
  }

  /** Hysteresis. Whatever resolution does anywhere in the graph, a url-test group gets a new current
      child only if the old one is unhealthy, has no sample, or is at least `tolerance` slower than
      the best; and the new one is healthy with the least latency there is. */
  lemma SwitchReasons(g: Graph, sel: Choice, cur: Choice, x: nat, y: nat)
    requires Dag(g) && x < |g| && ValidCurrent(g, cur)
    requires Get(Resolve(g, sel, cur, x).1, y) != Get(cur, y)
    ensures var next := Resolve(g, sel, cur, x).1;
            && y < |g| && g[y].UrlTest? && y in next
            && Fastest(g, sel, next, y, next[y])
            && (y in cur ==> cur[y] < |g| && !WorthKeeping(g, sel, next, y, cur[y], next[y]))
  {
    hide Resolve;
    Resolves(g, sel, cur, x);
    var next := Resolve(g, sel, cur, x).1;
    assert Justified(g, sel, cur, next, y);
    RulePicksFastest(g, sel, next, y, Get(cur, y));
    if y in cur {
      assert cur[y] in g[y].children && Below(g[y].children, y);
    }
  }

  lemma RulePicksFastest(g: Graph, sel: Choice, cur: Choice, y: nat, prior: Option<nat>)
    requires Dag(g) && y < |g| && g[y].UrlTest? && Candidates(g, sel, y) != []
    requires prior.Some? ==> prior.value < |g|
    ensures var c := Choose(g, sel, cur, y, prior);
            prior != Some(c) ==>
              Fastest(g, sel, cur, y, c) && (prior.Some? ==> !WorthKeeping(g, sel, cur, y, prior.value, c))
  {
    hide LatencyOf, Candidates;
    var cands := Candidates(g, sel, y);
    ChooseIsCandidate(g, sel, cur, y, prior);
    TimedAreGiven(g, sel, cur, cands);
    var timed := Timings(g, sel, cur, cands);
    forall c | c in cands && LatencyOf(g, sel, cur, c).Some?
      ensures timed != [] && Millis(Best(timed).1) <= LatencyOf(g, sel, cur, c).value
    {
      assert (c, LatencyOf(g, sel, cur, c)) in timed;
    }
  }

  /** What `SelectorGroup` establishes and `select` keeps. */
  ghost predicate SelectionsValid(g: Graph, sel: Choice) {
    forall x :: 0 <= x < |g| && g[x].Selector? && g[x].children != [] ==> x in sel && sel[x] in g[x].children
  }

  lemma {:induction false} HealthyLeaf(g: Graph, sel: Choice, cur: Choice, x: nat)
    requires Dag(g) && x < |g| && SelectionsValid(g, sel) && Settled(g, sel, cur, x)
    ensures var l := LeafOf(g, sel, cur, x);
            Healthy(g, sel, x) <==> g[l].Leaf? && g[l].healthy
    decreases x
  {
    match g[x]
    case Leaf(_, _) =>
    case UrlTest(cs, _) =>
      if Candidates(g, sel, x) != [] {
        assert Candidates(g, sel, x)[0] in Candidates(g, sel, x);
        ChooseIsCandidate(g, sel, cur, x, Some(cur[x]));
        HealthyLeaf(g, sel, cur, cur[x]);
      } else {
        assert forall c :: c in cs ==> c in Candidates(g, sel, x) || !Healthy(g, sel, c);
      }
    case Fallback(cs) =>
      if cs != [] {
        var healthy := Candidates(g, sel, x);
        HealthyLeaf(g, sel, cur, Target(g, sel, x));
        if healthy != [] {
          assert healthy[0] in healthy;
        } else {
          assert forall c :: c in cs ==> c in healthy || !Healthy(g, sel, c);
        }
      }
    case Selector(cs) =>
      if cs != [] {
        HealthyLeaf(g, sel, cur, Target(g, sel, x));
      }
  }

  /** A node is healthy exactly when it resolves to a real leaf that is itself healthy. */
  lemma HealthyResolvesToHealthyLeaf(g: Graph, sel: Choice, cur: Choice, x: nat)
    requires Dag(g) && x < |g| && ValidCurrent(g, cur) && SelectionsValid(g, sel)
    ensures var leaf := Resolve(g, sel, cur, x).0;
            Healthy(g, sel, x) <==> g[leaf].Leaf? && g[leaf].healthy
  {
    hide Resolve, Healthy;
    Resolves(g, sel, cur, x);
    HealthyLeaf(g, sel, Resolve(g, sel, cur, x).1, x);
  }

  /** The condition on selections is needed: a selector without a valid selection calls itself
      healthy for any healthy child but resolves to its first. */
  lemma StaleSelection()
    ensures var g := [Leaf(false, None), Leaf(true, None), Selector([0, 1])];
            Dag(g) && Healthy(g, map[], 2) && Resolve(g, map[], map[], 2).0 == 0 && !g[0].healthy
  {
    var g := [Leaf(false, None), Leaf(true, None), Selector([0, 1])];
    assert forall i :: 0 <= i < 2 ==> [0, 1][i] < 2;
    assert Dag(g);
    assert 1 in g[2].children && Healthy(g, map[], 1);
    assert Target(g, map[], 2) == 0;
    assert Resolve(g, map[], map[], 0) == (0, map[]);
  }
}
