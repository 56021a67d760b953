/** The outbounds at run time: leaves that count build failures and keep latency samples, and the
    groups above them, whose `_current` and `_selected` are updated in place. */
module OutboundTable {
  import opened Basics
  import opened Groups
  import opened GroupLaws
  import opened Meters

  /** The graph as it now is: the tables' shape with each tunnel leaf's own health and latency. */
  function NodesOf(shape: Graph, meters: map<nat, Meter>): (g: Graph)
    ensures |g| == |shape|
  {
    seq(|shape|, x requires 0 <= x < |shape| => if x in meters then meters[x].AsLeaf() else shape[x])
  }

  lemma ShapeOfNodes(shape: Graph, meters: map<nat, Meter>)
    requires Dag(shape) && forall x :: x in meters ==> x < |shape| && shape[x].Leaf?
    ensures Dag(NodesOf(shape, meters))
    ensures forall cur :: ValidCurrent(NodesOf(shape, meters), cur) <==> ValidCurrent(shape, cur)
    ensures forall sel :: SelectionsValid(NodesOf(shape, meters), sel) <==> SelectionsValid(shape, sel)
  {
    var g := NodesOf(shape, meters);
    assert forall x :: 0 <= x < |g| && !g[x].Leaf? ==> g[x] == shape[x];
    assert forall x :: 0 <= x < |g| && !shape[x].Leaf? ==> g[x] == shape[x];
    assert forall x :: 0 <= x < |g| ==> g[x].Leaf? == shape[x].Leaf?;
  }

  lemma NoCandidates(g: Graph, sel: Choice, cur: Choice, x: nat)
    requires Dag(g) && x < |g| && ValidCurrent(g, cur) && g[x].UrlTest? && Candidates(g, sel, x) == []
    ensures Resolve(g, sel, cur, x) == (x, cur)
  {}

  lemma MeasureNone(g: Graph, sel: Choice, cur: Choice, x: nat)
    requires Dag(g) && x < |g| && ValidCurrent(g, cur)
    ensures Measure(g, sel, cur, x, []) == ([], cur)
  {}

  lemma MeasureStep(g: Graph, sel: Choice, cur: Choice, x: nat, cs: seq<nat>, i: nat)
    requires Dag(g) && x < |g| && ValidCurrent(g, cur) && Below(cs, x) && i < |cs|
    ensures cs[i] < x && Below(cs[i..], x) && Below(cs[i + 1..], x)
    ensures var (first, cur1) := Latency(g, sel, cur, cs[i]);
            Measure(g, sel, cur, x, cs[i..])
            == if first.None? then Measure(g, sel, cur1, x, cs[i + 1..])
               else
                 var (second, cur2) := Latency(g, sel, cur1, cs[i]);
                 var (rest, cur3) := Measure(g, sel, cur2, x, cs[i + 1..]);
                 ([(cs[i], second)] + rest, cur3)
  {
    hide Latency;
    assert cs[i..][0] == cs[i] && cs[i..][1..] == cs[i + 1..];
  }

  lemma LogReads(g: Graph, sel: Choice, cur: Choice, x: nat, best: nat)
    requires Dag(g) && x < |g| && ValidCurrent(g, cur)
    ensures x in cur ==> cur[x] < |g|
    ensures LogSwitch(g, sel, cur, x, best)
         == if x !in cur || cur[x] == best then cur
            else
              var (first, cur1) := Latency(g, sel, cur, cur[x]);
              if first.None? then cur1 else Latency(g, sel, cur1, cur[x]).1
  {
    hide Latency;
  }

  type Reads = (seq<(nat, Option<real>)>, Choice)

  /** The samples read so far put before those still to be read. */
  ghost function Behind(timed: seq<(nat, Option<real>)>, more: Reads): Reads {
    (timed + more.0, more.1)
  }

  lemma NothingRead(more: Reads)
    ensures Behind([], more) == more
  {
    assert [] + more.0 == more.0;
  }

  lemma OneMoreRead(timed: seq<(nat, Option<real>)>, t: (nat, Option<real>), more: Reads)
    ensures Behind(timed, ([t] + more.0, more.1)) == Behind(timed + [t], more)
  {
    Assoc(timed, [t], more.0);
  }

  lemma AllRead(timed: seq<(nat, Option<real>)>, cur: Choice)
    ensures Behind(timed, ([], cur)) == (timed, cur)
  {
    assert timed + [] == timed;
  }

  lemma PickUntimed(g: Graph, sel: Choice, cur: Choice, x: nat, candidates: seq<nat>)
    requires Dag(g) && x < |g| && g[x].UrlTest? && ValidCurrent(g, cur) && candidates != []
    requires forall c :: c in candidates ==> c < x && c in g[x].children
    ensures var next := if x in cur && cur[x] in candidates then cur else cur[x := candidates[0]];
            ValidCurrent(g, next) && Pick(g, sel, cur, x, candidates, []) == (next[x], next)
  {}

  lemma PickTimed(g: Graph, sel: Choice, cur: Choice, x: nat, candidates: seq<nat>, timed: seq<(nat, Option<real>)>)
    requires Dag(g) && x < |g| && g[x].UrlTest? && ValidCurrent(g, cur) && candidates != [] && timed != []
    requires forall c :: c in candidates ==> c < x && c in g[x].children
    requires forall t :: t in timed ==> t.0 in candidates
    ensures var best := Best(timed);
            var (keep, cur1) := KeepsCurrent(g, sel, cur, x, candidates, Millis(best.1), g[x].tolerance);
            var next := if keep then cur1 else LogSwitch(g, sel, cur1, x, best.0)[x := best.0];
            x in next && ValidCurrent(g, next) && Pick(g, sel, cur, x, candidates, timed) == (next[x], next)
  {
    hide Best, KeepsCurrent, LogSwitch;
    var (keep, cur1) := KeepsCurrent(g, sel, cur, x, candidates, Millis(Best(timed).1), g[x].tolerance);
    assert Get(cur1, x) == Get(cur, x);
  }

  class Outbounds {
    /** The table as built; tunnel leaves are those with a meter. */
    const shape: Graph
    var meters: map<nat, Meter>
    var current: Choice
    var selected: Choice

    /** Kept by every method: tunnel leaves stay leaves, current children are children, and every
        selector's selection is one of its children. */
    ghost predicate Valid()
      reads this
    {
      && Dag(shape)
      && (forall x :: x in meters ==> x < |shape| && shape[x].Leaf?)
      && ValidCurrent(shape, current)
      && SelectionsValid(shape, selected)
    }

    constructor (shape: Graph, tunnels: set<nat>, defaults: Choice)
      requires Dag(shape) && forall x :: x in tunnels ==> x < |shape| && shape[x].Leaf?
      requires SelectionsValid(shape, defaults)
      ensures Valid() && this.shape == shape && selected == defaults
      ensures meters == map x | x in tunnels :: FRESH
      ensures forall x :: 0 <= x < |shape| && shape[x].UrlTest? && shape[x].children != [] ==>
                Get(current, x) == Some(shape[x].children[0])
    {
      this.shape := shape;
      meters := map x | x in tunnels :: FRESH;
      current := map x | 0 <= x < |shape| && shape[x].UrlTest? && shape[x].children != [] :: shape[x].children[0];
      selected := defaults;
    }

    /** `_record_latency`: a bounded window of samples; any success clears the failures. */
    method RecordLatency(x: nat, ms: real)
      requires Valid() && x in meters
      modifies `meters
      ensures Valid()
      ensures meters == old(meters)[x := old(meters[x]).After(Built(ms))]
    {
      var all := meters[x].samples + [ms];
      if |all| > LATENCY_WINDOW {
        all := all[|all| - LATENCY_WINDOW..];
      }
      meters := meters[x := Meter(all, 0)];
    }

    method RecordFailure(x: nat)
      requires Valid() && x in meters
      modifies `meters
      ensures Valid()
      ensures meters == old(meters)[x := old(meters[x]).After(Failed)]
    {
      meters := meters[x := Meter(meters[x].samples, meters[x].failures + 1)];
    }

    /** `select`: only a direct child can be selected. */
    method Select(x: nat, child: nat) returns (ok: bool)
      requires Valid() && x < |shape| && shape[x].Selector?
      modifies `selected
      ensures Valid() && ok == (child in shape[x].children)
      ensures selected == if ok then old(selected)[x := child] else old(selected)
    {
      ok := child in shape[x].children;
      if ok {
        selected := selected[x := child];
      }
    }

    /** `latency_ms` of any outbound. */
    method LatencyMs(x: nat) returns (sample: Option<real>)
      requires Valid() && x < |shape|
      modifies `current
      ensures Valid()
      ensures Dag(NodesOf(shape, meters)) && ValidCurrent(NodesOf(shape, meters), old(current))
      ensures (sample, current) == Latency(NodesOf(shape, meters), selected, old(current), x)
      decreases x, 3, 0
    {
      ShapeOfNodes(shape, meters);
      var g := NodesOf(shape, meters);
      if g[x].Leaf? {
        return g[x].latency;
      }
      var leaf := ResolveLeaf(x);
      if leaf == x {
        return None;
      }
      sample := LatencyMs(leaf);
    }

    /** `resolve_leaf` of any outbound. */
    method ResolveLeaf(x: nat) returns (leaf: nat)
      requires Valid() && x < |shape|
      modifies `current
      ensures Valid()
      ensures Dag(NodesOf(shape, meters)) && ValidCurrent(NodesOf(shape, meters), old(current))
      ensures (leaf, current) == Resolve(NodesOf(shape, meters), selected, old(current), x)
      decreases x, 2, 0
    {
      ShapeOfNodes(shape, meters);
      var g := NodesOf(shape, meters);
      if g[x].Leaf? {
        return x;
      } else if g[x].UrlTest? {
        leaf := ResolveUrlTestLeaf(x);
      } else if g[x].children == [] {
        return x;
      } else {
        leaf := ResolveLeaf(Target(g, selected, x));
      }
    }

    method ResolveUrlTestLeaf(x: nat) returns (leaf: nat)
      requires Valid() && x < |shape| && NodesOf(shape, meters)[x].UrlTest?
      modifies `current
      ensures Valid()
      ensures Dag(NodesOf(shape, meters)) && ValidCurrent(NodesOf(shape, meters), old(current))
      ensures (leaf, current) == Resolve(NodesOf(shape, meters), selected, old(current), x)
      decreases x, 1, 4
    {
      ShapeOfNodes(shape, meters);
      hide Measure, Pick, Latency, Candidates, Resolve, Dag, ValidCurrent, SelectionsValid, NodesOf;
      var g := NodesOf(shape, meters);
      var candidates := Candidates(g, selected, x);
      if candidates == [] {
        NoCandidates(g, selected, current, x);
        return x;
      }
      var child := ChooseChild(x, candidates);
      leaf := ResolveLeaf(child);
    }

    /** Measuring the candidates and choosing: the node then resolves as its child does. */
    method ChooseChild(x: nat, candidates: seq<nat>) returns (child: nat)
      requires Valid() && x < |shape| && NodesOf(shape, meters)[x].UrlTest? && Dag(NodesOf(shape, meters))
      requires candidates == Candidates(NodesOf(shape, meters), selected, x) != []
      modifies `current
      ensures Valid()
      ensures ValidCurrent(NodesOf(shape, meters), old(current)) && ValidCurrent(NodesOf(shape, meters), current)
      ensures child < x && Resolve(NodesOf(shape, meters), selected, old(current), x)
                        == Resolve(NodesOf(shape, meters), selected, current, child)
      decreases x, 1, 3
    {
      ShapeOfNodes(shape, meters);
      hide Measure, Pick, Latency, Candidates, Resolve, Dag, ValidCurrent, SelectionsValid, NodesOf;
      ResolveByPick(NodesOf(shape, meters), selected, current, x);
      var timed := MeasureAll(x, candidates);
      child := PickChild(x, candidates, timed);
    }

    /** The choice among the candidates: the current child if it will do, else the best. */
    method PickChild(x: nat, candidates: seq<nat>, timed: seq<(nat, Option<real>)>) returns (child: nat)
      requires Valid() && x < |shape| && shape[x].UrlTest? && candidates != []
      requires forall c :: c in candidates ==> c < x && c in shape[x].children
      requires forall t :: t in timed ==> t.0 in candidates
      modifies `current
      ensures Valid()
      ensures Dag(NodesOf(shape, meters)) && ValidCurrent(NodesOf(shape, meters), old(current))
      ensures NodesOf(shape, meters)[x].UrlTest? && NodesOf(shape, meters)[x].children == shape[x].children
      ensures (child, current) == Pick(NodesOf(shape, meters), selected, old(current), x, candidates, timed)
      decreases x, 1, 2
    {
      ShapeOfNodes(shape, meters);
      hide Pick, Latency, KeepsCurrent, LogSwitch, Best, ValidCurrent, SelectionsValid, NodesOf, Dag;
      var g := NodesOf(shape, meters);
      if timed == [] {
        PickUntimed(g, selected, current, x, candidates);
        if x !in current || current[x] !in candidates {
          current := current[x := candidates[0]];
        }
        return current[x];
      }
      PickTimed(g, selected, current, x, candidates, timed);
      var best := Best(timed);
      var keep := TestCurrent(x, candidates, Millis(best.1), g[x].tolerance);
      if !keep {
        SwitchTo(x, best.0);
      }
      return current[x];
    }

    method SwitchTo(x: nat, best: nat)
      requires Valid() && x < |shape| && shape[x].UrlTest? && best in shape[x].children
      modifies `current
      ensures Valid()
      ensures Dag(NodesOf(shape, meters)) && ValidCurrent(NodesOf(shape, meters), old(current))
      ensures current == LogSwitch(NodesOf(shape, meters), selected, old(current), x, best)[x := best]
      decreases x, 1, 1
    {
      hide NodesOf, LogSwitch, Dag, SelectionsValid;
      LogOldLatency(x, best);
      current := current[x := best];
    }

    /** The reads made by the log line of a switch. */
    method LogOldLatency(x: nat, best: nat)
      requires Valid() && x < |shape|
      modifies `current
      ensures Valid()
      ensures Dag(NodesOf(shape, meters)) && ValidCurrent(NodesOf(shape, meters), old(current))
      ensures current == LogSwitch(NodesOf(shape, meters), selected, old(current), x, best)
      decreases x, 1, 0
    {
      ShapeOfNodes(shape, meters);
      hide Latency, LogSwitch, NodesOf, Dag, ValidCurrent, SelectionsValid;
      LogReads(NodesOf(shape, meters), selected, current, x, best);
      if x in current && current[x] != best {
        var child := current[x];
        var sample := LatencyMs(child);
        if sample.Some? {
          sample := LatencyMs(child);
        }
      }
    }

    /** The candidates with a sample, each read twice. */
    method MeasureAll(x: nat, cs: seq<nat>) returns (timed: seq<(nat, Option<real>)>)
      requires Valid() && x < |shape| && Below(cs, x)
      modifies `current
      ensures Valid()
      ensures Dag(NodesOf(shape, meters)) && ValidCurrent(NodesOf(shape, meters), old(current))
      ensures (timed, current) == Measure(NodesOf(shape, meters), selected, old(current), x, cs)
      decreases x, 1, 0
    {
      ShapeOfNodes(shape, meters);
      hide Latency, Measure, NodesOf, Dag, ValidCurrent, SelectionsValid, Below, Behind;
      var g := NodesOf(shape, meters);
      ghost var all := Measure(g, selected, current, x, cs);
      timed := [];
      var i := 0;
      assert cs[0..] == cs;
      NothingRead(all);
      while i < |cs|
        invariant 0 <= i <= |cs|
        invariant Valid() && ValidCurrent(g, current) && Below(cs[i..], x)
        invariant Behind(timed, Measure(g, selected, current, x, cs[i..])) == all
      {
        var c := cs[i];
        MeasureStep(g, selected, current, x, cs, i);
        var first := LatencyMs(c);
        if first.Some? {
          var second := LatencyMs(c);
          OneMoreRead(timed, (c, second), Measure(g, selected, current, x, cs[i + 1..]));
          timed := timed + [(c, second)];
        }
        i := i + 1;
      }
      MeasureNone(g, selected, current, x);
      assert cs[i..] == [];
      AllRead(timed, current);
    }

    /** The hysteresis test on the current child. */
    method TestCurrent(x: nat, candidates: seq<nat>, best: real, tolerance: real) returns (keep: bool)
      requires Valid() && x < |shape|
      modifies `current
      ensures Valid()
      ensures Dag(NodesOf(shape, meters)) && ValidCurrent(NodesOf(shape, meters), old(current))
      ensures (keep, current)
           == KeepsCurrent(NodesOf(shape, meters), selected, old(current), x, candidates, best, tolerance)
      decreases x, 1, 0
    {
      ShapeOfNodes(shape, meters);
      hide Latency;
      if x !in current || current[x] !in candidates {
        return false;
      }
      var child := current[x];
      var first := LatencyMs(child);
      if first.None? {
        return false;
      }
      var second := LatencyMs(child);
      keep := Millis(second) - best < tolerance;
    }
  }
}
