/** Outbound groups: which leaf a group resolves to. Resolving a url-test group reads its children's
    latencies, and reading a nested group's latency resolves that group in turn, so a read can
    change choices all over the graph. Nodes are numbered so that children come before groups. */
module Groups {
  import opened Basics

  datatype Node =
    | Leaf(healthy: bool, latency: Option<real>)
    | UrlTest(children: seq<nat>, tolerance: real)
    | Fallback(children: seq<nat>)
    | Selector(children: seq<nat>)

  type Graph = seq<Node>

  /** Children come before the groups that use them. */
  predicate Dag(g: Graph) {
    forall x :: 0 <= x < |g| && !g[x].Leaf? ==> Below(g[x].children, x)
  }

  predicate Below(cs: seq<nat>, bound: nat) {
    forall i :: 0 <= i < |cs| ==> cs[i] < bound
  }

  /** Group to child: `_current` of url-test groups, `_selected` of selectors. */
  type Choice = map<nat, nat>

  function Get(m: Choice, x: nat): Option<nat> {
    if x in m then Some(m[x]) else None
  }

  predicate ValidCurrent(g: Graph, cur: Choice) {
    forall x :: x in cur ==> x < |g| && g[x].UrlTest? && cur[x] in g[x].children
  }

  /** `is_healthy`: a selector answers for its selected child, other groups for any child. */
  predicate Healthy(g: Graph, sel: Choice, x: nat)
    requires Dag(g) && x < |g|
    decreases x
  {
    match g[x]
    case Leaf(healthy, _) => healthy
    case Selector(cs) =>
      if x in sel && sel[x] in cs then Healthy(g, sel, sel[x]) else exists c :: c in cs && Healthy(g, sel, c)
    case _ => exists c :: c in g[x].children && Healthy(g, sel, c)
  }

  function HealthyOf(g: Graph, sel: Choice, cs: seq<nat>): (r: seq<nat>)
    requires Dag(g) && Below(cs, |g|)
    ensures forall c :: c in r <==> c in cs && Healthy(g, sel, c)
  {
    if cs == [] then []
    else (if Healthy(g, sel, cs[0]) then [cs[0]] else []) + HealthyOf(g, sel, cs[1..])
  }

  /** The healthy children of a group, in order. */
  function Candidates(g: Graph, sel: Choice, x: nat): (r: seq<nat>)
    requires Dag(g) && x < |g| && !g[x].Leaf?
    ensures Below(r, x)
    ensures forall c :: c in r ==> c < x
    ensures forall c :: c in r <==> c in g[x].children && Healthy(g, sel, c)
  {
    var r := HealthyOf(g, sel, g[x].children);
    assert forall i :: 0 <= i < |r| ==> r[i] in r;
    r
  }

  /** The child that a fallback group or a selector passes to. */
  function Target(g: Graph, sel: Choice, x: nat): (c: nat)
    requires Dag(g) && x < |g| && (g[x].Fallback? || g[x].Selector?) && g[x].children != []
    ensures c < x && c in g[x].children
  {
    assert Below(g[x].children, x);
    if g[x].Selector? then
      if x in sel && sel[x] in g[x].children then sel[x] else g[x].children[0]
    else
      var healthy := Candidates(g, sel, x);
      if healthy != [] then healthy[0] else g[x].children[0]
  }

  // ---- resolution as the source does it, threading `_current` through every read -------------

  /** `resolve_leaf`: the node reached, and all choices afterwards. */
  function Resolve(g: Graph, sel: Choice, cur: Choice, x: nat): (r: (nat, Choice))
    requires Dag(g) && x < |g| && ValidCurrent(g, cur)
    ensures r.0 <= x && ValidCurrent(g, r.1)
    ensures forall y :: y > x ==> Get(r.1, y) == Get(cur, y)
    decreases x, 2, 0
  {
    match g[x]
    case Leaf(_, _) => (x, cur)
    case UrlTest(cs, _) =>
      var candidates := Candidates(g, sel, x);
      if candidates == [] then (x, cur)
      else
        var (timed, cur1) := Measure(g, sel, cur, x, candidates);
        var (child, cur2) := Pick(g, sel, cur1, x, candidates, timed);
        Resolve(g, sel, cur2, child)
    case _ =>
      if g[x].children == [] then (x, cur) else Resolve(g, sel, cur, Target(g, sel, x))
  }

  /** `latency_ms`: reading it resolves the node. */
  function Latency(g: Graph, sel: Choice, cur: Choice, x: nat): (r: (Option<real>, Choice))
    requires Dag(g) && x < |g| && ValidCurrent(g, cur)
    ensures ValidCurrent(g, r.1)
    ensures forall y :: y > x ==> Get(r.1, y) == Get(cur, y)
    decreases x, 3, 0
  {
    if g[x].Leaf? then (g[x].latency, cur)
    else
      var (leaf, cur1) := Resolve(g, sel, cur, x);
      if leaf == x then (None, cur1) else Latency(g, sel, cur1, leaf)
  }

  /** The list of candidates with a sample; each sample is read twice. */
  function Measure(g: Graph, sel: Choice, cur: Choice, x: nat, cs: seq<nat>): (r: (seq<(nat, Option<real>)>, Choice))
    requires Dag(g) && x < |g| && ValidCurrent(g, cur) && Below(cs, x)
    ensures ValidCurrent(g, r.1)
    ensures forall y :: y >= x ==> Get(r.1, y) == Get(cur, y)
    ensures forall t :: t in r.0 ==> t.0 in cs
    decreases x, 1, |cs|
  {
    if cs == [] then ([], cur)
    else
      var (first, cur1) := Latency(g, sel, cur, cs[0]);
      if first.None? then Measure(g, sel, cur1, x, cs[1..])
      else
        var (second, cur2) := Latency(g, sel, cur1, cs[0]);
        var (rest, cur3) := Measure(g, sel, cur2, x, cs[1..]);
        ([(cs[0], second)] + rest, cur3)
  }

  /** A sample as a number. (A second read never comes back empty: see SettledStays.) */
  function Millis(sample: Option<real>): real {
    if sample.Some? then sample.value else 0.0
  }

  /** `min` by latency: the first of the least. */
  function Best(timed: seq<(nat, Option<real>)>): (b: (nat, Option<real>))
    requires timed != []
    ensures b in timed
    ensures forall t :: t in timed ==> Millis(b.1) <= Millis(t.1)
  {
    if |timed| == 1 then timed[0]
    else
      var rest := Best(timed[1..]);
      if Millis(timed[0].1) <= Millis(rest.1) then timed[0] else rest
  }

  /** The child chosen among the candidates, given their samples. */
  function Pick(g: Graph, sel: Choice, cur: Choice, x: nat, candidates: seq<nat>, timed: seq<(nat, Option<real>)>)
    : (r: (nat, Choice))
    requires Dag(g) && x < |g| && g[x].UrlTest? && ValidCurrent(g, cur) && candidates != []
    requires forall c :: c in candidates ==> c < x && c in g[x].children
    requires forall t :: t in timed ==> t.0 in candidates
    ensures r.0 in candidates && ValidCurrent(g, r.1) && Get(r.1, x) == Some(r.0)
    ensures forall y :: y > x ==> Get(r.1, y) == Get(cur, y)
    decreases x, 1, 1
  {
    if timed == [] then
      if x in cur && cur[x] in candidates then (cur[x], cur) else (candidates[0], cur[x := candidates[0]])
    else
      var best := Best(timed);
      var (keep, cur1) := KeepsCurrent(g, sel, cur, x, candidates, Millis(best.1), g[x].tolerance);
      if keep then (assert Get(cur1, x) == Get(cur, x); (cur1[x], cur1))
      else (best.0, LogSwitch(g, sel, cur1, x, best.0)[x := best.0])
  }

  /** The hysteresis test on the current child. */
  function KeepsCurrent(g: Graph, sel: Choice, cur: Choice, x: nat, candidates: seq<nat>, best: real, tolerance: real): (r: (bool, Choice))
    requires Dag(g) && x < |g| && ValidCurrent(g, cur)
    ensures ValidCurrent(g, r.1)
    ensures forall y :: y >= x ==> Get(r.1, y) == Get(cur, y)
    ensures r.0 ==> x in cur && cur[x] in candidates
    decreases x, 1, 0
  {
    if x !in cur || cur[x] !in candidates then (false, cur)
    else
      var (first, cur1) := Latency(g, sel, cur, cur[x]);
      if first.None? then (false, cur1)
      else
        var (second, cur2) := Latency(g, sel, cur1, cur[x]);
        (Millis(second) - best < tolerance, cur2)
  }

  /** The log line on a switch reads the old child's latency, up to twice. */
  function LogSwitch(g: Graph, sel: Choice, cur: Choice, x: nat, best: nat): (r: Choice)
    requires Dag(g) && x < |g| && ValidCurrent(g, cur)
    ensures ValidCurrent(g, r)
    ensures forall y :: y >= x ==> Get(r, y) == Get(cur, y)
    decreases x, 1, 0
  {
    if x !in cur || cur[x] == best then cur
    else
      var (first, cur1) := Latency(g, sel, cur, cur[x]);
      if first.None? then cur1 else Latency(g, sel, cur1, cur[x]).1
  }

  // ---- what it comes to ----------------------------------------------------------------------

  /** The node reached by following the choices as they are. */
  function LeafOf(g: Graph, sel: Choice, cur: Choice, x: nat): (l: nat)
    requires Dag(g) && x < |g|
    ensures l <= x
    decreases x
  {
    match g[x]
    case Leaf(_, _) => x
    case UrlTest(_, _) =>
      if x in cur && cur[x] in Candidates(g, sel, x) then LeafOf(g, sel, cur, cur[x]) else x
    case _ =>
      if g[x].children == [] then x else LeafOf(g, sel, cur, Target(g, sel, x))
  }

  function LatencyOf(g: Graph, sel: Choice, cur: Choice, x: nat): Option<real>
    requires Dag(g) && x < |g|
  {
    var l := LeafOf(g, sel, cur, x);
    if g[l].Leaf? then g[l].latency else None
  }

  function Timings(g: Graph, sel: Choice, cur: Choice, cs: seq<nat>): seq<(nat, Option<real>)>
    requires Dag(g) && Below(cs, |g|)
  {
    if cs == [] then []
    else
      var rest := Timings(g, sel, cur, cs[1..]);
      var sample := LatencyOf(g, sel, cur, cs[0]);
      if sample.None? then rest else [(cs[0], sample)] + rest
  }

  /** The child a url-test group with healthy children should use, given the one it used before. */
  function Choose(g: Graph, sel: Choice, cur: Choice, x: nat, prior: Option<nat>): (c: nat)
    requires Dag(g) && x < |g| && g[x].UrlTest? && Candidates(g, sel, x) != []
  {
    var candidates := Candidates(g, sel, x);
    var timed := Timings(g, sel, cur, candidates);
    if timed == [] then
      if prior.Some? && prior.value in candidates then prior.value else candidates[0]
    else
      var best := Best(timed);
      if prior.Some? && prior.value in candidates && LatencyOf(g, sel, cur, prior.value).Some?
         && Millis(LatencyOf(g, sel, cur, prior.value)) - Millis(best.1) < g[x].tolerance
      then prior.value else best.0
  }

  /** Every choice that resolving x looks at is the one it would make again. */
  ghost predicate Settled(g: Graph, sel: Choice, cur: Choice, x: nat)
    requires Dag(g) && x < |g|
    decreases x
  {
    match g[x]
    case Leaf(_, _) => true
    case UrlTest(_, _) =>
      Candidates(g, sel, x) == [] ||
      ((forall c :: c in Candidates(g, sel, x) ==> Settled(g, sel, cur, c))
       && x in cur && cur[x] == Choose(g, sel, cur, x, Some(cur[x])))
    case _ =>
      g[x].children == [] || Settled(g, sel, cur, Target(g, sel, x))
  }

  /** From `cur` to `next`, settled choices are kept, and a changed choice is the one the rule picks
      from the old child and the final latencies. */
  ghost predicate Evolves(g: Graph, sel: Choice, cur: Choice, next: Choice)
    requires Dag(g)
  {
    && (forall y :: 0 <= y < |g| && Settled(g, sel, cur, y) ==> Get(next, y) == Get(cur, y))
    && (forall y :: 0 <= y && Get(next, y) != Get(cur, y) ==> Justified(g, sel, cur, next, y))
  }

  ghost predicate Justified(g: Graph, sel: Choice, cur: Choice, next: Choice, y: nat)
    requires Dag(g)
  {
    && y < |g| && g[y].UrlTest? && Candidates(g, sel, y) != []
    && Settled(g, sel, next, y)
    && Get(next, y) == Some(Choose(g, sel, next, y, Get(cur, y)))
  }
}
