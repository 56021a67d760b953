/** Which child each kind of group goes on to, in terms of its children in the order configured. */
module GroupRules {
  import opened Basics
  import opened Groups
  import opened GroupLaws

  /** Child i is the first healthy one. */
  ghost predicate FirstHealthy(g: Graph, sel: Choice, cs: seq<nat>, i: nat)
    requires Dag(g) && Below(cs, |g|)
  {
    i < |cs| && Healthy(g, sel, cs[i]) && forall j :: 0 <= j < i ==> !Healthy(g, sel, cs[j])
  }

  ghost predicate NoneHealthy(g: Graph, sel: Choice, cs: seq<nat>)
    requires Dag(g) && Below(cs, |g|)
  {
    forall j :: 0 <= j < |cs| ==> !Healthy(g, sel, cs[j])
  }

  lemma {:induction false} HeadOfHealthy(g: Graph, sel: Choice, cs: seq<nat>, i: nat)
    requires Dag(g) && Below(cs, |g|) && FirstHealthy(g, sel, cs, i)
    ensures HealthyOf(g, sel, cs) != [] && HealthyOf(g, sel, cs)[0] == cs[i]
    decreases |cs|
  {
    hide Healthy;
    if i > 0 {
      assert !Healthy(g, sel, cs[0]);
      HeadOfHealthy(g, sel, cs[1..], i - 1);
      assert [] + HealthyOf(g, sel, cs[1..]) == HealthyOf(g, sel, cs[1..]);
    }
  }

  lemma {:induction false} NothingHealthy(g: Graph, sel: Choice, cs: seq<nat>)
    requires Dag(g) && Below(cs, |g|) && NoneHealthy(g, sel, cs)
    ensures HealthyOf(g, sel, cs) == []
  {
    hide Healthy;
    if cs != [] {
      assert !Healthy(g, sel, cs[0]);
      NothingHealthy(g, sel, cs[1..]);
    }
  }

  lemma ChildrenBelow(g: Graph, x: nat)
    requires Dag(g) && x < |g| && !g[x].Leaf?
    ensures Below(g[x].children, x) && Below(g[x].children, |g|)
  {}

  /** A fallback group resolves as its first healthy child, whatever comes after that one. */
  lemma FallbackTakesFirst(g: Graph, sel: Choice, cur: Choice, x: nat, i: nat)
    requires Dag(g) && x < |g| && ValidCurrent(g, cur) && g[x].Fallback? && Below(g[x].children, |g|)
    requires FirstHealthy(g, sel, g[x].children, i)
    ensures Resolve(g, sel, cur, x) == Resolve(g, sel, cur, g[x].children[i])
  {
    hide Healthy;
    HeadOfHealthy(g, sel, g[x].children, i);
  }

  /** With no healthy child it resolves as its first, so that the failure shows; with none at all, as itself. */
  lemma FallbackWithoutHealthy(g: Graph, sel: Choice, cur: Choice, x: nat)
    requires Dag(g) && x < |g| && ValidCurrent(g, cur) && g[x].Fallback? && Below(g[x].children, |g|)
    requires NoneHealthy(g, sel, g[x].children)
    ensures Resolve(g, sel, cur, x) == if g[x].children == [] then (x, cur) else Resolve(g, sel, cur, g[x].children[0])
  {
    hide Healthy;
    NothingHealthy(g, sel, g[x].children);
  }

  /** A selector resolves as the child selected, healthy or not; as its first if the selection is no child. */
  lemma SelectorTakesSelected(g: Graph, sel: Choice, cur: Choice, x: nat)
    requires Dag(g) && x < |g| && ValidCurrent(g, cur) && g[x].Selector? && Below(g[x].children, |g|)
    ensures x in sel && sel[x] in g[x].children ==> sel[x] < x && Resolve(g, sel, cur, x) == Resolve(g, sel, cur, sel[x])
    ensures !(x in sel && sel[x] in g[x].children) ==>
      Resolve(g, sel, cur, x) == if g[x].children == [] then (x, cur) else Resolve(g, sel, cur, g[x].children[0])
  {
    ChildrenBelow(g, x);
  }

  // ---- url-test ------------------------------------------------------------------------------

  /** A healthy child with a sample. */
  ghost predicate Timed(g: Graph, sel: Choice, cur: Choice, c: nat)
    requires Dag(g) && c < |g|
  {
    Healthy(g, sel, c) && LatencyOf(g, sel, cur, c).Some?
  }

  /** Child i is the fastest of the healthy children with a sample, the first of them among equals. */
  ghost predicate FirstFastest(g: Graph, sel: Choice, cur: Choice, cs: seq<nat>, i: nat)
    requires Dag(g) && Below(cs, |g|)
  {
    && i < |cs| && Timed(g, sel, cur, cs[i])
    && forall j :: 0 <= j < |cs| && Timed(g, sel, cur, cs[j]) ==>
         if j < i then LatencyOf(g, sel, cur, cs[i]).value < LatencyOf(g, sel, cur, cs[j]).value
         else LatencyOf(g, sel, cur, cs[i]).value <= LatencyOf(g, sel, cur, cs[j]).value
  }

  lemma {:induction false} BestOfHealthy(g: Graph, sel: Choice, cur: Choice, cs: seq<nat>) returns (i: nat)
    requires Dag(g) && Below(cs, |g|) && Below(HealthyOf(g, sel, cs), |g|)
    requires Timings(g, sel, cur, HealthyOf(g, sel, cs)) != []
    ensures FirstFastest(g, sel, cur, cs, i)
    ensures Best(Timings(g, sel, cur, HealthyOf(g, sel, cs))) == (cs[i], LatencyOf(g, sel, cur, cs[i]))
    decreases |cs|
  {
    hide LatencyOf, Healthy, Best, HealthyOf, Timings, Timed, FirstFastest;
    HealthyNone(g, sel, cur);
    var first, rest := cs[0], cs[1..];
    HealthyBelow(g, sel, rest);
    HealthyStep(g, sel, cur, cs);
    var later := Timings(g, sel, cur, HealthyOf(g, sel, rest));
    if later == [] {
      NoneTimed(g, sel, cur, rest);
      BestOfOne((first, LatencyOf(g, sel, cur, first)));
      OnlyFirst(g, sel, cur, cs);
      i := 0;
    } else {
      var k := BestOfHealthy(g, sel, cur, rest);
      FastestStep(g, sel, cur, cs, k);
      BestOfMore((first, LatencyOf(g, sel, cur, first)), later);
      i := if FirstIsFastest(g, sel, cur, cs, k) then 0 else k + 1;
    }
  }

  lemma OnlyFirst(g: Graph, sel: Choice, cur: Choice, cs: seq<nat>)
    requires Dag(g) && Below(cs, |g|) && cs != [] && Timed(g, sel, cur, cs[0])
    requires forall i :: 0 <= i < |cs[1..]| ==> !Timed(g, sel, cur, cs[1..][i])
    ensures FirstFastest(g, sel, cur, cs, 0)
  {
    hide LatencyOf, Healthy;
    assert forall j :: 0 < j < |cs| ==> cs[j] == cs[1..][j - 1];
  }

  /** Is the first child at least as fast as the k-th behind it? */
  ghost predicate FirstIsFastest(g: Graph, sel: Choice, cur: Choice, cs: seq<nat>, k: nat)
    requires Dag(g) && Below(cs, |g|) && k + 1 < |cs|
  {
    Timed(g, sel, cur, cs[0]) && Millis(LatencyOf(g, sel, cur, cs[0])) <= Millis(LatencyOf(g, sel, cur, cs[k + 1]))
  }

  lemma FastestStep(g: Graph, sel: Choice, cur: Choice, cs: seq<nat>, k: nat)
    requires Dag(g) && Below(cs, |g|) && cs != [] && FirstFastest(g, sel, cur, cs[1..], k)
    ensures k + 1 < |cs| && cs[k + 1] == cs[1..][k]
    ensures FirstFastest(g, sel, cur, cs, if FirstIsFastest(g, sel, cur, cs, k) then 0 else k + 1)
  {
    hide LatencyOf, Healthy;
    assert forall j :: 0 < j < |cs| ==> cs[j] == cs[1..][j - 1];
  }

  lemma HealthyNone(g: Graph, sel: Choice, cur: Choice)
    requires Dag(g)
    ensures HealthyOf(g, sel, []) == [] && Timings(g, sel, cur, []) == []
  {}

  lemma HealthyBelow(g: Graph, sel: Choice, cs: seq<nat>)
    requires Dag(g) && Below(cs, |g|)
    ensures Below(HealthyOf(g, sel, cs), |g|)
  {
    var healthy := HealthyOf(g, sel, cs);
    forall i | 0 <= i < |healthy| ensures healthy[i] < |g| {
      assert healthy[i] in healthy;
    }
  }

  lemma HealthyStep(g: Graph, sel: Choice, cur: Choice, cs: seq<nat>)
    requires Dag(g) && Below(cs, |g|) && cs != [] && Below(HealthyOf(g, sel, cs), |g|) && Below(HealthyOf(g, sel, cs[1..]), |g|)
    ensures var later := Timings(g, sel, cur, HealthyOf(g, sel, cs[1..]));
            Timings(g, sel, cur, HealthyOf(g, sel, cs))
            == if Timed(g, sel, cur, cs[0]) then [(cs[0], LatencyOf(g, sel, cur, cs[0]))] + later else later
  {
    hide LatencyOf, Healthy;
    var more := HealthyOf(g, sel, cs[1..]);
    assert [] + more == more && ([cs[0]] + more)[1..] == more;
  }

  lemma NoneTimed(g: Graph, sel: Choice, cur: Choice, cs: seq<nat>)
    requires Dag(g) && Below(cs, |g|) && Below(HealthyOf(g, sel, cs), |g|)
    ensures Timings(g, sel, cur, HealthyOf(g, sel, cs)) == [] <==> forall i :: 0 <= i < |cs| ==> !Timed(g, sel, cur, cs[i])
  {
    hide LatencyOf, Healthy;
    TimedAreGiven(g, sel, cur, HealthyOf(g, sel, cs));
    var timed := Timings(g, sel, cur, HealthyOf(g, sel, cs));
    if timed != [] {
      assert timed[0] in timed;
      var i :| 0 <= i < |cs| && cs[i] == timed[0].0;
    }
    forall i | 0 <= i < |cs| && Timed(g, sel, cur, cs[i]) ensures timed != [] {
      assert (cs[i], LatencyOf(g, sel, cur, cs[i])) in timed;
    }
  }

  lemma BestOfOne(t: (nat, Option<real>))
    ensures Best([t]) == t
  {}

  lemma BestOfMore(t: (nat, Option<real>), later: seq<(nat, Option<real>)>)
    requires later != []
    ensures Best([t] + later) == if Millis(t.1) <= Millis(Best(later).1) then t else Best(later)
  {
    assert ([t] + later)[1..] == later;
  }

  /** May the former choice stay, the fastest child being `best`? */
  ghost predicate MayStay(g: Graph, sel: Choice, cur: Choice, x: nat, former: Option<nat>, best: nat)
    requires Dag(g) && x < |g| && g[x].UrlTest? && best < |g|
  {
    && former.Some? && former.value < |g| && former.value in g[x].children && Timed(g, sel, cur, former.value)
    && LatencyOf(g, sel, cur, best).Some?
    && LatencyOf(g, sel, cur, former.value).value - LatencyOf(g, sel, cur, best).value < g[x].tolerance
  }

  /** Without a healthy child a url-test group resolves to itself. */
  lemma UrlTestWithoutHealthy(g: Graph, sel: Choice, cur: Choice, x: nat)
    requires Dag(g) && x < |g| && ValidCurrent(g, cur) && g[x].UrlTest? && Below(g[x].children, |g|)
    requires NoneHealthy(g, sel, g[x].children)
    ensures Resolve(g, sel, cur, x) == (x, cur)
  {
    hide Healthy;
    NothingHealthy(g, sel, g[x].children);
  }

  /** It resolves as the child it chooses, which becomes its current one. */
  lemma UrlTestFollowsChoice(g: Graph, sel: Choice, cur: Choice, x: nat) returns (c: nat)
    requires Dag(g) && x < |g| && ValidCurrent(g, cur) && g[x].UrlTest? && Candidates(g, sel, x) != []
    ensures var next := Resolve(g, sel, cur, x).1;
            Get(next, x) == Some(c) && c < x && ValidCurrent(g, next)
            && Resolve(g, sel, cur, x) == Resolve(g, sel, next, c)
            && c == Choose(g, sel, next, x, Get(cur, x))
  {
    hide Resolve, Choose, Candidates, LatencyOf;
    var next := Resolve(g, sel, cur, x).1;
    Resolves(g, sel, cur, x);
    CurrentFollowsRule(g, sel, cur, x);
    ChooseIsCandidate(g, sel, next, x, Get(cur, x));
    c := next[x];
    LeafOfPick(g, sel, next, x);
    ReadSettled(g, sel, next, c);
  }

  /** With samples among its healthy children: the former choice if it is healthy, has a sample and is less than
      the tolerance slower than the fastest, else the fastest, the first of them among equals. */
  lemma UrlTestTakesFastest(g: Graph, sel: Choice, cur: Choice, x: nat, b: nat)
    requires Dag(g) && x < |g| && ValidCurrent(g, cur) && g[x].UrlTest? && Below(g[x].children, |g|)
    requires FirstFastest(g, sel, Resolve(g, sel, cur, x).1, g[x].children, b)
    ensures var next, best := Resolve(g, sel, cur, x).1, g[x].children[b];
            var c := if MayStay(g, sel, next, x, Get(cur, x), best) then Get(cur, x).value else best;
            Get(next, x) == Some(c) && Resolve(g, sel, cur, x) == Resolve(g, sel, next, c)
  {
    hide Resolve, Choose, Healthy, LatencyOf, HealthyOf;
    var cs, next := g[x].children, Resolve(g, sel, cur, x).1;
    assert cs[b] in Candidates(g, sel, x);
    HealthyBelow(g, sel, cs);
    NoneTimed(g, sel, next, cs);
    var i := BestOfHealthy(g, sel, next, cs);
    OneFirstFastest(g, sel, next, cs, i, b);
    var c := UrlTestFollowsChoice(g, sel, cur, x);
    ChooseTimed(g, sel, next, x, Get(cur, x), cs[b]);
  }

  lemma OneFirstFastest(g: Graph, sel: Choice, cur: Choice, cs: seq<nat>, i: nat, j: nat)
    requires Dag(g) && Below(cs, |g|) && FirstFastest(g, sel, cur, cs, i) && FirstFastest(g, sel, cur, cs, j)
    ensures i == j
  {
    hide LatencyOf, Healthy;
  }

  lemma ChooseTimed(g: Graph, sel: Choice, cur: Choice, x: nat, former: Option<nat>, best: nat)
    requires Dag(g) && x < |g| && g[x].UrlTest? && Candidates(g, sel, x) != [] && best < |g|
    requires Timings(g, sel, cur, Candidates(g, sel, x)) != []
    requires Best(Timings(g, sel, cur, Candidates(g, sel, x))) == (best, LatencyOf(g, sel, cur, best))
    requires LatencyOf(g, sel, cur, best).Some?
    ensures Choose(g, sel, cur, x, former) == if MayStay(g, sel, cur, x, former, best) then former.value else best
  {
    hide LatencyOf, Candidates, Timings;
  }

  /** Without any sample among its healthy children: the former choice if it is healthy, else the first healthy
      child. */
  lemma UrlTestTakesFirst(g: Graph, sel: Choice, cur: Choice, x: nat, i: nat)
    requires Dag(g) && x < |g| && ValidCurrent(g, cur) && g[x].UrlTest? && Below(g[x].children, |g|)
    requires FirstHealthy(g, sel, g[x].children, i)
    requires var next := Resolve(g, sel, cur, x).1;
             forall j :: 0 <= j < |g[x].children| ==> !Timed(g, sel, next, g[x].children[j])
    ensures var next, former := Resolve(g, sel, cur, x).1, Get(cur, x);
            var c := if former.Some? && former.value in g[x].children && Healthy(g, sel, former.value) then former.value
                     else g[x].children[i];
            Get(next, x) == Some(c) && Resolve(g, sel, cur, x) == Resolve(g, sel, next, c)
  {
    hide Resolve, Choose, Healthy, LatencyOf, HealthyOf;
    var cs, next := g[x].children, Resolve(g, sel, cur, x).1;
    HeadOfHealthy(g, sel, cs, i);
    HealthyBelow(g, sel, cs);
    NoneTimed(g, sel, next, cs);
    var c := UrlTestFollowsChoice(g, sel, cur, x);
    ChooseUntimed(g, sel, next, x, Get(cur, x));
  }

  lemma ChooseUntimed(g: Graph, sel: Choice, cur: Choice, x: nat, former: Option<nat>)
    requires Dag(g) && x < |g| && g[x].UrlTest? && Candidates(g, sel, x) != []
    requires Timings(g, sel, cur, Candidates(g, sel, x)) == []
    ensures Choose(g, sel, cur, x, former)
         == if former.Some? && former.value in Candidates(g, sel, x) then former.value else Candidates(g, sel, x)[0]
  {
    hide LatencyOf, Candidates, Timings;
  }
}
