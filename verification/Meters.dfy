/** A tunnel leaf's health and latency, by what became of the builds its pool reported. */
module Meters {
  import opened Basics
  import opened Groups

  const UNHEALTHY_AFTER_FAILS := 3
  const LATENCY_WINDOW := 10

  // ---- the median ----------------------------------------------------------------------------

  function Insert(x: real, sorted: seq<real>): seq<real> {
    if sorted == [] || x <= sorted[0] then [x] + sorted else [sorted[0]] + Insert(x, sorted[1..])
  }

  function Sort(xs: seq<real>): (r: seq<real>)
    ensures |r| == |xs|
  {
    if xs == [] then [] else var rest := Sort(xs[1..]); InsertLength(xs[0], rest); Insert(xs[0], rest)
  }

  lemma {:induction false} InsertLength(x: real, sorted: seq<real>)
    ensures |Insert(x, sorted)| == |sorted| + 1
  {
    if sorted != [] && x > sorted[0] {
      InsertLength(x, sorted[1..]);
    }
  }

  function Median(xs: seq<real>): real
    requires xs != []
  {
    var s := Sort(xs);
    if |s| % 2 == 1 then s[|s| / 2] else (s[|s| / 2 - 1] + s[|s| / 2]) / 2.0
  }

  predicate Ordered(s: seq<real>) {
    forall i, j :: 0 <= i < j < |s| ==> s[i] <= s[j]
  }

  lemma {:induction false} InsertElements(x: real, sorted: seq<real>)
    ensures multiset(Insert(x, sorted)) == multiset{x} + multiset(sorted)
  {
    if sorted != [] && x > sorted[0] {
      InsertElements(x, sorted[1..]);
      assert sorted == [sorted[0]] + sorted[1..];
    }
  }

  lemma HeadIsLeast(s: seq<real>)
    requires s != [] && Ordered(s)
    ensures forall x :: x in multiset(s) ==> s[0] <= x
  {
    forall x | x in multiset(s) ensures s[0] <= x {
      var i :| 0 <= i < |s| && s[i] == x;
    }
  }

  lemma OrderedCons(x: real, s: seq<real>)
    requires Ordered(s) && forall y :: y in multiset(s) ==> x <= y
    ensures Ordered([x] + s)
  {
    forall j | 0 <= j < |s| ensures x <= s[j] {
      assert s[j] in multiset(s);
    }
  }

  lemma {:induction false} InsertSorts(x: real, sorted: seq<real>)
    requires Ordered(sorted)
    ensures Ordered(Insert(x, sorted))
  {
    hide Ordered;
    if sorted != [] {
      HeadIsLeast(sorted);
      if x > sorted[0] {
        OrderedTail(sorted);
        InsertSorts(x, sorted[1..]);
        InsertAbove(x, sorted);
        OrderedCons(sorted[0], Insert(x, sorted[1..]));
      } else {
        OrderedCons(x, sorted);
      }
    } else {
      OrderedOne(x);
    }
  }

  lemma InsertAbove(x: real, sorted: seq<real>)
    requires sorted != [] && x >= sorted[0] && forall y :: y in multiset(sorted) ==> sorted[0] <= y
    ensures forall y :: y in multiset(Insert(x, sorted[1..])) ==> sorted[0] <= y
  {
    InsertElements(x, sorted[1..]);
    assert sorted == [sorted[0]] + sorted[1..];
    forall y | y in multiset(Insert(x, sorted[1..])) ensures sorted[0] <= y {
      assert y in multiset{x} + multiset(sorted[1..]);
      assert y == x || y in multiset(sorted);
    }
  }

  lemma OrderedTail(s: seq<real>)
    requires s != [] && Ordered(s)
    ensures Ordered(s[1..])
  {}

  lemma OrderedOne(x: real)
    ensures Ordered([x] + []) && Ordered([])
  {}

  lemma {:induction false} SortSorts(xs: seq<real>)
    ensures Ordered(Sort(xs)) && multiset(Sort(xs)) == multiset(xs)
  {
    if xs != [] {
      SortSorts(xs[1..]);
      InsertSorts(xs[0], Sort(xs[1..]));
      InsertElements(xs[0], Sort(xs[1..]));
      assert xs == [xs[0]] + xs[1..];
    }
  }

  /** There is one way to put numbers in order. */
  lemma {:induction false} OrderIsUnique(a: seq<real>, b: seq<real>)
    requires Ordered(a) && Ordered(b) && multiset(a) == multiset(b)
    ensures a == b
    decreases |a|
  {
    hide Ordered;
    assert |multiset(a)| == |multiset(b)|;
    if a != [] {
      SameHead(a, b);
      OrderedTail(a);
      OrderedTail(b);
      SameTails(a, b);
      OrderIsUnique(a[1..], b[1..]);
      assert a == [a[0]] + a[1..] && b == [b[0]] + b[1..];
    }
  }

  lemma SameHead(a: seq<real>, b: seq<real>)
    requires a != [] && b != [] && Ordered(a) && Ordered(b) && multiset(a) == multiset(b)
    ensures a[0] == b[0]
  {
    HeadIsLeast(a);
    HeadIsLeast(b);
    assert a[0] in multiset(a) && b[0] in multiset(b);
  }

  lemma SameTails(a: seq<real>, b: seq<real>)
    requires a != [] && b != [] && a[0] == b[0] && multiset(a) == multiset(b)
    ensures multiset(a[1..]) == multiset(b[1..])
  {
    assert a == [a[0]] + a[1..] && b == [b[0]] + b[1..];
    assert multiset(a[1..]) == multiset(a) - multiset{a[0]};
  }

  /** The median is the middle of the samples put in order, or halfway between the two in the middle. */
  lemma MedianIsMiddle(xs: seq<real>, sorted: seq<real>)
    requires xs != [] && Ordered(sorted) && multiset(sorted) == multiset(xs)
    ensures |sorted| == |xs|
    ensures |xs| % 2 == 1 ==> Median(xs) == sorted[(|xs| - 1) / 2]
    ensures |xs| % 2 == 0 ==> Median(xs) - sorted[|xs| / 2 - 1] == sorted[|xs| / 2] - Median(xs)
  {
    SortSorts(xs);
    OrderIsUnique(Sort(xs), sorted);
  }

  // ---- health ----------------------------------------------------------------------------------

  /** What the pool reports of a build: the milliseconds it took, or that it failed. */
  datatype Report = Built(ms: real) | Failed

  datatype Meter = Meter(samples: seq<real>, failures: nat)
  {
    function AsLeaf(): Node {
      Leaf(failures < UNHEALTHY_AFTER_FAILS, if samples == [] then None else Some(Median(samples)))
    }

    /** `_record_latency`: a bounded window of samples, and any success clears the failures;
        `_record_failure` counts one more. */
    function After(r: Report): Meter {
      match r
      case Built(ms) =>
        var all := samples + [ms];
        Meter(all[Max(0, |all| - LATENCY_WINDOW)..], 0)
      case Failed => Meter(samples, failures + 1)
    }
  }

  const FRESH := Meter([], 0)

  function AfterAll(reports: seq<Report>): Meter {
    if reports == [] then FRESH else AfterAll(reports[..|reports| - 1]).After(reports[|reports| - 1])
  }

  /** The times of the builds that succeeded. */
  ghost function Times(reports: seq<Report>): seq<real> {
    if reports == [] then []
    else Times(reports[..|reports| - 1]) + match reports[|reports| - 1] case Built(ms) => [ms] case Failed => []
  }

  /** The leaf is healthy unless its last three builds all failed. */
  lemma {:induction false} HealthyUnlessThreeFailed(reports: seq<Report>)
    ensures AfterAll(reports).AsLeaf().healthy
       <==> !(|reports| >= 3 && reports[|reports| - 1] == reports[|reports| - 2] == reports[|reports| - 3] == Failed)
  {
    Streak(reports, 0);
    Streak(reports, 1);
    Streak(reports, 2);
  }

  /** The count exceeds k exactly when the last k + 1 reports are failures. */
  lemma {:induction false} Streak(reports: seq<Report>, k: nat)
    ensures AfterAll(reports).failures > k
       <==> |reports| > k && forall i :: |reports| - 1 - k <= i < |reports| ==> reports[i] == Failed
    decreases |reports|
  {
    if reports != [] {
      var front := reports[..|reports| - 1];
      if k > 0 {
        Streak(front, k - 1);
      }
    }
  }

  /** Its latency is the median of the last ten times, if there are any. */
  lemma {:induction false} LatencyOfLastTen(reports: seq<Report>)
    ensures var times := Times(reports);
            AfterAll(reports).samples == (if |times| <= 10 then times else times[|times| - 10..])
            && AfterAll(reports).AsLeaf().latency
               == if times == [] then None else Some(Median(if |times| <= 10 then times else times[|times| - 10..]))
    decreases |reports|
  {
    hide Median;
    if reports != [] {
      LatencyOfLastTen(reports[..|reports| - 1]);
    }
  }
}
