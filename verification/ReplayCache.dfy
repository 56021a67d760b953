/** The server's replay cache: nonces of accepted tokens, kept in time buckets. The claim is about
    whole runs: how many buckets must be kept so that no token is accepted twice. */
module ReplayCache {
  import opened Basics

  type Nonce = Bytes
  type Buckets = map<int, set<Nonce>>

  /** `_BUCKETS_KEPT`, the bucket width and TIMESTAMP_TOLERANCE in seconds, and `max_size`. */
  datatype Config = Config(kept: nat, width: nat, tolerance: nat, maxSize: nat)
  {
    predicate Valid() {
      kept >= 1 && width >= 1
    }
  }

  /** The configuration of the source: three buckets as wide as the tolerance. */
  function SourceConfig(maxSize: nat): Config {
    Config(3, 60, 60, maxSize)
  }

  /** A 32-byte token as the server reads it: nonce, unmasked timestamp, and whether its tag is right. */
  datatype Token = Token(nonce: Nonce, ts: nat, genuine: bool)

  /** The (bucket, nonce) pairs held. */
  function Entries(b: Buckets): set<(int, Nonce)> {
    set k, n | k in b.Keys && n in b[k] :: (k, n)
  }

  function KeepFrom(cfg: Config, now: nat): int
    requires cfg.Valid()
  {
    now / cfg.width - (cfg.kept - 1)
  }

  function Evict(b: Buckets, keepFrom: int): Buckets {
    map k | k in b && k >= keepFrom :: b[k]
  }

  predicate Seen(b: Buckets, keepFrom: int, bucket: int, nonce: Nonce) {
    exists k :: keepFrom <= k <= bucket && k in b && nonce in b[k]
  }

  function Mark(b: Buckets, bucket: int, nonce: Nonce): Buckets {
    b[bucket := (if bucket in b then b[bucket] else {}) + {nonce}]
  }

  /** `check_and_mark`: is this the first use, and the buckets afterwards. */
  function CheckAndMark(cfg: Config, b: Buckets, now: nat, nonce: Nonce): (bool, Buckets)
    requires cfg.Valid()
  {
    var kept := Evict(b, KeepFrom(cfg, now));
    if Seen(kept, KeepFrom(cfg, now), now / cfg.width, nonce) then (false, kept)
    else if |Entries(kept)| < cfg.maxSize then (true, Mark(kept, now / cfg.width, nonce))
    else (true, kept)
  }

  // ---- the class ---------------------------------------------------------------------------

  lemma {:induction false} PairsSize(k: int, ns: set<Nonce>)
    ensures |set n | n in ns :: (k, n)| == |ns|
  {
    if ns != {} {
      var m :| m in ns;
      PairsSize(k, ns - {m});
      assert (set n | n in ns :: (k, n)) == (set n | n in ns - {m} :: (k, n)) + {(k, m)};
    }
  }

  lemma EntriesWithout(b: Buckets, k: int)
    requires k in b
    ensures |Entries(b)| == |Entries(b - {k})| + |b[k]|
  {
    var mine := set n | n in b[k] :: (k, n);
    PairsSize(k, b[k]);
    assert Entries(b) == Entries(b - {k}) + mine;
    assert Entries(b - {k}) !! mine;
  }

  lemma EntriesEvicted(b: Buckets, keepFrom: int)
    ensures Entries(Evict(b, keepFrom)) <= Entries(b)
  {}

  lemma EntriesMarked(b: Buckets, bucket: int, nonce: Nonce)
    ensures Entries(Mark(b, bucket, nonce)) == Entries(b) + {(bucket, nonce)}
    ensures bucket in b && nonce in b[bucket] <==> (bucket, nonce) in Entries(b)
  {}

  class TokenReplayCache {
    const cfg: Config
    var buckets: Buckets
    var totalCount: int

    /** The counter is the number of entries held, and never exceeds the limit. */
    ghost predicate Valid()
      reads this
    {
      cfg.Valid() && totalCount == |Entries(buckets)| && totalCount <= cfg.maxSize
    }

    constructor (cfg: Config)
      requires cfg.Valid()
      ensures Valid() && this.cfg == cfg && buckets == map[]
    {
      this.cfg, buckets, totalCount := cfg, map[], 0;
    }

    method EvictStale(keepFrom: int)
      requires Valid()
      modifies this
      ensures Valid() && buckets == Evict(old(buckets), keepFrom)
    {
      var stale := set k | k in buckets && k < keepFrom;
      ghost var all := stale;
      while stale != {}
        invariant stale <= all && buckets == old(buckets) - (all - stale)
        invariant Valid()
        decreases stale
      {
        var k :| k in stale;
        EntriesWithout(buckets, k);
        totalCount := totalCount - |buckets[k]|;
        buckets := buckets - {k};
        stale := stale - {k};
      }
    }

    method CheckAndMarkToken(nonce: Nonce, now: nat) returns (first: bool)
      requires Valid()
      modifies this
      ensures Valid()
      ensures (first, buckets) == CheckAndMark(cfg, old(buckets), now, nonce)
    {
      var bucket := now / cfg.width;
      var keepFrom := bucket - (cfg.kept - 1);
      EvictStale(keepFrom);
      var k := bucket;
      while k >= keepFrom
        invariant keepFrom - 1 <= k <= bucket
        invariant forall j :: k < j <= bucket && j in buckets ==> nonce !in buckets[j]
      {
        if k in buckets && nonce in buckets[k] {
          return false;
        }
        k := k - 1;
      }
      first := true;
      Record(nonce, bucket);
    }

    method Record(nonce: Nonce, bucket: int)
      requires Valid() && (bucket in buckets ==> nonce !in buckets[bucket])
      modifies this
      ensures Valid()
      ensures buckets == if |Entries(old(buckets))| < cfg.maxSize then Mark(old(buckets), bucket, nonce) else old(buckets)
    {
      if totalCount < cfg.maxSize {
        EntriesMarked(buckets, bucket, nonce);
        buckets := buckets[bucket := (if bucket in buckets then buckets[bucket] else {}) + {nonce}];
        totalCount := totalCount + 1;
      }
    }
  }

  // ---- whole runs --------------------------------------------------------------------------

  /** A token arriving, and the two readings of the clock made for it: `checked` for the window test in
      `verify_session_token`, `marked` for the bucket in `check_and_mark`. */
  datatype Arrival = Arrival(checked: nat, marked: nat, token: Token)

  predicate Timely(cfg: Config, a: Arrival) {
    a.checked - a.token.ts <= cfg.tolerance && a.token.ts - a.checked <= cfg.tolerance
  }

  /** `verify_session_token` and then `check_and_mark`. */
  function Accept(cfg: Config, b: Buckets, a: Arrival): (bool, Buckets)
    requires cfg.Valid()
  {
    if a.token.genuine && Timely(cfg, a) then CheckAndMark(cfg, b, a.marked, a.token.nonce) else (false, b)
  }

  /** The cache after a run from empty. */
  function After(cfg: Config, run: seq<Arrival>): Buckets
    requires cfg.Valid()
  {
    if run == [] then map[] else Accept(cfg, After(cfg, run[..|run| - 1]), run[|run| - 1]).1
  }

  /** Is the i-th arrival accepted? */
  predicate Accepted(cfg: Config, run: seq<Arrival>, i: nat)
    requires cfg.Valid() && i < |run|
  {
    Accept(cfg, After(cfg, run[..i]), run[i]).0
  }

  /** Was there room to record the i-th arrival's nonce? */
  predicate HasRoom(cfg: Config, run: seq<Arrival>, i: nat)
    requires cfg.Valid() && i < |run|
  {
    |Entries(Evict(After(cfg, run[..i]), KeepFrom(cfg, run[i].marked)))| < cfg.maxSize
  }

  /** The clock never runs back over all its readings, and advances by at most `lag` between the two
      made for one arrival. */
  predicate Paced(run: seq<Arrival>, lag: nat) {
    && (forall i :: 0 <= i < |run| ==> run[i].checked <= run[i].marked <= run[i].checked + lag)
    && (forall i, j :: 0 <= i < j < |run| ==> run[i].marked <= run[j].checked)
  }

  /** No token whose first acceptance was recorded is accepted again, on any run with that lag. */
  ghost predicate ReplaySafe(cfg: Config, lag: nat)
    requires cfg.Valid()
  {
    forall run: seq<Arrival>, i: nat, j: nat ::
      i < j < |run| && Paced(run, lag) && run[i].token == run[j].token
      && Accepted(cfg, run, i) && HasRoom(cfg, run, i)
      ==> !Accepted(cfg, run, j)
  }

  /** The number of buckets that two tolerances and the lag can span beyond the current one, rounded up. */
  function Span(cfg: Config, lag: nat): nat
    requires cfg.Valid()
  {
    (2 * cfg.tolerance + lag + cfg.width - 1) / cfg.width
  }

  lemma QuotientAtLeast(n: int, w: nat, x: int)
    requires w >= 1 && n * w <= x
    ensures n <= x / w
  {
    var q, r := x / w, x % w;
    assert x == q * w + r;
    assert (q + 1) * w == q * w + w;
    if n > q {
      MulMonotone(q + 1, n, w);
    }
  }

  lemma MulMonotone(a: int, b: int, w: nat)
    requires a <= b
    ensures a * w <= b * w
  {
    assert (b - a) * w >= 0;
    assert b * w == a * w + (b - a) * w;
  }

  /** Times at most d apart lie at most ceil(d / w) buckets apart. */
  lemma BucketsApart(a: nat, b: nat, d: nat, w: nat)
    requires w >= 1 && b - a <= d
    ensures b / w - a / w <= (d + w - 1) / w
  {
    var qa, qb := a / w, b / w;
    assert a == qa * w + a % w && b == qb * w + b % w;
    assert (qb - qa) * w == qb * w - qa * w;
    QuotientAtLeast(qb - qa, w, d + w - 1);
  }

  lemma DivMonotone(a: nat, b: nat, w: nat)
    requires w >= 1 && a <= b
    ensures a / w <= b / w
  {
    assert a == (a / w) * w + a % w;
    QuotientAtLeast(a / w, w, b);
  }

  ghost predicate Holds(b: Buckets, k: int, n: Nonce) {
    k in b && n in b[k]
  }

  /** A recorded nonce stays for as long as its bucket is among those kept. */
  lemma AcceptKeeps(cfg: Config, b: Buckets, a: Arrival, k: int, n: Nonce)
    requires cfg.Valid() && Holds(b, k, n) && KeepFrom(cfg, a.marked) <= k
    ensures Holds(Accept(cfg, b, a).1, k, n)
  {}

  /** The clock does not run back over the markings. */
  predicate Forward(run: seq<Arrival>) {
    forall i, j :: 0 <= i < j < |run| ==> run[i].marked <= run[j].marked
  }

  lemma {:induction false} StaysUntil(cfg: Config, run: seq<Arrival>, i: nat, j: nat, k: int, n: Nonce)
    requires cfg.Valid() && i <= j < |run| && Forward(run)
    requires Holds(After(cfg, run[..i]), k, n) && KeepFrom(cfg, run[j].marked) <= k
    ensures Holds(After(cfg, run[..j]), k, n)
    decreases j
  {
    hide Accept;
    if i < j {
      DivMonotone(run[j - 1].marked, run[j].marked, cfg.width);
      StaysUntil(cfg, run, i, j - 1, k, n);
      assert run[..j][..j - 1] == run[..j - 1];
      AcceptKeeps(cfg, After(cfg, run[..j - 1]), run[j - 1], k, n);
    }
  }

  /** Enough buckets: no recorded token is accepted twice. */
  lemma EnoughBuckets(cfg: Config, lag: nat, run: seq<Arrival>, i: nat, j: nat)
    requires cfg.Valid() && cfg.kept >= Span(cfg, lag) + 1
    requires i < j < |run| && Paced(run, lag) && run[i].token == run[j].token
    requires Accepted(cfg, run, i) && HasRoom(cfg, run, i)
    ensures !Accepted(cfg, run, j)
  {
    var n, k := run[i].token.nonce, run[i].marked / cfg.width;
    assert run[..i + 1][..i] == run[..i];
    assert Holds(After(cfg, run[..i + 1]), k, n);
    if Timely(cfg, run[j]) {
      BucketsApart(run[i].marked, run[j].marked, 2 * cfg.tolerance + lag, cfg.width);
      DivMonotone(run[i].marked, run[j].marked, cfg.width);
      StaysUntil(cfg, run, i + 1, j, k, n);
      assert Holds(Evict(After(cfg, run[..j]), KeepFrom(cfg, run[j].marked)), k, n);
    }
  }

  /** A token used at the end of a bucket, tested again two tolerances later and marked `lag` after that. */
  function TwoUses(cfg: Config, lag: nat): seq<Arrival>
    requires cfg.Valid()
  {
    var token, last := Token([], cfg.width - 1 + cfg.tolerance, true), cfg.width - 1 + 2 * cfg.tolerance;
    [Arrival(cfg.width - 1, cfg.width - 1, token), Arrival(last, last + lag, token)]
  }

  /** Too few buckets: that token is accepted twice. */
  lemma TooFewBuckets(cfg: Config, lag: nat)
    requires cfg.Valid() && cfg.maxSize >= 1 && cfg.kept < Span(cfg, lag) + 1
    ensures var run := TwoUses(cfg, lag);
            Paced(run, lag) && Accepted(cfg, run, 0) && HasRoom(cfg, run, 0) && Accepted(cfg, run, 1)
  {
    var run := TwoUses(cfg, lag);
    assert (cfg.width - 1) / cfg.width == 0;
    assert run[..0] == [] && run[..1][..0] == [] && run[..1][0] == run[0];
    assert After(cfg, []) == map[];
    assert Evict(map[], KeepFrom(cfg, run[0].marked)) == map[];
    assert Entries(map[]) == {};
    var b := After(cfg, run[..1]);
    assert b.Keys == {0};
    assert KeepFrom(cfg, run[1].marked) == Span(cfg, lag) - (cfg.kept - 1) >= 1;
    assert Evict(b, KeepFrom(cfg, run[1].marked)) == map[];
  }

  /** The exact bound: K buckets of width W with tolerance T, and a clock that may advance by d between
      the window test and the marking, are safe if and only if K >= ceil((2T + d) / W) + 1. */
  lemma SafeExactlyWhen(cfg: Config, lag: nat)
    requires cfg.Valid() && cfg.maxSize >= 1
    ensures ReplaySafe(cfg, lag) <==> cfg.kept >= Span(cfg, lag) + 1
  {
    hide Accepted, HasRoom, Paced, Span;
    if cfg.kept >= Span(cfg, lag) + 1 {
      forall run: seq<Arrival>, i: nat, j: nat |
        i < j < |run| && Paced(run, lag) && run[i].token == run[j].token
        && Accepted(cfg, run, i) && HasRoom(cfg, run, i)
        ensures !Accepted(cfg, run, j)
      {
        EnoughBuckets(cfg, lag, run, i, j);
      }
    } else {
      TooFewBuckets(cfg, lag);
      var run := TwoUses(cfg, lag);
      assert run[0].token == run[1].token;
    }
  }

  /** With the source's width and tolerance, three buckets are enough exactly when no second passes between
      the two readings, four for up to a minute, and two never. */
  lemma ThreeExactlyWithoutLag(maxSize: nat, lag: nat)
    requires maxSize >= 1
    ensures ReplaySafe(SourceConfig(maxSize), lag) <==> lag == 0
    ensures ReplaySafe(SourceConfig(maxSize).(kept := 4), lag) <==> lag <= 60
    ensures !ReplaySafe(SourceConfig(maxSize).(kept := 2), lag)
  {
    SafeExactlyWhen(SourceConfig(maxSize), lag);
    SafeExactlyWhen(SourceConfig(maxSize).(kept := 4), lag);
    SafeExactlyWhen(SourceConfig(maxSize).(kept := 2), lag);
  }

  /** The source's own three buckets, and one second that passes between the window test at 179 and the
      marking at 180: the token of 119, first used at 59, is accepted again. */
  lemma TickBetweenReadings(maxSize: nat)
    requires maxSize >= 1
    ensures var token := Token([], 119, true);
            var run := [Arrival(59, 59, token), Arrival(179, 180, token)];
            Paced(run, 1) && Accepted(SourceConfig(maxSize), run, 0) && HasRoom(SourceConfig(maxSize), run, 0)
            && Accepted(SourceConfig(maxSize), run, 1)
  {
    hide Accepted, HasRoom;
    TooFewBuckets(SourceConfig(maxSize), 1);
  }

  /** Was the i-th arrival accepted and its nonce recorded? */
  predicate Recorded(cfg: Config, run: seq<Arrival>, i: nat)
    requires cfg.Valid() && i < |run|
  {
    Accepted(cfg, run, i) && HasRoom(cfg, run, i)
  }

  /** Every nonce held was recorded by an earlier arrival, in the bucket it is held in. */
  lemma {:induction false} HeldWasRecorded(cfg: Config, run: seq<Arrival>, k: int, n: Nonce) returns (i: nat)
    requires cfg.Valid() && Holds(After(cfg, run), k, n)
    ensures i < |run| && run[i].token.nonce == n && run[i].marked / cfg.width == k && Recorded(cfg, run, i)
    decreases |run|
  {
    var front, last := run[..|run| - 1], run[|run| - 1];
    if Holds(After(cfg, front), k, n) {
      i := HeldWasRecorded(cfg, front, k, n);
      assert front[..i] == run[..i];
    } else {
      i := |run| - 1;
    }
  }

  /** A recorded nonce is held from then on for as long as its bucket is kept. */
  lemma RecordedIsHeld(cfg: Config, run: seq<Arrival>, i: nat, j: nat)
    requires cfg.Valid() && i < j < |run| && Forward(run) && Recorded(cfg, run, i)
    requires KeepFrom(cfg, run[j].marked) <= run[i].marked / cfg.width
    ensures Holds(After(cfg, run[..j]), run[i].marked / cfg.width, run[i].token.nonce)
  {
    assert run[..i + 1][..i] == run[..i];
    StaysUntil(cfg, run, i + 1, j, run[i].marked / cfg.width, run[i].token.nonce);
  }

  /** Was this nonce recorded by the j-th arrival, fewer than `kept` bucket widths before the i-th? */
  predicate UsedLately(cfg: Config, run: seq<Arrival>, j: nat, i: nat)
    requires cfg.Valid() && j < i < |run|
  {
    && run[j].token.nonce == run[i].token.nonce && Recorded(cfg, run, j)
    && run[i].marked / cfg.width - run[j].marked / cfg.width < cfg.kept
  }

  /** An arrival is accepted exactly when its tag is right, its timestamp lies within the tolerance of the clock,
      and its nonce has not been recorded within the buckets still kept. */
  lemma AcceptedExactly(cfg: Config, run: seq<Arrival>, i: nat)
    requires cfg.Valid() && i < |run| && Forward(run)
    ensures var a := run[i];
            Accepted(cfg, run, i) <==>
              a.token.genuine
              && -(cfg.tolerance as int) <= a.checked - a.token.ts <= cfg.tolerance
              && !exists j :: 0 <= j < i && UsedLately(cfg, run, j, i)
  {
    hide After, Accept, UsedLately, Holds;
    var a, b := run[i], After(cfg, run[..i]);
    AcceptIs(cfg, b, a);
    if j :| 0 <= j < i && UsedLately(cfg, run, j, i) {
      LatelyIsHeld(cfg, run, j, i);
    }
    if k :| KeepFrom(cfg, a.marked) <= k <= a.marked / cfg.width && Holds(b, k, a.token.nonce) {
      var j := HeldIsLately(cfg, run, i, k);
    }
  }

  lemma AcceptIs(cfg: Config, b: Buckets, a: Arrival)
    requires cfg.Valid()
    ensures Accept(cfg, b, a).0 <==>
              a.token.genuine && -(cfg.tolerance as int) <= a.checked - a.token.ts <= cfg.tolerance
              && !exists k :: KeepFrom(cfg, a.marked) <= k <= a.marked / cfg.width && Holds(b, k, a.token.nonce)
  {
    var kept := Evict(b, KeepFrom(cfg, a.marked));
    assert forall k :: k >= KeepFrom(cfg, a.marked) ==> (Holds(b, k, a.token.nonce) <==> k in kept && a.token.nonce in kept[k]);
  }

  lemma LatelyIsHeld(cfg: Config, run: seq<Arrival>, j: nat, i: nat)
    requires cfg.Valid() && j < i < |run| && Forward(run) && UsedLately(cfg, run, j, i)
    ensures KeepFrom(cfg, run[i].marked) <= run[j].marked / cfg.width <= run[i].marked / cfg.width
    ensures Holds(After(cfg, run[..i]), run[j].marked / cfg.width, run[i].token.nonce)
  {
    hide Holds, After, Recorded;
    DivMonotone(run[j].marked, run[i].marked, cfg.width);
    RecordedIsHeld(cfg, run, j, i);
  }

  lemma HeldIsLately(cfg: Config, run: seq<Arrival>, i: nat, k: int) returns (j: nat)
    requires cfg.Valid() && i < |run| && KeepFrom(cfg, run[i].marked) <= k && Holds(After(cfg, run[..i]), k, run[i].token.nonce)
    ensures j < i && UsedLately(cfg, run, j, i)
  {
    hide Holds, After, Accepted, HasRoom;
    j := HeldWasRecorded(cfg, run[..i], k, run[i].token.nonce);
    SameRecord(cfg, run, i, j);
  }

  lemma SameRecord(cfg: Config, run: seq<Arrival>, i: nat, j: nat)
    requires cfg.Valid() && j < i <= |run|
    ensures Recorded(cfg, run[..i], j) == Recorded(cfg, run, j)
  {
    assert run[..i][..j] == run[..j];
  }

  /** An arrival with a wrong tag or out of time leaves the cache as it was. */
  lemma RefusedLeavesNoTrace(cfg: Config, run: seq<Arrival>, i: nat)
    requires cfg.Valid() && i < |run|
    requires !run[i].token.genuine || run[i].checked > run[i].token.ts + cfg.tolerance || run[i].token.ts > run[i].checked + cfg.tolerance
    ensures After(cfg, run[..i + 1]) == After(cfg, run[..i]) && !Accepted(cfg, run, i)
  {
    assert run[..i + 1][..i] == run[..i];
  }

  /** No false alarms: a genuine, timely token whose nonce never arrived before is accepted. */
  lemma FirstUseAccepted(cfg: Config, run: seq<Arrival>, i: nat)
    requires cfg.Valid() && i < |run| && run[i].token.genuine && Timely(cfg, run[i])
    requires forall j :: 0 <= j < i ==> run[j].token.nonce != run[i].token.nonce
    ensures Accepted(cfg, run, i)
  {
    if !Accepted(cfg, run, i) {
      var b, n := After(cfg, run[..i]), run[i].token.nonce;
      var k :| k in Evict(b, KeepFrom(cfg, run[i].marked)) && n in b[k];
      var j := HeldWasRecorded(cfg, run[..i], k, n);
    }
  }

  lemma AcceptSize(cfg: Config, b: Buckets, a: Arrival)
    requires cfg.Valid() && |Entries(b)| <= cfg.maxSize
    ensures |Entries(Accept(cfg, b, a).1)| <= cfg.maxSize
  {
    hide Entries, Mark, Seen, Evict;
    var kept := Evict(b, KeepFrom(cfg, a.marked));
    EntriesEvicted(b, KeepFrom(cfg, a.marked));
    SubsetSize(Entries(kept), Entries(b));
    EntriesMarked(kept, a.marked / cfg.width, a.token.nonce);
  }

  /** Memory stays bounded on every run, even with a clock that jumps. */
  lemma {:induction false} NeverOverfull(cfg: Config, run: seq<Arrival>)
    requires cfg.Valid()
    ensures |Entries(After(cfg, run))| <= cfg.maxSize
    decreases |run|
  {
    hide Accept;
    if run == [] {
      assert Entries(map[]) == {};
    } else {
      NeverOverfull(cfg, run[..|run| - 1]);
      AcceptSize(cfg, After(cfg, run[..|run| - 1]), run[|run| - 1]);
    }
  }
}
