/** The cyclic allocator of pipeline transaction IDs (`_allocate_tx`), and how far apart two uses of
    the same ID must lie. */
module TxIds {
  import opened Basics

  /** IDs run through 1..65535; 0 is skipped. */
  const IDS := 65535

  /** The counter update after looking at an ID. */
  function Succ(id: nat): nat {
    if (id + 1) % 0x10000 == 0 then 1 else (id + 1) % 0x10000
  }

  /** The search loop with `tries` iterations to go: the ID found (None where it raises) and the
      counter left behind. */
  function Allocate(next: nat, pending: set<nat>, tries: nat): (Option<nat>, nat)
    decreases tries
  {
    if tries == 0 then (None, next)
    else if next !in pending then (Some(next), Succ(next))
    else Allocate(Succ(next), pending, tries - 1)
  }

  /** The counter after `tick` updates from its initial value 1. */
  function IdAt(tick: nat): (id: nat)
    ensures 1 <= id <= IDS
  {
    1 + tick % IDS
  }

  lemma SuccIsNextTick(tick: nat)
    ensures Succ(IdAt(tick)) == IdAt(tick + 1)
  {}

  lemma NearbyTicksDiffer(t: nat, u: nat)
    requires t < u < t + IDS
    ensures IdAt(t) != IdAt(u)
  {}

  /** A stretch of at most 65535 ticks whose IDs all lie in a set is no longer than the set. */
  lemma {:induction false} StretchFits(start: nat, end: nat, ids: set<nat>)
    requires start <= end <= start + IDS
    requires forall t :: start <= t < end ==> IdAt(t) in ids
    ensures end - start <= |ids|
    decreases end
  {
    if start < end {
      var last := IdAt(end - 1);
      forall t | start <= t < end - 1 ensures IdAt(t) in ids - {last} {
        NearbyTicksDiffer(t, end - 1);
      }
      StretchFits(start, end - 1, ids - {last});
    }
  }

  /** The tick at which a search of `tries` iterations stops. */
  function FirstFree(tick: nat, pending: set<nat>, tries: nat): nat
    decreases tries
  {
    if tries == 0 || IdAt(tick) !in pending then tick else FirstFree(tick + 1, pending, tries - 1)
  }

  /** With fewer than 65535 IDs pending the search succeeds, never raising: it stops at the first
      tick whose ID is free. */
  lemma AllocateFinds(tick: nat, pending: set<nat>)
    requires |pending| < IDS
    ensures var found := FirstFree(tick, pending, 0x10000);
            && found >= tick && IdAt(found) !in pending
            && (forall t :: tick <= t < found ==> IdAt(t) in pending)
            && Allocate(IdAt(tick), pending, 0x10000) == (Some(IdAt(found)), IdAt(found + 1))
  {
    SearchFrom(tick, tick, pending, 0x10000);
  }

  lemma {:induction false} SearchFrom(start: nat, tick: nat, pending: set<nat>, tries: nat)
    requires |pending| < IDS && start <= tick <= start + |pending|
    requires tries + (tick - start) > |pending|
    requires forall t :: start <= t < tick ==> IdAt(t) in pending
    ensures var found := FirstFree(tick, pending, tries);
            && found >= tick && IdAt(found) !in pending
            && (forall t :: start <= t < found ==> IdAt(t) in pending)
            && Allocate(IdAt(tick), pending, tries) == (Some(IdAt(found)), IdAt(found + 1))
    decreases tries
  {
    SuccIsNextTick(tick);
    if IdAt(tick) in pending {
      StretchFits(start, tick + 1, pending);
      SearchFrom(start, tick + 1, pending, tries - 1);
    }
  }

  /** One allocation: the tick at which its ID came up, and the other IDs pending at that moment. */
  datatype Use = Use(tick: nat, others: set<nat>)

  ghost predicate UsedSince(log: seq<Use>, i: nat, id: nat) {
    exists j :: i <= j < |log| && IdAt(log[j].tick) == id
  }

  ghost predicate TakenAfter(log: seq<Use>, i: nat, tick: nat) {
    exists j :: i < j < |log| && log[j].tick == tick
  }

  ghost predicate InOrder(log: seq<Use>, tick: nat, cap: nat) {
    && (forall i :: 0 <= i < |log| ==> log[i].tick < tick && |log[i].others| < cap)
    && (forall i, j :: 0 <= i < j < |log| ==> log[i].tick < log[j].tick)
  }

  /** After allocation i, IDs are pending only if they were so then or were allocated since. */
  ghost predicate Covered(log: seq<Use>, pending: set<nat>) {
    forall i, id :: 0 <= i < |log| && id in pending ==> id in log[i].others || UsedSince(log, i, id)
  }

  /** Every tick of the round after allocation i was an allocation itself, or was skipped because
      its ID had been pending all along. */
  ghost predicate Accounted(log: seq<Use>, tick: nat) {
    forall i, t :: 0 <= i < |log| && log[i].tick < t < tick && t < log[i].tick + IDS
      ==> IdAt(t) in log[i].others || TakenAfter(log, i, t)
  }

  /** What every run of allocations and releases keeps. */
  ghost predicate Tracked(log: seq<Use>, tick: nat, pending: set<nat>, cap: nat) {
    InOrder(log, tick, cap) && Covered(log, pending) && Accounted(log, tick)
  }

  lemma TrackedRelease(log: seq<Use>, tick: nat, pending: set<nat>, fewer: set<nat>, cap: nat)
    requires Tracked(log, tick, pending, cap) && fewer <= pending
    ensures Tracked(log, tick, fewer, cap)
  {}

  lemma CoveredAllocate(log: seq<Use>, pending: set<nat>, use: Use)
    requires Covered(log, pending) && pending <= use.others
    ensures Covered(log + [use], pending + {IdAt(use.tick)})
  {
    var log' := log + [use];
    forall i, id | 0 <= i < |log'| && id in pending + {IdAt(use.tick)}
      ensures id in log'[i].others || UsedSince(log', i, id)
    {
      if id == IdAt(use.tick) {
        assert log'[|log|] == use;
      } else if i < |log| && id !in log[i].others {
        var j :| i <= j < |log| && IdAt(log[j].tick) == id;
        assert log'[j] == log[j];
      }
    }
  }

  lemma SkippedWasPending(log: seq<Use>, tick: nat, pending: set<nat>, cap: nat, i: nat, t: nat)
    requires InOrder(log, tick, cap) && Covered(log, pending) && i < |log|
    requires tick <= t < log[i].tick + IDS && IdAt(t) in pending
    ensures IdAt(t) in log[i].others
  {
    if IdAt(t) !in log[i].others {
      assert UsedSince(log, i, IdAt(t));
      var j :| i <= j < |log| && IdAt(log[j].tick) == IdAt(t);
      NearbyTicksDiffer(log[j].tick, t);
    }
  }

  lemma AccountedAllocate(log: seq<Use>, tick: nat, pending: set<nat>, cap: nat, use: Use)
    requires InOrder(log, tick, cap) && Covered(log, pending) && Accounted(log, tick)
    requires use.tick >= tick && forall t :: tick <= t < use.tick ==> IdAt(t) in pending
    ensures Accounted(log + [use], use.tick + 1)
  {
    var log' := log + [use];
    forall i, t | 0 <= i < |log'| && log'[i].tick < t < use.tick + 1 && t < log'[i].tick + IDS
      ensures IdAt(t) in log'[i].others || TakenAfter(log', i, t)
    {
      assert i < |log| && log'[i] == log[i];
      if t < tick {
        if IdAt(t) !in log[i].others {
          var j :| i < j < |log| && log[j].tick == t;
          assert log'[j] == log[j];
        }
      } else if t < use.tick {
        SkippedWasPending(log, tick, pending, cap, i, t);
      } else {
        assert log'[|log|].tick == t;
      }
    }
  }

  lemma TrackedAllocate(log: seq<Use>, tick: nat, pending: set<nat>, cap: nat, found: nat)
    requires Tracked(log, tick, pending, cap) && |pending| < cap
    requires found >= tick && forall t :: tick <= t < found ==> IdAt(t) in pending
    ensures Tracked(log + [Use(found, pending)], found + 1, pending + {IdAt(found)}, cap)
  {
    CoveredAllocate(log, pending, Use(found, pending));
    AccountedAllocate(log, tick, pending, cap, Use(found, pending));
  }

  /** Between two allocations of the same ID lie at least 65535 - cap others. */
  lemma ReuseDistance(log: seq<Use>, tick: nat, pending: set<nat>, cap: nat, i: nat, j: nat)
    requires Tracked(log, tick, pending, cap)
    requires i < j < |log| && IdAt(log[i].tick) == IdAt(log[j].tick)
    ensures j - i - 1 >= IDS - cap
  {
    if log[j].tick < log[i].tick + IDS {
      NearbyTicksDiffer(log[i].tick, log[j].tick);
    }
    var k, skipped := CountRound(log, tick, pending, cap, i, log[i].tick + IDS - 1);
    SubsetSize(skipped, log[i].others);
    assert k < j;
  }

  /** Up to tick t of the round after allocation i, each tick is one allocation or one skipped ID. */
  lemma {:induction false} CountRound(log: seq<Use>, tick: nat, pending: set<nat>, cap: nat, i: nat, t: nat)
    returns (k: nat, skipped: set<nat>)
    requires Tracked(log, tick, pending, cap) && i < |log|
    requires log[i].tick <= t < log[i].tick + IDS && t < tick
    ensures i <= k < |log| && log[k].tick <= t
    ensures skipped <= log[i].others
    ensures forall id :: id in skipped ==> exists u :: log[i].tick < u <= t && IdAt(u) == id
    ensures t - log[i].tick <= (k - i) + |skipped|
    decreases t
  {
    if t == log[i].tick {
      k, skipped := i, {};
    } else {
      var k', skipped' := CountRound(log, tick, pending, cap, i, t - 1);
      if TakenAfter(log, i, t) {
        var j :| i < j < |log| && log[j].tick == t;
        assert !(j <= k');
        k, skipped := j, skipped';
      } else {
        if IdAt(t) in skipped' {
          var u :| log[i].tick < u <= t - 1 && IdAt(u) == IdAt(t);
          NearbyTicksDiffer(u, t);
        }
        k, skipped := k', skipped' + {IdAt(t)};
      }
    }
  }
}
