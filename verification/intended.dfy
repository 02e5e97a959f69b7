/**
 The planner's floor as the code around it intends it. The job is
 `Table.removeExpired(dataRetention)`: it should remove only data older
 than the retention, and the table should keep `dataRetention` daily
 partitions, as the end-to-end test expects seven after its roll. The
 comment on `Table.reorganizeFuturePartition` says the job runs hourly, so
 it must leave such a table alone for the rest of the day. That needs the
 floor to compare a descriptor's boundary, `getMysqlDay(tomorrow)`, with the
 oldest current boundary. The code compares its day, `getMysqlDay(today)`,
 one below, and so each same-day run drops one more partition that has not
 expired. Here the floor compares the boundary, and the whole
 reconciliation becomes idempotent.
 */
module Intended {
  import opened Seqs
  import opened Dates
  import opened Planner
  import opened Differ
  import opened Reconcile

  /** `getMysqlDay(tomorrow) < oldestPartition` skips the descriptor; anything else keeps it. */
  predicate KeptAtFloor(oldest: Oldest, e: Partition)
  {
    !BelowOldest(e.boundary, oldest)
  }

  /** Some current boundary lies at or below `b`. */
  ghost predicate AtOrAboveSome(current: seq<Partition>, b: int)
  {
    exists i :: 0 <= i < |current| && current[i].boundary <= b
  }

  /** What the intended floor keeps, in terms of the current list. */
  lemma KeptAtFloorSome(current: seq<Partition>, e: Partition)
    ensures KeptAtFloor(OldestBoundary(current), e) <==> AtOrAboveSome(current, e.boundary)
  {
    var oldest := OldestBoundary(current);
    if oldest.Finite? && KeptAtFloor(oldest, e) {
      var i :| 0 <= i < |current| && current[i].boundary == oldest.value;
      assert current[i].boundary <= e.boundary;
    }
  }

  /** Two lists carrying the same boundaries put the intended floor at the same place. */
  lemma AtOrAboveSameBoundaries(a: seq<Partition>, b: seq<Partition>, v: int)
    requires Boundaries(a) == Boundaries(b)
    ensures AtOrAboveSome(a, v) <==> AtOrAboveSome(b, v)
  {
    if AtOrAboveSome(a, v) {
      var i :| 0 <= i < |a| && a[i].boundary <= v;
      assert a[i].boundary in Boundaries(b);
    }
    if AtOrAboveSome(b, v) {
      var i :| 0 <= i < |b| && b[i].boundary <= v;
      assert b[i].boundary in Boundaries(a);
    }
  }

  /**
   The corrected `getPartitionsThatShouldExist`: with an empty current list
   nothing is planned; otherwise exactly the window entries whose boundary
   is at or above the oldest current boundary, in window order.
   */
  function IntendedPartitions(now: int, retention: int, current: seq<Partition>, p: Pattern): (r: seq<Partition>)
    ensures |current| == 0 ==> r == []
    ensures forall e :: e in r <==> e in Window(now, retention, NameOf(p)) && AtOrAboveSome(current, e.boundary)
    ensures IsSubsequence(r, Window(now, retention, NameOf(p)))
    ensures Ascending(r)
  {
    var oldest := OldestBoundary(current);
    var w := Window(now, retention, NameOf(p));
    var keep := e => KeptAtFloor(oldest, e);
    FilterSpec(w, keep);
    forall e ensures keep(e) <==> AtOrAboveSome(current, e.boundary) {
      KeptAtFloorSome(current, e);
    }
    EmptyIffNoMembers(Filter(w, keep));
    WindowShape(now, retention, NameOf(p));
    SubsequenceAscending(Filter(w, keep), w);
    Filter(w, keep)
  }

  /** The corrected `Table.repartition` plan: the differ applied to the corrected planner. */
  function IntendedRepartition(now: int, retention: int, current: seq<Partition>, p: Pattern): (plan: Plan)
    ensures forall x :: x in plan.toCreate <==>
      x in Window(now, retention, NameOf(p)) && AtOrAboveSome(current, x.boundary)
      && x.boundary !in Boundaries(current)
    ensures forall x :: x in plan.toDrop <==>
      x in current && x.boundary !in Boundaries(IntendedPartitions(now, retention, current, p))
    ensures Ascending(plan.toCreate) && IsSubsequence(plan.toDrop, current)
  {
    Diff(IntendedPartitions(now, retention, current, p), current)
  }

  /**
   Re-planning against the table an accepted corrected plan leaves behind plans the
   same partitions: the floor of the new table is the oldest planned
   boundary, which lies at or above the old floor and below no planned entry.
   */
  lemma IntendedPlanStable(now: int, retention: int, current: seq<Partition>, p: Pattern)
    requires Accepted(current, IntendedRepartition(now, retention, current, p))
    ensures var after := Run(current, IntendedRepartition(now, retention, current, p));
      IntendedPartitions(now, retention, after, p) == IntendedPartitions(now, retention, current, p)
  {
    var desired := IntendedPartitions(now, retention, current, p);
    RunReachesDesired(desired, current);
    PlanStableOn(now, retention, current, p, Run(current, IntendedRepartition(now, retention, current, p)));
  }

  /** Any table carrying the planned boundaries is planned the same way. */
  lemma PlanStableOn(now: int, retention: int, current: seq<Partition>, p: Pattern, after: seq<Partition>)
    requires Boundaries(after) == Boundaries(IntendedPartitions(now, retention, current, p))
    ensures IntendedPartitions(now, retention, after, p) == IntendedPartitions(now, retention, current, p)
  {
    var desired := IntendedPartitions(now, retention, current, p);
    var w := Window(now, retention, NameOf(p));
    forall i | 0 <= i < |w|
      ensures KeptAtFloor(OldestBoundary(current), w[i]) == KeptAtFloor(OldestBoundary(after), w[i])
    {
      var e := w[i];
      KeptAtFloorSome(current, e);
      KeptAtFloorSome(after, e);
      AtOrAboveSameBoundaries(after, desired, e.boundary);
      if AtOrAboveSome(current, e.boundary) {
        assert e in desired;
        var j :| 0 <= j < |desired| && desired[j] == e;
        assert AtOrAboveSome(desired, e.boundary);
      }
      if AtOrAboveSome(desired, e.boundary) {
        var j :| 0 <= j < |desired| && desired[j].boundary <= e.boundary;
        assert desired[j] in desired;
        var k :| 0 <= k < |current| && current[k].boundary <= desired[j].boundary;
        assert AtOrAboveSome(current, e.boundary);
      }
    }
    FilterCongruence(w, e => KeptAtFloor(OldestBoundary(current), e), e => KeptAtFloor(OldestBoundary(after), e));
  }

  /**
   The corrected reconciliation is idempotent: once MySQL has accepted its
   statements, the next run on the same day has nothing to create and
   nothing to drop.
   */
  lemma IntendedSettles(now: int, retention: int, current: seq<Partition>, p: Pattern)
    requires Accepted(current, IntendedRepartition(now, retention, current, p))
    ensures var after := Run(current, IntendedRepartition(now, retention, current, p));
      IntendedRepartition(now, retention, after, p) == Plan([], [])
  {
    var desired := IntendedPartitions(now, retention, current, p);
    var after := Run(current, IntendedRepartition(now, retention, current, p));
    RunReachesDesired(desired, current);
    IntendedPlanStable(now, retention, current, p);
    forall i | 0 <= i < |desired| ensures desired[i].boundary in Boundaries(after) {
    }
    DifferenceWithAllMatched(desired, after);
    forall i | 0 <= i < |after| ensures after[i].boundary in Boundaries(desired) {
    }
    DifferenceWithAllMatched(after, desired);
  }

  /**
   On a table that already holds today's window the corrected run plans
   nothing, where the code as written drops the oldest partition
   (`Reconcile.SameDayRerunDropsOldest`).
   */
  lemma IntendedRerunOnWindow(now: int, retention: int, p: Pattern)
    ensures IntendedRepartition(now, retention, Window(now, retention, NameOf(p)), p) == Plan([], [])
  {
    var w := Window(now, retention, NameOf(p));
    var oldest := OldestBoundary(w);
    WindowShape(now, retention, NameOf(p));
    forall i | 0 <= i < |w| ensures KeptAtFloor(oldest, w[i]) {
      KeptAtFloorSome(w, w[i]);
    }
    FilterKeepingAll(w, e => KeptAtFloor(oldest, e));
    forall i | 0 <= i < |w| ensures w[i].boundary in Boundaries(w) {
    }
    DifferenceWithAllMatched(w, w);
  }

  /**
   The correction keeps the daily roll the end-to-end test checks: against
   yesterday's window both floors plan the same creations and drops.
   */
  lemma IntendedDailyRoll(now: int, retention: int, p: Pattern)
    requires retention > 0
    ensures var yesterday := Window(now - 1, retention, NameOf(p));
      IntendedRepartition(now, retention, yesterday, p) == Repartition(now, retention, yesterday, p)
  {
    var yesterday := Window(now - 1, retention, NameOf(p));
    var oldest := OldestBoundary(yesterday);
    assert oldest.Finite? && oldest.value <= now - retention + 1 by {
      WindowShape(now - 1, retention, NameOf(p));
      var i :| 0 <= i < |yesterday| && yesterday[i].boundary == oldest.value;
    }
    KeptAboveFloor(now, retention, oldest, NameOf(p));
    RollPlansToday(now, retention, p);
  }

  /** With the floor at or below the window's oldest day, the intended floor keeps the whole window. */
  lemma KeptAboveFloor(now: int, retention: int, oldest: Oldest, name: Namer)
    requires oldest.Finite? && oldest.value <= now - retention + 1
    ensures Filter(Window(now, retention, name), e => KeptAtFloor(oldest, e)) == Window(now, retention, name)
  {
    var w := Window(now, retention, name);
    assert forall i :: 0 <= i < |w| ==> KeptAtFloor(oldest, w[i]) by {
      WindowShape(now, retention, name);
    }
    FilterKeepingAll(w, e => KeptAtFloor(oldest, e));
  }

  /**
   On a table without gaps MySQL accepts the corrected statement too: every
   partition it creates lies at or above the oldest bound and is missing
   from the table, so it lies above the newest.
   */
  lemma IntendedConsecutiveAccepted(now: int, retention: int, current: seq<Partition>, p: Pattern)
    requires Consecutive(current)
    ensures Accepted(current, IntendedRepartition(now, retention, current, p))
  {
    var plan := IntendedRepartition(now, retention, current, p);
    forall i, j | 0 <= i < |plan.toCreate| && 0 <= j < |current|
      ensures current[j].boundary < plan.toCreate[i].boundary
    {
      var x := plan.toCreate[i];
      assert x in plan.toCreate;
      var k :| 0 <= k < |current| && current[k].boundary <= x.boundary;
      ConsecutiveSpan(current, k);
      AboveConsecutive(current, x.boundary);
    }
  }
}
