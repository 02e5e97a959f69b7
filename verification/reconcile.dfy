/**
 `Table.repartition`: plan the window, diff it against the partitions the
 table has, and write the create statement followed by the drop statement.
 */
module Reconcile {
  import opened Seqs
  import opened Text
  import opened Dates
  import opened Planner
  import opened Differ
  import opened Ddl

  /** Some current boundary lies strictly below `b`: the floor the planner applies. */
  ghost predicate AboveSome(current: seq<Partition>, b: int)
  {
    exists i :: 0 <= i < |current| && current[i].boundary < b
  }

  /**
   The two lists `Table.repartition` computes: the window entries above the
   oldest current boundary that the table lacks, in window order, and the
   current partitions no such entry matches by boundary, in current order.
   */
  function Repartition(now: int, retention: int, current: seq<Partition>, p: Pattern): (plan: Plan)
    ensures forall x :: x in plan.toCreate <==>
      x in Window(now, retention, NameOf(p)) && AboveSome(current, x.boundary)
      && x.boundary !in Boundaries(current)
    ensures forall x :: x in plan.toDrop <==>
      x in current && x.boundary !in Boundaries(PartitionsThatShouldExist(now, retention, current, p))
    ensures Ascending(plan.toCreate) && IsSubsequence(plan.toDrop, current)
  {
    Diff(PartitionsThatShouldExist(now, retention, current, p), current)
  }

  /**
   The dedented two-line template `${create}\n${drop}`: dedent trims the
   result, so an empty part leaves no blank line behind.
   */
  function Combine(create: string, drop: string): (s: string)
    ensures s == "" <==> create == "" && drop == ""
  {
    if create == "" then drop
    else if drop == "" then create
    else create + "\n" + drop
  }

  /** The statement `Table.repartition` hands to `knex.raw`. */
  function Statement(plan: Plan): (s: string)
    ensures s == "" <==> plan.toCreate == [] && plan.toDrop == []
  {
    Combine(ReorganizeFuturePartition(plan.toCreate), DropOldPartitions(plan.toDrop))
  }

  /**
   With both parts present the statement is the reorganize statement's lines
   followed by the drop statement's lines: partitions are created before any
   is dropped.
   */
  lemma StatementLines(plan: Plan)
    requires |plan.toCreate| > 0 && |plan.toDrop| > 0
    requires forall i :: 0 <= i < |plan.toCreate| ==> NoNewline(plan.toCreate[i].name)
    requires forall i :: 0 <= i < |plan.toDrop| ==> NoNewline(plan.toDrop[i].name)
    ensures SplitLines(Statement(plan))
      == ReorganizeHead + PartitionLines(plan.toCreate) + ReorganizeTail
        + DropHead + DropLines(Names(plan.toDrop))
  {
    var create := ReorganizeHead + PartitionLines(plan.toCreate) + ReorganizeTail;
    var drop := DropHead + DropLines(Names(plan.toDrop));
    ReorganizeLines(plan.toCreate);
    DropStatementLines(plan.toDrop);
    JoinLinesAppend(create, drop);
    PartitionLinesNoNewline(plan.toCreate);
    DropLinesNoNewline(plan.toDrop);
    var lines := create + drop;
    forall i | 0 <= i < |lines| ensures NoNewline(lines[i]) {
      if i < |create| {
        assert lines[i] == create[i];
      } else {
        assert lines[i] == drop[i - |create|];
      }
    }
    SplitJoinLines(lines);
  }

  /** With an empty current list nothing is planned and the statement is empty. */
  lemma EmptyTablePlansNothing(now: int, retention: int, p: Pattern)
    ensures Repartition(now, retention, [], p) == Plan([], [])
    ensures Statement(Repartition(now, retention, [], p)) == ""
  {
    var plan := Repartition(now, retention, [], p);
    EmptyIffNoMembers(plan.toCreate);
    EmptyIffNoMembers(plan.toDrop);
  }

  /**
   The oldest current partition is always dropped: every planned entry lies
   strictly above the oldest boundary, so nothing planned matches it.
   */
  lemma OldestAlwaysDropped(now: int, retention: int, current: seq<Partition>, p: Pattern)
    requires |current| > 0
    ensures forall i :: 0 <= i < |current| && current[i].boundary == MinBoundary(current) ==>
      current[i] in Repartition(now, retention, current, p).toDrop
  {
    var desired := PartitionsThatShouldExist(now, retention, current, p);
    var m := MinBoundary(current);
    forall j | 0 <= j < |desired| ensures desired[j].boundary != m {
      assert desired[j] in desired;
    }
  }

  /** A planned entry is named for a day, so it is never a sentinel. */
  lemma PlannedNotSentinel(now: int, retention: int, p: Pattern, x: Partition)
    requires x in Window(now, retention, NameOf(p))
    ensures !IsSentinelName(x.name)
  {
    WindowMember(now, retention, NameOf(p), x);
    PartitionNameNotSentinel(p, x.boundary - 1);
  }

  /**
   Neither sentinel is ever touched: planned names all start with `from`, and
   dropped names come from a current list that holds no sentinel.
   */
  lemma SentinelsUntouched(now: int, retention: int, current: seq<Partition>, p: Pattern)
    requires forall i :: 0 <= i < |current| ==> !IsSentinelName(current[i].name)
    ensures var plan := Repartition(now, retention, current, p);
      && (forall i :: 0 <= i < |plan.toCreate| ==> !IsSentinelName(plan.toCreate[i].name))
      && (forall i :: 0 <= i < |plan.toDrop| ==> !IsSentinelName(plan.toDrop[i].name))
  {
    var plan := Repartition(now, retention, current, p);
    forall i | 0 <= i < |plan.toCreate| ensures !IsSentinelName(plan.toCreate[i].name) {
      assert plan.toCreate[i] in plan.toCreate;
      PlannedNotSentinel(now, retention, p, plan.toCreate[i]);
    }
    forall i | 0 <= i < |plan.toDrop| ensures !IsSentinelName(plan.toDrop[i].name) {
      assert plan.toDrop[i] in plan.toDrop;
    }
  }

  /**
   Running again on the same day after MySQL has accepted the statements
   creates nothing more: the create side settles.
   */
  lemma CreateSideSettles(now: int, retention: int, current: seq<Partition>, p: Pattern)
    requires Accepted(current, Repartition(now, retention, current, p))
    ensures var after := Run(current, Repartition(now, retention, current, p));
      Repartition(now, retention, after, p).toCreate == []
  {
    var desired := PartitionsThatShouldExist(now, retention, current, p);
    var after := Run(current, Repartition(now, retention, current, p));
    var again := Repartition(now, retention, after, p);
    RunReachesDesired(desired, current);
    forall x | x in Window(now, retention, NameOf(p)) && AboveSome(after, x.boundary)
      ensures x.boundary in Boundaries(after)
    {
      SettledBoundary(now, retention, current, p, after, x);
    }
    EmptyIffNoMembers(again.toCreate);
  }

  /**
   A window entry above some boundary of a table holding the desired
   boundaries is itself desired, so the table already holds its boundary.
   */
  lemma SettledBoundary(now: int, retention: int, current: seq<Partition>, p: Pattern, after: seq<Partition>, x: Partition)
    requires Boundaries(after) == Boundaries(PartitionsThatShouldExist(now, retention, current, p))
    requires x in Window(now, retention, NameOf(p)) && AboveSome(after, x.boundary)
    ensures x.boundary in Boundaries(after)
  {
    var desired := PartitionsThatShouldExist(now, retention, current, p);
    var k :| 0 <= k < |after| && after[k].boundary < x.boundary;
    assert after[k].boundary in Boundaries(after);
    var j :| 0 <= j < |desired| && desired[j].boundary == after[k].boundary;
    assert desired[j] in desired;
    assert x in desired;
    var i :| 0 <= i < |desired| && desired[i] == x;
  }

  /**
   The drop side never settles: whenever the table holds a partition after
   the statements have run, the next run on the same day drops again.
   */
  lemma DropSideNeverSettles(now: int, retention: int, current: seq<Partition>, p: Pattern)
    ensures var after := Run(current, Repartition(now, retention, current, p));
      |after| > 0 ==> |Repartition(now, retention, after, p).toDrop| > 0
  {
    var after := Run(current, Repartition(now, retention, current, p));
    if |after| > 0 {
      OldestAlwaysDropped(now, retention, after, p);
      var m := MinBoundary(after);
      var i :| 0 <= i < |after| && after[i].boundary == m;
      assert after[i] in Repartition(now, retention, after, p).toDrop;
    }
  }

  /**
   The daily roll. When the table holds yesterday's window, today's run
   creates exactly today's partition and drops exactly the oldest one, and
   once the statements have run the table holds today's window.
   */
  lemma DailyRoll(now: int, retention: int, p: Pattern)
    requires retention > 0
    ensures var yesterday := Window(now - 1, retention, NameOf(p));
      var today := Window(now, retention, NameOf(p));
      var plan := Repartition(now, retention, yesterday, p);
      && plan == Plan([today[retention - 1]], [yesterday[0]])
      && Accepted(yesterday, plan)
      && Run(yesterday, plan) == today
  {
    RollPlansToday(now, retention, p);
    RollCreates(now, retention, NameOf(p));
    RollDrops(now, retention, NameOf(p));
    RollAccepted(now, retention, NameOf(p));
    RollApplies(now, retention, NameOf(p));
  }

  /** Today's newest partition lies above every partition of yesterday's window. */
  lemma RollAccepted(now: int, retention: int, name: Namer)
    requires retention > 0
    ensures var yesterday := Window(now - 1, retention, name);
      var today := Window(now, retention, name);
      Accepted(yesterday, Plan([today[retention - 1]], [yesterday[0]]))
  {
    WindowShape(now - 1, retention, name);
    WindowShape(now, retention, name);
  }

  /** Of today's window only the newest entry is missing from yesterday's. */
  lemma RollCreates(now: int, retention: int, name: Namer)
    requires retention > 0
    ensures var yesterday := Window(now - 1, retention, name);
      var today := Window(now, retention, name);
      DifferenceWith(today, yesterday) == [today[retention - 1]]
  {
    var yesterday := Window(now - 1, retention, name);
    var today := Window(now, retention, name);
    WindowShape(now - 1, retention, name);
    WindowShape(now, retention, name);
    var init := today[..retention - 1];
    var last := [today[retention - 1]];
    assert today == init + last;
    forall i | 0 <= i < |init| ensures init[i].boundary in Boundaries(yesterday) {
      assert yesterday[i + 1].boundary == init[i].boundary;
    }
    DifferenceWithAllMatched(init, yesterday);
    DifferenceWithNoneMatched(last, yesterday);
    DifferenceWithAppend(init, last, yesterday);
  }

  /** Of yesterday's window only the oldest entry is missing from today's. */
  lemma RollDrops(now: int, retention: int, name: Namer)
    requires retention > 0
    ensures var yesterday := Window(now - 1, retention, name);
      var today := Window(now, retention, name);
      DifferenceWith(yesterday, today) == [yesterday[0]]
  {
    var yesterday := Window(now - 1, retention, name);
    var today := Window(now, retention, name);
    WindowShape(now - 1, retention, name);
    WindowShape(now, retention, name);
    var first := [yesterday[0]];
    var rest := yesterday[1..];
    assert yesterday == first + rest;
    forall i | 0 <= i < |rest| ensures rest[i].boundary in Boundaries(today) {
      assert today[i].boundary == rest[i].boundary;
    }
    DifferenceWithNoneMatched(first, today);
    DifferenceWithAllMatched(rest, today);
    DifferenceWithAppend(first, rest, today);
  }

  /** Removing the oldest entry of yesterday's window and adding today's newest gives today's window. */
  lemma RollApplies(now: int, retention: int, name: Namer)
    requires retention > 0
    ensures var yesterday := Window(now - 1, retention, name);
      var today := Window(now, retention, name);
      Apply(yesterday, Plan([today[retention - 1]], [yesterday[0]])) == today
  {
    RollKeepsRest(now, retention, name);
    WindowAdvances(now, retention, name);
  }

  /** Dropping the oldest entry of a window keeps the others, in order. */
  lemma RollKeepsRest(now: int, retention: int, name: Namer)
    requires retention > 0
    ensures var yesterday := Window(now - 1, retention, name);
      DifferenceWith(yesterday, [yesterday[0]]) == yesterday[1..]
  {
    var yesterday := Window(now - 1, retention, name);
    WindowShape(now - 1, retention, name);
    var first := [yesterday[0]];
    var rest := yesterday[1..];
    assert yesterday == first + rest;
    DifferenceWithAllMatched(first, first);
    forall i | 0 <= i < |rest| ensures rest[i].boundary !in Boundaries(first) {
    }
    DifferenceWithNoneMatched(rest, first);
    DifferenceWithAppend(first, rest, first);
  }

  /** Yesterday's window without its oldest entry, followed by today's newest, is today's window. */
  lemma WindowAdvances(now: int, retention: int, name: Namer)
    requires retention > 0
    ensures var yesterday := Window(now - 1, retention, name);
      var today := Window(now, retention, name);
      yesterday[1..] + [today[retention - 1]] == today
  {
    var yesterday := Window(now - 1, retention, name);
    var today := Window(now, retention, name);
    forall i | 0 <= i < retention - 1 ensures yesterday[1..][i] == today[i] {
      WindowShift(now, retention, name, i);
    }
  }

  /** Yesterday's window shifted by one day is today's. */
  lemma WindowShift(now: int, retention: int, name: Namer, i: int)
    requires 0 <= i < retention - 1
    ensures Window(now - 1, retention, name)[i + 1] == Window(now, retention, name)[i]
  {
    var day := now - retention + 1 + i;
    WindowAt(now - 1, retention, name, i + 1);
    WindowAt(now, retention, name, i);
    assert (now - 1) - retention + 1 + (i + 1) == day;
  }

  /** Planning on the day after yesterday's window keeps all of today's window. */
  lemma RollPlansToday(now: int, retention: int, p: Pattern)
    requires retention > 0
    ensures PartitionsThatShouldExist(now, retention, Window(now - 1, retention, NameOf(p)), p)
      == Window(now, retention, NameOf(p))
  {
    var yesterday := Window(now - 1, retention, NameOf(p));
    var m := now - retention + 1;
    assert OldestBoundary(yesterday) == Finite(m) by {
      WindowShape(now - 1, retention, NameOf(p));
      var i :| 0 <= i < |yesterday| && yesterday[i].boundary == OldestBoundary(yesterday).value;
    }
    PlanAboveFloor(now, retention, m, NameOf(p));
  }

  /** With the floor at or below the window's oldest day, the planner keeps the whole window. */
  lemma PlanAboveFloor(now: int, retention: int, m: int, name: Namer)
    requires m <= now - retention + 1
    ensures PlanWindow(now, retention, Finite(m), name) == Window(now, retention, name)
  {
    var today := Window(now, retention, name);
    var keep := e => Admitted(Finite(m), e);
    assert forall i :: 0 <= i < |today| ==> keep(today[i]) by {
      WindowShape(now, retention, name);
    }
    FilterKeepingAll(today, keep);
    PlanWindowIsFilteredWindow(now, retention, Finite(m), name);
  }


  /**
   The same-day re-run, as the code is written. On a table that already
   holds today's window, the floor skips the oldest entry, whose day lies
   one below the oldest boundary, so the run plans nothing to create and
   drops the oldest partition.
   */
  lemma SameDayRerunDropsOldest(now: int, retention: int, p: Pattern)
    requires retention > 0
    ensures var w := Window(now, retention, NameOf(p));
      Repartition(now, retention, w, p) == Plan([], [w[0]])
  {
    var w := Window(now, retention, NameOf(p));
    SameDayPlansTail(now, retention, p);
    WindowShape(now, retention, NameOf(p));
    DiffAgainstTail(w);
  }

  /** On a table holding today's window, the floor keeps every entry but the oldest. */
  lemma SameDayPlansTail(now: int, retention: int, p: Pattern)
    requires retention > 0
    ensures var w := Window(now, retention, NameOf(p));
      PartitionsThatShouldExist(now, retention, w, p) == w[1..]
  {
    var w := Window(now, retention, NameOf(p));
    assert OldestBoundary(w) == Finite(w[0].boundary) by {
      WindowShape(now, retention, NameOf(p));
      var i :| 0 <= i < |w| && w[i].boundary == OldestBoundary(w).value;
    }
    PlanAtOwnFloor(now, retention, NameOf(p));
  }

  /** With the floor at the window's own oldest boundary, the planner keeps all but the oldest entry. */
  lemma PlanAtOwnFloor(now: int, retention: int, name: Namer)
    requires retention > 0
    ensures var w := Window(now, retention, name);
      PlanWindow(now, retention, Finite(w[0].boundary), name) == w[1..]
  {
    var w := Window(now, retention, name);
    var oldest := Finite(w[0].boundary);
    var keep := e => Admitted(oldest, e);
    assert forall i :: 1 <= i < |w| ==> keep(w[i]) by {
      WindowShape(now, retention, name);
    }
    FilterDropsHead(w, keep);
    PlanWindowIsFilteredWindow(now, retention, oldest, name);
  }

  /** Filtering out the head and keeping everything after it leaves the tail. */
  lemma FilterDropsHead(w: seq<Partition>, keep: Partition -> bool)
    requires |w| > 0 && !keep(w[0])
    requires forall i :: 1 <= i < |w| ==> keep(w[i])
    ensures Filter(w, keep) == w[1..]
  {
    FilterKeepingAll(w[1..], keep);
  }

  /** Planning an ascending list without its head against the list creates nothing and drops the head. */
  lemma DiffAgainstTail(w: seq<Partition>)
    requires |w| > 0 && Ascending(w)
    ensures Diff(w[1..], w) == Plan([], [w[0]])
  {
    var rest := w[1..];
    forall i | 0 <= i < |rest| ensures rest[i].boundary in Boundaries(w) {
      assert w[i + 1] == rest[i];
    }
    DifferenceWithAllMatched(rest, w);
    forall i | 0 <= i < |rest| ensures rest[i].boundary in Boundaries(rest) {
    }
    DifferenceWithAllMatched(rest, rest);
    IncludesWithBoundaries(rest, w[0]);
    assert DifferenceWith(w, rest) == [w[0]];
  }

  /** A table without gaps: each partition's bound is one above the previous one's. */
  predicate Consecutive(current: seq<Partition>)
  {
    forall i :: 0 <= i < |current| - 1 ==> current[i + 1].boundary == current[i].boundary + 1
  }

  /** In a table without gaps the bound at position `i` is `i` above the oldest. */
  lemma {:induction false} ConsecutiveSpan(current: seq<Partition>, i: int)
    requires Consecutive(current) && 0 <= i < |current|
    ensures current[i].boundary == current[0].boundary + i
  {
    if i > 0 {
      ConsecutiveSpan(current, i - 1);
    }
  }

  /** A bound at or above the oldest of a table without gaps that the table lacks lies above all of it. */
  lemma AboveConsecutive(current: seq<Partition>, b: int)
    requires Consecutive(current) && |current| > 0
    requires current[0].boundary <= b && b !in Boundaries(current)
    ensures forall j :: 0 <= j < |current| ==> current[j].boundary < b
  {
    forall j | 0 <= j < |current| ensures current[j].boundary < b {
      ConsecutiveSpan(current, j);
      if b <= current[j].boundary {
        ConsecutiveSpan(current, b - current[0].boundary);
        assert false;
      }
    }
  }

  /**
   On a table without gaps MySQL accepts the statement: every partition the
   run creates lies above the oldest bound and is missing from the table,
   so it lies above the newest.
   */
  lemma ConsecutiveAccepted(now: int, retention: int, current: seq<Partition>, p: Pattern)
    requires Consecutive(current)
    ensures Accepted(current, Repartition(now, retention, current, p))
  {
    var plan := Repartition(now, retention, current, p);
    forall i, j | 0 <= i < |plan.toCreate| && 0 <= j < |current|
      ensures current[j].boundary < plan.toCreate[i].boundary
    {
      var x := plan.toCreate[i];
      assert x in plan.toCreate;
      var k :| 0 <= k < |current| && current[k].boundary < x.boundary;
      ConsecutiveSpan(current, k);
      AboveConsecutive(current, x.boundary);
    }
  }

  /** A list in bound order whose bounds fill an interval has no gap. */
  lemma IntervalConsecutive(s: seq<Partition>, lo: int, hi: int)
    requires Ascending(s)
    requires forall v :: v in Boundaries(s) <==> lo <= v <= hi
    ensures Consecutive(s)
  {
    forall i | 0 <= i < |s| - 1 ensures s[i + 1].boundary == s[i].boundary + 1 {
      assert s[i].boundary in Boundaries(s);
      assert s[i + 1].boundary in Boundaries(s);
      assert s[i].boundary + 1 in Boundaries(s);
      var k :| 0 <= k < |s| && s[k].boundary == s[i].boundary + 1;
      assert k > i;
      assert s[i + 1].boundary <= s[k].boundary;
    }
  }

  /** The lower end of the planned bounds on a table without gaps: the window's first bound or one above the oldest bound. */
  function PlannedLow(now: int, retention: int, current: seq<Partition>): int
    requires |current| > 0
  {
    if now - retention + 2 < current[0].boundary + 1 then current[0].boundary + 1 else now - retention + 2
  }

  /**
   Without gaps the planned boundaries are the interval from `PlannedLow`
   to `now + 1`: every window bound above the oldest bound.
   */
  lemma PlannedInterval(now: int, retention: int, current: seq<Partition>, p: Pattern)
    requires Consecutive(current) && |current| > 0
    ensures forall v :: v in Boundaries(PartitionsThatShouldExist(now, retention, current, p)) <==>
      PlannedLow(now, retention, current) <= v <= now + 1
  {
    forall v ensures v in Boundaries(PartitionsThatShouldExist(now, retention, current, p)) <==>
      PlannedLow(now, retention, current) <= v <= now + 1
    {
      if v in Boundaries(PartitionsThatShouldExist(now, retention, current, p)) {
        PlannedWithin(now, retention, current, p, v);
      }
      if PlannedLow(now, retention, current) <= v <= now + 1 {
        PlannedCovers(now, retention, current, p, v);
      }
    }
  }

  lemma PlannedWithin(now: int, retention: int, current: seq<Partition>, p: Pattern, v: int)
    requires Consecutive(current) && |current| > 0
    requires v in Boundaries(PartitionsThatShouldExist(now, retention, current, p))
    ensures PlannedLow(now, retention, current) <= v <= now + 1
  {
    var desired := PartitionsThatShouldExist(now, retention, current, p);
    var i :| 0 <= i < |desired| && desired[i].boundary == v;
    assert desired[i] in desired;
    var k :| 0 <= k < |current| && current[k].boundary < v;
    ConsecutiveSpan(current, k);
    WindowBounds(now, retention, NameOf(p), desired[i]);
  }

  /** Every window entry is bounded between the window's first bound and `now + 1`. */
  lemma WindowBounds(now: int, retention: int, name: Namer, x: Partition)
    requires x in Window(now, retention, name)
    ensures now - retention + 2 <= x.boundary <= now + 1
  {
    var w := Window(now, retention, name);
    var m :| 0 <= m < |w| && w[m] == x;
    WindowAt(now, retention, name, m);
  }

  lemma PlannedCovers(now: int, retention: int, current: seq<Partition>, p: Pattern, v: int)
    requires Consecutive(current) && |current| > 0
    requires PlannedLow(now, retention, current) <= v <= now + 1
    ensures v in Boundaries(PartitionsThatShouldExist(now, retention, current, p))
  {
    var desired := PartitionsThatShouldExist(now, retention, current, p);
    var w := Window(now, retention, NameOf(p));
    WindowShape(now, retention, NameOf(p));
    var x := w[v - (now - retention + 2)];
    assert x in w && current[0].boundary < x.boundary;
    assert x in desired;
    var i :| 0 <= i < |desired| && desired[i] == x;
  }

  /**
   A table without gaps keeps none after the run, whatever the day and the
   retention: the statement is accepted, the planned bounds fill an
   interval and the table stays in bound order. A table `Table.create`
   built, a single window, therefore stays accepted run after run.
   */
  lemma RunKeepsConsecutive(now: int, retention: int, current: seq<Partition>, p: Pattern)
    requires Consecutive(current)
    ensures Consecutive(Run(current, Repartition(now, retention, current, p)))
  {
    var plan := Repartition(now, retention, current, p);
    var desired := PartitionsThatShouldExist(now, retention, current, p);
    var after := Run(current, plan);
    if |current| > 0 {
      ConsecutiveAccepted(now, retention, current, p);
      RunReachesDesired(desired, current);
      assert Ascending(current) by {
        forall i, j | 0 <= i < j < |current| ensures current[i].boundary < current[j].boundary {
          ConsecutiveSpan(current, i);
          ConsecutiveSpan(current, j);
        }
      }
      RunKeepsAscending(current, plan);
      PlannedInterval(now, retention, current, p);
      IntervalConsecutive(after, PlannedLow(now, retention, current), now + 1);
    } else {
      EmptyIffNoMembers(plan.toCreate);
      assert after == [];
    }
  }

  /** The window `Table.create` writes has no gap. */
  lemma WindowConsecutive(now: int, retention: int, p: Pattern)
    ensures Consecutive(Window(now, retention, NameOf(p)))
  {
    WindowShape(now, retention, NameOf(p));
  }

  /** One call `Table.removeExpired(retention)` made on day `day`. */
  datatype RunCall = RunCall(day: int, retention: int)

  /**
   The table after the given calls, in order. Each call brings its own day
   and its own `dataRetention` argument.
   */
  function RunOn(current: seq<Partition>, calls: seq<RunCall>, p: Pattern): seq<Partition>
    decreases |calls|
  {
    if |calls| == 0 then current
    else RunOn(Run(current, Repartition(calls[0].day, calls[0].retention, current, p)), calls[1..], p)
  }

  /** No call, whatever its day and retention, opens a gap in a table without one. */
  lemma {:induction false} RunsKeepConsecutive(current: seq<Partition>, calls: seq<RunCall>, p: Pattern)
    requires Consecutive(current)
    ensures Consecutive(RunOn(current, calls, p))
    decreases |calls|
  {
    if |calls| > 0 {
      var c := calls[0];
      RunKeepsConsecutive(c.day, c.retention, current, p);
      RunsKeepConsecutive(Run(current, Repartition(c.day, c.retention, current, p)), calls[1..], p);
    }
  }

  /**
   A table `Table.create` built on day `created` with `MAX_DATA_RETENTION`
   = `createdRetention` stays accepted run after run: after any sequence of
   calls, on any days and with any `dataRetention` arguments, MySQL accepts
   the statement of the next call, whatever its day and retention.
   */
  lemma CreatedTableStaysAccepted(created: int, createdRetention: int, calls: seq<RunCall>, now: int, retention: int, p: Pattern)
    ensures var table := RunOn(Window(created, createdRetention, NameOf(p)), calls, p);
      Accepted(table, Repartition(now, retention, table, p))
  {
    var table := RunOn(Window(created, createdRetention, NameOf(p)), calls, p);
    WindowConsecutive(created, createdRetention, p);
    RunsKeepConsecutive(Window(created, createdRetention, NameOf(p)), calls, p);
    ConsecutiveAccepted(now, retention, table, p);
  }

  /**
   A table with a gap can be rejected. With partitions at `now - 1` and
   `now + 1` and a retention of three days, the floor admits the entry at
   `now`, which lies below the partition at `now + 1`: MySQL refuses the
   reorganize and the table stays as it was, so every later run on that
   day plans the same rejected statement.
   */
  lemma GapRejected(now: int, p: Pattern)
    ensures var current := [Partition("a", now - 1), Partition("c", now + 1)];
      var plan := Repartition(now, 3, current, p);
      && !Accepted(current, plan)
      && Run(current, plan) == current
  {
    var current := [Partition("a", now - 1), Partition("c", now + 1)];
    var plan := Repartition(now, 3, current, p);
    var x := GapCreatesBelow(now, p);
    var i :| 0 <= i < |plan.toCreate| && plan.toCreate[i] == x;
    assert current[1].boundary > plan.toCreate[i].boundary;
  }

  /** In that table the run creates a partition bounded by `now`. */
  lemma GapCreatesBelow(now: int, p: Pattern) returns (x: Partition)
    ensures x.boundary == now
    ensures x in Repartition(now, 3, [Partition("a", now - 1), Partition("c", now + 1)], p).toCreate
  {
    var current := [Partition("a", now - 1), Partition("c", now + 1)];
    var w := Window(now, 3, NameOf(p));
    WindowShape(now, 3, NameOf(p));
    x := w[1];
    assert x in w && current[0].boundary < x.boundary;
    assert x.boundary !in Boundaries(current);
  }
}
