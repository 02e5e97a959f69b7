/**
 The differ inside `Table.repartition`: two `_.differenceWith` calls whose
 comparator looks at `description` (the boundary) only. What should exist
 but does not is created; what exists but should not is dropped.
 */
module Differ {
  import opened Seqs
  import opened Planner

  /** lodash `arrayIncludesWith` with the comparator `(a, b) => a.description === b.description`. */
  predicate IncludesWith(b: seq<Partition>, x: Partition)
  {
    |b| > 0 && (x.boundary == b[0].boundary || IncludesWith(b[1..], x))
  }

  /**
   `_.differenceWith(a, b, sameDescription)`: walk `a` in order and keep each
   element that the comparator matches against no element of `b`.
   */
  function DifferenceWith(a: seq<Partition>, b: seq<Partition>): seq<Partition>
  {
    if |a| == 0 then []
    else if IncludesWith(b, a[0]) then DifferenceWith(a[1..], b)
    else [a[0]] + DifferenceWith(a[1..], b)
  }

  /** The comparator search succeeds exactly when `b` carries the boundary of `x`. */
  lemma {:induction false} IncludesWithBoundaries(b: seq<Partition>, x: Partition)
    ensures IncludesWith(b, x) <==> x.boundary in Boundaries(b)
  {
    if |b| > 0 {
      IncludesWithBoundaries(b[1..], x);
      assert Boundaries(b) == {b[0].boundary} + Boundaries(b[1..]) by {
        forall v | v in Boundaries(b) ensures v in {b[0].boundary} + Boundaries(b[1..]) {
          var i :| 0 <= i < |b| && b[i].boundary == v;
          if i > 0 {
            assert b[1..][i - 1].boundary == v;
          }
        }
        forall v | v in Boundaries(b[1..]) ensures v in Boundaries(b) {
          var i :| 0 <= i < |b[1..]| && b[1..][i].boundary == v;
          assert b[i + 1].boundary == v;
        }
      }
    }
  }

  /** A partition whose boundary `b` does not carry, the predicate the difference filters by. */
  predicate Unmatched(b: seq<Partition>, x: Partition)
  {
    x.boundary !in Boundaries(b)
  }

  /**
   The lodash walk is the order-preserving filter of `a` by "no element of
   `b` has this boundary": an independent, set-based description of it.
   */
  lemma {:induction false} DifferenceWithIsFilter(a: seq<Partition>, b: seq<Partition>)
    ensures DifferenceWith(a, b) == Filter(a, x => Unmatched(b, x))
  {
    if |a| > 0 {
      IncludesWithBoundaries(b, a[0]);
      DifferenceWithIsFilter(a[1..], b);
    }
  }

  /**
   What the difference holds: every occurrence of each element of `a` whose
   boundary `b` lacks, nothing else, in the order of `a`.
   */
  lemma DifferenceWithSpec(a: seq<Partition>, b: seq<Partition>)
    ensures var r := DifferenceWith(a, b);
      && IsSubsequence(r, a)
      && (forall x :: multiset(r)[x] == if Unmatched(b, x) then multiset(a)[x] else 0)
      && (forall x :: x in r <==> x in a && x.boundary !in Boundaries(b))
  {
    DifferenceWithIsFilter(a, b);
    FilterSpec(a, x => Unmatched(b, x));
  }

  /**
   Names are never consulted: replacing `b` by any list with the same
   boundaries, whatever its names, gives the same difference.
   */
  lemma NamesIgnored(a: seq<Partition>, b: seq<Partition>, b': seq<Partition>)
    requires Boundaries(b) == Boundaries(b')
    ensures DifferenceWith(a, b) == DifferenceWith(a, b')
  {
    DifferenceWithIsFilter(a, b);
    DifferenceWithIsFilter(a, b');
    FilterCongruence(a, x => Unmatched(b, x), x => Unmatched(b', x));
  }

  /** The boundaries left after the difference are those of `a` that `b` lacks. */
  lemma DifferenceBoundaries(a: seq<Partition>, b: seq<Partition>)
    ensures Boundaries(DifferenceWith(a, b)) == Boundaries(a) - Boundaries(b)
  {
    var r := DifferenceWith(a, b);
    DifferenceWithSpec(a, b);
    forall v | v in Boundaries(a) - Boundaries(b) ensures v in Boundaries(r) {
      var i :| 0 <= i < |a| && a[i].boundary == v;
      assert a[i] in r;
      var j :| 0 <= j < |r| && r[j] == a[i];
    }
    forall v | v in Boundaries(r) ensures v in Boundaries(a) - Boundaries(b) {
      var j :| 0 <= j < |r| && r[j].boundary == v;
      assert r[j] in a;
      var i :| 0 <= i < |a| && a[i] == r[j];
    }
  }

  /** The two lists `Table.repartition` derives before writing any text. */
  datatype Plan = Plan(toCreate: seq<Partition>, toDrop: seq<Partition>)

  /**
   `partitionsToBeCreated` and `partitionsToBeDropped`: each side of the plan
   holds exactly the entries of its source list whose boundary the other list
   lacks, keeps its source order, and an ascending desired list gives an
   ascending creation list.
   */
  function Diff(desired: seq<Partition>, current: seq<Partition>): (plan: Plan)
    ensures forall x :: x in plan.toCreate <==> x in desired && x.boundary !in Boundaries(current)
    ensures forall x :: x in plan.toDrop <==> x in current && x.boundary !in Boundaries(desired)
    ensures IsSubsequence(plan.toCreate, desired) && IsSubsequence(plan.toDrop, current)
    ensures Ascending(desired) ==> Ascending(plan.toCreate)
  {
    DifferenceWithSpec(desired, current);
    DifferenceWithSpec(current, desired);
    assert Ascending(desired) ==> Ascending(DifferenceWith(desired, current)) by {
      if Ascending(desired) {
        SubsequenceAscending(DifferenceWith(desired, current), desired);
      }
    }
    Plan(DifferenceWith(desired, current), DifferenceWith(current, desired))
  }

  /**
   The partitions the table holds once the plan's statements have run:
   `future` is split into the created ones after everything that stays.
   */
  function Apply(current: seq<Partition>, plan: Plan): seq<Partition>
  {
    DifferenceWith(current, plan.toDrop) + plan.toCreate
  }

  /**
   MySQL's condition for `REORGANIZE PARTITION future INTO (…)`: the new
   partitions must cover exactly the range `future` covered, so their bounds
   ascend strictly and each lies above the bound of the partition before
   `future`, the highest bound the table holds. The statement runs before
   the drop, so every current partition counts. With nothing to create the
   reorganize text is empty and only the drop runs.
   */
  predicate Accepted(current: seq<Partition>, plan: Plan)
  {
    && Ascending(plan.toCreate)
    && forall i, j :: 0 <= i < |plan.toCreate| && 0 <= j < |current| ==>
         current[j].boundary < plan.toCreate[i].boundary
  }

  /**
   The table after `knex.raw(statement)`: the plan's effect when MySQL
   accepts the reorganize; otherwise the first statement fails, the query
   stops there and the table is unchanged.
   */
  function Run(current: seq<Partition>, plan: Plan): seq<Partition>
  {
    if Accepted(current, plan) then Apply(current, plan) else current
  }

  lemma BoundariesOfConcat(a: seq<Partition>, b: seq<Partition>)
    ensures Boundaries(a + b) == Boundaries(a) + Boundaries(b)
  {
    var c := a + b;
    forall v | v in Boundaries(c) ensures v in Boundaries(a) + Boundaries(b) {
      var i :| 0 <= i < |c| && c[i].boundary == v;
      if i >= |a| {
        assert b[i - |a|].boundary == v;
      }
    }
    forall v | v in Boundaries(a) + Boundaries(b) ensures v in Boundaries(c) {
      if v in Boundaries(a) {
        var i :| 0 <= i < |a| && a[i].boundary == v;
        assert c[i].boundary == v;
      } else {
        var i :| 0 <= i < |b| && b[i].boundary == v;
        assert c[|a| + i].boundary == v;
      }
    }
  }

  /**
   An accepted plan leaves the table with exactly the desired boundaries:
   kept partitions are the current ones the desired list also has, created
   ones are the desired ones the table lacked.
   */
  lemma RunReachesDesired(desired: seq<Partition>, current: seq<Partition>)
    requires Accepted(current, Diff(desired, current))
    ensures Boundaries(Run(current, Diff(desired, current))) == Boundaries(desired)
  {
    var plan := Diff(desired, current);
    BoundariesOfConcat(DifferenceWith(current, plan.toDrop), plan.toCreate);
    DifferenceBoundaries(current, plan.toDrop);
    DifferenceBoundaries(current, desired);
    DifferenceBoundaries(desired, current);
  }

  /** Whether MySQL accepts the statement or not, a table in bound order stays in bound order. */
  lemma RunKeepsAscending(current: seq<Partition>, plan: Plan)
    requires Ascending(current)
    ensures Ascending(Run(current, plan))
  {
    if Accepted(current, plan) {
      var kept := DifferenceWith(current, plan.toDrop);
      var after := kept + plan.toCreate;
      DifferenceWithSpec(current, plan.toDrop);
      SubsequenceAscending(kept, current);
      forall i, j | 0 <= i < j < |after| ensures after[i].boundary < after[j].boundary {
        if j >= |kept| && i < |kept| {
          assert kept[i] in current;
          var k :| 0 <= k < |current| && current[k] == kept[i];
          assert after[j] == plan.toCreate[j - |kept|];
        }
      }
    }
  }

  /** The difference distributes over concatenation of its first list. */
  lemma {:induction false} DifferenceWithAppend(a: seq<Partition>, c: seq<Partition>, b: seq<Partition>)
    ensures DifferenceWith(a + c, b) == DifferenceWith(a, b) + DifferenceWith(c, b)
  {
    if |a| > 0 {
      assert (a + c)[1..] == a[1..] + c;
      DifferenceWithAppend(a[1..], c, b);
    } else {
      assert a + c == c;
    }
  }

  /** When `b` carries every boundary of `a`, nothing of `a` is left. */
  lemma {:induction false} DifferenceWithAllMatched(a: seq<Partition>, b: seq<Partition>)
    requires forall i :: 0 <= i < |a| ==> a[i].boundary in Boundaries(b)
    ensures DifferenceWith(a, b) == []
  {
    if |a| > 0 {
      IncludesWithBoundaries(b, a[0]);
      DifferenceWithAllMatched(a[1..], b);
    }
  }

  /** When `b` carries no boundary of `a`, all of `a` is left. */
  lemma {:induction false} DifferenceWithNoneMatched(a: seq<Partition>, b: seq<Partition>)
    requires forall i :: 0 <= i < |a| ==> a[i].boundary !in Boundaries(b)
    ensures DifferenceWith(a, b) == a
  {
    if |a| > 0 {
      IncludesWithBoundaries(b, a[0]);
      DifferenceWithNoneMatched(a[1..], b);
      assert a == [a[0]] + a[1..];
    }
  }
}
