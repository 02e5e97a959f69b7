/**
 The planner: `Table.getPartitionsThatShouldExist`. For a retention of `n`
 days it walks the days `now - (n - 1)` … `now`, describes the partition that
 holds each day's rows, and drops every descriptor whose day lies below the
 oldest boundary currently in the table.
 */
module Planner {
  import opened Seqs
  import opened Calendar
  import opened Dates

  /**
   A non-sentinel partition as the code handles it: its name and its
   `description`, the exclusive upper bound of the rows it holds, as a day
   number. `start` and `future` never appear as values of this type.
   */
  datatype Partition = Partition(name: string, boundary: int)

  /** Boundaries strictly increase along the sequence. */
  predicate Ascending(ps: seq<Partition>)
  {
    forall i, j :: 0 <= i < j < |ps| ==> ps[i].boundary < ps[j].boundary
  }

  /** The set of boundaries a list of partitions carries. */
  function Boundaries(ps: seq<Partition>): set<int>
  {
    set i | 0 <= i < |ps| :: ps[i].boundary
  }

  predicate IsSentinelName(name: string)
  {
    name == "start" || name == "future"
  }

  /** lodash `_.range(retention - 2, -2, -1)`: the offsets `retention - 2` down to `-1`. */
  function Offsets(retention: int): (ks: seq<int>)
    ensures |ks| == if retention > 0 then retention else 0
    ensures forall i :: 0 <= i < |ks| ==> ks[i] == retention - 2 - i
    decreases if retention > 0 then retention else 0
  {
    if retention <= 0 then [] else [retention - 2] + Offsets(retention - 1)
  }

  /** `"from" + day.format(PARTITION_NAME_DATE_FORMAT)`, for the date of day number `day`. */
  function PartitionName(p: Pattern, day: int): string
  {
    "from" + Format(p, CivilOf(day))
  }

  /** Planned names start with `from`, so they are never `start` or `future`. */
  lemma PartitionNameNotSentinel(p: Pattern, day: int)
    ensures !IsSentinelName(PartitionName(p, day))
  {
    var name := PartitionName(p, day);
    assert name[1] == 'r';
  }

  /** Different days never share a partition name. */
  lemma PartitionNameInjective(p: Pattern, a: int, b: int)
    requires PartitionName(p, a) == PartitionName(p, b)
    ensures a == b
  {
    var fa := Format(p, CivilOf(a));
    var fb := Format(p, CivilOf(b));
    assert fa == PartitionName(p, a)[4..] && fb == PartitionName(p, b)[4..];
    FormatInjective(p, CivilOf(a), CivilOf(b));
    DayCountOfCivilOf(a);
    DayCountOfCivilOf(b);
  }

  /**
   How the planner names the partition that holds a given day. The code
   always uses `PartitionName` with the configured pattern; the window and
   filter lemmas below hold for any naming, and those that need distinct
   names ask for an injective one.
   */
  type Namer = int -> string

  function NameOf(p: Pattern): Namer
  {
    day => PartitionName(p, day)
  }

  ghost predicate Injective(name: Namer)
  {
    forall a, b :: name(a) == name(b) ==> a == b
  }

  lemma NameOfInjective(p: Pattern)
    ensures Injective(NameOf(p))
  {
    forall a, b | NameOf(p)(a) == NameOf(p)(b) ensures a == b {
      PartitionNameInjective(p, a, b);
    }
  }

  /** The partition that holds the rows of day `day`: named for that day, bounded by the next one. */
  function Descriptor(name: Namer, day: int): Partition
  {
    Partition(name(day), day + 1)
  }

  /**
   The unfiltered rolling window, written independently of the offsets the
   code iterates: one descriptor per day from `now - (retention - 1)` to `now`.
   */
  function Window(now: int, retention: int, name: Namer): (w: seq<Partition>)
    ensures |w| == if retention > 0 then retention else 0
  {
    seq(if retention > 0 then retention else 0, i => Descriptor(name, now - (retention - 1) + i))
  }

  /**
   What `Math.min(...descriptions)` evaluates to, as the `<` comparison of the
   filter sees it.
   */
  datatype Oldest =
    | NotANumber        // a description is not a number: every comparison is false
    | Infinity          // no current partitions: every comparison is true
    | Finite(value: int)

  /** The smallest boundary of a non-empty list. */
  function MinBoundary(ps: seq<Partition>): (m: int)
    requires |ps| > 0
    ensures m in Boundaries(ps)
    ensures forall i :: 0 <= i < |ps| ==> m <= ps[i].boundary
  {
    if |ps| == 1 then ps[0].boundary
    else
      var rest := MinBoundary(ps[1..]);
      assert Boundaries(ps[1..]) <= Boundaries(ps) by {
        forall b | b in Boundaries(ps[1..]) ensures b in Boundaries(ps) {
          var i :| 0 <= i < |ps[1..]| && ps[1..][i].boundary == b;
          assert ps[i + 1].boundary == b;
        }
      }
      if ps[0].boundary <= rest then ps[0].boundary else rest
  }

  /** `Math.min(...currentPartitions.map(p => p.description))` on numeric descriptions. */
  function OldestBoundary(current: seq<Partition>): (o: Oldest)
    ensures o != NotANumber
    ensures o == Infinity <==> |current| == 0
    ensures o.Finite? ==> o.value in Boundaries(current)
    ensures o.Finite? ==> forall i :: 0 <= i < |current| ==> o.value <= current[i].boundary
  {
    if |current| == 0 then Infinity else Finite(MinBoundary(current))
  }

  /** `Table.getMysqlDay(today) < oldestPartition` with JavaScript's number semantics. */
  predicate BelowOldest(day: int, oldest: Oldest)
  {
    match oldest
    case NotANumber => false
    case Infinity => true
    case Finite(m) => day < m
  }

  /**
   The map callback for offset `k`: `tomorrow` is `now - k`, `today` is
   `now - (k + 1)`; `None` stands for the `null` it returns for a day below
   the oldest boundary.
   */
  function Entry(now: int, name: Namer, oldest: Oldest, k: int): Option<Partition>
  {
    var tomorrow := now - k;
    var today := now - (k + 1);
    if BelowOldest(MysqlDay(today), oldest) then None
    else Some(Partition(name(today), MysqlDay(tomorrow)))
  }

  /** `days.map(entry).filter(p => !!p)`. */
  function Entries(now: int, name: Namer, oldest: Oldest, ks: seq<int>): seq<Partition>
  {
    if |ks| == 0 then []
    else
      var head := match Entry(now, name, oldest, ks[0]) case None => [] case Some(e) => [e];
      head + Entries(now, name, oldest, ks[1..])
  }

  /** The planner with the minimum of the current boundaries already evaluated. */
  function PlanWindow(now: int, retention: int, oldest: Oldest, name: Namer): seq<Partition>
  {
    Entries(now, name, oldest, Offsets(retention))
  }

  /**
   The floor the code applies, restated on a descriptor: the day it holds,
   one before its boundary, must not lie below the oldest current boundary.
   */
  predicate Admitted(oldest: Oldest, e: Partition)
  {
    !BelowOldest(e.boundary - 1, oldest)
  }

  function DescriptorsAt(now: int, name: Namer, ks: seq<int>): (ds: seq<Partition>)
    ensures |ds| == |ks|
  {
    seq(|ks|, i requires 0 <= i < |ks| => Descriptor(name, now - (ks[i] + 1)))
  }

  /** The callback keeps exactly the admitted descriptors. */
  lemma EntryOfDescriptor(now: int, name: Namer, oldest: Oldest, k: int)
    ensures var d := Descriptor(name, now - (k + 1));
      Entry(now, name, oldest, k) == if Admitted(oldest, d) then Some(d) else None
  {
  }

  lemma {:induction false} EntriesFilterDescriptors(now: int, name: Namer, oldest: Oldest, ks: seq<int>)
    ensures Entries(now, name, oldest, ks) == Filter(DescriptorsAt(now, name, ks), e => Admitted(oldest, e))
  {
    if |ks| > 0 {
      var keep := e => Admitted(oldest, e);
      var ds := DescriptorsAt(now, name, ks);
      var d := Descriptor(name, now - (ks[0] + 1));
      assert ds[0] == d;
      assert ds[1..] == DescriptorsAt(now, name, ks[1..]);
      EntryOfDescriptor(now, name, oldest, ks[0]);
      EntriesFilterDescriptors(now, name, oldest, ks[1..]);
    }
  }

  /**
   The planner is the unfiltered window filtered by `Admitted`: whatever the
   oldest boundary is, the entries that survive keep their window order.
   */
  lemma PlanWindowIsFilteredWindow(now: int, retention: int, oldest: Oldest, name: Namer)
    ensures PlanWindow(now, retention, oldest, name) == Filter(Window(now, retention, name), e => Admitted(oldest, e))
  {
    var ks := Offsets(retention);
    assert DescriptorsAt(now, name, ks) == Window(now, retention, name);
    EntriesFilterDescriptors(now, name, oldest, ks);
  }

  lemma {:induction false} FilterKeepingAll(s: seq<Partition>, keep: Partition -> bool)
    requires forall i :: 0 <= i < |s| ==> keep(s[i])
    ensures Filter(s, keep) == s
  {
    if |s| > 0 {
      FilterKeepingAll(s[1..], keep);
      assert s == [s[0]] + s[1..];
    }
  }

  /**
   Without a usable minimum (the unit test passes bare strings, whose
   `description` is undefined) nothing is filtered: the planner returns the
   whole window.
   */
  lemma UnfilteredWindow(now: int, retention: int, name: Namer)
    ensures PlanWindow(now, retention, NotANumber, name) == Window(now, retention, name)
  {
    PlanWindowIsFilteredWindow(now, retention, NotANumber, name);
    FilterKeepingAll(Window(now, retention, name), e => Admitted(NotANumber, e));
  }

  /**
   The shape of the window: `retention` entries (none when it is not
   positive), ascending, each named for its day and bounded by the next day,
   the last one bounded by `now + 1`.
   */
  lemma WindowShape(now: int, retention: int, name: Namer)
    ensures var w := Window(now, retention, name);
      && Ascending(w)
      && (forall i :: 0 <= i < |w| ==>
            w[i].boundary == now - retention + 2 + i
            && w[i].name == name(w[i].boundary - 1))
      && (retention > 0 ==> w[|w| - 1].boundary == now + 1)
  {
    var w := Window(now, retention, name);
    forall i | 0 <= i < |w| ensures w[i] == Descriptor(name, now - retention + 1 + i) {
      WindowAt(now, retention, name, i);
    }
  }

  lemma WindowAt(now: int, retention: int, name: Namer, i: int)
    requires 0 <= i < retention
    ensures Window(now, retention, name)[i] == Descriptor(name, now - retention + 1 + i)
  {
    assert Window(now, retention, name) == seq(retention, j => Descriptor(name, now - (retention - 1) + j));
  }

  /** Every window entry is named for the day before its boundary. */
  lemma WindowMember(now: int, retention: int, name: Namer, x: Partition)
    requires x in Window(now, retention, name)
    ensures x.name == name(x.boundary - 1)
  {
    var w := Window(now, retention, name);
    var i :| 0 <= i < |w| && w[i] == x;
    WindowAt(now, retention, name, i);
  }

  /** With an injective naming no two window entries share a name. */
  lemma WindowNamesDistinct(now: int, retention: int, name: Namer)
    requires Injective(name)
    ensures var w := Window(now, retention, name);
      forall i, j :: 0 <= i < j < |w| ==> w[i].name != w[j].name
  {
    var w := Window(now, retention, name);
    forall i, j | 0 <= i < j < |w| ensures w[i].name != w[j].name {
      WindowAt(now, retention, name, i);
      WindowAt(now, retention, name, j);
    }
  }

  /** A subsequence of an ascending list is ascending. */
  lemma {:induction false} SubsequenceAscending(r: seq<Partition>, s: seq<Partition>)
    requires IsSubsequence(r, s) && Ascending(s)
    ensures Ascending(r)
    decreases |s|
  {
    if |r| > 0 {
      if r[0] == s[0] {
        SubsequenceAscending(r[1..], s[1..]);
        SubsequenceMembers(r[1..], s[1..]);
        forall j | 0 < j < |r| ensures r[0].boundary < r[j].boundary {
          assert r[j] in r[1..];
          var k :| 0 <= k < |s[1..]| && s[1..][k] == r[j];
          assert s[k + 1] == r[j];
        }
      } else {
        SubsequenceAscending(r, s[1..]);
      }
    }
  }

  /**
   What the floor admits, in terms of the current list: with no current
   partitions nothing, otherwise exactly the entries whose boundary lies
   strictly above some current boundary.
   */
  lemma {:induction false} AdmittedAboveSome(current: seq<Partition>, e: Partition)
    ensures Admitted(OldestBoundary(current), e) <==>
      exists i :: 0 <= i < |current| && current[i].boundary < e.boundary
  {
    var oldest := OldestBoundary(current);
    if oldest.Finite? && Admitted(oldest, e) {
      var i :| 0 <= i < |current| && current[i].boundary == oldest.value;
      assert current[i].boundary < e.boundary;
    }
  }

  /**
   `Table.getPartitionsThatShouldExist`: with an empty current list nothing is
   planned; otherwise exactly the window entries for which some current
   boundary lies strictly below their own, in window order. The entry whose
   boundary equals the oldest current boundary is therefore never planned.
   */
  function PartitionsThatShouldExist(now: int, retention: int, current: seq<Partition>, p: Pattern): (r: seq<Partition>)
    ensures |current| == 0 ==> r == []
    ensures forall e :: e in r <==>
      e in Window(now, retention, NameOf(p)) && exists i :: 0 <= i < |current| && current[i].boundary < e.boundary
    ensures IsSubsequence(r, Window(now, retention, NameOf(p)))
    ensures Ascending(r)
  {
    var oldest := OldestBoundary(current);
    var w := Window(now, retention, NameOf(p));
    var keep := e => Admitted(oldest, e);
    PlanWindowIsFilteredWindow(now, retention, oldest, NameOf(p));
    FilterSpec(w, keep);
    forall e ensures keep(e) <==> exists i :: 0 <= i < |current| && current[i].boundary < e.boundary {
      AdmittedAboveSome(current, e);
    }
    WindowShape(now, retention, NameOf(p));
    SubsequenceAscending(Filter(w, keep), w);
    PlanWindow(now, retention, oldest, NameOf(p))
  }
}
