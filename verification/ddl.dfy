/**
 The DDL text the partitioning code writes: the `REORGANIZE PARTITION future`
 statement that creates partitions, the `DROP PARTITION` statement, the
 initial partition lines of `CREATE TABLE` and that statement itself. A
 statement is its lines joined with newlines; each writer has a reader that
 recovers what was written.
 */
module Ddl {
  import opened Seqs
  import opened Text
  import opened Calendar
  import opened Dates
  import opened Planner

  /** The table the module manages. */
  const TableName := "test"
  const AlterTable := "ALTER TABLE `" + TableName + "`"
  const FutureLine := "PARTITION `future` VALUES LESS THAN MAXVALUE"

  /** Each of these separates the partition name from its bound in a partition line. */
  const NamePrefix := "PARTITION `"
  const BoundInfix := "` VALUES LESS THAN ("

  // ---------------------------------------------------------------- reorganize

  /** One created partition, bounded by the integer the planner computed. */
  function PartitionLine(e: Partition): string
  {
    NamePrefix + e.name + BoundInfix + IntText(e.boundary) + "),"
  }

  /**
   Reads a partition line back. The bound is found from the right, after the
   last `(`, so a name may hold any character.
   */
  function ParsePartitionLine(line: string): Option<Partition>
  {
    if |line| < |NamePrefix| + |BoundInfix| + 2 || line[..|NamePrefix|] != NamePrefix
      || line[|line| - 2..] != ")," || '(' !in line[|NamePrefix|..]
    then None
    else
      var k := |NamePrefix| + LastIndexOf(line[|NamePrefix|..], '(');
      if k + 1 < |NamePrefix| + |BoundInfix| || k + 1 > |line| - 2 then None
      else if line[k + 1 - |BoundInfix|..k + 1] != BoundInfix then None
      else match ParseInt(line[k + 1..|line| - 2])
        case None => None
        case Some(b) => Some(Partition(line[|NamePrefix|..k + 1 - |BoundInfix|], b))
  }

  lemma ParsePartitionLineRoundTrip(e: Partition)
    ensures ParsePartitionLine(PartitionLine(e)) == Some(e)
  {
    var line := PartitionLine(e);
    var bound := IntText(e.boundary);
    var k := |NamePrefix| + |e.name| + |BoundInfix| - 1;
    IntTextChars(e.boundary);
    PartitionLineParts(e.name, bound);
    assert line[|NamePrefix|..][k - |NamePrefix|] == '(';
    assert line[|NamePrefix|..][k - |NamePrefix| + 1..] == bound + "),";
    assert '(' !in bound + "),";
    LastIndexOfUnique(line[|NamePrefix|..], '(', k - |NamePrefix|);
    ParseIntOfIntText(e.boundary);
    ReadPartitionLine(line, k, e.name, e.boundary);
  }

  /** A line whose parts sit where a partition line puts them reads back as that partition. */
  lemma ReadPartitionLine(line: string, k: int, name: string, b: int)
    requires |line| >= |NamePrefix| + |BoundInfix| + 2
    requires line[..|NamePrefix|] == NamePrefix && line[|line| - 2..] == "),"
    requires |NamePrefix| <= k < |line| && line[k] == '(' && '(' in line[|NamePrefix|..]
    requires LastIndexOf(line[|NamePrefix|..], '(') == k - |NamePrefix|
    requires |NamePrefix| + |BoundInfix| <= k + 1 <= |line| - 2
    requires line[k + 1 - |BoundInfix|..k + 1] == BoundInfix
    requires line[|NamePrefix|..k + 1 - |BoundInfix|] == name
    requires ParseInt(line[k + 1..|line| - 2]) == Some(b)
    ensures ParsePartitionLine(line) == Some(Partition(name, b))
  {
    assert |NamePrefix| + LastIndexOf(line[|NamePrefix|..], '(') == k;
  }

  /** Where the parts of a partition line sit. */
  lemma PartitionLineParts(name: string, bound: string)
    ensures var line := NamePrefix + name + BoundInfix + bound + "),";
      var k := |NamePrefix| + |name| + |BoundInfix| - 1;
      && line[..|NamePrefix|] == NamePrefix
      && line[|line| - 2..] == "),"
      && line[k + 1 - |BoundInfix|..k + 1] == BoundInfix
      && line[|NamePrefix|..k + 1 - |BoundInfix|] == name
      && line[k + 1..|line| - 2] == bound
      && line[k] == '('
      && line[|NamePrefix|..][k - |NamePrefix| + 1..] == bound + "),"
  {
  }

  function PartitionLines(ps: seq<Partition>): (lines: seq<string>)
    ensures |lines| == |ps|
  {
    seq(|ps|, i requires 0 <= i < |ps| => PartitionLine(ps[i]))
  }

  /** Reads every line as a partition line; `None` when one of them is not. */
  function ParsePartitionLines(lines: seq<string>): Option<seq<Partition>>
  {
    MapAll(lines, ParsePartitionLine)
  }

  lemma ParsePartitionLinesRoundTrip(ps: seq<Partition>)
    ensures ParsePartitionLines(PartitionLines(ps)) == Some(ps)
  {
    var lines := PartitionLines(ps);
    forall i | 0 <= i < |lines| ensures ParsePartitionLine(lines[i]) == Some(ps[i]) {
      ParsePartitionLineRoundTrip(ps[i]);
    }
    MapAllEach(lines, ParsePartitionLine, ps);
  }

  /** A partition line has no newline of its own when the name has none. */
  lemma PartitionLineNoNewline(e: Partition)
    requires NoNewline(e.name)
    ensures NoNewline(PartitionLine(e))
  {
    IntTextChars(e.boundary);
    SignedDigitsNoNewline(IntText(e.boundary));
    PiecesNoNewline();
    NoNewlineAppend(NamePrefix, e.name);
    NoNewlineAppend(NamePrefix + e.name, BoundInfix);
    NoNewlineAppend(NamePrefix + e.name + BoundInfix, IntText(e.boundary));
    NoNewlineAppend(NamePrefix + e.name + BoundInfix + IntText(e.boundary), "),");
  }

  /** The fixed pieces partition lines are built from hold no newline. */
  lemma PiecesNoNewline()
    ensures NoNewline(NamePrefix) && NoNewline(BoundInfix) && NoNewline(DaysInfix)
    ensures NoNewline("),") && NoNewline("'") && NoNewline("')),")
  {
    assert NoNewline(NamePrefix);
    assert NoNewline(BoundInfix);
    assert NoNewline(DaysInfix);
  }

  const ReorganizeHead := [AlterTable, "REORGANIZE PARTITION future INTO ("]
  const ReorganizeTail := [FutureLine, ");"]

  /**
   `Table.reorganizeFuturePartition`: nothing at all when there is nothing to
   create; otherwise `future` is split into one partition per created entry,
   in order, with a fresh `future` last.
   */
  function ReorganizeFuturePartition(toCreate: seq<Partition>): (s: string)
    ensures s == "" <==> |toCreate| == 0
  {
    if |toCreate| == 0 then ""
    else
      var text := JoinLines(ReorganizeHead + [JoinLines(PartitionLines(toCreate))] + ReorganizeTail);
      assert text[0] == 'A';
      text
  }

  /** Reads a reorganize statement back to the partitions it creates. */
  function ParseReorganize(s: string): Option<seq<Partition>>
  {
    if s == "" then Some([])
    else
      var lines := SplitLines(s);
      if |lines| < 5 || lines[..2] != ReorganizeHead || lines[|lines| - 2..] != ReorganizeTail then None
      else ParsePartitionLines(lines[2..|lines| - 2])
  }

  /** The reorganize statement, line by line. */
  lemma ReorganizeLines(toCreate: seq<Partition>)
    requires |toCreate| > 0
    ensures ReorganizeFuturePartition(toCreate)
      == JoinLines(ReorganizeHead + PartitionLines(toCreate) + ReorganizeTail)
  {
    JoinLinesNested(ReorganizeHead, PartitionLines(toCreate), ReorganizeTail);
  }

  /**
   Reading the statement back gives exactly the partitions that were to be
   created, in their order, with their integer bounds; the empty list reads
   back from the empty text.
   */
  lemma ReorganizeRoundTrip(toCreate: seq<Partition>)
    requires forall i :: 0 <= i < |toCreate| ==> NoNewline(toCreate[i].name)
    ensures ParseReorganize(ReorganizeFuturePartition(toCreate)) == Some(toCreate)
  {
    if |toCreate| > 0 {
      var body := PartitionLines(toCreate);
      var lines := ReorganizeHead + body + ReorganizeTail;
      ReorganizeLines(toCreate);
      PartitionLinesNoNewline(toCreate);
      SplitJoinLines(lines);
      assert lines[..2] == ReorganizeHead;
      assert lines[|lines| - 2..] == ReorganizeTail;
      assert lines[2..|lines| - 2] == body;
      ParsePartitionLinesRoundTrip(toCreate);
    }
  }

  lemma PartitionLinesNoNewline(toCreate: seq<Partition>)
    requires forall i :: 0 <= i < |toCreate| ==> NoNewline(toCreate[i].name)
    ensures var lines := ReorganizeHead + PartitionLines(toCreate) + ReorganizeTail;
      forall i :: 0 <= i < |lines| ==> NoNewline(lines[i])
  {
    var lines := ReorganizeHead + PartitionLines(toCreate) + ReorganizeTail;
    ReorganizeFixedNoNewline();
    forall i | 0 <= i < |lines| ensures NoNewline(lines[i]) {
      if i < 2 {
        assert lines[i] == ReorganizeHead[i];
      } else if i < |lines| - 2 {
        assert lines[i] == PartitionLine(toCreate[i - 2]);
        PartitionLineNoNewline(toCreate[i - 2]);
      } else {
        assert lines[i] == ReorganizeTail[i - |lines| + 2];
      }
    }
  }

  lemma ReorganizeFixedNoNewline()
    ensures forall i :: 0 <= i < |ReorganizeHead| ==> NoNewline(ReorganizeHead[i])
    ensures forall i :: 0 <= i < |ReorganizeTail| ==> NoNewline(ReorganizeTail[i])
  {
    assert NoNewline(ReorganizeHead[0]);
    assert NoNewline(ReorganizeHead[1]);
    assert NoNewline(ReorganizeTail[0]);
    assert NoNewline(ReorganizeTail[1]);
  }

  // ---------------------------------------------------------------- drop

  function Names(ps: seq<Partition>): (names: seq<string>)
    ensures |names| == |ps|
  {
    seq(|ps|, i requires 0 <= i < |ps| => ps[i].name)
  }

  /**
   `Table.dropOldPartitions`: nothing at all when there is nothing to drop;
   otherwise the names, in order, separated by a comma and a newline, and a
   closing `;`.
   */
  function DropOldPartitions(toDrop: seq<Partition>): (s: string)
    ensures s == "" <==> |toDrop| == 0
  {
    if |toDrop| == 0 then ""
    else
      var text := AlterTable + "\n" + "DROP PARTITION" + "\n" + Join(Names(toDrop), ",\n") + ";";
      assert text[0] == 'A';
      text
  }

  /** The name lines of a drop statement: a comma after each name but the last, which takes `;`. */
  function DropLines(names: seq<string>): (lines: seq<string>)
    ensures |lines| == |names|
  {
    seq(|names|, i requires 0 <= i < |names| => names[i] + if i < |names| - 1 then "," else ";")
  }

  lemma {:induction false} JoinDropNames(names: seq<string>)
    requires |names| > 0
    ensures Join(names, ",\n") + ";" == JoinLines(DropLines(names))
  {
    if |names| > 1 {
      JoinDropNames(names[1..]);
      assert DropLines(names)[1..] == DropLines(names[1..]);
    }
  }

  const DropHead := [AlterTable, "DROP PARTITION"]

  /** Takes the separator off each name line; `None` when one is missing. */
  function UnterminatedNames(lines: seq<string>): Option<seq<string>>
  {
    if |lines| == 0 then Some([])
    else
      var line := lines[0];
      var mark := if |lines| == 1 then ';' else ',';
      if |line| == 0 || line[|line| - 1] != mark then None
      else match UnterminatedNames(lines[1..])
        case None => None
        case Some(rest) => Some([line[..|line| - 1]] + rest)
  }

  /** Reads a drop statement back to the names it drops. */
  function ParseDrop(s: string): Option<seq<string>>
  {
    if s == "" then Some([])
    else
      var lines := SplitLines(s);
      if |lines| < 3 || lines[..2] != DropHead then None
      else UnterminatedNames(lines[2..])
  }

  lemma {:induction false} UnterminatedDropLines(names: seq<string>)
    ensures UnterminatedNames(DropLines(names)) == Some(names)
  {
    if |names| > 0 {
      var lines := DropLines(names);
      assert lines[0][..|lines[0]| - 1] == names[0];
      assert lines[1..] == DropLines(names[1..]) by {
        if |names| > 1 {
          assert forall i :: 0 <= i < |names| - 1 ==> lines[1..][i] == DropLines(names[1..])[i];
        }
      }
      UnterminatedDropLines(names[1..]);
      assert names == [names[0]] + names[1..];
    }
  }

  /**
   Reading the drop statement back gives exactly the names of the partitions
   to drop, in order; the empty list reads back from the empty text.
   */
  lemma DropRoundTrip(toDrop: seq<Partition>)
    requires forall i :: 0 <= i < |toDrop| ==> NoNewline(toDrop[i].name)
    ensures ParseDrop(DropOldPartitions(toDrop)) == Some(Names(toDrop))
  {
    if |toDrop| > 0 {
      var names := Names(toDrop);
      var lines := DropHead + DropLines(names);
      DropStatementLines(toDrop);
      DropLinesNoNewline(toDrop);
      SplitJoinLines(lines);
      assert lines[..2] == DropHead && lines[2..] == DropLines(names);
      UnterminatedDropLines(names);
    }
  }

  lemma DropLinesNoNewline(toDrop: seq<Partition>)
    requires forall i :: 0 <= i < |toDrop| ==> NoNewline(toDrop[i].name)
    ensures var lines := DropHead + DropLines(Names(toDrop));
      forall i :: 0 <= i < |lines| ==> NoNewline(lines[i])
  {
    var names := Names(toDrop);
    var lines := DropHead + DropLines(names);
    forall i | 0 <= i < |lines| ensures NoNewline(lines[i]) {
      if i >= 2 {
        assert lines[i] == toDrop[i - 2].name + if i - 2 < |names| - 1 then "," else ";";
      } else {
        assert lines[i] == DropHead[i];
      }
    }
  }

  /** The drop statement, line by line. */
  lemma DropStatementLines(toDrop: seq<Partition>)
    requires |toDrop| > 0
    ensures DropOldPartitions(toDrop) == JoinLines(DropHead + DropLines(Names(toDrop)))
  {
    var names := Names(toDrop);
    JoinDropNames(names);
    JoinLinesAppend(DropHead, DropLines(names));
    JoinLinesPair(AlterTable, "DROP PARTITION");
  }

  // ---------------------------------------------------------------- initial partitions

  const DaysInfix := "` VALUES LESS THAN (TO_DAYS("

  /**
   One initial partition: the bound is written as the `YYYY-MM-DD` date of
   the boundary day, for MySQL's `TO_DAYS` to count.
   */
  function InitialLine(e: Partition): string
  {
    NamePrefix + e.name + DaysInfix + "'" + Format(Dashed, CivilOf(e.boundary)) + "')),"
  }

  /** Reads an initial partition line back to its name and the date inside `TO_DAYS`. */
  function ParseInitialLine(line: string): Option<(string, Civil)>
  {
    if |line| < |NamePrefix| + |DaysInfix| + 5 || line[..|NamePrefix|] != NamePrefix
      || line[|line| - 4..] != "')),"|| '(' !in line[|NamePrefix|..]
    then None
    else
      var k := |NamePrefix| + LastIndexOf(line[|NamePrefix|..], '(');
      if k + 1 < |NamePrefix| + |DaysInfix| || k + 2 > |line| - 4 then None
      else if line[k + 1 - |DaysInfix|..k + 1] != DaysInfix || line[k + 1] != '\'' then None
      else match Parse(Dashed, line[k + 2..|line| - 4])
        case None => None
        case Some(c) => Some((line[|NamePrefix|..k + 1 - |DaysInfix|], c))
  }

  /** Dates hold only digits and `-`. */
  lemma FormatChars(p: Pattern, c: Civil)
    requires Valid(c)
    ensures forall k :: 0 <= k < |Format(p, c)| ==> IsDigit(Format(p, c)[k]) || Format(p, c)[k] == '-'
  {
    var y := YearText(c.year);
    assert forall k :: 0 <= k < |y| ==> IsDigit(y[k]) || y[k] == '-';
  }

  /** Where the parts of an initial partition line sit. */
  lemma InitialLineParts(name: string, date: string)
    ensures var line := NamePrefix + name + DaysInfix + "'" + date + "')),";
      var k := |NamePrefix| + |name| + |DaysInfix| - 1;
      && line[..|NamePrefix|] == NamePrefix
      && line[|line| - 4..] == "')),"
      && line[k + 1 - |DaysInfix|..k + 1] == DaysInfix
      && line[|NamePrefix|..k + 1 - |DaysInfix|] == name
      && line[k + 1] == '\''
      && line[k + 2..|line| - 4] == date
      && line[k] == '('
      && line[|NamePrefix|..][k - |NamePrefix| + 1..] == "'" + date + "')),"
  {
  }

  /** The date written inside `TO_DAYS` reads back as the date of the partition's boundary day. */
  lemma InitialLineRoundTrip(e: Partition)
    ensures ParseInitialLine(InitialLine(e)) == Some((e.name, CivilOf(e.boundary)))
  {
    var c := CivilOf(e.boundary);
    var date := Format(Dashed, c);
    var line := InitialLine(e);
    var k := |NamePrefix| + |e.name| + |DaysInfix| - 1;
    InitialLineParts(e.name, date);
    assert line[|NamePrefix|..][k - |NamePrefix|] == '(';
    assert '(' !in "'" + date + "')),"  by {
      FormatChars(Dashed, c);
      assert '(' !in date;
    }
    LastIndexOfUnique(line[|NamePrefix|..], '(', k - |NamePrefix|);
    ParseFormat(Dashed, c);
    ReadInitialLine(line, k, e.name, c);
  }

  /** A line whose parts sit where an initial line puts them reads back as that name and date. */
  lemma ReadInitialLine(line: string, k: int, name: string, c: Civil)
    requires |line| >= |NamePrefix| + |DaysInfix| + 5
    requires line[..|NamePrefix|] == NamePrefix && line[|line| - 4..] == "')),"
    requires |NamePrefix| <= k < |line| && line[k] == '(' && '(' in line[|NamePrefix|..]
    requires LastIndexOf(line[|NamePrefix|..], '(') == k - |NamePrefix|
    requires |NamePrefix| + |DaysInfix| <= k + 1 && k + 2 <= |line| - 4
    requires line[k + 1 - |DaysInfix|..k + 1] == DaysInfix && line[k + 1] == '\''
    requires line[|NamePrefix|..k + 1 - |DaysInfix|] == name
    requires Parse(Dashed, line[k + 2..|line| - 4]) == Some(c)
    ensures ParseInitialLine(line) == Some((name, c))
  {
  }

  lemma InitialLineNoNewline(e: Partition)
    requires NoNewline(e.name)
    ensures NoNewline(InitialLine(e))
  {
    var date := Format(Dashed, CivilOf(e.boundary));
    FormatChars(Dashed, CivilOf(e.boundary));
    SignedDigitsNoNewline(date);
    PiecesNoNewline();
    NoNewlineAppend(NamePrefix, e.name);
    NoNewlineAppend(NamePrefix + e.name, DaysInfix);
    NoNewlineAppend(NamePrefix + e.name + DaysInfix, "'");
    NoNewlineAppend(NamePrefix + e.name + DaysInfix + "'", date);
    NoNewlineAppend(NamePrefix + e.name + DaysInfix + "'" + date, "')),");
  }

  function InitialLines(ps: seq<Partition>): (lines: seq<string>)
    ensures |lines| == |ps|
  {
    seq(|ps|, i requires 0 <= i < |ps| => InitialLine(ps[i]))
  }

  /**
   `Table.getPartitionStrings`: one initial line per day of the window, oldest
   first, joined with newlines.
   */
  function GetPartitionStrings(now: int, retention: int, p: Pattern): string
  {
    JoinLines(InitialLines(Window(now, retention, NameOf(p))))
  }

  /**
   The two ways of writing a bound agree: line `i` of the initial partitions
   names window entry `i`, and MySQL's `TO_DAYS` of its date is the integer
   bound `Table.reorganizeFuturePartition` would write for the same entry.
   */
  lemma InitialLinesMatchWindow(now: int, retention: int, p: Pattern)
    ensures var w := Window(now, retention, NameOf(p));
      var lines := SplitLines(GetPartitionStrings(now, retention, p));
      retention > 0 ==>
        |lines| == |w|
        && forall i :: 0 <= i < |w| ==>
          match ParseInitialLine(lines[i])
          case None => false
          case Some((name, date)) => name == w[i].name && Valid(date) && DayCount(date) == w[i].boundary
  {
    var w := Window(now, retention, NameOf(p));
    if retention > 0 {
      var lines := InitialLines(w);
      InitialLinesNoNewline(now, retention, p);
      SplitJoinLines(lines);
      InitialLinesParse(w);
    }
  }

  /** Every initial line reads back as its entry's name and the date of its bound. */
  lemma InitialLinesParse(ps: seq<Partition>)
    ensures forall i :: 0 <= i < |ps| ==>
      match ParseInitialLine(InitialLines(ps)[i])
      case None => false
      case Some((name, date)) => name == ps[i].name && Valid(date) && DayCount(date) == ps[i].boundary
  {
    forall i | 0 <= i < |ps|
      ensures ParseInitialLine(InitialLines(ps)[i]) == Some((ps[i].name, CivilOf(ps[i].boundary)))
      ensures DayCount(CivilOf(ps[i].boundary)) == ps[i].boundary
    {
      InitialLineRoundTrip(ps[i]);
      DayCountOfCivilOf(ps[i].boundary);
    }
  }

  /** Partition names hold no newline. */
  lemma PartitionNameNoNewline(p: Pattern, day: int)
    ensures NoNewline(PartitionName(p, day))
  {
    FormatChars(p, CivilOf(day));
    var name := PartitionName(p, day);
    assert name == "from" + Format(p, CivilOf(day));
  }

  // ---------------------------------------------------------------- create

  const RangeClause := "PARTITION BY RANGE "
  const RangeKey := "( TO_DAYS(`created_at`)) ("

  const CreateHead := [
    "CREATE TABLE IF NOT EXISTS `" + TableName + "` (",
    "`id` INTEGER NOT NULL AUTO_INCREMENT,",
    "`data` VARCHAR(255) NOT NULL,",
    "`created_at` DATETIME NOT NULL " + "DEFAULT CURRENT_TIMESTAMP,",
    "PRIMARY KEY (`id`, `created_at`)",
    ")",
    RangeClause + RangeKey,
    "PARTITION `start` VALUES LESS THAN (0),"
  ]

  /**
   The text of `Table.create`: the table definition, the `start` partition,
   the initial window, and `future` last.
   */
  function CreateTable(now: int, retention: int, p: Pattern): string
  {
    JoinLines(CreateHead + [GetPartitionStrings(now, retention, p)] + ReorganizeTail)
  }

  /**
   Line by line, the create statement is the table definition ending in the
   `start` partition, then one initial line per window day, then `future`:
   every day of the window lies between the two sentinels.
   */
  lemma CreateTableLines(now: int, retention: int, p: Pattern)
    requires retention > 0
    ensures SplitLines(CreateTable(now, retention, p))
      == CreateHead + InitialLines(Window(now, retention, NameOf(p))) + ReorganizeTail
  {
    var body := InitialLines(Window(now, retention, NameOf(p)));
    WindowLinesNoNewline(now, retention, p);
    JoinLinesNested(CreateHead, body, ReorganizeTail);
    SplitJoinLines(CreateHead + body + ReorganizeTail);
  }

  lemma WindowLinesNoNewline(now: int, retention: int, p: Pattern)
    ensures var lines := CreateHead + InitialLines(Window(now, retention, NameOf(p))) + ReorganizeTail;
      forall i :: 0 <= i < |lines| ==> NoNewline(lines[i])
  {
    var body := InitialLines(Window(now, retention, NameOf(p)));
    InitialLinesNoNewline(now, retention, p);
    FixedLinesNoNewline();
    var lines := CreateHead + body + ReorganizeTail;
    forall i | 0 <= i < |lines| ensures NoNewline(lines[i]) {
      if i < |CreateHead| {
        assert lines[i] == CreateHead[i];
      } else if i < |CreateHead| + |body| {
        assert lines[i] == body[i - |CreateHead|];
      } else {
        assert lines[i] == ReorganizeTail[i - |CreateHead| - |body|];
      }
    }
  }

  lemma InitialLinesNoNewline(now: int, retention: int, p: Pattern)
    ensures var body := InitialLines(Window(now, retention, NameOf(p)));
      forall j :: 0 <= j < |body| ==> NoNewline(body[j])
  {
    var w := Window(now, retention, NameOf(p));
    forall j | 0 <= j < |w| ensures NoNewline(InitialLine(w[j])) {
      assert NoNewline(w[j].name) by {
        WindowAt(now, retention, NameOf(p), j);
        PartitionNameNoNewline(p, now - retention + 1 + j);
      }
      InitialLineNoNewline(w[j]);
    }
  }

  lemma FixedLinesNoNewline()
    ensures forall i :: 0 <= i < |CreateHead| ==> NoNewline(CreateHead[i])
    ensures forall i :: 0 <= i < |ReorganizeTail| ==> NoNewline(ReorganizeTail[i])
  {
    TableLinesNoNewline();
    PartitionClauseNoNewline();
    ReorganizeFixedNoNewline();
  }

  lemma TableLinesNoNewline()
    ensures forall i :: 0 <= i < 4 ==> NoNewline(CreateHead[i])
  {
    OpeningLinesNoNewline();
    ColumnLinesNoNewline();
  }

  lemma PartitionClauseNoNewline()
    ensures forall i :: 4 <= i < 8 ==> NoNewline(CreateHead[i])
  {
    KeyLinesNoNewline();
    RangeLinesNoNewline();
  }

  lemma OpeningLinesNoNewline()
    ensures NoNewline(CreateHead[0]) && NoNewline(CreateHead[1])
  {
    assert NoNewline(CreateHead[0]);
    assert NoNewline(CreateHead[1]);
  }

  lemma ColumnLinesNoNewline()
    ensures NoNewline(CreateHead[2]) && NoNewline(CreateHead[3])
  {
    assert NoNewline(CreateHead[2]);
    assert NoNewline(CreateHead[3]);
  }

  lemma KeyLinesNoNewline()
    ensures NoNewline(CreateHead[4]) && NoNewline(CreateHead[5])
  {
    assert NoNewline(CreateHead[4]);
    assert NoNewline(CreateHead[5]);
  }

  lemma RangeLinesNoNewline()
    ensures NoNewline(CreateHead[6]) && NoNewline(CreateHead[7])
  {
    assert NoNewline(RangeClause);
    assert NoNewline(RangeKey);
    NoNewlineAppend(RangeClause, RangeKey);
    StartLineNoNewline();
  }

  lemma StartLineNoNewline()
    ensures NoNewline(CreateHead[7])
  {
    assert NoNewline(CreateHead[7]);
  }
}
