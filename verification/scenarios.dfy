/**
 The concrete cases the repository's tests check, stated on the model: day
 numbers of known dates, the planner's window for 2017-04-16, the initial
 partition lines for 2011-01-31, and the one-day roll from 2010-01-07 to
 2010-01-08 with a retention of 7 days.
 */
module Scenarios {
  import opened Seqs
  import opened Text
  import opened Calendar
  import opened Dates
  import opened Planner
  import opened Differ
  import opened Ddl
  import opened Reconcile
  import opened Intended

  // ---------------------------------------------------------------- helpers

  /** A year of four digits is written as exactly those digits. */
  lemma FourDigitYear(y: int)
    requires 1000 <= y <= 9999
    ensures YearText(y) == [DigitChar(y / 1000), DigitChar(y / 100 % 10), DigitChar(y / 10 % 10), DigitChar(y % 10)]
  {
    assert Decimal(y / 1000) == [DigitChar(y / 1000)];
    assert Decimal(y / 100) == [DigitChar(y / 1000), DigitChar(y / 100 % 10)];
    assert Decimal(y / 10) == [DigitChar(y / 1000), DigitChar(y / 100 % 10), DigitChar(y / 10 % 10)];
  }

  /** A month or day is written as two digits. */
  lemma TwoDigitField(n: int)
    requires 1 <= n <= 99
    ensures ZeroFill(n, 2) == [DigitChar(n / 10), DigitChar(n % 10)]
  {
    if n >= 10 {
      assert Decimal(n / 10) == [DigitChar(n / 10)];
    }
  }

  /** The digits of a date with a four-digit year, in either pattern. */
  lemma FormatDigits(p: Pattern, c: Civil)
    requires Valid(c) && 1000 <= c.year <= 9999
    ensures Format(p, c)
      == [DigitChar(c.year / 1000), DigitChar(c.year / 100 % 10), DigitChar(c.year / 10 % 10), DigitChar(c.year % 10)]
        + Separator(p) + [DigitChar(c.month / 10), DigitChar(c.month % 10)]
        + Separator(p) + [DigitChar(c.day / 10), DigitChar(c.day % 10)]
  {
    FourDigitYear(c.year);
    TwoDigitField(c.month);
    TwoDigitField(c.day);
  }

  /** Window entry `i` is named for the date `c` of its day and bounded by the next day. */
  lemma WindowEntry(now: int, retention: int, p: Pattern, i: int, c: Civil)
    requires 0 <= i < retention && Valid(c) && DayCount(c) == now - retention + 1 + i
    ensures Window(now, retention, NameOf(p))[i] == Partition("from" + Format(p, c), DayCount(c) + 1)
  {
    WindowAt(now, retention, NameOf(p), i);
    NameOfDate(p, c);
  }

  /** The name of the partition of date `c`'s day is `from` and that date's text. */
  lemma NameOfDate(p: Pattern, c: Civil)
    requires Valid(c)
    ensures NameOf(p)(DayCount(c)) == "from" + Format(p, c)
  {
    CivilOfDayCount(c);
  }

  /** Window entry `i` is named `text`, the `YYYYMMDD` name of date `c` of its day. */
  lemma CompactName(now: int, retention: int, i: int, c: Civil, text: string)
    requires 0 <= i < retention && Valid(c) && DayCount(c) == now - retention + 1 + i && 1000 <= c.year <= 9999
    requires text == "from" + [DigitChar(c.year / 1000), DigitChar(c.year / 100 % 10), DigitChar(c.year / 10 % 10), DigitChar(c.year % 10)]
        + [DigitChar(c.month / 10), DigitChar(c.month % 10)] + [DigitChar(c.day / 10), DigitChar(c.day % 10)]
    ensures Window(now, retention, NameOf(Compact))[i].name == text
  {
    WindowEntry(now, retention, Compact, i, c);
    FormatDigits(Compact, c);
  }

  /** Window entry `i` is bounded by day `b`, the day after its own. */
  lemma EntryBound(now: int, retention: int, i: int, b: int)
    requires 0 <= i < retention && b == now - retention + 2 + i
    ensures Window(now, retention, NameOf(Compact))[i].boundary == b
  {
    WindowAt(now, retention, NameOf(Compact), i);
  }

  /** Window entry `i` is the partition named `text` and bounded by `b`, for date `c` of its day. */
  lemma CompactWindowEntry(now: int, retention: int, i: int, c: Civil, text: string, b: int)
    requires 0 <= i < retention && Valid(c) && DayCount(c) == now - retention + 1 + i && 1000 <= c.year <= 9999
    requires text == "from" + [DigitChar(c.year / 1000), DigitChar(c.year / 100 % 10), DigitChar(c.year / 10 % 10), DigitChar(c.year % 10)]
        + [DigitChar(c.month / 10), DigitChar(c.month % 10)] + [DigitChar(c.day / 10), DigitChar(c.day % 10)]
    requires b == now - retention + 2 + i
    ensures Window(now, retention, NameOf(Compact))[i] == Partition(text, b)
  {
    CompactName(now, retention, i, c, text);
    EntryBound(now, retention, i, b);
  }

  // ---------------------------------------------------------------- day numbers

  /** MySQL's day numbers for the dates the end-to-end test uses. */
  lemma DayCountVectors()
    ensures DayCount(Civil(2010, 1, 2)) == 734139
    ensures DayCount(Civil(2010, 1, 8)) == 734145
  {
  }

  /** MySQL's day number for the first bound the planner's unit test expects. */
  lemma UnitTestDayCount()
    ensures DayCount(Civil(2017, 4, 13)) == 736797
  {
  }

  // ---------------------------------------------------------------- the planner's unit test

  /**
   The planner's unit test passes bare names as the current list, so there
   is no usable minimum: on 2017-04-16 with a retention of 5 days the planner
   returns the whole window, named for 2017-04-12 to 2017-04-16 with bounds
   736797 to 736801.
   */
  lemma UnitTestWindow(now: int)
    requires now == DayCount(Civil(2017, 4, 16))
    ensures PlanWindow(now, 5, NotANumber, NameOf(Compact)) == [
      Partition("from20170412", 736797),
      Partition("from20170413", 736798),
      Partition("from20170414", 736799),
      Partition("from20170415", 736800),
      Partition("from20170416", 736801)
    ]
  {
    UnfilteredWindow(now, 5, NameOf(Compact));
    UnitTestWindowEntries(now);
    UnitTestList(Window(now, 5, NameOf(Compact)));
  }

  /** Five entries equal to the expected ones make the expected list. */
  lemma UnitTestList(w: seq<Partition>)
    requires |w| == 5
    requires w[0] == Partition("from20170412", 736797)
    requires w[1] == Partition("from20170413", 736798)
    requires w[2] == Partition("from20170414", 736799)
    requires w[3] == Partition("from20170415", 736800)
    requires w[4] == Partition("from20170416", 736801)
    ensures w == [
      Partition("from20170412", 736797),
      Partition("from20170413", 736798),
      Partition("from20170414", 736799),
      Partition("from20170415", 736800),
      Partition("from20170416", 736801)
    ]
  {
  }

  /** Each entry of the 2017-04-16 window, one date at a time. */
  lemma UnitTestWindowEntries(now: int)
    requires now == DayCount(Civil(2017, 4, 16))
    ensures Window(now, 5, NameOf(Compact))[0] == Partition("from20170412", 736797)
    ensures Window(now, 5, NameOf(Compact))[1] == Partition("from20170413", 736798)
    ensures Window(now, 5, NameOf(Compact))[2] == Partition("from20170414", 736799)
    ensures Window(now, 5, NameOf(Compact))[3] == Partition("from20170415", 736800)
    ensures Window(now, 5, NameOf(Compact))[4] == Partition("from20170416", 736801)
  {
    UnitTestEntry0(now);
    UnitTestEntry1(now);
    UnitTestEntry2(now);
    UnitTestEntry3(now);
    UnitTestEntry4(now);
  }

  lemma UnitTestEntry0(now: int)
    requires now == DayCount(Civil(2017, 4, 16))
    ensures Window(now, 5, NameOf(Compact))[0] == Partition("from20170412", 736797)
  {
    CompactWindowEntry(now, 5, 0, Civil(2017, 4, 12), "from20170412", 736797);
  }

  lemma UnitTestEntry1(now: int)
    requires now == DayCount(Civil(2017, 4, 16))
    ensures Window(now, 5, NameOf(Compact))[1] == Partition("from20170413", 736798)
  {
    CompactWindowEntry(now, 5, 1, Civil(2017, 4, 13), "from20170413", 736798);
  }

  lemma UnitTestEntry2(now: int)
    requires now == DayCount(Civil(2017, 4, 16))
    ensures Window(now, 5, NameOf(Compact))[2] == Partition("from20170414", 736799)
  {
    CompactWindowEntry(now, 5, 2, Civil(2017, 4, 14), "from20170414", 736799);
  }

  lemma UnitTestEntry3(now: int)
    requires now == DayCount(Civil(2017, 4, 16))
    ensures Window(now, 5, NameOf(Compact))[3] == Partition("from20170415", 736800)
  {
    CompactWindowEntry(now, 5, 3, Civil(2017, 4, 15), "from20170415", 736800);
  }

  lemma UnitTestEntry4(now: int)
    requires now == DayCount(Civil(2017, 4, 16))
    ensures Window(now, 5, NameOf(Compact))[4] == Partition("from20170416", 736801)
  {
    CompactWindowEntry(now, 5, 4, Civil(2017, 4, 16), "from20170416", 736801);
  }

  // ---------------------------------------------------------------- the initial partitions' unit test

  /**
   Window entry `i` is bounded by the day of date `c`, whose `YYYY-MM-DD`
   text is `text`.
   */
  lemma DashedBound(now: int, retention: int, i: int, c: Civil, text: string)
    requires 0 <= i < retention && Valid(c) && DayCount(c) == now - retention + 2 + i && 1000 <= c.year <= 9999
    requires text == [DigitChar(c.year / 1000), DigitChar(c.year / 100 % 10), DigitChar(c.year / 10 % 10), DigitChar(c.year % 10)]
        + "-" + [DigitChar(c.month / 10), DigitChar(c.month % 10)]
        + "-" + [DigitChar(c.day / 10), DigitChar(c.day % 10)]
    ensures Format(Dashed, CivilOf(Window(now, retention, NameOf(Compact))[i].boundary)) == text
  {
    WindowAt(now, retention, NameOf(Compact), i);
    CivilOfDayCount(c);
    FormatDigits(Dashed, c);
  }

  /**
   Initial line `i` names the partition `text` of date `c` and bounds it by
   `TO_DAYS` of `date`, the text of the next date `d`.
   */
  lemma CompactInitialLine(now: int, retention: int, i: int, c: Civil, text: string, d: Civil, date: string)
    requires 0 <= i < retention && Valid(c) && DayCount(c) == now - retention + 1 + i && 1000 <= c.year <= 9999
    requires text == "from" + [DigitChar(c.year / 1000), DigitChar(c.year / 100 % 10), DigitChar(c.year / 10 % 10), DigitChar(c.year % 10)]
        + [DigitChar(c.month / 10), DigitChar(c.month % 10)] + [DigitChar(c.day / 10), DigitChar(c.day % 10)]
    requires Valid(d) && DayCount(d) == now - retention + 2 + i && 1000 <= d.year <= 9999
    requires date == [DigitChar(d.year / 1000), DigitChar(d.year / 100 % 10), DigitChar(d.year / 10 % 10), DigitChar(d.year % 10)]
        + "-" + [DigitChar(d.month / 10), DigitChar(d.month % 10)]
        + "-" + [DigitChar(d.day / 10), DigitChar(d.day % 10)]
    ensures InitialLines(Window(now, retention, NameOf(Compact)))[i] == NamePrefix + text + DaysInfix + "'" + date + "')),"
  {
    CompactName(now, retention, i, c, text);
    DashedBound(now, retention, i, d, date);
  }

  /**
   On 2011-01-31 with a retention of 7 days the initial partitions are named
   for 2011-01-25 to 2011-01-31, each bounded by `TO_DAYS` of the next date,
   the last one crossing into February.
   */
  lemma InitialStringsOn20110131(now: int)
    requires now == DayCount(Civil(2011, 1, 31))
    ensures GetPartitionStrings(now, 7, Compact) == JoinLines([
      NamePrefix + "from20110125" + DaysInfix + "'" + "2011-01-26" + "')),",
      NamePrefix + "from20110126" + DaysInfix + "'" + "2011-01-27" + "')),",
      NamePrefix + "from20110127" + DaysInfix + "'" + "2011-01-28" + "')),",
      NamePrefix + "from20110128" + DaysInfix + "'" + "2011-01-29" + "')),",
      NamePrefix + "from20110129" + DaysInfix + "'" + "2011-01-30" + "')),",
      NamePrefix + "from20110130" + DaysInfix + "'" + "2011-01-31" + "')),",
      NamePrefix + "from20110131" + DaysInfix + "'" + "2011-02-01" + "')),"
    ])
  {
    InitialStringsLine0(now);
    InitialStringsLine1(now);
    InitialStringsLine2(now);
    InitialStringsLine3(now);
    InitialStringsLine4(now);
    InitialStringsLine5(now);
    InitialStringsLine6(now);
    InitialStringsList(InitialLines(Window(now, 7, NameOf(Compact))));
  }

  /** Seven lines equal to the expected ones make the expected list. */
  lemma InitialStringsList(lines: seq<string>)
    requires |lines| == 7
    requires lines[0] == NamePrefix + "from20110125" + DaysInfix + "'" + "2011-01-26" + "')),"
    requires lines[1] == NamePrefix + "from20110126" + DaysInfix + "'" + "2011-01-27" + "')),"
    requires lines[2] == NamePrefix + "from20110127" + DaysInfix + "'" + "2011-01-28" + "')),"
    requires lines[3] == NamePrefix + "from20110128" + DaysInfix + "'" + "2011-01-29" + "')),"
    requires lines[4] == NamePrefix + "from20110129" + DaysInfix + "'" + "2011-01-30" + "')),"
    requires lines[5] == NamePrefix + "from20110130" + DaysInfix + "'" + "2011-01-31" + "')),"
    requires lines[6] == NamePrefix + "from20110131" + DaysInfix + "'" + "2011-02-01" + "')),"
    ensures lines == [
      NamePrefix + "from20110125" + DaysInfix + "'" + "2011-01-26" + "')),",
      NamePrefix + "from20110126" + DaysInfix + "'" + "2011-01-27" + "')),",
      NamePrefix + "from20110127" + DaysInfix + "'" + "2011-01-28" + "')),",
      NamePrefix + "from20110128" + DaysInfix + "'" + "2011-01-29" + "')),",
      NamePrefix + "from20110129" + DaysInfix + "'" + "2011-01-30" + "')),",
      NamePrefix + "from20110130" + DaysInfix + "'" + "2011-01-31" + "')),",
      NamePrefix + "from20110131" + DaysInfix + "'" + "2011-02-01" + "')),"
    ]
  {
  }

  lemma InitialStringsLine0(now: int)
    requires now == DayCount(Civil(2011, 1, 31))
    ensures InitialLines(Window(now, 7, NameOf(Compact)))[0] == NamePrefix + "from20110125" + DaysInfix + "'" + "2011-01-26" + "')),"
  {
    CompactInitialLine(now, 7, 0, Civil(2011, 1, 25), "from20110125", Civil(2011, 1, 26), "2011-01-26");
  }

  lemma InitialStringsLine1(now: int)
    requires now == DayCount(Civil(2011, 1, 31))
    ensures InitialLines(Window(now, 7, NameOf(Compact)))[1] == NamePrefix + "from20110126" + DaysInfix + "'" + "2011-01-27" + "')),"
  {
    CompactInitialLine(now, 7, 1, Civil(2011, 1, 26), "from20110126", Civil(2011, 1, 27), "2011-01-27");
  }

  lemma InitialStringsLine2(now: int)
    requires now == DayCount(Civil(2011, 1, 31))
    ensures InitialLines(Window(now, 7, NameOf(Compact)))[2] == NamePrefix + "from20110127" + DaysInfix + "'" + "2011-01-28" + "')),"
  {
    CompactInitialLine(now, 7, 2, Civil(2011, 1, 27), "from20110127", Civil(2011, 1, 28), "2011-01-28");
  }

  lemma InitialStringsLine3(now: int)
    requires now == DayCount(Civil(2011, 1, 31))
    ensures InitialLines(Window(now, 7, NameOf(Compact)))[3] == NamePrefix + "from20110128" + DaysInfix + "'" + "2011-01-29" + "')),"
  {
    CompactInitialLine(now, 7, 3, Civil(2011, 1, 28), "from20110128", Civil(2011, 1, 29), "2011-01-29");
  }

  lemma InitialStringsLine4(now: int)
    requires now == DayCount(Civil(2011, 1, 31))
    ensures InitialLines(Window(now, 7, NameOf(Compact)))[4] == NamePrefix + "from20110129" + DaysInfix + "'" + "2011-01-30" + "')),"
  {
    CompactInitialLine(now, 7, 4, Civil(2011, 1, 29), "from20110129", Civil(2011, 1, 30), "2011-01-30");
  }

  lemma InitialStringsLine5(now: int)
    requires now == DayCount(Civil(2011, 1, 31))
    ensures InitialLines(Window(now, 7, NameOf(Compact)))[5] == NamePrefix + "from20110130" + DaysInfix + "'" + "2011-01-31" + "')),"
  {
    CompactInitialLine(now, 7, 5, Civil(2011, 1, 30), "from20110130", Civil(2011, 1, 31), "2011-01-31");
  }

  lemma InitialStringsLine6(now: int)
    requires now == DayCount(Civil(2011, 1, 31))
    ensures InitialLines(Window(now, 7, NameOf(Compact)))[6] == NamePrefix + "from20110131" + DaysInfix + "'" + "2011-02-01" + "')),"
  {
    CompactInitialLine(now, 7, 6, Civil(2011, 1, 31), "from20110131", Civil(2011, 2, 1), "2011-02-01");
  }

  /**
   The first initial line for 2011-01-31 is, character for character, the
   first line the unit test expects.
   */
  lemma FirstInitialLineText(now: int)
    requires now == DayCount(Civil(2011, 1, 31))
    ensures InitialLines(Window(now, 7, NameOf(Compact)))[0]
      == "PARTITION `from20110125` VALUES LESS THAN (TO_DAYS('2011-01-26')),"
  {
    InitialStringsLine0(now);
    NameText();
    InfixText();
    DateText();
  }

  /** The name merged into the prefix. */
  lemma NameText()
    ensures NamePrefix + "from20110125" == "PARTITION `from20110125"
  {
  }

  /** The infix and the opening quote merged after the name. */
  lemma InfixText()
    ensures "PARTITION `from20110125" + DaysInfix + "'" == "PARTITION `from20110125` VALUES LESS THAN (TO_DAYS('"
  {
  }

  /** The date and the closing text merged at the end. */
  lemma DateText()
    ensures "PARTITION `from20110125` VALUES LESS THAN (TO_DAYS('" + "2011-01-26" + "'))," ==
      "PARTITION `from20110125` VALUES LESS THAN (TO_DAYS('2011-01-26')),"
  {
  }

  // ---------------------------------------------------------------- the end-to-end roll

  /**
   The table created on 2010-01-07 with a retention of 7 days holds the
   partitions named for 2010-01-01 to 2010-01-07, bounded by 734139 to
   734145 (the `start` and `future` partitions aside).
   */
  lemma RollBefore(now: int)
    requires now == DayCount(Civil(2010, 1, 7))
    ensures Window(now, 7, NameOf(Compact)) == [
      Partition("from20100101", 734139),
      Partition("from20100102", 734140),
      Partition("from20100103", 734141),
      Partition("from20100104", 734142),
      Partition("from20100105", 734143),
      Partition("from20100106", 734144),
      Partition("from20100107", 734145)
    ]
  {
    RollBeforeEntry0(now);
    RollBeforeEntry1(now);
    RollBeforeEntry2(now);
    RollBeforeEntry3(now);
    RollBeforeEntry4(now);
    RollBeforeEntry5(now);
    RollBeforeEntry6(now);
    SevenEntries(Window(now, 7, NameOf(Compact)), [
      Partition("from20100101", 734139),
      Partition("from20100102", 734140),
      Partition("from20100103", 734141),
      Partition("from20100104", 734142),
      Partition("from20100105", 734143),
      Partition("from20100106", 734144),
      Partition("from20100107", 734145)
    ]);
  }

  /**
   A day later the table is to hold the partitions named for 2010-01-02 to
   2010-01-08, bounded by 734140 to 734146.
   */
  lemma RollAfter(now: int)
    requires now == DayCount(Civil(2010, 1, 8))
    ensures Window(now, 7, NameOf(Compact)) == [
      Partition("from20100102", 734140),
      Partition("from20100103", 734141),
      Partition("from20100104", 734142),
      Partition("from20100105", 734143),
      Partition("from20100106", 734144),
      Partition("from20100107", 734145),
      Partition("from20100108", 734146)
    ]
  {
    RollAfterEntry0(now);
    RollAfterEntry1(now);
    RollAfterEntry2(now);
    RollAfterEntry3(now);
    RollAfterEntry4(now);
    RollAfterEntry5(now);
    RollAfterEntry6(now);
    SevenEntries(Window(now, 7, NameOf(Compact)), [
      Partition("from20100102", 734140),
      Partition("from20100103", 734141),
      Partition("from20100104", 734142),
      Partition("from20100105", 734143),
      Partition("from20100106", 734144),
      Partition("from20100107", 734145),
      Partition("from20100108", 734146)
    ]);
  }

  /**
   `Table.removeExpired(7)` on 2010-01-08, against the table created the day
   before, creates `from20100108` bounded by 734146, drops `from20100101`,
   and leaves the table with the partitions named for 2010-01-02 to
   2010-01-08.
   */
  lemma RollRepartition(now: int)
    requires now == DayCount(Civil(2010, 1, 8))
    ensures var before := [
        Partition("from20100101", 734139),
        Partition("from20100102", 734140),
        Partition("from20100103", 734141),
        Partition("from20100104", 734142),
        Partition("from20100105", 734143),
        Partition("from20100106", 734144),
        Partition("from20100107", 734145)
      ];
      var plan := Repartition(now, 7, before, Compact);
      && plan == Plan([Partition("from20100108", 734146)], [Partition("from20100101", 734139)])
      && Run(before, plan) == [
        Partition("from20100102", 734140),
        Partition("from20100103", 734141),
        Partition("from20100104", 734142),
        Partition("from20100105", 734143),
        Partition("from20100106", 734144),
        Partition("from20100107", 734145),
        Partition("from20100108", 734146)
      ]
  {
    RollBefore(now - 1);
    RollAfter(now);
    DailyRoll(now, 7, Compact);
  }

  /**
   The statement written for that roll reads back as the one partition to
   create, with its integer bound, and the one name to drop.
   */
  lemma RollStatement(plan: Plan)
    requires plan == Plan([Partition("from20100108", 734146)], [Partition("from20100101", 734139)])
    ensures ParseReorganize(ReorganizeFuturePartition(plan.toCreate)) == Some([Partition("from20100108", 734146)])
    ensures ParseDrop(DropOldPartitions(plan.toDrop)) == Some(["from20100101"])
  {
    assert NoNewline(plan.toCreate[0].name);
    assert NoNewline(plan.toDrop[0].name);
    ReorganizeRoundTrip(plan.toCreate);
    DropRoundTrip(plan.toDrop);
    assert Names(plan.toDrop) == ["from20100101"];
  }

  /**
   Run again on 2010-01-08 against the table that roll left, the code as
   written creates nothing and drops `from20100102`, although no day has
   passed since the previous run.
   */
  lemma RerunOn20100108(now: int)
    requires now == DayCount(Civil(2010, 1, 8))
    ensures var after := [
        Partition("from20100102", 734140),
        Partition("from20100103", 734141),
        Partition("from20100104", 734142),
        Partition("from20100105", 734143),
        Partition("from20100106", 734144),
        Partition("from20100107", 734145),
        Partition("from20100108", 734146)
      ];
      Repartition(now, 7, after, Compact) == Plan([], [Partition("from20100102", 734140)])
  {
    RollAfter(now);
    SameDayRerunDropsOldest(now, 7, Compact);
  }

  /** With the floor on the boundary, the same re-run plans nothing. */
  lemma IntendedRerunOn20100108(now: int)
    requires now == DayCount(Civil(2010, 1, 8))
    ensures var after := [
        Partition("from20100102", 734140),
        Partition("from20100103", 734141),
        Partition("from20100104", 734142),
        Partition("from20100105", 734143),
        Partition("from20100106", 734144),
        Partition("from20100107", 734145),
        Partition("from20100108", 734146)
      ];
      IntendedRepartition(now, 7, after, Compact) == Plan([], [])
  {
    RollAfter(now);
    IntendedRerunOnWindow(now, 7, Compact);
  }

  lemma SevenEntries(a: seq<Partition>, b: seq<Partition>)
    requires |a| == |b| == 7
    requires a[0] == b[0] && a[1] == b[1] && a[2] == b[2] && a[3] == b[3] && a[4] == b[4] && a[5] == b[5] && a[6] == b[6]
    ensures a == b
  {
  }

  lemma RollBeforeEntry0(now: int)
    requires now == DayCount(Civil(2010, 1, 7))
    ensures Window(now, 7, NameOf(Compact))[0] == Partition("from20100101", 734139)
  {
    CompactWindowEntry(now, 7, 0, Civil(2010, 1, 1), "from20100101", 734139);
  }

  lemma RollBeforeEntry1(now: int)
    requires now == DayCount(Civil(2010, 1, 7))
    ensures Window(now, 7, NameOf(Compact))[1] == Partition("from20100102", 734140)
  {
    CompactWindowEntry(now, 7, 1, Civil(2010, 1, 2), "from20100102", 734140);
  }

  lemma RollBeforeEntry2(now: int)
    requires now == DayCount(Civil(2010, 1, 7))
    ensures Window(now, 7, NameOf(Compact))[2] == Partition("from20100103", 734141)
  {
    CompactWindowEntry(now, 7, 2, Civil(2010, 1, 3), "from20100103", 734141);
  }

  lemma RollBeforeEntry3(now: int)
    requires now == DayCount(Civil(2010, 1, 7))
    ensures Window(now, 7, NameOf(Compact))[3] == Partition("from20100104", 734142)
  {
    CompactWindowEntry(now, 7, 3, Civil(2010, 1, 4), "from20100104", 734142);
  }

  lemma RollBeforeEntry4(now: int)
    requires now == DayCount(Civil(2010, 1, 7))
    ensures Window(now, 7, NameOf(Compact))[4] == Partition("from20100105", 734143)
  {
    CompactWindowEntry(now, 7, 4, Civil(2010, 1, 5), "from20100105", 734143);
  }

  lemma RollBeforeEntry5(now: int)
    requires now == DayCount(Civil(2010, 1, 7))
    ensures Window(now, 7, NameOf(Compact))[5] == Partition("from20100106", 734144)
  {
    CompactWindowEntry(now, 7, 5, Civil(2010, 1, 6), "from20100106", 734144);
  }

  lemma RollBeforeEntry6(now: int)
    requires now == DayCount(Civil(2010, 1, 7))
    ensures Window(now, 7, NameOf(Compact))[6] == Partition("from20100107", 734145)
  {
    CompactWindowEntry(now, 7, 6, Civil(2010, 1, 7), "from20100107", 734145);
  }

  lemma RollAfterEntry0(now: int)
    requires now == DayCount(Civil(2010, 1, 8))
    ensures Window(now, 7, NameOf(Compact))[0] == Partition("from20100102", 734140)
  {
    CompactWindowEntry(now, 7, 0, Civil(2010, 1, 2), "from20100102", 734140);
  }

  lemma RollAfterEntry1(now: int)
    requires now == DayCount(Civil(2010, 1, 8))
    ensures Window(now, 7, NameOf(Compact))[1] == Partition("from20100103", 734141)
  {
    CompactWindowEntry(now, 7, 1, Civil(2010, 1, 3), "from20100103", 734141);
  }

  lemma RollAfterEntry2(now: int)
    requires now == DayCount(Civil(2010, 1, 8))
    ensures Window(now, 7, NameOf(Compact))[2] == Partition("from20100104", 734142)
  {
    CompactWindowEntry(now, 7, 2, Civil(2010, 1, 4), "from20100104", 734142);
  }

  lemma RollAfterEntry3(now: int)
    requires now == DayCount(Civil(2010, 1, 8))
    ensures Window(now, 7, NameOf(Compact))[3] == Partition("from20100105", 734143)
  {
    CompactWindowEntry(now, 7, 3, Civil(2010, 1, 5), "from20100105", 734143);
  }

  lemma RollAfterEntry4(now: int)
    requires now == DayCount(Civil(2010, 1, 8))
    ensures Window(now, 7, NameOf(Compact))[4] == Partition("from20100106", 734144)
  {
    CompactWindowEntry(now, 7, 4, Civil(2010, 1, 6), "from20100106", 734144);
  }

  lemma RollAfterEntry5(now: int)
    requires now == DayCount(Civil(2010, 1, 8))
    ensures Window(now, 7, NameOf(Compact))[5] == Partition("from20100107", 734145)
  {
    CompactWindowEntry(now, 7, 5, Civil(2010, 1, 7), "from20100107", 734145);
  }

  lemma RollAfterEntry6(now: int)
    requires now == DayCount(Civil(2010, 1, 8))
    ensures Window(now, 7, NameOf(Compact))[6] == Partition("from20100108", 734146)
  {
    CompactWindowEntry(now, 7, 6, Civil(2010, 1, 8), "from20100108", 734146);
  }
}
