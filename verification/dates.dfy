/**
 The two moment format strings the partitioning code uses on dates:
 `YYYYMMDD` for partition names and `YYYY-MM-DD` for `TO_DAYS('…')`
 literals, with a parser for each that undoes the formatting.
 */
module Dates {
  import opened Seqs
  import opened Text
  import opened Calendar

  datatype Pattern =
    | Compact  // YYYYMMDD
    | Dashed   // YYYY-MM-DD

  function Separator(p: Pattern): string
  {
    match p
    case Compact => ""
    case Dashed => "-"
  }

  /** moment's `YYYY` token: `zeroFill(year, 4)`, a minus sign before negative years. */
  function YearText(y: int): (s: string)
    ensures ParseInt(s) == Some(y)
  {
    var digits := ZeroFill(if y < 0 then -y else y, 4);
    if y < 0 then
      assert ("-" + digits)[1..] == digits;
      "-" + digits
    else
      digits
  }

  /** `c` formatted with pattern `p`; month and day always take exactly two characters. */
  function Format(p: Pattern, c: Civil): (s: string)
    requires Valid(c)
    ensures |s| >= 8 + 2 * |Separator(p)|
  {
    TwoDigitDecimal(c.month);
    TwoDigitDecimal(c.day);
    YearText(c.year) + Separator(p) + ZeroFill(c.month, 2) + Separator(p) + ZeroFill(c.day, 2)
  }

  /** Reads back a date written with pattern `p`; `None` when the text has the wrong shape. */
  function Parse(p: Pattern, s: string): Option<Civil>
  {
    var sep := Separator(p);
    if |s| < 4 + 2 * |sep| + 1 then None
    else
      var dayText := s[|s| - 2..];
      var monthEnd := |s| - 2 - |sep|;
      var monthText := s[monthEnd - 2..monthEnd];
      var yearEnd := monthEnd - 2 - |sep|;
      if s[monthEnd..|s| - 2] != sep || s[yearEnd..monthEnd - 2] != sep then None
      else if !AllDigits(dayText) || !AllDigits(monthText) then None
      else match ParseInt(s[..yearEnd])
        case None => None
        case Some(y) => Some(Civil(y, ParseDecimal(monthText), ParseDecimal(dayText)))
  }

  /** Parsing undoes formatting, for both patterns. */
  lemma ParseFormat(p: Pattern, c: Civil)
    requires Valid(c)
    ensures Parse(p, Format(p, c)) == Some(c)
  {
    TwoDigitDecimal(c.month);
    TwoDigitDecimal(c.day);
    ParseFields(p, YearText(c.year), ZeroFill(c.month, 2), ZeroFill(c.day, 2));
  }

  /** A year text and two two-digit fields, joined by the separator, read back field by field. */
  lemma ParseFields(p: Pattern, y: string, m: string, d: string)
    requires |m| == 2 && |d| == 2 && AllDigits(m) && AllDigits(d) && ParseInt(y).Some?
    ensures Parse(p, y + Separator(p) + m + Separator(p) + d)
      == Some(Civil(ParseInt(y).value, ParseDecimal(m), ParseDecimal(d)))
  {
    FieldsOfDate(y, Separator(p), m, d);
    ParseOfFields(p, y + Separator(p) + m + Separator(p) + d, y, m, d);
  }

  /** `Parse` reads the fields where they sit, counted from the end of the text. */
  lemma ParseOfFields(p: Pattern, s: string, y: string, m: string, d: string)
    requires |s| >= 5 + 2 * |Separator(p)|
    requires var sep := Separator(p);
      var monthEnd := |s| - 2 - |sep|;
      && s[|s| - 2..] == d
      && s[monthEnd - 2..monthEnd] == m
      && s[monthEnd..|s| - 2] == sep
      && s[monthEnd - 2 - |sep|..monthEnd - 2] == sep
      && s[..monthEnd - 2 - |sep|] == y
    requires AllDigits(m) && AllDigits(d) && ParseInt(y).Some?
    ensures Parse(p, s) == Some(Civil(ParseInt(y).value, ParseDecimal(m), ParseDecimal(d)))
  {
  }

  /** Where the fields of `year sep mm sep dd` sit, counted from the end of the text. */
  lemma FieldsOfDate(y: string, sep: string, m: string, d: string)
    requires |m| == 2 && |d| == 2
    ensures var s := y + sep + m + sep + d;
      var monthEnd := |s| - 2 - |sep|;
      && s[|s| - 2..] == d
      && s[monthEnd - 2..monthEnd] == m
      && s[monthEnd..|s| - 2] == sep
      && s[monthEnd - 2 - |sep|..monthEnd - 2] == sep
      && s[..monthEnd - 2 - |sep|] == y
  {
  }

  /** Two valid dates with the same text are the same date. */
  lemma FormatInjective(p: Pattern, a: Civil, b: Civil)
    requires Valid(a) && Valid(b) && Format(p, a) == Format(p, b)
    ensures a == b
  {
    ParseFormat(p, a);
    ParseFormat(p, b);
  }
}
