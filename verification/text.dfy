/**
 Decimal rendering as JavaScript produces it for integers (template
 interpolation, moment's `zeroFill`), the matching parsers, and joining and
 splitting text on a separator.
 */
module Text {
  import opened Seqs

  predicate IsDigit(c: char) { '0' <= c <= '9' }

  predicate AllDigits(s: string) { forall i :: 0 <= i < |s| ==> IsDigit(s[i]) }

  function DigitChar(d: nat): (c: char)
    requires d < 10
    ensures IsDigit(c)
  {
    (48 + d) as char
  }

  function DigitValue(c: char): (d: nat)
    requires IsDigit(c)
    ensures d < 10
  {
    c as int - 48
  }

  /** The shortest decimal text of `n`: no sign and no leading zero except for `0` itself. */
  function Decimal(n: nat): (s: string)
    ensures 1 <= |s| && AllDigits(s)
    ensures n < 10 <==> |s| == 1
    ensures |s| > 1 ==> s[0] != '0'
  {
    if n < 10 then [DigitChar(n)] else Decimal(n / 10) + [DigitChar(n % 10)]
  }

  /** The value of a string of decimal digits, most significant first; the empty string reads as 0. */
  function ParseDecimal(s: string): nat
    requires AllDigits(s)
  {
    if |s| == 0 then 0 else ParseDecimal(s[..|s| - 1]) * 10 + DigitValue(s[|s| - 1])
  }

  lemma {:induction false} ParseDecimalOfDecimal(n: nat)
    ensures ParseDecimal(Decimal(n)) == n
  {
    var s := Decimal(n);
    if n >= 10 {
      assert s[..|s| - 1] == Decimal(n / 10);
      ParseDecimalOfDecimal(n / 10);
    } else {
      assert s[..0] == [];
    }
  }

  /** Numbers below 100 render in at most two digits. */
  lemma TwoDigitDecimal(n: nat)
    requires n < 100
    ensures |Decimal(n)| <= 2
  {
    if n >= 10 {
      assert |Decimal(n / 10)| == 1;
    }
  }

  function Zeros(k: nat): (s: string)
    ensures |s| == k
    ensures forall i :: 0 <= i < k ==> s[i] == '0'
  {
    if k == 0 then [] else ['0'] + Zeros(k - 1)
  }

  lemma {:induction false} LeadingZerosIgnored(k: nat, s: string)
    requires AllDigits(s)
    ensures AllDigits(Zeros(k) + s)
    ensures ParseDecimal(Zeros(k) + s) == ParseDecimal(s)
    decreases |s|
  {
    var t := Zeros(k) + s;
    if |s| == 0 {
      assert t == Zeros(k);
      AllZerosReadAsZero(k);
    } else {
      assert t[..|t| - 1] == Zeros(k) + s[..|s| - 1];
      LeadingZerosIgnored(k, s[..|s| - 1]);
    }
  }

  lemma {:induction false} AllZerosReadAsZero(k: nat)
    ensures AllDigits(Zeros(k)) && ParseDecimal(Zeros(k)) == 0
  {
    if k > 0 {
      var z := Zeros(k);
      assert z[..k - 1] == Zeros(k - 1);
      AllZerosReadAsZero(k - 1);
    }
  }

  /**
   moment's `zeroFill` for a non-negative number: the decimal digits of `n`,
   left-padded with zeros to at least `width` characters, never truncated.
   */
  function ZeroFill(n: nat, width: nat): (s: string)
    ensures AllDigits(s)
    ensures |s| >= width && |s| >= |Decimal(n)|
    ensures |Decimal(n)| <= width ==> |s| == width
    ensures ParseDecimal(s) == n
  {
    var digits := Decimal(n);
    ParseDecimalOfDecimal(n);
    if |digits| < width then
      LeadingZerosIgnored(width - |digits|, digits);
      Zeros(width - |digits|) + digits
    else
      digits
  }

  /** How JavaScript interpolates an integer into a template string. */
  function IntText(i: int): (s: string)
    ensures |s| >= 1
    ensures i >= 0 <==> s[0] != '-'
  {
    if i < 0 then "-" + Decimal(-i) else Decimal(i)
  }

  /** Reads an optionally negative decimal integer; anything else is `None`. */
  function ParseInt(s: string): (r: Option<int>)
    ensures r.Some? ==> |s| > 0
  {
    if |s| > 1 && s[0] == '-' && AllDigits(s[1..]) then Some(0 - ParseDecimal(s[1..]))
    else if |s| > 0 && AllDigits(s) then Some(ParseDecimal(s))
    else None
  }

  lemma ParseIntOfIntText(i: int)
    ensures ParseInt(IntText(i)) == Some(i)
  {
    var s := IntText(i);
    if i < 0 {
      assert s[1..] == Decimal(-i);
      ParseDecimalOfDecimal(-i);
    } else {
      assert !IsDigit('-');
      ParseDecimalOfDecimal(i);
    }
  }

  /** `xs.join(sep)` in JavaScript: the empty list joins to the empty string. */
  function Join(xs: seq<string>, sep: string): string
  {
    if |xs| == 0 then ""
    else if |xs| == 1 then xs[0]
    else xs[0] + sep + Join(xs[1..], sep)
  }

  function JoinLines(lines: seq<string>): string
  {
    Join(lines, "\n")
  }

  predicate NoNewline(s: string) { '\n' !in s }

  lemma NoNewlineAppend(a: string, b: string)
    ensures NoNewline(a + b) <==> NoNewline(a) && NoNewline(b)
  {
  }

  /** Text made of digits and minus signs holds no newline. */
  lemma SignedDigitsNoNewline(s: string)
    requires forall k :: 0 <= k < |s| ==> IsDigit(s[k]) || s[k] == '-'
    ensures NoNewline(s)
  {
    forall k | 0 <= k < |s| ensures s[k] != '\n' {
    }
  }

  /** Position of the first occurrence of `c` in `s`. */
  function IndexOf(s: string, c: char): (i: nat)
    requires c in s
    ensures i < |s| && s[i] == c && c !in s[..i]
  {
    if s[0] == c then 0
    else
      var j := IndexOf(s[1..], c);
      assert s[..j + 1] == [s[0]] + s[1..][..j];
      j + 1
  }

  /** Position of the last occurrence of `c` in `s`. */
  function LastIndexOf(s: string, c: char): (i: nat)
    requires c in s
    ensures i < |s| && s[i] == c && c !in s[i + 1..]
  {
    if s[|s| - 1] == c then |s| - 1
    else
      var t := s[..|s| - 1];
      assert s == t + [s[|s| - 1]];
      var j := LastIndexOf(t, c);
      assert s[j + 1..] == t[j + 1..] + [s[|s| - 1]];
      j
  }

  /** The last occurrence is the one with no occurrence after it. */
  lemma LastIndexOfUnique(s: string, c: char, i: nat)
    requires i < |s| && s[i] == c && c !in s[i + 1..]
    ensures LastIndexOf(s, c) == i
  {
    var j := LastIndexOf(s, c);
    forall t | j < t < |s| ensures s[t] != c {
      assert s[t] == s[j + 1..][t - j - 1];
    }
    forall t | i < t < |s| ensures s[t] != c {
      assert s[t] == s[i + 1..][t - i - 1];
    }
  }

  /** Integer text holds nothing but digits and a minus sign. */
  lemma IntTextChars(i: int)
    ensures forall k :: 0 <= k < |IntText(i)| ==> IsDigit(IntText(i)[k]) || IntText(i)[k] == '-'
  {
  }

  /** `s.split('\n')`: the pieces between newlines, always at least one. */
  function SplitLines(s: string): (lines: seq<string>)
    ensures |lines| >= 1
    decreases |s|
  {
    if '\n' !in s then [s]
    else
      var i := IndexOf(s, '\n');
      [s[..i]] + SplitLines(s[i + 1..])
  }

  /** Splitting joined lines gives the lines back, provided none holds a newline itself. */
  lemma {:induction false} SplitJoinLines(lines: seq<string>)
    requires |lines| >= 1
    requires forall i :: 0 <= i < |lines| ==> NoNewline(lines[i])
    ensures SplitLines(JoinLines(lines)) == lines
  {
    if |lines| > 1 {
      var head := lines[0];
      var rest := JoinLines(lines[1..]);
      var s := head + "\n" + rest;
      assert s == JoinLines(lines);
      assert s[|head|] == '\n' && s[..|head|] == head;
      assert IndexOf(s, '\n') == |head|;
      assert s[|head| + 1..] == rest;
      SplitJoinLines(lines[1..]);
    }
  }

  /** Joining lines and then more lines is the same as joining all of them once. */
  lemma {:induction false} JoinLinesAppend(a: seq<string>, b: seq<string>)
    requires |a| >= 1 && |b| >= 1
    ensures JoinLines(a + b) == JoinLines(a) + "\n" + JoinLines(b)
  {
    if |a| == 1 {
      assert (a + b)[1..] == b;
    } else {
      assert (a + b)[1..] == a[1..] + b;
      JoinLinesAppend(a[1..], b);
    }
  }

  lemma JoinLinesPair(a: string, b: string)
    ensures JoinLines([a, b]) == a + "\n" + b
  {
    assert [a, b][1..] == [b];
    assert JoinLines([b]) == b;
  }

  /** Joining a block of lines first and then the whole gives the same text as joining all lines at once. */
  lemma JoinLinesNested(head: seq<string>, body: seq<string>, tail: seq<string>)
    requires |head| >= 1 && |body| >= 1 && |tail| >= 1
    ensures JoinLines(head + [JoinLines(body)] + tail) == JoinLines(head + body + tail)
  {
    JoinLinesAppend(head, [JoinLines(body)]);
    JoinLinesAppend(head + [JoinLines(body)], tail);
    JoinLinesAppend(head, body);
    JoinLinesAppend(head + body, tail);
  }
}
