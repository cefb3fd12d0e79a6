/** The string operations of the Java library that the core relies on:
    `String.trim`, `String.valueOf(int)`, `Integer.parseInt` (ASCII digits),
    and the `%-6s` / `%-6d` left-justified format used by `formatMatrix`. */
module Text {
  import opened Matrices

  datatype Option<T> = None | Some(value: T)

  /** The rendering of the sentinel, U+221E. */
  const INFINITY_SIGN: string := "\U{221E}"

  predicate IsSpace(c: char) {
    c <= ' '
  }

  /** `trim` from the left: drop leading characters up to U+0020. */
  function TrimStart(s: string): (r: string)
    ensures |r| <= |s| && r == s[|s| - |r|..]
    ensures forall t :: 0 <= t < |s| - |r| ==> IsSpace(s[t])
    ensures |r| > 0 ==> !IsSpace(r[0])
    decreases |s|
  {
    if |s| > 0 && IsSpace(s[0]) then TrimStart(s[1..]) else s
  }

  /** `trim` from the right: drop trailing characters up to U+0020. */
  function TrimEnd(s: string): (r: string)
    ensures |r| <= |s| && r == s[..|r|]
    ensures forall t :: |r| <= t < |s| ==> IsSpace(s[t])
    ensures |r| > 0 ==> !IsSpace(r[|r| - 1])
    decreases |s|
  {
    if |s| > 0 && IsSpace(s[|s| - 1]) then TrimEnd(s[..|s| - 1]) else s
  }

  /** Java's `String.trim`. */
  function Trim(s: string): string {
    TrimEnd(TrimStart(s))
  }

  function Spaces(n: nat): (r: string)
    ensures |r| == n && forall t :: 0 <= t < n ==> r[t] == ' '
  {
    seq(n, _ => ' ')
  }

  /** Trimming text that has no space at either end, followed by spaces, gives
      the text back. */
  lemma TrimPadded(s: string, n: nat)
    requires |s| > 0 && !IsSpace(s[0]) && !IsSpace(s[|s| - 1])
    ensures Trim(s + Spaces(n)) == s
  {
    var padded := s + Spaces(n);
    assert TrimStart(padded) == padded;
    var r := TrimEnd(padded);
    assert !IsSpace(padded[|s| - 1]);
    assert |r| >= |s|;
    assert !IsSpace(padded[|r| - 1]);
    assert |r| <= |s|;
    assert r == padded[..|s|] == s;
  }

  // ---------------------------------------------------------------------------
  // Decimal text

  predicate IsDigit(c: char) {
    '0' <= c <= '9'
  }

  predicate AllDigits(s: string) {
    forall t :: 0 <= t < |s| ==> IsDigit(s[t])
  }

  function DigitChar(d: nat): (c: char)
    requires d < 10
    ensures IsDigit(c) && c as int - '0' as int == d
  {
    ('0' as int + d) as char
  }

  /** The decimal digits of n, most significant first, without leading zeros. */
  function DecimalDigits(n: nat): (s: string)
    ensures |s| >= 1 && AllDigits(s)
    ensures |s| > 1 ==> s[0] != '0'
    decreases n
  {
    if n < 10 then [DigitChar(n)] else DecimalDigits(n / 10) + [DigitChar(n % 10)]
  }

  /** The number a string of ASCII digits denotes. */
  function DigitsValue(s: string): nat
    requires AllDigits(s)
    decreases |s|
  {
    if s == [] then 0 else 10 * DigitsValue(s[..|s| - 1]) + (s[|s| - 1] as int - '0' as int)
  }

  lemma {:induction false} DigitsRoundTrip(n: nat)
    ensures DigitsValue(DecimalDigits(n)) == n
    decreases n
  {
    if n >= 10 {
      DigitsRoundTrip(n / 10);
      var s := DecimalDigits(n);
      assert s[..|s| - 1] == DecimalDigits(n / 10);
    }
  }

  /** Java's `String.valueOf(int)` (and the digits of `%d`). */
  function DecimalText(v: int): (s: string)
    ensures |s| >= 1 && forall t :: 0 <= t < |s| ==> !IsSpace(s[t])
    ensures (s[0] == '-') == (v < 0)
  {
    if v < 0 then "-" + DecimalDigits(-v) else DecimalDigits(v)
  }

  /** Java's `Integer.parseInt` on ASCII text: an optional sign, at least one
      digit, and a value that fits in an `int`; None stands for
      `NumberFormatException`. */
  function ParseInt(s: string): Option<int> {
    if |s| == 0 then None
    else if s[0] == '-' || s[0] == '+' then
      if |s| == 1 || !AllDigits(s[1..]) then None
      else
        var magnitude: int := DigitsValue(s[1..]);
        InIntRange(if s[0] == '-' then -magnitude else magnitude)
    else if AllDigits(s) then InIntRange(DigitsValue(s))
    else None
  }

  function InIntRange(v: int): (r: Option<int>)
    ensures r == Some(v) || (r == None && !IsInt32(v))
  {
    if IsInt32(v) then Some(v) else None
  }

  /** Every `int` rendered as decimal text parses back to itself. */
  lemma ParseDecimal(v: int)
    requires IsInt32(v)
    ensures ParseInt(DecimalText(v)) == Some(v)
  {
    var digits := DecimalDigits(if v < 0 then -v else v);
    DigitsRoundTrip(if v < 0 then -v else v);
    if v < 0 {
      assert DecimalText(v)[1..] == digits;
    } else {
      assert DecimalText(v)[0] != '-' && DecimalText(v)[0] != '+';
    }
  }

  /** Text that is empty or holds a non-digit, non-sign character is rejected. */
  lemma ParseRejectsNonNumeric(s: string)
    requires |s| == 0 || exists t :: 1 <= t < |s| && !IsDigit(s[t])
    ensures ParseInt(s) == None
  {
  }

  // ---------------------------------------------------------------------------
  // formatMatrix's text

  /** `String.format("%-<width>s", s)`: s, then spaces up to the width. */
  function LeftJustify(s: string, width: nat): string {
    if |s| >= width then s else s + seq(width - |s|, _ => ' ')
  }

  /** The justified text is exactly the width, or s itself when s is wider;
      it starts with s and continues with spaces only. */
  lemma LeftJustifyShape(s: string, width: nat)
    ensures var r := LeftJustify(s, width);
      && |r| == Max(|s|, width)
      && r[..|s|] == s
      && forall t :: |s| <= t < |r| ==> r[t] == ' '
  {
  }

  /** What a cell shows: the infinity sign for INF, decimal text otherwise. */
  function CellText(v: int): (s: string)
    ensures |s| >= 1 && forall t :: 0 <= t < |s| ==> !IsSpace(s[t])
  {
    if v == INF then INFINITY_SIGN else DecimalText(v)
  }

  /** How many line terminators s holds. */
  function NewlineCount(s: string): nat {
    multiset(s)['\n']
  }

  /** One cell of `formatMatrix`: the cell text left-justified to width 6. */
  function Cell(v: int): string {
    LeftJustify(CellText(v), 6)
  }

  /** A cell never holds a line terminator. */
  lemma CellHasNoNewline(v: int)
    ensures '\n' !in Cell(v)
  {
    var text, r := CellText(v), Cell(v);
    LeftJustifyShape(text, 6);
    forall t | 0 <= t < |r|
      ensures r[t] != '\n'
    {
      if t < |text| {
        assert r[t] == r[..|text|][t] == text[t];
      }
    }
    assert '\n' !in r;
  }

  /** The first j cells of a row. */
  function RowText(row: seq<int>, j: nat): string
    requires j <= |row|
  {
    Joined(Cell, row, j)
  }

  /** The renderings of the first j values, one after another. */
  function Joined(render: int -> string, row: seq<int>, j: nat): string
    requires j <= |row|
  {
    if j == 0 then "" else Joined(render, row, j - 1) + render(row[j - 1])
  }

  /** Renderings without terminators join into text without terminators. */
  lemma {:induction false} JoinedNoNewline(render: int -> string, row: seq<int>, j: nat)
    requires j <= |row|
    requires forall v :: '\n' !in render(v)
    ensures '\n' !in Joined(render, row, j)
  {
    if j > 0 {
      JoinedNoNewline(render, row, j - 1);
    }
  }

  /** A row holds no line terminator. */
  lemma RowTextNoNewline(row: seq<int>, j: nat)
    requires j <= |row|
    ensures '\n' !in RowText(row, j)
  {
    forall v {
      CellHasNoNewline(v);
    }
    JoinedNoNewline(Cell, row, j);
  }

  /** The first i lines of the formatted matrix: each line is the row's |m|
      cells and a terminator. */
  function Lines(m: Matrix, i: nat): string
    requires IsSquare(m) && i <= |m|
  {
    if i == 0 then "" else Lines(m, i - 1) + (RowText(m[i - 1], |m|) + "\n")
  }

  /** One more line: the next row's cells and a terminator. */
  lemma LinesStep(m: Matrix, i: nat)
    requires IsSquare(m) && i < |m|
    ensures Lines(m, i + 1) == Lines(m, i) + (RowText(m[i], |m|) + "\n")
  {
  }

  /** The first i lines hold exactly i terminators, the last one at the end. */
  lemma {:induction false} LinesShape(m: Matrix, i: nat)
    requires IsSquare(m) && i <= |m|
    ensures NewlineCount(Lines(m, i)) == i
    ensures i > 0 ==> |Lines(m, i)| > 0 && Lines(m, i)[|Lines(m, i)| - 1] == '\n'
  {
    if i > 0 {
      LinesShape(m, i - 1);
      RowTextNoNewline(m[i - 1], |m|);
      TerminatedLine(Lines(m, i - 1), RowText(m[i - 1], |m|));
    }
  }

  /** Appending a line without terminators, and then a terminator, adds one
      terminator and ends the text with it. */
  lemma TerminatedLine(before: string, line: string)
    requires '\n' !in line
    ensures NewlineCount(before + (line + "\n")) == NewlineCount(before) + 1
    ensures (before + (line + "\n"))[|before + (line + "\n")| - 1] == '\n'
  {
    assert multiset(line)['\n'] == 0;
    assert multiset(line + "\n") == multiset(line) + multiset{'\n'};
    assert multiset(before + (line + "\n")) == multiset(before) + multiset(line + "\n");
  }

  /** The whole text `formatMatrix` returns for a non-null matrix: one
      terminated line per row, and nothing at all for no rows. */
  function MatrixText(m: Matrix): (r: string)
    requires IsSquare(m)
    ensures NewlineCount(r) == |m|
    ensures r == "" <==> |m| == 0
    ensures |m| > 0 ==> r[|r| - 1] == '\n'
  {
    LinesShape(m, |m|);
    Lines(m, |m|)
  }

  /** A formatted cell, trimmed, is the cell text again. */
  lemma CellTrims(v: int)
    ensures Trim(Cell(v)) == CellText(v)
  {
    var text := CellText(v);
    var pad := if |text| >= 6 then 0 else 6 - |text|;
    TrimPadded(text, pad);
    assert Cell(v) == text + Spaces(pad);
  }
}
