/** Python's splitlines, strip and int, on ASCII text. */
module PythonText {
  import opened Bytes
  import opened Numbers
  import opened Text

  type Line = seq<byte>

  const NEWLINE: byte := 10

  /** Where splitlines breaks a text: the line feeds and separators among the ASCII characters. */
  predicate Breaks(c: byte) { 10 <= c <= 13 || 28 <= c <= 30 }

  predicate Unbroken(line: Line) {
    forall i | 0 <= i < |line| :: !Breaks(line[i])
  }

  function LineEnd(text: seq<byte>, k: nat): (n: nat)
    requires k <= |text|
    ensures k <= n <= |text| && (n < |text| ==> Breaks(text[n]))
    ensures forall i | k <= i < n :: !Breaks(text[i])
    decreases |text| - k
  {
    if k == |text| || Breaks(text[k]) then k else LineEnd(text, k + 1)
  }

  lemma {:induction false} LineEndIs(text: seq<byte>, k: nat, n: nat)
    requires k <= n <= |text| && (n < |text| ==> Breaks(text[n]))
    requires forall i | k <= i < n :: !Breaks(text[i])
    ensures LineEnd(text, k) == n
  {
  }

  /** splitlines of what is left from k on; a carriage return and a line feed break once. */
  function LinesFrom(text: seq<byte>, k: nat): seq<Line>
    requires k <= |text|
    decreases |text| - k
  {
    if k == |text| then []
    else
      var n := LineEnd(text, k);
      if n == |text| then [text[k..n]]
      else if text[n] == 13 && n + 1 < |text| && text[n + 1] == 10 then [text[k..n]] + LinesFrom(text, n + 2)
      else [text[k..n]] + LinesFrom(text, n + 1)
  }

  function SplitLines(text: seq<byte>): seq<Line> { LinesFrom(text, 0) }

  /** Each line with a line feed after it. */
  function Terminated(lines: seq<Line>): seq<byte> {
    if lines == [] then [] else Terminated(lines[..|lines| - 1]) + lines[|lines| - 1] + [NEWLINE]
  }

  lemma {:induction false} TerminatedFront(lines: seq<Line>)
    requires |lines| > 0
    ensures Terminated(lines) == lines[0] + [NEWLINE] + Terminated(lines[1..])
  {
    var n := |lines| - 1;
    if n > 0 {
      TerminatedFront(lines[..n]);
      assert lines[..n][1..] == lines[1..][..n - 1];
      assert lines[1..][n - 1] == lines[n];
    } else {
      assert Terminated(lines[..0]) == [] && lines[1..] == [];
    }
  }

  predicate Remains(text: seq<byte>, k: nat, tail: seq<byte>) {
    k <= |text| && text[k..] == tail
  }

  lemma Cut(text: seq<byte>, k: nat, line: Line, rest: seq<byte>)
    requires Remains(text, k, line + [NEWLINE] + rest) && Unbroken(line)
    ensures var n := k + |line|;
            && n < |text| && text[n] == NEWLINE && text[k..n] == line && Remains(text, n + 1, rest)
            && forall i | k <= i < n :: !Breaks(text[i])
  {
    var tail, n := text[k..], |line|;
    assert tail[..n] == line && tail[n] == NEWLINE && tail[n + 1..] == rest;
    assert text[k..k + n] == tail[..n] && text[k + n] == tail[n] && text[k + n + 1..] == tail[n + 1..];
    assert forall i | k <= i < k + n :: text[i] == line[i - k];
  }

  lemma BreakAt(text: seq<byte>, k: nat, n: nat)
    requires k <= n < |text| && text[n] == NEWLINE && forall i | k <= i < n :: !Breaks(text[i])
    ensures LinesFrom(text, k) == [text[k..n]] + LinesFrom(text, n + 1)
  {
    LineEndIs(text, k, n);
    hide LineEnd;
  }

  lemma LinesStep(text: seq<byte>, k: nat, line: Line, rest: seq<byte>)
    requires Remains(text, k, line + [NEWLINE] + rest) && Unbroken(line)
    ensures var n := k + |line|;
            && n + 1 <= |text| && Remains(text, n + 1, rest)
            && LinesFrom(text, k) == [line] + LinesFrom(text, n + 1)
  {
    hide Remains;
    hide LinesFrom;
    Cut(text, k, line, rest);
    BreakAt(text, k, k + |line|);
  }

  lemma {:induction false} LinesAt(text: seq<byte>, k: nat, lines: seq<Line>)
    requires forall i | 0 <= i < |lines| :: Unbroken(lines[i])
    requires Remains(text, k, Terminated(lines))
    ensures k <= |text| && LinesFrom(text, k) == lines
    decreases |lines|
  {
    if lines != [] {
      var first, rest := lines[0], lines[1..];
      TerminatedFront(lines);
      assert lines == [first] + rest;
      hide Terminated;
      hide LinesFrom;
      hide Remains;
      LinesStep(text, k, first, Terminated(rest));
      LinesAt(text, k + |first| + 1, rest);
    }
  }

  /** Lines that break nowhere are what splitlines gives back. */
  lemma {:induction false} SplitTerminated(lines: seq<Line>)
    requires forall i | 0 <= i < |lines| :: Unbroken(lines[i])
    ensures SplitLines(Terminated(lines)) == lines
  {
    LinesAt(Terminated(lines), 0, lines);
  }

  /** Lines joined by line feeds, with one more behind them, are the lines with a line feed each. */
  lemma {:induction false} JoinedIsTerminated(lines: seq<Line>)
    requires |lines| > 0
    ensures Join(lines, NEWLINE) + [NEWLINE] == Terminated(lines)
  {
    if |lines| == 1 {
      assert Terminated(lines[..0]) == [];
    } else {
      JoinedIsTerminated(lines[1..]);
      TerminatedFront(lines);
    }
  }

  // ---- strip and int ----

  predicate IsBlank(c: byte) { 9 <= c <= 13 || 28 <= c <= 32 }

  function Strip(text: seq<byte>): seq<byte> { Text.Strip(text, IsBlank) }

  lemma StripNothing(text: seq<byte>)
    requires text != [] ==> !IsBlank(text[0]) && !IsBlank(text[|text| - 1])
    ensures Strip(text) == text
  {
  }

  /** Digits with single underscores between them. */
  function Grouped(text: seq<byte>): Option<seq<byte>> {
    if text == [] || !IsDigit(text[0]) then None
    else if |text| == 1 then Some(text)
    else
      var rest := if text[1] == 95 then text[2..] else text[1..];
      match Grouped(rest)
      case None => None
      case Some(digits) => Some([text[0]] + digits)
  }

  /** A number as Python reads it from a text: blanks around it, a sign, digits. */
  function ParseInt(text: seq<byte>): Option<int> {
    var stripped := Strip(text);
    var negative := stripped != [] && stripped[0] == 45;
    var digits := if stripped != [] && stripped[0] in {43, 45} then stripped[1..] else stripped;
    match Grouped(digits)
    case None => None
    case Some(plain) =>
      if !AllDigits(plain) then None
      else Some(if negative then 0 - DigitsValue(plain) else DigitsValue(plain) as int)
  }

  lemma {:induction false} GroupedDigits(text: seq<byte>)
    requires text != [] && AllDigits(text)
    ensures Grouped(text) == Some(text)
  {
    if |text| > 1 {
      assert IsDigit(text[1]);
      GroupedDigits(text[1..]);
      assert [text[0]] + text[1..] == text;
    }
  }

  /** The numbers that are printed are read back. */
  lemma {:induction false} ParseIntDecimal(n: nat)
    ensures ParseInt(Decimal(n)) == Some(n)
  {
    var text := Decimal(n);
    assert IsDigit(text[0]) && IsDigit(text[|text| - 1]);
    StripNothing(text);
    GroupedDigits(text);
    ValueOfDecimal(n);
  }
}
