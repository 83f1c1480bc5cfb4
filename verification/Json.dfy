/** JSON as Python's json module writes and reads it, with the pairs of an object kept in order. */
module Json {
  import opened Bytes
  import opened Numbers

  /** A Python string: code points, lone surrogates included. */
  type Text = seq<int>

  const QUOTE := 34
  const BACKSLASH := 92
  const OPEN := 123
  const CLOSE := 125
  const COLON := 58
  const COMMA := 44

  datatype Value =
    | Str(text: Text)
    | Num(number: int)
    | Real(token: Text)
    | Bool(truth: bool)
    | Null
    | Obj(pairs: seq<(Text, Value)>)
    | Arr(items: seq<Value>)

  ghost predicate IsText(text: Text) {
    forall i | 0 <= i < |text| :: 0 <= text[i] < 0x11_0000
  }

  predicate High(c: int) { 0xD800 <= c < 0xDC00 }

  predicate Low(c: int) { 0xDC00 <= c < 0xE000 }

  // ---- Strings ----

  function HexDigit(n: int): int
    requires 0 <= n < 16
  {
    if n < 10 then 48 + n else 87 + n
  }

  /** backslash, u and four digits */
  function Unicode(c: int): (text: Text)
    requires 0 <= c < 0x1_0000
    ensures |text| == 6
  {
    [BACKSLASH, 117, HexDigit(c / 0x1000), HexDigit(c / 0x100 % 0x10), HexDigit(c / 0x10 % 0x10), HexDigit(c % 0x10)]
  }

  /** One character as json.dumps writes it with ensure_ascii. */
  function EscapedChar(c: int): (text: Text)
    requires 0 <= c < 0x11_0000
    ensures text != []
  {
    if c == QUOTE || c == BACKSLASH then [BACKSLASH, c]
    else if c == 8 then [BACKSLASH, 98]
    else if c == 9 then [BACKSLASH, 116]
    else if c == 10 then [BACKSLASH, 110]
    else if c == 12 then [BACKSLASH, 102]
    else if c == 13 then [BACKSLASH, 114]
    else if 32 <= c < 127 then [c]
    else if c < 0x1_0000 then Unicode(c)
    else Unicode(0xD800 + (c - 0x1_0000) / 0x400) + Unicode(0xDC00 + (c - 0x1_0000) % 0x400)
  }

  function Escaped(text: Text): Text
    requires IsText(text)
  {
    if text == [] then [] else EscapedChar(text[0]) + Escaped(text[1..])
  }

  function Quoted(text: Text): Text
    requires IsText(text)
  {
    [QUOTE] + Escaped(text) + [QUOTE]
  }

  function HexValue(c: int): (v: Option<int>)
    ensures v.Some? ==> 0 <= v.value < 16
  {
    if 48 <= c <= 57 then Some(c - 48)
    else if 97 <= c <= 102 then Some(c - 87)
    else if 65 <= c <= 70 then Some(c - 55)
    else None
  }

  /** The four digits at k. */
  function HexAt(text: Text, k: nat): (n: Option<int>)
    ensures n.Some? ==> k + 4 <= |text| && 0 <= n.value < 0x1_0000
  {
    if k + 4 > |text| then None
    else
      match (HexValue(text[k]), HexValue(text[k + 1]), HexValue(text[k + 2]), HexValue(text[k + 3]))
      case (Some(a), Some(b), Some(c), Some(d)) => Some(((a * 0x10 + b) * 0x10 + c) * 0x10 + d)
      case _ => None
  }

  function Combined(high: int, low: int): int { 0x1_0000 + (high - 0xD800) * 0x400 + (low - 0xDC00) }

  /** The character at k of a string body, and where the next one starts. */
  function ScanChar(text: Text, k: nat): (r: Option<(int, nat)>)
    ensures r.Some? ==> k < r.value.1 <= |text|
  {
    if k >= |text| || text[k] < 32 || text[k] == QUOTE then None
    else if text[k] != BACKSLASH then Some((text[k], k + 1))
    else if k + 1 >= |text| then None
    else
      var c := text[k + 1];
      if c == QUOTE || c == BACKSLASH || c == 47 then Some((c, k + 2))
      else if c == 98 then Some((8, k + 2))
      else if c == 102 then Some((12, k + 2))
      else if c == 110 then Some((10, k + 2))
      else if c == 114 then Some((13, k + 2))
      else if c == 116 then Some((9, k + 2))
      else if c != 117 then None
      else
        match HexAt(text, k + 2)
        case None => None
        case Some(high) =>
          if High(high) && k + 7 < |text| && text[k + 6] == BACKSLASH && text[k + 7] == 117 then
            match HexAt(text, k + 8)
            case None => None
            case Some(low) => if Low(low) then Some((Combined(high, low), k + 12)) else Some((high, k + 6))
          else Some((high, k + 6))
  }

  /** The string whose body starts at k, up to its closing quote. */
  function ScanString(text: Text, k: nat): (r: Option<(Text, nat)>)
    ensures r.Some? ==> k < r.value.1 <= |text|
    decreases |text| - k
  {
    if k < |text| && text[k] == QUOTE then Some(([], k + 1))
    else
      match ScanChar(text, k)
      case None => None
      case Some((c, next)) =>
        match ScanString(text, next)
        case None => None
        case Some((rest, end)) => Some(([c] + rest, end))
  }

  // ---- Values ----

  predicate Blank(c: int) { c == 32 || c == 9 || c == 10 || c == 13 }

  function Skip(text: Text, k: nat): (n: nat)
    ensures n >= k && (k <= |text| ==> n <= |text|)
    decreases |text| - k
  {
    if k < |text| && Blank(text[k]) then Skip(text, k + 1) else k
  }

  function Digits(text: Text, k: nat): (n: nat)
    ensures n >= k && (k <= |text| ==> n <= |text|)
    ensures forall i | k <= i < n :: i < |text| && IsDigit(text[i])
    decreases |text| - k
  {
    if k < |text| && IsDigit(text[k]) then Digits(text, k + 1) else k
  }

  function AfterPoint(text: Text, k: nat): (n: nat)
    requires k <= |text|
    ensures k <= n <= |text|
  {
    if k + 1 < |text| && text[k] == 46 && IsDigit(text[k + 1]) then Digits(text, k + 1) else k
  }

  function AfterExponent(text: Text, k: nat): (n: nat)
    requires k <= |text|
    ensures k <= n <= |text|
  {
    var signed := if k + 1 < |text| && text[k + 1] in {43, 45} then k + 2 else k + 1;
    if k < |text| && text[k] in {69, 101} && signed < |text| && IsDigit(text[signed]) then Digits(text, signed)
    else k
  }

  /** A fraction and an exponent, as far as there are any. */
  function Fraction(text: Text, k: nat): (n: nat)
    requires k <= |text|
    ensures k <= n <= |text|
  {
    AfterExponent(text, AfterPoint(text, k))
  }

  predicate Starts(text: Text, k: nat, word: Text) {
    k + |word| <= |text| && text[k..k + |word|] == word
  }

  function ScanNumber(text: Text, k: nat): (r: Option<(Value, nat)>)
    requires k <= |text|
    ensures r.Some? ==> k < r.value.1 <= |text|
  {
    var first := if k < |text| && text[k] == 45 then k + 1 else k;
    if first >= |text| || !IsDigit(text[first]) then None
    else
      var end := if text[first] == 48 then first + 1 else Digits(text, first);
      var after := Fraction(text, end);
      if after > end then Some((Real(text[k..after]), after))
      else
        assert forall i | 0 <= i < end - first :: text[first..end][i] == text[first + i];
        Some((Num(if first > k then 0 - DigitsValue(text[first..end]) else DigitsValue(text[first..end])), end))
  }

  // "null", "true", "false", "NaN", "Infinity", "-Infinity"
  const NULL: Text := [110, 117, 108, 108]
  const TRUE: Text := [116, 114, 117, 101]
  const FALSE: Text := [102, 97, 108, 115, 101]
  const NAN: Text := [78, 97, 78]
  const INFINITY: Text := [73, 110, 102, 105, 110, 105, 116, 121]

  /** The scanner of json.JSONDecoder. */
  function ScanValue(text: Text, k: nat): (r: Option<(Value, nat)>)
    requires k <= |text|
    ensures r.Some? ==> k < r.value.1 <= |text|
    decreases |text| - k, 1
  {
    if k == |text| then None
    else if text[k] == QUOTE then
      (match ScanString(text, k + 1) case None => None case Some((s, end)) => Some((Str(s), end)))
    else if text[k] == OPEN then
      var first := Skip(text, k + 1);
      if first < |text| && text[first] == CLOSE then Some((Obj([]), first + 1))
      else
        (match ScanPairs(text, first) case None => None case Some((pairs, end)) => Some((Obj(pairs), end)))
    else if text[k] == 91 then
      var first := Skip(text, k + 1);
      if first < |text| && text[first] == 93 then Some((Arr([]), first + 1))
      else
        (match ScanItems(text, first) case None => None case Some((items, end)) => Some((Arr(items), end)))
    else if Starts(text, k, NULL) then Some((Null, k + 4))
    else if Starts(text, k, TRUE) then Some((Bool(true), k + 4))
    else if Starts(text, k, FALSE) then Some((Bool(false), k + 5))
    else if Starts(text, k, NAN) then Some((Real(NAN), k + 3))
    else if Starts(text, k, INFINITY) then Some((Real(INFINITY), k + 8))
    else if Starts(text, k, [45] + INFINITY) then Some((Real([45] + INFINITY), k + 9))
    else ScanNumber(text, k)
  }

  /** The pairs of an object from the quote of the first key on, and its closing brace. */
  function ScanPairs(text: Text, k: nat): (r: Option<(seq<(Text, Value)>, nat)>)
    requires k <= |text|
    ensures r.Some? ==> k < r.value.1 <= |text|
    decreases |text| - k, 0
  {
    if k == |text| || text[k] != QUOTE then None
    else
      match ScanString(text, k + 1)
      case None => None
      case Some((key, afterKey)) =>
        var colon := Skip(text, afterKey);
        if colon == |text| || text[colon] != COLON then None
        else
          match ScanValue(text, Skip(text, colon + 1))
          case None => None
          case Some((value, afterValue)) =>
            var next := Skip(text, afterValue);
            if next == |text| then None
            else if text[next] == CLOSE then Some(([(key, value)], next + 1))
            else if text[next] != COMMA then None
            else
              match ScanPairs(text, Skip(text, next + 1))
              case None => None
              case Some((rest, end)) => Some(([(key, value)] + rest, end))
  }

  function ScanItems(text: Text, k: nat): (r: Option<(seq<Value>, nat)>)
    requires k <= |text|
    ensures r.Some? ==> k < r.value.1 <= |text|
    decreases |text| - k, 2
  {
    match ScanValue(text, k)
    case None => None
    case Some((value, afterValue)) =>
      var next := Skip(text, afterValue);
      if next == |text| then None
      else if text[next] == 93 then Some(([value], next + 1))
      else if text[next] != COMMA then None
      else
        match ScanItems(text, Skip(text, next + 1))
        case None => None
        case Some((rest, end)) => Some(([value] + rest, end))
  }

  // ---- What a scan finds at a place ----

  /** The piece stands at position k of the text. */
  predicate At(text: Text, k: nat, piece: Text) {
    k + |piece| <= |text| && text[k..k + |piece|] == piece
  }

  lemma AtSplit(text: Text, k: nat, a: Text, b: Text)
    requires At(text, k, a + b)
    ensures At(text, k, a) && At(text, k + |a|, b)
  {
    var whole := text[k..k + |a| + |b|];
    assert whole[..|a|] == a && whole[|a|..] == b;
    assert text[k..k + |a|] == whole[..|a|] && text[k + |a|..k + |a| + |b|] == whole[|a|..];
  }

  lemma AtChar(text: Text, k: nat, piece: Text, i: nat)
    requires At(text, k, piece) && i < |piece|
    ensures k + i < |text| && text[k + i] == piece[i]
  {
    assert text[k..k + |piece|][i] == text[k + i];
  }

  // ---- Strings are read back ----

  lemma HexDigitValue(n: int)
    requires 0 <= n < 16
    ensures HexValue(HexDigit(n)) == Some(n)
  {
  }

  lemma HexSum(c: int)
    requires 0 <= c < 0x1_0000
    ensures ((c / 0x1000 * 0x10 + c / 0x100 % 0x10) * 0x10 + c / 0x10 % 0x10) * 0x10 + c % 0x10 == c
    ensures c / 0x1000 < 16
  {
    var a, b := c / 0x10, c / 0x10 / 0x10;
    assert c == 0x10 * a + c % 0x10 && a == 0x10 * b + a % 0x10 && b == 0x10 * (b / 0x10) + b % 0x10;
  }

  lemma UnicodeReads(text: Text, k: nat, c: int)
    requires 0 <= c < 0x1_0000 && At(text, k, Unicode(c))
    ensures k + 6 <= |text| && text[k] == BACKSLASH && text[k + 1] == 117 && HexAt(text, k + 2) == Some(c)
  {
    var piece := Unicode(c);
    forall i | 0 <= i < 6
      ensures k + i < |text| && text[k + i] == piece[i]
    {
      AtChar(text, k, piece, i);
    }
    HexDigitValue(c / 0x1000);
    HexDigitValue(c / 0x100 % 0x10);
    HexDigitValue(c / 0x10 % 0x10);
    HexDigitValue(c % 0x10);
    HexSum(c);
    hide HexDigit;
    hide HexValue;
  }

  /** What a reader makes of a string: a high surrogate before a low one is one character. */
  function Paired(text: Text): Text {
    if text == [] then []
    else if |text| > 1 && High(text[0]) && Low(text[1]) then [Combined(text[0], text[1])] + Paired(text[2..])
    else [text[0]] + Paired(text[1..])
  }

  /** No character has been left in two halves. */
  ghost predicate Sound(text: Text) {
    forall i | 0 <= i < |text| - 1 :: !(High(text[i]) && Low(text[i + 1]))
  }

  lemma {:induction false} PairedLength(text: Text)
    ensures |Paired(text)| <= |text|
    ensures Sound(text) ==> Paired(text) == text
    ensures !Sound(text) ==> |Paired(text)| < |text|
    decreases |text|
  {
    if text != [] {
      var joined := |text| > 1 && High(text[0]) && Low(text[1]);
      PairedLength(text[if joined then 2 else 1..]);
      if !joined && !Sound(text) {
        var i :| 0 <= i < |text| - 1 && High(text[i]) && Low(text[i + 1]);
        assert text[1..][i - 1] == text[i] && text[1..][i] == text[i + 1];
      }
      if Sound(text) {
        assert forall i | 0 <= i < |text[1..]| :: text[1..][i] == text[i + 1];
      }
    }
  }

  /** A character beyond the first plane is written in two halves and read as one. */
  lemma PairScans(text: Text, k: nat, c: int)
    requires 0x1_0000 <= c < 0x11_0000 && At(text, k, EscapedChar(c))
    ensures ScanChar(text, k) == Some((c, k + |EscapedChar(c)|)) && k < |text| && text[k] != QUOTE
  {
    hide Unicode;
    hide HexAt;
    var high, low := 0xD800 + (c - 0x1_0000) / 0x400, 0xDC00 + (c - 0x1_0000) % 0x400;
    AtSplit(text, k, Unicode(high), Unicode(low));
    hide At;
    UnicodeReads(text, k, high);
    UnicodeReads(text, k + 6, low);
  }

  /** One escaped character that is not a high surrogate. */
  lemma PlainScans(text: Text, k: nat, c: int)
    requires 0 <= c < 0x11_0000 && !High(c) && At(text, k, EscapedChar(c))
    ensures ScanChar(text, k) == Some((c, k + |EscapedChar(c)|)) && k < |text| && text[k] != QUOTE
  {
    hide At;
    hide HexAt;
    hide Unicode;
    var piece := EscapedChar(c);
    AtChar(text, k, piece, 0);
    if c >= 0x1_0000 {
      PairScans(text, k, c);
    } else if piece == Unicode(c) {
      UnicodeReads(text, k, c);
    } else if |piece| == 2 {
      AtChar(text, k, piece, 1);
    }
  }

  lemma {:induction false} EscapedStep(s: Text)
    requires s != [] && IsText(s)
    ensures Escaped(s) + [QUOTE] == EscapedChar(s[0]) + (Escaped(s[1..]) + [QUOTE])
  {
    hide EscapedChar;
    assert Escaped(s) == EscapedChar(s[0]) + Escaped(s[1..]);
  }

  lemma HighIsEscaped(c: int)
    requires High(c) || Low(c)
    ensures EscapedChar(c) == Unicode(c)
  {
  }

  /** The low half of a character joins the high half before it. */
  lemma HighThenLow(text: Text, k: nat, c: int, d: int)
    requires High(c) && Low(d) && At(text, k, EscapedChar(c)) && At(text, k + 6, EscapedChar(d))
    ensures ScanChar(text, k) == Some((Combined(c, d), k + 12)) && text[k] != QUOTE
  {
    hide EscapedChar;
    hide HexAt;
    hide Unicode;
    HighIsEscaped(c);
    HighIsEscaped(d);
    UnicodeReads(text, k, c);
    UnicodeReads(text, k + 6, d);
  }

  /** A high half stays alone before any other character. */
  lemma HighThenOther(text: Text, k: nat, c: int, d: int)
    requires High(c) && 0 <= d < 0x11_0000 && !Low(d) && At(text, k, EscapedChar(c)) && At(text, k + 6, EscapedChar(d))
    ensures ScanChar(text, k) == Some((c, k + 6)) && text[k] != QUOTE
  {
    hide EscapedChar;
    hide HexAt;
    hide Unicode;
    HighIsEscaped(c);
    UnicodeReads(text, k, c);
    if k + 7 < |text| && text[k + 6] == BACKSLASH && text[k + 7] == 117 {
      SecondEscape(text, k + 6, d);
    }
  }

  /** A high half stays alone at the end of its string. */
  lemma HighThenQuote(text: Text, k: nat, c: int)
    requires High(c) && At(text, k, EscapedChar(c)) && At(text, k + 6, [QUOTE])
    ensures ScanChar(text, k) == Some((c, k + 6)) && text[k] != QUOTE
  {
    hide EscapedChar;
    hide HexAt;
    hide Unicode;
    HighIsEscaped(c);
    UnicodeReads(text, k, c);
    AtChar(text, k + 6, [QUOTE], 0);
  }

  /** An escape with four digits that follows is that of the next character, or of its first half. */
  lemma SecondEscape(text: Text, k: nat, d: int)
    requires 0 <= d < 0x11_0000 && At(text, k, EscapedChar(d))
    requires k + 1 < |text| && text[k] == BACKSLASH && text[k + 1] == 117
    ensures HexAt(text, k + 2) == Some(if d < 0x1_0000 then d else 0xD800 + (d - 0x1_0000) / 0x400)
  {
    hide HexAt;
    var piece := EscapedChar(d);
    AtChar(text, k, piece, 0);
    if d >= 0x1_0000 {
      var high, low := 0xD800 + (d - 0x1_0000) / 0x400, 0xDC00 + (d - 0x1_0000) % 0x400;
      AtSplit(text, k, Unicode(high), Unicode(low));
      UnicodeReads(text, k, high);
    } else if piece == Unicode(d) {
      UnicodeReads(text, k, d);
    } else if |piece| == 2 {
      AtChar(text, k, piece, 1);
    }
  }

  lemma {:induction false} StringStep(text: Text, k: nat, c: int, next: nat)
    requires k < |text| && text[k] != QUOTE && ScanChar(text, k) == Some((c, next))
    ensures ScanString(text, next).Some? ==>
      ScanString(text, k) == Some(([c] + ScanString(text, next).value.0, ScanString(text, next).value.1))
  {
    hide ScanChar;
  }

  lemma {:induction false} PairedStep(s: Text)
    requires s != []
    ensures |s| > 1 && High(s[0]) && Low(s[1]) ==> Paired(s) == [Combined(s[0], s[1])] + Paired(s[2..])
    ensures !(|s| > 1 && High(s[0]) && Low(s[1])) ==> Paired(s) == [s[0]] + Paired(s[1..])
  {
  }

  lemma {:induction false} EscapedLength(s: Text)
    requires s != [] && IsText(s)
    ensures |Escaped(s)| == |EscapedChar(s[0])| + |Escaped(s[1..])|
  {
    hide EscapedChar;
  }

  /** An escaped string is read back up to its halved characters. */
  lemma {:induction false} EscapedScans(text: Text, k: nat, s: Text)
    requires IsText(s) && At(text, k, Escaped(s) + [QUOTE])
    ensures ScanString(text, k) == Some((Paired(s), k + |Escaped(s)| + 1))
    decreases |s|
  {
    hide EscapedChar;
    hide ScanChar;
    hide At;
    hide Paired;
    if s == [] {
      assert Escaped(s) + [QUOTE] == [QUOTE];
      AtChar(text, k, [QUOTE], 0);
      PairedLength(s);
    } else {
      hide Escaped;
      hide ScanString;
      var c, rest := s[0], s[1..];
      EscapedStep(s);
      EscapedLength(s);
      AtSplit(text, k, EscapedChar(c), Escaped(rest) + [QUOTE]);
      PairedStep(s);
      if !High(c) {
        PlainScans(text, k, c);
        EscapedScans(text, k + |EscapedChar(c)|, rest);
        StringStep(text, k, c, k + |EscapedChar(c)|);
      } else {
        HighIsEscaped(c);
        HighEscapedScans(text, k, s);
      }
    }
  }

  lemma {:induction false} HighEscapedScans(text: Text, k: nat, s: Text)
    requires IsText(s) && s != [] && High(s[0])
    requires At(text, k, EscapedChar(s[0])) && At(text, k + 6, Escaped(s[1..]) + [QUOTE])
    ensures k < |text| && ScanString(text, k) == Some((Paired(s), k + |Escaped(s)| + 1))
    decreases |s|, 0
  {
    hide EscapedChar;
    hide ScanChar;
    hide At;
    hide Paired;
    hide Escaped;
    hide ScanString;
    hide Combined;
    var c, rest := s[0], s[1..];
    HighIsEscaped(c);
    EscapedLength(s);
    PairedStep(s);
    if rest == [] {
      assert Escaped(rest) + [QUOTE] == [QUOTE] by { EmptyEscapes(); }
      HighThenQuote(text, k, c);
      EscapedScans(text, k + 6, rest);
      StringStep(text, k, c, k + 6);
    } else {
      EscapedStep(rest);
      EscapedLength(rest);
      AtSplit(text, k + 6, EscapedChar(rest[0]), Escaped(rest[1..]) + [QUOTE]);
      if Low(rest[0]) {
        HighIsEscaped(rest[0]);
        HighThenLow(text, k, c, rest[0]);
        assert s[2..] == rest[1..];
        EscapedScans(text, k + 12, rest[1..]);
        StringStep(text, k, Combined(c, rest[0]), k + 12);
      } else {
        HighThenOther(text, k, c, rest[0]);
        EscapedScans(text, k + 6, rest);
        StringStep(text, k, c, k + 6);
      }
    }
  }

  lemma EmptyEscapes()
    ensures Escaped([]) + [QUOTE] == [QUOTE]
  {
  }

  /** A string survives exactly if no character in it has been left in two halves. */
  lemma {:induction false} StringSurvives(text: Text, k: nat, s: Text)
    requires IsText(s) && At(text, k, Quoted(s))
    ensures ScanString(text, k + 1) == Some((Paired(s), k + |Quoted(s)|))
    ensures Paired(s) == s <==> Sound(s)
  {
    assert Quoted(s) == [QUOTE] + (Escaped(s) + [QUOTE]);
    AtSplit(text, k, [QUOTE], Escaped(s) + [QUOTE]);
    EscapedScans(text, k + 1, s);
    PairedLength(s);
  }
}
