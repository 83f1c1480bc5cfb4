/**
 The text that the launcher patch prints for a layout, and that it is read back as the same JSON pairs,
 but for characters in two halves, which are joined.
 */
module LayoutText {
  import opened Bytes
  import opened Numbers
  import opened Json

  const TAB := 9

  predicate IsNewline(text: Text) { text == [10] || text == [13, 10] }

  /** Printable ASCII and tabs. */
  predicate Clean(text: Text) {
    forall i | 0 <= i < |text| :: text[i] == TAB || 32 <= text[i] < 127
  }

  /** The text of a float is a single JSON number with a fraction or an exponent, or one of json's three words. */
  ghost predicate IsRealToken(token: Text) {
    token == NAN || token == INFINITY || token == [45] + INFINITY
    || (ScanNumber(token, 0) == Some((Real(token), |token|)) && Clean(token))
  }

  ghost predicate IsScalar(value: Value) {
    match value
    case Str(text) => IsText(text)
    case Num(_) => true
    case Real(token) => IsRealToken(token)
    case Bool(_) => true
    case Null => true
    case Obj(_) => false
    case Arr(_) => false
  }

  /** Objects of objects and scalars. */
  ghost predicate IsPrintable(value: Value) {
    if value.Obj? then
      forall i | 0 <= i < |value.pairs| ::
        IsText(value.pairs[i].0) && IsPrintable(value.pairs[i].1)
    else IsScalar(value)
  }

  ghost predicate PrintablePairs(pairs: seq<(Text, Value)>) { IsPrintable(Obj(pairs)) }

  function Tabs(n: nat): (text: Text)
    ensures |text| == n
  {
    if n == 0 then [] else [TAB] + Tabs(n - 1)
  }

  function IntegerText(n: int): Text { if n < 0 then [45] + Decimal(0 - n) else Decimal(n) }

  /** json.dumps of a scalar. */
  function ScalarText(value: Value): Text
    requires IsScalar(value)
  {
    match value
    case Str(text) => Quoted(text)
    case Num(n) => IntegerText(n)
    case Real(token) => token
    case Bool(truth) => if truth then TRUE else FALSE
    case Null => NULL
  }

  function ValueText(value: Value, level: nat, newline: Text): Text
    requires IsPrintable(value)
    decreases value, 0
  {
    if value.Obj? then [OPEN] + newline + PairsText(value.pairs, level + 1, newline) + Tabs(level) + [CLOSE]
    else ScalarText(value)
  }

  function PairText(key: Text, value: Value, level: nat, newline: Text): Text
    requires IsText(key) && IsPrintable(value)
    decreases value, 1
  {
    Tabs(level) + (Quoted(key) + ([COLON] + ValueText(value, level, newline)))
  }

  /** A line or a block of lines for each pair, with a comma after all but the last. */
  function PairsText(pairs: seq<(Text, Value)>, level: nat, newline: Text): Text
    requires PrintablePairs(pairs)
    decreases pairs
  {
    if pairs == [] then []
    else
      RestIsPrintable(pairs);
      PairText(pairs[0].0, pairs[0].1, level, newline) +
        ((if |pairs| > 1 then [COMMA] else []) + (newline + PairsText(pairs[1..], level, newline)))
  }

  lemma RestIsPrintable(pairs: seq<(Text, Value)>)
    requires PrintablePairs(pairs) && pairs != []
    ensures PrintablePairs(pairs[1..]) && IsText(pairs[0].0) && IsPrintable(pairs[0].1)
  {
    var value := Obj(pairs);
    assert IsText(value.pairs[0].0) && IsPrintable(value.pairs[0].1);
    forall i | 0 <= i < |pairs[1..]|
      ensures IsText(pairs[1..][i].0) && IsPrintable(pairs[1..][i].1)
    {
      assert pairs[1..][i] == value.pairs[i + 1];
    }
  }

  /** The value with the halves of every character in it joined. */
  function JoinedValue(value: Value): Value
    decreases value, 0
  {
    match value
    case Str(text) => Str(Paired(text))
    case Obj(pairs) => Obj(JoinedPairs(pairs))
    case _ => value
  }

  function JoinedPairs(pairs: seq<(Text, Value)>): (joined: seq<(Text, Value)>)
    ensures |joined| == |pairs|
    decreases pairs
  {
    if pairs == [] then []
    else
      assert Obj(pairs) decreases to pairs[0].1;
      assert pairs decreases to pairs[0].1;
      [(Paired(pairs[0].0), JoinedValue(pairs[0].1))] + JoinedPairs(pairs[1..])
  }

  // ---- Blanks ----

  lemma {:induction false} SkipNothing(text: Text, k: nat)
    requires k < |text| && !Blank(text[k])
    ensures Skip(text, k) == k
  {
  }

  lemma {:induction false} SkipTabs(text: Text, k: nat, n: nat)
    requires At(text, k, Tabs(n))
    ensures Skip(text, k) == Skip(text, k + n)
    decreases n
  {
    if n > 0 {
      assert Tabs(n) == [TAB] + Tabs(n - 1);
      AtSplit(text, k, [TAB], Tabs(n - 1));
      AtChar(text, k, [TAB], 0);
      SkipTabs(text, k + 1, n - 1);
    }
  }

  lemma SkipNewline(text: Text, k: nat, newline: Text)
    requires IsNewline(newline) && At(text, k, newline)
    ensures Skip(text, k) == Skip(text, k + |newline|) && k < |text| && text[k] in {10, 13}
  {
    AtChar(text, k, newline, 0);
    if |newline| == 2 {
      AtChar(text, k, newline, 1);
      assert Skip(text, k + 1) == Skip(text, k + 2);
    }
  }

  // ---- Numbers are read back ----

  /** What may stand behind a value: a comma, or the end of a line. */
  predicate Ends(text: Text, k: nat) {
    k < |text| && (text[k] == COMMA || text[k] == 10 || text[k] == 13)
  }

  lemma {:induction false} DigitsEnd(text: Text, k: nat, end: nat)
    requires k <= end < |text| && !IsDigit(text[end])
    requires forall i | k <= i < end :: IsDigit(text[i])
    ensures Digits(text, k) == end
    decreases end - k
  {
    if k < end {
      DigitsEnd(text, k + 1, end);
    }
  }

  lemma {:induction false} FirstDigit(n: nat)
    ensures Decimal(n)[0] == 48 ==> n == 0
  {
    if n >= 10 {
      FirstDigit(n / 10);
    }
  }

  /** The digits of a number, the sign before them aside. */
  lemma {:induction false} PlainNumberReads(text: Text, k: nat, first: nat, n: nat)
    requires At(text, first, Decimal(n)) && Ends(text, first + |Decimal(n)|)
    requires k <= |text| && first == (if k < |text| && text[k] == 45 then k + 1 else k)
    ensures ScanNumber(text, k) == Some((Num(if first > k then 0 - n else n), first + |Decimal(n)|))
  {
    var piece, end := Decimal(n), first + |Decimal(n)|;
    hide Decimal;
    hide DigitsValue;
    ValueOfDecimal(n);
    FirstDigit(n);
    forall i | first <= i < end
      ensures IsDigit(text[i]) && text[i] == piece[i - first]
    {
      AtChar(text, first, piece, i - first);
    }
    assert text[first..end] == piece;
    if text[first] == 48 {
      assert end == first + 1 by { ZeroIsShort(); }
    } else {
      DigitsEnd(text, first, end);
    }
    assert Fraction(text, end) == end;
  }

  lemma ZeroIsShort()
    ensures |Decimal(0)| == 1
  {
  }

  lemma IntegerReads(text: Text, k: nat, n: int)
    requires At(text, k, IntegerText(n)) && Ends(text, k + |IntegerText(n)|)
    ensures ScanNumber(text, k) == Some((Num(n), k + |IntegerText(n)|))
    ensures text[k] == 45 || IsDigit(text[k])
    ensures text[k] == 45 ==> k + 1 < |text| && IsDigit(text[k + 1])
  {
    hide ScanNumber;
    if n < 0 {
      AtSplit(text, k, [45], Decimal(0 - n));
      AtChar(text, k, [45], 0);
      AtChar(text, k + 1, Decimal(0 - n), 0);
      PlainNumberReads(text, k, k + 1, 0 - n);
    } else {
      AtChar(text, k, Decimal(n), 0);
      PlainNumberReads(text, k, k, n);
    }
  }

  /** The piece at k is all of the number: no digit, point, exponent or sign follows it. */
  ghost predicate Alone(text: Text, k: nat, piece: Text) {
    At(text, k, piece) && Ends(text, k + |piece|) && forall i | 0 <= i < |piece| :: text[k + i] == piece[i]
  }

  lemma {:induction false} DigitsShift(text: Text, k: nat, piece: Text, i: nat)
    requires Alone(text, k, piece) && i <= |piece|
    ensures Digits(text, k + i) == k + Digits(piece, i)
    decreases |piece| - i
  {
    if i < |piece| {
      assert text[k + i] == piece[i];
      DigitsShift(text, k, piece, i + 1);
    }
  }

  lemma AfterPointShift(text: Text, k: nat, piece: Text, i: nat)
    requires Alone(text, k, piece) && i <= |piece|
    ensures AfterPoint(text, k + i) == k + AfterPoint(piece, i)
  {
    hide Digits;
    hide At;
    if i + 1 <= |piece| {
      DigitsShift(text, k, piece, i + 1);
    }
  }

  lemma AfterExponentShift(text: Text, k: nat, piece: Text, i: nat)
    requires Alone(text, k, piece) && i <= |piece|
    ensures AfterExponent(text, k + i) == k + AfterExponent(piece, i)
  {
    hide Digits;
    hide At;
    if i + 1 <= |piece| {
      DigitsShift(text, k, piece, i + 1);
    }
    if i + 2 <= |piece| {
      DigitsShift(text, k, piece, i + 2);
    }
  }

  lemma FractionShift(text: Text, k: nat, piece: Text, i: nat)
    requires Alone(text, k, piece) && i <= |piece|
    ensures Fraction(text, k + i) == k + Fraction(piece, i)
  {
    hide AfterPoint;
    hide AfterExponent;
    hide Alone;
    AfterPointShift(text, k, piece, i);
    AfterExponentShift(text, k, piece, AfterPoint(piece, i));
  }

  lemma StandsAlone(text: Text, k: nat, piece: Text)
    requires At(text, k, piece) && Ends(text, k + |piece|)
    ensures Alone(text, k, piece) && k + |piece| < |text|
  {
    forall i | 0 <= i < |piece|
      ensures text[k + i] == piece[i]
    {
      AtChar(text, k, piece, i);
    }
  }

  lemma RealReads(text: Text, k: nat, token: Text)
    requires At(text, k, token) && Ends(text, k + |token|) && ScanNumber(token, 0) == Some((Real(token), |token|))
    ensures ScanNumber(text, k) == Some((Real(token), k + |token|))
    ensures text[k] == 45 || IsDigit(text[k])
    ensures text[k] == 45 ==> k + 1 < |text| && IsDigit(text[k + 1])
  {
    hide At;
    hide Digits;
    hide Fraction;
    hide DigitsValue;
    hide Ends;
    StandsAlone(text, k, token);
    var first := if token[0] == 45 then 1 else 0;
    assert text[k] == token[0] && text[k + first] == token[first];
    var end := if token[first] == 48 then first + 1 else Digits(token, first);
    DigitsShift(text, k, token, first);
    FractionShift(text, k, token, end);
    assert text[k..k + |token|] == token by { WholePiece(text, k, token); }
  }

  lemma WholePiece(text: Text, k: nat, piece: Text)
    requires At(text, k, piece)
    ensures text[k..k + |piece|] == piece
  {
  }

  // ---- Scalars are read back ----

  lemma StartsWith(text: Text, k: nat, word: Text)
    requires Starts(text, k, word) && word != []
    ensures text[k] == word[0]
    ensures |word| > 1 ==> text[k + 1] == word[1]
  {
    assert text[k..k + |word|][0] == text[k];
    if |word| > 1 {
      assert text[k..k + |word|][1] == text[k + 1];
    }
  }

  /** A value that starts like a number is one. */
  lemma NumberIsScanned(text: Text, k: nat)
    requires k < |text| && (text[k] == 45 || IsDigit(text[k]))
    requires text[k] == 45 ==> k + 1 < |text| && IsDigit(text[k + 1])
    ensures ScanValue(text, k) == ScanNumber(text, k)
  {
    hide Starts;
    hide ScanNumber;
    hide ScanString;
    hide ScanPairs;
    hide ScanItems;
    forall word | word in [NULL, TRUE, FALSE, NAN, INFINITY, [45] + INFINITY] && Starts(text, k, word)
      ensures false
    {
      StartsWith(text, k, word);
    }
  }

  predicate IsWord(word: Text) { word in [NULL, TRUE, FALSE, NAN, INFINITY, [45] + INFINITY] }

  /** The words differ in their first characters. */
  lemma OneWordAt(text: Text, k: nat, word: Text, other: Text)
    requires IsWord(word) && IsWord(other) && Starts(text, k, word) && Starts(text, k, other)
    ensures word == other
  {
    StartsWith(text, k, word);
    StartsWith(text, k, other);
  }

  lemma {:induction false} WordIsScanned(text: Text, k: nat, word: Text)
    requires IsWord(word) && At(text, k, word)
    ensures ScanValue(text, k) == Some((
      if word == NULL then Null
      else if word == TRUE then Bool(true)
      else if word == FALSE then Bool(false)
      else Real(word), k + |word|))
  {
    hide ScanNumber;
    hide ScanString;
    hide ScanPairs;
    hide ScanItems;
    hide Skip;
    AtChar(text, k, word, 0);
    assert Starts(text, k, word);
    hide At;
    hide Starts;
    forall other | IsWord(other) && Starts(text, k, other)
      ensures other == word
    {
      OneWordAt(text, k, word, other);
    }
    assert IsWord(NULL) && IsWord(TRUE) && IsWord(FALSE) && IsWord(NAN) && IsWord(INFINITY) && IsWord([45] + INFINITY);
  }

  lemma {:induction false} StringIsScanned(text: Text, k: nat)
    requires k < |text| && text[k] == QUOTE && ScanString(text, k + 1).Some?
    ensures ScanValue(text, k) == Some((Str(ScanString(text, k + 1).value.0), ScanString(text, k + 1).value.1))
  {
    hide ScanString;
    hide ScanNumber;
    hide Starts;
  }

  lemma {:induction false} StringReads(text: Text, k: nat, s: Text)
    requires IsText(s) && At(text, k, Quoted(s))
    ensures ScanValue(text, k) == Some((Str(Paired(s)), k + |Quoted(s)|))
    ensures k < |text| && text[k] == QUOTE
  {
    hide At;
    hide ScanValue;
    hide ScanString;
    hide Escaped;
    hide Paired;
    StringSurvives(text, k, s);
    AtChar(text, k, Quoted(s), 0);
    StringIsScanned(text, k);
  }

  lemma {:induction false} RealIsRead(text: Text, k: nat, token: Text)
    requires IsRealToken(token) && At(text, k, token) && Ends(text, k + |token|)
    ensures ScanValue(text, k) == Some((Real(token), k + |token|))
    ensures k < |text| && !Blank(text[k]) && text[k] != CLOSE
  {
    hide At;
    hide ScanValue;
    hide ScanNumber;
    hide Clean;
    if ScanNumber(token, 0) == Some((Real(token), |token|)) {
      RealReads(text, k, token);
      NumberIsScanned(text, k);
    } else {
      AtChar(text, k, token, 0);
      WordIsScanned(text, k, token);
    }
  }

  lemma {:induction false} ScalarReads(text: Text, k: nat, value: Value)
    requires IsScalar(value) && At(text, k, ScalarText(value)) && Ends(text, k + |ScalarText(value)|)
    ensures ScanValue(text, k) == Some((JoinedValue(value), k + |ScalarText(value)|))
    ensures k < |text| && !Blank(text[k]) && text[k] != CLOSE
  {
    hide At;
    hide ScanValue;
    hide ScanNumber;
    hide Quoted;
    hide Paired;
    hide IsText;
    hide IntegerText;
    hide IsRealToken;
    match value
    case Str(s) => StringReads(text, k, s);
    case Num(n) =>
      IntegerReads(text, k, n);
      NumberIsScanned(text, k);
    case Real(token) => RealIsRead(text, k, token);
    case Bool(truth) =>
      AtChar(text, k, if truth then TRUE else FALSE, 0);
      WordIsScanned(text, k, if truth then TRUE else FALSE);
    case Null =>
      AtChar(text, k, NULL, 0);
      WordIsScanned(text, k, NULL);
  }

  // ---- Objects are read back ----

  lemma {:induction false} ObjectIsScanned(text: Text, k: nat, first: nat)
    requires k < |text| && text[k] == OPEN && Skip(text, k + 1) == first && first < |text|
    ensures text[first] == CLOSE ==> ScanValue(text, k) == Some((Obj([]), first + 1))
    ensures text[first] != CLOSE && ScanPairs(text, first).Some? ==>
      ScanValue(text, k) == Some((Obj(ScanPairs(text, first).value.0), ScanPairs(text, first).value.1))
  {
    hide ScanString;
    hide ScanNumber;
    hide Starts;
  }

  /** One step of ScanPairs over a key and a value that are followed by a brace or a comma. */
  lemma PairsStep(text: Text, k: nat, key: Text, colon: nat, value: Value, next: nat)
    requires k < |text| && text[k] == QUOTE && ScanString(text, k + 1) == Some((key, colon))
    requires colon + 1 < |text| && text[colon] == COLON && !Blank(text[colon + 1])
    requires ScanValue(text, colon + 1) == Some((value, next))
    ensures Skip(text, next) < |text| && text[Skip(text, next)] == CLOSE ==>
      ScanPairs(text, k) == Some(([(key, value)], Skip(text, next) + 1))
    ensures next < |text| && text[next] == COMMA && ScanPairs(text, Skip(text, next + 1)).Some? ==>
      ScanPairs(text, k) ==
        Some(([(key, value)] + ScanPairs(text, Skip(text, next + 1)).value.0, ScanPairs(text, Skip(text, next + 1)).value.1))
  {
    hide ScanString;
    hide ScanValue;
    assert !Blank(text[colon]);
  }

  lemma {:induction false} ValueReads(text: Text, k: nat, value: Value, level: nat, newline: Text)
    requires IsNewline(newline) && IsPrintable(value)
    requires At(text, k, ValueText(value, level, newline)) && Ends(text, k + |ValueText(value, level, newline)|)
    ensures ScanValue(text, k) == Some((JoinedValue(value), k + |ValueText(value, level, newline)|))
    ensures k < |text| && !Blank(text[k])
    decreases value, 0
  {
    hide ScanValue;
    hide At;
    hide IsNewline;
    hide IsScalar;
    hide ScalarText;
    hide Ends;
    hide Skip;
    if !value.Obj? {
      ScalarReads(text, k, value);
    } else {
      hide PairsText;
      hide Tabs;
      var pairs := value.pairs;
      var inside, after := PairsText(pairs, level + 1, newline), Tabs(level) + [CLOSE];
      assert ValueText(value, level, newline) == [OPEN] + (newline + (inside + after));
      AtSplit(text, k, [OPEN], newline + (inside + after));
      AtChar(text, k, [OPEN], 0);
      AtSplit(text, k + 1, newline, inside + after);
      SkipNewline(text, k + 1, newline);
      ObjectReads(text, k, pairs, level, newline);
    }
  }

  lemma {:induction false} ObjectReads(text: Text, k: nat, pairs: seq<(Text, Value)>, level: nat, newline: Text)
    requires IsNewline(newline) && PrintablePairs(pairs) && k < |text| && text[k] == OPEN
    requires Skip(text, k + 1) == Skip(text, k + 1 + |newline|)
    requires At(text, k + 1 + |newline|, PairsText(pairs, level + 1, newline) + (Tabs(level) + [CLOSE]))
    ensures ScanValue(text, k) ==
      Some((Obj(JoinedPairs(pairs)), k + 1 + |newline| + |PairsText(pairs, level + 1, newline)| + level + 1))
    decreases pairs, 2
  {
    hide ScanValue;
    hide At;
    hide IsNewline;
    hide Tabs;
    hide IsPrintable;
    hide Skip;
    var p := k + 1 + |newline|;
    hide PairsText;
    if pairs == [] {
      LastPair(text, p, level + 1, newline);
      ObjectIsScanned(text, k, p + level);
    } else {
      PairsRead(text, p, pairs, level + 1, newline);
      ObjectIsScanned(text, k, p + level + 1);
    }
  }

  /** A key and its value at k, whatever ends them. */
  lemma {:induction false} PairReads(text: Text, k: nat, key: Text, value: Value, level: nat, newline: Text)
    requires IsNewline(newline) && IsText(key) && IsPrintable(value)
    requires At(text, k, PairText(key, value, level, newline)) && Ends(text, k + |PairText(key, value, level, newline)|)
    ensures var colon, end := k + level + |Quoted(key)|, k + |PairText(key, value, level, newline)|;
            && k + level < |text| && text[k + level] == QUOTE && Skip(text, k) == k + level
            && ScanString(text, k + level + 1) == Some((Paired(key), colon))
            && colon + 1 < |text| && text[colon] == COLON && !Blank(text[colon + 1])
            && ScanValue(text, colon + 1) == Some((JoinedValue(value), end))
    decreases value, 1
  {
    hide At;
    hide Quoted;
    hide Tabs;
    hide ValueText;
    hide ScanValue;
    hide ScanString;
    hide IsText;
    hide IsPrintable;
    hide IsNewline;
    var inside := ValueText(value, level, newline);
    AtSplit(text, k, Tabs(level), Quoted(key) + ([COLON] + inside));
    AtSplit(text, k + level, Quoted(key), [COLON] + inside);
    var colon := k + level + |Quoted(key)|;
    AtSplit(text, colon, [COLON], inside);
    AtChar(text, colon, [COLON], 0);
    StringReads(text, k + level, key);
    StringSurvives(text, k + level, key);
    SkipTabs(text, k, level);
    SkipNothing(text, k + level);
    ValueReads(text, colon + 1, value, level, newline);
  }

  lemma {:induction false} PairsTextStep(pairs: seq<(Text, Value)>, level: nat, newline: Text, after: Text)
    requires PrintablePairs(pairs) && pairs != []
    ensures PrintablePairs(pairs[1..]) && IsText(pairs[0].0) && IsPrintable(pairs[0].1)
    ensures var comma := if |pairs| > 1 then [COMMA] else [];
            && PairsText(pairs, level, newline) + after ==
              PairText(pairs[0].0, pairs[0].1, level, newline) +
                (comma + (newline + (PairsText(pairs[1..], level, newline) + after)))
            && |PairsText(pairs, level, newline)| ==
              |PairText(pairs[0].0, pairs[0].1, level, newline)| + |comma| + |newline| +
                |PairsText(pairs[1..], level, newline)|
  {
    hide PairText;
    hide IsPrintable;
    RestIsPrintable(pairs);
    var first, others := PairText(pairs[0].0, pairs[0].1, level, newline), PairsText(pairs[1..], level, newline);
    var comma := if |pairs| > 1 then [COMMA] else [];
    assert PairsText(pairs, level, newline) == first + (comma + (newline + others));
  }

  lemma FourPieces(text: Text, k: nat, first: Text, comma: Text, newline: Text, others: Text)
    requires IsNewline(newline) && (comma == [] || comma == [COMMA]) && At(text, k, first + (comma + (newline + others)))
    ensures At(text, k, first) && At(text, k + |first| + |comma| + |newline|, others) && Ends(text, k + |first|)
    ensures comma == [COMMA] ==> text[k + |first|] == COMMA
    ensures Skip(text, k + |first| + |comma|) == Skip(text, k + |first| + |comma| + |newline|)
  {
    hide At;
    hide Skip;
    AtSplit(text, k, first, comma + (newline + others));
    var next := k + |first|;
    AtSplit(text, next, comma, newline + others);
    AtSplit(text, next + |comma|, newline, others);
    SkipNewline(text, next + |comma|, newline);
    if comma != [] {
      AtChar(text, next, comma, 0);
    }
  }

  /** The lines of the pairs at k, up to the brace that closes them. */
  lemma {:induction false} PairsRead(text: Text, k: nat, pairs: seq<(Text, Value)>, level: nat, newline: Text)
    requires IsNewline(newline) && PrintablePairs(pairs) && pairs != [] && level > 0
    requires At(text, k, PairsText(pairs, level, newline) + (Tabs(level - 1) + [CLOSE]))
    ensures k + level < |text| && text[k + level] == QUOTE && Skip(text, k) == k + level
    ensures ScanPairs(text, k + level) == Some((JoinedPairs(pairs), k + |PairsText(pairs, level, newline)| + level))
    decreases pairs, 1
  {
    hide At;
    hide Tabs;
    hide PairText;
    hide PairsText;
    hide ScanPairs;
    hide ScanString;
    hide ScanValue;
    hide Skip;
    hide IsPrintable;
    hide IsText;
    hide Paired;
    hide JoinedValue;
    hide IsNewline;
    var key, value, rest := pairs[0].0, pairs[0].1, pairs[1..];
    var after := Tabs(level - 1) + [CLOSE];
    PairsTextStep(pairs, level, newline, after);
    var first, comma := PairText(key, value, level, newline), if |pairs| > 1 then [COMMA] else [];
    FourPieces(text, k, first, comma, newline, PairsText(rest, level, newline) + after);
    var next := k + |first|;
    PairReads(text, k, key, value, level, newline);
    PairsStep(text, k + level, Paired(key), k + level + |Quoted(key)|, JoinedValue(value), next);
    if |pairs| > 1 {
      PairsRead(text, next + 1 + |newline|, rest, level, newline);
    } else {
      LastPair(text, next + |newline|, level, newline);
      assert rest == [] && JoinedPairs(pairs) == [(Paired(key), JoinedValue(value))];
    }
  }

  lemma {:induction false} LastPair(text: Text, k: nat, level: nat, newline: Text)
    requires level > 0 && At(text, k, PairsText([], level, newline) + (Tabs(level - 1) + [CLOSE]))
    ensures Skip(text, k) == k + level - 1 && k + level - 1 < |text| && text[k + level - 1] == CLOSE
    ensures PairsText([], level, newline) == []
  {
    hide At;
    hide Tabs;
    hide Skip;
    assert PairsText([], level, newline) + (Tabs(level - 1) + [CLOSE]) == Tabs(level - 1) + [CLOSE];
    AtSplit(text, k, Tabs(level - 1), [CLOSE]);
    AtChar(text, k + level - 1, [CLOSE], 0);
    SkipTabs(text, k, level - 1);
    SkipNothing(text, k + level - 1);
  }
}
