/** Decimal numerals as printf writes them and strtoull reads them. */
module Numbers {
  import opened Bytes

  const TWO_64: nat := 0x1_0000_0000_0000_0000

  predicate IsDigit(c: int) { 48 <= c <= 57 }

  predicate AllDigits(text: seq<int>) {
    forall i | 0 <= i < |text| :: IsDigit(text[i])
  }

  function Decimal(n: nat): (text: seq<byte>)
    ensures |text| > 0 && AllDigits(text)
  {
    if n < 10 then [48 + n] else Decimal(n / 10) + [48 + n % 10]
  }

  function DigitsValue(text: seq<int>): nat
    requires AllDigits(text)
  {
    if text == [] then 0 else DigitsValue(text[..|text| - 1]) * 10 + (text[|text| - 1] - 48)
  }

  lemma {:induction false} ValueOfDecimal(n: nat)
    ensures DigitsValue(Decimal(n)) == n
  {
    var text := Decimal(n);
    if n < 10 {
      assert text[..0] == [];
    } else {
      ValueOfDecimal(n / 10);
      assert text[..|text| - 1] == Decimal(n / 10);
    }
  }

  lemma {:induction false} DecimalIsInjective(m: nat, n: nat)
    requires Decimal(m) == Decimal(n)
    ensures m == n
  {
    ValueOfDecimal(m);
    ValueOfDecimal(n);
  }

  function Power10(k: nat): (p: nat)
    ensures p > 0
  {
    if k == 0 then 1 else 10 * Power10(k - 1)
  }

  lemma {:induction false} DecimalIsShort(n: nat, k: nat)
    requires k > 0 && n < Power10(k)
    ensures |Decimal(n)| <= k
  {
    if n >= 10 {
      assert k > 1;
      DecimalIsShort(n / 10, k - 1);
    }
  }

  lemma {:induction false} SizeIsShort(n: nat)
    requires n < TWO_64
    ensures |Decimal(n)| <= 20
  {
    assert Power10(5) == 10_0000;
    assert Power10(10) == 100_0000_0000;
    assert Power10(15) == 1000_0000_0000_0000;
    assert Power10(20) == 1_0000_0000_0000_0000_0000;
    DecimalIsShort(n, 20);
  }

  predicate IsSpace(c: byte) { 9 <= c <= 13 || c == 32 }

  function SkipSpaces(text: seq<byte>): seq<byte> {
    if text != [] && IsSpace(text[0]) then SkipSpaces(text[1..]) else text
  }

  /** parse_size: strtoull in base ten, which also takes leading blanks and a sign. */
  function ParseSize(text: CString): Result<nat> {
    if text == [] then Ok(0)
    else
      var signed := SkipSpaces(text);
      var negative := signed != [] && signed[0] == 45;
      var digits := if signed != [] && signed[0] in {43, 45} then signed[1..] else signed;
      if digits == [] || !AllDigits(digits) || DigitsValue(digits) >= TWO_64 then Err(EINVAL)
      else Ok(if negative then (TWO_64 - DigitsValue(digits)) % TWO_64 else DigitsValue(digits))
  }

  /** Every size that is printed is read back. */
  lemma {:induction false} ParseDecimal(n: nat)
    requires n < TWO_64
    ensures 0 !in Decimal(n) && ParseSize(Decimal(n)) == Ok(n)
  {
    ValueOfDecimal(n);
    var text := Decimal(n);
    assert IsDigit(text[0]);
    assert forall i | 0 <= i < |text| :: IsDigit(text[i]);
  }

  /** What strtoull takes for a number: white space of the C locale, a sign or none, and decimal digits. */
  ghost predicate IsNumeral(text: seq<byte>, blanks: seq<byte>, sign: seq<byte>, digits: seq<byte>) {
    && text == blanks + sign + digits && digits != []
    && (forall i | 0 <= i < |blanks| :: blanks[i] as char in " \t\n\r" || blanks[i] == 11 || blanks[i] == 12)
    && (sign == [] || (|sign| == 1 && sign[0] as char in "+-"))
    && (forall i | 0 <= i < |digits| :: '0' <= digits[i] as char <= '9')
  }

  lemma {:induction false} BlanksAreSkipped(blanks: seq<byte>, rest: seq<byte>)
    requires forall i | 0 <= i < |blanks| :: IsSpace(blanks[i])
    requires rest != [] ==> !IsSpace(rest[0])
    ensures SkipSpaces(blanks + rest) == rest
  {
    if blanks == [] {
      assert blanks + rest == rest;
    } else {
      assert (blanks + rest)[1..] == blanks[1..] + rest;
      BlanksAreSkipped(blanks[1..], rest);
    }
  }

  /** A numeral is read as its value, wrapped around for a minus sign, unless it does not fit. */
  lemma NumeralIsRead(text: CString, blanks: seq<byte>, sign: seq<byte>, digits: seq<byte>)
    requires IsNumeral(text, blanks, sign, digits)
    ensures var value := DigitsValue(digits);
            ParseSize(text) ==
              if value >= 18446744073709551616 then Err(EINVAL)
              else if sign == [45] && value > 0 then Ok(18446744073709551616 - value)
              else Ok(value)
  {
    assert IsDigit(digits[0]);
    assert text == blanks + (sign + digits);
    BlanksAreSkipped(blanks, sign + digits);
    if sign == [] {
      assert sign + digits == digits;
    } else {
      assert (sign + digits)[1..] == digits;
    }
    hide DigitsValue;
  }

  lemma {:induction false} SkippedBlanks(text: seq<byte>) returns (blanks: seq<byte>)
    ensures text == blanks + SkipSpaces(text) && forall i | 0 <= i < |blanks| :: IsSpace(blanks[i])
  {
    if text != [] && IsSpace(text[0]) {
      blanks := SkippedBlanks(text[1..]);
      blanks := [text[0]] + blanks;
    } else {
      blanks := [];
    }
  }

  /** Nothing but numerals is accepted, and the empty text, which counts as 0. */
  lemma OnlyNumeralsAreRead(text: CString) returns (blanks: seq<byte>, sign: seq<byte>, digits: seq<byte>)
    requires ParseSize(text).Ok? && text != []
    ensures IsNumeral(text, blanks, sign, digits)
  {
    hide DigitsValue;
    hide SkipSpaces;
    blanks := SkippedBlanks(text);
    var signed := SkipSpaces(text);
    sign := if signed[0] in {43, 45} then [signed[0]] else [];
    digits := if signed[0] in {43, 45} then signed[1..] else signed;
    assert signed == sign + digits;
    assert text == blanks + sign + digits;
    forall i | 0 <= i < |digits|
      ensures '0' <= digits[i] as char <= '9'
    {
      assert IsDigit(digits[i]);
    }
  }
}
