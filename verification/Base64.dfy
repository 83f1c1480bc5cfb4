/**
 The base64url codec of r1-filectl and of the Android client.

 `Encoded` and `Decoded` say what the text form of a value is (section 5 of RFC 4648, without
 padding); the methods are the two C loops, and `ProtocolEncode` is the Kotlin encoder.
 Shifts and masks are written as multiplications, divisions and remainders.
 */
module Base64 {
  import opened Bytes

  const MAX_TEXT := 5500

  // The single character "-" stands for the empty value.
  const EMPTY_MARK: seq<byte> := [45]

  type sextet = v: int | 0 <= v < 64

  function Alphabet(v: sextet): byte {
    if v < 26 then 65 + v
    else if v < 52 then 97 + (v - 26)
    else if v < 62 then 48 + (v - 52)
    else if v == 62 then 45
    else 95
  }

  /** b64_value: both the url-safe and the classic alphabet are read. */
  function Value(c: byte): int {
    if 65 <= c <= 90 then c - 65
    else if 97 <= c <= 122 then c - 97 + 26
    else if 48 <= c <= 57 then c - 48 + 52
    else if c == 45 || c == 43 then 62
    else if c == 95 || c == 47 then 63
    else -1
  }

  predicate IsUrlSafe(c: byte) {
    65 <= c <= 90 || 97 <= c <= 122 || 48 <= c <= 57 || c == 45 || c == 95
  }

  predicate UrlSafe(text: seq<byte>) {
    forall i | 0 <= i < |text| :: IsUrlSafe(text[i])
  }

  predicate Readable(text: seq<byte>) {
    forall i | 0 <= i < |text| :: 0 <= Value(text[i]) < 64
  }

  lemma AlphabetInverse(v: sextet, c: byte)
    ensures IsUrlSafe(Alphabet(v)) && Value(Alphabet(v)) == v
    ensures Value(c) < 64
    ensures IsUrlSafe(c) ==> 0 <= Value(c) < 64 && Alphabet(Value(c)) == c
  {
  }

  // ---- What a text and a value mean to each other ----

  /** Six bits of a value, starting at bit 6 * k; bits past the end are zero. */
  function SextetAt(data: seq<byte>, k: nat): sextet
    requires k < (4 * |data| + 2) / 3
  {
    var i := k / 4 * 3;
    match k % 4
    case 0 => data[i] / 4
    case 1 => data[i] % 4 * 16 + (if i + 1 < |data| then data[i + 1] / 16 else 0)
    case 2 => data[i + 1] % 16 * 4 + (if i + 2 < |data| then data[i + 2] / 64 else 0)
    case _ => data[i + 2] % 64
  }

  function Encoded(data: seq<byte>): (text: seq<byte>)
    ensures |text| == (4 * |data| + 2) / 3
  {
    seq((4 * |data| + 2) / 3, k requires 0 <= k < (4 * |data| + 2) / 3 => Alphabet(SextetAt(data, k)))
  }

  /** Eight bits of a text, starting at bit 8 * j. */
  function ByteAt(text: seq<byte>, j: nat): int
    requires j < 6 * |text| / 8
  {
    var i := j / 3 * 4;
    match j % 3
    case 0 => Value(text[i]) * 4 + Value(text[i + 1]) / 16
    case 1 => Value(text[i + 1]) % 16 * 16 + Value(text[i + 2]) / 4
    case _ => Value(text[i + 2]) % 4 * 64 + Value(text[i + 3])
  }

  function Unpacked(text: seq<byte>): (data: seq<byte>)
    requires Readable(text)
  {
    seq(6 * |text| / 8, j requires 0 <= j < 6 * |text| / 8 => ByteAt(text, j))
  }

  // There are zero, two, four or six left-over bits.

  /** The lowest bits. */
  function Masked(x: int, bits: nat): int {
    match bits
    case 0 => 0
    case 2 => x % 4
    case 4 => x % 16
    case _ => x % 64
  }

  /** What is left when the lowest bits are shifted out. */
  function Shifted(x: int, bits: nat): int {
    match bits
    case 0 => x
    case 2 => x / 4
    case 4 => x / 16
    case _ => x / 64
  }

  /** The left-over bits in their place at the top of a byte. */
  function Raised(x: int, bits: nat): int {
    match bits
    case 2 => x * 64
    case 4 => x * 16
    case _ => x * 4
  }

  /** The bits of the first n characters beyond their whole bytes, as a number. */
  function Spare(text: seq<byte>, n: nat): nat
    requires n <= |text|
  {
    if n == 0 then 0 else Masked(Value(text[n - 1]), 6 * n % 8)
  }

  /** b64_decode as one expression. */
  function Decoded(text: CString): (r: Result<seq<byte>>) {
    if text == EMPTY_MARK then Ok([])
    else if |text| > MAX_TEXT then Err(ENAMETOOLONG)
    else if !Readable(text) || Spare(text, |text|) != 0 || 0 in Unpacked(text) then Err(EINVAL)
    else Ok(Unpacked(text))
  }

  /** Protocol.encode of the Android client. */
  function ProtocolEncode(value: seq<byte>): (text: seq<byte>) {
    if value == [] then EMPTY_MARK else Encoded(value)
  }

  // ---- The C loops ----

  lemma Residues(accumulator: nat)
    ensures accumulator % 64 % 16 == accumulator % 16 && accumulator % 64 % 4 == accumulator % 4
  {
    var q, r := accumulator / 64, accumulator % 64;
    DivModUnique(accumulator, 16, 4 * q + r / 16, r % 16);
    DivModUnique(accumulator, 4, 16 * q + r / 4, r % 4);
  }

  /** Wrapping to 32 bits does not reach the low twelve. */
  lemma LowBits(accumulator: nat, value: sextet) returns (high: int)
    ensures (accumulator * 64 + value) % 0x1_0000_0000 == 4096 * high + accumulator % 64 * 64 + value
  {
    var shifted := accumulator * 64 + value;
    var wrapped := shifted / 0x1_0000_0000;
    assert shifted % 0x1_0000_0000 == shifted - 0x1_0000_0000 * wrapped;
    assert accumulator == 64 * (accumulator / 64) + accumulator % 64;
    high := accumulator / 64 - 0x10_0000 * wrapped;
  }

  lemma TakeNone(next: int, high: int, low: sextet, value: sextet)
    requires next == 4096 * high + low * 64 + value
    ensures Masked(next, 6) == Masked(value, 6)
  {
    DivModUnique(next, 64, 64 * high + low, value);
  }

  lemma TakeTwo(next: int, high: int, low: sextet, value: sextet)
    requires next == 4096 * high + low * 64 + value
    ensures Masked(next, 0) == Masked(value, 0)
    ensures Shifted(next, 0) % 256 == Raised(Masked(low, 2), 2) + Shifted(value, 0)
  {
    var q, r := low / 4, low % 4;
    DivModUnique(next, 256, 16 * high + q, r * 64 + value);
  }

  lemma TakeFour(next: int, high: int, low: sextet, value: sextet)
    requires next == 4096 * high + low * 64 + value
    ensures Masked(next, 2) == Masked(value, 2)
    ensures Shifted(next, 2) % 256 == Raised(Masked(low, 4), 4) + Shifted(value, 2)
  {
    var q, r, rest := low / 16, low % 16, value / 4;
    var quarter := 1024 * high + low * 16 + rest;
    DivModUnique(next, 4, quarter, value % 4);
    DivModUnique(quarter, 256, 4 * high + q, r * 16 + rest);
  }

  lemma TakeSix(next: int, high: int, low: sextet, value: sextet)
    requires next == 4096 * high + low * 64 + value
    ensures Masked(next, 4) == Masked(value, 4)
    ensures Shifted(next, 4) % 256 == Raised(Masked(low, 6), 6) + Shifted(value, 4)
  {
    var rest := value / 16;
    var part := 256 * high + low * 4 + rest;
    DivModUnique(next, 16, part, value % 16);
    DivModUnique(part, 256, high, low * 4 + rest);
  }

  /** The byte that is taken out when two, four or six bits were left over, and what stays. */
  lemma TakeBits(next: int, high: int, low: sextet, value: sextet, bits: nat)
    requires bits in {0, 2, 4, 6}
    requires next == 4096 * high + low * 64 + value
    ensures Masked(next, (bits + 6) % 8) == Masked(value, (bits + 6) % 8)
    ensures bits >= 2 ==>
              Shifted(next, bits - 2) % 256 == Raised(Masked(low, bits), bits) + Shifted(value, bits - 2)
  {
    hide Masked;
    hide Shifted;
    hide Raised;
    if bits == 0 {
      TakeNone(next, high, low, value);
    } else if bits == 2 {
      TakeTwo(next, high, low, value);
    } else if bits == 4 {
      TakeFour(next, high, low, value);
    } else {
      TakeSix(next, high, low, value);
    }
  }

  /** A 32-bit accumulator that wraps still carries the bits that matter. */
  lemma AccumulatorStep(accumulator: nat, bits: nat, value: sextet)
    requires bits in {0, 2, 4, 6}
    ensures var next := (accumulator * 64 + value) % 0x1_0000_0000;
            && Masked(next, (bits + 6) % 8) == Masked(value, (bits + 6) % 8)
            && (bits >= 2 ==>
                  Shifted(next, bits - 2) % 256 == Raised(Masked(accumulator, bits), bits) + Shifted(value, bits - 2))
  {
    var high := LowBits(accumulator, value);
    var next := (accumulator * 64 + value) % 0x1_0000_0000;
    TakeBits(next, high, accumulator % 64, value, bits);
    Residues(accumulator);
    assert Masked(accumulator % 64, bits) == Masked(accumulator, bits);
  }

  /** Where character n stands in its group of four, and byte 6 * n / 8 in its group of three. */
  lemma Position(n: nat) returns (q: nat, r: nat)
    ensures n == 4 * q + r && r < 4 && n / 4 == q && n % 4 == r
    ensures 6 * n % 8 == [0, 6, 4, 2][r]
    ensures 6 * n / 8 == 3 * q + [0, 0, 1, 2][r]
    ensures 6 * n / 8 % 3 == [0, 0, 1, 2][r] && 6 * n / 8 / 3 == q
  {
    q, r := n / 4, n % 4;
    assert 6 * n == 8 * (3 * q) + 6 * r;
  }

  /** The bytes of group q of a text. */
  lemma UnpackedGroup(text: seq<byte>, q: nat)
    ensures |text| >= 4 * q + 2 ==>
              && 3 * q < 6 * |text| / 8
              && ByteAt(text, 3 * q) == Value(text[4 * q]) * 4 + Value(text[4 * q + 1]) / 16
    ensures |text| >= 4 * q + 3 ==>
              && 3 * q + 1 < 6 * |text| / 8
              && ByteAt(text, 3 * q + 1) == Value(text[4 * q + 1]) % 16 * 16 + Value(text[4 * q + 2]) / 4
    ensures |text| >= 4 * q + 4 ==>
              && 3 * q + 2 < 6 * |text| / 8
              && ByteAt(text, 3 * q + 2) == Value(text[4 * q + 2]) % 4 * 64 + Value(text[4 * q + 3])
  {
    assert 3 * q / 3 == (3 * q + 1) / 3 == (3 * q + 2) / 3 == q;
    assert 3 * q % 3 == 0 && (3 * q + 1) % 3 == 1 && (3 * q + 2) % 3 == 2;
  }

  /** The character at n completes byte 6 * n / 8 unless it starts a group. */
  lemma CompletedByte(text: seq<byte>, n: nat)
    requires n < |text| && 6 * n % 8 != 0
    requires 0 <= Value(text[n - 1]) < 64 && 0 <= Value(text[n]) < 64
    ensures var bits := 6 * n % 8;
            && bits in {2, 4, 6} && 6 * n / 8 < 6 * |text| / 8
            && ByteAt(text, 6 * n / 8) == Raised(Spare(text, n), bits) + Shifted(Value(text[n]), bits - 2)
  {
    hide Value;
    hide ByteAt;
    var q, r := Position(n);
    UnpackedGroup(text, q);
  }

  lemma Advance(n: nat, length: nat)
    requires n < length
    ensures var bits := 6 * n % 8;
            && bits in {0, 2, 4, 6}
            && 6 * (n + 1) % 8 == (if bits >= 2 then bits - 2 else 6)
            && 6 * (n + 1) / 8 == 6 * n / 8 + (if bits >= 2 then 1 else 0)
            && 6 * (n + 1) / 8 <= 6 * length / 8 <= length * 3 / 4
  {
    var q, r := Position(n);
  }

  /** One turn of the decoding loop keeps the spare bits ... */
  lemma SpareStep(text: seq<byte>, n: nat, accumulator: nat, bits: nat)
    requires n < |text| && bits == 6 * n % 8
    requires 0 <= Value(text[n]) < 64
    ensures var next := (accumulator * 64 + Value(text[n])) % 0x1_0000_0000;
            Masked(next, if bits >= 2 then bits - 2 else 6) == Spare(text, n + 1)
  {
    Advance(n, |text|);
    AccumulatorStep(accumulator, bits, Value(text[n]));
  }

  /** ... and completes the right byte. */
  lemma ByteStep(text: seq<byte>, n: nat, accumulator: nat, bits: nat)
    requires 0 < n < |text| && bits == 6 * n % 8 && bits >= 2
    requires 0 <= Value(text[n - 1]) < 64 && 0 <= Value(text[n]) < 64
    requires Masked(accumulator, bits) == Spare(text, n)
    ensures var next := (accumulator * 64 + Value(text[n])) % 0x1_0000_0000;
            && 6 * n / 8 < 6 * |text| / 8
            && Shifted(next, bits - 2) % 256 == ByteAt(text, 6 * n / 8)
  {
    CompletedByte(text, n);
    AccumulatorStep(accumulator, bits, Value(text[n]));
  }

  method Decode(text: CString) returns (r: Result<seq<byte>>)
    ensures r == Decoded(text)
  {
    hide Value;
    hide ByteAt;
    var source: seq<byte> := if text == EMPTY_MARK then [] else text;
    var length := |source|;
    if length > MAX_TEXT {
      return Err(ENAMETOOLONG);
    }
    var data := new byte[length * 3 / 4 + 4];
    var input, output := 0, 0;
    var accumulator, bits := 0, 0;
    while input < length
      invariant 0 <= input <= length
      invariant forall i | 0 <= i < input :: 0 <= Value(source[i]) < 64
      invariant bits == 6 * input % 8
      invariant output == 6 * input / 8 < data.Length
      invariant 0 <= accumulator < 0x1_0000_0000
      invariant Masked(accumulator, bits) == Spare(source, input)
      invariant forall j | 0 <= j < output :: data[j] == ByteAt(source, j)
    {
      var value := Value(source[input]);
      if value < 0 {
        return Err(EINVAL);
      }
      AlphabetInverse(0, source[input]);
      Advance(input, length);
      SpareStep(source, input, accumulator, bits);
      if bits >= 2 {
        ByteStep(source, input, accumulator, bits);
      }
      input := input + 1;
      accumulator := (accumulator * 64 + value) % 0x1_0000_0000;
      bits := bits + 6;
      if bits >= 8 {
        bits := bits - 8;
        data[output] := Shifted(accumulator, bits) % 256;
        output := output + 1;
      }
    }
    assert data[..output] == Unpacked(source);
    if bits != 0 && Masked(accumulator, bits) != 0 {
      return Err(EINVAL);
    }
    if 0 in data[..output] {
      return Err(EINVAL);
    }
    return Ok(data[..output]);
  }

  /** The characters of group q of a text. */
  lemma EncodedGroup(data: seq<byte>, q: nat)
    requires 3 * q < |data|
    ensures var text, n := Encoded(data), |data| - 3 * q;
            && (n == 1 ==> |text| == 4 * q + 2)
            && (n == 2 ==> |text| == 4 * q + 3)
            && (n >= 3 ==> |text| >= 4 * q + 4)
            && text[4 * q] == Alphabet(data[3 * q] / 4)
            && text[4 * q + 1] ==
                 Alphabet(data[3 * q] % 4 * 16 + (if n > 1 then data[3 * q + 1] / 16 else 0))
            && (n > 1 ==>
                  text[4 * q + 2] ==
                  Alphabet(data[3 * q + 1] % 16 * 4 + (if n > 2 then data[3 * q + 2] / 64 else 0)))
            && (n > 2 ==> text[4 * q + 3] == Alphabet(data[3 * q + 2] % 64))
  {
    assert 4 * q / 4 == (4 * q + 1) / 4 == (4 * q + 2) / 4 == (4 * q + 3) / 4 == q;
    assert 4 * q % 4 == 0 && (4 * q + 1) % 4 == 1 && (4 * q + 2) % 4 == 2 && (4 * q + 3) % 4 == 3;
  }

  /** Cutting a 24-bit group into four sextets. */
  lemma CutGroup(a: byte, b: byte, c: byte)
    ensures var value: int := a * 65536 + b * 256 + c;
            && value / 262144 % 64 == a / 4
            && value / 4096 % 64 == a % 4 * 16 + b / 16
            && value / 64 % 64 == b % 16 * 4 + c / 64
            && value % 64 == c % 64
  {
    var value: int := a * 65536 + b * 256 + c;
    DivModUnique(value, 262144, a / 4, a % 4 * 65536 + b * 256 + c);
    DivModUnique(value, 4096, a * 16 + b / 16, b % 16 * 256 + c);
    DivModUnique(a * 16 + b / 16, 64, a / 4, a % 4 * 16 + b / 16);
    DivModUnique(value, 64, a * 1024 + b * 4 + c / 64, c % 64);
    DivModUnique(a * 1024 + b * 4 + c / 64, 64, a * 16 + b / 16, b % 16 * 4 + c / 64);
  }

  /** Six of 24 bits, counted from the top. */
  function Cut(value: nat, k: nat): sextet {
    match k
    case 0 => value / 262144 % 64
    case 1 => value / 4096 % 64
    case 2 => value / 64 % 64
    case _ => value % 64
  }

  /** The second byte does not reach the first six bits. */
  lemma SameFirst(a: byte, b: byte)
    ensures Cut(a * 65536, 0) == Cut(a * 65536 + b * 256, 0)
  {
    CutGroup(a, 0, 0);
    CutGroup(a, b, 0);
  }

  /** The four characters that the encoder cuts out of the 24 bits of group q. */
  lemma CutEncoded(data: seq<byte>, q: nat, value: int)
    requires 3 * q < |data|
    requires value == data[3 * q] * 65536
             + (if 3 * q + 1 < |data| then data[3 * q + 1] * 256 else 0)
             + (if 3 * q + 2 < |data| then data[3 * q + 2] as int else 0)
    ensures value >= 0
    ensures var text, n := Encoded(data), |data| - 3 * q;
            && |text| >= 4 * q + 2
            && (n == 1 ==> |text| == 4 * q + 2)
            && (n == 2 ==> |text| == 4 * q + 3)
            && (n >= 3 ==> |text| >= 4 * q + 4)
            && text[4 * q] == Alphabet(Cut(value, 0))
            && text[4 * q + 1] == Alphabet(Cut(value, 1))
            && (n > 1 ==> text[4 * q + 2] == Alphabet(Cut(value, 2)))
            && (n > 2 ==> text[4 * q + 3] == Alphabet(Cut(value, 3)))
  {
    hide Encoded;
    hide Alphabet;
    EncodedGroup(data, q);
    var a := data[3 * q];
    var b := if 3 * q + 1 < |data| then data[3 * q + 1] else 0;
    var c := if 3 * q + 2 < |data| then data[3 * q + 2] else 0;
    CutGroup(a, b, c);
  }

  /** Joining the sextets of a 24-bit group gives its bytes back. */
  lemma JoinGroup(a: byte, b: byte, c: byte)
    ensures a / 4 * 4 + (a % 4 * 16 + b / 16) / 16 == a
    ensures (a % 4 * 16 + b / 16) % 16 * 16 + (b % 16 * 4 + c / 64) / 4 == b
    ensures (b % 16 * 4 + c / 64) % 4 * 64 + c % 64 == c
  {
    DivModUnique(a % 4 * 16 + b / 16, 16, a % 4, b / 16);
    DivModUnique(b % 16 * 4 + c / 64, 4, b % 16, c / 64);
  }

  /** b64_encode; the buffer it allocates holds exactly the text and its terminator. */
  method Encode(data: seq<byte>) returns (text: seq<byte>)
    ensures text == Encoded(data)
  {
    hide SextetAt;
    hide Encoded;
    hide Alphabet;
    hide Cut;
    var length := |data|;
    var result := new byte[(length * 4 + 2) / 3 + 1];
    var input, output := 0, 0;
    ghost var q, expected := 0, Encoded(data);
    while input + 3 <= length
      invariant input == 3 * q <= length && output == 4 * q <= |expected|
      invariant forall k | 0 <= k < output :: result[k] == expected[k]
    {
      var value: int := data[input] as int * 65536 + data[input + 1] as int * 256 + data[input + 2];
      CutEncoded(data, q, value);
      result[output] := Alphabet(Cut(value, 0));
      result[output + 1] := Alphabet(Cut(value, 1));
      result[output + 2] := Alphabet(Cut(value, 2));
      result[output + 3] := Alphabet(Cut(value, 3));
      input, output, q := input + 3, output + 4, q + 1;
    }
    if input < length {
      var value: int := data[input] as int * 65536;
      CutEncoded(data, q, value + if input + 1 < length then data[input + 1] as int * 256 else 0);
      result[output] := Alphabet(Cut(value, 0));
      output := output + 1;
      if input + 1 < length {
        SameFirst(data[input], data[input + 1]);
        value := value + data[input + 1] as int * 256;
        result[output] := Alphabet(Cut(value, 1));
        result[output + 1] := Alphabet(Cut(value, 2));
        output := output + 2;
      } else {
        result[output] := Alphabet(Cut(value, 1));
        output := output + 1;
      }
    }
    assert output == |expected|;
    assert forall k | 0 <= k < output :: result[k] == expected[k];
    result[output] := 0;
    text := result[..output];
  }

  // ---- Round trips ----

  lemma EncodedIsReadable(data: seq<byte>)
    ensures UrlSafe(Encoded(data)) && Readable(Encoded(data))
  {
    var text := Encoded(data);
    forall k | 0 <= k < |text|
      ensures IsUrlSafe(text[k]) && 0 <= Value(text[k]) < 64
    {
      AlphabetInverse(SextetAt(data, k), 0);
    }
  }

  lemma EncodedIsCString(data: seq<byte>)
    ensures 0 !in Encoded(data) && 61 !in Encoded(data) && 10 !in Encoded(data)
    ensures Encoded(data) != EMPTY_MARK
  {
    EncodedIsReadable(data);
    var text := Encoded(data);
    forall k | 0 <= k < |text|
      ensures text[k] !in {0, 10, 61}
    {
      assert IsUrlSafe(text[k]);
    }
    assert |text| != 1;
  }

  /** The bytes of group q come back from the characters that carry them. */
  lemma GroupComesBack(data: seq<byte>, q: nat)
    requires 3 * q < |data|
    ensures var text := Encoded(data);
            forall j | 3 * q <= j < 3 * q + 3 && j < |data| ::
              j < 6 * |text| / 8 && ByteAt(text, j) == data[j]
  {
    hide Encoded;
    hide ByteAt;
    hide Alphabet;
    hide Value;
    var text := Encoded(data);
    EncodedGroup(data, q);
    UnpackedGroup(text, q);
    var a := data[3 * q];
    var b := if 3 * q + 1 < |data| then data[3 * q + 1] else 0;
    var c := if 3 * q + 2 < |data| then data[3 * q + 2] else 0;
    AlphabetInverse(a / 4, 0);
    AlphabetInverse(a % 4 * 16 + b / 16, 0);
    AlphabetInverse(b % 16 * 4 + c / 64, 0);
    AlphabetInverse(c % 64, 0);
    JoinGroup(a, b, c);
  }

  lemma NothingSpare(data: seq<byte>)
    ensures Spare(Encoded(data), |Encoded(data)|) == 0
  {
    hide Encoded;
    hide Alphabet;
    hide Value;
    if data != [] {
      var q := (|data| - 1) / 3;
      EncodedGroup(data, q);
      var last := |data| - 1 - 3 * q;
      var text := Encoded(data);
      if last == 0 {
        AlphabetInverse(data[3 * q] % 4 * 16, 0);
        assert 6 * |text| % 8 == 4;
      } else if last == 1 {
        AlphabetInverse(data[3 * q + 1] % 16 * 4, 0);
        assert 6 * |text| % 8 == 2;
      } else {
        assert 6 * |text| % 8 == 0;
      }
    }
  }

  lemma UnpackedEncoded(data: seq<byte>)
    ensures Readable(Encoded(data)) && Unpacked(Encoded(data)) == data
  {
    EncodedIsReadable(data);
    var text := Encoded(data);
    hide ByteAt;
    forall j | 0 <= j < |data|
      ensures j < 6 * |text| / 8 && ByteAt(text, j) == data[j]
    {
      GroupComesBack(data, j / 3);
    }
  }

  /** The C decoder inverts both encoders on every value it can represent within its limit. */
  lemma DecodedEncoded(data: seq<byte>)
    ensures 0 !in Encoded(data) && 0 !in ProtocolEncode(data)
    ensures Decoded(Encoded(data)) == Decoded(ProtocolEncode(data)) ==
            if |Encoded(data)| > MAX_TEXT then Err(ENAMETOOLONG)
            else if 0 in data then Err(EINVAL)
            else Ok(data)
  {
    hide Encoded;
    hide Unpacked;
    hide Readable;
    hide Spare;
    UnpackedEncoded(data);
    NothingSpare(data);
    EncodedIsCString(data);
  }

  /** The last group has no bits to lose. */
  lemma LastGroup(text: seq<byte>, q: nat)
    requires Spare(text, |text|) == 0
    ensures |text| == 4 * q + 2 ==> Value(text[4 * q + 1]) % 16 == 0
    ensures |text| == 4 * q + 3 ==> Value(text[4 * q + 2]) % 4 == 0
  {
    hide Value;
    if |text| == 4 * q + 2 {
      DivModUnique(6 * |text|, 8, 3 * q + 1, 4);
    } else if |text| == 4 * q + 3 {
      DivModUnique(6 * |text|, 8, 3 * q + 2, 2);
    }
  }

  /** The bytes of group q, and how many there are from there on. */
  lemma UnpackedBytes(text: seq<byte>, q: nat)
    requires Readable(text) && 4 * q < |text| && |text| % 4 != 1
    ensures var data, n := Unpacked(text), |text| - 4 * q;
            && n >= 2
            && (n == 2 ==> |data| == 3 * q + 1)
            && (n == 3 ==> |data| == 3 * q + 2)
            && (n >= 4 ==> |data| >= 3 * q + 3)
            && data[3 * q] == Value(text[4 * q]) * 4 + Value(text[4 * q + 1]) / 16
            && (n > 2 ==> data[3 * q + 1] == Value(text[4 * q + 1]) % 16 * 16 + Value(text[4 * q + 2]) / 4)
            && (n > 3 ==> data[3 * q + 2] == Value(text[4 * q + 2]) % 4 * 64 + Value(text[4 * q + 3]))
            && |Encoded(data)| == |text|
  {
    UnpackedGroup(text, q);
    hide Value;
    hide ByteAt;
    var m := |text| / 4;
    assert |text| % 4 == 0 ==> 6 * |text| / 8 == 3 * m;
    assert |text| % 4 == 2 ==> 6 * |text| / 8 == 3 * m + 1;
    assert |text| % 4 == 3 ==> 6 * |text| / 8 == 3 * m + 2;
  }

  /** The characters of group q come back from the bytes they carry. */
  lemma CharactersComeBack(text: seq<byte>, q: nat)
    requires UrlSafe(text) && Readable(text) && Spare(text, |text|) == 0 && |text| % 4 != 1
    requires 4 * q < |text|
    ensures var again := Encoded(Unpacked(text));
            && |again| == |text|
            && forall k | 4 * q <= k < 4 * q + 4 && k < |text| :: again[k] == text[k]
  {
    hide Encoded;
    hide Unpacked;
    hide Alphabet;
    hide Value;
    hide Spare;
    forall i | 4 * q <= i < |text|
      ensures Alphabet(Value(text[i])) == text[i]
    {
      AlphabetInverse(0, text[i]);
    }
    UnpackedBytes(text, q);
    LastGroup(text, q);
    var n := |text| - 4 * q;
    var v2 := if n > 2 then Value(text[4 * q + 2]) else 0;
    SplitGroup(Value(text[4 * q]), Value(text[4 * q + 1]), v2, if n > 3 then Value(text[4 * q + 3]) else 0);
    EncodedGroup(Unpacked(text), q);
  }

  lemma SplitGroup(v0: sextet, v1: sextet, v2: sextet, v3: sextet)
    ensures var a, b, c := v0 * 4 + v1 / 16, v1 % 16 * 16 + v2 / 4, v2 % 4 * 64 + v3;
            a / 4 == v0 && a % 4 * 16 + b / 16 == v1 && b % 16 * 4 + c / 64 == v2 && c % 64 == v3
  {
    DivModUnique(v0 * 4 + v1 / 16, 4, v0, v1 / 16);
    DivModUnique(v1 % 16 * 16 + v2 / 4, 16, v1 % 16, v2 / 4);
    DivModUnique(v2 % 4 * 64 + v3, 64, v2 % 4, v3);
  }

  lemma EncodedUnpacked(text: seq<byte>)
    requires UrlSafe(text) && Readable(text) && Spare(text, |text|) == 0 && |text| % 4 != 1
    ensures Encoded(Unpacked(text)) == text
  {
    hide Alphabet;
    hide Value;
    hide Spare;
    var again := Encoded(Unpacked(text));
    if text != [] {
      CharactersComeBack(text, 0);
      hide Encoded;
      hide Unpacked;
      forall k | 0 <= k < |text|
        ensures again[k] == text[k]
      {
        CharactersComeBack(text, k / 4);
      }
    }
  }

  /** A text that was accepted is the text of its value exactly when it is url-safe and complete. */
  lemma ReencodedAccepted(text: CString)
    requires Decoded(text).Ok?
    ensures Encoded(Decoded(text).value) == text <==> UrlSafe(text) && |text| % 4 != 1
  {
    hide Alphabet;
    hide Value;
    hide Spare;
    var value := Decoded(text).value;
    if UrlSafe(text) && |text| % 4 != 1 {
      EncodedUnpacked(text);
    } else if Encoded(value) == text {
      EncodedIsReadable(value);
    }
  }
}
