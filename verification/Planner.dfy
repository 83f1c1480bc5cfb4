/**
 The Android planner that turns the tags of a song into a destination path, and what the card
 service makes of that path. Kotlin strings are sequences of UTF-16 code units.
 */
module Planner {
  import opened Bytes
  import opened Text
  import opened Paths
  import opened Metadata
  import Numbers
  import Base64

  type codeunit = u: int | 0 <= u < 65536
  type Units = seq<codeunit>

  const SPACE: codeunit := 32
  const STOP: codeunit := 46

  // "Music", "mp3", "Unknown Artist", "Unknown Album", "Unknown Title"
  const MUSIC: Units := [77, 117, 115, 105, 99]
  const MP3: Units := [109, 112, 51]
  const UNKNOWN: Units := [85, 110, 107, 110, 111, 119, 110, 32]
  const UNKNOWN_ARTIST: Units := UNKNOWN + [65, 114, 116, 105, 115, 116]
  const UNKNOWN_ALBUM: Units := UNKNOWN + [65, 108, 98, 117, 109]
  const UNKNOWN_TITLE: Units := UNKNOWN + [84, 105, 116, 108, 101]

  // ---- The UTF-8 bytes of a Kotlin string ----

  predicate High(u: codeunit) { 0xD800 <= u < 0xDC00 }
  predicate Low(u: codeunit) { 0xDC00 <= u < 0xE000 }

  /** The bytes of the first character of a text, and how many code units it takes. */
  datatype Piece = Piece(bytes: seq<byte>, used: nat)

  function First(text: Units): (p: Piece)
    requires text != []
    ensures 0 < p.used <= |text| && p.bytes != []
    ensures text[0] < 0x80 ==> p == Piece([text[0]], 1)
    ensures text[0] >= 0x80 ==>
              forall i | 0 <= i < |p.bytes| :: p.bytes[i] >= 0x80 || p.bytes[i] == 63
    ensures p.used == (if High(text[0]) && |text| > 1 && Low(text[1]) then 2 else 1)
  {
    var u: int := text[0];
    if u < 0x80 then Piece([u], 1)
    else if u < 0x800 then Piece([0xC0 + u / 64, 0x80 + u % 64], 1)
    else if High(u) && |text| > 1 && Low(text[1]) then
      var point := 0x1_0000 + (u - 0xD800) * 0x400 + (text[1] - 0xDC00);
      Piece([0xF0 + point / 0x4_0000, 0x80 + point / 0x1000 % 64, 0x80 + point / 64 % 64, 0x80 + point % 64], 2)
    else if High(u) || Low(u) then Piece([63], 1)
    else Piece([0xE0 + u / 0x1000, 0x80 + u / 64 % 64, 0x80 + u % 64], 1)
  }

  function Utf8(text: Units): seq<byte> {
    if text == [] then [] else First(text).bytes + Utf8(text[First(text).used..])
  }

  /** A character that takes two code units. */
  predicate IsPair(text: Units) {
    |text| > 1 && 0xD800 <= text[0] <= 0xDBFF && 0xDC00 <= text[1] <= 0xDFFF
  }

  /** The first character of a text; a surrogate that has no partner is a question mark. */
  function Character(text: Units): int
    requires text != []
  {
    var high: int := text[0];
    if IsPair(text) then
      var low: int := text[1];
      0x1_0000 + 0x400 * (high - 0xD800) + (low - 0xDC00)
    else if 0xD800 <= high <= 0xDFFF then '?' as int
    else high
  }

  function Characters(text: Units): seq<int> {
    if text == [] then [] else [Character(text)] + Characters(text[if IsPair(text) then 2 else 1..])
  }

  predicate IsTail(bytes: seq<byte>, i: nat) { i < |bytes| && 0x80 <= bytes[i] <= 0xBF }

  function Low6(b: byte): int { b as int % 64 }

  /** The first character of a text in UTF-8, and how many bytes it takes (sections 3 and 4 of RFC 3629). */
  function Lead(bytes: seq<byte>): (r: Option<(int, nat)>)
    ensures r.Some? ==> 0 < r.value.1 <= |bytes|
  {
    if bytes == [] then None
    else
      var lead: int := bytes[0];
      if lead <= 0x7F then Some((lead, 1))
      else if 0xC2 <= lead <= 0xDF && IsTail(bytes, 1) then Some(((lead - 0xC0) * 64 + Low6(bytes[1]), 2))
      else if 0xE0 <= lead <= 0xEF && IsTail(bytes, 1) && IsTail(bytes, 2) then
        var point := (lead - 0xE0) * 4096 + Low6(bytes[1]) * 64 + Low6(bytes[2]);
        if point < 0x800 || 0xD800 <= point <= 0xDFFF then None else Some((point, 3))
      else if 0xF0 <= lead <= 0xF4 && IsTail(bytes, 1) && IsTail(bytes, 2) && IsTail(bytes, 3) then
        var point := (lead - 0xF0) * 262144 + Low6(bytes[1]) * 4096 + Low6(bytes[2]) * 64 + Low6(bytes[3]);
        if point < 0x1_0000 || point > 0x10_FFFF then None else Some((point, 4))
      else None
  }

  function ReadUtf8(bytes: seq<byte>): Option<seq<int>> {
    if bytes == [] then Some([])
    else
      match Lead(bytes)
      case None => None
      case Some((point, n)) =>
        match ReadUtf8(bytes[n..])
        case None => None
        case Some(points) => Some([point] + points)
  }

  lemma TwoBytes(u: int, rest: seq<byte>)
    requires 0x80 <= u < 0x800
    ensures Lead([0xC0 + u / 64, 0x80 + u % 64] + rest) == Some((u, 2))
  {
    var bytes: seq<byte> := [0xC0 + u / 64, 0x80 + u % 64] + rest;
    assert bytes[0] == 0xC0 + u / 64 && bytes[1] == 0x80 + u % 64;
  }

  lemma ThreeBytes(u: int, rest: seq<byte>)
    requires 0x800 <= u < 0x1_0000 && !(0xD800 <= u <= 0xDFFF)
    ensures Lead([0xE0 + u / 0x1000, 0x80 + u / 64 % 64, 0x80 + u % 64] + rest) == Some((u, 3))
  {
    Sextets(u);
    var bytes: seq<byte> := [0xE0 + u / 0x1000, 0x80 + u / 64 % 64, 0x80 + u % 64] + rest;
    assert bytes[0] == 0xE0 + u / 0x1000 && bytes[1] == 0x80 + u / 64 % 64 && bytes[2] == 0x80 + u % 64;
    assert Low6(bytes[1]) == u / 64 % 64 && Low6(bytes[2]) == u % 64;
  }

  lemma FourBytes(point: int, rest: seq<byte>)
    requires 0x1_0000 <= point <= 0x10_FFFF
    ensures Lead([0xF0 + point / 0x4_0000, 0x80 + point / 0x1000 % 64, 0x80 + point / 64 % 64, 0x80 + point % 64] + rest)
              == Some((point, 4))
  {
    Sextets(point);
    var a, b, c, d := point / 0x4_0000, point / 0x1000 % 64, point / 64 % 64, point % 64;
    var bytes: seq<byte> := [0xF0 + a, 0x80 + b, 0x80 + c, 0x80 + d] + rest;
    assert bytes[0] == 0xF0 + a && bytes[1] == 0x80 + b && bytes[2] == 0x80 + c && bytes[3] == 0x80 + d;
    assert Low6(bytes[1]) == b && Low6(bytes[2]) == c && Low6(bytes[3]) == d;
  }

  /** A number by its six-bit parts. */
  lemma Sextets(n: int)
    requires 0 <= n < 0x11_0000
    ensures n == n / 0x1000 * 4096 + n / 64 % 64 * 64 + n % 64
    ensures n / 0x1000 == n / 0x4_0000 * 64 + n / 0x1000 % 64
  {
    var a, b := n / 64, n / 0x1000;
    assert n == 64 * a + n % 64;
    DivModUnique(n, 0x1000, a / 64, 64 * (a % 64) + n % 64);
    DivModUnique(n, 0x4_0000, b / 64, 0x1000 * (b % 64) + n % 0x1000);
  }

  lemma FirstIsRead(text: Units, rest: seq<byte>)
    requires text != []
    ensures var p := First(text);
            Lead(p.bytes + rest) == Some((Character(text), |p.bytes|)) && p.used == if IsPair(text) then 2 else 1
  {
    hide Lead;
    var u: int := text[0];
    if u < 0x80 {
      OneByte(u, rest);
    } else if u < 0x800 {
      TwoBytes(u, rest);
    } else if IsPair(text) {
      FourBytes(Character(text), rest);
    } else if 0xD800 <= u <= 0xDFFF {
      OneByte(63, rest);
    } else {
      ThreeBytes(u, rest);
    }
  }

  lemma OneByte(u: int, rest: seq<byte>)
    requires 0 <= u < 0x80
    ensures Lead([u] + rest) == Some((u, 1))
  {
    assert ([u] + rest)[0] == u;
  }

  /** Read as UTF-8, the bytes of a text are its characters. */
  lemma {:induction false} Utf8IsRead(text: Units)
    ensures ReadUtf8(Utf8(text)) == Some(Characters(text))
  {
    if text != [] {
      var p := First(text);
      var rest := Utf8(text[p.used..]);
      FirstIsRead(text, rest);
      Utf8IsRead(text[p.used..]);
      hide First;
      hide Lead;
      hide Character;
      assert (p.bytes + rest)[|p.bytes|..] == rest;
    }
  }

  /** An ASCII character other than '?' is in the bytes exactly when it is in the text. */
  lemma {:induction false} Utf8Has(text: Units, c: byte)
    requires c < 0x80 && c != 63
    ensures c in Utf8(text) <==> c in text
  {
    hide First;
    if text != [] {
      var n := First(text).used;
      Utf8Has(text[n..], c);
      assert text == text[..n] + text[n..];
      assert c in text[..n] <==> c == text[0];
      assert c in First(text).bytes <==> c == text[0];
    }
  }

  lemma {:induction false} Utf8First(text: Units)
    requires text != []
    ensures Utf8(text) != [] && (text[0] != STOP ==> Utf8(text)[0] != DOT)
  {
    hide First;
    assert Utf8(text)[0] == First(text).bytes[0];
  }

  lemma FirstOfMore(text: Units, c: codeunit, rest: Units)
    requires text != [] && c < 0x80
    ensures First(text + [c] + rest) == First(text)
  {
    var more := text + [c] + rest;
    assert more[0] == text[0] && more[1] == if |text| > 1 then text[1] else c;
  }

  lemma {:induction false} Utf8Step(text: Units, n: nat)
    requires text != [] && n == First(text).used
    ensures Utf8(text) == First(text).bytes + Utf8(text[n..])
  {
    hide First;
  }

  lemma CutRegroups(bytes: seq<byte>, front: seq<byte>, c: byte, rest: seq<byte>)
    ensures bytes + (front + [c] + rest) == (bytes + front) + [c] + rest
  {
  }

  /** Encoding can be cut at any ASCII character. */
  lemma {:induction false} Utf8Cut(front: Units, c: codeunit, rest: Units)
    requires c < 0x80
    ensures Utf8(front + [c] + rest) == Utf8(front) + [c] + Utf8(rest)
  {
    hide First;
    var text := front + [c] + rest;
    if front == [] {
      assert text[0] == c && text[1..] == rest;
      Utf8Step(text, 1);
    } else {
      var n := First(front).used;
      FirstOfMore(front, c, rest);
      Utf8Step(front, n);
      Utf8Step(text, n);
      hide Utf8;
      Utf8Cut(front[n..], c, rest);
      assert text[n..] == front[n..] + [c] + rest;
      CutRegroups(First(front).bytes, Utf8(front[n..]), c, Utf8(rest));
    }
  }

  // ---- sanitize ----

  predicate Control(u: codeunit) { u < 32 || 127 <= u < 160 }

  predicate Forbidden(u: codeunit) {
    Control(u) || u in {92, 47, 58, 42, 63, 34, 60, 62, 124}
  }

  /** Every forbidden character becomes a space. */
  function Replaced(text: Units): (r: Units)
    ensures |r| == |text|
    ensures forall i | 0 <= i < |r| :: r[i] == if Forbidden(text[i]) then SPACE else text[i]
  {
    seq(|text|, i requires 0 <= i < |text| => if Forbidden(text[i]) then SPACE else text[i])
  }

  predicate JavaSpace(u: codeunit) { 9 <= u <= 13 || u == SPACE }

  /** Runs of white space become one space. */
  function Collapsed(text: Units): (r: Units)
    ensures forall u | u in r :: u == SPACE || u in text
  {
    if text == [] then []
    else if !JavaSpace(text[0]) then [text[0]] + Collapsed(text[1..])
    else if |text| > 1 && JavaSpace(text[1]) then Collapsed(text[1..])
    else [SPACE] + Collapsed(text[1..])
  }

  function TrimStart(text: Units, drop: set<codeunit>): (r: Units)
    ensures r != [] ==> r[0] !in drop
    ensures forall u | u in r :: u in text
  {
    if text != [] && text[0] in drop then TrimStart(text[1..], drop) else text
  }

  function TrimEnd(text: Units, drop: set<codeunit>): (r: Units)
    ensures r <= text
  {
    if text != [] && text[|text| - 1] in drop then TrimEnd(text[..|text| - 1], drop) else text
  }

  function Trim(text: Units, drop: set<codeunit>): (r: Units)
    ensures r != [] ==> r[0] !in drop
    ensures forall u | u in r :: u in text
  {
    TrimEnd(TrimStart(text, drop), drop)
  }

  predicate KotlinSpace(u: codeunit) {
    || 9 <= u <= 13 || 28 <= u <= 32 || 0x2000 <= u <= 0x200A
    || u in {0xA0, 0x1680, 0x2028, 0x2029, 0x202F, 0x205F, 0x3000}
  }

  predicate Blank(text: Units) {
    forall i | 0 <= i < |text| :: KotlinSpace(text[i])
  }

  function Take(text: Units, n: nat): (r: Units)
    ensures r <= text && (n > 0 && text != [] ==> r != [] && r[0] == text[0])
    ensures forall u | u in r :: u in text
  {
    if |text| <= n then text else text[..n]
  }

  // What is taken away at both ends.
  const EDGE: set<codeunit> := {SPACE, STOP}

  function Sanitize(component: Option<Units>, fallback: Units): Units {
    var text := if component.Some? then component.value else [];
    var cleaned := Trim(Collapsed(Replaced(text)), EDGE);
    Take(if Blank(cleaned) then fallback else cleaned, 180)
  }

  /** A name that can stand between two slashes. */
  predicate Clean(name: Units) {
    name != [] && name[0] != STOP && 47 !in name && 0 !in name
  }

  lemma SanitizeIsClean(component: Option<Units>, fallback: Units)
    requires Clean(fallback)
    ensures Clean(Sanitize(component, fallback))
  {
    var text := if component.Some? then component.value else [];
    var replaced := Replaced(text);
    assert forall i | 0 <= i < |replaced| :: replaced[i] != 47 && replaced[i] != 0;
    var cleaned := Trim(Collapsed(replaced), EDGE);
    assert 47 !in cleaned && 0 !in cleaned;
    assert !Blank(cleaned) ==> cleaned != [];
  }

  // ---- What sanitizing keeps ----

  /** A tag that needs no change: it fits, has no forbidden character, and only single spaces, all of them inside. */
  predicate Tidy(text: Units) {
    && 0 < |text| <= 180 && !Blank(text)
    && (forall i | 0 <= i < |text| :: !Forbidden(text[i]))
    && (forall i | 0 < i < |text| :: !(text[i - 1] == SPACE && text[i] == SPACE))
    && text[0] !in {SPACE, STOP} && text[|text| - 1] !in {SPACE, STOP}
  }

  lemma {:induction false} SinglesStay(text: Units)
    requires forall i | 0 <= i < |text| :: JavaSpace(text[i]) ==> text[i] == SPACE
    requires forall i | 0 < i < |text| :: !(text[i - 1] == SPACE && text[i] == SPACE)
    ensures Collapsed(text) == text
  {
    if text != [] {
      var rest := text[1..];
      assert forall i | 0 <= i < |rest| :: rest[i] == text[i + 1];
      SinglesStay(rest);
    }
  }

  lemma TidyMeans(text: Units)
    requires Tidy(text)
    ensures 0 < |text| <= 180 && !Blank(text) && text[0] !in EDGE && text[|text| - 1] !in EDGE
    ensures Replaced(text) == text && Collapsed(text) == text
  {
    hide Collapsed;
    hide Replaced;
    hide Forbidden;
    hide JavaSpace;
    ReplacedStays(text);
    forall i | 0 <= i < |text| && JavaSpace(text[i])
      ensures text[i] == SPACE
    {
      OnlySpaces(text[i]);
    }
    SinglesStay(text);
  }

  lemma OnlySpaces(u: codeunit)
    ensures JavaSpace(u) && !Forbidden(u) ==> u == SPACE
  {
  }

  /** A tidy tag is used as it is. */
  lemma TidyStays(text: Units, fallback: Units)
    requires Tidy(text)
    ensures Sanitize(Some(text), fallback) == text
  {
    hide Tidy;
    hide Blank;
    hide Collapsed;
    hide Replaced;
    hide Trim;
    TidyMeans(text);
    TrimStays(text, EDGE);
  }

  lemma ReplacedStays(text: Units)
    requires forall i | 0 <= i < |text| :: !Forbidden(text[i])
    ensures Replaced(text) == text
  {
  }

  lemma TrimStays(text: Units, drop: set<codeunit>)
    requires text != [] && text[0] !in drop && text[|text| - 1] !in drop
    ensures Trim(text, drop) == text
  {
    assert TrimStart(text, drop) == text && TrimEnd(text, drop) == text;
  }

  // ---- When the fallback is used ----

  predicate Spaced(text: Units) {
    forall i | 0 <= i < |text| :: JavaSpace(text[i]) ==> text[i] == SPACE
  }

  lemma {:induction false} CollapsedMore(text: Units, u: codeunit)
    requires Spaced(text) && (JavaSpace(u) ==> u == SPACE)
    ensures Collapsed(text + [u]) ==
      if u == SPACE && text != [] && text[|text| - 1] == SPACE then Collapsed(text) else Collapsed(text) + [u]
  {
    if text == [] {
      assert text + [u] == [u] && [u][1..] == [];
    } else {
      assert (text + [u])[1..] == text[1..] + [u];
      assert forall i | 0 <= i < |text| - 1 :: text[1..][i] == text[i + 1];
      CollapsedMore(text[1..], u);
      if |text| == 1 {
        assert text[1..] == [];
      }
    }
  }

  lemma {:induction false} StartsAlike(text: Units)
    requires Spaced(text)
    ensures TrimStart(Collapsed(text), EDGE) == Collapsed(TrimStart(text, EDGE))
    ensures Spaced(TrimStart(text, EDGE))
  {
    if text != [] {
      assert forall i | 0 <= i < |text| - 1 :: text[1..][i] == text[i + 1];
      StartsAlike(text[1..]);
      if text[0] !in EDGE {
        assert Collapsed(text)[0] == text[0];
      } else if Collapsed(text) != Collapsed(text[1..]) {
        assert Collapsed(text)[1..] == Collapsed(text[1..]);
      }
    }
  }

  lemma {:induction false} EndsAlike(text: Units)
    requires Spaced(text)
    ensures TrimEnd(Collapsed(text), EDGE) == Collapsed(TrimEnd(text, EDGE))
  {
    if text != [] {
      var n := |text| - 1;
      EndsAlike(text[..n]);
      assert text == text[..n] + [text[n]];
      CollapsedMore(text[..n], text[n]);
      if Collapsed(text) != Collapsed(text[..n]) {
        assert Collapsed(text)[..|Collapsed(text)| - 1] == Collapsed(text[..n]);
      }
    }
  }

  lemma {:induction false} BlankAlike(text: Units)
    requires Spaced(text)
    ensures Blank(Collapsed(text)) <==> Blank(text)
  {
    if text != [] {
      assert forall i | 0 <= i < |text| - 1 :: text[1..][i] == text[i + 1];
      BlankAlike(text[1..]);
      var c := Collapsed(text);
      if c != Collapsed(text[1..]) {
        assert c[1..] == Collapsed(text[1..]);
        assert Blank(c) <==> KotlinSpace(c[0]) && Blank(c[1..]) by { BlankFirst(c); }
      }
      BlankFirst(text);
    }
  }

  lemma BlankFirst(text: Units)
    requires text != []
    ensures Blank(text) <==> KotlinSpace(text[0]) && Blank(text[1..])
  {
    if KotlinSpace(text[0]) && Blank(text[1..]) {
      assert forall i | 0 < i < |text| :: text[i] == text[1..][i - 1];
    }
  }

  /** What trimming leaves is a stretch of the text with nothing but the dropped characters around it. */
  lemma {:induction false} StartCut(text: Units, drop: set<codeunit>) returns (a: nat)
    ensures a <= |text| && TrimStart(text, drop) == text[a..]
    ensures (forall i | 0 <= i < a :: text[i] in drop) && (a < |text| ==> text[a] !in drop)
  {
    a := 0;
    if text != [] && text[0] in drop {
      a := StartCut(text[1..], drop);
      assert text[1..][a..] == text[a + 1..];
      assert forall i | 0 <= i < |text| - 1 :: text[1..][i] == text[i + 1];
      a := a + 1;
    }
  }

  lemma {:induction false} EndCut(text: Units, drop: set<codeunit>) returns (b: nat)
    ensures b <= |text| && TrimEnd(text, drop) == text[..b]
    ensures (forall i | b <= i < |text| :: text[i] in drop) && (b > 0 ==> text[b - 1] !in drop)
  {
    b := |text|;
    if text != [] && text[|text| - 1] in drop {
      b := EndCut(text[..|text| - 1], drop);
      assert text[..|text| - 1][..b] == text[..b];
    }
  }

  lemma TrimCut(text: Units, drop: set<codeunit>) returns (a: nat, b: nat)
    ensures a <= b <= |text| && Trim(text, drop) == text[a..b]
    ensures (forall i | 0 <= i < a :: text[i] in drop) && (forall i | b <= i < |text| :: text[i] in drop)
    ensures a < b ==> text[a] !in drop && text[b - 1] !in drop
  {
    a := StartCut(text, drop);
    var rest := text[a..];
    var n := EndCut(rest, drop);
    b := a + n;
    assert rest[..n] == text[a..b];
    assert forall i | 0 <= i < |rest| :: rest[i] == text[a + i];
    forall i | b <= i < |text|
      ensures text[i] in drop
    {
      assert rest[i - a] == text[i];
    }
  }

  /** What goes when it stands at an end. */
  predicate Edge(u: codeunit) { Forbidden(u) || u == SPACE || u == STOP }

  /**
   Nothing to show: forbidden characters, white space, and dots with nothing but forbidden characters, spaces
   and dots on one side of them.
   */
  predicate Empty(text: Units) {
    forall i | 0 <= i < |text| ::
      || Forbidden(text[i]) || KotlinSpace(text[i])
      || (text[i] == STOP && ((forall j | 0 <= j < i :: Edge(text[j])) || (forall j | i < j < |text| :: Edge(text[j]))))
  }

  lemma BlankCut(text: Units)
    ensures Blank(Trim(Replaced(text), EDGE)) <==> Empty(text)
  {
    var w := Replaced(text);
    var a, b := TrimCut(w, EDGE);
    hide Trim;
    assert forall i | 0 <= i < |text| :: w[i] in EDGE <==> Edge(text[i]);
    assert forall i | 0 <= i < |text| :: KotlinSpace(w[i]) <==> Forbidden(text[i]) || KotlinSpace(text[i]);
    assert forall i | 0 <= i < b - a :: w[a..b][i] == w[a + i];
    if Blank(w[a..b]) {
      forall i | a <= i < b
        ensures KotlinSpace(w[i])
      {
        assert w[a..b][i - a] == w[i];
      }
    }
    if Empty(text) {
      forall i | 0 <= i < b - a
        ensures KotlinSpace(w[a..b][i])
      {
        assert !Edge(text[a]) && !Edge(text[b - 1]);
      }
    }
  }

  /** What is left of a tag before it is cut to its length: runs of blanks are one, and the ends are trimmed. */
  lemma CleanedIs(text: Units)
    ensures Trim(Collapsed(Replaced(text)), EDGE) == Collapsed(Trim(Replaced(text), EDGE))
    ensures Blank(Trim(Collapsed(Replaced(text)), EDGE)) <==> Empty(text)
  {
    var w := Replaced(text);
    assert Spaced(w);
    StartsAlike(w);
    EndsAlike(TrimStart(w, EDGE));
    assert Spaced(Trim(w, EDGE)) by {
      var v := TrimStart(w, EDGE);
      assert TrimEnd(v, EDGE) <= v;
    }
    BlankAlike(Trim(w, EDGE));
    BlankCut(text);
  }

  /** The fallback stands in exactly for what has nothing to show; anything else comes from the tag itself. */
  lemma FallbackExactly(component: Option<Units>, fallback: Units)
    ensures component.None? || Empty(component.value) ==> Sanitize(component, fallback) == Take(fallback, 180)
    ensures component.Some? && !Empty(component.value) ==>
              var kept := Collapsed(Trim(Replaced(component.value), EDGE));
              !Blank(kept) && Sanitize(component, fallback) == Take(kept, 180)
  {
    var text := if component.Some? then component.value else [];
    CleanedIs(text);
    hide Trim;
    hide Collapsed;
    hide Replaced;
  }

  // ---- Sanitizing twice ----

  lemma {:induction false} CollapsedHasSingles(text: Units)
    requires Spaced(text)
    ensures forall i | 0 < i < |Collapsed(text)| :: !(Collapsed(text)[i - 1] == SPACE && Collapsed(text)[i] == SPACE)
    ensures text != [] ==> Collapsed(text) != [] && (Collapsed(text)[0] == SPACE <==> text[0] == SPACE)
    ensures |Collapsed(text)| <= |text|
  {
    if text != [] {
      var rest := text[1..];
      assert forall i | 0 <= i < |rest| :: rest[i] == text[i + 1];
      CollapsedHasSingles(rest);
      var c := Collapsed(text);
      if c != Collapsed(rest) {
        assert c[1..] == Collapsed(rest);
        assert forall i | 0 < i < |c| :: c[i] == Collapsed(rest)[i - 1];
      }
    }
  }

  /** What is kept of a tag, before it is cut to its length. */
  lemma KeptIs(text: Units) returns (kept: Units)
    ensures kept == Collapsed(Trim(Replaced(text), EDGE))
    ensures |kept| <= |text| && forall i | 0 <= i < |kept| :: !Forbidden(kept[i])
    ensures forall i | 0 < i < |kept| :: !(kept[i - 1] == SPACE && kept[i] == SPACE)
    ensures kept != [] ==> kept[0] !in EDGE && kept[|kept| - 1] !in EDGE
  {
    var w := Replaced(text);
    var a, b := TrimCut(w, EDGE);
    kept := Collapsed(w[a..b]);
    assert forall i | 0 <= i < b - a :: w[a..b][i] == w[a + i];
    assert forall i | 0 <= i < |w| :: !Forbidden(w[i]);
    CollapsedHasSingles(w[a..b]);
    CleanedIs(text);
    forall i | 0 <= i < |kept|
      ensures !Forbidden(kept[i])
    {
      assert kept[i] in kept;
    }
    assert kept == Trim(Collapsed(w), EDGE);
    hide Replaced;
    hide Collapsed;
    var c, d := TrimCut(Collapsed(w), EDGE);
    assert c < d ==> kept[0] == Collapsed(w)[c] && kept[|kept| - 1] == Collapsed(w)[d - 1];
  }

  /** A cut can leave a tag that is not tidy: it ends in a space or a dot, or only white space is left. */
  predicate CutWell(text: Units) {
    text != [] && text[|text| - 1] !in {SPACE, STOP} && !Blank(text)
  }

  /** Apart from its end, what is sanitized is tidy. */
  lemma SanitizedIs(component: Option<Units>, fallback: Units)
    requires Tidy(fallback)
    ensures var once := Sanitize(component, fallback);
            && 0 < |once| <= 180 && once[0] !in EDGE && (forall i | 0 <= i < |once| :: !Forbidden(once[i]))
            && (forall i | 0 < i < |once| :: !(once[i - 1] == SPACE && once[i] == SPACE))
    ensures component.None? || |component.value| <= 180 ==> CutWell(Sanitize(component, fallback))
  {
    hide Sanitize;
    hide Replaced;
    hide Collapsed;
    hide Trim;
    hide Forbidden;
    hide Empty;
    FallbackExactly(component, fallback);
    if component.Some? && !Empty(component.value) {
      var kept := KeptIs(component.value);
      assert kept != [];
      var once := Take(kept, 180);
      assert forall i | 0 <= i < |once| :: once[i] == kept[i];
    }
  }

  lemma TidyIs(text: Units)
    requires 0 < |text| <= 180 && text[0] !in EDGE && (forall i | 0 <= i < |text| :: !Forbidden(text[i]))
    requires forall i | 0 < i < |text| :: !(text[i - 1] == SPACE && text[i] == SPACE)
    ensures Tidy(text) <==> CutWell(text)
  {
    hide Forbidden;
    hide Blank;
  }

  /** A tag that was not cut well is sanitized into something else. */
  lemma CutBadly(once: Units, fallback: Units)
    requires Tidy(fallback) && 0 < |once| <= 180 && !CutWell(once)
    ensures Sanitize(Some(once), fallback) != once
  {
    hide Sanitize;
    hide Replaced;
    hide Collapsed;
    hide Trim;
    hide Forbidden;
    FallbackExactly(Some(once), fallback);
    var again := KeptIs(once);
    if Blank(once) {
      assert Empty(once);
    }
  }

  /** What is sanitized is tidy, and sanitizing it again changes nothing, exactly if it was cut well. */
  lemma SanitizedTwice(component: Option<Units>, fallback: Units)
    requires Tidy(fallback)
    ensures var once := Sanitize(component, fallback);
            && (Tidy(once) <==> CutWell(once))
            && (Sanitize(Some(once), fallback) == once <==> CutWell(once))
    ensures component.None? || |component.value| <= 180 ==> CutWell(Sanitize(component, fallback))
  {
    hide Sanitize;
    hide Tidy;
    hide CutWell;
    hide Forbidden;
    var once := Sanitize(component, fallback);
    SanitizedIs(component, fallback);
    TidyIs(once);
    if CutWell(once) {
      TidyStays(once, fallback);
    } else {
      CutBadly(once, fallback);
    }
  }

  /** A long tag whose cut falls behind a space. */
  lemma SanitizedTwiceCanDiffer(fallback: Units) returns (tag: Units)
    requires Tidy(fallback)
    ensures Sanitize(Some(Sanitize(Some(tag), fallback)), fallback) != Sanitize(Some(tag), fallback)
  {
    tag := seq(179, _ => 97) + [SPACE, 98];
    ReplacedStays(tag);
    assert Spaced(tag);
    SinglesStay(tag);
    TrimStays(tag, EDGE);
    assert !KotlinSpace(tag[0]);
    var once := Sanitize(Some(tag), fallback);
    assert once == tag[..180];
    SanitizedTwice(Some(tag), fallback);
  }

  // ---- destination ----

  function LastStop(text: Units): (n: int)
    ensures -1 <= n < |text|
  {
    if text == [] then -1
    else if text[|text| - 1] == STOP then |text| - 1
    else LastStop(text[..|text| - 1])
  }

  function Alphanumeric(text: Units): (r: Units)
    ensures forall u | u in r :: 97 <= u <= 122 || 48 <= u <= 57
  {
    if text == [] then []
    else if 97 <= text[0] <= 122 || 48 <= text[0] <= 57 then [text[0]] + Alphanumeric(text[1..])
    else Alphanumeric(text[1..])
  }

  /** The extension; `lower` is the platform's lowercase for the root locale. */
  function Extension(originalName: Units, lower: Units -> Units): (r: Units)
    ensures r != [] && 47 !in r && 0 !in r
  {
    var n := LastStop(originalName);
    var kept := Alphanumeric(lower(if n < 0 then MP3 else originalName[n + 1..]));
    var extension := if Blank(kept) then MP3 else kept;
    assert extension != [] && 47 !in extension && 0 !in extension;
    Take(extension, 8)
  }

  function TrackPrefix(track: Option<int>): (r: Units)
    ensures 47 !in r && 0 !in r && (r != [] ==> r[0] != STOP)
  {
    if track.Some? && track.value > 0 then
      var digits := Numbers.Decimal(track.value);
      assert forall i | 0 <= i < |digits| :: Numbers.IsDigit(digits[i]);
      (if |digits| < 2 then [48] else []) + digits + [SPACE, 45, SPACE]
    else []
  }

  datatype Tags = Tags(
    albumArtist: Option<Units>,
    artist: Option<Units>,
    album: Option<Units>,
    track: Option<int>,
    title: Option<Units>,
    originalName: Units)

  function Root(musicRoot: Units): (r: Units)
    ensures r != []
  {
    var trimmed := Trim(musicRoot, {47});
    if Blank(trimmed) then MUSIC else trimmed
  }

  function ArtistName(tags: Tags): Units {
    Sanitize(if tags.albumArtist.Some? && !Blank(tags.albumArtist.value) then tags.albumArtist else tags.artist,
             UNKNOWN_ARTIST)
  }

  function AlbumName(tags: Tags): Units {
    Sanitize(tags.album, UNKNOWN_ALBUM)
  }

  function FileName(tags: Tags, lower: Units -> Units): Units {
    var n := LastStop(tags.originalName);
    var base := if n < 0 then tags.originalName else tags.originalName[..n];
    var title := Sanitize(Some(if tags.title.Some? then tags.title.value else base), UNKNOWN_TITLE);
    TrackPrefix(tags.track) + title + [STOP] + Extension(tags.originalName, lower)
  }

  function Destination(musicRoot: Units, tags: Tags, lower: Units -> Units): Units {
    Root(musicRoot) + [47] + (ArtistName(tags) + [47] + (AlbumName(tags) + [47] + FileName(tags, lower)))
  }

  // ---- Tidy tags are the names of a destination ----

  lemma {:induction false} LastStopIs(stem: Units, extension: Units)
    requires STOP !in extension
    ensures LastStop(stem + [STOP] + extension) == |stem|
    decreases |extension|
  {
    var text := stem + [STOP] + extension;
    if extension == [] {
      assert text[|text| - 1] == STOP;
    } else {
      var front := extension[..|extension| - 1];
      assert text[..|text| - 1] == stem + [STOP] + front && text[|text| - 1] == extension[|extension| - 1];
      LastStopIs(stem, front);
    }
  }

  lemma {:induction false} NoStop(text: Units)
    requires STOP !in text
    ensures LastStop(text) == -1
  {
    if text != [] {
      NoStop(text[..|text| - 1]);
    }
  }

  /** A name as its stem and its extension: what is behind the last dot, or "mp3" if there is none. */
  predicate Named(originalName: Units, stem: Units, extension: Units) {
    if STOP in originalName then originalName == stem + [STOP] + extension && STOP !in extension
    else stem == originalName && extension == MP3
  }

  predicate AllAlphanumeric(text: Units) {
    forall i | 0 <= i < |text| :: 97 <= text[i] <= 122 || 48 <= text[i] <= 57
  }

  lemma {:induction false} AlphanumericStays(text: Units)
    requires AllAlphanumeric(text)
    ensures Alphanumeric(text) == text
  {
    if text != [] {
      assert forall i | 0 <= i < |text| - 1 :: text[1..][i] == text[i + 1];
      AlphanumericStays(text[1..]);
    }
  }

  lemma NamedParts(originalName: Units, stem: Units, extension: Units)
    requires Named(originalName, stem, extension)
    ensures var n := LastStop(originalName);
            && stem == (if n < 0 then originalName else originalName[..n])
            && extension == (if n < 0 then MP3 else originalName[n + 1..])
  {
    hide LastStop;
    if STOP in originalName {
      LastStopIs(stem, extension);
    } else {
      NoStop(originalName);
    }
  }

  lemma ExtensionStays(originalName: Units, stem: Units, extension: Units, lower: Units -> Units)
    requires Named(originalName, stem, extension)
    requires 0 < |lower(extension)| <= 8 && AllAlphanumeric(lower(extension))
    ensures Extension(originalName, lower) == lower(extension)
  {
    NamedParts(originalName, stem, extension);
    AlphanumericStays(lower(extension));
    assert !KotlinSpace(lower(extension)[0]);
    hide LastStop;
    hide Named;
    hide Alphanumeric;
  }

  /** A name whose extension has nothing to keep counts as an MP3 file. */
  lemma ExtensionDefaults(originalName: Units, stem: Units, extension: Units, lower: Units -> Units)
    requires Named(originalName, stem, extension)
    requires forall i | 0 <= i < |lower(extension)| :: !AllAlphanumeric([lower(extension)[i]])
    ensures Extension(originalName, lower) == MP3
  {
    NamedParts(originalName, stem, extension);
    NothingAlphanumeric(lower(extension));
    hide LastStop;
    hide Named;
    hide Alphanumeric;
  }

  lemma {:induction false} NothingAlphanumeric(text: Units)
    requires forall i | 0 <= i < |text| :: !AllAlphanumeric([text[i]])
    ensures Alphanumeric(text) == []
  {
    if text != [] {
      assert !AllAlphanumeric([text[0]]);
      assert forall i | 0 <= i < |text| - 1 :: text[1..][i] == text[i + 1];
      NothingAlphanumeric(text[1..]);
    }
  }

  /** The number of a track: two digits at least, and a dash behind them. */
  predicate IsPrefix(prefix: Units, track: Option<int>) {
    if track.None? || track.value <= 0 then prefix == []
    else if track.value < 10 then prefix == [48, 48 + track.value, SPACE, 45, SPACE]
    else prefix == Numbers.Decimal(track.value) + [SPACE, 45, SPACE]
  }

  lemma PrefixIs(track: Option<int>)
    ensures IsPrefix(TrackPrefix(track), track)
  {
    if track.Some? && track.value >= 10 {
      assert |Numbers.Decimal(track.value)| >= 2;
    }
  }

  lemma RootStays(before: Units, root: Units, after: Units)
    requires root != [] && !Blank(root) && root[0] != 47 && root[|root| - 1] != 47
    requires (forall u | u in before :: u == 47) && (forall u | u in after :: u == 47)
    ensures Root(before + root + after) == root
  {
    var text := before + root + after;
    var a, b := TrimCut(text, {47});
    hide Trim;
    assert text[|before|] == root[0] && text[|before| + |root| - 1] == root[|root| - 1];
    assert forall i | 0 <= i < |before| :: text[i] == before[i] && before[i] in before;
    assert forall i | 0 <= i < |after| :: text[|before| + |root| + i] == after[i] && after[i] in after;
    assert a == |before| && b == |before| + |root|;
    assert text[a..b] == root;
  }

  /** Who the album is filed under. */
  function Artist(tags: Tags): Option<Units> {
    if tags.albumArtist.Some? && !Blank(tags.albumArtist.value) then tags.albumArtist else tags.artist
  }

  function Title(tags: Tags, stem: Units): Units { if tags.title.Some? then tags.title.value else stem }

  /**
   Tidy tags make the destination: under the root, without slashes around it, the artist, the album, and the
   file with its number, title and extension, in this order and unchanged.
   */
  lemma DestinationFollowsTags(before: Units, root: Units, after: Units, tags: Tags, stem: Units, extension: Units,
                               lower: Units -> Units)
    returns (prefix: Units)
    requires root != [] && !Blank(root) && root[0] != 47 && root[|root| - 1] != 47
    requires (forall u | u in before :: u == 47) && (forall u | u in after :: u == 47)
    requires Named(tags.originalName, stem, extension)
    requires 0 < |lower(extension)| <= 8 && AllAlphanumeric(lower(extension))
    requires Artist(tags).Some? && Tidy(Artist(tags).value) && tags.album.Some? && Tidy(tags.album.value)
    requires Tidy(Title(tags, stem))
    ensures IsPrefix(prefix, tags.track)
    ensures var file := prefix + Title(tags, stem) + [STOP] + lower(extension);
            var path := Destination(before + root + after, tags, lower);
            && path == root + [47] + Artist(tags).value + [47] + tags.album.value + [47] + file
            && Split(Utf8(path), SLASH) ==
                 Split(Utf8(root), SLASH) + [Utf8(Artist(tags).value), Utf8(tags.album.value), Utf8(file)]
  {
    hide Utf8;
    hide Tidy;
    hide Blank;
    hide Sanitize;
    hide Extension;
    hide TrackPrefix;
    hide LastStop;
    hide Named;
    hide IsPrefix;
    hide SplitFrom;
    hide Join;
    prefix := TrackPrefix(tags.track);
    PrefixIs(tags.track);
    RootStays(before, root, after);
    hide Root;
    ExtensionStays(tags.originalName, stem, extension, lower);
    NamedParts(tags.originalName, stem, extension);
    TidyStays(Artist(tags).value, UNKNOWN_ARTIST);
    TidyStays(tags.album.value, UNKNOWN_ALBUM);
    TidyStays(Title(tags, stem), UNKNOWN_TITLE);
    DestinationBytes(before + root + after, tags, lower);
    SplitUnder(Utf8(root), Names(tags, lower));
  }

  // ---- Every planned destination is acceptable ----

  lemma JoinedIsClean(prefix: Units, title: Units, extension: Units)
    requires Clean(title) && 47 !in prefix && 0 !in prefix && (prefix != [] ==> prefix[0] != STOP)
    requires 47 !in extension && 0 !in extension
    ensures Clean(prefix + title + [STOP] + extension)
  {
    assert (prefix + title + [STOP] + extension)[0] == if prefix != [] then prefix[0] else title[0];
  }

  lemma NamesAreClean(tags: Tags, lower: Units -> Units)
    ensures Clean(ArtistName(tags)) && Clean(AlbumName(tags)) && Clean(FileName(tags, lower))
  {
    hide Sanitize;
    hide Extension;
    hide TrackPrefix;
    hide LastStop;
    hide Blank;
    var chosen := if tags.albumArtist.Some? && !Blank(tags.albumArtist.value) then tags.albumArtist else tags.artist;
    SanitizeIsClean(chosen, UNKNOWN_ARTIST);
    SanitizeIsClean(tags.album, UNKNOWN_ALBUM);
    var n := LastStop(tags.originalName);
    var base := if n < 0 then tags.originalName else tags.originalName[..n];
    var title := Some(if tags.title.Some? then tags.title.value else base);
    SanitizeIsClean(title, UNKNOWN_TITLE);
    JoinedIsClean(TrackPrefix(tags.track), Sanitize(title, UNKNOWN_TITLE), Extension(tags.originalName, lower));
  }

  lemma {:induction false} CleanIsOrdinary(name: Units)
    requires Clean(name)
    ensures Ordinary(Utf8(name)) && Plain(Utf8(name), SLASH) && 0 !in Utf8(name)
  {
    Utf8First(name);
    Utf8Has(name, SLASH);
    Utf8Has(name, 0);
  }

  function Names(tags: Tags, lower: Units -> Units): Path {
    [Utf8(ArtistName(tags)), Utf8(AlbumName(tags)), Utf8(FileName(tags, lower))]
  }

  /** The names below the root are ordinary, and joined to it with slashes. */
  lemma DestinationBytes(musicRoot: Units, tags: Tags, lower: Units -> Units)
    ensures var names := Names(tags, lower);
            && AllOrdinary(names) && AllPlain(names, SLASH)
            && 0 !in Join(names, SLASH)
            && Utf8(Destination(musicRoot, tags, lower)) ==
                 Utf8(Root(musicRoot)) + [SLASH] + Join(names, SLASH)
  {
    hide ArtistName;
    hide AlbumName;
    hide FileName;
    hide Root;
    hide Clean;
    hide Utf8;
    hide Ordinary;
    hide Join;
    var artist, album, file := ArtistName(tags), AlbumName(tags), FileName(tags, lower);
    NamesAreClean(tags, lower);
    CleanIsOrdinary(artist);
    CleanIsOrdinary(album);
    CleanIsOrdinary(file);
    Utf8Cut(Root(musicRoot), 47, artist + [47] + (album + [47] + file));
    Utf8Cut(artist, 47, album + [47] + file);
    Utf8Cut(album, 47, file);
    JoinThree(Utf8(artist), Utf8(album), Utf8(file));
  }

  lemma {:induction false} SplitUnder(root: seq<byte>, names: Path)
    requires names != [] && AllPlain(names, SLASH)
    ensures Split(root + [SLASH] + Join(names, SLASH), SLASH) == Split(root, SLASH) + names
  {
    var rest := Join(names, SLASH);
    var path := root + [SLASH] + rest;
    SplitJoin(names, SLASH);
    SplitAt(path, SLASH, 0, |root|);
    SplitShift(root + [SLASH], rest, SLASH, 0);
    assert path[..|root|] == root;
  }

  lemma JoinThree(a: seq<byte>, b: seq<byte>, c: seq<byte>)
    ensures Join([a, b, c], SLASH) == a + [SLASH] + (b + [SLASH] + c)
  {
    assert [a, b, c][1..] == [b, c] && [b, c][1..] == [c];
    assert Join([b, c], SLASH) == b + [SLASH] + c;
  }

  /**
   Whatever the tags say, the service accepts the destination, and understands it as the very
   path that was planned, exactly when the music root is acceptable and the whole fits.
   */
  lemma DestinationAccepted(musicRoot: Units, tags: Tags, lower: Units -> Units)
    ensures var root, path := Utf8(Root(musicRoot)), Utf8(Destination(musicRoot, tags, lower));
            && 0 !in Base64.ProtocolEncode(path)
            && (DecodeArgument(Base64.ProtocolEncode(path), false) == Ok(path) <==>
                  && 0 !in root
                  && Verdict(root, false, false) == None
                  && |path| <= MAX_RELATIVE_PATH)
  {
    var root, path, names := Utf8(Root(musicRoot)), Utf8(Destination(musicRoot, tags, lower)), Names(tags, lower);
    DestinationBytes(musicRoot, tags, lower);
    Utf8First(Root(musicRoot));
    Base64.DecodedEncoded(path);
    Base64.EncodedIsCString(path);
    assert |Base64.Encoded(path)| == (4 * |path| + 2) / 3;
    hide Utf8;
    hide Destination;
    hide Names;
    hide Join;
    hide Base64.Encoded;
    hide Base64.ProtocolEncode;
    hide Base64.Decoded;
    SplitUnder(root, names);
    if 0 !in root && |path| <= MAX_RELATIVE_PATH {
      SameVerdict(root, path, names);
    }
    hide Verdict;
  }

  lemma SameVerdict(root: seq<byte>, path: seq<byte>, names: Path)
    requires root != [] && path != [] && 0 !in root && 0 !in path
    requires Split(path, SLASH) == Split(root, SLASH) + names && AllOrdinary(names)
    requires |root| <= |path| <= MAX_RELATIVE_PATH
    ensures Verdict(path, false, false) == None <==> Verdict(root, false, false) == None
  {
    hide Split;
    var a, b := Split(root, SLASH), Split(path, SLASH);
    assert b[0] == a[0];
    assert forall i | 0 <= i < |a| :: b[i] == a[i];
    assert forall i | |a| <= i < |b| :: b[i] == names[i - |a|];
    assert AllOrdinary(a) <==> AllOrdinary(b);
  }
}
