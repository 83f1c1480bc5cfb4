/** ota_update.in: what prepare_ota_tree prints and what parse_ota_metadata reads. */
module OtaMetadata {
  import opened Bytes
  import opened Numbers
  import opened PythonText
  import opened OtaChunks
  import Text

  const EQUALS: byte := 61

  // "img_type", "img_name", "img_size", "img_md5", "ota_version"
  const IMG_TYPE: seq<byte> := [105, 109, 103, 95, 116, 121, 112, 101]
  const IMG_NAME: seq<byte> := [105, 109, 103, 95, 110, 97, 109, 101]
  const IMG_SIZE: seq<byte> := [105, 109, 103, 95, 115, 105, 122, 101]
  const IMG_MD5: seq<byte> := [105, 109, 103, 95, 109, 100, 53]
  const OTA_VERSION: seq<byte> := [111, 116, 97, 95, 118, 101, 114, 115, 105, 111, 110]

  /** Size and digest of every image, by name. */
  type Images = map<seq<byte>, (int, seq<byte>)>

  type Fields = map<seq<byte>, seq<byte>>

  datatype Reading = Reading(images: Images, current: Fields)

  /** The end of an entry. */
  function Close(reading: Reading): Option<Reading> {
    var current := reading.current;
    if !({IMG_TYPE, IMG_NAME, IMG_SIZE, IMG_MD5} <= current.Keys) then None
    else if current[IMG_NAME] in reading.images then None
    else if ParseInt(current[IMG_SIZE]).None? || !IsHex(current[IMG_MD5]) then None
    else Some(Reading(reading.images[current[IMG_NAME] := (ParseInt(current[IMG_SIZE]).value, current[IMG_MD5])], map[]))
  }

  /** What one line does. */
  function Take(reading: Reading, raw: Line): Option<Reading> {
    var line := Strip(raw);
    var equals := Text.Next(line, EQUALS, 0);
    if equals < |line| then
      var key, value := line[..equals], line[equals + 1..];
      if key == IMG_TYPE then
        if reading.current != map[] then None else Some(reading.(current := map[key := value]))
      else if reading.current != map[] then Some(reading.(current := reading.current[key := value]))
      else Some(reading)
    else if reading.current != map[] then Close(reading)
    else Some(reading)
  }

  /** All lines from position k on. */
  function TakeFrom(reading: Reading, lines: seq<Line>, k: nat): Option<Reading>
    requires k <= |lines|
    decreases |lines| - k
  {
    if k == |lines| then Some(reading)
    else
      match Take(reading, lines[k])
      case None => None
      case Some(next) => TakeFrom(next, lines, k + 1)
  }

  function Parsed(text: seq<byte>): Option<Images> {
    match TakeFrom(Reading(map[], map[]), SplitLines(text) + [[]], 0)
    case None => None
    case Some(reading) => if reading.images == map[] then None else Some(reading.images)
  }

  // ---- Printing ----

  datatype Entry = Entry(kind: seq<byte>, name: seq<byte>, size: nat, md5: seq<byte>) {
    /** What makes an entry survive: one line per value, nothing to strip at its end. */
    predicate Valid() {
      Solid(kind) && Solid(name) && IsHex(md5)
    }

    function Lines(): seq<Line> {
      [IMG_TYPE + [EQUALS] + kind, IMG_NAME + [EQUALS] + name,
       IMG_SIZE + [EQUALS] + Decimal(size), IMG_MD5 + [EQUALS] + md5, []]
    }
  }

  /** A value without line breaks that does not end in a blank. */
  predicate Solid(value: seq<byte>) {
    value != [] && Unbroken(value) && !IsBlank(value[|value| - 1])
  }

  function AllLines(entries: seq<Entry>): seq<Line> {
    if entries == [] then [] else entries[0].Lines() + AllLines(entries[1..])
  }

  /** The text that prepare_ota_tree writes. */
  function Printed(version: nat, entries: seq<Entry>): seq<byte> {
    Text.Join([OTA_VERSION + [EQUALS] + Decimal(version), []] + AllLines(entries) + [[]], NEWLINE)
  }

  lemma FieldLine(key: seq<byte>, value: seq<byte>)
    requires key != [] && Unbroken(key) && !IsBlank(key[0]) && EQUALS !in key && Solid(value)
    ensures var line := key + [EQUALS] + value;
            && Unbroken(line) && Strip(line) == line
            && Text.Next(line, EQUALS, 0) == |key| && line[..|key|] == key && line[|key| + 1..] == value
  {
    var line := key + [EQUALS] + value;
    StripNothing(line);
    Text.NextIs(line, EQUALS, 0, |key|);
    assert forall i | 0 <= i < |line| :: line[i] == if i < |key| then key[i] else if i == |key| then EQUALS else value[i - |key| - 1];
  }

  lemma {:induction false} DecimalIsSolid(n: nat)
    ensures Solid(Decimal(n))
  {
    var text := Decimal(n);
    assert forall i | 0 <= i < |text| :: IsDigit(text[i]);
  }

  lemma HexIsSolid(md5: seq<byte>)
    requires IsHex(md5)
    ensures Solid(md5)
  {
  }

  lemma TakeField(reading: Reading, key: seq<byte>, value: seq<byte>)
    requires key in {IMG_NAME, IMG_SIZE, IMG_MD5} && Solid(value) && reading.current != map[]
    ensures Take(reading, key + [EQUALS] + value) == Some(reading.(current := reading.current[key := value]))
    ensures Unbroken(key + [EQUALS] + value)
  {
    FieldLine(key, value);
    hide Strip;
  }

  /** An entry is read as it was printed. */
  lemma {:induction false} EntryParses(images: Images, entry: Entry, lines: seq<Line>, k: nat)
    requires entry.Valid() && entry.name !in images && k + 5 <= |lines| && lines[k..k + 5] == entry.Lines()
    ensures TakeFrom(Reading(images, map[]), lines, k) ==
              TakeFrom(Reading(images[entry.name := (entry.size, entry.md5)], map[]), lines, k + 5)
  {
    var all := entry.Lines();
    assert lines[k] == all[0] && lines[k + 1] == all[1] && lines[k + 2] == all[2] && lines[k + 3] == all[3] && lines[k + 4] == all[4];
    FieldLine(IMG_TYPE, entry.kind);
    DecimalIsSolid(entry.size);
    HexIsSolid(entry.md5);
    ParseIntDecimal(entry.size);
    hide Decimal;
    hide ParseInt;
    var a := map[IMG_TYPE := entry.kind];
    var b := a[IMG_NAME := entry.name];
    var c := b[IMG_SIZE := Decimal(entry.size)];
    var d := c[IMG_MD5 := entry.md5];
    assert IMG_TYPE in a && IMG_TYPE in b && IMG_TYPE in c;
    TakeField(Reading(images, a), IMG_NAME, entry.name);
    TakeField(Reading(images, b), IMG_SIZE, Decimal(entry.size));
    TakeField(Reading(images, c), IMG_MD5, entry.md5);
    assert Take(Reading(images, map[]), lines[k]) == Some(Reading(images, a));
    assert Strip([]) == [];
    assert Take(Reading(images, d), lines[k + 4]) == Close(Reading(images, d));
    assert Close(Reading(images, d)) == Some(Reading(images[entry.name := (entry.size, entry.md5)], map[]));
    hide Take;
    hide Close;
    FiveLines(lines, k, Reading(images, map[]), Reading(images, a), Reading(images, b), Reading(images, c),
              Reading(images, d), Reading(images[entry.name := (entry.size, entry.md5)], map[]));
  }

  lemma {:induction false} FiveLines(lines: seq<Line>, k: nat, r0: Reading, r1: Reading, r2: Reading, r3: Reading,
                                     r4: Reading, r5: Reading)
    requires k + 5 <= |lines|
    requires Take(r0, lines[k]) == Some(r1) && Take(r1, lines[k + 1]) == Some(r2) && Take(r2, lines[k + 2]) == Some(r3)
    requires Take(r3, lines[k + 3]) == Some(r4) && Take(r4, lines[k + 4]) == Some(r5)
    ensures TakeFrom(r0, lines, k) == TakeFrom(r5, lines, k + 5)
  {
    hide Take;
    assert TakeFrom(r0, lines, k) == TakeFrom(r1, lines, k + 1) == TakeFrom(r2, lines, k + 2);
    assert TakeFrom(r2, lines, k + 2) == TakeFrom(r3, lines, k + 3) == TakeFrom(r4, lines, k + 4);
  }

  lemma SliceAfter<T>(a: seq<T>, b: seq<T>, i: nat, j: nat)
    requires i <= j <= |b|
    ensures (a + b)[|a| + i..|a| + j] == b[i..j]
  {
  }

  lemma {:induction false} BlockAt(entries: seq<Entry>, i: nat)
    requires i < |entries|
    ensures |AllLines(entries)| == 5 * |entries| && AllLines(entries)[5 * i..5 * i + 5] == entries[i].Lines()
  {
    if |entries| > 1 {
      BlockAt(entries[1..], if i > 0 then i - 1 else 0);
    }
    if i > 0 {
      SliceAfter(entries[0].Lines(), AllLines(entries[1..]), 5 * (i - 1), 5 * (i - 1) + 5);
    }
  }

  ghost predicate Distinct(entries: seq<Entry>) {
    forall i, j | 0 <= i < j < |entries| :: entries[i].name != entries[j].name
  }

  /** The images are those of the first n entries. */
  ghost predicate Holds(images: Images, entries: seq<Entry>, n: nat)
    requires n <= |entries|
  {
    && (forall name | name in images :: exists i | 0 <= i < n :: entries[i].name == name)
    && (forall i | 0 <= i < n :: entries[i].name in images && images[entries[i].name] == (entries[i].size, entries[i].md5))
  }

  /** The entries are printed from line k on. */
  ghost predicate PrintedAt(lines: seq<Line>, k: nat, entries: seq<Entry>) {
    && k + 5 * |entries| <= |lines|
    && forall i | 0 <= i < |entries| :: entries[i].Valid() && lines[k + 5 * i..k + 5 * i + 5] == entries[i].Lines()
  }

  lemma HoldsStep(images: Images, entries: seq<Entry>, n: nat)
    requires n < |entries| && Distinct(entries) && Holds(images, entries, n)
    ensures entries[n].name !in images
    ensures Holds(images[entries[n].name := (entries[n].size, entries[n].md5)], entries, n + 1)
  {
  }

  lemma {:induction false} EntriesParse(images: Images, entries: seq<Entry>, lines: seq<Line>, k: nat, n: nat)
    returns (final: Images)
    requires n <= |entries| && Distinct(entries) && Holds(images, entries, n) && PrintedAt(lines, k, entries)
    ensures k + 5 * |entries| <= |lines| && Holds(final, entries, |entries|)
    ensures TakeFrom(Reading(images, map[]), lines, k + 5 * n) ==
              TakeFrom(Reading(final, map[]), lines, k + 5 * |entries|)
    decreases |entries| - n
  {
    final := images;
    if n < |entries| {
      var entry := entries[n];
      HoldsStep(images, entries, n);
      assert lines[k + 5 * n..k + 5 * n + 5] == entry.Lines();
      EntryParses(images, entry, lines, k + 5 * n);
      hide PrintedAt;
      hide TakeFrom;
      hide Holds;
      hide Distinct;
      final := EntriesParse(images[entry.name := (entry.size, entry.md5)], entries, lines, k, n + 1);
    }
  }

  lemma FilePrinted(version: nat, entries: seq<Entry>)
    requires forall i | 0 <= i < |entries| :: entries[i].Valid()
    ensures var lines := FileLines(version, entries) + [[]];
            |lines| == 3 + 5 * |entries| && PrintedAt(lines, 2, entries)
  {
    var lines, body := FileLines(version, entries) + [[]], AllLines(entries);
    if entries != [] {
      BlockAt(entries, 0);
    }
    forall i | 0 <= i < |entries|
      ensures lines[2 + 5 * i..2 + 5 * i + 5] == entries[i].Lines()
    {
      BlockAt(entries, i);
      assert lines[2 + 5 * i..2 + 5 * i + 5] == body[5 * i..5 * i + 5];
    }
  }

  lemma {:induction false} AllUnbroken(entries: seq<Entry>, i: nat)
    requires forall j | 0 <= j < |entries| :: entries[j].Valid()
    requires i < |AllLines(entries)|
    ensures Unbroken(AllLines(entries)[i])
  {
    if entries != [] {
      var n := i / 5;
      BlockAt(entries, 0);
      BlockAt(entries, n);
      var entry, block := entries[n], AllLines(entries)[5 * n..5 * n + 5];
      assert AllLines(entries)[i] == block[i - 5 * n];
      DecimalIsSolid(entry.size);
      HexIsSolid(entry.md5);
      FieldLine(IMG_TYPE, entry.kind);
      FieldLine(IMG_NAME, entry.name);
      FieldLine(IMG_SIZE, Decimal(entry.size));
      FieldLine(IMG_MD5, entry.md5);
    }
  }

  /** The lines of the file: the version, an empty line, the entries. */
  function FileLines(version: nat, entries: seq<Entry>): seq<Line> {
    [OTA_VERSION + [EQUALS] + Decimal(version), []] + AllLines(entries)
  }

  lemma PrintedLines(version: nat, entries: seq<Entry>)
    requires forall i | 0 <= i < |entries| :: entries[i].Valid()
    ensures SplitLines(Printed(version, entries)) == FileLines(version, entries)
  {
    var lines := FileLines(version, entries);
    DecimalIsSolid(version);
    FieldLine(OTA_VERSION, Decimal(version));
    forall i | 0 <= i < |lines|
      ensures Unbroken(lines[i])
    {
      if i >= 2 {
        AllUnbroken(entries, i - 2);
      }
    }
    JoinWithEmpty(lines);
    JoinedIsTerminated(lines);
    SplitTerminated(lines);
  }

  lemma {:induction false} JoinWithEmpty(lines: seq<Line>)
    requires |lines| > 0
    ensures Text.Join(lines + [[]], NEWLINE) == Text.Join(lines, NEWLINE) + [NEWLINE]
  {
    assert (lines + [[]])[1..] == lines[1..] + [[]];
    if |lines| > 1 {
      JoinWithEmpty(lines[1..]);
    }
  }

  /** What is printed about any images is what is read about them. */
  lemma PrintedParses(version: nat, entries: seq<Entry>)
    requires |entries| > 0 && Distinct(entries) && forall i | 0 <= i < |entries| :: entries[i].Valid()
    ensures Parsed(Printed(version, entries)).Some? && Holds(Parsed(Printed(version, entries)).value, entries, |entries|)
  {
    PrintedLines(version, entries);
    FilePrinted(version, entries);
    FirstLines(version, entries);
    var lines := FileLines(version, entries) + [[]];
    hide Printed;
    hide SplitLines;
    hide FileLines;
    hide TakeFrom;
    hide PrintedAt;
    var final := EntriesParse(map[], entries, lines, 2, 0);
    assert entries[0].name in final;
    LastLine(lines, final);
  }

  /** The version line and the empty line are passed over. */
  lemma FirstLines(version: nat, entries: seq<Entry>)
    ensures var lines, start := FileLines(version, entries) + [[]], Reading(map[], map[]);
            TakeFrom(start, lines, 0) == TakeFrom(start, lines, 2)
  {
    var lines, start := FileLines(version, entries) + [[]], Reading(map[], map[]);
    DecimalIsSolid(version);
    FieldLine(OTA_VERSION, Decimal(version));
    assert Strip([]) == [];
    assert Take(start, lines[0]) == Some(start) && Take(start, lines[1]) == Some(start);
    hide Take;
    assert TakeFrom(start, lines, 0) == TakeFrom(start, lines, 1) == TakeFrom(start, lines, 2);
  }

  lemma {:induction false} LastLine(lines: seq<Line>, images: Images)
    requires |lines| > 0 && lines[|lines| - 1] == []
    ensures TakeFrom(Reading(images, map[]), lines, |lines| - 1) == Some(Reading(images, map[]))
  {
    assert Strip([]) == [];
    assert Take(Reading(images, map[]), []) == Some(Reading(images, map[]));
    hide Take;
  }

  /** What prepare_ota_tree may have printed: at least one image, one entry for each. */
  ghost predicate Printable(entries: seq<Entry>) {
    |entries| > 0 && Distinct(entries) && forall i | 0 <= i < |entries| :: entries[i].Valid()
  }

  lemma PrintedIsRead(text: seq<byte>)
    ensures forall version: nat, entries: seq<Entry> | text == Printed(version, entries) && Printable(entries) ::
              Parsed(text).Some? && Holds(Parsed(text).value, entries, |entries|)
  {
    hide Parsed;
    hide Printed;
    hide Holds;
    hide Distinct;
    forall version: nat, entries: seq<Entry> | text == Printed(version, entries) && Printable(entries)
      ensures Parsed(text).Some? && Holds(Parsed(text).value, entries, |entries|)
    {
      PrintedParses(version, entries);
    }
  }

  /** parse_ota_metadata */
  method ParseOtaMetadata(text: seq<byte>) returns (r: Option<Images>)
    ensures r == Parsed(text)
    ensures forall version: nat, entries: seq<Entry> | text == Printed(version, entries) && Printable(entries) ::
              r.Some? && Holds(r.value, entries, |entries|)
  {
    hide Printable;
    hide Printed;
    hide Holds;
    PrintedIsRead(text);
    hide SplitLines;
    hide Strip;
    var lines := SplitLines(text) + [[]];
    var images: Images, current: Fields := map[], map[];
    for next := 0 to |lines|
      invariant TakeFrom(Reading(map[], map[]), lines, 0) == TakeFrom(Reading(images, current), lines, next)
    {
      var line := Strip(lines[next]);
      var equals := Text.Next(line, EQUALS, 0);
      if equals < |line| {
        var key, value := line[..equals], line[equals + 1..];
        if key == IMG_TYPE {
          if current != map[] {
            return None;
          }
          current := map[key := value];
        } else if current != map[] {
          current := current[key := value];
        }
      } else if current != map[] {
        var closed := Close(Reading(images, current));
        if closed.None? {
          return None;
        }
        images, current := closed.value.images, map[];
      }
    }
    return if images == map[] then None else Some(images);
  }
}
