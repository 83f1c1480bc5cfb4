/** The key=value record that sits beside every trashed item and every staged upload. */
module Metadata {
  import opened Bytes
  import opened Text
  import opened Paths
  import opened Numbers
  import Base64

  const NEWLINE: byte := 10
  const EQUALS: byte := 61
  const CAPACITY := 2 * PATH_MAX

  // "path", "size", "policy"
  const PATH: seq<byte> := [112, 97, 116, 104]
  const SIZE: seq<byte> := [115, 105, 122, 101]
  const POLICY: seq<byte> := [112, 111, 108, 105, 99, 121]

  function Line(key: seq<byte>, value: seq<byte>): seq<byte> {
    key + [EQUALS] + value
  }

  /** What write_metadata prints. */
  function Record(path: seq<byte>, size: nat, policy: seq<byte>): seq<byte> {
    Join([Line(PATH, Base64.Encoded(path)), Line(SIZE, Decimal(size)), Line(POLICY, policy), []], NEWLINE)
  }

  /** What read_text_at makes of a file, as a C string. */
  function ReadText(content: seq<byte>): Result<CString> {
    if |content| >= CAPACITY - 1 then Err(EOVERFLOW)
    else
      var n := Next(content, 0, 0);
      assert 0 !in content[..n];
      Ok(content[..n])
  }

  /** The value of the first line that has this key. */
  function FieldIn(lines: seq<seq<byte>>, key: seq<byte>): Option<seq<byte>> {
    if lines == [] then None
    else
      var equals := Next(lines[0], EQUALS, 0);
      if equals < |lines[0]| && lines[0][..equals] == key then Some(lines[0][equals + 1..])
      else FieldIn(lines[1..], key)
  }

  function Field(text: seq<byte>, key: seq<byte>, capacity: nat): Result<seq<byte>> {
    match FieldIn(Split(text, NEWLINE), key)
    case None => Err(EINVAL)
    case Some(value) => if |value| < capacity then Ok(value) else Err(ENAMETOOLONG)
  }

  /** The line that ends at `end` either is the field or may be passed over. */
  lemma FieldStep(text: seq<byte>, key: seq<byte>, cursor: nat, end: nat)
    requires cursor <= end <= |text| && (end < |text| ==> text[end] == NEWLINE)
    requires forall i | cursor <= i < end :: text[i] != NEWLINE
    ensures var line := text[cursor..end];
            var equals := Next(line, EQUALS, 0);
            FieldIn(SplitFrom(text, NEWLINE, cursor), key) ==
              (if equals < |line| && line[..equals] == key then Some(line[equals + 1..])
               else if end == |text| then None
               else FieldIn(SplitFrom(text, NEWLINE, end + 1), key))
  {
    NextIs(text, NEWLINE, cursor, end);
    if end < |text| {
      assert SplitFrom(text, NEWLINE, cursor)[1..] == SplitFrom(text, NEWLINE, end + 1);
    } else {
      assert SplitFrom(text, NEWLINE, cursor)[1..] == [];
    }
  }

  /** metadata_field: the strtok_r loop, which passes over empty lines. */
  method MetadataField(text: CString, key: seq<byte>, capacity: nat) returns (r: Result<seq<byte>>)
    ensures r == Field(text, key, capacity)
  {
    var cursor := 0;
    hide SplitFrom;
    assert FieldIn(SplitFrom(text, NEWLINE, |text|), key) == None by {
      NextIs(text, NEWLINE, |text|, |text|);
      FieldStep(text, key, |text|, |text|);
    }
    hide FieldIn;
    while cursor < |text|
      invariant cursor <= |text|
      invariant FieldIn(Split(text, NEWLINE), key) == FieldIn(SplitFrom(text, NEWLINE, cursor), key)
    {
      var end := cursor;
      while end < |text| && text[end] != NEWLINE
        invariant cursor <= end <= |text|
        invariant forall i | cursor <= i < end :: text[i] != NEWLINE
      {
        end := end + 1;
      }
      var line := text[cursor..end];
      FieldStep(text, key, cursor, end);
      var equals := Next(line, EQUALS, 0);
      if equals < |line| && line[..equals] == key {
        var value := line[equals + 1..];
        return if |value| < capacity then Ok(value) else Err(ENAMETOOLONG);
      }
      if end == |text| {
        return Err(EINVAL);
      }
      cursor := end + 1;
    }
    return Err(EINVAL);
  }

  /** metadata_path: the decoded path, if it is one that may be used. */
  function MetadataPath(content: seq<byte>): Result<CString> {
    match ReadText(content)
    case Err(e) => Err(e)
    case Ok(text) =>
      match Field(text, PATH, CAPACITY)
      case Err(e) => Err(e)
      case Ok(encoded) => DecodePath(encoded, PATH_MAX)
  }

  /** Decoding and checking, as metadata_path does after it found the field. */
  function DecodePath(encoded: seq<byte>, capacity: nat): Result<CString> {
    if 0 in encoded then Err(EINVAL)
    else
      match Base64.Decoded(encoded)
      case Err(e) => Err(e)
      case Ok(path) =>
        if |path| >= capacity then Err(ENAMETOOLONG)
        else if 0 in path then Err(EINVAL)
        else
          match Verdict(path, false, false)
          case Some(e) => Err(e)
          case None => Ok(path)
  }

  /** decode_path: what every command makes of a path argument. */
  function DecodeArgument(argument: CString, allowRoot: bool): Result<CString> {
    match Base64.Decoded(argument)
    case Err(e) => Err(e)
    case Ok(path) =>
      if 0 in path then Err(EINVAL)
      else
        match Verdict(path, allowRoot, false)
        case Some(e) => Err(e)
        case None => Ok(path)
  }

  datatype Upload = Upload(destination: CString, size: nat, policy: seq<byte>)

  /** upload_metadata */
  function UploadMetadata(content: seq<byte>): Result<Upload> {
    match MetadataPath(content)
    case Err(e) => Err(e)
    case Ok(path) =>
      var text := ReadText(content).value;
      match Field(text, SIZE, 64)
      case Err(_) => Err(EINVAL)
      case Ok(sizeText) =>
        if 0 in sizeText || ParseSize(sizeText).Err? then Err(EINVAL)
        else
          match Field(text, POLICY, 16)
          case Err(e) => Err(e)
          case Ok(policy) => Ok(Upload(path, ParseSize(sizeText).value, policy))
  }

  // ---- What is written is read back ----

  lemma LineHasKey(key: seq<byte>, value: seq<byte>)
    requires EQUALS !in key
    ensures var equals := Next(Line(key, value), EQUALS, 0);
            && equals == |key|
            && Line(key, value)[..equals] == key
            && Line(key, value)[equals + 1..] == value
  {
    NextIs(Line(key, value), EQUALS, 0, |key|);
  }

  lemma RecordFields(a: seq<byte>, b: seq<byte>, c: seq<byte>)
    ensures var lines := [Line(PATH, a), Line(SIZE, b), Line(POLICY, c), []];
            && FieldIn(lines, PATH) == Some(a)
            && FieldIn(lines, SIZE) == Some(b)
            && FieldIn(lines, POLICY) == Some(c)
  {
    var lines := [Line(PATH, a), Line(SIZE, b), Line(POLICY, c), []];
    LineHasKey(PATH, a);
    LineHasKey(SIZE, b);
    LineHasKey(POLICY, c);
    hide Line;
    assert lines[1..] == [Line(SIZE, b), Line(POLICY, c), []];
    assert lines[1..][1..] == [Line(POLICY, c), []];
    assert FieldIn(lines[1..], POLICY) == FieldIn(lines[1..][1..], POLICY) == Some(c);
  }

  lemma JoinFour(a: seq<byte>, b: seq<byte>, c: seq<byte>)
    ensures Join([a, b, c, []], NEWLINE) == a + [NEWLINE] + (b + [NEWLINE] + (c + [NEWLINE]))
  {
    assert [a, b, c, []][1..] == [b, c, []] && [b, c, []][1..] == [c, []] && [c, []][1..] == [[]];
    assert Join([c, []], NEWLINE) == c + [NEWLINE];
    assert Join([b, c, []], NEWLINE) == b + [NEWLINE] + (c + [NEWLINE]);
  }

  lemma {:induction false} RecordLines(path: seq<byte>, size: nat, policy: seq<byte>)
    requires NEWLINE !in policy && 0 !in policy
    ensures Split(Record(path, size, policy), NEWLINE) ==
              [Line(PATH, Base64.Encoded(path)), Line(SIZE, Decimal(size)), Line(POLICY, policy), []]
    ensures 0 !in Record(path, size, policy)
    ensures |Record(path, size, policy)| == 20 + |Base64.Encoded(path)| + |Decimal(size)| + |policy|
  {
    Base64.EncodedIsCString(path);
    hide Base64.Encoded;
    var a, b, c := Line(PATH, Base64.Encoded(path)), Line(SIZE, Decimal(size)), Line(POLICY, policy);
    assert forall i | 0 <= i < |Decimal(size)| :: IsDigit(Decimal(size)[i]);
    hide Decimal;
    assert Plain(a, NEWLINE) && Plain(b, NEWLINE) && Plain(c, NEWLINE);
    SplitJoin([a, b, c, []], NEWLINE);
    JoinFour(a, b, c);
  }

  lemma {:induction false} RecordText(path: CString, size: nat, policy: seq<byte>)
    requires |path| <= MAX_RELATIVE_PATH && size < TWO_64
    requires |policy| < 16 && NEWLINE !in policy && 0 !in policy
    ensures var content := Record(path, size, policy);
            && |content| < CAPACITY - 1
            && ReadText(content) == Ok(content)
            && Field(content, PATH, CAPACITY) == Ok(Base64.Encoded(path))
            && Field(content, SIZE, 64) == Ok(Decimal(size))
            && Field(content, POLICY, 16) == Ok(policy)
  {
    var content := Record(path, size, policy);
    RecordLines(path, size, policy);
    RecordFields(Base64.Encoded(path), Decimal(size), policy);
    SizeIsShort(size);
    assert |Base64.Encoded(path)| <= 5460;
    hide Record;
    hide Split;
    hide FieldIn;
    hide Base64.Encoded;
    hide Decimal;
    hide Line;
    NextIs(content, 0, 0, |content|);
    assert content[..|content|] == content;
  }

  /** A record survives: every acceptable path, every 64-bit size, every short policy. */
  lemma RecordReadsBack(path: CString, size: nat, policy: seq<byte>)
    requires Verdict(path, false, false) == None && size < TWO_64
    requires |policy| < 16 && NEWLINE !in policy && 0 !in policy
    ensures |Record(path, size, policy)| < CAPACITY - 1
    ensures MetadataPath(Record(path, size, policy)) == Ok(path)
    ensures UploadMetadata(Record(path, size, policy)) == Ok(Upload(path, size, policy))
  {
    assert path != [] && |path| <= MAX_RELATIVE_PATH;
    RecordText(path, size, policy);
    Base64.DecodedEncoded(path);
    assert |Base64.Encoded(path)| <= 5460;
    ParseDecimal(size);
    hide Record;
    hide ReadText;
    hide Field;
    hide Base64.Encoded;
    hide Base64.Decoded;
    hide Verdict;
    hide Decimal;
    hide ParseSize;
    assert DecodePath(Base64.Encoded(path), PATH_MAX) == Ok(path);
  }
}
