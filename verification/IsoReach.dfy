/**
 Which directories, continuations and TF entries an image has, told by what leads to them and not by
 the order in which they are found; and that a scan without an error finds exactly these.
 */
module IsoReach {
  import opened Bytes
  import opened IsoScan

  // ---- What is in a directory and in a System Use area ----

  /** A directory record (section 9.1 of ECMA-119) that ends in time. */
  predicate IsRecord(image: seq<byte>, at: nat, end: nat)
    requires end <= |image|
  {
    at < end && image[at] >= 34 && at + image[at] <= end
  }

  /** Where the records of a directory are, from a position on: one behind the other; a zero leaves out the rest of a sector. */
  function RecordsFrom(image: seq<byte>, base: nat, size: nat, position: nat): (r: set<nat>)
    requires base + size <= |image|
    ensures forall at | at in r :: IsRecord(image, at, base + size)
    decreases size - position
  {
    if position >= size then {}
    else
      var at := base + position;
      if image[at] == 0 then RecordsFrom(image, base, size, NextSector(position))
      else if IsRecord(image, at, base + size) then {at} + RecordsFrom(image, base, size, position + image[at])
      else {}
  }

  function RecordsOf(image: seq<byte>, directory: Key): (r: set<nat>)
    ensures forall at | at in r :: IsRecord(image, at, |image|)
  {
    if directory.0 * SECTOR + directory.1 > |image| then {}
    else RecordsFrom(image, directory.0 * SECTOR, directory.1, 0)
  }

  /** The record of a directory (flag 0x02) other than the one it is in, named 0, and the one above, named 1. */
  predicate NamesDirectory(image: seq<byte>, at: nat)
    requires IsRecord(image, at, |image|)
  {
    image[at + 25] % 4 >= 2 && !(image[at + 32] == 1 && (image[at + 33] == 0 || image[at + 33] == 1))
  }

  function DirectoryAt(image: seq<byte>, at: nat): Key
    requires IsRecord(image, at, |image|)
  {
    (Little(image, at + 2), Little(image, at + 10))
  }

  /** The System Use area of a record: from the first even place behind the name to the end. */
  function UseAt(image: seq<byte>, at: nat): (area: Key)
    requires IsRecord(image, at, |image|)
  {
    var name: nat := image[at + 32];
    var named := 33 + name;
    var even: nat := if named % 2 == 0 then named else named + 1;
    (at + even, if even < image[at] then image[at] - even else 0)
  }

  /** A System Use entry (section 4.1 of SUSP) that ends in time. */
  predicate IsEntry(image: seq<byte>, at: nat, end: nat)
    requires end <= |image|
  {
    at + 4 <= end && image[at + 2] >= 4 && at + image[at + 2] <= end
  }

  /** The entries one behind the other, until nothing is left or zeros follow. */
  function EntriesFrom(image: seq<byte>, at: nat, end: nat): (r: set<nat>)
    requires at <= end <= |image|
    ensures forall e | e in r :: IsEntry(image, e, end)
    decreases end - at
  {
    if IsEntry(image, at, end) then {at} + EntriesFrom(image, at + image[at + 2], end) else {}
  }

  function EntriesOf(image: seq<byte>, area: Key): (r: set<nat>)
    ensures forall e | e in r :: IsEntry(image, e, |image|)
  {
    if area.0 + area.1 > |image| then {} else EntriesFrom(image, area.0, area.0 + area.1)
  }

  /** A CE entry (section 5.1 of SUSP) and the continuation that it names: extent, offset, length. */
  predicate NamesArea(image: seq<byte>, e: nat)
    requires IsEntry(image, e, |image|)
  {
    IsCe(image, e) && image[e + 2] >= 28
  }

  function AreaNamed(image: seq<byte>, e: nat): Key
    requires IsEntry(image, e, |image|) && NamesArea(image, e)
  {
    (Little(image, e + 4) * SECTOR + Little(image, e + 12), Little(image, e + 20))
  }

  // ---- What can be reached ----

  /** The root, and what a record of a reached directory names. */
  least predicate Reached(image: seq<byte>, root: Key, directory: Key) {
    || directory == root
    || exists from: Key, at: nat ::
         && Reached(image, root, from) && at in RecordsOf(image, from)
         && NamesDirectory(image, at) && directory == DirectoryAt(image, at)
  }

  /** The System Use area of a record of a reached directory. */
  ghost predicate IsUse(image: seq<byte>, root: Key, area: Key) {
    exists from: Key, at: nat :: Reached(image, root, from) && at in RecordsOf(image, from) && area == UseAt(image, at)
  }

  /** What a CE entry names that is in such an area or in a continuation that is named itself. */
  least predicate Continues(image: seq<byte>, root: Key, area: Key) {
    exists from: Key, e: nat ::
      && (IsUse(image, root, from) || Continues(image, root, from))
      && e in EntriesOf(image, from) && NamesArea(image, e) && area == AreaNamed(image, e)
  }

  /** A TF entry of such an area or of a continuation. */
  ghost predicate IsStamped(image: seq<byte>, root: Key, e: nat) {
    exists from: Key ::
      (IsUse(image, root, from) || Continues(image, root, from)) && e in EntriesOf(image, from) && IsTf(image, e)
  }

  /** The first primary descriptor; the terminator does not come before it. */
  predicate IsPrimary(image: seq<byte>, sector: nat) {
    && 16 <= sector && (sector + 1) * SECTOR <= |image| && image[sector * SECTOR] == 1
    && forall k | 16 <= k < sector :: image[k * SECTOR] != 1 && image[k * SECTOR] != 255
  }

  /** The directory that the root record of a primary descriptor names. */
  function RootAt(image: seq<byte>, sector: nat): Key
    requires (sector + 1) * SECTOR <= |image|
  {
    (Little(image, sector * SECTOR + 158), Little(image, sector * SECTOR + 166))
  }

  // ---- What is known of an image ----

  ghost predicate EntryKnown(image: seq<byte>, e: nat, st: State)
    requires IsEntry(image, e, |image|)
  {
    && (IsTf(image, e) ==> e in st.entries)
    && (NamesArea(image, e) ==> AreaNamed(image, e) in st.conts)
  }

  ghost predicate AreaKnown(image: seq<byte>, area: Key, st: State) {
    forall e | e in EntriesOf(image, area) :: EntryKnown(image, e, st)
  }

  ghost predicate RecordKnown(image: seq<byte>, at: nat, st: State)
    requires IsRecord(image, at, |image|)
  {
    AreaKnown(image, UseAt(image, at), st) && (NamesDirectory(image, at) ==> DirectoryAt(image, at) in st.dirs)
  }

  ghost predicate DirectoryKnown(image: seq<byte>, directory: Key, st: State) {
    forall at | at in RecordsOf(image, directory) :: RecordKnown(image, at, st)
  }

  /** Whatever came in between a and r leads nowhere else. */
  ghost predicate Complete(image: seq<byte>, a: State, r: State) {
    && (forall d | d in r.dirs && d !in a.dirs :: DirectoryKnown(image, d, r))
    && (forall c | c in r.conts && c !in a.conts :: AreaKnown(image, c, r))
  }

  /** The fields are those of the entries. */
  ghost predicate FieldsOf(image: seq<byte>, st: State) {
    && (forall e | e in st.entries :: e + 5 <= |image| && FieldAt(image, e) in st.fields)
    && (forall k | 0 <= k < |st.fields| ::
          var f := st.fields[k]; 5 <= f.start <= |image| && f.start - 5 in st.entries && f == FieldAt(image, f.start - 5))
  }

  ghost predicate Below(a: State, b: State) { a.dirs <= b.dirs && a.conts <= b.conts && a.entries <= b.entries }

  lemma AreaStaysKnown(image: seq<byte>, area: Key, a: State, b: State)
    requires AreaKnown(image, area, a) && Later(a, b)
    ensures AreaKnown(image, area, b)
  {
  }

  lemma RecordStaysKnown(image: seq<byte>, at: nat, a: State, b: State)
    requires IsRecord(image, at, |image|) && RecordKnown(image, at, a) && Later(a, b)
    ensures RecordKnown(image, at, b)
  {
    AreaStaysKnown(image, UseAt(image, at), a, b);
    hide AreaKnown;
    hide UseAt;
    hide DirectoryAt;
    hide NamesDirectory;
  }

  lemma DirectoryStaysKnown(image: seq<byte>, directory: Key, a: State, b: State)
    requires DirectoryKnown(image, directory, a) && Later(a, b)
    ensures DirectoryKnown(image, directory, b)
  {
    hide RecordKnown;
    hide RecordsOf;
    forall at | at in RecordsOf(image, directory)
      ensures RecordKnown(image, at, b)
    {
      RecordStaysKnown(image, at, a, b);
    }
  }

  lemma CompleteThen(image: seq<byte>, a: State, b: State, c: State)
    requires Complete(image, a, b) && Complete(image, b, c) && Later(b, c)
    ensures Complete(image, a, c)
  {
    hide AreaKnown;
    hide DirectoryKnown;
    forall d | d in c.dirs && d !in a.dirs
      ensures DirectoryKnown(image, d, c)
    {
      if d in b.dirs {
        DirectoryStaysKnown(image, d, b, c);
      }
    }
    forall k | k in c.conts && k !in a.conts
      ensures AreaKnown(image, k, c)
    {
      if k in b.conts {
        AreaStaysKnown(image, k, b, c);
      }
    }
  }

  lemma SameComplete(image: seq<byte>, a: State, b: State)
    requires b.dirs == a.dirs && b.conts == a.conts
    ensures Complete(image, a, b)
  {
  }

  lemma SameFields(image: seq<byte>, a: State, b: State)
    requires FieldsOf(image, a) && b.fields == a.fields && b.entries == a.entries
    ensures FieldsOf(image, b)
  {
  }

  // ---- A scan without an error knows all that it has come to ----

  lemma TfIsKnown(image: seq<byte>, at: nat, end: nat, st: State)
    requires at < end <= |image| && IsEntry(image, at, end) && IsTf(image, at) && !TfEntry(image, at, end, st).failed
    requires FieldsOf(image, st)
    ensures var r := TfEntry(image, at, end, st);
            EntryKnown(image, at, r) && Complete(image, st, r) && FieldsOf(image, r)
  {
    hide FieldsOf;
    hide FieldAt;
    hide IsTf;
    var r, s := TfEntry(image, at, end, st), Read(st, at + 3, at + 4);
    var t := Read(s, at + 4, at + 5);
    SameFields(image, st, t);
    OneMoreField(image, t, at);
    TfIsNoCe(image, at);
    SameComplete(image, st, r);
  }

  lemma TfIsNoCe(image: seq<byte>, at: nat)
    requires at + 2 <= |image|
    ensures !(IsTf(image, at) && IsCe(image, at))
  {
  }

  lemma OneMoreField(image: seq<byte>, st: State, at: nat)
    requires FieldsOf(image, st) && at + 5 <= |image|
    ensures FieldsOf(image, st.(fields := st.fields + [FieldAt(image, at)], entries := st.entries + {at}))
  {
    var field := FieldAt(image, at);
    assert field.start == at + 5;
    hide FieldAt;
    var r := st.(fields := st.fields + [field], entries := st.entries + {at});
    forall k | 0 <= k < |r.fields|
      ensures 5 <= r.fields[k].start <= |image| && r.fields[k].start - 5 in r.entries
      ensures r.fields[k] == FieldAt(image, r.fields[k].start - 5)
    {
      if k < |st.fields| {
        assert r.fields[k] == st.fields[k];
      }
    }
    assert r.fields[|st.fields|] == field;
  }

  lemma BothIsLittle(image: seq<byte>, at: nat)
    requires BothEndian(image, at).Some?
    ensures at + 8 <= |image| && BothEndian(image, at).value == Little(image, at)
  {
  }

  lemma {:induction false} CeIsKnown(image: seq<byte>, at: nat, end: nat, st: State)
    requires at < end <= |image| && IsEntry(image, at, end) && IsCe(image, at) && !CeEntry(image, at, end, st).failed
    requires FieldsOf(image, st)
    ensures var r := CeEntry(image, at, end, st);
            EntryKnown(image, at, r) && Complete(image, st, r) && FieldsOf(image, r)
    decreases Keys() - st.conts, end - at, 0
  {
    hide Keys;
    hide Little;
    hide BothEndian;
    hide Complete;
    hide AreaKnown;
    hide FieldsOf;
    hide Area;
    var r, s := CeEntry(image, at, end, st), Read(st, at + 3, at + 4);
    assert image[at + 2] >= 28 && image[at + 3] == 1;
    var t := Read(s, at + 4, at + 28);
    BothIsLittle(image, at + 4);
    BothIsLittle(image, at + 12);
    BothIsLittle(image, at + 20);
    var extent, offset, length := BothEndian(image, at + 4), BothEndian(image, at + 12), BothEndian(image, at + 20);
    assert extent.Some? && offset.Some? && length.Some?;
    var key := (extent.value * SECTOR + offset.value, length.value);
    assert key == AreaNamed(image, at);
    if key in t.conts {
      SameComplete(image, st, t);
      SameFields(image, st, t);
    } else {
      IsKey(key.0, key.1);
      var u := t.(conts := t.conts + {key});
      SameFields(image, st, u);
      AreaIsKnown(image, key.0, key.1, u);
      OneMoreArea(image, st, u, key, r);
    }
  }

  lemma OneMoreArea(image: seq<byte>, a: State, b: State, key: Key, r: State)
    requires b.dirs == a.dirs && b.conts == a.conts + {key} && Complete(image, b, r) && AreaKnown(image, key, r)
    ensures Complete(image, a, r)
  {
    hide AreaKnown;
    hide DirectoryKnown;
  }

  lemma OneMoreDirectory(image: seq<byte>, a: State, b: State, key: Key, r: State)
    requires b.conts == a.conts && b.dirs == a.dirs + {key} && Complete(image, b, r) && DirectoryKnown(image, key, r)
    ensures Complete(image, a, r)
  {
    hide AreaKnown;
    hide DirectoryKnown;
  }

  lemma {:induction false} AreaIsKnown(image: seq<byte>, start: nat, length: nat, st: State)
    requires !Area(image, start, length, st).failed && FieldsOf(image, st)
    ensures var r := Area(image, start, length, st);
            AreaKnown(image, (start, length), r) && Complete(image, st, r) && FieldsOf(image, r)
    decreases Keys() - st.conts, length, 2
  {
    hide Complete;
    hide FieldsOf;
    hide EntryKnown;
    hide Entries;
    EntriesAreKnown(image, start, start + length, st);
  }

  lemma {:induction false} EntriesFromStep(image: seq<byte>, at: nat, end: nat)
    requires at <= end <= |image|
    ensures if IsEntry(image, at, end)
            then EntriesFrom(image, at, end) == {at} + EntriesFrom(image, at + image[at + 2], end)
            else EntriesFrom(image, at, end) == {}
  {
  }

  lemma {:induction false} EntriesAreKnown(image: seq<byte>, at: nat, end: nat, st: State)
    requires at <= end <= |image| && !Entries(image, at, end, st).failed && FieldsOf(image, st)
    ensures var r := Entries(image, at, end, st);
            && (forall e | e in EntriesFrom(image, at, end) :: EntryKnown(image, e, r))
            && Complete(image, st, r) && FieldsOf(image, r)
    decreases Keys() - st.conts, end - at, 1
  {
    hide Keys;
    hide TfEntry;
    hide CeEntry;
    hide Entries;
    hide EntriesFrom;
    hide Complete;
    hide FieldsOf;
    hide EntryKnown;
    hide IsTf;
    hide IsCe;
    EntriesStep(image, at, end, st);
    EntriesFromStep(image, at, end);
    SameComplete(image, st, st);
    if IsEntry(image, at, end) {
      var r, s := Entries(image, at, end, st), Read(st, at, at + 3);
      SameFields(image, st, s);
      SameComplete(image, st, s);
      var t := if IsTf(image, at) then TfEntry(image, at, end, s)
               else if IsCe(image, at) then CeEntry(image, at, end, s)
               else s;
      if IsTf(image, at) {
        TfIsKnown(image, at, end, s);
      } else if IsCe(image, at) {
        CeIsKnown(image, at, end, s);
      } else {
        OtherIsKnown(image, at, s);
      }
      EntriesAreKnown(image, at + image[at + 2], end, t);
      CompleteThen(image, st, s, t);
      CompleteThen(image, st, t, r);
      StaysKnown(image, at, t, r);
    } else if at + 4 <= end {
      SameFields(image, st, Read(st, at, at + 3));
      SameComplete(image, st, Read(st, at, at + 3));
    }
  }

  lemma OtherIsKnown(image: seq<byte>, e: nat, st: State)
    requires IsEntry(image, e, |image|) && !IsTf(image, e) && !IsCe(image, e)
    ensures EntryKnown(image, e, st) && Complete(image, st, st)
  {
  }

  lemma StaysKnown(image: seq<byte>, e: nat, a: State, b: State)
    requires IsEntry(image, e, |image|) && EntryKnown(image, e, a) && Later(a, b)
    ensures EntryKnown(image, e, b)
  {
  }

  lemma {:induction false} RecordIsKnown(image: seq<byte>, at: nat, st: State)
    requires IsRecord(image, at, |image|) && !Record(image, at, st).failed && FieldsOf(image, st)
    ensures var r := Record(image, at, st); RecordKnown(image, at, r) && Complete(image, st, r) && FieldsOf(image, r)
    decreases Keys() - st.dirs, 0, 2
  {
    hide Keys;
    hide Area;
    hide Child;
    hide Complete;
    hide FieldsOf;
    hide AreaKnown;
    hide NamesDirectory;
    hide DirectoryAt;
    var r, nameLength, end, s := Record(image, at, st), image[at + 32], at + image[at], Read(st, at + 32, at + 33);
    SameFields(image, st, s);
    SameComplete(image, st, s);
    var use := SystemUse(at, nameLength);
    var t := if use < end then Area(image, use, end - use, s) else s;
    if use < end {
      AreaIsKnown(image, use, end - use, s);
      assert UseAt(image, at) == (use, end - use);
    } else {
      EmptyIsKnown(image, at, s);
      SameComplete(image, s, s);
    }
    ChildIsKnown(image, at, t);
    AreaStaysKnown(image, UseAt(image, at), t, r);
    CompleteThen(image, st, s, t);
    CompleteThen(image, st, t, r);
  }

  /** An area without a byte has no entries. */
  lemma EmptyIsKnown(image: seq<byte>, at: nat, st: State)
    requires IsRecord(image, at, |image|) && UseAt(image, at).1 == 0
    ensures AreaKnown(image, UseAt(image, at), st)
  {
  }

  lemma {:induction false} ChildIsKnown(image: seq<byte>, at: nat, st: State)
    requires IsRecord(image, at, |image|) && at + 33 + image[at + 32] <= at + image[at]
    requires !Child(image, at, image[at + 32], st).failed && FieldsOf(image, st)
    ensures var r := Child(image, at, image[at + 32], st);
            && (NamesDirectory(image, at) ==> DirectoryAt(image, at) in r.dirs)
            && Complete(image, st, r) && FieldsOf(image, r)
    decreases Keys() - st.dirs, 0, 1
  {
    hide Keys;
    hide Little;
    hide BothEndian;
    hide Directory;
    hide Complete;
    hide FieldsOf;
    hide NamesDirectory;
    hide Child;
    if NamesDirectory(image, at) {
      var w := ChildOfDirectory(image, at, image[at + 32], st);
      SameFields(image, st, w);
      SameComplete(image, st, w);
      BothIsLittle(image, at + 2);
      BothIsLittle(image, at + 10);
      var extent, size := BothEndian(image, at + 2), BothEndian(image, at + 10);
      DirectoryIsKnown(image, extent.value, size.value, w);
      CompleteThen(image, st, w, Directory(image, extent.value, size.value, w));
    } else {
      ChildOfOther(image, at, image[at + 32], st);
      SameFields(image, st, Child(image, at, image[at + 32], st));
      SameComplete(image, st, Child(image, at, image[at + 32], st));
    }
  }

  predicate SameFindings(a: State, b: State) {
    a.dirs == b.dirs && a.conts == b.conts && a.entries == b.entries && a.fields == b.fields && a.failed == b.failed
  }

  lemma {:induction false} ChildOfDirectory(image: seq<byte>, at: nat, nameLength: nat, st: State) returns (w: State)
    requires IsRecord(image, at, |image|) && nameLength == image[at + 32] && at + 33 + nameLength <= at + image[at]
    requires NamesDirectory(image, at)
    ensures SameFindings(st, w)
    ensures var r, extent, size := Child(image, at, nameLength, st), BothEndian(image, at + 2), BothEndian(image, at + 10);
            if extent.None? || size.None? then r == Fail(w)
            else r == Directory(image, extent.value, size.value, w) && Later(w, r)
  {
    hide BothEndian;
    hide Directory;
    hide Keys;
    w := Read(Read(Read(st, at + 25, at + 26), at + 33, at + 33 + nameLength), at + 2, at + 18);
  }

  lemma {:induction false} ChildOfOther(image: seq<byte>, at: nat, nameLength: nat, st: State)
    requires IsRecord(image, at, |image|) && nameLength == image[at + 32] && at + 33 + nameLength <= at + image[at]
    requires !NamesDirectory(image, at)
    ensures SameFindings(st, Child(image, at, nameLength, st))
  {
    hide BothEndian;
    hide Directory;
    hide Keys;
  }

  lemma {:induction false} DirectoryIsKnown(image: seq<byte>, extent: nat, size: nat, st: State)
    requires extent < TWO_32 && size < TWO_32 && !Directory(image, extent, size, st).failed && FieldsOf(image, st)
    ensures var r := Directory(image, extent, size, st);
            (extent, size) in r.dirs && Complete(image, st, r) && FieldsOf(image, r)
    decreases Keys() - st.dirs, 0, 0
  {
    hide Keys;
    hide Records;
    hide Directory;
    hide RecordKnown;
    hide Complete;
    hide FieldsOf;
    hide RecordsFrom;
    DirectoryStep(image, extent, size, st);
    if (extent, size) in st.dirs {
      SameComplete(image, st, st);
    } else {
      IsKey(extent, size);
      var s := st.(dirs := st.dirs + {(extent, size)});
      var r := Records(image, extent * SECTOR, size, 0, s);
      SameFields(image, st, s);
      RecordsAreKnown(image, extent * SECTOR, size, 0, s);
      assert DirectoryKnown(image, (extent, size), r);
      OneMoreDirectory(image, st, s, (extent, size), r);
    }
  }

  lemma {:induction false} RecordsFromStep(image: seq<byte>, base: nat, size: nat, position: nat)
    requires base + size <= |image|
    ensures position >= size ==> RecordsFrom(image, base, size, position) == {}
    ensures position < size ==>
              var at := base + position;
              RecordsFrom(image, base, size, position) ==
                if image[at] == 0 then RecordsFrom(image, base, size, NextSector(position))
                else if IsRecord(image, at, base + size) then {at} + RecordsFrom(image, base, size, position + image[at])
                else {}
  {
    hide NextSector;
  }

  lemma {:induction false} RecordsAreKnown(image: seq<byte>, base: nat, size: nat, position: nat, st: State)
    requires base + size <= |image| && !Records(image, base, size, position, st).failed && FieldsOf(image, st)
    ensures var r := Records(image, base, size, position, st);
            && (forall at | at in RecordsFrom(image, base, size, position) :: RecordKnown(image, at, r))
            && Complete(image, st, r) && FieldsOf(image, r)
    decreases Keys() - st.dirs, size - position, 2
  {
    hide Keys;
    hide Record;
    hide Records;
    hide RecordsFrom;
    hide RecordKnown;
    hide Complete;
    hide FieldsOf;
    hide NextSector;
    RecordsStep(image, base, size, position, st);
    RecordsFromStep(image, base, size, position);
    SameComplete(image, st, st);
    if position < size {
      var at := base + position;
      var r, length, s := Records(image, base, size, position, st), image[at], Read(st, at, at + 1);
      SameFields(image, st, s);
      SameComplete(image, st, s);
      if length == 0 {
        RecordsAreKnown(image, base, size, NextSector(position), s);
        CompleteThen(image, st, s, r);
      } else {
        var t := Record(image, at, s);
        RecordIsKnown(image, at, s);
        RecordsAreKnown(image, base, size, position + length, t);
        RecordStaysKnown(image, at, t, r);
        CompleteThen(image, st, s, t);
        CompleteThen(image, st, t, r);
      }
    }
  }

  // ---- A scan does not leave what is closed ----

  /** What leads from here leads nowhere else. */
  ghost predicate Closed(image: seq<byte>, st: State) {
    && (forall d | d in st.dirs :: DirectoryKnown(image, d, st))
    && (forall c | c in st.conts :: AreaKnown(image, c, st))
  }

  lemma {:induction false} CeStaysBelow(image: seq<byte>, at: nat, end: nat, st: State, limits: State)
    requires at < end <= |image| && IsEntry(image, at, end) && IsCe(image, at)
    requires Closed(image, limits) && Below(st, limits) && EntryKnown(image, at, limits)
    ensures Below(CeEntry(image, at, end, st), limits)
    decreases Keys() - st.conts, end - at, 0
  {
    hide Keys;
    hide Little;
    hide BothEndian;
    hide AreaKnown;
    hide DirectoryKnown;
    hide Area;
    if image[at + 2] >= 28 && image[at + 3] == 1 {
      var t := Read(Read(st, at + 3, at + 4), at + 4, at + 28);
      var extent, offset, length := BothEndian(image, at + 4), BothEndian(image, at + 12), BothEndian(image, at + 20);
      if extent.Some? && offset.Some? && length.Some? {
        BothIsLittle(image, at + 4);
        BothIsLittle(image, at + 12);
        BothIsLittle(image, at + 20);
        var key := (extent.value * SECTOR + offset.value, length.value);
        assert key == AreaNamed(image, at);
        if key !in t.conts {
          IsKey(key.0, key.1);
          AreaStaysBelow(image, key.0, key.1, t.(conts := t.conts + {key}), limits);
        }
      }
    }
  }

  lemma {:induction false} AreaStaysBelow(image: seq<byte>, start: nat, length: nat, st: State, limits: State)
    requires Closed(image, limits) && Below(st, limits) && AreaKnown(image, (start, length), limits)
    ensures Below(Area(image, start, length, st), limits)
    decreases Keys() - st.conts, length, 2
  {
    hide Closed;
    hide EntryKnown;
    hide Entries;
    if start + length <= |image| {
      EntriesStayBelow(image, start, start + length, st, limits);
    }
  }

  lemma {:induction false} EntriesStayBelow(image: seq<byte>, at: nat, end: nat, st: State, limits: State)
    requires at <= end <= |image| && Closed(image, limits) && Below(st, limits)
    requires forall e | e in EntriesFrom(image, at, end) :: EntryKnown(image, e, limits)
    ensures Below(Entries(image, at, end, st), limits)
    decreases Keys() - st.conts, end - at, 1
  {
    hide Keys;
    hide TfEntry;
    hide CeEntry;
    hide Entries;
    hide EntriesFrom;
    hide Closed;
    hide IsTf;
    hide IsCe;
    EntriesStep(image, at, end, st);
    EntriesFromStep(image, at, end);
    if IsEntry(image, at, end) {
      var s := Read(st, at, at + 3);
      var t := if IsTf(image, at) then TfEntry(image, at, end, s)
               else if IsCe(image, at) then CeEntry(image, at, end, s)
               else s;
      if IsTf(image, at) {
        TfStaysBelow(image, at, end, s, limits);
      } else if IsCe(image, at) {
        CeStaysBelow(image, at, end, s, limits);
      }
      if !t.failed {
        EntriesStayBelow(image, at + image[at + 2], end, t, limits);
      }
    }
  }

  lemma TfStaysBelow(image: seq<byte>, at: nat, end: nat, st: State, limits: State)
    requires at < end <= |image| && IsEntry(image, at, end) && IsTf(image, at)
    requires Below(st, limits) && EntryKnown(image, at, limits)
    ensures Below(TfEntry(image, at, end, st), limits)
  {
    hide FieldAt;
  }

  lemma {:induction false} RecordStaysBelow(image: seq<byte>, at: nat, st: State, limits: State)
    requires IsRecord(image, at, |image|) && Closed(image, limits) && Below(st, limits) && RecordKnown(image, at, limits)
    ensures Below(Record(image, at, st), limits)
    decreases Keys() - st.dirs, 0, 2
  {
    hide Keys;
    hide Area;
    hide Child;
    hide Closed;
    hide AreaKnown;
    hide NamesDirectory;
    hide DirectoryAt;
    var nameLength, end, s := image[at + 32], at + image[at], Read(st, at + 32, at + 33);
    if at + 33 + nameLength <= end {
      var use := SystemUse(at, nameLength);
      var t := if use < end then Area(image, use, end - use, s) else s;
      if use < end {
        assert UseAt(image, at) == (use, end - use);
        AreaStaysBelow(image, use, end - use, s, limits);
      }
      if !t.failed {
        ChildStaysBelow(image, at, t, limits);
      }
    }
  }

  lemma {:induction false} ChildStaysBelow(image: seq<byte>, at: nat, st: State, limits: State)
    requires IsRecord(image, at, |image|) && at + 33 + image[at + 32] <= at + image[at]
    requires Closed(image, limits) && Below(st, limits)
    requires NamesDirectory(image, at) ==> DirectoryAt(image, at) in limits.dirs
    ensures Below(Child(image, at, image[at + 32], st), limits)
    decreases Keys() - st.dirs, 0, 1
  {
    hide Keys;
    hide Little;
    hide BothEndian;
    hide Directory;
    hide Closed;
    hide NamesDirectory;
    hide Child;
    if NamesDirectory(image, at) {
      var w := ChildOfDirectory(image, at, image[at + 32], st);
      var extent, size := BothEndian(image, at + 2), BothEndian(image, at + 10);
      if extent.Some? && size.Some? {
        BothIsLittle(image, at + 2);
        BothIsLittle(image, at + 10);
        DirectoryStaysBelow(image, extent.value, size.value, w, limits);
      }
    } else {
      ChildOfOther(image, at, image[at + 32], st);
    }
  }

  lemma {:induction false} DirectoryStaysBelow(image: seq<byte>, extent: nat, size: nat, st: State, limits: State)
    requires extent < TWO_32 && size < TWO_32
    requires Closed(image, limits) && Below(st, limits) && (extent, size) in limits.dirs
    ensures Below(Directory(image, extent, size, st), limits)
    decreases Keys() - st.dirs, 0, 0
  {
    hide Keys;
    hide Records;
    hide Directory;
    hide RecordKnown;
    hide RecordsFrom;
    hide AreaKnown;
    DirectoryStep(image, extent, size, st);
    if (extent, size) !in st.dirs {
      IsKey(extent, size);
      assert DirectoryKnown(image, (extent, size), limits);
      if size > 0 && extent * SECTOR + size <= |image| {
        RecordsStayBelow(image, extent * SECTOR, size, 0, st.(dirs := st.dirs + {(extent, size)}), limits);
      }
    }
  }

  lemma {:induction false} RecordsStayBelow(image: seq<byte>, base: nat, size: nat, position: nat, st: State, limits: State)
    requires base + size <= |image| && Closed(image, limits) && Below(st, limits)
    requires forall at | at in RecordsFrom(image, base, size, position) :: RecordKnown(image, at, limits)
    ensures Below(Records(image, base, size, position, st), limits)
    decreases Keys() - st.dirs, size - position, 2
  {
    hide Keys;
    hide Record;
    hide Records;
    hide RecordsFrom;
    hide RecordKnown;
    hide Closed;
    hide NextSector;
    RecordsStep(image, base, size, position, st);
    RecordsFromStep(image, base, size, position);
    if position < size {
      var at := base + position;
      var length, s := image[at], Read(st, at, at + 1);
      if length == 0 {
        RecordsStayBelow(image, base, size, NextSector(position), s, limits);
      } else if length >= 34 && at + length <= base + size {
        var t := Record(image, at, s);
        RecordStaysBelow(image, at, s, limits);
        if !t.failed {
          RecordsStayBelow(image, base, size, position + length, t, limits);
        }
      }
    }
  }

  // ---- Exactly what can be reached ----

  least lemma ReachedIsKnown(image: seq<byte>, root: Key, directory: Key, st: State)
    requires Reached(image, root, directory) && Closed(image, st) && root in st.dirs
    ensures directory in st.dirs
  {
    if directory != root {
      var from: Key, at: nat :| Reached(image, root, from) && at in RecordsOf(image, from) &&
        NamesDirectory(image, at) && directory == DirectoryAt(image, at);
      ReachedIsKnown(image, root, from, st);
      assert DirectoryKnown(image, from, st);
      assert RecordKnown(image, at, st);
    }
  }

  lemma UseIsKnown(image: seq<byte>, root: Key, area: Key, st: State)
    requires IsUse(image, root, area) && Closed(image, st) && root in st.dirs
    ensures AreaKnown(image, area, st)
  {
    var from: Key, at: nat :| Reached(image, root, from) && at in RecordsOf(image, from) && area == UseAt(image, at);
    ReachedIsKnown(image, root, from, st);
    assert DirectoryKnown(image, from, st);
    assert RecordKnown(image, at, st);
  }

  least lemma ContinuesIsKnown(image: seq<byte>, root: Key, area: Key, st: State)
    requires Continues(image, root, area) && Closed(image, st) && root in st.dirs
    ensures area in st.conts
  {
    hide AreaKnown;
    hide DirectoryKnown;
    hide IsUse;
    hide NamesArea;
    hide AreaNamed;
    var from: Key, e: nat :| (IsUse(image, root, from) || Continues(image, root, from)) &&
      e in EntriesOf(image, from) && NamesArea(image, e) && area == AreaNamed(image, e);
    if IsUse(image, root, from) {
      UseIsKnown(image, root, from, st);
    } else {
      ContinuesIsKnown(image, root, from, st);
    }
    KnownEntry(image, from, e, st);
  }

  lemma KnownEntry(image: seq<byte>, area: Key, e: nat, st: State)
    requires AreaKnown(image, area, st) && e in EntriesOf(image, area)
    ensures EntryKnown(image, e, st)
  {
  }

  lemma StampedIsKnown(image: seq<byte>, root: Key, e: nat, st: State)
    requires IsStamped(image, root, e) && Closed(image, st) && root in st.dirs
    ensures e in st.entries
  {
    hide AreaKnown;
    hide DirectoryKnown;
    hide IsUse;
    hide IsTf;
    var from: Key :| (IsUse(image, root, from) || Continues(image, root, from)) &&
      e in EntriesOf(image, from) && IsTf(image, e);
    if IsUse(image, root, from) {
      UseIsKnown(image, root, from, st);
    } else {
      ContinuesIsKnown(image, root, from, st);
      assert AreaKnown(image, from, st);
    }
    KnownEntry(image, from, e, st);
  }

  /** What of the findings can be reached. */
  ghost function Reachable(image: seq<byte>, root: Key, st: State): State {
    State(set d | d in st.dirs && Reached(image, root, d), set c | c in st.conts && Continues(image, root, c),
          set e | e in st.entries && IsStamped(image, root, e), [], [], false)
  }

  lemma ReachableAreaKnown(image: seq<byte>, root: Key, st: State, area: Key)
    requires AreaKnown(image, area, st) && (IsUse(image, root, area) || Continues(image, root, area))
    ensures AreaKnown(image, area, Reachable(image, root, st))
  {
    hide IsUse;
    hide IsTf;
    hide NamesArea;
    hide AreaNamed;
    forall e | e in EntriesOf(image, area)
      ensures EntryKnown(image, e, Reachable(image, root, st))
    {
      KnownEntry(image, area, e, st);
    }
  }

  lemma ReachableRecordKnown(image: seq<byte>, root: Key, st: State, directory: Key, at: nat)
    requires Reached(image, root, directory) && at in RecordsOf(image, directory) && RecordKnown(image, at, st)
    ensures RecordKnown(image, at, Reachable(image, root, st))
  {
    hide AreaKnown;
    hide NamesDirectory;
    hide DirectoryAt;
    hide UseAt;
    assert IsUse(image, root, UseAt(image, at));
    ReachableAreaKnown(image, root, st, UseAt(image, at));
  }

  lemma ReachableIsClosed(image: seq<byte>, root: Key, st: State)
    requires Closed(image, st)
    ensures Closed(image, Reachable(image, root, st))
  {
    hide AreaKnown;
    hide RecordKnown;
    hide RecordsOf;
    var limits := Reachable(image, root, st);
    forall d | d in limits.dirs
      ensures DirectoryKnown(image, d, limits)
    {
      forall at | at in RecordsOf(image, d)
        ensures RecordKnown(image, at, limits)
      {
        assert DirectoryKnown(image, d, st);
        ReachableRecordKnown(image, root, st, d, at);
      }
    }
    forall c | c in limits.conts
      ensures AreaKnown(image, c, limits)
    {
      ReachableAreaKnown(image, root, st, c);
    }
  }

  /** The findings are exactly what can be reached from the root, and the fields are those of the entries. */
  ghost predicate Finds(image: seq<byte>, root: Key, st: State) {
    && (forall d: Key :: d in st.dirs <==> Reached(image, root, d))
    && (forall c: Key :: c in st.conts <==> Continues(image, root, c))
    && (forall e: nat :: e in st.entries <==> IsStamped(image, root, e))
    && FieldsOf(image, st)
  }

  /** What has just been completed from the root alone. */
  lemma DirectoryFinds(image: seq<byte>, root: Key, st: State)
    requires root.0 < TWO_32 && root.1 < TWO_32 && st.dirs == {} && st.conts == {} && st.entries == {} && st.fields == []
    requires !Directory(image, root.0, root.1, st).failed
    ensures Finds(image, root, Directory(image, root.0, root.1, st))
  {
    hide AreaKnown;
    hide DirectoryKnown;
    hide Directory;
    hide FieldAt;
    hide IsStamped;
    var r := Directory(image, root.0, root.1, st);
    DirectoryIsKnown(image, root.0, root.1, st);
    assert Closed(image, r);
    ReachableIsClosed(image, root, r);
    var limits := Reachable(image, root, r);
    assert root in limits.dirs;
    DirectoryStaysBelow(image, root.0, root.1, st, limits);
    hide Closed;
    hide FieldsOf;
    forall d: Key
      ensures d in r.dirs <==> Reached(image, root, d)
    {
      if Reached(image, root, d) {
        ReachedIsKnown(image, root, d, r);
      }
    }
    forall c: Key
      ensures c in r.conts <==> Continues(image, root, c)
    {
      if Continues(image, root, c) {
        ContinuesIsKnown(image, root, c, r);
      }
    }
    forall e: nat
      ensures e in r.entries <==> IsStamped(image, root, e)
    {
      if IsStamped(image, root, e) {
        StampedIsKnown(image, root, e, r);
      }
    }
  }

  lemma {:induction false} FirstPrimary(image: seq<byte>, sector: nat, seen: seq<Interval>) returns (k: nat)
    ensures var found := Descriptors(image, sector, None, seen).found;
            found.Some? ==>
              && found.value == k * SECTOR && sector <= k && (k + 1) * SECTOR <= |image| && image[k * SECTOR] == 1
              && forall j | sector <= j < k :: image[j * SECTOR] != 1 && image[j * SECTOR] != 255
    decreases |image| - sector * SECTOR
  {
    hide IsDescriptor;
    k := sector;
    if (sector + 1) * SECTOR <= |image| && IsDescriptor(image, sector * SECTOR) && image[sector * SECTOR] != 255 {
      var more := seen + [Interval(sector * SECTOR, sector * SECTOR + 7)];
      if image[sector * SECTOR] == 1 {
        FoundStays(image, sector + 1, sector * SECTOR, more);
      } else {
        k := FirstPrimary(image, sector + 1, more);
      }
    }
  }

  lemma {:induction false} FoundStays(image: seq<byte>, sector: nat, at: nat, seen: seq<Interval>)
    ensures Descriptors(image, sector, Some(at), seen).found == Some(at)
    decreases |image| - sector * SECTOR
  {
    hide IsDescriptor;
    if (sector + 1) * SECTOR <= |image| && IsDescriptor(image, sector * SECTOR) && image[sector * SECTOR] != 255 {
      FoundStays(image, sector + 1, at, seen + [Interval(sector * SECTOR, sector * SECTOR + 7)]);
    }
  }

  /** Exactly what can be reached from the root directory of the first primary descriptor. */
  ghost predicate FindsAll(image: seq<byte>, st: State) {
    exists sector :: IsPrimary(image, sector) && Finds(image, RootAt(image, sector), st)
  }

  /** The fields are exactly those of the TF entries that can be reached from there. */
  ghost predicate AllReached(image: seq<byte>, fields: seq<Field>) {
    exists sector ::
      && IsPrimary(image, sector)
      && (forall e: nat | IsStamped(image, RootAt(image, sector), e) :: e + 5 <= |image| && TimestampsAt(image, e) in fields)
      && (forall k | 0 <= k < |fields| ::
            && 5 <= fields[k].start <= |image| && IsStamped(image, RootAt(image, sector), fields[k].start - 5)
            && fields[k] == TimestampsAt(image, fields[k].start - 5)
            && fields[k].Width() == if fields[k].long then 17 else 7)
  }

  /** The timestamps of a TF entry (section 4.1.6 of RRIP): one for each of the seven low flags, long ones with the eighth. */
  function TimestampsAt(image: seq<byte>, e: nat): Field
    requires e + 5 <= |image|
  {
    Field(e + 5, Ones(image[e + 4] as int % 128), image[e + 4] >= 128)
  }

  /** How many of seven flags are set. */
  function Ones(flags: nat): nat {
    flags % 2 + flags / 2 % 2 + flags / 4 % 2 + flags / 8 % 2 + flags / 16 % 2 + flags / 32 % 2 + flags / 64 % 2
  }

  lemma {:induction false} FlagsAreCounted(flags: nat)
    requires flags < 128
    ensures BitCount(flags) == Ones(flags)
  {
    var a, b, c := flags / 2, flags / 4, flags / 8;
    var d, e, f := flags / 16, flags / 32, flags / 64;
    assert a / 2 == b && b / 2 == c && c / 2 == d && d / 2 == e && e / 2 == f && f / 2 == 0;
    OneBit(flags);
    OneBit(a);
    OneBit(b);
    OneBit(c);
    OneBit(d);
    OneBit(e);
    OneBit(f);
    hide BitCount;
  }

  lemma {:induction false} OneBit(n: nat)
    ensures BitCount(n) == n % 2 + BitCount(n / 2) && BitCount(0) == 0
  {
  }

  lemma FieldIsTimestamps(image: seq<byte>, e: nat)
    requires e + 5 <= |image|
    ensures FieldAt(image, e) == TimestampsAt(image, e)
  {
    FlagsAreCounted(image[e + 4] as int % 128);
    hide BitCount;
    hide Ones;
  }

  /** A scan without an error finds exactly the reached directories, their continuations and all their TF entries. */
  lemma ScanFindsAll(image: seq<byte>)
    requires !Scan(image).failed
    ensures FindsAll(image, Scan(image))
  {
    hide Directory;
    hide Finds;
    hide BothEndian;
    hide Little;
    hide Descriptors;
    var k := FirstPrimary(image, 16, []);
    var primary := Descriptors(image, 16, None, []);
    var root := primary.found.value + 156;
    assert IsPrimary(image, k);
    var st := Read(Read(START.(seen := primary.seen), root, root + 1), root + 2, root + 18);
    BothIsLittle(image, root + 2);
    BothIsLittle(image, root + 10);
    DirectoryFinds(image, RootAt(image, k), st);
  }

  lemma ScanReachesAll(image: seq<byte>)
    requires !Scan(image).failed
    ensures AllReached(image, Scan(image).fields)
  {
    hide Scan;
    hide IsStamped;
    hide FieldAt;
    hide TimestampsAt;
    hide RootAt;
    ScanFindsAll(image);
    forall e: nat | e + 5 <= |image|
      ensures FieldAt(image, e) == TimestampsAt(image, e)
    {
      FieldIsTimestamps(image, e);
    }
  }

  // ---- Volume descriptors ----

  /** The set of volume descriptors ends here: all are valid, and this is the first terminator (section 8.3 of ECMA-119). */
  ghost predicate EndsAt(image: seq<byte>, first: nat, last: nat) {
    && first <= last && (last + 1) * SECTOR <= |image| && image[last * SECTOR] == 255
    && (forall k | first <= k <= last :: IsValid(image, k))
    && (forall k | first <= k < last :: image[k * SECTOR] != 255)
  }

  predicate IsValid(image: seq<byte>, sector: nat) {
    (sector + 1) * SECTOR <= |image| && IsDescriptor(image, sector * SECTOR)
  }

  /** A primary or supplementary descriptor (sections 8.4 and 8.5 of ECMA-119). */
  predicate HasDates(image: seq<byte>, sector: nat) {
    (sector + 1) * SECTOR <= |image| && (image[sector * SECTOR] == 1 || image[sector * SECTOR] == 2)
  }

  /** The creation, the modification or the effective date of such a descriptor. */
  predicate IsDateOf(image: seq<byte>, sector: nat, field: Field) {
    && HasDates(image, sector) && field.count == 1 && field.long
    && (field.start == sector * SECTOR + 813 || field.start == sector * SECTOR + 830 || field.start == sector * SECTOR + 864)
  }

  ghost predicate SomeDates(image: seq<byte>, first: nat, last: nat) {
    exists k | first <= k <= last :: HasDates(image, k)
  }

  ghost predicate IsDate(image: seq<byte>, first: nat, last: nat, field: Field) {
    exists k | first <= k <= last :: IsDateOf(image, k, field)
  }

  /** The fields are exactly the dates of the descriptors of a range of sectors. */
  ghost predicate AllDates(image: seq<byte>, first: nat, last: nat, fields: seq<Field>) {
    forall f: Field :: f in fields <==> IsDate(image, first, last, f)
  }

  lemma DatedStep(image: seq<byte>, sector: nat, st: State)
    requires (sector + 1) * SECTOR <= |image|
    ensures var at := sector * SECTOR;
            var s := Read(st, at, at + 7);
            var t := if image[at] in {1, 2} then Dated(s, at) else s;
            && (forall f: Field :: f in t.fields <==> f in st.fields || IsDateOf(image, sector, f))
            && (t.entries != {} <==> st.entries != {} || HasDates(image, sector)) && t.failed == st.failed
  {
  }

  lemma RangeStep(image: seq<byte>, first: nat, last: nat)
    ensures first <= last ==> (SomeDates(image, first, last) <==> HasDates(image, first) || SomeDates(image, first + 1, last))
    ensures forall f: Field :: first <= last ==>
              (IsDate(image, first, last, f) <==> IsDateOf(image, first, f) || IsDate(image, first + 1, last, f))
    ensures first < last && IsValid(image, first) && image[first * SECTOR] != 255 ==>
              (EndsAt(image, first, last) <==> EndsAt(image, first + 1, last))
    ensures EndsAt(image, first, last) ==> IsValid(image, first) && (first == last <==> image[first * SECTOR] == 255)
    ensures IsValid(image, first) && image[first * SECTOR] == 255 ==> EndsAt(image, first, first)
    ensures EndsAt(image, first + 1, last) ==> first < last
    ensures SomeDates(image, first, first) <==> HasDates(image, first)
    ensures forall f: Field :: IsDate(image, first, first, f) <==> IsDateOf(image, first, f)
  {
    hide HasDates;
    hide IsDateOf;
    hide IsDescriptor;
  }

  /** A pass over the descriptors from a sector on. */
  lemma {:induction false} VolumeFrom(image: seq<byte>, sector: nat, st: State) returns (last: nat)
    requires !st.failed
    ensures var r := Volume(image, sector, st);
            !r.failed ==>
              && EndsAt(image, sector, last) && (st.entries != {} || SomeDates(image, sector, last))
              && forall f: Field :: f in r.fields <==> f in st.fields || IsDate(image, sector, last, f)
    ensures Volume(image, sector, st).failed ==>
              forall l: nat | EndsAt(image, sector, l) :: st.entries == {} && !SomeDates(image, sector, l)
    decreases |image| - sector * SECTOR
  {
    hide IsDescriptor;
    hide HasDates;
    hide IsDateOf;
    hide IsDate;
    hide SomeDates;
    hide EndsAt;
    hide Dated;
    last := sector;
    forall l: nat
      ensures EndsAt(image, sector, l) ==> IsValid(image, sector) && (sector == l <==> image[sector * SECTOR] == 255)
    {
      RangeStep(image, sector, l);
    }
    if IsValid(image, sector) {
      var at := sector * SECTOR;
      var s := Read(st, at, at + 7);
      var t := if image[at] in {1, 2} then Dated(s, at) else s;
      DatedStep(image, sector, st);
      if image[at] == 255 {
        RangeStep(image, sector, sector);
      } else {
        last := VolumeFrom(image, sector + 1, t);
        RangeStep(image, sector, last);
        forall l: nat | EndsAt(image, sector, l)
          ensures EndsAt(image, sector + 1, l)
          ensures SomeDates(image, sector, l) <==> HasDates(image, sector) || SomeDates(image, sector + 1, l)
        {
          RangeStep(image, sector, l);
          EndsLater(image, sector, l);
        }
      }
    }
  }

  lemma EndsLater(image: seq<byte>, first: nat, last: nat)
    requires EndsAt(image, first, last) && image[first * SECTOR] != 255
    ensures first < last && EndsAt(image, first + 1, last)
  {
    hide IsValid;
  }

  lemma OneEnd(image: seq<byte>, first: nat, a: nat, b: nat)
    requires EndsAt(image, first, a) && EndsAt(image, first, b)
    ensures a == b
  {
    hide IsValid;
  }

  /**
   The pass over the descriptors ends without an error exactly if they end with a terminator and one of
   them has dates; then it has found exactly the dates.
   */
  lemma VolumeFindsAll(image: seq<byte>)
    ensures !Volume(image, 16, START).failed <==> exists last: nat :: EndsAt(image, 16, last) && SomeDates(image, 16, last)
    ensures forall last: nat | EndsAt(image, 16, last) && !Volume(image, 16, START).failed ::
              AllDates(image, 16, last, Volume(image, 16, START).fields)
  {
    hide Volume;
    hide SomeDates;
    hide IsDate;
    hide EndsAt;
    var end := VolumeFrom(image, 16, START);
    forall last: nat | EndsAt(image, 16, last) && !Volume(image, 16, START).failed
      ensures AllDates(image, 16, last, Volume(image, 16, START).fields)
    {
      OneEnd(image, 16, last, end);
    }
  }
}
