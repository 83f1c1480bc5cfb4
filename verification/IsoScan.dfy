/**
 What the timestamp normalizers read and where they write, told on an image that nobody changes.

 A scan collects the timestamp fields it finds and every byte it takes as structure. It follows
 directory records (section 9.1 of ECMA-119), System Use entries and their CE continuations
 (section 5.1 of SUSP, IEEE P1281) and TF entries (section 4.1.6 of RRIP, IEEE P1282).
 */
module IsoScan {
  import opened Bytes

  const SECTOR := 2048
  const TWO_32 := 0x1_0000_0000

  const SHORT_WIDTH := 7
  const LONG_WIDTH := 17

  /** `count` timestamps in a row. */
  datatype Field = Field(start: nat, count: nat, long: bool) {
    function Width(): nat { if long then LONG_WIDTH else SHORT_WIDTH }

    function End(): nat { start + count * Width() }
  }

  datatype Interval = Interval(from: nat, to: nat)

  type Key = (nat, nat)

  datatype State = State(dirs: set<Key>, conts: set<Key>, entries: set<nat>,
                         fields: seq<Field>, seen: seq<Interval>, failed: bool)

  const START: State := State({}, {}, {}, [], [], false)

  function Read(st: State, from: nat, to: nat): State { st.(seen := st.seen + [Interval(from, to)]) }

  function Fail(st: State): State { st.(failed := true) }

  /** b came later than a. */
  ghost predicate Later(a: State, b: State) {
    a.dirs <= b.dirs && a.conts <= b.conts && a.entries <= b.entries && a.fields <= b.fields && a.seen <= b.seen
  }

  /** Every field lies in an image of n bytes. */
  predicate Within(fields: seq<Field>, n: nat) {
    forall k | 0 <= k < |fields| :: fields[k].End() <= n
  }

  predicate Inside(fields: seq<Field>, i: nat) {
    exists k | 0 <= k < |fields| :: fields[k].start <= i < fields[k].End()
  }

  predicate Apart(seen: Interval, field: Field) {
    seen.to <= seen.from || field.count == 0 || seen.to <= field.start || field.End() <= seen.from
  }

  /** No byte that was taken as structure lies in a timestamp field. */
  ghost predicate Clean(st: State) {
    forall j, k | 0 <= j < |st.seen| && 0 <= k < |st.fields| :: Apart(st.seen[j], st.fields[k])
  }

  predicate SameBytes(a: seq<byte>, b: seq<byte>, seen: Interval)
    requires |a| == |b|
  {
    forall i | seen.from <= i < seen.to && i < |a| :: a[i] == b[i]
  }

  /** The two images cannot be told apart by what was taken as structure. */
  ghost predicate AgreeOn(a: seq<byte>, b: seq<byte>, seen: seq<Interval>) {
    |a| == |b| && forall j | 0 <= j < |seen| :: SameBytes(a, b, seen[j])
  }

  // ---- Numbers ----

  function Number(a: int, b: int, c: int, d: int): int {
    0x100_0000 * a + 0x1_0000 * b + 0x100 * c + d
  }

  function Little(image: seq<byte>, at: nat): (n: nat)
    requires at + 4 <= |image|
    ensures n < TWO_32
  {
    Number(image[at + 3], image[at + 2], image[at + 1], image[at])
  }

  function Big(image: seq<byte>, at: nat): (n: nat)
    requires at + 4 <= |image|
    ensures n < TWO_32
  {
    Number(image[at], image[at + 1], image[at + 2], image[at + 3])
  }

  /** _both_endian_u32 */
  function BothEndian(image: seq<byte>, at: nat): (n: Option<nat>)
    ensures n.Some? ==> n.value < TWO_32
  {
    if at + 8 > |image| || Little(image, at) != Big(image, at + 4) then None else Some(Little(image, at))
  }

  function BitCount(n: nat): nat {
    if n == 0 then 0 else n % 2 + BitCount(n / 2)
  }

  // ---- System Use entries ----

  predicate IsTf(image: seq<byte>, at: nat)
    requires at + 2 <= |image|
  {
    image[at] == 84 && image[at + 1] == 70
  }

  predicate IsCe(image: seq<byte>, at: nat)
    requires at + 2 <= |image|
  {
    image[at] == 67 && image[at + 1] == 69
  }

  function FieldAt(image: seq<byte>, at: nat): Field
    requires at + 5 <= |image|
  {
    Field(at + 5, BitCount(image[at + 4] % 128), image[at + 4] >= 128)
  }

  /** normalize_tf */
  ghost function TfEntry(image: seq<byte>, at: nat, end: nat, st: State): (r: State)
    requires at + 4 <= end <= |image|
    ensures Later(st, r) && (Within(st.fields, |image|) ==> Within(r.fields, |image|))
  {
    var length, s := image[at + 2], Read(st, at + 3, at + 4);
    if image[at + 3] != 1 || length < 5 || at + length > end then Fail(s)
    else
      var field, t := FieldAt(image, at), Read(s, at + 4, at + 5);
      if field.End() > at + length then Fail(t)
      else t.(fields := t.fields + [field], entries := t.entries + {at})
  }

  /** Every key that two 32-bit numbers, or an extent, an offset and a length, can make. */
  ghost function Keys(): set<Key> {
    set a: nat, b: nat | a < TWO_32 * SECTOR + TWO_32 && b < TWO_32 :: (a, b)
  }

  lemma IsKey(a: nat, b: nat)
    requires a < TWO_32 * SECTOR + TWO_32 && b < TWO_32
    ensures (a, b) in Keys()
  {
  }

  /** The entry that names a continuation, and the continuation if it is new. */
  ghost function CeEntry(image: seq<byte>, at: nat, end: nat, st: State): (r: State)
    requires at + 4 <= end <= |image| && at + image[at + 2] <= end
    ensures Later(st, r) && (Within(st.fields, |image|) ==> Within(r.fields, |image|))
    decreases Keys() - st.conts, end - at, 0
  {
    var s := Read(st, at + 3, at + 4);
    if image[at + 2] < 28 || image[at + 3] != 1 then Fail(s)
    else
      var t := Read(s, at + 4, at + 28);
      var extent, offset, length := BothEndian(image, at + 4), BothEndian(image, at + 12), BothEndian(image, at + 20);
      if extent.None? || offset.None? || length.None? then Fail(t)
      else
        var key := (extent.value * SECTOR + offset.value, length.value);
        if key in t.conts then t
        else
          IsKey(key.0, key.1);
          Area(image, key.0, key.1, t.(conts := t.conts + {key}))
  }

  /** normalize_susp */
  ghost function Area(image: seq<byte>, start: nat, length: nat, st: State): (r: State)
    ensures Later(st, r) && (Within(st.fields, |image|) ==> Within(r.fields, |image|))
    decreases Keys() - st.conts, length, 2
  {
    if start + length > |image| then Fail(st) else Entries(image, start, start + length, st)
  }

  ghost function Entries(image: seq<byte>, at: nat, end: nat, st: State): (r: State)
    requires at <= end <= |image|
    ensures Later(st, r) && (Within(st.fields, |image|) ==> Within(r.fields, |image|))
    decreases Keys() - st.conts, end - at, 1
  {
    if at + 4 > end then st
    else
      var s, length := Read(st, at, at + 3), image[at + 2];
      if image[at] == 0 && image[at + 1] == 0 && length == 0 then s
      else if length < 4 || at + length > end then Fail(s)
      else
        var t := if IsTf(image, at) then TfEntry(image, at, end, s)
                 else if IsCe(image, at) then CeEntry(image, at, end, s)
                 else s;
        if t.failed then t else Entries(image, at + length, end, t)
  }

  /** The cases of one turn over a System Use area. */
  lemma {:induction false} EntriesStep(image: seq<byte>, at: nat, end: nat, st: State)
    requires at <= end <= |image|
    ensures at + 4 > end ==> Entries(image, at, end, st) == st
    ensures at + 4 <= end ==>
              var s, length, r := Read(st, at, at + 3), image[at + 2], Entries(image, at, end, st);
              && Later(s, r)
              && if image[at] == 0 && image[at + 1] == 0 && length == 0 then r == s
                 else if length < 4 || at + length > end then r == Fail(s)
                 else
                   var t := if IsTf(image, at) then TfEntry(image, at, end, s)
                            else if IsCe(image, at) then CeEntry(image, at, end, s)
                            else s;
                   Later(t, r) && r == if t.failed then t else Entries(image, at + length, end, t)
  {
    hide TfEntry;
    hide CeEntry;
    hide Keys;
  }

  // ---- Directories ----

  function SystemUse(at: nat, nameLength: nat): (use: nat)
    ensures use >= at + 33 + nameLength
  {
    at + 33 + nameLength + (33 + nameLength) % 2
  }

  /** The System Use area of a record and, if it is one, the directory that it names. */
  ghost function Record(image: seq<byte>, at: nat, st: State): (r: State)
    requires at + 34 <= |image| && image[at] >= 34 && at + image[at] <= |image|
    ensures Later(st, r) && (Within(st.fields, |image|) ==> Within(r.fields, |image|))
    decreases Keys() - st.dirs, 0, 2
  {
    var nameLength, end, s := image[at + 32], at + image[at], Read(st, at + 32, at + 33);
    if at + 33 + nameLength > end then Fail(s)
    else
      var use := SystemUse(at, nameLength);
      var t := if use < end then Area(image, use, end - use, s) else s;
      if t.failed then t else Child(image, at, nameLength, t)
  }

  /** What the rest of a directory record comes to, behind its System Use area. */
  ghost function Child(image: seq<byte>, at: nat, nameLength: nat, st: State): (r: State)
    requires at + 34 <= |image| && at + 33 + nameLength <= |image|
    ensures Later(st, r) && (Within(st.fields, |image|) ==> Within(r.fields, |image|))
    decreases Keys() - st.dirs, 0, 1
  {
    var u := Read(st, at + 25, at + 26);
    if image[at + 25] / 2 % 2 == 0 then u
    else
      var v := Read(u, at + 33, at + 33 + nameLength);
      if nameLength == 1 && image[at + 33] in {0, 1} then v
      else
        var extent, size, w := BothEndian(image, at + 2), BothEndian(image, at + 10), Read(v, at + 2, at + 18);
        if extent.None? || size.None? then Fail(w) else Directory(image, extent.value, size.value, w)
  }

  /** visit_directory */
  ghost function Directory(image: seq<byte>, extent: nat, size: nat, st: State): (r: State)
    requires extent < TWO_32 && size < TWO_32
    ensures Later(st, r) && (Within(st.fields, |image|) ==> Within(r.fields, |image|))
    decreases Keys() - st.dirs, 0, 0
  {
    if (extent, size) in st.dirs then st
    else
      IsKey(extent, size);
      var s := st.(dirs := st.dirs + {(extent, size)});
      if size == 0 || extent * SECTOR + size > |image| then Fail(s)
      else Records(image, extent * SECTOR, size, 0, s)
  }

  /** Where the record after a gap starts. */
  function NextSector(position: nat): (n: nat)
    ensures n > position
  {
    (position / SECTOR + 1) * SECTOR
  }

  ghost function Records(image: seq<byte>, base: nat, size: nat, position: nat, st: State): (r: State)
    requires base + size <= |image|
    ensures Later(st, r) && (Within(st.fields, |image|) ==> Within(r.fields, |image|))
    decreases Keys() - st.dirs, size - position, 2
  {
    if position >= size then st
    else
      var at := base + position;
      var length, s := image[at], Read(st, at, at + 1);
      if length == 0 then Records(image, base, size, NextSector(position), s)
      else if length < 34 || at + length > base + size then Fail(s)
      else
        var t := Record(image, at, s);
        if t.failed then t else Records(image, base, size, position + length, t)
  }

  /** The cases of one turn over the records. */
  lemma {:induction false} RecordsStep(image: seq<byte>, base: nat, size: nat, position: nat, st: State)
    requires base + size <= |image|
    ensures position >= size ==> Records(image, base, size, position, st) == st
    ensures position < size ==>
              var at := base + position;
              var length, s, r := image[at], Read(st, at, at + 1), Records(image, base, size, position, st);
              && Later(s, r)
              && if length == 0 then r == Records(image, base, size, NextSector(position), s)
                 else if length < 34 || at + length > base + size then r == Fail(s)
                 else
                   var t := Record(image, at, s);
                   Later(t, r) && r == if t.failed then t else Records(image, base, size, position + length, t)
  {
    hide Record;
    hide NextSector;
    hide Keys;
  }

  lemma {:induction false} DirectoryStep(image: seq<byte>, extent: nat, size: nat, st: State)
    requires extent < TWO_32 && size < TWO_32
    ensures var r, s := Directory(image, extent, size, st), st.(dirs := st.dirs + {(extent, size)});
            if (extent, size) in st.dirs then r == st
            else if size == 0 || extent * SECTOR + size > |image| then r == Fail(s)
            else r == Records(image, extent * SECTOR, size, 0, s)
  {
    hide Records;
    hide Keys;
  }

  // ---- Volume descriptors ----

  /** The first bytes of a volume descriptor, after its type: "CD001" and version 1. */
  predicate IsDescriptor(image: seq<byte>, at: nat)
    requires at + 7 <= |image|
  {
    image[at + 1..at + 7] == [67, 68, 48, 48, 49, 1]
  }

  /** Where the primary descriptor is, and which bytes told so. */
  datatype Primary = Primary(found: Option<nat>, seen: seq<Interval>, failed: bool)

  function Descriptors(image: seq<byte>, sector: nat, found: Option<nat>, seen: seq<Interval>): Primary
    decreases |image| - sector * SECTOR
  {
    if (sector + 1) * SECTOR > |image| then Primary(found, seen, false)
    else
      var at := sector * SECTOR;
      var more := seen + [Interval(at, at + 7)];
      if !IsDescriptor(image, at) then Primary(found, more, true)
      else
        var first := if image[at] == 1 && found.None? then Some(at) else found;
        if image[at] == 255 then Primary(first, more, false)
        else Descriptors(image, sector + 1, first, more)
  }

  /** All that normalize_iso_rock_ridge_timestamps does before it writes the file. */
  ghost function Scan(image: seq<byte>): State {
    var primary := Descriptors(image, 16, None, []);
    var st := START.(seen := primary.seen);
    if primary.failed || primary.found.None? then Fail(st)
    else
      var root := primary.found.value + 156;
      if root >= |image| then Fail(st)
      else
        var s := Read(st, root, root + 1);
        if image[root] < 34 then Fail(s)
        else
          var extent, size, t := BothEndian(image, root + 2), BothEndian(image, root + 10), Read(s, root + 2, root + 18);
          if extent.None? || size.None? then Fail(t)
          else
            var u := Directory(image, extent.value, size.value, t);
            if u.entries == {} then Fail(u) else u
  }

  /** normalize_volume_descriptors; the entries are the primary and supplementary descriptors. */
  ghost function Volume(image: seq<byte>, sector: nat, st: State): (r: State)
    ensures Later(st, r) && (Within(st.fields, |image|) ==> Within(r.fields, |image|))
    decreases |image| - sector * SECTOR
  {
    if (sector + 1) * SECTOR > |image| then Fail(st)
    else
      var at := sector * SECTOR;
      var s := Read(st, at, at + 7);
      if !IsDescriptor(image, at) then Fail(s)
      else
        var t := if image[at] in {1, 2} then Dated(s, at) else s;
        if image[at] == 255 then (if t.entries == {} then Fail(t) else t) else Volume(image, sector + 1, t)
  }

  /** The creation, modification and effective dates of a descriptor. */
  function Dated(st: State, at: nat): State {
    st.(fields := st.fields + [Field(at + 813, 1, true), Field(at + 830, 1, true), Field(at + 864, 1, true)],
        entries := st.entries + {at})
  }

  // ---- A scan depends on what it took as structure, and on nothing else ----

  lemma AgreeEarlier(a: seq<byte>, b: seq<byte>, s: State, r: State)
    requires AgreeOn(a, b, r.seen) && Later(s, r)
    ensures AgreeOn(a, b, s.seen)
  {
    forall j | 0 <= j < |s.seen|
      ensures SameBytes(a, b, s.seen[j])
    {
      assert s.seen[j] == r.seen[j];
    }
  }

  lemma Took(a: seq<byte>, b: seq<byte>, st: State, from: nat, to: nat, r: State)
    requires AgreeOn(a, b, r.seen) && Later(Read(st, from, to), r) && to <= |a|
    ensures forall i | from <= i < to :: a[i] == b[i]
  {
    var s := Read(st, from, to);
    assert s.seen[|st.seen|] == r.seen[|st.seen|] == Interval(from, to);
    assert SameBytes(a, b, r.seen[|st.seen|]);
  }

  lemma TfEntryLocal(a: seq<byte>, b: seq<byte>, at: nat, end: nat, st: State)
    requires at + 4 <= end <= |a| && AgreeOn(a, b, TfEntry(a, at, end, st).seen) && a[at + 2] == b[at + 2]
    ensures TfEntry(b, at, end, st) == TfEntry(a, at, end, st)
  {
    var r, length, s := TfEntry(a, at, end, st), a[at + 2], Read(st, at + 3, at + 4);
    Took(a, b, st, at + 3, at + 4, r);
    if a[at + 3] == 1 && length >= 5 && at + length <= end {
      Took(a, b, s, at + 4, at + 5, r);
    }
  }

  lemma NumbersLocal(a: seq<byte>, b: seq<byte>, at: nat, n: nat)
    requires |a| == |b| && at + 8 * n <= |a| && forall i | at <= i < at + 8 * n :: a[i] == b[i]
    ensures forall k | 0 <= k < n :: BothEndian(b, at + 8 * k) == BothEndian(a, at + 8 * k)
  {
  }

  lemma {:induction false} CeEntryLocal(a: seq<byte>, b: seq<byte>, at: nat, end: nat, st: State)
    requires at + 4 <= end <= |a| == |b| && at + a[at + 2] <= end && AgreeOn(a, b, CeEntry(a, at, end, st).seen)
    requires a[at + 2] == b[at + 2]
    ensures CeEntry(b, at, end, st) == CeEntry(a, at, end, st)
    decreases Keys() - st.conts, end - at, 0
  {
    hide Keys;
    hide BothEndian;
    hide AgreeOn;
    var r, s := CeEntry(a, at, end, st), Read(st, at + 3, at + 4);
    Took(a, b, st, at + 3, at + 4, r);
    if a[at + 2] >= 28 && a[at + 3] == 1 {
      var t := Read(s, at + 4, at + 28);
      Took(a, b, s, at + 4, at + 28, r);
      NumbersLocal(a, b, at + 4, 3);
      assert BothEndian(b, at + 4 + 8 * 0) == BothEndian(a, at + 4 + 8 * 0);
      assert BothEndian(b, at + 4 + 8 * 1) == BothEndian(a, at + 4 + 8 * 1);
      assert BothEndian(b, at + 4 + 8 * 2) == BothEndian(a, at + 4 + 8 * 2);
      var extent, offset, length := BothEndian(a, at + 4), BothEndian(a, at + 12), BothEndian(a, at + 20);
      if extent.Some? && offset.Some? && length.Some? {
        var key := (extent.value * SECTOR + offset.value, length.value);
        IsKey(key.0, key.1);
        if key !in t.conts {
          AreaLocal(a, b, key.0, key.1, t.(conts := t.conts + {key}));
        }
      }
    }
  }

  lemma {:induction false} AreaLocal(a: seq<byte>, b: seq<byte>, start: nat, length: nat, st: State)
    requires AgreeOn(a, b, Area(a, start, length, st).seen)
    ensures Area(b, start, length, st) == Area(a, start, length, st)
    decreases Keys() - st.conts, length, 2
  {
    if start + length <= |a| {
      EntriesLocal(a, b, start, start + length, st);
    }
  }

  lemma {:induction false} EntriesLocal(a: seq<byte>, b: seq<byte>, at: nat, end: nat, st: State)
    requires at <= end <= |a| == |b| && AgreeOn(a, b, Entries(a, at, end, st).seen)
    ensures Entries(b, at, end, st) == Entries(a, at, end, st)
    decreases Keys() - st.conts, end - at, 1
  {
    hide Keys;
    hide AgreeOn;
    hide TfEntry;
    hide CeEntry;
    hide Entries;
    EntriesStep(a, at, end, st);
    EntriesStep(b, at, end, st);
    if at + 4 <= end {
      var r, s, length := Entries(a, at, end, st), Read(st, at, at + 3), a[at + 2];
      Took(a, b, st, at, at + 3, r);
      if !(a[at] == 0 && a[at + 1] == 0 && length == 0) && length >= 4 && at + length <= end {
        var t := if IsTf(a, at) then TfEntry(a, at, end, s) else if IsCe(a, at) then CeEntry(a, at, end, s) else s;
        AgreeEarlier(a, b, t, r);
        if IsTf(a, at) {
          TfEntryLocal(a, b, at, end, s);
        } else if IsCe(a, at) {
          CeEntryLocal(a, b, at, end, s);
        }
        if !t.failed {
          EntriesLocal(a, b, at + length, end, t);
        }
      }
    }
  }

  lemma TwoNumbersLocal(a: seq<byte>, b: seq<byte>, at: nat)
    requires |a| == |b| && at + 16 <= |a| && forall i | at <= i < at + 16 :: a[i] == b[i]
    ensures BothEndian(b, at) == BothEndian(a, at) && BothEndian(b, at + 8) == BothEndian(a, at + 8)
  {
    hide BothEndian;
    NumbersLocal(a, b, at, 2);
    assert BothEndian(b, at + 8 * 0) == BothEndian(a, at + 8 * 0);
    assert BothEndian(b, at + 8 * 1) == BothEndian(a, at + 8 * 1);
  }

  lemma {:induction false} RecordLocal(a: seq<byte>, b: seq<byte>, at: nat, st: State)
    requires at + 34 <= |a| == |b| && a[at] >= 34 && at + a[at] <= |a| && AgreeOn(a, b, Record(a, at, st).seen) && a[at] == b[at]
    ensures Record(b, at, st) == Record(a, at, st)
    decreases Keys() - st.dirs, 0, 2
  {
    hide Keys;
    hide AgreeOn;
    hide Area;
    hide Child;
    hide SystemUse;
    var r, nameLength, end, s := Record(a, at, st), a[at + 32], at + a[at], Read(st, at + 32, at + 33);
    Took(a, b, st, at + 32, at + 33, r);
    if at + 33 + nameLength <= end {
      var use := SystemUse(at, nameLength);
      var t := if use < end then Area(a, use, end - use, s) else s;
      AgreeEarlier(a, b, t, r);
      if use < end {
        AreaLocal(a, b, use, end - use, s);
      }
      if !t.failed {
        ChildLocal(a, b, at, nameLength, t);
      }
    }
  }

  lemma {:induction false} ChildLocal(a: seq<byte>, b: seq<byte>, at: nat, nameLength: nat, st: State)
    requires at + 34 <= |a| == |b| && at + 33 + nameLength <= |a| && AgreeOn(a, b, Child(a, at, nameLength, st).seen)
    ensures Child(b, at, nameLength, st) == Child(a, at, nameLength, st)
    decreases Keys() - st.dirs, 0, 1
  {
    hide Keys;
    hide BothEndian;
    hide AgreeOn;
    hide Directory;
    var r, u := Child(a, at, nameLength, st), Read(st, at + 25, at + 26);
    Took(a, b, st, at + 25, at + 26, r);
    if a[at + 25] / 2 % 2 == 1 {
      var v := Read(u, at + 33, at + 33 + nameLength);
      Took(a, b, u, at + 33, at + 33 + nameLength, r);
      if !(nameLength == 1 && a[at + 33] in {0, 1}) {
        var w := Read(v, at + 2, at + 18);
        Took(a, b, v, at + 2, at + 18, r);
        TwoNumbersLocal(a, b, at + 2);
        var extent, size := BothEndian(a, at + 2), BothEndian(a, at + 10);
        if extent.Some? && size.Some? {
          DirectoryLocal(a, b, extent.value, size.value, w);
        }
      }
    }
  }

  lemma {:induction false} DirectoryLocal(a: seq<byte>, b: seq<byte>, extent: nat, size: nat, st: State)
    requires extent < TWO_32 && size < TWO_32 && AgreeOn(a, b, Directory(a, extent, size, st).seen)
    ensures Directory(b, extent, size, st) == Directory(a, extent, size, st)
    decreases Keys() - st.dirs, 0, 0
  {
    if (extent, size) !in st.dirs {
      IsKey(extent, size);
      if size > 0 && extent * SECTOR + size <= |a| {
        RecordsLocal(a, b, extent * SECTOR, size, 0, st.(dirs := st.dirs + {(extent, size)}));
      }
    }
  }

  lemma {:induction false} RecordsLocal(a: seq<byte>, b: seq<byte>, base: nat, size: nat, position: nat, st: State)
    requires base + size <= |a| == |b| && AgreeOn(a, b, Records(a, base, size, position, st).seen)
    ensures Records(b, base, size, position, st) == Records(a, base, size, position, st)
    decreases Keys() - st.dirs, size - position, 2
  {
    hide Keys;
    hide AgreeOn;
    hide Record;
    hide Records;
    hide NextSector;
    RecordsStep(a, base, size, position, st);
    RecordsStep(b, base, size, position, st);
    if position < size {
      var at := base + position;
      var r, length, s := Records(a, base, size, position, st), a[at], Read(st, at, at + 1);
      Took(a, b, st, at, at + 1, r);
      if length == 0 {
        RecordsLocal(a, b, base, size, NextSector(position), s);
      } else if length >= 34 && at + length <= base + size {
        var t := Record(a, at, s);
        AgreeEarlier(a, b, t, r);
        RecordLocal(a, b, at, s);
        if !t.failed {
          RecordsLocal(a, b, base, size, position + length, t);
        }
      }
    }
  }

  lemma {:induction false} DescriptorsGrow(image: seq<byte>, sector: nat, found: Option<nat>, seen: seq<Interval>)
    ensures seen <= Descriptors(image, sector, found, seen).seen
    ensures (found.Some? ==> found.value + SECTOR <= |image|) ==>
              var p := Descriptors(image, sector, found, seen).found; p.Some? ==> p.value + SECTOR <= |image|
    decreases |image| - sector * SECTOR
  {
    if (sector + 1) * SECTOR <= |image| {
      var at := sector * SECTOR;
      if IsDescriptor(image, at) && image[at] != 255 {
        DescriptorsGrow(image, sector + 1, if image[at] == 1 && found.None? then Some(at) else found,
                        seen + [Interval(at, at + 7)]);
      }
    }
  }

  lemma {:induction false} DescriptorsLocal(a: seq<byte>, b: seq<byte>, sector: nat, found: Option<nat>, seen: seq<Interval>)
    requires AgreeOn(a, b, Descriptors(a, sector, found, seen).seen)
    ensures Descriptors(b, sector, found, seen) == Descriptors(a, sector, found, seen)
    decreases |a| - sector * SECTOR
  {
    if (sector + 1) * SECTOR <= |a| {
      var at, r := sector * SECTOR, Descriptors(a, sector, found, seen);
      var more := seen + [Interval(at, at + 7)];
      var first := if a[at] == 1 && found.None? then Some(at) else found;
      assert more <= r.seen by {
        if IsDescriptor(a, at) && a[at] != 255 {
          DescriptorsGrow(a, sector + 1, first, more);
        }
      }
      assert r.seen[|seen|] == Interval(at, at + 7);
      assert SameBytes(a, b, r.seen[|seen|]);
      assert a[at + 1..at + 7] == b[at + 1..at + 7];
      if IsDescriptor(a, at) && a[at] != 255 {
        DescriptorsLocal(a, b, sector + 1, first, more);
      }
    }
  }

  /** An image that agrees on the structure is scanned alike. */
  lemma ScanLocal(a: seq<byte>, b: seq<byte>)
    requires AgreeOn(a, b, Scan(a).seen)
    ensures Scan(b) == Scan(a)
  {
    SameLength(a, b, Scan(a).seen);
    hide AgreeOn;
    hide Descriptors;
    hide BothEndian;
    hide Directory;
    var primary, r := Descriptors(a, 16, None, []), Scan(a);
    var st := START.(seen := primary.seen);
    AgreeEarlier(a, b, st, r);
    DescriptorsLocal(a, b, 16, None, []);
    DescriptorsGrow(a, 16, None, []);
    if !primary.failed && primary.found.Some? {
      var root := primary.found.value + 156;
      if root < |a| {
        var s := Read(st, root, root + 1);
        Took(a, b, st, root, root + 1, r);
        if a[root] >= 34 {
          var t := Read(s, root + 2, root + 18);
          Took(a, b, s, root + 2, root + 18, r);
          TwoNumbersLocal(a, b, root + 2);
          var extent, size := BothEndian(a, root + 2), BothEndian(a, root + 10);
          if extent.Some? && size.Some? {
            AgreeEarlier(a, b, Directory(a, extent.value, size.value, t), r);
            DirectoryLocal(a, b, extent.value, size.value, t);
          }
        }
      }
    }
  }

  lemma SameLength(a: seq<byte>, b: seq<byte>, seen: seq<Interval>)
    requires AgreeOn(a, b, seen)
    ensures |a| == |b|
  {
  }

  lemma DescriptorLocal(a: seq<byte>, b: seq<byte>, at: nat)
    requires at + 7 <= |a| == |b| && forall i | at <= i < at + 7 :: a[i] == b[i]
    ensures IsDescriptor(b, at) == IsDescriptor(a, at)
  {
    assert a[at + 1..at + 7] == b[at + 1..at + 7];
  }

  lemma {:induction false} VolumeLocal(a: seq<byte>, b: seq<byte>, sector: nat, st: State)
    requires AgreeOn(a, b, Volume(a, sector, st).seen)
    ensures Volume(b, sector, st) == Volume(a, sector, st)
    decreases |a| - sector * SECTOR
  {
    SameLength(a, b, Volume(a, sector, st).seen);
    hide AgreeOn;
    hide IsDescriptor;
    if (sector + 1) * SECTOR <= |a| {
      var at, r := sector * SECTOR, Volume(a, sector, st);
      var s := Read(st, at, at + 7);
      var t := if a[at] in {1, 2} then Dated(s, at) else s;
      Took(a, b, st, at, at + 7, r);
      DescriptorLocal(a, b, at);
      if IsDescriptor(a, at) && a[at] != 255 {
        VolumeLocal(a, b, sector + 1, t);
      }
    }
  }

  /** Where a volume scan looks and where it writes, told by sectors. */
  ghost predicate Sectored(st: State) {
    && (forall j | 0 <= j < |st.seen| :: st.seen[j].from % SECTOR == 0 && st.seen[j].to == st.seen[j].from + 7)
    && (forall k | 0 <= k < |st.fields| ::
          st.fields[k].count == 1 && st.fields[k].long && st.fields[k].start % SECTOR in {813, 830, 864})
  }

  lemma SectoredIsClean(st: State)
    requires Sectored(st)
    ensures Clean(st)
  {
    forall j, k | 0 <= j < |st.seen| && 0 <= k < |st.fields|
      ensures Apart(st.seen[j], st.fields[k])
    {
      var a, b := st.seen[j].from / SECTOR, st.fields[k].start / SECTOR;
      assert st.seen[j].from == SECTOR * a;
      assert st.fields[k].start == SECTOR * b + st.fields[k].start % SECTOR;
      assert st.fields[k].End() == st.fields[k].start + LONG_WIDTH;
    }
  }

  lemma StartIsSectored()
    ensures Sectored(START)
  {
  }

  lemma SectoredStep(st: State, at: nat)
    requires Sectored(st) && at % SECTOR == 0
    ensures Sectored(Read(st, at, at + 7)) && Sectored(Dated(Read(st, at, at + 7), at))
  {
  }

  lemma {:induction false} VolumeIsSectored(image: seq<byte>, sector: nat, st: State)
    requires Sectored(st)
    ensures Sectored(Volume(image, sector, st))
    decreases |image| - sector * SECTOR
  {
    hide IsDescriptor;
    if (sector + 1) * SECTOR <= |image| {
      var at := sector * SECTOR;
      SectoredStep(st, at);
      hide Dated;
      var s := Read(st, at, at + 7);
      var t := if image[at] in {1, 2} then Dated(s, at) else s;
      if IsDescriptor(image, at) && image[at] != 255 {
        VolumeIsSectored(image, sector + 1, t);
      }
    }
  }

  /** The dates of the descriptors never touch what is read of them. */
  lemma VolumeIsClean(image: seq<byte>, sector: nat, st: State)
    requires Sectored(st)
    ensures Sectored(Volume(image, sector, st)) && Clean(Volume(image, sector, st))
  {
    hide Volume;
    VolumeIsSectored(image, sector, st);
    SectoredIsClean(Volume(image, sector, st));
  }
}
