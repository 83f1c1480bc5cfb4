/** The in-place timestamp normalizers: what they write on any image, and that they follow the scans. */
module IsoNormalize {
  import opened Bytes
  import opened IsoReach
  import opened IsoScan
  import opened IsoStamps

  /** The field holds the timestamps of a TF entry of the image, which ends inside the image. */
  predicate IsTfEntry(image: seq<byte>, field: Field) {
    && field.start >= 5 && field.start <= |image|
    && var at := field.start - 5;
       && IsTf(image, at) && image[at + 3] == 1 && field == FieldAt(image, at)
       && field.End() <= at + image[at + 2] <= |image|
  }

  /** The entry lies in the area. */
  predicate InArea(image: seq<byte>, field: Field, area: Interval) {
    && 5 <= field.start <= |image|
    && area.from <= field.start - 5 && field.start - 5 + image[field.start - 3] <= area.to <= |image|
  }

  /** Each field was a TF entry when it was stamped, with the fields before it written already. */
  ghost predicate AllTfEntries(image: seq<byte>, fields: seq<Field>, stamps: Stamps) {
    forall k | 0 <= k < |fields| :: IsTfEntry(StampAll(image, fields[..k], stamps), fields[k])
  }

  /** The entries that were found, each in the System Use area that was gone through. */
  ghost predicate Recorded(image: seq<byte>, fields: seq<Field>, areas: seq<Interval>, stamps: Stamps, entries: set<nat>) {
    && |areas| == |fields| && AllTfEntries(image, fields, stamps)
    && (forall k | 0 <= k < |fields| :: fields[k].start >= 5 && fields[k].start - 5 in entries)
    && (forall k | 0 <= k < |fields| :: InArea(StampAll(image, fields[..k], stamps), fields[k], areas[k]))
  }

  /** A System Use area: a continuation that was noted, or a part of a directory that was. */
  predicate Located(area: Interval, dirs: set<Key>, conts: set<Key>) {
    || (area.from <= area.to && (area.from, area.to - area.from) in conts)
    || exists key | key in dirs :: key.0 * SECTOR <= area.from && area.to <= key.0 * SECTOR + key.1
  }

  ghost predicate AllLocated(areas: seq<Interval>, dirs: set<Key>, conts: set<Key>) {
    forall k | 0 <= k < |areas| :: Located(areas[k], dirs, conts)
  }

  lemma LocatedGrows(area: Interval, dirs: set<Key>, conts: set<Key>, moreDirs: set<Key>, moreConts: set<Key>)
    requires Located(area, dirs, conts) && dirs <= moreDirs && conts <= moreConts
    ensures Located(area, moreDirs, moreConts)
  {
  }

  lemma AllLocatedGrows(areas: seq<Interval>, dirs: set<Key>, conts: set<Key>, moreDirs: set<Key>, moreConts: set<Key>)
    requires AllLocated(areas, dirs, conts) && dirs <= moreDirs && conts <= moreConts
    ensures AllLocated(areas, moreDirs, moreConts)
  {
    forall k | 0 <= k < |areas|
      ensures Located(areas[k], moreDirs, moreConts)
    {
      LocatedGrows(areas[k], dirs, conts, moreDirs, moreConts);
    }
  }

  lemma NotedIsLocated(key: Key, dirs: set<Key>, conts: set<Key>)
    ensures key in conts ==> Located(Interval(key.0, key.0 + key.1), dirs, conts)
  {
  }

  lemma InsideIsLocated(area: Interval, key: Key, dirs: set<Key>, conts: set<Key>)
    requires key in dirs && key.0 * SECTOR <= area.from && area.to <= key.0 * SECTOR + key.1
    ensures Located(area, dirs, conts)
  {
  }

  lemma AllLocatedMore(areas: seq<Interval>, area: Interval, dirs: set<Key>, conts: set<Key>)
    requires AllLocated(areas, dirs, conts) && Located(area, dirs, conts)
    ensures AllLocated(areas + [area], dirs, conts)
  {
    hide Located;
  }

  lemma FrontSame(fields: seq<Field>, field: Field, k: nat)
    requires k < |fields|
    ensures (fields + [field])[..k] == fields[..k] && (fields + [field])[k] == fields[k]
  {
  }

  lemma FrontWhole(fields: seq<Field>, field: Field)
    ensures (fields + [field])[..|fields|] == fields && (fields + [field])[|fields|] == field
  {
  }

  lemma {:induction false} RecordedMore(image: seq<byte>, fields: seq<Field>, areas: seq<Interval>, stamps: Stamps,
                                        entries: set<nat>,
                     field: Field, area: Interval)
    requires Recorded(image, fields, areas, stamps, entries) && field.start >= 5
    requires IsTfEntry(StampAll(image, fields, stamps), field) && InArea(StampAll(image, fields, stamps), field, area)
    ensures Recorded(image, fields + [field], areas + [area], stamps, entries + {field.start - 5})
  {
    hide IsTfEntry;
    hide InArea;
    hide StampAll;
    var more, moreAreas := fields + [field], areas + [area];
    forall k | 0 <= k < |more|
      ensures IsTfEntry(StampAll(image, more[..k], stamps), more[k])
      ensures InArea(StampAll(image, more[..k], stamps), more[k], moreAreas[k])
      ensures more[k].start >= 5 && more[k].start - 5 in entries + {field.start - 5}
    {
      if k < |fields| {
        FrontSame(fields, field, k);
        assert IsTfEntry(StampAll(image, fields[..k], stamps), fields[k]);
        assert InArea(StampAll(image, fields[..k], stamps), fields[k], areas[k]);
      } else {
        FrontWhole(fields, field);
      }
    }
  }

  lemma TfEntryCases(image: seq<byte>, at: nat, end: nat, st: State)
    requires at + 4 <= end <= |image|
    ensures var length, s := image[at + 2], Read(st, at + 3, at + 4);
            if image[at + 3] != 1 || length < 5 || at + length > end then TfEntry(image, at, end, st) == Fail(s)
            else
              var field, t := FieldAt(image, at), Read(s, at + 4, at + 5);
              && Later(t, TfEntry(image, at, end, st))
              && TfEntry(image, at, end, st) ==
                   if field.End() > at + length then Fail(t)
                   else t.(fields := t.fields + [field], entries := t.entries + {at})
  {
  }

  /** What normalize_tf checks. */
  lemma CheckedEntry(image: seq<byte>, offset: nat, from: nat, end: nat)
    requires from <= offset && offset + 5 <= end <= |image| && IsTf(image, offset) && image[offset + 3] == 1
    requires FieldAt(image, offset).End() <= offset + image[offset + 2] <= end
    ensures IsTfEntry(image, FieldAt(image, offset)) && InArea(image, FieldAt(image, offset), Interval(from, end))
  {
  }

  /** The walkers of normalize_iso_rock_ridge_timestamps and the variables that they share. */
  class Walker {
    const image: array<byte>
    const stamps: Stamps
    ghost const original: seq<byte>
    var dirs: set<Key>
    var conts: set<Key>
    var entries: set<nat>
    ghost var fields: seq<Field>
    ghost var areas: seq<Interval>

    /** The image is the original with the fields found so far stamped, each a TF entry of a System Use area. */
    ghost predicate Valid()
      reads this, image
    {
      && stamps.Valid() && |original| == image.Length && Within(fields, image.Length)
      && image[..] == StampAll(original, fields, stamps)
      && Recorded(original, fields, areas, stamps, entries) && AllLocated(areas, dirs, conts)
    }

    ghost predicate Matches(st: State)
      reads this
    {
      dirs == st.dirs && conts == st.conts && entries == st.entries && fields == st.fields
    }

    constructor (image: array<byte>, stamps: Stamps)
      requires stamps.Valid()
      ensures Valid() && Matches(START) && this.image == image && this.stamps == stamps && original == image[..]
    {
      this.image, this.stamps, this.original := image, stamps, image[..];
      dirs, conts, entries, fields, areas := {}, {}, {}, [], [];
    }

    /** When the scan ends up clean, what is read of the structure is still the original. */
    lemma Untouched(st: State, from: nat, to: nat, fin: State)
      requires Valid() && Clean(fin) && fields <= fin.fields && Later(Read(st, from, to), fin) && to <= image.Length
      ensures forall i | from <= i < to :: image[i] == original[i]
    {
      var j := |st.seen|;
      assert Read(st, from, to).seen[j] == fin.seen[j] == Interval(from, to);
      forall i | from <= i < to
        ensures image[i] == original[i]
      {
        CleanOutside(fin, j, i);
        OutsideEarlier(fields, fin.fields, i);
        StampAllAt(original, original, fields, stamps, i);
        assert image[i] == image[..][i];
      }
    }

    /** normalize_tf; `clean` says that the whole scan ends in `fin` with clean fields. */
    method NormalizeTf(offset: nat, end: nat, ghost from: nat, ghost st: State, ghost fin: State, ghost clean: bool)
      returns (ok: bool)
      requires Valid() && from <= offset && offset + 4 <= end <= image.Length && Located(Interval(from, end), dirs, conts)
      requires image[offset] == 84 && image[offset + 1] == 70
      requires clean ==> Clean(fin) && Matches(st) && !st.failed && Later(TfEntry(original, offset, end, st), fin)
      requires clean ==> image[offset + 2] == original[offset + 2]
      modifies this`entries, this`fields, this`areas, image
      ensures Valid() && old(fields) <= fields && old(entries) <= entries
      ensures ok ==>
                && offset + 5 <= end
                && fields == old(fields) + [FieldAt(old(image[..]), offset)] && areas == old(areas) + [Interval(from, end)]
                && image[..] == StampField(old(image[..]), FieldAt(old(image[..]), offset), stamps)
                && offset + 5 <= FieldAt(old(image[..]), offset).End() <= offset + old(image[offset + 2]) <= end
      ensures !ok ==> fields == old(fields) && image[..] == old(image[..])
      ensures clean ==> Matches(TfEntry(original, offset, end, st)) && ok == !TfEntry(original, offset, end, st).failed
    {
      hide Clean;
      hide Apart;
      hide StampAll;
      hide StampRun;
      hide Recorded;
      hide AllLocated;
      hide Located;
      hide IsTfEntry;
      hide InArea;
      hide TfEntry;
      TfEntryCases(original, offset, end, st);
      var length := image[offset + 2];
      if clean {
        Untouched(st, offset + 3, offset + 4, fin);
      }
      if image[offset + 3] != 1 || length < 5 || offset + length > end {
        return false;
      }
      if clean {
        Untouched(Read(st, offset + 3, offset + 4), offset + 4, offset + 5, fin);
      }
      var flags := image[offset + 4];
      var timestamp := stamps.Text(flags >= 128);
      var count := BitCount(flags % 128);
      ghost var field := FieldAt(image[..], offset);
      if 5 + count * |timestamp| > length {
        return false;
      }
      CheckedEntry(image[..], offset, from, end);
      RecordedMore(original, fields, areas, stamps, entries, field, Interval(from, end));
      AllLocatedMore(areas, Interval(from, end), dirs, conts);
      StampAt(offset + 5, count, timestamp);
      StampOneMore(original, fields, field, stamps);
      fields, areas := fields + [field], areas + [Interval(from, end)];
      entries := entries + {offset};
      return true;
    }

    /** The loop that assigns the slices. */
    method StampAt(start: nat, count: nat, text: seq<byte>)
      requires start + count * |text| <= image.Length
      modifies image
      ensures image[..] == StampRun(old(image[..]), start, count, text)
    {
      var cursor: nat, left: nat := start, count;
      while left > 0
        invariant cursor + left * |text| <= image.Length
        invariant StampRun(old(image[..]), start, count, text) == StampRun(image[..], cursor, left, text)
      {
        OneLess(left, |text|);
        AssignSlice(cursor, text);
        cursor := cursor + |text|;
        left := left - 1;
      }
    }

    /** One timestamp written over as many bytes of the image. */
    method AssignSlice(cursor: nat, text: seq<byte>)
      requires cursor + |text| <= image.Length
      modifies image
      ensures image[..] == Overwrite(old(image[..]), cursor, text)
    {
      forall k | 0 <= k < |text| {
        image[cursor + k] := text[k];
      }
    }

    method ReadBothEndian(at: nat) returns (n: Option<nat>)
      ensures n == BothEndian(image[..], at)
    {
      if at + 8 > image.Length {
        return None;
      }
      var little := Number(image[at + 3], image[at + 2], image[at + 1], image[at]);
      var big := Number(image[at + 4], image[at + 5], image[at + 6], image[at + 7]);
      return if little != big then None else Some(little);
    }

    /** The CE branch of normalize_susp */
    method NormalizeCe(at: nat, end: nat, ghost st: State, ghost fin: State, ghost clean: bool) returns (ok: bool)
      requires Valid() && at + 4 <= end <= image.Length && at + image[at + 2] <= end
      requires clean ==> Clean(fin) && Matches(st) && !st.failed && image[at + 2] == original[at + 2]
      requires clean ==> Later(CeEntry(original, at, end, st), fin)
      modifies this`conts, this`entries, this`fields, this`areas, image
      ensures Valid() && old(fields) <= fields && old(entries) <= entries && old(conts) <= conts
      ensures clean ==> Matches(CeEntry(original, at, end, st)) && ok == !CeEntry(original, at, end, st).failed
      decreases Keys() - conts, 0
    {
      hide Clean;
      hide Apart;
      hide StampAll;
      hide Recorded;
      hide AllLocated;
      hide Located;
      hide Keys;
      hide BothEndian;
      if clean {
        Untouched(st, at + 3, at + 4, fin);
      }
      if image[at + 2] < 28 || image[at + 3] != 1 {
        return false;
      }
      ghost var t := Read(Read(st, at + 3, at + 4), at + 4, at + 28);
      if clean {
        Untouched(Read(st, at + 3, at + 4), at + 4, at + 28, fin);
        SameNumbers(original, image[..], at + 4, 3);
        assert BothEndian(image[..], at + 4) == BothEndian(original, at + 4);
        assert BothEndian(image[..], at + 12) == BothEndian(original, at + 12);
        assert BothEndian(image[..], at + 20) == BothEndian(original, at + 20);
      }
      var extent := ReadBothEndian(at + 4);
      if extent.None? {
        return false;
      }
      var offset := ReadBothEndian(at + 12);
      if offset.None? {
        return false;
      }
      var length := ReadBothEndian(at + 20);
      if length.None? {
        return false;
      }
      var absolute := extent.value * SECTOR + offset.value;
      var key := (absolute, length.value);
      if key in conts {
        return true;
      }
      IsKey(key.0, key.1);
      AllLocatedGrows(areas, dirs, conts, dirs, conts + {key});
      conts := conts + {key};
      NotedIsLocated(key, dirs, conts);
      ok := NormalizeSusp(absolute, length.value, t.(conts := t.conts + {key}), fin, clean);
    }

    /** normalize_susp */
    method NormalizeSusp(start: nat, length: nat, ghost st: State, ghost fin: State, ghost clean: bool) returns (ok: bool)
      requires Valid() && Located(Interval(start, start + length), dirs, conts)
      requires clean ==> Clean(fin) && Matches(st) && !st.failed && Later(Area(original, start, length, st), fin)
      modifies this`conts, this`entries, this`fields, this`areas, image
      ensures Valid() && old(fields) <= fields && old(entries) <= entries && old(conts) <= conts
      ensures clean ==> Matches(Area(original, start, length, st)) && ok == !Area(original, start, length, st).failed
      decreases Keys() - conts, 1
    {
      hide Clean;
      hide Apart;
      hide StampAll;
      hide Recorded;
      hide AllLocated;
      hide Located;
      hide Keys;
      hide TfEntry;
      hide CeEntry;
      hide Entries;
      if start + length > image.Length {
        return false;
      }
      var cursor, end := start, start + length;
      ghost var s, whole := st, Entries(original, start, start + length, st);
      while cursor + 4 <= end
        invariant start <= cursor <= end <= image.Length
        invariant Valid() && old(fields) <= fields && old(entries) <= entries && old(conts) <= conts
        invariant Located(Interval(start, end), dirs, conts)
        invariant clean ==> Matches(s) && !s.failed && Entries(original, cursor, end, s) == whole
      {
        ghost var t := Read(s, cursor, cursor + 3);
        EntriesStep(original, cursor, end, s);
        if clean {
          Untouched(s, cursor, cursor + 3, fin);
        }
        var entryLength := image[cursor + 2];
        if image[cursor] == 0 && image[cursor + 1] == 0 && entryLength == 0 {
          return true;
        }
        if entryLength < 4 || cursor + entryLength > end {
          return false;
        }
        if image[cursor] == 84 && image[cursor + 1] == 70 {
          ok := NormalizeTf(cursor, end, start, t, fin, clean);
          s := if clean then TfEntry(original, cursor, end, t) else s;
        } else if image[cursor] == 67 && image[cursor + 1] == 69 {
          ghost var noted := conts;
          ok := NormalizeCe(cursor, end, t, fin, clean);
          LocatedGrows(Interval(start, end), dirs, noted, dirs, conts);
          s := if clean then CeEntry(original, cursor, end, t) else s;
        } else {
          ok := true;
          s := t;
        }
        if !ok {
          return;
        }
        cursor := cursor + entryLength;
      }
      EntriesStep(original, cursor, end, s);
      return true;
    }

    // ---- Directories ----

    /** One directory record, in visit_directory. */
    method VisitRecord(at: nat, ghost key: Key, ghost st: State, ghost fin: State, ghost clean: bool) returns (ok: bool)
      requires Valid() && at + 34 <= image.Length && image[at] >= 34 && at + image[at] <= image.Length
      requires key in dirs && key.0 * SECTOR <= at && at + image[at] <= key.0 * SECTOR + key.1
      requires clean ==> Clean(fin) && Matches(st) && !st.failed && image[at] == original[at]
      requires clean ==> Later(Record(original, at, st), fin)
      modifies this`dirs, this`conts, this`entries, this`fields, this`areas, image
      ensures Valid() && old(fields) <= fields && old(entries) <= entries && old(dirs) <= dirs
      ensures clean ==> Matches(Record(original, at, st)) && ok == !Record(original, at, st).failed
      decreases Keys() - dirs, 2
    {
      hide Clean;
      hide Apart;
      hide StampAll;
      hide Recorded;
      hide AllLocated;
      hide Located;
      hide Keys;
      hide Area;
      hide Child;
      hide SystemUse;
      hide Record;
      RecordStep(original, at, st);
      if clean {
        Untouched(st, at + 32, at + 33, fin);
      }
      var nameLength, end := image[at + 32], at + image[at];
      if at + 33 + nameLength > end {
        return false;
      }
      ghost var t := Read(st, at + 32, at + 33);
      var use := SystemUse(at, nameLength);
      if use < end {
        InsideIsLocated(Interval(use, end), key, dirs, conts);
        ok := NormalizeSusp(use, end - use, t, fin, clean);
        if !ok {
          return;
        }
        t := if clean then Area(original, use, end - use, t) else t;
      }
      ok := VisitChild(at, nameLength, t, fin, clean);
    }

    /** The directory that a record names, if it is one. */
    method VisitChild(at: nat, nameLength: nat, ghost st: State, ghost fin: State, ghost clean: bool) returns (ok: bool)
      requires Valid() && at + 34 <= image.Length && at + 33 + nameLength <= image.Length
      requires clean ==> Clean(fin) && Matches(st) && !st.failed && Later(Child(original, at, nameLength, st), fin)
      modifies this`dirs, this`conts, this`entries, this`fields, this`areas, image
      ensures Valid() && old(fields) <= fields && old(entries) <= entries && old(dirs) <= dirs
      ensures clean ==> Matches(Child(original, at, nameLength, st)) && ok == !Child(original, at, nameLength, st).failed
      decreases Keys() - dirs, 1
    {
      hide Clean;
      hide Apart;
      hide StampAll;
      hide Recorded;
      hide AllLocated;
      hide Located;
      hide Keys;
      hide BothEndian;
      hide Directory;
      if clean {
        Untouched(st, at + 25, at + 26, fin);
      }
      if image[at + 25] / 2 % 2 == 0 {
        return true;
      }
      ghost var u := Read(st, at + 25, at + 26);
      ghost var v := Read(u, at + 33, at + 33 + nameLength);
      if clean {
        Untouched(u, at + 33, at + 33 + nameLength, fin);
      }
      if nameLength == 1 && image[at + 33] in {0, 1} {
        return true;
      }
      if clean {
        Untouched(v, at + 2, at + 18, fin);
        SameNumbers(original, image[..], at + 2, 2);
      }
      var extent := ReadBothEndian(at + 2);
      if extent.None? {
        return false;
      }
      var size := ReadBothEndian(at + 10);
      if size.None? {
        return false;
      }
      ok := VisitDirectory(extent.value, size.value, Read(v, at + 2, at + 18), fin, clean);
    }

    /** visit_directory */
    method VisitDirectory(extent: nat, size: nat, ghost st: State, ghost fin: State, ghost clean: bool) returns (ok: bool)
      requires Valid() && extent < TWO_32 && size < TWO_32
      requires clean ==> Clean(fin) && Matches(st) && !st.failed && Later(Directory(original, extent, size, st), fin)
      modifies this`dirs, this`conts, this`entries, this`fields, this`areas, image
      ensures Valid() && old(fields) <= fields && old(entries) <= entries && old(dirs) <= dirs
      ensures clean ==> Matches(Directory(original, extent, size, st)) && ok == !Directory(original, extent, size, st).failed
      decreases Keys() - dirs, 0
    {
      hide Clean;
      hide Apart;
      hide StampAll;
      hide Recorded;
      hide AllLocated;
      hide Located;
      hide Keys;
      hide Record;
      hide Records;
      hide Directory;
      hide NextSector;
      DirectoryStep(original, extent, size, st);
      if (extent, size) in dirs {
        return true;
      }
      IsKey(extent, size);
      AllLocatedGrows(areas, dirs, conts, dirs + {(extent, size)}, conts);
      dirs := dirs + {(extent, size)};
      var base := extent * SECTOR;
      if size == 0 || base + size > image.Length {
        return false;
      }
      ghost var s := st.(dirs := st.dirs + {(extent, size)});
      ghost var whole := Records(original, base, size, 0, s);
      var position: nat := 0;
      while position < size
        invariant Valid() && old(fields) <= fields && old(entries) <= entries
        invariant old(dirs) + {(extent, size)} <= dirs
        invariant clean ==> Matches(s) && !s.failed && Records(original, base, size, position, s) == whole
      {
        var at := base + position;
        RecordsStep(original, base, size, position, s);
        if clean {
          Untouched(s, at, at + 1, fin);
        }
        s := Read(s, at, at + 1);
        var recordLength := image[at];
        if recordLength == 0 {
          position := NextSector(position);
        } else {
          if recordLength < 34 || at + recordLength > base + size {
            return false;
          }
          ok := VisitRecord(at, (extent, size), s, fin, clean);
          if !ok {
            return;
          }
          s := if clean then Record(original, at, s) else s;
          position := position + recordLength;
        }
      }
      RecordsStep(original, base, size, position, s);
      return true;
    }
  }

  /** The cases of a directory record. */
  lemma {:induction false} RecordStep(image: seq<byte>, at: nat, st: State)
    requires at + 34 <= |image|
    ensures image[at] >= 34 && at + image[at] <= |image| ==>
              var nameLength, end, s := image[at + 32], at + image[at], Read(st, at + 32, at + 33);
              var use := SystemUse(at, nameLength);
              if at + 33 + nameLength > end then Record(image, at, st) == Fail(s)
              else
                var t := if use < end then Area(image, use, end - use, s) else s;
                Record(image, at, st) == if t.failed then t else Child(image, at, nameLength, t)
  {
    hide Area;
    hide BothEndian;
    hide Directory;
    hide SystemUse;
  }

  lemma SameNumbers(a: seq<byte>, b: seq<byte>, at: nat, n: nat)
    requires |a| == |b| && at + 8 * n <= |a| && forall i | at <= i < at + 8 * n :: b[i] == a[i]
    ensures forall k | at <= k && k + 8 <= at + 8 * n :: BothEndian(b, k) == BothEndian(a, k)
  {
  }

  lemma OutsideEarlier(fields: seq<Field>, more: seq<Field>, i: nat)
    requires fields <= more && !Inside(more, i)
    ensures !Inside(fields, i)
  {
    forall k | 0 <= k < |fields|
      ensures !(fields[k].start <= i < fields[k].End())
    {
      assert more[k] == fields[k];
    }
  }

  lemma OneLess(left: nat, n: nat)
    requires left > 0
    ensures left * n == n + (left - 1) * n && (left - 1) * n >= 0
  {
  }

  // ---- The passes ----

  /** The loop over the volume descriptors before the walk. */
  method FindPrimary(image: array<byte>) returns (ok: bool, found: Option<nat>)
    ensures found.Some? ==> found.value + SECTOR <= image.Length
    ensures var primary := Descriptors(image[..], 16, None, []);
            ok == !primary.failed && (ok ==> found == primary.found)
  {
    found := None;
    var sector := 16;
    ghost var seen: seq<Interval> := [];
    while (sector + 1) * SECTOR <= image.Length
      invariant sector >= 16 && (found.Some? ==> found.value + SECTOR <= image.Length)
      invariant Descriptors(image[..], 16, None, []) == Descriptors(image[..], sector, found, seen)
      decreases image.Length - sector * SECTOR
    {
      var offset := sector * SECTOR;
      if image[offset + 1..offset + 7] != [67, 68, 48, 48, 49, 1] {
        return false, found;
      }
      seen := seen + [Interval(offset, offset + 7)];
      if image[offset] == 1 && found.None? {
        found := Some(offset);
      }
      if image[offset] == 255 {
        return true, found;
      }
      sector := sector + 1;
    }
    return true, found;
  }

  /**
   normalize_iso_rock_ridge_timestamps on the bytes of the image. On any image it ends, and it
   writes nothing but timestamps in the fields of entries that were TF entries when it came to them;
   if the fields are clean it does exactly what the scan of the untouched image says, and if it then ends
   without an error it has written every TF entry that can be reached from the root directory, and nothing else.
   */
  method NormalizeRockRidge(image: array<byte>, stamps: Stamps)
    returns (count: Option<nat>, entries: set<nat>, ghost fields: seq<Field>)
    requires stamps.Valid()
    modifies image
    ensures Within(fields, image.Length) && image[..] == StampAll(old(image[..]), fields, stamps)
    ensures DifferInside(old(image[..]), image[..], fields)
    ensures AllTfEntries(old(image[..]), fields, stamps)
    ensures forall k | 0 <= k < |fields| :: fields[k].start >= 5 && fields[k].start - 5 in entries && fields[k].count <= 7
    ensures count.Some? ==> entries != {} && count.value == |entries|
    ensures var scan := Scan(old(image[..]));
            Clean(scan) ==>
              && fields == scan.fields && entries == scan.entries
              && count == if scan.failed then None else Some(|scan.entries|)
    ensures Clean(Scan(old(image[..]))) && count.Some? ==> AllReached(old(image[..]), fields)
  {
    hide AllReached;
    hide Clean;
    hide Directory;
    hide Descriptors;
    hide BothEndian;
    hide StampAll;
    ghost var was, fin := image[..], Scan(image[..]);
    count, entries, fields := None, {}, [];
    assert StampAll(was, [], stamps) == was by { StampNothing(was, stamps); }
    StampsStayInside(was, [], stamps);
    var ok, primary := FindPrimary(image);
    if !ok || primary.None? {
      return;
    }
    var root := primary.value + 156;
    if root >= image.Length || image[root] < 34 {
      return;
    }
    var walker := new Walker(image, stamps);
    var extent, size := Option<nat>.None, Option<nat>.None;
    extent := walker.ReadBothEndian(root + 2);
    if extent.None? {
      return;
    }
    size := walker.ReadBothEndian(root + 10);
    if size.None? {
      return;
    }
    ghost var st := Read(Read(START.(seen := Descriptors(was, 16, None, []).seen), root, root + 1), root + 2, root + 18);
    ok := walker.VisitDirectory(extent.value, size.value, st, fin, Clean(fin));
    entries, fields := walker.entries, walker.fields;
    StampsStayInside(was, fields, stamps);
    SevenTimestamps(was, fields, stamps);
    if ok && entries != {} {
      count := Some(|entries|);
    }
    if !fin.failed {
      ScanReachesAll(was);
    }
  }

  /** A TF entry has at most seven timestamps. */
  lemma SevenTimestamps(image: seq<byte>, fields: seq<Field>, stamps: Stamps)
    requires AllTfEntries(image, fields, stamps)
    ensures forall k | 0 <= k < |fields| :: fields[k].count <= 7
  {
    assert Limit(7) == 128;
    forall k | 0 <= k < |fields|
      ensures fields[k].count <= 7
    {
      assert IsTfEntry(StampAll(image, fields[..k], stamps), fields[k]);
      FewBits(StampAll(image, fields[..k], stamps)[fields[k].start - 1] % 128, 7);
    }
  }

  function Limit(k: nat): nat { if k == 0 then 1 else 2 * Limit(k - 1) }

  lemma {:induction false} FewBits(n: nat, k: nat)
    requires n < Limit(k)
    ensures BitCount(n) <= k
  {
    if n > 0 {
      FewBits(n / 2, k - 1);
    }
  }

  lemma {:induction false} StampNothing(image: seq<byte>, stamps: Stamps)
    ensures StampAll(image, [], stamps) == image
  {
  }

  lemma {:induction false} StillThere(was: seq<byte>, now: seq<byte>, st: State, fields: seq<Field>, stamps: Stamps,
                                      at: nat, fin: State)
    requires stamps.Valid() && Clean(fin) && fields <= fin.fields && Within(fields, |was|)
    requires now == StampAll(was, fields, stamps) && Later(Read(st, at, at + 7), fin) && at + 7 <= |was|
    ensures now[at] == was[at] && now[at + 1..at + 7] == was[at + 1..at + 7]
  {
    var j := |st.seen|;
    assert Read(st, at, at + 7).seen[j] == fin.seen[j] == Interval(at, at + 7);
    forall i | at <= i < at + 7
      ensures now[i] == was[i]
    {
      CleanOutside(fin, j, i);
      OutsideEarlier(fields, fin.fields, i);
      StampAllAt(was, was, fields, stamps, i);
    }
  }

  lemma VolumeStep(image: seq<byte>, sector: nat, st: State)
    requires (sector + 1) * SECTOR <= |image|
    ensures var at := sector * SECTOR;
            var s := Read(st, at, at + 7);
            var t := if image[at] in {1, 2} then Dated(s, at) else s;
            && Later(s, Volume(image, sector, st))
            && Volume(image, sector, st) ==
                 if image[at + 1..at + 7] != [67, 68, 48, 48, 49, 1] then Fail(s)
                 else if image[at] == 255 then (if t.entries == {} then Fail(t) else t)
                 else Volume(image, sector + 1, t)
  {
  }

  /** One descriptor: its three dates. */
  method StampDates(image: array<byte>, at: nat, stamps: Stamps)
    requires stamps.Valid() && at + SECTOR <= image.Length
    modifies image
    ensures image[..] == StampAll(old(image[..]), [Field(at + 813, 1, true), Field(at + 830, 1, true), Field(at + 864, 1, true)], stamps)
  {
    var walker := new Walker(image, stamps);
    ghost var was, fields := image[..], [Field(at + 813, 1, true), Field(at + 830, 1, true), Field(at + 864, 1, true)];
    StampOneMore(was, [], fields[0], stamps);
    StampOneMore(was, [fields[0]], fields[1], stamps);
    StampOneMore(was, [fields[0], fields[1]], fields[2], stamps);
    assert [fields[0], fields[1]] + [fields[2]] == fields && [fields[0]] + [fields[1]] == [fields[0], fields[1]];
    assert [] + [fields[0]] == [fields[0]];
    StampNothing(was, stamps);
    hide StampAll;
    hide StampRun;
    walker.StampAt(at + 813, 1, stamps.long);
    walker.StampAt(at + 830, 1, stamps.long);
    walker.StampAt(at + 864, 1, stamps.long);
  }

  /** The dates of a descriptor, when it has any. */
  function DatesAt(descriptorType: byte, at: nat): seq<Field> {
    if descriptorType in {1, 2} then [Field(at + 813, 1, true), Field(at + 830, 1, true), Field(at + 864, 1, true)] else []
  }

  /** One round of the loop; `None` is a descriptor that is none. */
  method NormalizeDescriptor(image: array<byte>, offset: nat, stamps: Stamps) returns (descriptorType: Option<byte>)
    requires stamps.Valid() && offset + SECTOR <= image.Length
    modifies image
    ensures old(image[..])[offset + 1..offset + 7] != [67, 68, 48, 48, 49, 1] ==>
              descriptorType == None && image[..] == old(image[..])
    ensures old(image[..])[offset + 1..offset + 7] == [67, 68, 48, 48, 49, 1] ==>
              && descriptorType == Some(old(image[offset]))
              && image[..] == StampAll(old(image[..]), DatesAt(old(image[offset]), offset), stamps)
  {
    StampNothing(image[..], stamps);
    hide StampAll;
    assert image[..][offset + 1..offset + 7] == image[offset + 1..offset + 7];
    if image[offset + 1..offset + 7] != [67, 68, 48, 48, 49, 1] {
      return None;
    }
    descriptorType := Some(image[offset]);
    if image[offset] in {1, 2} {
      StampDates(image, offset, stamps);
    }
  }

  /** normalize_volume_descriptors on the bytes of the image: on every image what the scan of the untouched one says. */
  method NormalizeVolume(image: array<byte>, stamps: Stamps) returns (count: Option<nat>)
    requires stamps.Valid()
    modifies image
    ensures var scan := Volume(old(image[..]), 16, START);
            && image[..] == StampAll(old(image[..]), scan.fields, stamps)
            && count == if scan.failed then None else Some(|scan.entries|)
  {
    hide Clean;
    hide StampAll;
    hide Sectored;
    hide Volume;
    hide IsDescriptor;
    hide Within;
    ghost var was, fin, st := image[..], Volume(image[..], 16, START), START;
    StartIsSectored();
    VolumeIsClean(was, 16, START);
    StampNothing(was, stamps);
    assert Within(st.fields, |was|) by { WithinNothing(|was|); }
    var sector, normalized := 16, 0;
    while (sector + 1) * SECTOR <= image.Length
      invariant sector >= 16 && !st.failed && Within(st.fields, |was|)
      invariant fin == Volume(was, sector, st)
      invariant image[..] == StampAll(was, st.fields, stamps)
      invariant normalized == |st.entries| && forall e | e in st.entries :: e < sector * SECTOR
      decreases image.Length - sector * SECTOR
    {
      var offset := sector * SECTOR;
      VolumeStep(was, sector, st);
      StillThere(was, image[..], st, st.fields, stamps, offset, fin);
      StampTwice(was, st.fields, DatesAt(was[offset], offset), stamps);
      MoreWithin(st.fields, was[offset], offset, |was|);
      assert image[..][offset] == image[offset];
      st := Read(st, offset, offset + 7);
      var descriptorType := NormalizeDescriptor(image, offset, stamps);
      if descriptorType.None? {
        return None;
      }
      if descriptorType.value in {1, 2} {
        st := Dated(st, offset);
        normalized := normalized + 1;
      } else {
        assert st.fields + [] == st.fields;
      }
      if descriptorType.value == 255 {
        return if normalized == 0 then None else Some(normalized);
      }
      sector := sector + 1;
    }
    VolumeEnd(was, sector, st);
    return None;
  }

  lemma WithinNothing(n: nat)
    ensures Within([], n)
  {
  }

  lemma MoreWithin(fields: seq<Field>, descriptorType: byte, at: nat, n: nat)
    requires Within(fields, n) && at + SECTOR <= n
    ensures Within(fields + DatesAt(descriptorType, at), n)
  {
  }

  lemma {:induction false} VolumeEnd(image: seq<byte>, sector: nat, st: State)
    requires (sector + 1) * SECTOR > |image|
    ensures Volume(image, sector, st) == Fail(st)
  {
  }

  /** The bytearray that a pass works on. */
  method Bytearray(content: seq<byte>) returns (image: array<byte>)
    ensures fresh(image) && image[..] == content
  {
    image := new byte[|content|](i requires 0 <= i < |content| => content[i]);
    assert image[..] == content;
  }

  /** Both passes over the file; an error in either leaves what was there, and `None` reports it. */
  method NormalizeFile(content: seq<byte>, stamps: Stamps) returns (r: Option<seq<byte>>, ghost fields: seq<Field>)
    requires stamps.Valid()
    ensures Clean(Both(content)) ==> r == Normalized(content, stamps)
    ensures Clean(Both(content)) && r.Some? ==> AllReached(content, fields)
    ensures var dates := Volume(content, 16, START);
            if dates.failed then r == None
            else
              var dated := StampAll(content, dates.fields, stamps);
              && AllTfEntries(dated, fields, stamps)
              && (r.Some? ==>
                    && r.value == StampAll(dated, fields, stamps)
                    && DifferInside(content, r.value, dates.fields + fields))
  {
    hide AllReached;
    hide Clean;
    hide StampAll;
    hide Scan;
    hide Volume;
    hide Within;
    fields := [];
    var image := Bytearray(content);
    VolumeIsClean(content, 16, START);
    VolumeWithin(content);
    var dates := NormalizeVolume(image, stamps);
    if dates.None? {
      return None, [];
    }
    ghost var dated := image[..];
    CleanAfterDates(content, stamps);
    var count, entries;
    count, entries, fields := NormalizeRockRidge(image, stamps);
    if count.Some? && Clean(Both(content)) {
      ScanReachesAll(content);
    }
    DifferTwice(content, dated, image[..], Volume(content, 16, START).fields, fields, stamps);
    return if count.None? then None else Some(image[..]), fields;
  }

  lemma {:induction false} VolumeWithin(content: seq<byte>)
    ensures Within(Volume(content, 16, START).fields, |content|)
  {
  }

  lemma {:induction false} DifferTwice(a: seq<byte>, b: seq<byte>, c: seq<byte>, first: seq<Field>,
                                       second: seq<Field>, stamps: Stamps)
    requires stamps.Valid() && Within(first, |a|) && b == StampAll(a, first, stamps) && DifferInside(b, c, second)
    ensures DifferInside(a, c, first + second)
  {
    StampsStayInside(a, first, stamps);
    forall i | 0 <= i < |a| && a[i] != c[i]
      ensures Inside(first + second, i)
    {
      InsideParts(first, second, i);
    }
  }

  /** Clean fields stay clean when the dates have been written. */
  lemma {:induction false} CleanAfterDates(content: seq<byte>, stamps: Stamps)
    requires stamps.Valid()
    ensures var dated := StampAll(content, Volume(content, 16, START).fields, stamps);
            Clean(Both(content)) ==> Clean(Scan(dated)) && Scan(dated) == Scan(content)
  {
    if Clean(Both(content)) {
      var dates, rock := Volume(content, 16, START), Scan(content);
      var dated := StampAll(content, dates.fields, stamps);
      StampsStayInside(content, dates.fields, stamps);
      forall i | 0 <= i < |content| && content[i] != dated[i]
        ensures Inside(Both(content).fields, i)
      {
        InsideParts(dates.fields, rock.fields, i);
      }
      BothAgree(content, dated);
      CleanParts(Both(content), dates, rock);
      forall j, k | 0 <= j < |rock.seen| && 0 <= k < |rock.fields|
        ensures Apart(rock.seen[j], rock.fields[k])
      {
        assert Both(content).fields[|dates.fields| + k] == rock.fields[k];
        assert Apart(rock.seen[j], Both(content).fields[|dates.fields| + k]);
      }
    }
  }
}
