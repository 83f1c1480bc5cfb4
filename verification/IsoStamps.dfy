/** What writing the timestamps makes of an image, and when that does not depend on what was there. */
module IsoStamps {
  import opened Bytes
  import opened IsoScan

  /** The two encodings of the build date. */
  datatype Stamps = Stamps(short: seq<byte>, long: seq<byte>) {
    predicate Valid() { |short| == SHORT_WIDTH && |long| == LONG_WIDTH }

    function Text(long: bool): seq<byte> { if long then this.long else short }
  }

  /** A text written `count` times in a row, as far as it fits. */
  function StampRun(image: seq<byte>, start: nat, count: nat, text: seq<byte>): (r: seq<byte>)
    ensures |r| == |image|
    decreases count
  {
    if count == 0 || start + |text| > |image| then image
    else StampRun(Overwrite(image, start, text), start + |text|, count - 1, text)
  }

  function StampField(image: seq<byte>, field: Field, stamps: Stamps): (r: seq<byte>)
    ensures |r| == |image|
  {
    StampRun(image, field.start, field.count, stamps.Text(field.long))
  }

  /** All fields, in the order in which they were found. */
  function StampAll(image: seq<byte>, fields: seq<Field>, stamps: Stamps): (r: seq<byte>)
    ensures |r| == |image|
  {
    if fields == [] then image
    else StampField(StampAll(image, fields[..|fields| - 1], stamps), fields[|fields| - 1], stamps)
  }

  lemma {:induction false} StampOneMore(image: seq<byte>, fields: seq<Field>, field: Field, stamps: Stamps)
    ensures StampAll(image, fields + [field], stamps) == StampField(StampAll(image, fields, stamps), field, stamps)
  {
    assert (fields + [field])[..|fields|] == fields;
  }

  lemma {:induction false} StampTwice(image: seq<byte>, first: seq<Field>, second: seq<Field>, stamps: Stamps)
    ensures StampAll(image, first + second, stamps) == StampAll(StampAll(image, first, stamps), second, stamps)
  {
    if second == [] {
      assert first + second == first;
    } else {
      var n := |second| - 1;
      StampTwice(image, first, second[..n], stamps);
      assert (first + second)[..|first| + n] == first + second[..n];
    }
  }

  /** After a run two images agree where they agreed, and in the run. */
  lemma {:induction false} StampRunAt(a: seq<byte>, b: seq<byte>, start: nat, count: nat, text: seq<byte>, i: nat)
    requires |a| == |b| && i < |a| && start + count * |text| <= |a|
    ensures a[i] == b[i] || start <= i < start + count * |text| ==>
              StampRun(a, start, count, text)[i] == StampRun(b, start, count, text)[i]
    ensures !(start <= i < start + count * |text|) ==> StampRun(a, start, count, text)[i] == a[i]
    decreases count
  {
    if count > 0 {
      var n := |text|;
      assert count * n == n + (count - 1) * n;
      assert (count - 1) * n >= 0;
      StampRunAt(Overwrite(a, start, text), Overwrite(b, start, text), start + n, count - 1, text, i);
    }
  }

  /** After all stamps two images agree where they agreed, and in every field. */
  lemma {:induction false} StampAllAt(a: seq<byte>, b: seq<byte>, fields: seq<Field>, stamps: Stamps, i: nat)
    requires stamps.Valid() && |a| == |b| && i < |a| && Within(fields, |a|)
    ensures a[i] == b[i] || Inside(fields, i) ==> StampAll(a, fields, stamps)[i] == StampAll(b, fields, stamps)[i]
    ensures !Inside(fields, i) ==> StampAll(a, fields, stamps)[i] == a[i]
  {
    if fields != [] {
      var n := |fields| - 1;
      var rest, last := fields[..n], fields[n];
      assert Within(rest, |a|);
      StampAllAt(a, b, rest, stamps, i);
      StampRunAt(StampAll(a, rest, stamps), StampAll(b, rest, stamps), last.start, last.count, stamps.Text(last.long), i);
      assert Inside(fields, i) <==> Inside(rest, i) || last.start <= i < last.End() by {
        if Inside(rest, i) {
          var k :| 0 <= k < n && rest[k].start <= i < rest[k].End();
          assert fields[k] == rest[k];
        }
        if Inside(fields, i) {
          var k :| 0 <= k <= n && fields[k].start <= i < fields[k].End();
          assert k < n ==> fields[k] == rest[k];
        }
      }
    }
  }

  /** The two images differ in the fields at most. */
  ghost predicate DifferInside(a: seq<byte>, b: seq<byte>, fields: seq<Field>) {
    |a| == |b| && forall i | 0 <= i < |a| && a[i] != b[i] :: Inside(fields, i)
  }

  lemma {:induction false} StampsStayInside(image: seq<byte>, fields: seq<Field>, stamps: Stamps)
    requires stamps.Valid() && Within(fields, |image|)
    ensures DifferInside(image, StampAll(image, fields, stamps), fields)
  {
    forall i | 0 <= i < |image| && image[i] != StampAll(image, fields, stamps)[i]
      ensures Inside(fields, i)
    {
      StampAllAt(image, image, fields, stamps, i);
    }
  }

  lemma {:induction false} StampsAgree(a: seq<byte>, b: seq<byte>, fields: seq<Field>, stamps: Stamps)
    requires stamps.Valid() && Within(fields, |a|) && DifferInside(a, b, fields)
    ensures StampAll(a, fields, stamps) == StampAll(b, fields, stamps)
  {
    forall i | 0 <= i < |a|
      ensures StampAll(a, fields, stamps)[i] == StampAll(b, fields, stamps)[i]
    {
      StampAllAt(a, b, fields, stamps, i);
    }
  }

  lemma CleanOutside(st: State, j: nat, i: nat)
    requires Clean(st) && j < |st.seen| && st.seen[j].from <= i < st.seen[j].to
    ensures !Inside(st.fields, i)
  {
    forall k | 0 <= k < |st.fields|
      ensures !(st.fields[k].start <= i < st.fields[k].End())
    {
      assert Apart(st.seen[j], st.fields[k]);
    }
  }

  /** What differs in the fields only looks the same to a clean scan. */
  lemma CleanMeansAgree(a: seq<byte>, b: seq<byte>, st: State)
    requires Clean(st) && DifferInside(a, b, st.fields)
    ensures AgreeOn(a, b, st.seen)
  {
    forall j | 0 <= j < |st.seen|
      ensures SameBytes(a, b, st.seen[j])
    {
      forall i | st.seen[j].from <= i < st.seen[j].to && i < |a|
        ensures a[i] == b[i]
      {
        CleanOutside(st, j, i);
      }
    }
  }

  // ---- Main results ----

  /** Two images that differ in the TF fields only come out as the same image. */
  lemma {:induction false} RockRidgeAgrees(a: seq<byte>, b: seq<byte>, stamps: Stamps)
    requires stamps.Valid() && Clean(Scan(a)) && DifferInside(a, b, Scan(a).fields)
    ensures Scan(b) == Scan(a)
    ensures StampAll(b, Scan(b).fields, stamps) == StampAll(a, Scan(a).fields, stamps)
  {
    ScanWithin(a);
    CleanMeansAgree(a, b, Scan(a));
    ScanLocal(a, b);
    StampsAgree(a, b, Scan(a).fields, stamps);
  }

  lemma ScanWithin(image: seq<byte>)
    ensures Within(Scan(image).fields, |image|)
  {
  }

  /** What both passes make of an image; `None` is an error, which leaves the file alone. */
  ghost function Normalized(image: seq<byte>, stamps: Stamps): Option<seq<byte>> {
    var dates := Volume(image, 16, START);
    if dates.failed then None
    else
      var dated := StampAll(image, dates.fields, stamps);
      var rock := Scan(dated);
      if rock.failed then None else Some(StampAll(dated, rock.fields, stamps))
  }

  /** The two passes seen as one. */
  ghost function Both(image: seq<byte>): State {
    var dates, rock := Volume(image, 16, START), Scan(image);
    State(rock.dirs, rock.conts, dates.entries + rock.entries, dates.fields + rock.fields,
          dates.seen + rock.seen, dates.failed || rock.failed)
  }

  lemma CleanParts(both: State, a: State, b: State)
    requires Clean(both) && both.seen == a.seen + b.seen && both.fields == a.fields + b.fields
    ensures Clean(a.(fields := both.fields)) && Clean(b.(fields := both.fields))
  {
    forall j, k | 0 <= j < |a.seen| && 0 <= k < |both.fields|
      ensures Apart(a.seen[j], both.fields[k])
    {
      assert a.seen[j] == both.seen[j];
    }
    forall j, k | 0 <= j < |b.seen| && 0 <= k < |both.fields|
      ensures Apart(b.seen[j], both.fields[k])
    {
      assert b.seen[j] == both.seen[|a.seen| + j];
    }
  }

  lemma InsideParts(a: seq<Field>, b: seq<Field>, i: nat)
    ensures Inside(a + b, i) <==> Inside(a, i) || Inside(b, i)
  {
    if Inside(a, i) {
      var k :| 0 <= k < |a| && a[k].start <= i < a[k].End();
      assert (a + b)[k] == a[k];
    }
    if Inside(b, i) {
      var k :| 0 <= k < |b| && b[k].start <= i < b[k].End();
      assert (a + b)[|a| + k] == b[k];
    }
  }

  /** With clean fields, two images that differ in them only are scanned alike by both passes. */
  lemma {:induction false} BothAgree(a: seq<byte>, b: seq<byte>)
    requires Clean(Both(a)) && DifferInside(a, b, Both(a).fields)
    ensures Volume(b, 16, START) == Volume(a, 16, START) && Scan(b) == Scan(a)
  {
    var dates, rock, all := Volume(a, 16, START), Scan(a), Both(a).fields;
    CleanParts(Both(a), dates, rock);
    CleanMeansAgree(a, b, dates.(fields := all));
    CleanMeansAgree(a, b, rock.(fields := all));
    VolumeLocal(a, b, 16, START);
    ScanLocal(a, b);
  }

  /** One stamping with all fields, when they are clean. */
  lemma {:induction false} NormalizedAtOnce(a: seq<byte>, stamps: Stamps)
    requires stamps.Valid() && Clean(Both(a))
    ensures Normalized(a, stamps) == if Both(a).failed then None else Some(StampAll(a, Both(a).fields, stamps))
  {
    var dates, rock := Volume(a, 16, START), Scan(a);
    StampsStayInside(a, dates.fields, stamps);
    var dated := StampAll(a, dates.fields, stamps);
    forall i | 0 <= i < |a| && a[i] != dated[i]
      ensures Inside(Both(a).fields, i)
    {
      InsideParts(dates.fields, rock.fields, i);
    }
    BothAgree(a, dated);
    StampTwice(a, dates.fields, rock.fields, stamps);
  }

  /** Images that differ only in volume descriptor dates and TF fields normalize to the same image. */
  lemma NormalizedAgrees(a: seq<byte>, b: seq<byte>, stamps: Stamps)
    requires stamps.Valid() && Clean(Both(a)) && DifferInside(a, b, Both(a).fields)
    ensures Normalized(b, stamps) == Normalized(a, stamps)
  {
    BothAgree(a, b);
    NormalizedAtOnce(a, stamps);
    NormalizedAtOnce(b, stamps);
    ScanWithin(a);
    StampsAgree(a, b, Both(a).fields, stamps);
  }

  /** Normalizing a second time changes nothing. */
  lemma NormalizedIsFixed(a: seq<byte>, stamps: Stamps)
    requires stamps.Valid() && Clean(Both(a)) && Normalized(a, stamps).Some?
    ensures Normalized(Normalized(a, stamps).value, stamps) == Normalized(a, stamps)
  {
    NormalizedAtOnce(a, stamps);
    ScanWithin(a);
    StampsStayInside(a, Both(a).fields, stamps);
    NormalizedAgrees(a, Normalized(a, stamps).value, stamps);
  }
}
