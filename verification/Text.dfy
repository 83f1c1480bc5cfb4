/** Texts and their split at a separator element. */
module Text {
  /** The first separator at or after k, or the end of the text. */
  function Next<T(==)>(text: seq<T>, sep: T, k: nat): (n: nat)
    requires k <= |text|
    ensures k <= n <= |text|
    ensures forall i | k <= i < n :: text[i] != sep
    ensures n < |text| ==> text[n] == sep
    decreases |text| - k
  {
    if k == |text| || text[k] == sep then k else Next(text, sep, k + 1)
  }

  lemma {:induction false} NextIs<T>(text: seq<T>, sep: T, k: nat, n: nat)
    requires k <= n <= |text| && (n < |text| ==> text[n] == sep)
    requires forall i | k <= i < n :: text[i] != sep
    ensures Next(text, sep, k) == n
  {
  }

  /** The names from position k on. */
  function SplitFrom<T(==)>(text: seq<T>, sep: T, k: nat): (parts: seq<seq<T>>)
    requires k <= |text|
    ensures |parts| > 0
    decreases |text| - k
  {
    var n := Next(text, sep, k);
    if n == |text| then [text[k..n]] else [text[k..n]] + SplitFrom(text, sep, n + 1)
  }

  function Split<T(==)>(text: seq<T>, sep: T): (parts: seq<seq<T>>)
    ensures |parts| > 0
  {
    SplitFrom(text, sep, 0)
  }

  function Join<T(==)>(parts: seq<seq<T>>, sep: T): seq<T>
    requires |parts| > 0
  {
    if |parts| == 1 then parts[0] else parts[0] + [sep] + Join(parts[1..], sep)
  }

  predicate Plain<T(==)>(name: seq<T>, sep: T) {
    sep !in name
  }

  predicate AllPlain<T(==)>(parts: seq<seq<T>>, sep: T) {
    forall i | 0 <= i < |parts| :: Plain(parts[i], sep)
  }

  lemma {:induction false} SplitStep<T>(text: seq<T>, sep: T, k: nat, n: nat)
    requires k <= |text| && n == Next(text, sep, k)
    ensures n == |text| ==> SplitFrom(text, sep, k) == [text[k..n]]
    ensures n < |text| ==> SplitFrom(text, sep, k) == [text[k..n]] + SplitFrom(text, sep, n + 1)
  {
    hide Next;
  }

  lemma {:induction false} SplitShift<T>(front: seq<T>, rest: seq<T>, sep: T, k: nat)
    requires k <= |rest|
    ensures SplitFrom(front + rest, sep, |front| + k) == SplitFrom(rest, sep, k)
    decreases |rest| - k
  {
    hide Next;
    hide SplitFrom;
    var n := Next(rest, sep, k);
    var text, j, m := front + rest, |front| + k, |front| + n;
    NextIs(text, sep, j, m);
    SplitStep(text, sep, j, m);
    SplitStep(rest, sep, k, n);
    assert text[j..m] == rest[k..n];
    if n < |rest| {
      SplitShift(front, rest, sep, n + 1);
      assert |front| + (n + 1) == m + 1;
    }
  }

  lemma {:induction false} SplitJoin<T>(parts: seq<seq<T>>, sep: T)
    requires |parts| > 0 && AllPlain(parts, sep)
    ensures Split(Join(parts, sep), sep) == parts
  {
    var text, first := Join(parts, sep), parts[0];
    NextIs(text, sep, 0, |first|);
    assert text[0..|first|] == first;
    if |parts| > 1 {
      SplitJoin(parts[1..], sep);
      SplitShift(first + [sep], Join(parts[1..], sep), sep, 0);
    }
  }

  /** Any separator separates the names before it from the names after it. */
  lemma {:induction false} SplitAt<T>(text: seq<T>, sep: T, k: nat, cut: nat)
    requires k <= cut < |text| && text[cut] == sep
    ensures SplitFrom(text, sep, k) == SplitFrom(text[..cut], sep, k) + SplitFrom(text, sep, cut + 1)
    decreases cut - k
  {
    var n := Next(text, sep, k);
    assert n <= cut;
    NextIs(text[..cut], sep, k, n);
    assert text[..cut][k..n] == text[k..n];
    if n < cut {
      SplitAt(text, sep, n + 1, cut);
    }
  }

  // ---- str.strip ----

  function StripLeft<T>(text: seq<T>, blank: T -> bool): seq<T> {
    if text != [] && blank(text[0]) then StripLeft(text[1..], blank) else text
  }

  function StripRight<T>(text: seq<T>, blank: T -> bool): seq<T> {
    if text != [] && blank(text[|text| - 1]) then StripRight(text[..|text| - 1], blank) else text
  }

  function Strip<T>(text: seq<T>, blank: T -> bool): seq<T> { StripRight(StripLeft(text, blank), blank) }
}
