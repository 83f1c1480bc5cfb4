/**
 The card's directory tree as a map from paths to entries, the tree after each system call
 that r1-filectl makes, and what those calls preserve.
 */
module Tree {
  import opened Bytes
  import opened Paths

  datatype Entry = Dir | File(content: seq<byte>) | Link(target: seq<byte>)

  type Fs = map<Path, Entry>

  // "trash", "incoming", "item", "metadata", "payload.part"
  const TRASH: Name := [116, 114, 97, 115, 104]
  const INCOMING: Name := [105, 110, 99, 111, 109, 105, 110, 103]
  const ITEM: Name := [105, 116, 101, 109]
  const METADATA: Name := [109, 101, 116, 97, 100, 97, 116, 97]
  const PAYLOAD: Name := [112, 97, 121, 108, 111, 97, 100, 46, 112, 97, 114, 116]

  function Up(p: Path): Path
    requires p != []
  {
    p[..|p| - 1]
  }

  predicate IsDir(fs: Fs, p: Path) { p in fs && fs[p] == Dir }

  /** Every entry has a name that fits and hangs on a directory; files and links have nothing below them. */
  ghost predicate WellFormed(fs: Fs) {
    && IsDir(fs, [])
    && forall p | p in fs && p != [] :: IsDir(fs, Up(p)) && |p[|p| - 1]| <= NAME_MAX
  }

  /** No entry lies strictly below p. */
  predicate Bare(fs: Fs, p: Path) {
    forall r | r in fs && p <= r :: r == p
  }

  lemma {:induction false} AncestorsAreDirs(fs: Fs, p: Path, r: Path)
    requires WellFormed(fs) && r in fs && p <= r && p != r
    ensures IsDir(fs, p)
    decreases |r|
  {
    var up := Up(r);
    assert p <= up;
    if p != up {
      AncestorsAreDirs(fs, p, up);
    }
  }

  lemma OnlyDirsHaveEntries(fs: Fs, p: Path)
    requires WellFormed(fs) && !IsDir(fs, p)
    ensures Bare(fs, p)
  {
    forall r | r in fs && p <= r
      ensures r == p
    {
      if r != p {
        AncestorsAreDirs(fs, p, r);
      }
    }
  }

  /** The entry named p in one tree and the entry named q in another are the same, all the way down. */
  ghost predicate SameTree(a: Fs, p: Path, b: Fs, q: Path) {
    forall r: Path :: (p + r in a <==> q + r in b) && (p + r in a ==> a[p + r] == b[q + r])
  }

  lemma AddedIsWellFormed(fs: Fs, p: Path, entry: Entry)
    requires WellFormed(fs) && p != [] && p !in fs && IsDir(fs, Up(p)) && |p[|p| - 1]| <= NAME_MAX
    ensures WellFormed(fs[p := entry])
  {
  }

  lemma TopIsDir(fs: Fs)
    requires WellFormed(fs)
    ensures IsDir(fs, [])
  {
  }

  lemma RewrittenIsWellFormed(fs: Fs, p: Path, content: seq<byte>)
    requires WellFormed(fs) && p in fs && fs[p].File?
    ensures WellFormed(fs[p := File(content)])
  {
  }

  lemma RemovedIsWellFormed(fs: Fs, p: Path)
    requires WellFormed(fs) && p != [] && Bare(fs, p)
    ensures WellFormed(fs - {p})
  {
    assert forall r | r in fs && r != [] && Up(r) == p :: p <= r && p != r;
  }

  lemma SameTreeTop(a: Fs, p: Path, b: Fs, q: Path)
    requires SameTree(a, p, b, q)
    ensures (p in a <==> q in b) && (p in a ==> a[p] == b[q])
  {
    assert p + [] == p && q + [] == q;
  }

  lemma SameTreeTransitive(a: Fs, p: Path, b: Fs, q: Path, c: Fs, s: Path)
    requires SameTree(a, p, b, q) && SameTree(b, q, c, s)
    ensures SameTree(a, p, c, s)
  {
    forall r: Path
      ensures (p + r in a <==> s + r in c) && (p + r in a ==> a[p + r] == c[s + r])
    {
      assert q + r in b <==> s + r in c;
    }
  }

  /** The two trees agree about r. */
  predicate Agree(a: Fs, b: Fs, r: Path) {
    (r in a <==> r in b) && (r in a ==> a[r] == b[r])
  }

  // ---- renameat ----

  /** Where the entry that a move puts at r comes from. */
  function Origin(src: Path, dst: Path, r: Path): Path {
    if dst <= r then src + r[|dst|..] else r
  }

  /** src and everything below it moved to dst, in the place of whatever was there. */
  function Renamed(fs: Fs, src: Path, dst: Path): Fs {
    var kept := set r | r in fs && !(src <= r) && !(dst <= r);
    var moved := set r | r in fs && src <= r :: dst + r[|src|..];
    map r | r in kept + moved && Origin(src, dst, r) in fs :: fs[Origin(src, dst, r)]
  }

  lemma RenamedAt(fs: Fs, src: Path, dst: Path, r: Path)
    ensures var after, origin := Renamed(fs, src, dst), Origin(src, dst, r);
            && (r in after <==> origin in fs && (dst <= r || !(src <= r)))
            && (r in after ==> after[r] == fs[origin])
  {
    if dst <= r {
      var s := Origin(src, dst, r);
      assert s[|src|..] == r[|dst|..] && dst + s[|src|..] == r;
    } else {
      assert forall t | t in fs && src <= t :: dst <= dst + t[|src|..];
    }
  }

  lemma RenamedIsWellFormed(fs: Fs, src: Path, dst: Path)
    requires WellFormed(fs) && src in fs && src != [] && dst != []
    requires IsDir(fs, Up(dst)) && !(src <= dst) && Bare(fs, dst) && |dst[|dst| - 1]| <= NAME_MAX
    ensures WellFormed(Renamed(fs, src, dst))
  {
    var after := Renamed(fs, src, dst);
    RenamedAt(fs, src, dst, []);
    forall p | p in after && p != []
      ensures IsDir(after, Up(p)) && |p[|p| - 1]| <= NAME_MAX
    {
      RenamedAt(fs, src, dst, p);
      RenamedAt(fs, src, dst, Up(p));
      RenamedUp(src, dst, p);
      hide Renamed;
    }
  }

  /** Where the parent of a moved entry comes from. */
  lemma RenamedUp(src: Path, dst: Path, p: Path)
    requires p != [] && src != [] && dst != [] && !(src <= dst)
    ensures dst <= p && p != dst ==> Origin(src, dst, p) != [] && p[|p| - 1] == Origin(src, dst, p)[|Origin(src, dst, p)| - 1]
    ensures dst <= p && p != dst ==> dst <= Up(p) && Origin(src, dst, p) != [] && Origin(src, dst, Up(p)) == Up(Origin(src, dst, p))
    ensures p == dst ==> !(dst <= Up(p)) && !(src <= Up(p)) && Origin(src, dst, Up(p)) == Up(p)
    ensures !(dst <= p) && !(src <= p) ==> !(dst <= Up(p)) && !(src <= Up(p)) && Origin(src, dst, Up(p)) == Up(Origin(src, dst, p))
  {
    if dst <= p && p != dst {
      assert Up(Origin(src, dst, p)) == src + Up(p)[|dst|..];
    } else if p == dst {
      assert src <= Up(p) ==> src <= p;
    } else {
      assert dst <= Up(p) ==> dst <= p;
      assert src <= Up(p) ==> src <= p;
    }
  }

  lemma RenamedMovesTree(fs: Fs, src: Path, dst: Path)
    ensures SameTree(Renamed(fs, src, dst), dst, fs, src)
  {
    var after := Renamed(fs, src, dst);
    forall r: Path
      ensures (dst + r in after <==> src + r in fs) && (dst + r in after ==> after[dst + r] == fs[src + r])
    {
      RenamedAt(fs, src, dst, dst + r);
      assert (dst + r)[|dst|..] == r;
    }
  }

  lemma PrefixesCompare(a: Path, b: Path, r: Path)
    requires a <= r && b <= r
    ensures a <= b || b <= a
  {
    assert a == r[..|a|] && b == r[..|b|];
  }

  // ---- Contents are not lost ----

  /** The records of the service itself, .r1-manager/<area>/<id>/metadata. */
  predicate IsRecord(p: Path) {
    |p| == 4 && p[0] == PRIVATE && p[1] in {TRASH, INCOMING} && p[3] == METADATA
  }

  /** The files of the user that hold this content: in the user tree, in trash or in staging. */
  function Holding(fs: Fs, content: seq<byte>): set<Path> {
    set p | p in fs && fs[p] == File(content) && !IsRecord(p)
  }

  /** How often a content occurs; the multiset of contents is given by this function. */
  function Copies(fs: Fs, content: seq<byte>): nat {
    |Holding(fs, content)|
  }

  ghost predicate NothingLost(a: Fs, b: Fs) {
    forall content :: Copies(a, content) <= Copies(b, content)
  }

  lemma {:induction false} ImageSize(paths: set<Path>, src: Path, dst: Path)
    requires forall r | r in paths && src <= r :: Origin(dst, src, r) !in paths
    ensures |(set r | r in paths :: Origin(dst, src, r))| == |paths|
  {
    if paths != {} {
      var p :| p in paths;
      var rest := paths - {p};
      ImageSize(rest, src, dst);
      var image, restImage := set r | r in paths :: Origin(dst, src, r), set r | r in rest :: Origin(dst, src, r);
      assert image == restImage + {Origin(dst, src, p)};
      forall r | r in rest
        ensures Origin(dst, src, r) != Origin(dst, src, p)
      {
        OriginInjective(dst, src, r, p);
      }
    }
  }

  lemma OriginInjective(dst: Path, src: Path, r: Path, p: Path)
    requires r != p && (src <= r && !(src <= p) ==> Origin(dst, src, r) != p)
    requires (src <= p && !(src <= r) ==> Origin(dst, src, p) != r)
    ensures Origin(dst, src, r) != Origin(dst, src, p)
  {
    if src <= r && src <= p {
      assert r == src + r[|src|..] && p == src + p[|src|..];
      assert Origin(dst, src, r)[|dst|..] == r[|src|..];
      assert Origin(dst, src, p)[|dst|..] == p[|src|..];
    }
  }

  /**
   Nothing is lost when the tree at src is found again at dst and every other file is where it
   was, unless a user's file would turn into a record of the service.
   */
  lemma TransferLosesNothing(a: Fs, b: Fs, src: Path, dst: Path)
    requires !(src <= dst) && !(dst <= src)
    requires SameTree(b, dst, a, src)
    requires forall r | r in a && a[r].File? && !IsRecord(r) && !(src <= r) ::
               r in b && b[r] == a[r] && !(dst <= r)
    requires forall r | r in a && a[r].File? && src <= r && !IsRecord(r) :: !IsRecord(Origin(dst, src, r))
    ensures NothingLost(a, b)
  {
    forall content
      ensures Copies(a, content) <= Copies(b, content)
    {
      var before, image := Holding(a, content), set r | r in Holding(a, content) :: Origin(dst, src, r);
      forall r | r in before
        ensures Origin(dst, src, r) in Holding(b, content) && (src <= r ==> Origin(dst, src, r) !in before)
      {
        if src <= r {
          Transferred(a, b, src, dst, r);
          assert dst <= Origin(dst, src, r);
          if src <= Origin(dst, src, r) {
            PrefixesCompare(src, dst, Origin(dst, src, r));
          }
        }
      }
      ImageSize(before, src, dst);
      SubsetSize(image, Holding(b, content));
    }
  }

  lemma Transferred(a: Fs, b: Fs, src: Path, dst: Path, r: Path)
    requires SameTree(b, dst, a, src) && r in a && src <= r
    ensures Origin(dst, src, r) in b && b[Origin(dst, src, r)] == a[r]
  {
    assert r == src + r[|src|..];
    assert dst + r[|src|..] in b;
  }

  /** A move to a name that was not taken loses nothing. */
  lemma RenamedLosesNothing(fs: Fs, src: Path, dst: Path)
    requires WellFormed(fs) && src in fs && dst !in fs && !(src <= dst)
    requires forall r | r in fs && fs[r].File? && src <= r && !IsRecord(r) :: !IsRecord(Origin(dst, src, r))
    ensures NothingLost(fs, Renamed(fs, src, dst))
  {
    OnlyDirsHaveEntries(fs, dst);
    RenamedMovesTree(fs, src, dst);
    forall r | r in fs && !(src <= r)
      ensures r in Renamed(fs, src, dst) && Renamed(fs, src, dst)[r] == fs[r]
    {
      RenamedAt(fs, src, dst, r);
    }
    TransferLosesNothing(fs, Renamed(fs, src, dst), src, dst);
  }

  lemma {:induction false} SubsetSize<T>(a: set<T>, b: set<T>)
    requires a <= b
    ensures |a| <= |b|
  {
    if a != {} {
      var x :| x in a;
      SubsetSize(a - {x}, b - {x});
    }
  }

  /** Adding an entry where there was none, or taking out one that holds no user file, loses nothing. */
  lemma EditLosesNothing(a: Fs, b: Fs)
    requires forall p | p in a && a[p].File? && !IsRecord(p) :: p in b && b[p] == a[p]
    ensures NothingLost(a, b)
  {
    forall content
      ensures Copies(a, content) <= Copies(b, content)
    {
      SubsetSize(Holding(a, content), Holding(b, content));
    }
  }
}
