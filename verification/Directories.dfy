/** Walking and growing directories, and writing the record file. */
module Directories {
  import opened Bytes
  import opened Paths
  import opened Tree
  import opened Syscalls

  /** b is a with, at most, some of the directories on the way to `names` added. */
  ghost predicate Grown(a: Fs, b: Fs, names: Path) {
    && (forall r | r in a :: r in b && b[r] == a[r])
    && (forall r | r in b && r !in a :: r <= names && b[r] == Dir)
  }

  /** The trees in `log` from position n on all satisfy p. */
  ghost predicate Since(log: seq<Fs>, n: nat, p: Fs -> bool) {
    forall k | n <= k < |log| :: p(log[k])
  }

  /** Nothing on the way to `names` is in the way. */
  predicate Passable(fs: Fs, names: Path) {
    Short(names) && forall i | 0 <= i <= |names| :: names[..i] in fs ==> fs[names[..i]] == Dir
  }

  predicate ShortUpTo(names: Path, n: nat)
    requires n <= |names|
  {
    forall j | 0 <= j < n :: |names[j]| <= NAME_MAX
  }

  /** In a tree every name fits. */
  lemma {:induction false} DirIsShort(fs: Fs, p: Path)
    requires WellFormed(fs) && p in fs
    ensures Short(p)
    decreases |p|
  {
    if p != [] {
      DirIsShort(fs, Up(p));
      assert forall i | 0 <= i < |p| - 1 :: p[i] == Up(p)[i];
    }
  }

  lemma DirIsPassable(fs: Fs, p: Path)
    requires WellFormed(fs) && IsDir(fs, p)
    ensures Passable(fs, p)
  {
    DirIsShort(fs, p);
    forall i | 0 <= i <= |p|
      ensures IsDir(fs, p[..i])
    {
      AncestorIsDir(fs, p[..i], p);
    }
  }

  lemma RootIsDir(card: Card)
    requires card.Valid()
    ensures IsDir(card.fs, [])
  {
  }

  /** A walk that cannot go on from the i-th directory: something is missing, or something is in the way. */
  lemma WalkStops(fs: Fs, names: Path, i: nat)
    requires WellFormed(fs) && i < |names| && IsDir(fs, names[..i])
    ensures var next := names[..i + 1];
            && (next !in fs ==> names !in fs && (Short(names) ==> Passable(fs, names)))
            && (next in fs && fs[next] != Dir ==> !IsDir(fs, names) && !Passable(fs, names))
  {
    var next := names[..i + 1];
    if names in fs && next != names {
      AncestorsAreDirs(fs, next, names);
    }
    if next !in fs {
      forall j | 0 <= j <= |names| && names[..j] in fs
        ensures fs[names[..j]] == Dir
      {
        if j <= i {
          if j < i {
            AncestorsAreDirs(fs, names[..j], names[..i]);
          }
        } else if j > i + 1 {
          AncestorsAreDirs(fs, next, names[..j]);
        }
      }
    }
  }

  /** open_directory */
  method OpenDirectory(card: Card, names: Path) returns (error: Option<Errno>)
    requires card.Valid()
    modifies card`faults
    ensures error == None ==> IsDir(card.fs, names) && Short(names)
    ensures error == Some(ENOENT) ==> names !in card.fs
    ensures card.faults >= old(card.faults)
    ensures card.faults == old(card.faults) && Short(names) ==>
              error == (if IsDir(card.fs, names) then None
                        else if Passable(card.fs, names) then Some(ENOENT) else Some(ENOTDIR))
  {
    hide WellFormed;
    hide Passable;
    var i := 0;
    assert names[..0] == [];
    RootIsDir(card);
    while i < |names|
      invariant 0 <= i <= |names|
      invariant IsDir(card.fs, names[..i])
      invariant ShortUpTo(names, i)
      invariant card.faults >= old(card.faults)
    {
      if |names[i]| > NAME_MAX {
        return Some(ENAMETOOLONG);
      }
      WalkStops(card.fs, names, i);
      error := card.OpenDirectoryAt(names[..i + 1]);
      if error.Some? {
        return;
      }
      i := i + 1;
    }
    assert names[..i] == names;
    return None;
  }

  lemma AncestorIsDir(fs: Fs, p: Path, r: Path)
    requires WellFormed(fs) && IsDir(fs, r) && p <= r
    ensures IsDir(fs, p)
  {
    if p != r {
      AncestorsAreDirs(fs, p, r);
    }
  }

  ghost predicate GrownSince(was: Fs, log: seq<Fs>, n: nat, names: Path) {
    Since(log, n, f => Grown(was, f, names))
  }

  lemma GrownStep(was: Fs, now: Fs, log: seq<Fs>, n: nat, names: Path, next: Path)
    requires Grown(was, now, names) && GrownSince(was, log, n, names) && next <= names && next !in now
    ensures var made := now[next := Dir]; Grown(was, made, names) && GrownSince(was, log + [made], n, names)
  {
  }

  /** What stands on a passable way is a directory, also when the way has grown. */
  lemma GrownIsPassable(was: Fs, now: Fs, names: Path, i: nat)
    requires Grown(was, now, names) && Passable(was, names) && i < |names|
    ensures |names[i]| <= NAME_MAX && (names[..i + 1] in now ==> now[names[..i + 1]] == Dir)
  {
  }

  /** ensure_directory */
  method EnsureDirectory(card: Card, names: Path) returns (error: Option<Errno>)
    requires card.Valid()
    modifies card`fs, card`faults, card`log
    ensures card.Valid() && old(card.log) <= card.log
    ensures Grown(old(card.fs), card.fs, names)
    ensures Since(card.log, |old(card.log)|, f => Grown(old(card.fs), f, names))
    ensures error == None ==> IsDir(card.fs, names)
    ensures card.faults >= old(card.faults)
    ensures card.faults == old(card.faults) && Passable(old(card.fs), names) ==> error == None
  {
    var i := 0;
    ghost var was, n := card.fs, |card.log|;
    assert GrownSince(was, card.log, n, names);
    hide Grown;
    hide WellFormed;
    hide Passable;
    while i < |names|
      invariant 0 <= i <= |names|
      invariant card.Valid() && old(card.log) <= card.log
      invariant IsDir(card.fs, names[..i])
      invariant Grown(was, card.fs, names) && GrownSince(was, card.log, n, names)
      invariant card.faults >= old(card.faults)
    {
      if Passable(was, names) {
        GrownIsPassable(was, card.fs, names, i);
      }
      if |names[i]| > NAME_MAX {
        return Some(ENAMETOOLONG);
      }
      var next := names[..i + 1];
      assert Up(next) == names[..i];
      ghost var before, log := card.fs, card.log;
      error := card.Mkdirat(next);
      if error.Some? && error != Some(EEXIST) {
        return;
      }
      if error.None? {
        GrownStep(was, before, log, n, names, next);
      }
      if Passable(was, names) {
        GrownIsPassable(was, card.fs, names, i);
      }
      error := card.OpenDirectoryAt(next);
      if error.Some? {
        return;
      }
      i := i + 1;
    }
    assert names[..i] == names;
    return None;
  }

  /** Only the entry at p has changed. */
  ghost predicate OnlyAt(a: Fs, b: Fs, p: Path) {
    forall r | r != p :: Agree(a, b, r)
  }

  ghost predicate OnlyAtSince(was: Fs, log: seq<Fs>, n: nat, p: Path) {
    forall k | n <= k < |log| :: OnlyAt(was, log[k], p)
  }

  lemma OnlyAtStep(was: Fs, before: Fs, log: seq<Fs>, n: nat, p: Path, now: Fs)
    requires OnlyAt(was, before, p) && OnlyAtSince(was, log, n, p)
    requires now == before - {p} || (p in now && now == before[p := now[p]])
    ensures OnlyAt(was, now, p) && OnlyAtSince(was, log + [now], n, p)
  {
    forall r | r != p
      ensures Agree(was, now, r)
    {
      assert Agree(was, before, r);
    }
  }

  lemma NothingYetAt(was: Fs, log: seq<Fs>, p: Path)
    ensures OnlyAt(was, was, p) && OnlyAtSince(was, log, |log|, p)
  {
  }

  /**
   write_text_at: all of the text in a new file. When it fails, the file can stay: whole if close failed, or
   in part if a second call, its removal, fails too.
   */
  method WriteText(card: Card, p: Path, text: seq<byte>) returns (error: Option<Errno>)
    requires card.Valid() && p != [] && IsDir(card.fs, Up(p))
    modifies card`fs, card`faults, card`log
    ensures card.Valid() && old(card.log) <= card.log
    ensures OnlyAt(old(card.fs), card.fs, p) && OnlyAtSince(old(card.fs), card.log, |old(card.log)|, p)
    ensures error == None ==> p !in old(card.fs) && card.fs == old(card.fs)[p := File(text)]
    ensures p !in old(card.fs) && p in card.fs ==> card.fs[p].File?
    ensures card.faults >= old(card.faults)
    ensures card.faults == old(card.faults) && p !in old(card.fs) && |Last(p)| <= NAME_MAX ==> error == None
    ensures error != None && p !in old(card.fs) && card.faults <= old(card.faults) + 1 ==>
              p !in card.fs || card.fs == old(card.fs)[p := File(text)]
  {
    hide OnlyAt;
    hide OnlyAtSince;
    hide WellFormed;
    ghost var was, n := card.fs, |card.log|;
    NothingYetAt(was, card.log, p);
    error := card.CreateFile(p);
    if error.Some? {
      return;
    }
    OnlyAtStep(was, was, old(card.log), n, p, card.fs);
    ghost var created, log := card.fs, card.log;
    var count := card.Write(p, text);
    OnlyAtStep(was, created, log, n, p, card.fs);
    var synced := card.Fault();
    if count < |text| || synced.Some? {
      ghost var written, log := card.fs, card.log;
      error := card.Unlinkat(p);
      OnlyAtStep(was, written, log, n, p, if error == None then card.fs else written);
      return Some(if synced.Some? then synced.value else EIO);
    }
    assert [] + text[..count] == text;
    error := card.Fault();
  }
}
