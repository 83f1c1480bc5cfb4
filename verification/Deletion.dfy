/** Recursive removal, and the commands that use it: delete, purge, empty-trash, upload-cancel. */
module Deletion {
  import opened Bytes
  import opened Paths
  import opened Tree
  import opened Syscalls
  import opened Directories
  import opened TrashCan
  import Metadata

  /** b is a without some of the entries at or below p. */
  ghost predicate Shrunk(a: Fs, b: Fs, p: Path) {
    && (forall r | r in b :: r in a && b[r] == a[r])
    && (forall r | r in a && !(p <= r) :: r in b)
  }

  /** Nothing at or below p. */
  ghost predicate Gone(fs: Fs, p: Path) {
    forall r | r in fs :: !(p <= r)
  }

  function Below(fs: Fs, p: Path): set<Path> {
    set r | r in fs && p <= r
  }

  /** The names in a directory. */
  function Entries(fs: Fs, p: Path): set<Name> {
    set r | r in fs && p <= r && |r| == |p| + 1 :: r[|p|]
  }

  lemma {:induction false} EntryOf(fs: Fs, p: Path, r: Path)
    requires WellFormed(fs) && r in fs && p <= r && p != r
    ensures p + [r[|p|]] in fs && r[|p|] in Entries(fs, p)
    decreases |r|
  {
    if |r| == |p| + 1 {
      assert r == p + [r[|p|]];
    } else {
      assert p <= Up(r);
      EntryOf(fs, p, Up(r));
    }
  }

  lemma ShrunkNothing(fs: Fs, log: seq<Fs>, p: Path)
    ensures Shrunk(fs, fs, p) && ShrunkSince(fs, log, |log|, p)
  {
  }

  lemma ShrunkDeeper(was: Fs, a: Fs, b: Fs, p: Path, q: Path)
    requires Shrunk(was, a, p) && Shrunk(a, b, q) && p <= q
    ensures Shrunk(was, b, p)
  {
  }

  ghost predicate ShrunkSince(was: Fs, log: seq<Fs>, n: nat, p: Path) {
    forall k | n <= k < |log| :: Shrunk(was, log[k], p)
  }

  lemma ShrunkDeeperSince(was: Fs, a: Fs, log: seq<Fs>, n: nat, m: nat, p: Path, q: Path)
    requires n <= m <= |log| && Shrunk(was, a, p) && p <= q
    requires ShrunkSince(was, log[..m], n, p) && ShrunkSince(a, log, m, q)
    ensures ShrunkSince(was, log, n, p)
  {
    forall k | n <= k < |log|
      ensures Shrunk(was, log[k], p)
    {
      if k < m {
        assert log[k] == log[..m][k];
      } else {
        ShrunkDeeper(was, a, log[k], p, q);
      }
    }
  }

  /** remove_at: what lies at and below p goes, links are not followed, nothing else changes. */
  method RemoveAt(card: Card, p: Path, recursive: bool) returns (error: Option<Errno>)
    requires card.Valid() && p != [] && IsDir(card.fs, Up(p))
    modifies card`fs, card`faults, card`log
    ensures card.Valid() && old(card.log) <= card.log
    ensures Shrunk(old(card.fs), card.fs, p)
    ensures ShrunkSince(old(card.fs), card.log, |old(card.log)|, p)
    ensures error == None ==> p in old(card.fs) && Gone(card.fs, p)
    ensures error == None && !recursive ==> Bare(old(card.fs), p)
    ensures card.faults >= old(card.faults)
    ensures card.faults == old(card.faults) && p in old(card.fs) && (recursive || Bare(old(card.fs), p)) ==>
              error == None
    decreases Below(card.fs, p)
  {
    ghost var was := card.fs;
    var stat := card.Fstatat(p);
    if stat.Some? {
      return stat;
    }
    if !card.fs[p].Dir? {
      OnlyDirsHaveEntries(card.fs, p);
      error := card.Unlinkat(p);
      return;
    }
    if recursive {
      error := RemoveEntries(card, p);
      if error.Some? {
        return;
      }
    }
    error := card.Rmdir(p);
  }

  /** The readdir loop of remove_at; the entries come in any order. */
  method RemoveEntries(card: Card, p: Path) returns (error: Option<Errno>)
    requires card.Valid() && IsDir(card.fs, p)
    modifies card`fs, card`faults, card`log
    ensures card.Valid() && old(card.log) <= card.log
    ensures Shrunk(old(card.fs), card.fs, p) && IsDir(card.fs, p)
    ensures ShrunkSince(old(card.fs), card.log, |old(card.log)|, p)
    ensures error == None ==> Bare(card.fs, p)
    ensures card.faults >= old(card.faults)
    ensures card.faults == old(card.faults) ==> error == None
    decreases Below(card.fs, p), 0
  {
    hide Entries;
    hide Bare;
    hide WellFormed;
    error := card.OpenDirectoryAt(p);
    if error.Some? {
      return;
    }
    var rest := Entries(card.fs, p);
    while rest != {}
      invariant card.Valid() && old(card.log) <= card.log
      invariant Shrunk(old(card.fs), card.fs, p) && IsDir(card.fs, p)
      invariant ShrunkSince(old(card.fs), card.log, |old(card.log)|, p)
      invariant Entries(card.fs, p) == rest
      invariant card.faults >= old(card.faults)
      decreases rest
    {
      var name :| name in rest;
      var q := p + [name];
      ghost var before, m := card.fs, |card.log|;
      EntryIsBelow(old(card.fs), before, p, name);
      error := RemoveAt(card, q, true);
      ShrunkDeeper(old(card.fs), before, card.fs, p, q);
      ShrunkDeeperSince(old(card.fs), before, card.log, |old(card.log)|, m, p, q);
      if error.Some? {
        return;
      }
      EntriesWithout(before, card.fs, p, name);
      rest := rest - {name};
    }
    NoEntries(card.fs, p);
    error := card.Fault();
  }

  lemma EntryIsBelow(was: Fs, now: Fs, p: Path, name: Name)
    requires Shrunk(was, now, p) && IsDir(now, p) && name in Entries(now, p)
    ensures var q := p + [name];
            q in now && Up(q) == p && Last(q) == name && Below(now, q) < Below(was, p)
  {
    var q := p + [name];
    var r :| r in now && p <= r && |r| == |p| + 1 && r[|p|] == name;
    assert r == q;
    assert p in Below(was, p) && p !in Below(now, q);
  }

  lemma EntriesWithout(before: Fs, now: Fs, p: Path, name: Name)
    requires Shrunk(before, now, p + [name]) && Gone(now, p + [name]) && IsDir(before, p)
    ensures IsDir(now, p) && Entries(now, p) == Entries(before, p) - {name}
  {
    forall r | r in before && p <= r && |r| == |p| + 1
      ensures p + [name] <= r <==> r[|p|] == name
    {
      assert r == p + [r[|p|]];
    }
  }

  lemma NoEntries(fs: Fs, p: Path)
    requires WellFormed(fs) && Entries(fs, p) == {}
    ensures Bare(fs, p)
  {
    forall r | r in fs && p <= r
      ensures r == p
    {
      if r != p {
        EntryOf(fs, p, r);
      }
    }
  }

  /** The tree without p and everything below it. */
  function Without(fs: Fs, p: Path): Fs {
    map r | r in fs && !(p <= r) :: fs[r]
  }

  lemma GoneMeansWithout(was: Fs, now: Fs, p: Path)
    requires Shrunk(was, now, p) && Gone(now, p)
    ensures now == Without(was, p)
  {
  }

  // "empty", "recursive"
  const EMPTY: seq<byte> := [101, 109, 112, 116, 121]
  const RECURSIVE: seq<byte> := [114, 101, 99, 117, 114, 115, 105, 118, 101]

  /** command_delete */
  method Delete(card: Card, argument: CString, mode: seq<byte>) returns (error: Option<Errno>)
    requires card.Valid()
    modifies card`fs, card`faults, card`log
    ensures card.Valid() && old(card.log) <= card.log
    ensures var decoded := Metadata.DecodeArgument(argument, false);
            if mode !in {EMPTY, RECURSIVE} || decoded.Err? then
              error != None && card.fs == old(card.fs) && card.log == old(card.log)
            else
              var p := Names(decoded.value);
              && ShrunkSince(old(card.fs), card.log, |old(card.log)|, p) && Shrunk(old(card.fs), card.fs, p)
              && (error == None ==>
                    && p in old(card.fs) && (mode == EMPTY ==> Bare(old(card.fs), p))
                    && card.fs == Without(old(card.fs), p))
              && (card.faults == old(card.faults) && p in old(card.fs) && Short(p) &&
                  (mode == RECURSIVE || Bare(old(card.fs), p)) ==>
                    error == None)
  {
    hide Metadata.DecodeArgument;
    if mode !in {EMPTY, RECURSIVE} {
      return Some(EINVAL);
    }
    var decoded := Metadata.DecodeArgument(argument, false);
    if decoded.Err? {
      return Some(decoded.error);
    }
    var p := Names(decoded.value);
    hide Names;
    error := card.Fault();
    if error.Some? {
      return;
    }
    if |Last(p)| > NAME_MAX {
      return Some(ENAMETOOLONG);
    }
    assert p == Up(p) + [Last(p)];
    error := OpenDirectory(card, Up(p));
    if error.Some? {
      return;
    }
    error := RemoveAt(card, p, mode == RECURSIVE);
    if error.None? {
      GoneMeansWithout(old(card.fs), card.fs, p);
    }
  }

  /** command_purge in trash, command_upload_cancel in incoming */
  method RemovePrivateItem(card: Card, area: Name, id: Name) returns (error: Option<Errno>)
    requires card.Valid()
    modifies card`fs, card`faults, card`log
    ensures card.Valid() && old(card.log) <= card.log
    ensures var p := [PRIVATE, area, id];
            && ShrunkSince(old(card.fs), card.log, |old(card.log)|, p) && Shrunk(old(card.fs), card.fs, p)
            && (error == None ==> ValidId(id) && IsDir(old(card.fs), p) && card.fs == Without(old(card.fs), p))
            && (card.faults == old(card.faults) && ValidId(id) && IsDir(old(card.fs), p) && |area| <= NAME_MAX ==>
                  error == None)
    ensures card.faults >= old(card.faults)
  {
    var root, p := [PRIVATE, area], [PRIVATE, area, id];
    if !ValidId(id) {
      return Some(EINVAL);
    }
    if IsDir(card.fs, p) {
      AncestorsAreDirs(card.fs, root, p);
    }
    error := card.Fault();
    if error.None? {
      error := OpenDirectory(card, root);
    }
    if error.None? {
      error := card.OpenDirectoryAt(p);
    }
    if error.Some? {
      return;
    }
    assert Up(p) == root;
    error := RemoveAt(card, p, true);
    if error.None? {
      GoneMeansWithout(old(card.fs), card.fs, p);
    }
  }

  /** What the loop takes for items. */
  function Identifiers(fs: Fs, p: Path): set<Name> {
    set id | id in Entries(fs, p) && ValidId(id)
  }

  /**
   command_empty_trash: a listing that breaks off is taken for its end, so that items can stay
   behind a report of success; the report says how many went.
   */
  method EmptyTrash(card: Card) returns (error: Option<Errno>, deleted: nat)
    requires card.Valid()
    modifies card`fs, card`faults, card`log
    ensures card.Valid() && old(card.log) <= card.log
    ensures Shrunk(old(card.fs), card.fs, TRASH_ROOT)
    ensures ShrunkSince(old(card.fs), card.log, |old(card.log)|, TRASH_ROOT)
    ensures error == None ==>
              && Identifiers(card.fs, TRASH_ROOT) <= Identifiers(old(card.fs), TRASH_ROOT)
              && deleted == |Identifiers(old(card.fs), TRASH_ROOT)| - |Identifiers(card.fs, TRASH_ROOT)|
    ensures error == None && card.faults == old(card.faults) ==>
              forall r | r in card.fs && TRASH_ROOT <= r :: r == TRASH_ROOT || !ValidId(r[2])
    ensures card.faults >= old(card.faults)
    ensures card.faults == old(card.faults) ==> (error == None <==> Passable(old(card.fs), TRASH_ROOT))
  {
    hide Entries;
    hide WellFormed;
    hide ValidId;
    hide Shrunk;
    hide ShrunkSince;
    ShrunkNothing(card.fs, card.log, TRASH_ROOT);
    deleted := 0;
    error := card.Fault();
    if error.Some? {
      return;
    }
    error := OpenDirectory(card, TRASH_ROOT);
    if error == Some(ENOENT) {
      OnlyDirsHaveEntries(card.fs, TRASH_ROOT);
      return None, 0;
    }
    if error.Some? {
      return;
    }
    DirIsPassable(card.fs, TRASH_ROOT);
    var rest := Identifiers(card.fs, TRASH_ROOT);
    while rest != {}
      invariant card.Valid() && old(card.log) <= card.log
      invariant Shrunk(old(card.fs), card.fs, TRASH_ROOT) && IsDir(card.fs, TRASH_ROOT)
      invariant ShrunkSince(old(card.fs), card.log, |old(card.log)|, TRASH_ROOT)
      invariant Identifiers(card.fs, TRASH_ROOT) == rest && rest <= Identifiers(old(card.fs), TRASH_ROOT)
      invariant deleted + |rest| == |Identifiers(old(card.fs), TRASH_ROOT)|
      invariant card.faults >= old(card.faults)
      decreases rest
    {
      var broken := card.Fault();
      if broken.Some? {
        return None, deleted;
      }
      var id :| id in rest;
      ghost var before, ago := card.fs, card.log;
      error := RemoveItem(card, id);
      assert card.log[..|ago|] == ago;
      ShrunkDeeper(old(card.fs), before, card.fs, TRASH_ROOT, TRASH_ROOT + [id]);
      ShrunkDeeperSince(old(card.fs), before, card.log, |old(card.log)|, |ago|, TRASH_ROOT, TRASH_ROOT + [id]);
      if error.Some? {
        return;
      }
      rest, deleted := rest - {id}, deleted + 1;
    }
    NoIdentifiers(card.fs, TRASH_ROOT);
    return None, deleted;
  }

  /** One round of its loop. */
  method RemoveItem(card: Card, id: Name) returns (error: Option<Errno>)
    requires card.Valid() && IsDir(card.fs, TRASH_ROOT) && id in Identifiers(card.fs, TRASH_ROOT)
    modifies card`fs, card`faults, card`log
    ensures card.Valid() && old(card.log) <= card.log && IsDir(card.fs, TRASH_ROOT)
    ensures Shrunk(old(card.fs), card.fs, TRASH_ROOT + [id])
    ensures ShrunkSince(old(card.fs), card.log, |old(card.log)|, TRASH_ROOT + [id])
    ensures error == None ==> Identifiers(card.fs, TRASH_ROOT) == Identifiers(old(card.fs), TRASH_ROOT) - {id}
    ensures card.faults >= old(card.faults) && (card.faults == old(card.faults) ==> error == None)
  {
    hide Entries;
    hide WellFormed;
    hide ValidId;
    ghost var q := TRASH_ROOT + [id];
    ShrunkNothing(card.fs, [], TRASH_ROOT);
    EntryIsBelow(card.fs, card.fs, TRASH_ROOT, id);
    error := RemoveAt(card, TRASH_ROOT + [id], true);
    if error.None? {
      EntriesWithout(old(card.fs), card.fs, TRASH_ROOT, id);
    }
  }

  lemma NoIdentifiers(fs: Fs, p: Path)
    requires WellFormed(fs) && Identifiers(fs, p) == {}
    ensures forall r | r in fs && p <= r :: r == p || !ValidId(r[|p|])
  {
    forall r | r in fs && p <= r
      ensures r == p || !ValidId(r[|p|])
    {
      if r != p {
        EntryOf(fs, p, r);
        assert r[|p|] !in Identifiers(fs, p);
      }
    }
  }
}
