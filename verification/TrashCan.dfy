/** trash and restore: an item is in exactly one place, whole, at every moment. */
module TrashCan {
  import opened Bytes
  import opened Text
  import opened Paths
  import opened Tree
  import opened Syscalls
  import opened Directories
  import Metadata

  const TRASH_ROOT: Path := [PRIVATE, TRASH]

  function TrashDir(id: Name): Path { [PRIVATE, TRASH, id] }
  function ItemPath(id: Name): Path { [PRIVATE, TRASH, id, ITEM] }
  function RecordPath(id: Name): Path { [PRIVATE, TRASH, id, METADATA] }

  /** valid_id */
  predicate ValidId(id: Name) {
    && 8 <= |id| <= 96
    && forall i | 0 <= i < |id| ::
         97 <= id[i] <= 122 || 65 <= id[i] <= 90 || 48 <= id[i] <= 57 || id[i] == 45 || id[i] == 95
  }

  function Names(path: seq<byte>): Path { Split(path, SLASH) }

  /** The path that the record of an item names. */
  function RecordedPath(fs: Fs, id: Name): Result<CString> {
    if RecordPath(id) in fs && fs[RecordPath(id)].File? then Metadata.MetadataPath(fs[RecordPath(id)].content)
    else Err(ENOENT)
  }

  // ---- What may happen to the tree ----

  /** Nothing changed except below p and q, and that directories on the way to `names` appeared. */
  ghost predicate Around(was: Fs, now: Fs, p: Path, q: Path, names: Path) {
    forall r | !(p <= r) && !(q <= r) ::
      Agree(was, now, r) || (r !in was && r in now && now[r] == Dir && r <= names)
  }

  /** The item is whole, in its place, and only there. */
  ghost predicate AtHome(was: Fs, now: Fs, p: Path, id: Name) {
    SameTree(now, p, was, p) && ItemPath(id) !in now
  }

  /** The item is whole, in trash, and only there, beside a record that names its place. */
  ghost predicate InTrash(was: Fs, now: Fs, p: Path, id: Name, path: CString) {
    && SameTree(now, ItemPath(id), was, p) && p !in now
    && IsDir(now, TrashDir(id)) && Tidy(now, id) && RecordedPath(now, id) == Ok(path)
  }

  /** The directory of an item holds the record and the item and nothing else. */
  ghost predicate Tidy(fs: Fs, id: Name) {
    forall r | r in fs && TrashDir(id) <= r :: r == TrashDir(id) || r == RecordPath(id) || ItemPath(id) <= r
  }

  /** Only the item's own directory in trash has been worked on, and the item is not there. */
  ghost predicate Prepared(was: Fs, now: Fs, id: Name) {
    && (forall r | !(TrashDir(id) <= r) ::
          Agree(was, now, r) || (r !in was && r in now && now[r] == Dir && r <= TRASH_ROOT))
    && (forall r | r in now && TrashDir(id) <= r :: r == TrashDir(id) || r == RecordPath(id))
  }

  lemma PreparedMeansAtHome(was: Fs, now: Fs, p: Path, id: Name)
    requires Prepared(was, now, id) && p != [] && p[0] != PRIVATE
    ensures AtHome(was, now, p, id) && Around(was, now, p, TrashDir(id), TRASH_ROOT)
  {
    forall r: Path
      ensures Agree(was, now, p + r)
    {
      assert (p + r)[0] == p[0];
    }
  }

  lemma GrownMeansPrepared(was: Fs, now: Fs, id: Name)
    requires WellFormed(was) && Grown(was, now, TRASH_ROOT) && TrashDir(id) !in was
    ensures Prepared(was, now, id)
  {
    forall r | r in now && TrashDir(id) <= r
      ensures r == TrashDir(id)
    {
      if r in was && r != TrashDir(id) {
        AncestorsAreDirs(was, TrashDir(id), r);
      }
    }
  }

  /** b is a, with some directories on the way to the item directory and perhaps that directory. */
  ghost predicate Made(a: Fs, b: Fs, id: Name) {
    Grown(a, b, TRASH_ROOT) || Grown(a, b - {TrashDir(id)}, TRASH_ROOT)
  }

  lemma GrownIsMade(was: Fs, log: seq<Fs>, n: nat, now: Fs, id: Name)
    requires GrownSince(was, log, n, TRASH_ROOT) && Grown(was, now, TRASH_ROOT)
    ensures Since(log, n, f => Made(was, f, id)) && Made(was, now, id)
    ensures TrashDir(id) in now <==> TrashDir(id) in was
  {
    assert !(TrashDir(id) <= TRASH_ROOT);
    assert TrashDir(id) in now <==> TrashDir(id) in was;
    hide Grown;
  }

  lemma DirectoryMade(was: Fs, before: Fs, log: seq<Fs>, n: nat, id: Name)
    requires WellFormed(before) && TrashDir(id) !in before
    requires GrownSince(was, log, n, TRASH_ROOT) && Grown(was, before, TRASH_ROOT)
    ensures var now := before[TrashDir(id) := Dir];
            && Since(log + [now], n, f => Made(was, f, id)) && Made(was, now, id)
            && TrashDir(id) !in was && RecordPath(id) !in now
  {
    assert before[TrashDir(id) := Dir] - {TrashDir(id)} == before;
    OnlyDirsHaveEntries(before, TrashDir(id));
    hide WellFormed;
    assert TrashDir(id) !in was;
    hide Grown;
  }

  /** The part of command_trash up to its mkdirat. */
  method MakeItem(card: Card, id: Name) returns (error: Option<Errno>)
    requires card.Valid() && ValidId(id)
    modifies card`fs, card`faults, card`log
    ensures card.Valid() && old(card.log) <= card.log
    ensures Since(card.log, |old(card.log)|, f => Made(old(card.fs), f, id)) && Made(old(card.fs), card.fs, id)
    ensures error == None ==>
              TrashDir(id) !in old(card.fs) && IsDir(card.fs, TrashDir(id)) && RecordPath(id) !in card.fs
    ensures error != None ==>
              Grown(old(card.fs), card.fs, TRASH_ROOT) && GrownSince(old(card.fs), card.log, |old(card.log)|, TRASH_ROOT)
    ensures card.faults >= old(card.faults)
    ensures card.faults == old(card.faults) && TrashDir(id) !in old(card.fs) &&
            Passable(old(card.fs), TRASH_ROOT) ==>
              error == None
  {
    hide WellFormed;
    hide Grown;
    hide Made;
    hide ValidId;
    hide Passable;
    ghost var was, n := card.fs, |card.log|;
    LongIdIsInvalid(id);
    error := EnsureDirectory(card, TRASH_ROOT);
    ghost var before, log := card.fs, card.log;
    assert GrownSince(was, log, n, TRASH_ROOT);
    GrownIsMade(was, log, n, before, id);
    if error.Some? {
      return;
    }
    assert Up(TrashDir(id)) == TRASH_ROOT;
    error := card.Mkdirat(TrashDir(id));
    if error.None? {
      DirectoryMade(was, before, log, n, id);
    } else {
      assert card.log == log;
    }
  }

  lemma LongIdIsInvalid(id: Name)
    requires ValidId(id)
    ensures |Last(TrashDir(id))| <= NAME_MAX
  {
  }

  /** Until the item directory is there, only the way to it has been made. */
  lemma MadeOnly(was: Fs, log: seq<Fs>, n: nat, now: Fs, id: Name)
    requires WellFormed(was) && TrashDir(id) !in was
    requires Since(log, n, f => Made(was, f, id)) && Made(was, now, id)
    ensures Since(log, n, f => Prepared(was, f, id)) && Prepared(was, now, id)
  {
    forall f: Fs | Made(was, f, id)
      ensures Prepared(was, f, id)
    {
      if Grown(was, f, TRASH_ROOT) {
        GrownMeansPrepared(was, f, id);
      } else {
        GrownMeansPrepared(was, f - {TrashDir(id)}, id);
        StillPrepared(was, f - {TrashDir(id)}, f, id);
      }
    }
  }

  lemma StillPrepared(was: Fs, a: Fs, b: Fs, id: Name)
    requires Prepared(was, a, id)
    requires forall r | r != TrashDir(id) && r != RecordPath(id) :: Agree(a, b, r)
    ensures Prepared(was, b, id)
  {
    assert TrashDir(id) <= TrashDir(id) && TrashDir(id) <= RecordPath(id);
    forall r | r in b && TrashDir(id) <= r
      ensures r == TrashDir(id) || r == RecordPath(id)
    {
      assert r != TrashDir(id) && r != RecordPath(id) ==> Agree(a, b, r);
    }
    forall r | !(TrashDir(id) <= r)
      ensures Agree(was, b, r) || (r !in was && r in b && b[r] == Dir && r <= TRASH_ROOT)
    {
      assert Agree(a, b, r);
      assert Agree(was, a, r) || (r !in was && r in a && a[r] == Dir);
    }
  }

  lemma MovedItemDirectory(before: Fs, p: Path, id: Name)
    requires p != [] && p[0] != PRIVATE && IsDir(before, TrashDir(id))
    requires forall r | r in before && TrashDir(id) <= r :: r == TrashDir(id) || r == RecordPath(id)
    ensures var after := Renamed(before, p, ItemPath(id));
            && IsDir(after, TrashDir(id)) && Tidy(after, id) && RecordedPath(after, id) == RecordedPath(before, id)
  {
    hide Metadata.MetadataPath;
    var after := Renamed(before, p, ItemPath(id));
    assert RecordPath(id)[3] != ItemPath(id)[3];
    RenamedAt(before, p, ItemPath(id), RecordPath(id));
    RenamedAt(before, p, ItemPath(id), TrashDir(id));
    forall r | r in after && TrashDir(id) <= r && !(ItemPath(id) <= r)
      ensures r == TrashDir(id) || r == RecordPath(id)
    {
      RenamedAt(before, p, ItemPath(id), r);
    }
  }

  /** Moving the prepared item into trash. */
  lemma MovedToTrash(was: Fs, before: Fs, p: Path, id: Name, path: CString)
    requires Prepared(was, before, id) && p != [] && p[0] != PRIVATE
    requires IsDir(before, TrashDir(id)) && RecordedPath(before, id) == Ok(path)
    ensures var after := Renamed(before, p, ItemPath(id));
            InTrash(was, after, p, id, path) && Around(was, after, p, TrashDir(id), TRASH_ROOT)
  {
    var after := Renamed(before, p, ItemPath(id));
    PreparedMeansAtHome(was, before, p, id);
    MovedItemDirectory(before, p, id);
    RenamedMovesTree(before, p, ItemPath(id));
    SameTreeTransitive(after, ItemPath(id), before, p, was, p);
    RenamedAt(before, p, ItemPath(id), p);
    hide RecordedPath;
    hide SameTree;
    hide Tidy;
    hide Prepared;
    AroundMove(was, before, p, ItemPath(id), p, TrashDir(id), TRASH_ROOT);
  }

  /** A move between the two places leaves everything around them alone. */
  lemma AroundMove(was: Fs, before: Fs, src: Path, dst: Path, p: Path, q: Path, names: Path)
    requires Around(was, before, p, q, names)
    requires (p <= src && q <= dst) || (q <= src && p <= dst)
    ensures Around(was, Renamed(before, src, dst), p, q, names)
  {
    var after := Renamed(before, src, dst);
    forall r | !(p <= r) && !(q <= r)
      ensures Agree(was, after, r) || (r !in was && r in after && after[r] == Dir && r <= names)
    {
      RenamedAt(before, src, dst, r);
      assert Agree(before, after, r);
      assert Agree(was, before, r) || (r !in was && r in before && before[r] == Dir);
    }
  }

  // ---- trash ----

  /** One moment of a trash run. */
  ghost predicate TrashMoment(was: Fs, now: Fs, id: Name, path: CString) {
    var p := Names(path);
    && Around(was, now, p, TrashDir(id), TRASH_ROOT)
    && (AtHome(was, now, p, id) || InTrash(was, now, p, id, path))
  }

  /** Opening the new item directory and writing the record into it. */
  method FillItem(card: Card, id: Name, text: seq<byte>, ghost was: Fs) returns (error: Option<Errno>)
    requires card.Valid() && Prepared(was, card.fs, id)
    requires IsDir(card.fs, TrashDir(id)) && RecordPath(id) !in card.fs
    modifies card`fs, card`faults, card`log
    ensures card.Valid() && old(card.log) <= card.log
    ensures Prepared(was, card.fs, id)
    ensures Since(card.log, |old(card.log)|, f => Prepared(was, f, id))
    ensures error == None ==> card.fs == old(card.fs)[RecordPath(id) := File(text)]
    ensures IsDir(card.fs, TrashDir(id)) && (RecordPath(id) in card.fs ==> card.fs[RecordPath(id)].File?)
    ensures card.faults >= old(card.faults)
    ensures card.faults == old(card.faults) ==> error == None
  {
    error := card.OpenDirectoryAt(TrashDir(id));
    if error.Some? {
      return;
    }
    assert Up(RecordPath(id)) == TrashDir(id);
    error := WriteText(card, RecordPath(id), text);
    assert OnlyAt(old(card.fs), card.fs, RecordPath(id));
    assert Agree(old(card.fs), card.fs, TrashDir(id));
    StillPrepared(was, old(card.fs), card.fs, id);
    forall k | |old(card.log)| <= k < |card.log|
      ensures Prepared(was, card.log[k], id)
    {
      StillPrepared(was, old(card.fs), card.log[k], id);
    }
  }

  lemma PreparedIsBare(was: Fs, now: Fs, id: Name)
    requires Prepared(was, now, id) && RecordPath(id) !in now
    ensures Bare(now, TrashDir(id))
  {
  }

  /** The rollback of command_trash: whatever of it fails is left behind. */
  method Rollback(card: Card, id: Name, ghost was: Fs)
    requires card.Valid() && Prepared(was, card.fs, id)
    modifies card`fs, card`faults, card`log
    ensures card.Valid() && old(card.log) <= card.log
    ensures Prepared(was, card.fs, id)
    ensures Since(card.log, |old(card.log)|, f => Prepared(was, f, id))
    ensures card.faults >= old(card.faults)
    ensures card.faults == old(card.faults) && IsDir(old(card.fs), TrashDir(id)) &&
            (RecordPath(id) in old(card.fs) ==> old(card.fs)[RecordPath(id)].File?) ==>
              TrashDir(id) !in card.fs
  {
    hide Prepared;
    hide Bare;
    hide WellFormed;
    var unlinked := card.Unlinkat(RecordPath(id));
    StillPrepared(was, old(card.fs), card.fs, id);
    ghost var between := card.fs;
    if RecordPath(id) !in between {
      PreparedIsBare(was, between, id);
    }
    var removed := card.Rmdir(TrashDir(id));
    StillPrepared(was, between, card.fs, id);
  }

  lemma ShortWhole(p: Path)
    requires p != []
    ensures Short(p) <==> Short(Up(p)) && |Last(p)| <= NAME_MAX
  {
    assert p == Up(p) + [Last(p)];
  }

  /** An item of the user's can go to trash, as far as the trees are concerned. */
  lemma Movable(fs: Fs, p: Path, id: Name)
    requires WellFormed(fs) && p != [] && p[0] != PRIVATE && IsDir(fs, TrashDir(id)) && ItemPath(id) !in fs
    ensures Up(ItemPath(id)) == TrashDir(id)
    ensures p in fs && Short(p) ==>
              |Last(p)| <= NAME_MAX && IsDir(fs, Up(p)) && Short(Up(p)) && RenameError(fs, p, ItemPath(id), true) == None
  {
    assert p == Up(p) + [Last(p)];
    assert !(p <= ItemPath(id)) && !(ItemPath(id) <= p);
  }

  method MoveItem(card: Card, p: Path, id: Name) returns (error: Option<Errno>)
    requires card.Valid() && p != [] && p[0] != PRIVATE && IsDir(card.fs, TrashDir(id)) && ItemPath(id) !in card.fs
    modifies card`fs, card`faults, card`log
    ensures card.Valid()
    ensures error == None ==>
              && p in old(card.fs) && Short(p)
              && card.fs == Renamed(old(card.fs), p, ItemPath(id)) && card.log == old(card.log) + [card.fs]
    ensures error != None ==> card.fs == old(card.fs) && card.log == old(card.log)
    ensures card.faults >= old(card.faults)
    ensures card.faults == old(card.faults) && p in old(card.fs) && Short(p) ==> error == None
  {
    hide WellFormed;
    hide Short;
    hide RenameError;
    hide Renamed;
    hide Passable;
    Movable(card.fs, p, id);
    if |Last(p)| > NAME_MAX {
      return Some(ENAMETOOLONG);
    }
    error := OpenDirectory(card, Up(p));
    if error.None? {
      ShortWhole(p);
      error := card.RenameNoreplace(p, ItemPath(id));
    }
  }

  lemma PreparedMoment(was: Fs, now: Fs, id: Name, path: CString)
    requires Verdict(path, false, false) == None && Prepared(was, now, id)
    ensures TrashMoment(was, now, id, path) && AtHome(was, now, Names(path), id)
  {
    PreparedMeansAtHome(was, now, Names(path), id);
  }

  lemma PreparedMoments(was: Fs, log: seq<Fs>, n: nat, id: Name, path: CString)
    requires Verdict(path, false, false) == None
    requires Since(log, n, f => Prepared(was, f, id))
    ensures Since(log, n, f => TrashMoment(was, f, id, path))
  {
    forall k | n <= k < |log|
      ensures TrashMoment(was, log[k], id, path)
    {
      PreparedMoment(was, log[k], id, path);
    }
  }

  lemma BeforeMove(was: Fs, now: Fs, id: Name, path: CString)
    requires Prepared(was, now, id) && Verdict(path, false, false) == None
    ensures var p := Names(path);
            && p != [] && p[0] != PRIVATE
            && ItemPath(id) !in now
            && (p in now <==> p in was)
  {
    var p := Names(path);
    PreparedMeansAtHome(was, now, p, id);
    assert p + [] == p;
  }

  lemma AfterMove(was: Fs, before: Fs, id: Name, path: CString)
    requires Prepared(was, before, id) && Verdict(path, false, false) == None
    requires IsDir(before, TrashDir(id))
    requires RecordPath(id) in before && before[RecordPath(id)] == File(Metadata.Record(path, 0, []))
    ensures var after := Renamed(before, Names(path), ItemPath(id));
            InTrash(was, after, Names(path), id, path) && TrashMoment(was, after, id, path)
  {
    Metadata.RecordReadsBack(path, 0, []);
    MovedToTrash(was, before, Names(path), id, path);
  }

  /** How many failed calls a trash run undoes completely: the one that makes it fail, if one must. */
  function RollbackBudget(was: Fs, path: CString): nat {
    if Names(path) in was && Short(Names(path)) then 1 else 0
  }

  /** The part of command_trash that can roll back. */
  method FillAndMove(card: Card, id: Name, path: CString, ghost was: Fs) returns (error: Option<Errno>)
    requires card.Valid() && Prepared(was, card.fs, id) && Verdict(path, false, false) == None
    requires IsDir(card.fs, TrashDir(id)) && RecordPath(id) !in card.fs
    modifies card`fs, card`faults, card`log
    ensures card.Valid() && old(card.log) <= card.log
    ensures Since(card.log, |old(card.log)|, f => TrashMoment(was, f, id, path))
    ensures error == None ==>
              Names(path) in was && Short(Names(path)) && InTrash(was, card.fs, Names(path), id, path)
    ensures error != None ==> Prepared(was, card.fs, id)
    ensures error == None ==> TrashMoment(was, card.fs, id, path)
    ensures card.faults >= old(card.faults)
    ensures card.faults == old(card.faults) && Names(path) in was && Short(Names(path)) ==> error == None
    ensures error != None && card.faults <= old(card.faults) + RollbackBudget(was, path) ==>
              TrashDir(id) !in card.fs
  {
    hide Prepared;
    hide TrashMoment;
    hide InTrash;
    hide Names;
    hide Verdict;
    hide Metadata.Record;
    hide Metadata.MetadataPath;
    hide Renamed;
    hide WellFormed;
    hide Short;
    var p, text := Names(path), Metadata.Record(path, 0, []);
    error := FillItem(card, id, text, was);
    if error.None? {
      ghost var filled := card.fs;
      BeforeMove(was, filled, id, path);
      error := MoveItem(card, p, id);
      if error.None? {
        AfterMove(was, filled, id, path);
        assert card.log[..|card.log| - 1] + [card.fs] == card.log;
        PreparedMoments(was, card.log[..|card.log| - 1], |old(card.log)|, id, path);
        return;
      }
    }
    Rollback(card, id, was);
    PreparedMoments(was, card.log, |old(card.log)|, id, path);
  }

  /** command_trash, after it decoded its argument */
  method TrashItem(card: Card, path: CString) returns (id: Name, error: Option<Errno>)
    requires card.Valid() && Verdict(path, false, false) == None
    modifies card`fs, card`faults, card`log
    ensures card.Valid() && old(card.log) <= card.log
    ensures ValidId(id)
    ensures TrashDir(id) !in old(card.fs) ==>
              && Since(card.log, |old(card.log)|, f => TrashMoment(old(card.fs), f, id, path))
              && TrashMoment(old(card.fs), card.fs, id, path)
              && (error == None ==>
                    && Names(path) in old(card.fs) && Short(Names(path))
                    && InTrash(old(card.fs), card.fs, Names(path), id, path))
              && (error != None ==> AtHome(old(card.fs), card.fs, Names(path), id))
    ensures TrashDir(id) in old(card.fs) ==>
              && error != None && Grown(old(card.fs), card.fs, TRASH_ROOT)
              && GrownSince(old(card.fs), card.log, |old(card.log)|, TRASH_ROOT)
    ensures card.faults >= old(card.faults)
    ensures card.faults == old(card.faults) && TrashDir(id) !in old(card.fs) &&
            Names(path) in old(card.fs) && Short(Names(path)) && Passable(old(card.fs), TRASH_ROOT) ==>
              error == None
    ensures error != None && TrashDir(id) !in old(card.fs) &&
            card.faults <= old(card.faults) + RollbackBudget(old(card.fs), path) ==>
              TrashDir(id) !in card.fs
  {
    hide Prepared;
    hide TrashMoment;
    hide InTrash;
    hide AtHome;
    hide Verdict;
    hide Split;
    ghost var was, n := card.fs, |card.log|;
    assert ValidId([97, 97, 97, 97, 97, 97, 97, 97]);
    id :| ValidId(id);
    error := card.Fault();
    if error.None? {
      error := MakeItem(card, id);
    }
    if TrashDir(id) !in was {
      MadeOnly(was, card.log, n, card.fs, id);
      PreparedMoments(was, card.log, n, id, path);
      PreparedMoment(was, card.fs, id, path);
    }
    if error.Some? {
      return;
    }
    error := FillAndMove(card, id, path, was);
    if error.Some? {
      PreparedMoment(was, card.fs, id, path);
    }
  }

  // ---- restore ----

  /** One moment of a restore run: the item is whole in trash, or whole in its place. */
  ghost predicate RestoreMoment(was: Fs, now: Fs, id: Name, path: CString) {
    var p := Names(path);
    && Around(was, now, p, TrashDir(id), Up(p)) && Beside(was, now, id)
    && (Stored(was, now, p, id) || Back(was, now, p, id))
  }

  /** What else the directory of the item may hold is left alone. */
  ghost predicate Beside(was: Fs, now: Fs, id: Name) {
    forall r | TrashDir(id) <= r && r != TrashDir(id) && r != RecordPath(id) && !(ItemPath(id) <= r) ::
      Agree(was, now, r)
  }

  ghost predicate Stored(was: Fs, now: Fs, p: Path, id: Name) {
    && SameTree(now, ItemPath(id), was, ItemPath(id)) && Agree(was, now, RecordPath(id))
    && SameTree(now, p, was, p)
  }

  ghost predicate Back(was: Fs, now: Fs, p: Path, id: Name) {
    SameTree(now, p, was, ItemPath(id)) && ItemPath(id) !in now && p !in was
  }

  /** What a restore needs to succeed when no call fails on its own. */
  ghost predicate Restorable(fs: Fs, id: Name) {
    && ValidId(id) && IsDir(fs, TrashDir(id)) && Tidy(fs, id) && ItemPath(id) in fs
    && RecordedPath(fs, id).Ok?
    && var p := Names(RecordedPath(fs, id).value);
       p !in fs && Short(p) && Passable(fs, Up(p))
  }

  /** The recorded path of an item is one that may be used. */
  lemma RecordedPathIsUsable(fs: Fs, id: Name)
    requires RecordedPath(fs, id).Ok?
    ensures Verdict(RecordedPath(fs, id).value, false, false) == None
    ensures Names(RecordedPath(fs, id).value)[0] != PRIVATE
  {
  }

  lemma GrownElsewhere(was: Fs, now: Fs, names: Path, r: Path)
    requires Grown(was, now, names) && (|r| > |names| || (r != [] && names != [] && r[0] != names[0]))
    ensures Agree(was, now, r)
  {
  }

  lemma GrownMeansStored(was: Fs, now: Fs, p: Path, id: Name)
    requires p != [] && p[0] != PRIVATE && Grown(was, now, Up(p))
    ensures Stored(was, now, p, id) && Around(was, now, p, TrashDir(id), Up(p)) && Beside(was, now, id)
  {
    forall r | TrashDir(id) <= r
      ensures Agree(was, now, r)
    {
      assert r[0] == PRIVATE && !(r <= Up(p));
    }
    forall r: Path
      ensures Agree(was, now, p + r) && Agree(was, now, ItemPath(id) + r)
    {
      assert !(p + r <= Up(p));
      assert (ItemPath(id) + r)[0] == PRIVATE;
    }
  }

  /** Moving the item back. */
  lemma MovedBack(was: Fs, before: Fs, p: Path, id: Name)
    requires p != [] && p[0] != PRIVATE && Grown(was, before, Up(p)) && p !in before
    ensures var after := Renamed(before, ItemPath(id), p);
            Back(was, after, p, id) && Around(was, after, p, TrashDir(id), Up(p)) && Beside(was, after, id)
  {
    var after := Renamed(before, ItemPath(id), p);
    GrownMeansStored(was, before, p, id);
    forall r | TrashDir(id) <= r && r != TrashDir(id) && r != RecordPath(id) && !(ItemPath(id) <= r)
      ensures Agree(was, after, r)
    {
      RenamedAt(before, ItemPath(id), p, r);
      assert r[0] == PRIVATE && Agree(was, before, r);
    }
    RenamedMovesTree(before, ItemPath(id), p);
    RenamedAt(before, ItemPath(id), p, ItemPath(id));
    SameTreeTransitive(after, p, before, ItemPath(id), was, ItemPath(id));
    AroundMove(was, before, ItemPath(id), p, p, TrashDir(id), Up(p));
  }

  lemma CleanedUp(was: Fs, a: Fs, b: Fs, p: Path, id: Name)
    requires p != [] && p[0] != PRIVATE
    requires Back(was, a, p, id) && Around(was, a, p, TrashDir(id), Up(p))
    requires forall r | r != TrashDir(id) && r != RecordPath(id) :: Agree(a, b, r)
    ensures Back(was, b, p, id) && Around(was, b, p, TrashDir(id), Up(p))
  {
    assert TrashDir(id) <= TrashDir(id) && TrashDir(id) <= RecordPath(id);
    forall r: Path
      ensures Agree(a, b, p + r)
    {
      assert (p + r)[0] == p[0];
    }
    forall r | !(p <= r) && !(TrashDir(id) <= r)
      ensures Agree(was, b, r) || (r !in was && r in b && b[r] == Dir && r <= Up(p))
    {
      assert Agree(a, b, r);
      assert Agree(was, a, r) || (r !in was && r in a && a[r] == Dir);
    }
    assert Agree(a, b, ItemPath(id));
  }

  /** open_private_item and metadata_path for an item in trash */
  method LoadRecord(card: Card, id: Name) returns (path: Result<CString>)
    requires card.Valid()
    modifies card`faults
    ensures path.Ok? ==> ValidId(id) && IsDir(card.fs, TrashDir(id)) && RecordedPath(card.fs, id) == path
    ensures card.faults >= old(card.faults)
    ensures card.faults == old(card.faults) && ValidId(id) && IsDir(card.fs, TrashDir(id)) ==>
              (path.Ok? <==> RecordedPath(card.fs, id).Ok?)
  {
    hide Metadata.MetadataPath;
    if !ValidId(id) {
      return Err(EINVAL);
    }
    if IsDir(card.fs, TrashDir(id)) {
      AncestorIsDir(card.fs, TRASH_ROOT, TrashDir(id));
    }
    var error := OpenDirectory(card, TRASH_ROOT);
    if error.Some? {
      return Err(error.value);
    }
    error := card.OpenDirectoryAt(TrashDir(id));
    if error.Some? {
      return Err(error.value);
    }
    var content := card.ReadFile(RecordPath(id));
    if content.Err? {
      return Err(content.error);
    }
    return Metadata.MetadataPath(content.value);
  }

  lemma GrownMoments(was: Fs, log: seq<Fs>, n: nat, id: Name, path: CString)
    requires Verdict(path, false, false) == None
    requires Since(log, n, f => Grown(was, f, Up(Names(path))))
    ensures Since(log, n, f => RestoreMoment(was, f, id, path))
  {
    forall k | n <= k < |log|
      ensures RestoreMoment(was, log[k], id, path)
    {
      GrownMeansStored(was, log[k], Names(path), id);
    }
  }

  /** The item directory once the item has left it. */
  ghost predicate Emptied(was: Fs, now: Fs, id: Name) {
    && IsDir(now, TrashDir(id)) && Agree(was, now, RecordPath(id))
    && (Tidy(was, id) ==> forall r | r in now && TrashDir(id) <= r :: r == TrashDir(id) || r == RecordPath(id))
  }

  lemma AfterPutBack(was: Fs, grown: Fs, id: Name, path: CString)
    requires Verdict(path, false, false) == None && IsDir(was, TrashDir(id))
    requires Grown(was, grown, Up(Names(path))) && Names(path) !in grown
    ensures var p := Names(path);
            var after := Renamed(grown, ItemPath(id), p);
            Back(was, after, p, id) && RestoreMoment(was, after, id, path) && Emptied(was, after, id)
  {
    var p := Names(path);
    var after := Renamed(grown, ItemPath(id), p);
    MovedBack(was, grown, p, id);
    GrownMeansStored(was, grown, p, id);
    assert RecordPath(id)[3] != ItemPath(id)[3];
    RenamedAt(grown, ItemPath(id), p, TrashDir(id));
    RenamedAt(grown, ItemPath(id), p, RecordPath(id));
    if Tidy(was, id) {
      forall r | r in after && TrashDir(id) <= r
        ensures r == TrashDir(id) || r == RecordPath(id)
      {
        RenamedAt(grown, ItemPath(id), p, r);
        assert r[0] == PRIVATE && !(r <= Up(p));
      }
    }
  }

  lemma UsablePath(path: CString)
    requires Verdict(path, false, false) == None
    ensures Names(path) != [] && Names(path)[0] != PRIVATE
  {
  }

  /** The part of command_restore that moves the item. */
  method PutBack(card: Card, id: Name, path: CString) returns (error: Option<Errno>)
    requires card.Valid() && IsDir(card.fs, TrashDir(id)) && Verdict(path, false, false) == None
    modifies card`fs, card`faults, card`log
    ensures card.Valid() && old(card.log) <= card.log
    ensures Since(card.log, |old(card.log)|, f => RestoreMoment(old(card.fs), f, id, path))
    ensures RestoreMoment(old(card.fs), card.fs, id, path)
    ensures error == None ==>
              && ItemPath(id) in old(card.fs)
              && Back(old(card.fs), card.fs, Names(path), id) && Emptied(old(card.fs), card.fs, id)
    ensures error != None ==> Stored(old(card.fs), card.fs, Names(path), id)
    ensures card.faults >= old(card.faults)
    ensures card.faults == old(card.faults) && ItemPath(id) in old(card.fs) &&
            Names(path) !in old(card.fs) && Short(Names(path)) && Passable(old(card.fs), Up(Names(path))) ==>
              error == None
  {
    hide Verdict;
    hide Names;
    hide Stored;
    hide Back;
    hide Around;
    hide Emptied;
    hide WellFormed;
    hide Passable;
    hide Renamed;
    var p := Names(path);
    ghost var was, n := card.fs, |card.log|;
    UsablePath(path);
    assert Grown(was, was, Up(p));
    GrownMeansStored(was, was, p, id);
    if |Last(p)| > NAME_MAX {
      return Some(ENAMETOOLONG);
    }
    error := EnsureDirectory(card, Up(p));
    ghost var grown := card.fs;
    GrownMoments(was, card.log, n, id, path);
    GrownMeansStored(was, grown, p, id);
    if error.Some? {
      return;
    }
    assert Up(ItemPath(id)) == TrashDir(id);
    GrownElsewhere(was, grown, Up(p), ItemPath(id));
    GrownElsewhere(was, grown, Up(p), p);
    hide Grown;
    error := card.RenameNoreplace(ItemPath(id), p);
    if error.None? {
      AfterPutBack(was, grown, id, path);
    }
  }

  lemma CleanedUpMoment(was: Fs, a: Fs, b: Fs, id: Name, path: CString)
    requires Verdict(path, false, false) == None && RestoreMoment(was, a, id, path) && Back(was, a, Names(path), id)
    requires forall r | r != TrashDir(id) && r != RecordPath(id) :: Agree(a, b, r)
    ensures RestoreMoment(was, b, id, path) && Back(was, b, Names(path), id)
  {
    CleanedUp(was, a, b, Names(path), id);
    forall r | TrashDir(id) <= r && r != TrashDir(id) && r != RecordPath(id) && !(ItemPath(id) <= r)
      ensures Agree(was, b, r)
    {
      assert Agree(was, a, r) && Agree(a, b, r);
    }
  }

  /** The part of command_restore after the move. */
  method CleanUp(card: Card, id: Name, path: CString, ghost was: Fs) returns (error: Option<Errno>)
    requires card.Valid() && Verdict(path, false, false) == None
    requires RestoreMoment(was, card.fs, id, path) && Back(was, card.fs, Names(path), id)
    modifies card`fs, card`faults, card`log
    ensures card.Valid() && old(card.log) <= card.log
    ensures Since(card.log, |old(card.log)|, f => RestoreMoment(was, f, id, path))
    ensures RestoreMoment(was, card.fs, id, path) && Back(was, card.fs, Names(path), id)
    ensures error == None ==> TrashDir(id) !in card.fs
    ensures card.faults >= old(card.faults)
    ensures card.faults == old(card.faults) && IsDir(old(card.fs), TrashDir(id)) &&
            RecordPath(id) in old(card.fs) && !old(card.fs)[RecordPath(id)].Dir? &&
            (forall r | r in old(card.fs) && TrashDir(id) <= r :: r == TrashDir(id) || r == RecordPath(id)) ==>
              error == None
  {
    hide RestoreMoment;
    hide Back;
    hide Verdict;
    hide Split;
    hide WellFormed;
    ghost var before := card.fs;
    var unlinked := card.Unlinkat(RecordPath(id));
    CleanedUpMoment(was, before, card.fs, id, path);
    before := card.fs;
    error := card.Rmdir(TrashDir(id));
    CleanedUpMoment(was, before, card.fs, id, path);
  }

  /** command_restore */
  method RestoreItem(card: Card, id: Name) returns (error: Option<Errno>)
    requires card.Valid()
    modifies card`fs, card`faults, card`log
    ensures card.Valid() && old(card.log) <= card.log
    ensures RecordedPath(old(card.fs), id).Err? ==>
              error != None && card.fs == old(card.fs) && card.log == old(card.log)
    ensures RecordedPath(old(card.fs), id).Ok? ==>
              var path := RecordedPath(old(card.fs), id).value;
              && Since(card.log, |old(card.log)|, f => RestoreMoment(old(card.fs), f, id, path))
              && RestoreMoment(old(card.fs), card.fs, id, path)
              && (error == None ==>
                    && ItemPath(id) in old(card.fs)
                    && Back(old(card.fs), card.fs, Names(path), id) && TrashDir(id) !in card.fs)
    ensures card.faults >= old(card.faults)
    ensures card.faults == old(card.faults) && Restorable(old(card.fs), id) ==> error == None
  {
    hide Metadata.MetadataPath;
    hide RestoreMoment;
    hide Back;
    hide Stored;
    hide Split;
    ghost var was, n := card.fs, |card.log|;
    if RecordedPath(was, id).Ok? {
      RecordedPathIsUsable(was, id);
      NothingYet(was, id, RecordedPath(was, id).value);
    }
    hide Verdict;
    error := card.Fault();
    if error.Some? {
      return;
    }
    var loaded := LoadRecord(card, id);
    if loaded.Err? {
      return Some(loaded.error);
    }
    var path := loaded.value;
    error := PutBack(card, id, path);
    if error.None? {
      error := CleanUp(card, id, path, was);
    }
  }

  lemma NothingYet(was: Fs, id: Name, path: CString)
    requires Verdict(path, false, false) == None
    ensures RestoreMoment(was, was, id, path)
  {
    GrownMeansStored(was, was, Names(path), id);
  }

  // ---- What the moments amount to ----

  /** An interrupted trash run leaves the item at home or leaves it so that it can be restored. */
  lemma TrashedIsRestorable(was: Fs, now: Fs, id: Name, path: CString)
    requires WellFormed(was) && ValidId(id) && Verdict(path, false, false) == None
    requires Names(path) in was && Short(Names(path))
    requires TrashMoment(was, now, id, path) && InTrash(was, now, Names(path), id, path)
    ensures Restorable(now, id)
  {
    var p := Names(path);
    assert p != [] && p[0] != PRIVATE;
    hide Verdict;
    hide Split;
    hide Metadata.MetadataPath;
    SameTreeTop(now, ItemPath(id), was, p);
    ParentIsPassable(was, now, p, TrashDir(id));
    hide Around;
    hide SameTree;
    hide Tidy;
    hide Passable;
    hide WellFormed;
    hide Short;
  }

  /** The way back stays open while it grows. */
  lemma WayStaysPassable(was: Fs, now: Fs, p: Path, q: Path)
    requires p != [] && p[0] != PRIVATE && q != [] && q[0] == PRIVATE && Around(was, now, p, q, Up(p))
    requires Passable(was, Up(p))
    ensures Passable(now, Up(p))
  {
    forall i | 0 <= i <= |Up(p)|
      ensures Up(p)[..i] in now ==> now[Up(p)[..i]] == Dir
    {
      var up := Up(p)[..i];
      assert !(p <= up) && !(q <= up);
      assert Agree(was, now, up) || now[up] == Dir;
    }
  }

  /** An interrupted restore leaves the item so that it can be restored, or has brought it back. */
  lemma RestoreCanGoOn(was: Fs, now: Fs, id: Name, path: CString)
    requires WellFormed(now) && Restorable(was, id) && RecordedPath(was, id) == Ok(path)
    requires RestoreMoment(was, now, id, path)
    ensures Restorable(now, id) || Back(was, now, Names(path), id)
  {
    RecordedPathIsUsable(was, id);
    hide Verdict;
    hide Names;
    hide RecordedPath;
    var p := Names(path);
    if !Back(was, now, p, id) {
      hide Back;
      SameTreeTop(now, ItemPath(id), was, ItemPath(id));
      SameTreeTop(now, p, was, p);
      WayStaysPassable(was, now, p, TrashDir(id));
      StoredStaysTidy(was, now, p, id);
      RecordStays(was, now, id);
    }
  }

  lemma RecordStays(was: Fs, now: Fs, id: Name)
    requires Agree(was, now, RecordPath(id))
    ensures RecordedPath(now, id) == RecordedPath(was, id)
  {
  }

  lemma StoredStaysTidy(was: Fs, now: Fs, p: Path, id: Name)
    requires WellFormed(now) && Stored(was, now, p, id) && Beside(was, now, id) && Tidy(was, id) && ItemPath(id) in now
    ensures Tidy(now, id) && IsDir(now, TrashDir(id))
  {
    assert Up(ItemPath(id)) == TrashDir(id);
    forall r | r in now && TrashDir(id) <= r
      ensures r == TrashDir(id) || r == RecordPath(id) || ItemPath(id) <= r
    {
      assert r == TrashDir(id) || r == RecordPath(id) || ItemPath(id) <= r || Agree(was, now, r);
    }
  }

  /** The directories on the way to an entry stay where they were. */
  lemma ParentIsPassable(was: Fs, now: Fs, p: Path, q: Path)
    requires WellFormed(was) && p in was && p != [] && p[0] != PRIVATE && Short(p)
    requires q != [] && q[0] == PRIVATE && Around(was, now, p, q, TRASH_ROOT)
    ensures Passable(now, Up(p))
  {
    forall i | 0 <= i <= |Up(p)|
      ensures Up(p)[..i] in now ==> now[Up(p)[..i]] == Dir
    {
      var up := Up(p)[..i];
      assert up <= p && up != p;
      AncestorsAreDirs(was, up, p);
      assert !(p <= up) && !(q <= up);
      assert Agree(was, now, up);
    }
  }

  lemma AgreeAround(was: Fs, between: Fs, now: Fs, p: Path, q: Path, r: Path)
    requires !(p <= r) && !(q <= r) && p != []
    requires Around(was, between, p, q, TRASH_ROOT) && Around(between, now, p, q, Up(p))
    requires (r == [] ==> r in was) && (r != [] ==> r[0] != PRIVATE) && (r <= Up(p) ==> r in was)
    ensures Agree(was, now, r)
  {
    var before, after := Agree(was, between, r), Agree(between, now, r);
  }

  lemma SameUserEntry(was: Fs, between: Fs, now: Fs, p: Path, q: Path, r: Path)
    requires WellFormed(was) && p in was && p != [] && p[0] != PRIVATE && q != [] && q[0] == PRIVATE
    requires SameTree(now, p, was, p)
    requires Around(was, between, p, q, TRASH_ROOT) && Around(between, now, p, q, Up(p))
    requires r == [] || r[0] != PRIVATE
    ensures Agree(was, now, r)
  {
    if p <= r {
      assert r == p + r[|p|..];
    } else {
      if r <= Up(p) {
        AncestorsAreDirs(was, r, p);
      }
      AgreeAround(was, between, now, p, q, r);
    }
  }

  /** A trash that succeeded and a restore that succeeded give back the same user tree. */
  lemma TrashThenRestore(was: Fs, between: Fs, now: Fs, id: Name, path: CString)
    requires WellFormed(was) && Verdict(path, false, false) == None && Names(path) in was
    requires TrashMoment(was, between, id, path) && InTrash(was, between, Names(path), id, path)
    requires RestoreMoment(between, now, id, path) && Back(between, now, Names(path), id)
    ensures forall r | r == [] || r[0] != PRIVATE :: Agree(was, now, r)
  {
    var p := Names(path);
    assert p != [] && p[0] != PRIVATE;
    hide Verdict;
    hide Split;
    hide RecordedPath;
    hide Tidy;
    hide AtHome;
    hide Stored;
    SameTreeTransitive(now, p, between, ItemPath(id), was, p);
    assert Around(was, between, p, TrashDir(id), TRASH_ROOT) && Around(between, now, p, TrashDir(id), Up(p));
    hide TrashMoment;
    hide RestoreMoment;
    hide InTrash;
    hide Back;
    hide Around;
    forall r | r == [] || r[0] != PRIVATE
      ensures Agree(was, now, r)
    {
      SameUserEntry(was, between, now, p, TrashDir(id), r);
    }
  }

  lemma SameFiles(now: Fs, was: Fs, p: Path)
    requires SameTree(now, p, was, p)
    ensures forall r | r in was && p <= r :: r in now && now[r] == was[r]
  {
    forall r | r in was && p <= r
      ensures r in now && now[r] == was[r]
    {
      assert r == p + r[|p|..];
    }
  }

  lemma TrashKeepsTheRest(was: Fs, now: Fs, p: Path, id: Name)
    requires WellFormed(was) && TrashDir(id) !in was && Around(was, now, p, TrashDir(id), TRASH_ROOT)
    ensures forall r | r in was && !(p <= r) :: r in now && now[r] == was[r] && !(TrashDir(id) <= r)
  {
    OnlyDirsHaveEntries(was, TrashDir(id));
    hide WellFormed;
    forall r | r in was && !(p <= r)
      ensures r in now && now[r] == was[r] && !(TrashDir(id) <= r)
    {
      assert Agree(was, now, r);
    }
  }

  /** No content is lost at any moment of a trash run ... */
  lemma TrashLosesNothing(was: Fs, now: Fs, id: Name, path: CString)
    requires WellFormed(was) && TrashDir(id) !in was && Verdict(path, false, false) == None
    requires TrashMoment(was, now, id, path)
    ensures NothingLost(was, now)
  {
    var p := Names(path);
    assert p != [] && p[0] != PRIVATE;
    TrashKeepsTheRest(was, now, p, id);
    var home := AtHome(was, now, p, id);
    assert !home ==> SameTree(now, ItemPath(id), was, p);
    assert home ==> SameTree(now, p, was, p);
    hide Names;
    hide Verdict;
    hide SameTree;
    hide WellFormed;
    hide TrashMoment;
    hide AtHome;
    hide InTrash;
    if home {
      SameFiles(now, was, p);
      EditLosesNothing(was, now);
    } else {
      FirstNameDiffers(p, ItemPath(id));
      TransferLosesNothing(was, now, p, ItemPath(id));
    }
  }

  lemma FirstNameDiffers(a: Path, b: Path)
    requires a != [] && b != [] && a[0] != b[0]
    ensures !(a <= b) && !(b <= a)
  {
  }

  /** ... nor of a restore run. */
  lemma RestoreLosesNothing(was: Fs, now: Fs, id: Name, path: CString)
    requires WellFormed(was) && Verdict(path, false, false) == None
    requires IsDir(was, TrashDir(id)) && RestoreMoment(was, now, id, path)
    ensures NothingLost(was, now)
  {
    var p, q := Names(path), ItemPath(id);
    assert p != [] && p[0] != PRIVATE;
    RestoreKeepsTheRest(was, now, p, id);
    var stored := Stored(was, now, p, id);
    assert stored ==> SameTree(now, p, was, p) && SameTree(now, q, was, q);
    assert !stored ==> SameTree(now, p, was, q) && p !in was;
    hide Names;
    hide Verdict;
    hide SameTree;
    hide RestoreMoment;
    hide Stored;
    hide Back;
    hide Around;
    hide Beside;
    if stored {
      SameFiles(now, was, p);
      SameFiles(now, was, q);
      hide WellFormed;
      EditLosesNothing(was, now);
    } else {
      OnlyDirsHaveEntries(was, p);
      hide WellFormed;
      FirstNameDiffers(p, q);
      TransferLosesNothing(was, now, q, p);
    }
  }

  lemma RestoreKeepsTheRest(was: Fs, now: Fs, p: Path, id: Name)
    requires IsDir(was, TrashDir(id)) && p != [] && Around(was, now, p, TrashDir(id), Up(p)) && Beside(was, now, id)
    ensures forall r | r in was && was[r].File? && !IsRecord(r) && !(p <= r) && !(ItemPath(id) <= r) ::
              r in now && now[r] == was[r]
  {
    assert IsRecord(RecordPath(id));
    forall r | r in was && was[r].File? && !IsRecord(r) && !(p <= r) && !(ItemPath(id) <= r)
      ensures r in now && now[r] == was[r]
    {
      assert Agree(was, now, r);
    }
  }
}
