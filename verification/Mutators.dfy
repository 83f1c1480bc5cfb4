/** mkdir, rename and move. */
module Mutators {
  import opened Bytes
  import opened Text
  import opened Paths
  import opened Tree
  import opened Syscalls
  import opened Directories
  import opened Policies
  import Metadata
  import Base64

  /** The names of a path; the empty path is the root of the card. */
  function Components(path: seq<byte>): Path {
    if path == [] then [] else Split(path, SLASH)
  }

  /** valid_new_name */
  predicate ValidNewName(name: seq<byte>) {
    && name != [] && |name| <= NAME_MAX && Ordinary(name)
    && name[|name| - 1] != 32 && name[|name| - 1] != DOT
    && forall i | 0 <= i < |name| :: name[i] >= 32 && name[i] !in {92, 47, 58, 42, 63, 34, 60, 62, 124}
  }

  /** A new name as the commands decode it. */
  function DecodeName(argument: CString): Result<Name> {
    match Base64.Decoded(argument)
    case Err(_) => Err(EINVAL)
    case Ok(name) => if ValidNewName(name) then Ok(name) else Err(EINVAL)
  }

  ghost predicate NothingLostSince(was: Fs, log: seq<Fs>, n: nat) {
    forall k | n <= k < |log| :: NothingLost(was, log[k])
  }

  /** Everything below the private directory is as it was. */
  ghost predicate PrivateSame(a: Fs, b: Fs) {
    forall r | r != [] && r[0] == PRIVATE :: Agree(a, b, r)
  }

  // ---- What moving a user's entry to a user's place does ----

  lemma UserRenameKeepsPrivate(fs: Fs, src: Path, dst: Path)
    requires src != [] && src[0] != PRIVATE && dst != [] && dst[0] != PRIVATE
    ensures PrivateSame(fs, Renamed(fs, src, dst))
  {
    forall r | r != [] && r[0] == PRIVATE
      ensures Agree(fs, Renamed(fs, src, dst), r)
    {
      RenamedAt(fs, src, dst, r);
    }
  }

  lemma UserRenameLosesNothing(fs: Fs, src: Path, dst: Path)
    requires WellFormed(fs) && src in fs && dst !in fs && !(src <= dst)
    requires dst != [] && dst[0] != PRIVATE
    ensures NothingLost(fs, Renamed(fs, src, dst))
  {
    forall r | r in fs && src <= r && !IsRecord(r)
      ensures !IsRecord(Origin(dst, src, r))
    {
      assert Origin(dst, src, r)[0] == dst[0];
    }
    RenamedLosesNothing(fs, src, dst);
  }

  /** The file at r would be taken for a record of the service if src became the private directory. */
  predicate TakesRecordPlace(src: Path, r: Path) {
    src <= r && IsRecord(Origin([PRIVATE], src, r))
  }

  /** Some file of the user below src would be taken for a record. */
  predicate LooksPrivate(fs: Fs, src: Path) {
    exists r | r in fs :: fs[r].File? && TakesRecordPlace(src, r)
  }

  /** A rename that makes a user's entry the private directory, and costs a content by that. */
  predicate Loses(fs: Fs, src: Path, dst: Path) {
    dst == [PRIVATE] && dst !in fs && LooksPrivate(fs, src)
  }

  /** A user's entry goes to a free name at a place of the user: what is lost, if anything. */
  lemma UserRenameLoss(fs: Fs, src: Path, dst: Path)
    requires WellFormed(fs) && src in fs && dst !in fs && !(src <= dst)
    requires src != [] && src[0] != PRIVATE && dst != [] && (|dst| > 1 ==> dst[0] != PRIVATE)
    ensures NothingLost(fs, Renamed(fs, src, dst)) <==> !Loses(fs, src, dst)
  {
    if dst == [PRIVATE] {
      RenameToPrivate(fs, src);
    } else {
      UserRenameLosesNothing(fs, src, dst);
    }
  }

  /**
   valid_new_name lets an entry of the root be called ".r1-manager". Giving a user's directory
   that name keeps every content exactly when it does not look like the private directory.
   */
  lemma RenameToPrivate(fs: Fs, src: Path)
    requires WellFormed(fs) && src in fs && src != [] && src[0] != PRIVATE && [PRIVATE] !in fs
    ensures NothingLost(fs, Renamed(fs, src, [PRIVATE])) <==> !LooksPrivate(fs, src)
  {
    if LooksPrivate(fs, src) {
      var r :| r in fs && fs[r].File? && TakesRecordPlace(src, r);
      TakenForRecord(fs, src, r);
    } else {
      RenamedLosesNothing(fs, src, [PRIVATE]);
    }
  }

  /** A file that the user still has after the renaming was there before, and is not the one that looks like a record. */
  lemma HeldBefore(fs: Fs, src: Path, lost: Path, content: seq<byte>, r: Path)
    requires src != [] && src[0] != PRIVATE && TakesRecordPlace(src, lost)
    requires r in Holding(Renamed(fs, src, [PRIVATE]), content)
    ensures var origin := Origin(src, [PRIVATE], r);
            && origin in Holding(fs, content) && origin != lost
            && ([PRIVATE] <= r ==> src <= origin)
  {
    var dst, origin := [PRIVATE], Origin(src, [PRIVATE], r);
    RenamedAt(fs, src, dst, r);
    if dst <= r {
      assert origin[0] == src[0] && r == dst + origin[|src|..];
    } else {
      assert r == [] || r[0] != PRIVATE;
    }
  }

  lemma TakenForRecord(fs: Fs, src: Path, lost: Path)
    requires WellFormed(fs) && src != [] && src[0] != PRIVATE && [PRIVATE] !in fs
    requires lost in fs && fs[lost].File? && TakesRecordPlace(src, lost)
    ensures !NothingLost(fs, Renamed(fs, src, [PRIVATE]))
  {
    var dst := [PRIVATE];
    var after, content := Renamed(fs, src, dst), fs[lost].content;
    var held := Holding(after, content);
    var back := set r | r in held :: Origin(src, dst, r);
    forall r | r in held
      ensures Origin(src, dst, r) in Holding(fs, content) && Origin(src, dst, r) != lost
      ensures dst <= r ==> Origin(src, dst, r) !in held
    {
      HeldBefore(fs, src, lost, content, r);
      RenamedAt(fs, src, dst, Origin(src, dst, r));
    }
    ImageSize(held, dst, src);
    assert lost in Holding(fs, content) by {
      assert lost[0] == src[0];
    }
    SubsetSize(back, Holding(fs, content) - {lost});
    assert Copies(after, content) < Copies(fs, content);
  }

  /** A concrete loss: a directory with a trash item's layout, renamed. */
  lemma RenameToPrivateCanLose(name: Name, id: Name, content: seq<byte>)
    requires name != PRIVATE && |name| <= NAME_MAX && |id| <= NAME_MAX
    ensures var fs := map[[] := Dir, [name] := Dir, [name, TRASH] := Dir, [name, TRASH, id] := Dir,
                          [name, TRASH, id, METADATA] := File(content)];
            WellFormed(fs) && !NothingLost(fs, Renamed(fs, [name], [PRIVATE]))
  {
    var fs := map[[] := Dir, [name] := Dir, [name, TRASH] := Dir, [name, TRASH, id] := Dir,
                  [name, TRASH, id, METADATA] := File(content)];
    assert Up([name]) == [] && Up([name, TRASH]) == [name] && Up([name, TRASH, id]) == [name, TRASH];
    assert Up([name, TRASH, id, METADATA]) == [name, TRASH, id];
    assert Origin([PRIVATE], [name], [name, TRASH, id, METADATA]) == [PRIVATE, TRASH, id, METADATA];
    TakenForRecord(fs, [name], [name, TRASH, id, METADATA]);
  }

  // ---- The commands ----

  /** What command_mkdir needs, on a sound device, once it decoded its arguments. */
  predicate CanMake(fs: Fs, parent: seq<byte>, name: Name) {
    IsDir(fs, Components(parent)) && Components(parent) + [name] !in fs && JoinPath(PATH_MAX, parent, name).Ok?
  }

  method MakeNamed(card: Card, parent: CString, name: Name) returns (r: Result<seq<byte>>)
    requires card.Valid() && 0 < |name| <= NAME_MAX && (Components(parent) != [] ==> Components(parent)[0] != PRIVATE)
    modifies card`fs, card`faults, card`log
    ensures card.Valid() && old(card.log) <= card.log
    ensures var p := Components(parent) + [name];
            if card.fs == old(card.fs) then r.Err? && card.log == old(card.log)
            else
              && p !in old(card.fs) && card.fs == old(card.fs)[p := Dir] && card.log == old(card.log) + [card.fs]
              && r == JoinPath(PATH_MAX, parent, name)
    ensures card.faults >= old(card.faults)
    ensures card.faults == old(card.faults) ==> (r.Ok? <==> CanMake(old(card.fs), parent, name))
  {
    hide Components;
    hide JoinPath;
    hide WellFormed;
    var directory := Components(parent);
    var p := directory + [name];
    assert Up(p) == directory && Last(p) == name;
    if IsDir(card.fs, directory) {
      DirIsShort(card.fs, directory);
    }
    var error := card.Fault();
    if error.None? {
      error := OpenDirectory(card, directory);
    }
    if error.Some? {
      return Err(error.value);
    }
    error := card.Mkdirat(p);
    if error.Some? {
      return Err(error.value);
    }
    assert p in card.fs && p !in old(card.fs);
    return JoinPath(PATH_MAX, parent, name);
  }

  /** command_mkdir */
  method MakeDirectory(card: Card, parentArgument: CString, nameArgument: CString) returns (r: Result<seq<byte>>)
    requires card.Valid()
    modifies card`fs, card`faults, card`log
    ensures card.Valid() && old(card.log) <= card.log
    ensures var parent, name := Metadata.DecodeArgument(parentArgument, true), DecodeName(nameArgument);
            if parent.Err? || name.Err? then
              r.Err? && card.fs == old(card.fs) && card.log == old(card.log)
            else
              var p, joined := Components(parent.value) + [name.value], JoinPath(PATH_MAX, parent.value, name.value);
              && (if card.fs == old(card.fs) then r.Err? && card.log == old(card.log)
                  else
                    && p !in old(card.fs) && card.fs == old(card.fs)[p := Dir] && card.log == old(card.log) + [card.fs]
                    && r == joined)
              && (card.faults == old(card.faults) ==> (r.Ok? <==> CanMake(old(card.fs), parent.value, name.value)))
    ensures NothingLost(old(card.fs), card.fs) && NothingLostSince(old(card.fs), card.log, |old(card.log)|)
    ensures [PRIVATE] in old(card.fs) ==> PrivateSame(old(card.fs), card.fs)
    ensures card.faults >= old(card.faults)
  {
    hide Metadata.DecodeArgument;
    hide DecodeName;
    hide NothingLost;
    hide CanMake;
    hide Components;
    hide JoinPath;
    EditLosesNothing(card.fs, card.fs);
    DirectoryNames(parentArgument);
    var parent := Metadata.DecodeArgument(parentArgument, true);
    if parent.Err? {
      return Err(parent.error);
    }
    var name := DecodeName(nameArgument);
    if name.Err? {
      return Err(name.error);
    }
    NewNameFits(nameArgument);
    r := MakeNamed(card, parent.value, name.value);
    EditLosesNothing(old(card.fs), card.fs);
  }

  lemma NewNameFits(argument: CString)
    ensures DecodeName(argument).Ok? ==> 0 < |DecodeName(argument).value| <= NAME_MAX
  {
    hide Base64.Decoded;
  }

  /** What rename and move do to the tree, whatever they report. */
  ghost predicate MovedTo(was: Fs, now: Fs, src: Path, dst: Path) {
    && src in was && src != dst && !(src <= dst) && now == Renamed(was, src, dst)
  }

  /** What command_rename needs, on a sound device, once it decoded its arguments. */
  predicate CanRename(fs: Fs, path: seq<byte>, name: Name) {
    && RenameError(fs, Split(path, SLASH), Up(Split(path, SLASH)) + [name], true) == None
    && JoinPath(PATH_MAX, Parent(path), name).Ok?
  }

  /** What a rename or a move to a place of the user does to the contents and to the private directory. */
  lemma UserMoveEffects(was: Fs, now: Fs, src: Path, dst: Path)
    requires WellFormed(was) && MovedTo(was, now, src, dst) && dst !in was
    requires src != [] && src[0] != PRIVATE && dst != [] && (|dst| > 1 ==> dst[0] != PRIVATE)
    ensures NothingLost(was, now) <==> !Loses(was, src, dst)
    ensures [PRIVATE] in was || dst != [PRIVATE] ==> PrivateSame(was, now)
  {
    hide Renamed;
    hide NothingLost;
    hide PrivateSame;
    UserRenameLoss(was, src, dst);
    if dst != [PRIVATE] {
      assert dst[0] != PRIVATE;
      UserRenameKeepsPrivate(was, src, dst);
    }
  }

  method RenameItem(card: Card, path: CString, name: Name) returns (r: Result<seq<byte>>)
    requires card.Valid() && 0 < |name| <= NAME_MAX
    modifies card`fs, card`faults, card`log
    ensures card.Valid() && old(card.log) <= card.log
    ensures var src := Split(path, SLASH);
            var dst := Up(src) + [name];
            if card.log == old(card.log) then r.Err? && card.fs == old(card.fs)
            else
              && dst !in old(card.fs) && MovedTo(old(card.fs), card.fs, src, dst)
              && card.log == old(card.log) + [card.fs]
              && r == JoinPath(PATH_MAX, Parent(path), name)
    ensures card.faults >= old(card.faults)
    ensures card.faults == old(card.faults) ==> (r.Ok? <==> CanRename(old(card.fs), path, name))
  {
    hide Renamed;
    hide JoinPath;
    hide SplitFrom;
    hide WellFormed;
    var src := Split(path, SLASH);
    var dst := Up(src) + [name];
    assert Up(dst) == Up(src) && Last(dst) == name && src == Up(src) + [Last(src)];
    if src in card.fs {
      DirIsShort(card.fs, src);
      ParentIsDir(card.fs, src);
      DirIsShort(card.fs, Up(src));
    }
    if |Last(src)| > NAME_MAX {
      return Err(ENAMETOOLONG);
    }
    var error := card.Fault();
    if error.None? {
      error := OpenDirectory(card, Up(src));
    }
    if error.None? {
      error := card.RenameNoreplace(src, dst);
    }
    if error.Some? {
      return Err(error.value);
    }
    return JoinPath(PATH_MAX, Parent(path), name);
  }

  lemma ParentIsDir(fs: Fs, p: Path)
    requires WellFormed(fs) && p in fs && p != []
    ensures IsDir(fs, Up(p))
  {
  }

  /** command_rename; it can report a failure after the rename, when the new path is too long. */
  method Rename(card: Card, pathArgument: CString, nameArgument: CString) returns (r: Result<seq<byte>>)
    requires card.Valid()
    modifies card`fs, card`faults, card`log
    ensures card.Valid() && old(card.log) <= card.log
    ensures var path, name := Metadata.DecodeArgument(pathArgument, false), DecodeName(nameArgument);
            if path.Err? || name.Err? then
              r.Err? && card.fs == old(card.fs) && card.log == old(card.log)
            else
              var src := Split(path.value, SLASH);
              var dst := Up(src) + [name.value];
              && (card.log == old(card.log) ==> r.Err? && card.fs == old(card.fs))
              && (card.log != old(card.log) ==>
                    && dst !in old(card.fs) && MovedTo(old(card.fs), card.fs, src, dst)
                    && card.log == old(card.log) + [card.fs]
                    && r == JoinPath(PATH_MAX, Parent(path.value), name.value)
                    && (NothingLost(old(card.fs), card.fs) <==> !Loses(old(card.fs), src, dst)))
              && ([PRIVATE] in old(card.fs) || dst != [PRIVATE] ==> PrivateSame(old(card.fs), card.fs))
              && (card.faults == old(card.faults) ==> (r.Ok? <==> CanRename(old(card.fs), path.value, name.value)))
    ensures card.faults >= old(card.faults)
  {
    hide Metadata.DecodeArgument;
    hide DecodeName;
    hide NothingLost;
    hide Loses;
    hide CanRename;
    hide SplitFrom;
    hide JoinPath;
    hide MovedTo;
    hide WellFormed;
    var path := Metadata.DecodeArgument(pathArgument, false);
    if path.Err? {
      return Err(path.error);
    }
    var name := DecodeName(nameArgument);
    if name.Err? {
      return Err(name.error);
    }
    ArgumentNames(pathArgument);
    NewNameFits(nameArgument);
    r := RenameItem(card, path.value, name.value);
    if card.log != old(card.log) {
      ghost var src := Split(path.value, SLASH);
      UserMoveEffects(old(card.fs), card.fs, src, Up(src) + [name.value]);
    }
  }

  lemma ArgumentNames(argument: CString)
    ensures var path := Metadata.DecodeArgument(argument, false);
            path.Ok? ==>
              && path.value != [] && Verdict(path.value, false, true) == None
              && Split(path.value, SLASH)[0] != PRIVATE
  {
  }

  /** What command_move comes to, on a sound device, once it decoded its arguments; `None` is an error. */
  function MoveResult(fs: Fs, source: seq<byte>, destination: seq<byte>, policy: seq<byte>): Option<(seq<byte>, bool)> {
    var src, directory := Split(source, SLASH), Components(destination);
    if |Last(src)| > NAME_MAX || !IsDir(fs, Up(src)) || !IsDir(fs, directory) then None
    else
      match Decision(fs, src, directory, Last(src), policy)
      case None => None
      case Some(moved) =>
        match JoinPath(PATH_MAX, destination, moved.actual)
        case Ok(path) => Some((path, moved.skipped))
        case Err(_) => None
  }

  /** The name that a move gave, and what it reported. */
  ghost predicate MoveOutcome(was: Fs, now: Fs, src: Path, destination: seq<byte>, policy: seq<byte>, name: Name,
                              r: Result<(seq<byte>, bool)>)
    requires src != []
  {
    var dst := Components(destination) + [name];
    && MovedTo(was, now, src, dst) && RenameError(was, src, dst, false) == None
    && (if policy == KEEP then IsKeepName(Last(src), name) else name == Last(src))
    && (policy != REPLACE ==> dst !in was)
    && r == (match JoinPath(PATH_MAX, destination, name)
             case Ok(path) => Ok((path, false))
             case Err(e) => Err(e))
  }

  method MoveItem(card: Card, source: CString, destination: CString, policy: seq<byte>)
    returns (r: Result<(seq<byte>, bool)>)
    requires card.Valid() && policy in {FAIL, SKIP, REPLACE, KEEP}
    modifies card`fs, card`faults, card`log
    ensures card.Valid() && old(card.log) <= card.log
    ensures card.log == old(card.log) ==> card.fs == old(card.fs)
    ensures card.log != old(card.log) ==>
              && card.log == old(card.log) + [card.fs]
              && exists name :: MoveOutcome(old(card.fs), card.fs, Split(source, SLASH), destination, policy, name, r)
    ensures card.faults >= old(card.faults)
    ensures card.faults == old(card.faults) ==>
              (match MoveResult(old(card.fs), source, destination, policy)
               case Some(result) => r == Ok(result)
               case None => r.Err?)
  {
    hide Renamed;
    hide IsKeepName;
    hide Decision;
    hide RenameError;
    hide JoinPath;
    hide SplitFrom;
    hide Components;
    hide WellFormed;
    var src, directory := Split(source, SLASH), Components(destination);
    if |Last(src)| > NAME_MAX {
      return Err(ENAMETOOLONG);
    }
    if IsDir(card.fs, Up(src)) {
      DirIsShort(card.fs, Up(src));
    }
    if IsDir(card.fs, directory) {
      DirIsShort(card.fs, directory);
    }
    var error := card.Fault();
    if error.None? {
      error := OpenDirectory(card, Up(src));
    }
    if error.None? {
      error := OpenDirectory(card, directory);
    }
    if error.Some? {
      return Err(error.value);
    }
    var moved := MoveWithPolicy(card, src, directory, Last(src), policy);
    if moved.Err? {
      return Err(moved.error);
    }
    var joined := JoinPath(PATH_MAX, destination, moved.value.actual);
    r := match joined case Ok(path) => Ok((path, moved.value.skipped)) case Err(e) => Err(e);
    if card.log != old(card.log) {
      assert MoveOutcome(old(card.fs), card.fs, src, destination, policy, moved.value.actual, r);
    }
  }

  /** command_move; it too can report a failure after the move, when the new path is too long. */
  method Move(card: Card, sourceArgument: CString, destinationArgument: CString, policy: seq<byte>)
    returns (r: Result<(seq<byte>, bool)>)
    requires card.Valid()
    modifies card`fs, card`faults, card`log
    ensures card.Valid() && old(card.log) <= card.log
    ensures var source, destination := Metadata.DecodeArgument(sourceArgument, false),
                                       Metadata.DecodeArgument(destinationArgument, true);
            if policy !in {FAIL, SKIP, REPLACE, KEEP} || source.Err? || destination.Err? then
              r.Err? && card.fs == old(card.fs) && card.log == old(card.log)
            else
              var src, directory := Split(source.value, SLASH), Components(destination.value);
              && (card.log == old(card.log) ==> card.fs == old(card.fs))
              && (card.log != old(card.log) ==>
                    && card.log == old(card.log) + [card.fs]
                    && exists name ::
                         && MoveOutcome(old(card.fs), card.fs, src, destination.value, policy, name, r)
                         && (policy != REPLACE ==>
                               (NothingLost(old(card.fs), card.fs) <==> !Loses(old(card.fs), src, directory + [name]))))
              && (policy != REPLACE && !Loses(old(card.fs), src, directory + [Last(src)]) ==>
                    NothingLost(old(card.fs), card.fs))
              && (policy != REPLACE && ([PRIVATE] in old(card.fs) || directory + [Last(src)] != [PRIVATE]) ==>
                    PrivateSame(old(card.fs), card.fs))
              && (!Bare(old(card.fs), [PRIVATE]) ==> PrivateSame(old(card.fs), card.fs))
              && (card.faults == old(card.faults) ==>
                    (match MoveResult(old(card.fs), source.value, destination.value, policy)
                     case Some(result) => r == Ok(result)
                     case None => r.Err?))
    ensures card.faults >= old(card.faults)
  {
    hide Metadata.DecodeArgument;
    hide NothingLost;
    hide PrivateSame;
    hide Loses;
    hide MoveResult;
    hide MoveOutcome;
    hide SplitFrom;
    hide Components;
    hide Bare;
    hide WellFormed;
    UnmovedEffects(card.fs);
    if policy !in {FAIL, SKIP, REPLACE, KEEP} {
      return Err(EINVAL);
    }
    var source := Metadata.DecodeArgument(sourceArgument, false);
    if source.Err? {
      return Err(source.error);
    }
    var destination := Metadata.DecodeArgument(destinationArgument, true);
    if destination.Err? {
      return Err(destination.error);
    }
    ArgumentNames(sourceArgument);
    DirectoryNames(destinationArgument);
    r := MoveItem(card, source.value, destination.value, policy);
    if card.log != old(card.log) {
      ghost var src := Split(source.value, SLASH);
      ghost var name :| MoveOutcome(old(card.fs), card.fs, src, destination.value, policy, name, r);
      MoveEffects(old(card.fs), card.fs, src, destination.value, policy, name, r);
    }
  }

  lemma UnmovedEffects(fs: Fs)
    ensures NothingLost(fs, fs) && PrivateSame(fs, fs)
  {
    EditLosesNothing(fs, fs);
  }

  lemma MoveEffects(was: Fs, now: Fs, src: Path, destination: seq<byte>, policy: seq<byte>, name: Name,
                    r: Result<(seq<byte>, bool)>)
    requires WellFormed(was) && src != [] && src[0] != PRIVATE && policy in {FAIL, SKIP, REPLACE, KEEP}
    requires Components(destination) != [] ==> Components(destination)[0] != PRIVATE
    requires MoveOutcome(was, now, src, destination, policy, name, r)
    ensures var directory := Components(destination);
            && (policy != REPLACE ==> (NothingLost(was, now) <==> !Loses(was, src, directory + [name])))
            && (policy != REPLACE && !Loses(was, src, directory + [Last(src)]) ==> NothingLost(was, now))
            && (policy != REPLACE && ([PRIVATE] in was || directory + [Last(src)] != [PRIVATE]) ==> PrivateSame(was, now))
            && (!Bare(was, [PRIVATE]) ==> PrivateSame(was, now))
  {
    hide NothingLost;
    hide PrivateSame;
    hide Renamed;
    hide Components;
    hide IsKeepName;
    hide WellFormed;
    var directory := Components(destination);
    var dst := directory + [name];
    if dst == [PRIVATE] {
      assert directory == [] && name == PRIVATE;
      if policy == KEEP {
        if name != Last(src) {
          KeptIsNotPrivate(Last(src), name);
        }
      }
      assert directory + [Last(src)] == dst;
      if !IsDir(was, dst) {
        OnlyDirsHaveEntries(was, dst);
      }
    } else {
      assert dst[0] != PRIVATE;
      UserRenameKeepsPrivate(was, src, dst);
    }
    if policy != REPLACE {
      UserMoveEffects(was, now, src, dst);
    }
  }

  lemma DirectoryNames(argument: CString)
    ensures var path := Metadata.DecodeArgument(argument, true);
            path.Ok? && Components(path.value) != [] ==> Components(path.value)[0] != PRIVATE
  {
  }
}
