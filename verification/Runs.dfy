/** Whole runs of commands, with an interruption possible anywhere in each of them. */
module Runs {
  import opened Bytes
  import opened Paths
  import opened Text
  import opened Numbers
  import opened Tree
  import opened Syscalls
  import opened Directories
  import opened TrashCan
  import opened Policies
  import opened Deletion
  import opened Uploads
  import opened Mutators
  import Metadata

  datatype Command =
    | MkDirCommand(parent: CString, name: CString)
    | RenameCommand(path: CString, name: CString)
    | MoveCommand(path: CString, directory: CString, policy: seq<byte>)
    | DeleteCommand(path: CString, mode: seq<byte>)
    | TrashCommand(path: CString)
    | RestoreCommand(id: Name)
    | PurgeCommand(id: Name)
    | EmptyTrashCommand
    | PrepareCommand(path: CString, size: CString, policy: seq<byte>, available: nat, rootLength: nat)
    | StatusCommand(id: Name)
    | CommitCommand(id: Name)
    | CancelCommand(id: Name)

  /**
   The commands that are not meant to remove anything, in the state that they meet. A rename or a
   move conserves unless it would turn what looks like the private directory into it.
   */
  predicate Conserving(fs: Fs, c: Command) {
    match c
    case MkDirCommand(_, _) | TrashCommand(_) | RestoreCommand(_) | StatusCommand(_) | PrepareCommand(_, _, _, _, _) => true
    case RenameCommand(argument, newName) =>
      var path, name := Metadata.DecodeArgument(argument, false), DecodeName(newName);
      path.Ok? && name.Ok? ==>
        var src := Split(path.value, SLASH);
        !Loses(fs, src, Up(src) + [name.value])
    case MoveCommand(argument, target, policy) =>
      var source, destination := Metadata.DecodeArgument(argument, false), Metadata.DecodeArgument(target, true);
      && policy != REPLACE
      && (source.Ok? && destination.Ok? ==>
            var src := Split(source.value, SLASH);
            !Loses(fs, src, Components(destination.value) + [Last(src)]))
    case CommitCommand(id) => RecordedUpload(fs, id).Ok? ==> RecordedUpload(fs, id).value.policy in {FAIL, KEEP}
    case DeleteCommand(_, _) | PurgeCommand(_) | EmptyTrashCommand | CancelCommand(_) => false
  }

  /** The commands that do not concern one item in trash. */
  predicate Spares(c: Command, id: Name) {
    c != RestoreCommand(id) && c != PurgeCommand(id) && c != EmptyTrashCommand
  }

  // ---- What holds from one moment to another ----

  ghost predicate ItemSame(was: Fs, now: Fs, id: Name) {
    forall r | TrashDir(id) <= r :: Agree(was, now, r)
  }

  /** What a command is asked to respect: no loss if `conserving`, the item `id` if `sparing`. */
  datatype Claim = Claim(conserving: bool, sparing: bool, id: Name)

  ghost predicate Respects(was: Fs, now: Fs, claim: Claim) {
    && (claim.conserving ==> NothingLost(was, now))
    && (claim.sparing && IsDir(was, TrashDir(claim.id)) ==> ItemSame(was, now, claim.id))
  }

  ghost predicate RespectsSince(was: Fs, log: seq<Fs>, n: nat, claim: Claim) {
    forall k | n <= k < |log| :: Respects(was, log[k], claim)
  }

  lemma RespectsItself(was: Fs, claim: Claim)
    ensures Respects(was, was, claim)
  {
    EditLosesNothing(was, was);
  }

  lemma NothingLostTransitive(a: Fs, b: Fs, c: Fs)
    requires NothingLost(a, b) && NothingLost(b, c)
    ensures NothingLost(a, c)
  {
    forall content
      ensures Copies(a, content) <= Copies(c, content)
    {
      assert Copies(a, content) <= Copies(b, content) <= Copies(c, content);
    }
  }

  lemma RespectsTransitive(a: Fs, b: Fs, c: Fs, claim: Claim)
    requires Respects(a, b, claim) && Respects(b, c, claim)
    ensures Respects(a, c, claim)
  {
    hide NothingLost;
    if claim.conserving {
      NothingLostTransitive(a, b, c);
    }
    if claim.sparing && IsDir(a, TrashDir(claim.id)) {
      assert TrashDir(claim.id) <= TrashDir(claim.id);
      assert Agree(a, b, TrashDir(claim.id));
      forall r | TrashDir(claim.id) <= r
        ensures Agree(a, c, r)
      {
        assert Agree(a, b, r) && Agree(b, c, r);
      }
    }
  }

  /** Enough for the item: below it nothing changes. */
  lemma OneStep(was: Fs, now: Fs, log: seq<Fs>, before: seq<Fs>, claim: Claim)
    requires Respects(was, now, claim) && (log == before || log == before + [now])
    ensures RespectsSince(was, log, |before|, claim)
  {
  }

  lemma TrashHangsOnPrivate(fs: Fs, id: Name)
    requires WellFormed(fs) && IsDir(fs, TrashDir(id))
    ensures IsDir(fs, [PRIVATE]) && !Bare(fs, [PRIVATE])
  {
    AncestorsAreDirs(fs, [PRIVATE], TrashDir(id));
  }

  // ---- Command by command: the user's tree ----

  lemma UserCommandRespects(was: Fs, now: Fs, claim: Claim)
    requires WellFormed(was)
    requires claim.conserving ==> NothingLost(was, now)
    requires claim.sparing && !Bare(was, [PRIVATE]) && [PRIVATE] in was ==> PrivateSame(was, now)
    ensures Respects(was, now, claim)
  {
    hide NothingLost;
    if claim.sparing && IsDir(was, TrashDir(claim.id)) {
      TrashHangsOnPrivate(was, claim.id);
    }
  }

  method PerformMkDir(card: Card, c: Command, ghost claim: Claim)
    requires card.Valid() && c.MkDirCommand?
    modifies card`fs, card`faults, card`log
    ensures card.Valid() && old(card.log) <= card.log
    ensures Respects(old(card.fs), card.fs, claim) && RespectsSince(old(card.fs), card.log, |old(card.log)|, claim)
  {
    hide Metadata.DecodeArgument;
    hide DecodeName;
    hide Components;
    hide NothingLost;
    hide JoinPath;
    hide PrivateSame;
    hide Respects;
    var r := MakeDirectory(card, c.parent, c.name);
    UserCommandRespects(old(card.fs), card.fs, claim);
    OneStep(old(card.fs), card.fs, card.log, old(card.log), claim);
  }

  method PerformRename(card: Card, c: Command, ghost claim: Claim)
    requires card.Valid() && c.RenameCommand? && (claim.conserving ==> Conserving(card.fs, c))
    modifies card`fs, card`faults, card`log
    ensures card.Valid() && old(card.log) <= card.log
    ensures Respects(old(card.fs), card.fs, claim) && RespectsSince(old(card.fs), card.log, |old(card.log)|, claim)
  {
    hide Metadata.DecodeArgument;
    hide DecodeName;
    hide NothingLost;
    hide JoinPath;
    hide PrivateSame;
    hide Respects;
    RespectsItself(card.fs, claim);
    ghost var path, name := Metadata.DecodeArgument(c.path, false), DecodeName(c.name);
    var r := Rename(card, c.path, c.name);
    if path.Ok? && name.Ok? {
      UserCommandRespects(old(card.fs), card.fs, claim);
    }
    OneStep(old(card.fs), card.fs, card.log, old(card.log), claim);
  }

  method PerformMove(card: Card, c: Command, ghost claim: Claim)
    requires card.Valid() && c.MoveCommand? && (claim.conserving ==> Conserving(card.fs, c))
    modifies card`fs, card`faults, card`log
    ensures card.Valid() && old(card.log) <= card.log
    ensures Respects(old(card.fs), card.fs, claim) && RespectsSince(old(card.fs), card.log, |old(card.log)|, claim)
  {
    hide Metadata.DecodeArgument;
    hide NothingLost;
    hide JoinPath;
    hide PrivateSame;
    hide Respects;
    hide Components;
    hide Bare;
    RespectsItself(card.fs, claim);
    ghost var source, destination := Metadata.DecodeArgument(c.path, false), Metadata.DecodeArgument(c.directory, true);
    var r := Move(card, c.path, c.directory, c.policy);
    if c.policy in {FAIL, SKIP, REPLACE, KEEP} && source.Ok? && destination.Ok? {
      UserCommandRespects(old(card.fs), card.fs, claim);
    }
    OneStep(old(card.fs), card.fs, card.log, old(card.log), claim);
  }

  lemma DeleteRespects(was: Fs, now: Fs, p: Path, claim: Claim)
    requires WellFormed(was) && Shrunk(was, now, p) && p != [] && p[0] != PRIVATE && !claim.conserving
    ensures Respects(was, now, claim)
  {
    UserCommandRespects(was, now, claim);
  }

  method PerformDelete(card: Card, c: Command, ghost claim: Claim)
    requires card.Valid() && c.DeleteCommand? && !claim.conserving
    modifies card`fs, card`faults, card`log
    ensures card.Valid() && old(card.log) <= card.log
    ensures Respects(old(card.fs), card.fs, claim) && RespectsSince(old(card.fs), card.log, |old(card.log)|, claim)
  {
    RespectsItself(card.fs, claim);
    ArgumentNames(c.path);
    hide Metadata.DecodeArgument;
    hide Respects;
    hide Shrunk;
    ghost var was := card.fs;
    ghost var decoded := Metadata.DecodeArgument(c.path, false);
    var r := Delete(card, c.path, c.mode);
    if c.mode in {EMPTY, RECURSIVE} && decoded.Ok? {
      ghost var p := Names(decoded.value);
      hide Names;
      DeleteRespects(was, card.fs, p, claim);
      forall k | |old(card.log)| <= k < |card.log|
        ensures Respects(was, card.log[k], claim)
      {
        DeleteRespects(was, card.log[k], p, claim);
      }
    }
  }

  // ---- Trash ----

  /** Work on one item in trash leaves the others alone. */
  lemma AroundSpares(was: Fs, now: Fs, p: Path, id: Name, names: Path, other: Name)
    requires Around(was, now, p, TrashDir(id), names) && p != [] && p[0] != PRIVATE && id != other
    requires names == TRASH_ROOT || names == Up(p)
    ensures ItemSame(was, now, other)
  {
    forall r | TrashDir(other) <= r
      ensures Agree(was, now, r)
    {
      assert r[0] == PRIVATE && r[2] == other;
      assert !(p <= r) && !(TrashDir(id) <= r);
      assert !(r <= names);
    }
  }

  lemma GrownRespects(was: Fs, now: Fs, names: Path, claim: Claim)
    requires Grown(was, now, names) && |names| <= 2
    ensures Respects(was, now, claim)
  {
    EditLosesNothing(was, now);
  }

  lemma TrashRespects(was: Fs, now: Fs, id: Name, path: CString, claim: Claim)
    requires WellFormed(was) && Verdict(path, false, false) == None
    requires if TrashDir(id) in was then Grown(was, now, TRASH_ROOT) else TrashMoment(was, now, id, path)
    ensures Respects(was, now, claim)
  {
    var p := Names(path);
    assert p != [] && p[0] != PRIVATE;
    hide Verdict;
    hide Names;
    hide NothingLost;
    if TrashDir(id) in was {
      GrownRespects(was, now, TRASH_ROOT, claim);
    } else {
      TrashLosesNothing(was, now, id, path);
      hide AtHome;
      hide InTrash;
      if claim.sparing && IsDir(was, TrashDir(claim.id)) {
        AroundSpares(was, now, p, id, TRASH_ROOT, claim.id);
      }
    }
  }

  method PerformTrash(card: Card, c: Command, ghost claim: Claim)
    requires card.Valid() && c.TrashCommand?
    modifies card`fs, card`faults, card`log
    ensures card.Valid() && old(card.log) <= card.log
    ensures Respects(old(card.fs), card.fs, claim) && RespectsSince(old(card.fs), card.log, |old(card.log)|, claim)
  {
    ghost var was := card.fs;
    RespectsItself(card.fs, claim);
    var path := Metadata.DecodeArgument(c.path, false);
    if path.Ok? {
      hide Respects;
      hide Verdict;
      hide TrashMoment;
      hide Grown;
      var id, error := TrashItem(card, path.value);
      TrashRespects(was, card.fs, id, path.value, claim);
      forall k | |old(card.log)| <= k < |card.log|
        ensures Respects(was, card.log[k], claim)
      {
        TrashRespects(was, card.log[k], id, path.value, claim);
      }
    }
  }

  lemma RestoreRespects(was: Fs, now: Fs, id: Name, path: CString, claim: Claim)
    requires WellFormed(was) && RecordedPath(was, id) == Ok(path)
    requires RestoreMoment(was, now, id, path) && (claim.sparing ==> id != claim.id)
    ensures Respects(was, now, claim)
  {
    RecordedPathIsUsable(was, id);
    var p := Names(path);
    assert p != [];
    assert Up(RecordPath(id)) == TrashDir(id);
    assert IsDir(was, TrashDir(id));
    hide Verdict;
    hide Names;
    hide NothingLost;
    hide RecordedPath;
    RestoreLosesNothing(was, now, id, path);
    hide Stored;
    hide Back;
    hide Beside;
    if claim.sparing && IsDir(was, TrashDir(claim.id)) {
      AroundSpares(was, now, p, id, Up(p), claim.id);
    }
  }

  method PerformRestore(card: Card, c: Command, ghost claim: Claim)
    requires card.Valid() && c.RestoreCommand? && (claim.sparing ==> c.id != claim.id)
    modifies card`fs, card`faults, card`log
    ensures card.Valid() && old(card.log) <= card.log
    ensures Respects(old(card.fs), card.fs, claim) && RespectsSince(old(card.fs), card.log, |old(card.log)|, claim)
  {
    ghost var was := card.fs;
    RespectsItself(card.fs, claim);
    hide Respects;
    hide RestoreMoment;
    hide RecordedPath;
    hide WellFormed;
    var error := RestoreItem(card, c.id);
    if RecordedPath(was, c.id).Ok? {
      ghost var path := RecordedPath(was, c.id).value;
      RestoreRespects(was, card.fs, c.id, path, claim);
      forall k | |old(card.log)| <= k < |card.log|
        ensures Respects(was, card.log[k], claim)
      {
        RestoreRespects(was, card.log[k], c.id, path, claim);
      }
    }
  }

  // ---- Removing from the private directory ----

  lemma RemovalRespects(was: Fs, now: Fs, p: Path, claim: Claim)
    requires Shrunk(was, now, p) && !claim.conserving
    requires claim.sparing ==> !(p <= TrashDir(claim.id)) && |p| == 3
    ensures Respects(was, now, claim)
  {
    if claim.sparing && IsDir(was, TrashDir(claim.id)) {
      forall r | TrashDir(claim.id) <= r
        ensures Agree(was, now, r)
      {
        if p <= r {
          PrefixesCompare(p, TrashDir(claim.id), r);
        }
      }
    }
  }

  method PerformRemoval(card: Card, area: Name, id: Name, ghost claim: Claim)
    requires card.Valid() && !claim.conserving && (claim.sparing ==> area != TRASH || id != claim.id)
    modifies card`fs, card`faults, card`log
    ensures card.Valid() && old(card.log) <= card.log
    ensures Respects(old(card.fs), card.fs, claim) && RespectsSince(old(card.fs), card.log, |old(card.log)|, claim)
  {
    ghost var was, p := card.fs, [PRIVATE, area, id];
    hide Respects;
    hide Shrunk;
    hide WellFormed;
    var error := RemovePrivateItem(card, area, id);
    assert p[1] == area && p[2] == id && TrashDir(claim.id)[1] == TRASH && TrashDir(claim.id)[2] == claim.id;
    RemovalRespects(was, card.fs, p, claim);
    forall k | |old(card.log)| <= k < |card.log|
      ensures Respects(was, card.log[k], claim)
    {
      RemovalRespects(was, card.log[k], p, claim);
    }
  }

  // ---- Uploads ----

  lemma PrepareRespects(was: Fs, now: Fs, id: Name, claim: Claim)
    requires WellFormed(was) && Untouched(was, now, id, [])
    requires StagingDir(id) in was ==> Grown(was, now, INCOMING_ROOT)
    ensures Respects(was, now, claim)
  {
    hide NothingLost;
    PrepareLosesNothing(was, now, id);
    hide Grown;
    assert SameOrWay(was, now, [], [PRIVATE]);
    forall r | TrashDir(claim.id) <= r
      ensures Agree(was, now, r)
    {
      assert r[1] == TRASH;
      assert SameOrWay(was, now, [], r);
    }
  }

  method PerformPrepare(card: Card, c: Command, ghost claim: Claim)
    requires card.Valid() && c.PrepareCommand?
    modifies card`fs, card`faults, card`log
    ensures card.Valid() && old(card.log) <= card.log
    ensures Respects(old(card.fs), card.fs, claim) && RespectsSince(old(card.fs), card.log, |old(card.log)|, claim)
  {
    hide Metadata.DecodeArgument;
    hide ParseSize;
    hide Respects;
    hide Untouched;
    hide Grown;
    hide WellFormed;
    ghost var was := card.fs;
    var id, error := Prepare(card, c.path, c.size, c.policy, c.available, c.rootLength);
    PrepareRespects(was, card.fs, id, claim);
    forall k | |old(card.log)| <= k < |card.log|
      ensures Respects(was, card.log[k], claim)
    {
      PrepareRespects(was, card.log[k], id, claim);
    }
  }

  /** Where a commit may write. */
  lemma CommitStaysOutside(was: Fs, now: Fs, id: Name, p: Path, policy: seq<byte>, payload: seq<byte>, r: Path)
    requires p != [] && p[0] != PRIVATE && CommitMoment(was, now, id, p, policy, payload)
    requires r != [] && r[0] == PRIVATE && !Own(id, r)
    requires |r| > 1 || (r in was && policy != REPLACE)
    ensures Agree(was, now, r) || (r !in was && r <= INCOMING_ROOT)
  {
    hide IsKeepName;
    if Waiting(was, now, id, Up(p), payload) || Skipped(was, now, id, p, policy) {
      assert SameOrWay(was, now, Up(p), r);
    } else {
      var name :| Arrived(was, now, id, p, policy, payload, name);
      var dst := Up(p) + [name];
      assert |p| > 1 ==> dst[0] == p[0];
      assert r != dst;
      assert SameOrWay(was, now, Up(p), r);
    }
  }

  lemma BelowTrash(id: Name, r: Path)
    requires TrashDir(id) <= r
    ensures |r| >= 2 && r[0] == PRIVATE && r[1] == TRASH
  {
    assert r[..|TrashDir(id)|] == TrashDir(id);
    assert TrashDir(id)[0] == PRIVATE && TrashDir(id)[1] == TRASH;
  }

  lemma CommitMomentRespects(was: Fs, now: Fs, id: Name, p: Path, policy: seq<byte>, payload: seq<byte>, claim: Claim)
    requires WellFormed(was) && WellFormed(now) && p != [] && p[0] != PRIVATE
    requires claim.conserving ==> policy in {FAIL, KEEP}
    requires PayloadPath(id) in was && was[PayloadPath(id)] == File(payload)
    requires CommitMoment(was, now, id, p, policy, payload)
    ensures Respects(was, now, claim)
  {
    hide NothingLost;
    hide CommitMoment;
    assert Up(PayloadPath(id)) == StagingDir(id);
    assert IsDir(was, StagingDir(id));
    if claim.conserving {
      CommitLosesNothing(was, now, id, p, policy, payload);
    }
    hide WellFormed;
    forall r | TrashDir(claim.id) <= r
      ensures Agree(was, now, r)
    {
      BelowTrash(claim.id, r);
      CommitStaysOutside(was, now, id, p, policy, payload, r);
    }
  }

  lemma CommitRespects(was: Fs, now: Fs, id: Name, claim: Claim)
    requires WellFormed(was) && WellFormed(now) && Complete(was, id)
    requires var upload := RecordedUpload(was, id).value;
             && (claim.conserving ==> upload.policy in {FAIL, KEEP})
             && Names(upload.destination) != []
             && CommitMoment(was, now, id, Names(upload.destination), upload.policy, was[PayloadPath(id)].content)
    ensures Respects(was, now, claim)
  {
    RecordedUploadIsUsable(was, id);
    hide RecordedUpload;
    hide Names;
    hide CommitMoment;
    hide Verdict;
    hide WellFormed;
    hide Respects;
    var upload := RecordedUpload(was, id).value;
    CommitMomentRespects(was, now, id, Names(upload.destination), upload.policy, was[PayloadPath(id)].content, claim);
  }

  /** The whole of it at every moment of a commit. */
  lemma CommitsRespect(was: Fs, now: Fs, log: seq<Fs>, n: nat, id: Name, claim: Claim)
    requires WellFormed(was) && WellFormed(now) && (forall k | n <= k < |log| :: WellFormed(log[k])) && Complete(was, id)
    requires var upload, payload := RecordedUpload(was, id).value, was[PayloadPath(id)].content;
             && (claim.conserving ==> upload.policy in {FAIL, KEEP})
             && Names(upload.destination) != []
             && CommitSince(was, log, n, id, Names(upload.destination), upload.policy, payload)
             && CommitMoment(was, now, id, Names(upload.destination), upload.policy, payload)
    ensures Respects(was, now, claim) && RespectsSince(was, log, n, claim)
  {
    hide WellFormed;
    hide Complete;
    hide RecordedUpload;
    hide Names;
    hide CommitMoment;
    hide Respects;
    CommitRespects(was, now, id, claim);
    forall k | n <= k < |log|
      ensures Respects(was, log[k], claim)
    {
      CommitRespects(was, log[k], id, claim);
    }
  }

  lemma ConservingCommit(fs: Fs, id: Name)
    requires Conserving(fs, CommitCommand(id)) && Complete(fs, id)
    ensures RecordedUpload(fs, id).value.policy in {FAIL, KEEP}
  {
    hide RecordedUpload;
  }

  lemma NothingLogged(was: Fs, log: seq<Fs>, claim: Claim)
    ensures RespectsSince(was, log, |log|, claim)
  {
  }

  method PerformCommit(card: Card, c: Command, ghost claim: Claim)
    requires card.Valid() && c.CommitCommand? && (claim.conserving ==> Conserving(card.fs, c))
    modifies card`fs, card`faults, card`log
    ensures card.Valid() && old(card.log) <= card.log
    ensures Respects(old(card.fs), card.fs, claim) && RespectsSince(old(card.fs), card.log, |old(card.log)|, claim)
  {
    ghost var was := card.fs;
    RespectsItself(card.fs, claim);
    NothingLogged(card.fs, card.log, claim);
    hide Conserving;
    hide Complete;
    hide Committable;
    hide Delivery;
    hide Respects;
    hide RespectsSince;
    hide RecordedUpload;
    hide CommitMoment;
    hide CommitSince;
    hide Outcome;
    hide Names;
    hide WellFormed;
    hide JoinPath;
    var r := Commit(card, c.id);
    if Complete(was, c.id) {
      if claim.conserving {
        ConservingCommit(was, c.id);
      }
      CommitsRespect(was, card.fs, card.log, |old(card.log)|, c.id, claim);
    }
  }

  // ---- Runs ----

  /** One command. */
  method Perform(card: Card, c: Command, ghost claim: Claim)
    requires card.Valid()
    requires claim.conserving ==> Conserving(card.fs, c)
    requires claim.sparing ==> Spares(c, claim.id)
    modifies card`fs, card`faults, card`log
    ensures card.Valid() && old(card.log) <= card.log
    ensures Respects(old(card.fs), card.fs, claim) && RespectsSince(old(card.fs), card.log, |old(card.log)|, claim)
  {
    hide Respects;
    RespectsItself(card.fs, claim);
    match c {
      case MkDirCommand(_, _) => PerformMkDir(card, c, claim);
      case RenameCommand(_, _) => PerformRename(card, c, claim);
      case MoveCommand(_, _, _) => PerformMove(card, c, claim);
      case DeleteCommand(_, _) => PerformDelete(card, c, claim);
      case TrashCommand(_) => PerformTrash(card, c, claim);
      case RestoreCommand(_) => PerformRestore(card, c, claim);
      case PurgeCommand(id) => PerformRemoval(card, TRASH, id, claim);
      case CancelCommand(id) => PerformRemoval(card, INCOMING, id, claim);
      case PrepareCommand(_, _, _, _, _) => PerformPrepare(card, c, claim);
      case CommitCommand(_) => PerformCommit(card, c, claim);
      case StatusCommand(id) => var status := UploadStatus(card, id);
      case EmptyTrashCommand =>
        ghost var was := card.fs;
        var error, deleted := EmptyTrash(card);
        EmptyTrashRespects(was, card.log, |old(card.log)|, card.fs, claim);
    }
  }

  lemma EmptyTrashRespects(was: Fs, log: seq<Fs>, n: nat, now: Fs, claim: Claim)
    requires !claim.conserving && !claim.sparing
    ensures Respects(was, now, claim) && RespectsSince(was, log, n, claim)
  {
  }

  lemma RespectsLater(a: Fs, b: Fs, log: seq<Fs>, n: nat, claim: Claim)
    requires Respects(a, b, claim) && RespectsSince(b, log, n, claim)
    ensures RespectsSince(a, log, n, claim)
  {
    hide Respects;
    forall k | n <= k < |log|
      ensures Respects(a, log[k], claim)
    {
      RespectsTransitive(a, b, log[k], claim);
    }
  }

  /**
   Any run of commands, each of which may be cut short after any of its system calls. A run that
   keeps to the conserving commands never loses a content; a run that spares an item in trash
   leaves it, and the record that names its place, as they were.
   */
  method Run(card: Card, commands: seq<Command>, conserving: bool, ghost id: Name)
    requires card.Valid()
    modifies card`fs, card`faults, card`log
    ensures card.Valid() && old(card.log) <= card.log
    ensures conserving ==>
              && NothingLost(old(card.fs), card.fs)
              && forall k | |old(card.log)| <= k < |card.log| :: NothingLost(old(card.fs), card.log[k])
    ensures (forall i | 0 <= i < |commands| :: Spares(commands[i], id)) && IsDir(old(card.fs), TrashDir(id)) ==>
              && ItemSame(old(card.fs), card.fs, id)
              && forall k | |old(card.log)| <= k < |card.log| :: ItemSame(old(card.fs), card.log[k], id)
  {
    ghost var was, n := card.fs, |card.log|;
    ghost var claim := Claim(conserving, forall i | 0 <= i < |commands| :: Spares(commands[i], id), id);
    RespectsItself(was, claim);
    for next := 0 to |commands|
      invariant card.Valid() && old(card.log) <= card.log
      invariant Respects(was, card.fs, claim) && RespectsSince(was, card.log, n, claim)
    {
      hide Respects;
      var c := commands[next];
      if !conserving || Conserving(card.fs, c) {
        ghost var log := card.log;
        var before, m := card.fs, |card.log|;
        Perform(card, c, claim);
        RespectsLater(was, before, card.log, m, claim);
        RespectsTransitive(was, before, card.fs, claim);
        RespectsGrow(was, log, card.log, n, claim);
        if * {
          var calls: nat :| m + calls <= |card.log|;
          card.Crash(m, before, calls);
        }
      }
    }
  }

  lemma RespectsGrow(was: Fs, log: seq<Fs>, more: seq<Fs>, n: nat, claim: Claim)
    requires n <= |log| && log <= more && RespectsSince(was, log, n, claim) && RespectsSince(was, more, |log|, claim)
    ensures RespectsSince(was, more, n, claim)
  {
    hide Respects;
  }
}
