/** upload-prepare, upload-status and upload-commit: a destination is never half written. */
module Uploads {
  import opened Bytes
  import opened Paths
  import opened Numbers
  import opened Tree
  import opened Syscalls
  import opened Directories
  import opened TrashCan
  import opened Policies
  import Metadata

  const INCOMING_ROOT: Path := [PRIVATE, INCOMING]
  const SPACE_RESERVE := 0x10_0000

  function StagingDir(id: Name): Path { [PRIVATE, INCOMING, id] }
  function StagingRecord(id: Name): Path { [PRIVATE, INCOMING, id, METADATA] }
  function PayloadPath(id: Name): Path { [PRIVATE, INCOMING, id, PAYLOAD] }

  // ---- What may happen to the tree ----

  /** As it was, or a new directory on the way to one of the two places. */
  predicate SameOrWay(was: Fs, now: Fs, up: Path, r: Path) {
    Agree(was, now, r) || (r !in was && r in now && now[r] == Dir && (r <= up || r <= INCOMING_ROOT))
  }

  /** The three entries of a staged upload. */
  predicate Own(id: Name, r: Path) {
    r == StagingDir(id) || r == StagingRecord(id) || r == PayloadPath(id)
  }

  /** Apart from the three entries of the upload itself, nothing but ways appeared. */
  ghost predicate Untouched(was: Fs, now: Fs, id: Name, up: Path) {
    forall r | !Own(id, r) :: SameOrWay(was, now, up, r)
  }

  /** Likewise, except that dst is now exactly the payload. */
  ghost predicate Holds(was: Fs, now: Fs, id: Name, up: Path, dst: Path, payload: seq<byte>) {
    && dst in now && now[dst] == File(payload) && !(StagingDir(id) <= dst)
    && forall r | !Own(id, r) && r != dst :: SameOrWay(was, now, up, r)
  }

  /** The staging directory holds the record and the payload, as files, and nothing else. */
  ghost predicate Staging(fs: Fs, id: Name) {
    && forall r | r in fs && StagingDir(id) <= r && r != StagingDir(id) ::
         (r == StagingRecord(id) || r == PayloadPath(id)) && fs[r].File?
  }

  lemma StillUntouched(was: Fs, a: Fs, b: Fs, id: Name, up: Path)
    requires Untouched(was, a, id, up) && forall r | !Own(id, r) :: Agree(a, b, r)
    ensures Untouched(was, b, id, up)
  {
    forall r | !Own(id, r)
      ensures SameOrWay(was, b, up, r)
    {
      assert SameOrWay(was, a, up, r) && Agree(a, b, r);
    }
  }

  lemma GrownIsUntouched(was: Fs, now: Fs, id: Name, up: Path, names: Path)
    requires Grown(was, now, names) && (names == up || names == INCOMING_ROOT)
    ensures Untouched(was, now, id, up)
  {
  }

  ghost predicate UntouchedSince(was: Fs, log: seq<Fs>, n: nat, id: Name, up: Path) {
    forall k | n <= k < |log| :: Untouched(was, log[k], id, up)
  }

  // ---- upload-prepare ----

  /** One entry of the staging directory, or that directory itself, has changed. */
  lemma EditStaging(was: Fs, a: Fs, b: Fs, id: Name, p: Path)
    requires Untouched(was, a, id, []) && Staging(a, id) && OnlyAt(a, b, p)
    requires Own(id, p)
    requires p in b ==> if p == StagingDir(id) then true else b[p].File?
    ensures Untouched(was, b, id, []) && Staging(b, id)
  {
    assert StagingDir(id) <= p;
    StillUntouched(was, a, b, id, []);
    forall r | r in b && StagingDir(id) <= r && r != StagingDir(id)
      ensures (r == StagingRecord(id) || r == PayloadPath(id)) && b[r].File?
    {
      assert r != p ==> Agree(a, b, r);
    }
  }

  lemma EditsUntouched(was: Fs, a: Fs, log: seq<Fs>, n: nat, id: Name, p: Path)
    requires Untouched(was, a, id, []) && OnlyAtSince(a, log, n, p) && Own(id, p)
    ensures UntouchedSince(was, log, n, id, [])
  {
    forall k | n <= k < |log|
      ensures Untouched(was, log[k], id, [])
    {
      assert OnlyAt(a, log[k], p);
      StillUntouched(was, a, log[k], id, []);
    }
  }

  lemma JoinSince(was: Fs, log: seq<Fs>, n: nat, m: nat, more: seq<Fs>, id: Name, up: Path)
    requires n <= m <= |log| <= |more| && log <= more && m == |log|
    requires UntouchedSince(was, log, n, id, up) && UntouchedSince(was, more, m, id, up)
    ensures UntouchedSince(was, more, n, id, up)
  {
  }

  lemma OnlyAtOne(a: Fs, b: Fs, log: seq<Fs>, p: Path)
    requires b == a || b == a - {p} || (p in b && b == a[p := b[p]])
    ensures OnlyAt(a, b, p) && OnlyAtSince(a, log + [b], |log|, p) && OnlyAtSince(a, log, |log|, p)
  {
  }

  /** The part of command_upload_prepare up to its mkdirat. */
  method MakeStaging(card: Card, id: Name) returns (error: Option<Errno>)
    requires card.Valid() && ValidId(id)
    modifies card`fs, card`faults, card`log
    ensures card.Valid() && old(card.log) <= card.log
    ensures UntouchedSince(old(card.fs), card.log, |old(card.log)|, id, []) && Untouched(old(card.fs), card.fs, id, [])
    ensures error == None ==>
              && StagingDir(id) !in old(card.fs) && IsDir(card.fs, StagingDir(id)) && Staging(card.fs, id)
              && StagingRecord(id) !in card.fs && PayloadPath(id) !in card.fs
    ensures error != None && StagingDir(id) !in old(card.fs) ==> StagingDir(id) !in card.fs
    ensures error != None ==>
              Grown(old(card.fs), card.fs, INCOMING_ROOT) && GrownSince(old(card.fs), card.log, |old(card.log)|, INCOMING_ROOT)
    ensures card.faults >= old(card.faults)
    ensures card.faults == old(card.faults) && StagingDir(id) !in old(card.fs) &&
            Passable(old(card.fs), INCOMING_ROOT) ==>
              error == None
  {
    hide Untouched;
    hide WellFormed;
    hide Staging;
    hide OnlyAt;
    hide OnlyAtSince;
    ghost var was, n := card.fs, |card.log|;
    error := EnsureDirectory(card, INCOMING_ROOT);
    GrownAreUntouched(was, card.log, n, card.fs, id);
    if error.Some? {
      return;
    }
    assert Up(StagingDir(id)) == INCOMING_ROOT;
    hide Grown;
    ghost var before, log := card.fs, card.log;
    error := card.Mkdirat(StagingDir(id));
    if error.None? {
      OnlyAtOne(before, card.fs, log, StagingDir(id));
      assert StagingDir(id) <= StagingDir(id);
      EditsUntouched(was, before, card.log, |log|, id, StagingDir(id));
      NewStaging(was, before, card.fs, id);
    }
  }

  lemma GrownAreUntouched(was: Fs, log: seq<Fs>, n: nat, now: Fs, id: Name)
    requires Since(log, n, f => Grown(was, f, INCOMING_ROOT)) && Grown(was, now, INCOMING_ROOT)
    ensures UntouchedSince(was, log, n, id, []) && Untouched(was, now, id, [])
    ensures StagingDir(id) in now ==> StagingDir(id) in was
  {
    forall k | n <= k < |log|
      ensures Untouched(was, log[k], id, [])
    {
      GrownIsUntouched(was, log[k], id, [], INCOMING_ROOT);
    }
    GrownIsUntouched(was, now, id, [], INCOMING_ROOT);
  }

  lemma NewStaging(was: Fs, before: Fs, now: Fs, id: Name)
    requires WellFormed(before) && StagingDir(id) !in before && now == before[StagingDir(id) := Dir]
    requires Untouched(was, before, id, [])
    ensures Untouched(was, now, id, []) && Staging(now, id) && IsDir(now, StagingDir(id))
    ensures StagingRecord(id) !in now && PayloadPath(id) !in now
  {
    OnlyDirsHaveEntries(before, StagingDir(id));
    EditStaging(was, before, now, id, StagingDir(id));
    assert StagingDir(id) <= StagingRecord(id) && StagingDir(id) <= PayloadPath(id);
  }

  /** The part of it that a failure rolls back. */
  method FillStaging(card: Card, id: Name, record: seq<byte>, rootLength: nat, ghost was: Fs)
    returns (error: Option<Errno>)
    requires card.Valid() && ValidId(id) && IsDir(card.fs, StagingDir(id))
    requires Untouched(was, card.fs, id, []) && Staging(card.fs, id)
    requires StagingRecord(id) !in card.fs && PayloadPath(id) !in card.fs
    modifies card`fs, card`faults, card`log
    ensures card.Valid() && old(card.log) <= card.log
    ensures UntouchedSince(was, card.log, |old(card.log)|, id, []) && Untouched(was, card.fs, id, [])
    ensures Staging(card.fs, id) && IsDir(card.fs, StagingDir(id))
    ensures error == None ==>
              && StagingRecord(id) in card.fs && card.fs[StagingRecord(id)] == File(record)
              && PayloadPath(id) in card.fs && card.fs[PayloadPath(id)] == File([])
    ensures card.faults >= old(card.faults)
    ensures card.faults == old(card.faults) ==> (error == None <==> rootLength + |id| + 35 < PATH_MAX)
  {
    hide Untouched;
    hide WellFormed;
    hide Staging;
    ghost var before, log, n := card.fs, card.log, |card.log|;
    error := card.OpenDirectoryAt(StagingDir(id));
    if error.Some? {
      return;
    }
    assert Up(StagingRecord(id)) == StagingDir(id) && Up(PayloadPath(id)) == StagingDir(id);
    error := WriteText(card, StagingRecord(id), record);
    EditsUntouched(was, before, card.log, n, id, StagingRecord(id));
    EditStaging(was, before, card.fs, id, StagingRecord(id));
    assert Agree(before, card.fs, StagingDir(id)) && Agree(before, card.fs, PayloadPath(id));
    if error.Some? {
      return;
    }
    before, log := card.fs, card.log;
    error := card.CreateFile(PayloadPath(id));
    if error.Some? {
      return;
    }
    hide OnlyAt;
    hide OnlyAtSince;
    OnlyAtOne(before, card.fs, log, PayloadPath(id));
    EditsUntouched(was, before, card.log, |log|, id, PayloadPath(id));
    EditStaging(was, before, card.fs, id, PayloadPath(id));
    JoinSince(was, log, n, |log|, card.log, id, []);
    // ".r1-manager/incoming/<id>/payload.part" below the root of the card
    var relative := |PRIVATE| + 1 + |INCOMING| + 1 + |id| + 1 + |PAYLOAD|;
    if relative >= PATH_MAX || rootLength + 1 + relative >= PATH_MAX {
      error := Some(ENAMETOOLONG);
    }
  }

  lemma StagingIsBare(fs: Fs, id: Name)
    requires Staging(fs, id) && StagingRecord(id) !in fs && PayloadPath(id) !in fs
    ensures Bare(fs, StagingDir(id))
  {
  }

  /** The rollback of command_upload_prepare */
  method Unprepare(card: Card, id: Name, ghost was: Fs)
    requires card.Valid() && Untouched(was, card.fs, id, []) && Staging(card.fs, id) && IsDir(card.fs, StagingDir(id))
    modifies card`fs, card`faults, card`log
    ensures card.Valid() && old(card.log) <= card.log
    ensures UntouchedSince(was, card.log, |old(card.log)|, id, []) && Untouched(was, card.fs, id, [])
    ensures card.faults >= old(card.faults)
    ensures card.faults == old(card.faults) ==> StagingDir(id) !in card.fs
  {
    hide Untouched;
    hide WellFormed;
    hide Staging;
    hide OnlyAt;
    hide OnlyAtSince;
    hide Bare;
    ghost var before, log, n := card.fs, card.log, |card.log|;
    FilesOfStaging(before, id);
    var unlinked := card.Unlinkat(PayloadPath(id));
    OnlyAtOne(before, card.fs, log, PayloadPath(id));
    EditsUntouched(was, before, card.log, n, id, PayloadPath(id));
    EditStaging(was, before, card.fs, id, PayloadPath(id));
    before, log := card.fs, card.log;
    FilesOfStaging(before, id);
    unlinked := card.Unlinkat(StagingRecord(id));
    OnlyAtOne(before, card.fs, log, StagingRecord(id));
    EditsUntouched(was, before, card.log, |log|, id, StagingRecord(id));
    EditStaging(was, before, card.fs, id, StagingRecord(id));
    JoinSince(was, log, n, |log|, card.log, id, []);
    before, log := card.fs, card.log;
    if StagingRecord(id) !in before && PayloadPath(id) !in before {
      StagingIsBare(before, id);
    }
    var removed := card.Rmdir(StagingDir(id));
    OnlyAtOne(before, card.fs, log, StagingDir(id));
    EditsUntouched(was, before, card.log, |log|, id, StagingDir(id));
    EditStaging(was, before, card.fs, id, StagingDir(id));
    JoinSince(was, log, n, |log|, card.log, id, []);
  }

  lemma FilesOfStaging(fs: Fs, id: Name)
    requires Staging(fs, id)
    ensures PayloadPath(id) in fs ==> fs[PayloadPath(id)].File?
    ensures StagingRecord(id) in fs ==> fs[StagingRecord(id)].File?
  {
    assert StagingDir(id) <= PayloadPath(id) && StagingDir(id) <= StagingRecord(id);
  }

  /** A staged upload that is ready to take its bytes. */
  ghost predicate Ready(fs: Fs, id: Name, record: seq<byte>, received: seq<byte>) {
    && ValidId(id) && IsDir(fs, StagingDir(id)) && Staging(fs, id)
    && StagingRecord(id) in fs && fs[StagingRecord(id)] == File(record)
    && PayloadPath(id) in fs && fs[PayloadPath(id)] == File(received)
  }

  /** How many bytes may still be put on the card, as the command computes it. */
  predicate Fits(size: nat, available: nat) {
    size + SPACE_RESERVE <= available
  }

  /**
   command_upload_prepare. What statvfs reports and the length of the card's root path are
   parameters; the identifier is returned even when the command fails.
   */
  method Prepare(card: Card, destinationArgument: CString, sizeArgument: CString, policy: seq<byte>,
                 available: nat, rootLength: nat)
    returns (id: Name, error: Option<Errno>)
    requires card.Valid()
    modifies card`fs, card`faults, card`log
    ensures card.Valid() && old(card.log) <= card.log && ValidId(id)
    ensures UntouchedSince(old(card.fs), card.log, |old(card.log)|, id, []) && Untouched(old(card.fs), card.fs, id, [])
    ensures StagingDir(id) in old(card.fs) ==>
              && error != None
              && Grown(old(card.fs), card.fs, INCOMING_ROOT)
              && GrownSince(old(card.fs), card.log, |old(card.log)|, INCOMING_ROOT)
    ensures var destination, size := Metadata.DecodeArgument(destinationArgument, false), ParseSize(sizeArgument);
            if policy !in {FAIL, SKIP, REPLACE, KEEP} || destination.Err? || size.Err? || !Fits(size.value, available) then
              error != None && card.fs == old(card.fs) && card.log == old(card.log)
            else
              && (error == None ==>
                    && StagingDir(id) !in old(card.fs)
                    && Ready(card.fs, id, Metadata.Record(destination.value, size.value, policy), []))
              && (card.faults == old(card.faults) && StagingDir(id) !in old(card.fs) &&
                  Passable(old(card.fs), INCOMING_ROOT) && rootLength + |id| + 35 < PATH_MAX ==>
                    error == None)
              && (error != None && StagingDir(id) !in old(card.fs) &&
                  card.faults <= old(card.faults) + (if rootLength + |id| + 35 < PATH_MAX then 1 else 0) ==>
                    StagingDir(id) !in card.fs)
    ensures card.faults >= old(card.faults)
  {
    hide Metadata.DecodeArgument;
    hide Metadata.Record;
    hide ParseSize;
    hide Untouched;
    hide Staging;
    hide WellFormed;
    ghost var was := card.fs;
    hide Grown;
    GrownAtFirst(was, card.log);
    assert ValidId([97, 97, 97, 97, 97, 97, 97, 97]);
    id :| ValidId(id);
    UntouchedAtFirst(was, id);
    if policy !in {FAIL, SKIP, REPLACE, KEEP} {
      return id, Some(EINVAL);
    }
    var destination, size := Metadata.DecodeArgument(destinationArgument, false), ParseSize(sizeArgument);
    if destination.Err? || size.Err? {
      return id, Some(EINVAL);
    }
    error := card.Fault();
    if error.Some? {
      return;
    }
    if size.value > available || available - size.value < SPACE_RESERVE {
      return id, Some(ENOSPC);
    }
    error := MakeStaging(card, id);
    if error.Some? {
      return;
    }
    ghost var n, log := |old(card.log)|, card.log;
    error := FillStaging(card, id, Metadata.Record(destination.value, size.value, policy), rootLength, was);
    JoinSince(was, log, n, |log|, card.log, id, []);
    if error.Some? {
      log := card.log;
      Unprepare(card, id, was);
      JoinSince(was, log, n, |log|, card.log, id, []);
    }
  }

  lemma GrownAtFirst(was: Fs, log: seq<Fs>)
    ensures Grown(was, was, INCOMING_ROOT) && GrownSince(was, log, |log|, INCOMING_ROOT)
  {
  }

  lemma UntouchedAtFirst(was: Fs, id: Name)
    ensures forall up :: Untouched(was, was, id, up)
  {
  }

  // ---- upload-status and upload-commit ----

  /** What the record of a staged upload says. */
  function RecordedUpload(fs: Fs, id: Name): Result<Metadata.Upload> {
    if StagingRecord(id) in fs && fs[StagingRecord(id)].File? then
      Metadata.UploadMetadata(fs[StagingRecord(id)].content)
    else Err(ENOENT)
  }

  lemma RecordedUploadIsUsable(fs: Fs, id: Name)
    requires RecordedUpload(fs, id).Ok?
    ensures StagingRecord(id) in fs && Verdict(RecordedUpload(fs, id).value.destination, false, false) == None
    ensures var p := Names(RecordedUpload(fs, id).value.destination); p != [] && p[0] != PRIVATE
  {
  }

  /** open_private_item and upload_metadata */
  method LoadUpload(card: Card, id: Name) returns (upload: Result<Metadata.Upload>)
    requires card.Valid()
    modifies card`faults
    ensures upload.Ok? ==> ValidId(id) && IsDir(card.fs, StagingDir(id)) && RecordedUpload(card.fs, id) == upload
    ensures card.faults >= old(card.faults)
    ensures card.faults == old(card.faults) && ValidId(id) && IsDir(card.fs, StagingDir(id)) ==>
              (upload.Ok? <==> RecordedUpload(card.fs, id).Ok?)
  {
    hide Metadata.UploadMetadata;
    if !ValidId(id) {
      return Err(EINVAL);
    }
    if IsDir(card.fs, StagingDir(id)) {
      AncestorIsDir(card.fs, INCOMING_ROOT, StagingDir(id));
    }
    var error := OpenDirectory(card, INCOMING_ROOT);
    if error.Some? {
      return Err(error.value);
    }
    error := card.OpenDirectoryAt(StagingDir(id));
    if error.Some? {
      return Err(error.value);
    }
    var content := card.ReadFile(StagingRecord(id));
    if content.Err? {
      return Err(content.error);
    }
    return Metadata.UploadMetadata(content.value);
  }

  datatype Status = Status(upload: Metadata.Upload, received: nat)

  /** The size that fstatat reports; a payload is a regular file. */
  method ReceivedSize(card: Card, id: Name) returns (size: Result<nat>)
    modifies card`faults
    ensures size.Ok? ==> PayloadPath(id) in card.fs && card.fs[PayloadPath(id)].File? &&
                         size.value == |card.fs[PayloadPath(id)].content|
    ensures card.faults >= old(card.faults)
    ensures card.faults == old(card.faults) && PayloadPath(id) in card.fs && card.fs[PayloadPath(id)].File? ==> size.Ok?
  {
    var content := card.ReadFile(PayloadPath(id));
    return match content case Ok(bytes) => Ok(|bytes|) case Err(e) => Err(e);
  }

  /** command_upload_status */
  method UploadStatus(card: Card, id: Name) returns (status: Result<Status>)
    requires card.Valid()
    modifies card`faults
    ensures status.Ok? ==>
              && ValidId(id) && RecordedUpload(card.fs, id) == Ok(status.value.upload)
              && PayloadPath(id) in card.fs && card.fs[PayloadPath(id)].File?
              && status.value.received == |card.fs[PayloadPath(id)].content|
    ensures card.faults >= old(card.faults)
    ensures card.faults == old(card.faults) && ValidId(id) && IsDir(card.fs, StagingDir(id)) &&
            RecordedUpload(card.fs, id).Ok? && PayloadPath(id) in card.fs && card.fs[PayloadPath(id)].File? ==>
              status.Ok?
  {
    var error := card.Fault();
    if error.Some? {
      return Err(error.value);
    }
    var upload := LoadUpload(card, id);
    if upload.Err? {
      return Err(upload.error);
    }
    var size := ReceivedSize(card, id);
    return match size case Ok(received) => Ok(Status(upload.value, received)) case Err(e) => Err(e);
  }

  /** The payload waits in staging, and the destination is as it was. */
  ghost predicate Waiting(was: Fs, now: Fs, id: Name, up: Path, payload: seq<byte>) {
    Untouched(was, now, id, up) && PayloadPath(id) in now && now[PayloadPath(id)] == File(payload)
  }

  /** Policy "skip" found something at the destination, which is as it was. */
  ghost predicate Skipped(was: Fs, now: Fs, id: Name, p: Path, policy: seq<byte>)
    requires p != []
  {
    policy == SKIP && p in was && Untouched(was, now, id, Up(p))
  }

  /** All of the payload is at the place that the policy allows, and no longer in staging. */
  ghost predicate Arrived(was: Fs, now: Fs, id: Name, p: Path, policy: seq<byte>, payload: seq<byte>, name: Name)
    requires p != []
  {
    var dst := Up(p) + [name];
    && Holds(was, now, id, Up(p), dst, payload) && PayloadPath(id) !in now
    && (policy != REPLACE ==> dst !in was)
    && (policy == REPLACE ==> !IsDir(was, dst))
    && (if policy == KEEP then IsKeepName(Last(p), name) else name == Last(p))
  }

  /** One moment of a commit run. */
  ghost predicate CommitMoment(was: Fs, now: Fs, id: Name, p: Path, policy: seq<byte>, payload: seq<byte>)
    requires p != []
  {
    || Waiting(was, now, id, Up(p), payload)
    || Skipped(was, now, id, p, policy)
    || exists name :: Arrived(was, now, id, p, policy, payload, name)
  }

  ghost predicate CommitSince(was: Fs, log: seq<Fs>, n: nat, id: Name, p: Path, policy: seq<byte>, payload: seq<byte>)
    requires p != []
  {
    forall k | n <= k < |log| :: CommitMoment(was, log[k], id, p, policy, payload)
  }

  /** Renaming a file is taking it out here and putting it in there. */
  lemma RenamedFile(fs: Fs, src: Path, dst: Path)
    requires WellFormed(fs) && src in fs && fs[src].File? && !IsDir(fs, dst) && src != dst
    ensures Renamed(fs, src, dst) == (fs - {src})[dst := fs[src]]
  {
    OnlyDirsHaveEntries(fs, src);
    OnlyDirsHaveEntries(fs, dst);
    var a, b := Renamed(fs, src, dst), (fs - {src})[dst := fs[src]];
    assert !(dst <= src);
    hide WellFormed;
    forall r: Path
      ensures r in a <==> r in b
      ensures r in a ==> a[r] == b[r]
    {
      RenamedAt(fs, src, dst, r);
      if dst <= r {
        assert Origin(src, dst, r) == src + r[|dst|..];
        assert src <= Origin(src, dst, r) && (Origin(src, dst, r) == src <==> r == dst);
      }
    }
    hide Renamed;
    assert a.Keys == b.Keys;
  }

  lemma OutsideStaging(id: Name, p: Path, name: Name)
    requires p != [] && p[0] != PRIVATE
    ensures !(StagingDir(id) <= Up(p) + [name]) && !(PayloadPath(id) <= Up(p) + [name])
    ensures !(StagingDir(id) <= Up(p)) && Up(Up(p) + [name]) == Up(p)
  {
    assert |p| > 1 ==> (Up(p) + [name])[0] == p[0] && Up(p)[0] == p[0];
  }

  lemma FileTarget(fs: Fs, src: Path, dst: Path)
    requires dst != [] && src != dst && src in fs && fs[src].File? && RenameError(fs, src, dst, false) == None
    ensures !IsDir(fs, dst)
  {
  }

  /** The move out of staging. */
  lemma Delivered(was: Fs, grown: Fs, id: Name, p: Path, policy: seq<byte>, payload: seq<byte>, name: Name)
    requires WellFormed(grown) && p != [] && Waiting(was, grown, id, Up(p), payload)
    requires var dst := Up(p) + [name]; RenameError(grown, PayloadPath(id), dst, false) == None && PayloadPath(id) != dst
    requires policy != REPLACE ==> Up(p) + [name] !in grown
    requires p[0] != PRIVATE
    requires if policy == KEEP then IsKeepName(Last(p), name) else name == Last(p)
    ensures Arrived(was, Renamed(grown, PayloadPath(id), Up(p) + [name]), id, p, policy, payload, name)
  {
    hide IsKeepName;
    hide WellFormed;
    hide RenameError;
    hide Renamed;
    var dst := Up(p) + [name];
    OutsideStaging(id, p, name);
    FileTarget(grown, PayloadPath(id), dst);
    RenamedFile(grown, PayloadPath(id), dst);
    var now := Renamed(grown, PayloadPath(id), dst);
    assert StagingDir(id) <= PayloadPath(id);
    forall r | !Own(id, r) && r != dst
      ensures SameOrWay(was, now, Up(p), r)
    {
      assert SameOrWay(was, grown, Up(p), r);
    }
    assert SameOrWay(was, grown, Up(p), dst);
  }

  /** The names that may be used depend on the directory only. */
  lemma {:induction false} ChoiceSame(a: Fs, b: Fs, directory: Path, requested: Name, index: nat)
    requires 1 <= index <= LIMIT
    requires forall i: nat | i < LIMIT :: Free(a, directory, Candidate(requested, i)) <==> Free(b, directory, Candidate(requested, i))
    ensures Choice(a, directory, requested, index) == Choice(b, directory, requested, index)
    decreases LIMIT - index
  {
    if index < LIMIT {
      assert Free(a, directory, Candidate(requested, index)) <==> Free(b, directory, Candidate(requested, index));
      ChoiceSame(a, b, directory, requested, index + 1);
    }
  }

  /** What a delivery comes to when no call fails on its own and nothing is in the way. */
  function Delivery(fs: Fs, p: Path, policy: seq<byte>): Option<Moved>
    requires p != []
  {
    if policy == FAIL && p !in fs then Some(Moved(Last(p), false))
    else if policy == SKIP then Some(Moved(Last(p), p in fs))
    else if policy == REPLACE && !IsDir(fs, p) then Some(Moved(Last(p), false))
    else if policy == KEEP then
      match Choice(fs, Up(p), Last(p), 1) case Ok(name) => Some(Moved(name, false)) case Err(_) => None
    else None
  }

  lemma GrownDelivery(was: Fs, grown: Fs, id: Name, p: Path, policy: seq<byte>)
    requires p != [] && p[0] != PRIVATE && |Last(p)| <= NAME_MAX
    requires WellFormed(grown) && Grown(was, grown, Up(p))
    requires PayloadPath(id) in grown && grown[PayloadPath(id)].File?
    requires Delivery(was, p, policy).Some?
    ensures Decision(grown, PayloadPath(id), Up(p), Last(p), policy) == Delivery(was, p, policy)
  {
    hide IsKeepName;
    assert p == Up(p) + [Last(p)];
    GrownElsewhere(was, grown, Up(p), p);
    forall i: nat | i < LIMIT
      ensures Free(was, Up(p), Candidate(Last(p), i)) <==> Free(grown, Up(p), Candidate(Last(p), i))
    {
      GrownElsewhere(was, grown, Up(p), Up(p) + [Candidate(Last(p), i)]);
    }
    ChoiceSame(was, grown, Up(p), Last(p), 1);
    if policy == KEEP {
      var name := Choice(grown, Up(p), Last(p), 1).value;
      hide Choice;
      OutsideStaging(id, p, name);
      ChoiceIsFree(grown, Up(p), Last(p), 1);
      NewNameIsNoObstacle(grown, PayloadPath(id), Up(p), name);
    } else if policy != SKIP || p !in was {
      OutsideStaging(id, p, Last(p));
      NoObstacle(grown, PayloadPath(id), p);
    }
  }

  lemma {:induction false} ChoiceIsFree(fs: Fs, directory: Path, requested: Name, index: nat)
    requires 1 <= index <= LIMIT && Choice(fs, directory, requested, index).Ok?
    ensures Free(fs, directory, Choice(fs, directory, requested, index).value)
    decreases LIMIT - index
  {
    if !Free(fs, directory, Candidate(requested, index)) {
      ChoiceIsFree(fs, directory, requested, index + 1);
    }
  }

  lemma NoObstacle(fs: Fs, src: Path, dst: Path)
    requires WellFormed(fs) && src in fs && fs[src].File? && dst != [] && |Last(dst)| <= NAME_MAX
    requires !(src <= dst) && !IsDir(fs, dst)
    ensures RenameError(fs, src, dst, false) == None
    ensures dst !in fs ==> RenameError(fs, src, dst, true) == None
  {
    if dst <= src && dst != src {
      AncestorsAreDirs(fs, dst, src);
    }
    OnlyDirsHaveEntries(fs, dst);
  }

  /** The part of command_upload_commit that finds a place for the payload. */
  method Deliver(card: Card, id: Name, p: Path, policy: seq<byte>, ghost payload: seq<byte>)
    returns (r: Result<Moved>)
    requires card.Valid() && IsDir(card.fs, StagingDir(id))
    requires PayloadPath(id) in card.fs && card.fs[PayloadPath(id)] == File(payload)
    requires p != [] && p[0] != PRIVATE && |Last(p)| <= NAME_MAX
    modifies card`fs, card`faults, card`log
    ensures card.Valid() && old(card.log) <= card.log
    ensures CommitSince(old(card.fs), card.log, |old(card.log)|, id, p, policy, payload)
    ensures r.Err? ==> Waiting(old(card.fs), card.fs, id, Up(p), payload)
    ensures r.Ok? && r.value.skipped ==>
              policy == SKIP && p in old(card.fs) && Waiting(old(card.fs), card.fs, id, Up(p), payload)
    ensures r.Ok? && !r.value.skipped ==>
              Arrived(old(card.fs), card.fs, id, p, policy, payload, r.value.actual)
    ensures forall r | StagingDir(id) <= r && r != PayloadPath(id) :: Agree(old(card.fs), card.fs, r)
    ensures card.faults >= old(card.faults)
    ensures card.faults == old(card.faults) && Passable(old(card.fs), Up(p)) && Delivery(old(card.fs), p, policy).Some? ==>
              r.Ok? && r.value == Delivery(old(card.fs), p, policy).value
  {
    hide Arrived;
    hide Untouched;
    hide IsKeepName;
    hide Choice;
    hide Renamed;
    hide Decision;
    hide Delivery;
    hide WellFormed;
    hide RenameError;
    ghost var was, n := card.fs, |card.log|;
    var error := EnsureDirectory(card, Up(p));
    ghost var grown, log := card.fs, card.log;
    GrownWaiting(was, log, n, grown, id, p, policy, payload);
    if error.Some? {
      return Err(error.value);
    }
    assert Up(PayloadPath(id)) == StagingDir(id);
    if Delivery(was, p, policy).Some? {
      GrownDelivery(was, grown, id, p, policy);
    }
    r := MoveWithPolicy(card, PayloadPath(id), Up(p), Last(p), policy);
    if r.Ok? {
      if r.value.skipped {
        assert p == Up(p) + [Last(p)];
        GrownElsewhere(was, grown, Up(p), p);
      } else {
        OutsideStaging(id, p, r.value.actual);
        Delivered(was, grown, id, p, policy, payload, r.value.actual);
        DeliveredBeside(was, grown, id, p, r.value.actual);
        assert CommitMoment(was, card.fs, id, p, policy, payload);
      }
    }
  }

  lemma GrownWaiting(was: Fs, log: seq<Fs>, n: nat, grown: Fs, id: Name, p: Path, policy: seq<byte>, payload: seq<byte>)
    requires p != [] && p[0] != PRIVATE && PayloadPath(id) in was && was[PayloadPath(id)] == File(payload)
    requires Since(log, n, f => Grown(was, f, Up(p))) && Grown(was, grown, Up(p))
    ensures CommitSince(was, log, n, id, p, policy, payload) && Waiting(was, grown, id, Up(p), payload)
    ensures forall r | StagingDir(id) <= r :: Agree(was, grown, r)
  {
    forall k | n <= k < |log|
      ensures Waiting(was, log[k], id, Up(p), payload)
    {
      GrownIsUntouched(was, log[k], id, Up(p), Up(p));
    }
    GrownIsUntouched(was, grown, id, Up(p), Up(p));
    forall r | StagingDir(id) <= r
      ensures Agree(was, grown, r)
    {
      GrownElsewhere(was, grown, Up(p), r);
    }
  }

  lemma DeliveredBeside(was: Fs, grown: Fs, id: Name, p: Path, name: Name)
    requires WellFormed(grown) && p != [] && p[0] != PRIVATE
    requires PayloadPath(id) in grown && grown[PayloadPath(id)].File?
    requires RenameError(grown, PayloadPath(id), Up(p) + [name], false) == None
    requires forall r | StagingDir(id) <= r :: Agree(was, grown, r)
    ensures forall r | StagingDir(id) <= r && r != PayloadPath(id) ::
              Agree(was, Renamed(grown, PayloadPath(id), Up(p) + [name]), r)
  {
    var dst := Up(p) + [name];
    OutsideStaging(id, p, name);
    RenamedFile(grown, PayloadPath(id), dst);
    hide Renamed;
    forall r | StagingDir(id) <= r && r != PayloadPath(id)
      ensures Agree(was, Renamed(grown, PayloadPath(id), dst), r)
    {
      assert Agree(was, grown, r) && r != dst;
    }
  }

  /** What goes on in the staging directory does not matter to an outcome. */
  lemma StillCommitted(was: Fs, a: Fs, b: Fs, id: Name, p: Path, policy: seq<byte>, payload: seq<byte>, name: Name)
    requires p != [] && forall r | !Own(id, r) :: Agree(a, b, r)
    ensures Skipped(was, a, id, p, policy) ==> Skipped(was, b, id, p, policy)
    ensures Arrived(was, a, id, p, policy, payload, name) && PayloadPath(id) !in b ==>
              Arrived(was, b, id, p, policy, payload, name)
  {
    hide IsKeepName;
    if Skipped(was, a, id, p, policy) {
      StillUntouched(was, a, b, id, Up(p));
    }
    if Arrived(was, a, id, p, policy, payload, name) {
      var dst := Up(p) + [name];
      assert Agree(a, b, dst);
      forall r | !Own(id, r) && r != dst
        ensures SameOrWay(was, b, Up(p), r)
      {
        assert SameOrWay(was, a, Up(p), r) && Agree(a, b, r);
      }
    }
  }

  /** The outcome of a delivery, told by what it returned. */
  ghost predicate Outcome(was: Fs, now: Fs, id: Name, p: Path, policy: seq<byte>, payload: seq<byte>, moved: Moved)
    requires p != []
  {
    if moved.skipped then Skipped(was, now, id, p, policy)
    else Arrived(was, now, id, p, policy, payload, moved.actual)
  }

  lemma StillOutcome(was: Fs, a: Fs, b: Fs, id: Name, p: Path, policy: seq<byte>, payload: seq<byte>, moved: Moved,
                     at: Path)
    requires p != [] && Outcome(was, a, id, p, policy, payload, moved)
    requires (b == a - {at} || b == a) && Own(id, at)
    ensures Outcome(was, b, id, p, policy, payload, moved)
    ensures CommitMoment(was, b, id, p, policy, payload)
  {
    hide Untouched;
    hide Holds;
    hide IsKeepName;
    assert PayloadPath(id) in b ==> PayloadPath(id) in a;
    StillCommitted(was, a, b, id, p, policy, payload, moved.actual);
  }

  lemma NoCommitYet(was: Fs, log: seq<Fs>, id: Name, p: Path, policy: seq<byte>, payload: seq<byte>)
    requires p != []
    ensures CommitSince(was, log, |log|, id, p, policy, payload)
  {
  }

  lemma CommitSinceMore(was: Fs, log: seq<Fs>, more: seq<Fs>, n: nat, fs: Fs, id: Name, p: Path, policy: seq<byte>,
                        payload: seq<byte>)
    requires p != [] && n <= |log| && CommitSince(was, log, n, id, p, policy, payload)
    requires more == log || more == log + [fs]
    requires CommitMoment(was, fs, id, p, policy, payload)
    ensures CommitSince(was, more, n, id, p, policy, payload)
  {
    hide CommitMoment;
  }

  /** The part of command_upload_commit after the move. */
  method Finish(card: Card, id: Name, p: Path, policy: seq<byte>, parent: seq<byte>, moved: Moved,
                ghost payload: seq<byte>, ghost was: Fs)
    returns (r: Result<seq<byte>>)
    requires card.Valid() && p != [] && Outcome(was, card.fs, id, p, policy, payload, moved)
    modifies card`fs, card`faults, card`log
    ensures card.Valid() && old(card.log) <= card.log
    ensures CommitSince(was, card.log, |old(card.log)|, id, p, policy, payload)
    ensures Outcome(was, card.fs, id, p, policy, payload, moved) && CommitMoment(was, card.fs, id, p, policy, payload)
    ensures r.Ok? ==> StagingDir(id) !in card.fs && r == JoinPath(PATH_MAX, parent, moved.actual)
    ensures StagingDir(id) in card.fs ==> Agree(old(card.fs), card.fs, StagingDir(id))
    ensures card.faults >= old(card.faults)
    ensures card.faults == old(card.faults) && JoinPath(PATH_MAX, parent, moved.actual).Ok? &&
            IsDir(old(card.fs), StagingDir(id)) && Staging(old(card.fs), id) &&
            (moved.skipped <==> PayloadPath(id) in old(card.fs)) && StagingRecord(id) in old(card.fs) ==>
              r.Ok?
  {
    hide Outcome;
    hide CommitMoment;
    hide WellFormed;
    hide Staging;
    hide Bare;
    hide JoinPath;
    hide CommitSince;
    ghost var before, n := card.fs, |card.log|;
    ghost var log := card.log;
    NoCommitYet(was, log, id, p, policy, payload);
    OutcomeIsMoment(was, before, id, p, policy, payload, moved);
    if Staging(before, id) {
      FilesOfStaging(before, id);
    }
    if moved.skipped {
      var unlinked := card.Unlinkat(PayloadPath(id));
      StillOutcome(was, before, card.fs, id, p, policy, payload, moved, PayloadPath(id));
      CommitSinceMore(was, log, card.log, n, card.fs, id, p, policy, payload);
      if unlinked.Some? {
        return Err(unlinked.value);
      }
    }
    ghost var between := card.fs;
    log := card.log;
    var unlinked := card.Unlinkat(StagingRecord(id));
    StillOutcome(was, between, card.fs, id, p, policy, payload, moved, StagingRecord(id));
    CommitSinceMore(was, log, card.log, n, card.fs, id, p, policy, payload);
    var joined := JoinPath(PATH_MAX, parent, moved.actual);
    if joined.Err? {
      return joined;
    }
    between := card.fs;
    log := card.log;
    var removed := card.Rmdir(StagingDir(id));
    StillOutcome(was, between, card.fs, id, p, policy, payload, moved, StagingDir(id));
    CommitSinceMore(was, log, card.log, n, card.fs, id, p, policy, payload);
    if Staging(before, id) && StagingRecord(id) !in between && PayloadPath(id) !in between {
      NowBare(before, between, id);
    }
    return if removed.Some? then Err(removed.value) else joined;
  }

  lemma NowBare(before: Fs, between: Fs, id: Name)
    requires Staging(before, id) && forall r | r in between :: r in before
    requires StagingRecord(id) !in between && PayloadPath(id) !in between
    ensures Bare(between, StagingDir(id))
  {
    forall r | r in between && StagingDir(id) <= r
      ensures r == StagingDir(id)
    {
      assert r in before;
    }
  }

  /** What a commit needs to succeed when no call fails on its own. */
  ghost predicate Committable(fs: Fs, id: Name) {
    && ValidId(id) && IsDir(fs, StagingDir(id)) && Staging(fs, id) && PayloadPath(id) in fs
    && RecordedUpload(fs, id).Ok?
    && var upload := RecordedUpload(fs, id).value;
       var p := Names(upload.destination);
       && p != [] && Short(p) && Passable(fs, Up(p))
       && fs[PayloadPath(id)].File? && |fs[PayloadPath(id)].content| == upload.size
       && Delivery(fs, p, upload.policy).Some?
       && JoinPath(PATH_MAX, Parent(upload.destination), Delivery(fs, p, upload.policy).value.actual).Ok?
  }

  /** Whether command_upload_commit goes on to the move at all. */
  ghost predicate Complete(fs: Fs, id: Name) {
    && RecordedUpload(fs, id).Ok?
    && PayloadPath(id) in fs && fs[PayloadPath(id)].File?
    && |fs[PayloadPath(id)].content| == RecordedUpload(fs, id).value.size
  }

  /** command_upload_commit up to its fsync */
  method CheckUpload(card: Card, id: Name) returns (upload: Result<Metadata.Upload>)
    requires card.Valid()
    modifies card`faults
    ensures upload.Ok? ==>
              && ValidId(id) && IsDir(card.fs, StagingDir(id))
              && Complete(card.fs, id) && RecordedUpload(card.fs, id) == upload
              && var p := Names(upload.value.destination);
                 p != [] && p[0] != PRIVATE && |Last(p)| <= NAME_MAX
    ensures card.faults >= old(card.faults)
    ensures card.faults == old(card.faults) && Committable(card.fs, id) ==> upload.Ok?
  {
    hide RecordedUpload;
    hide Names;
    hide Delivery;
    hide JoinPath;
    hide Passable;
    hide Staging;
    hide WellFormed;
    upload := LoadUpload(card, id);
    if upload.Err? {
      return;
    }
    RecordedUploadIsUsable(card.fs, id);
    var size := ReceivedSize(card, id);
    if size.Err? {
      return Err(size.error);
    }
    if size.value != upload.value.size {
      return Err(EIO);
    }
    var synced := card.Fault();
    if synced.Some? {
      return Err(synced.value);
    }
    var p := Names(upload.value.destination);
    if |Last(p)| > NAME_MAX {
      return Err(ENAMETOOLONG);
    }
  }

  lemma OutcomeIsMoment(was: Fs, now: Fs, id: Name, p: Path, policy: seq<byte>, payload: seq<byte>, moved: Moved)
    requires p != [] && Outcome(was, now, id, p, policy, payload, moved)
    ensures CommitMoment(was, now, id, p, policy, payload)
  {
    hide Skipped;
    hide Arrived;
  }

  /** The staging directory after the move, when it was tidy before. */
  lemma AfterDelivery(was: Fs, now: Fs, id: Name, p: Path, policy: seq<byte>, payload: seq<byte>, moved: Moved)
    requires p != [] && forall r | StagingDir(id) <= r && r != PayloadPath(id) :: Agree(was, now, r)
    requires if moved.skipped then policy == SKIP && p in was && Waiting(was, now, id, Up(p), payload)
             else Arrived(was, now, id, p, policy, payload, moved.actual)
    ensures Outcome(was, now, id, p, policy, payload, moved)
    ensures moved.skipped <==> PayloadPath(id) in now
    ensures Agree(was, now, StagingDir(id))
    ensures IsDir(was, StagingDir(id)) && Staging(was, id) ==> IsDir(now, StagingDir(id)) && Staging(now, id)
    ensures StagingRecord(id) in was ==> StagingRecord(id) in now
  {
    hide Untouched;
    hide Holds;
    hide IsKeepName;
    assert StagingDir(id) <= StagingDir(id) && StagingDir(id) <= StagingRecord(id);
    assert StagingRecord(id)[3] != PayloadPath(id)[3];
    assert |StagingDir(id)| != |PayloadPath(id)|;
    assert Agree(was, now, StagingDir(id)) && Agree(was, now, StagingRecord(id));
    if Staging(was, id) {
      forall r | r in now && StagingDir(id) <= r && r != StagingDir(id)
        ensures (r == StagingRecord(id) || r == PayloadPath(id)) && now[r].File?
      {
        assert r != PayloadPath(id) ==> Agree(was, now, r);
      }
    }
  }

  /** command_upload_commit */
  method Commit(card: Card, id: Name) returns (r: Result<(seq<byte>, bool)>)
    requires card.Valid()
    modifies card`fs, card`faults, card`log
    ensures card.Valid() && old(card.log) <= card.log
    ensures !Complete(old(card.fs), id) ==> r.Err? && card.fs == old(card.fs) && card.log == old(card.log)
    ensures StagingDir(id) in card.fs ==> Agree(old(card.fs), card.fs, StagingDir(id))
    ensures Complete(old(card.fs), id) ==>
              var upload, payload := RecordedUpload(old(card.fs), id).value, old(card.fs)[PayloadPath(id)].content;
              var p := Names(upload.destination);
              && p != []
              && CommitSince(old(card.fs), card.log, |old(card.log)|, id, p, upload.policy, payload)
              && CommitMoment(old(card.fs), card.fs, id, p, upload.policy, payload)
              && (r.Ok? ==>
                    && StagingDir(id) !in card.fs
                    && exists name ::
                         && Outcome(old(card.fs), card.fs, id, p, upload.policy, payload, Moved(name, r.value.1))
                         && JoinPath(PATH_MAX, Parent(upload.destination), name) == Ok(r.value.0))
              && (card.faults == old(card.faults) && Committable(old(card.fs), id) ==>
                    && r.Ok? && r.value.1 == Delivery(old(card.fs), p, upload.policy).value.skipped
                    && JoinPath(PATH_MAX, Parent(upload.destination), Delivery(old(card.fs), p, upload.policy).value.actual)
                         == Ok(r.value.0))
    ensures card.faults >= old(card.faults)
  {
    hide RecordedUpload;
    hide Names;
    hide Delivery;
    hide Outcome;
    hide Arrived;
    hide Untouched;
    hide Staging;
    hide JoinPath;
    hide WellFormed;
    hide Passable;
    ghost var was, n := card.fs, |card.log|;
    if RecordedUpload(was, id).Ok? {
      RecordedUploadIsUsable(was, id);
      if Complete(was, id) {
        UntouchedAtFirst(was, id);
      }
    }
    var error := card.Fault();
    if error.Some? {
      return Err(error.value);
    }
    var checked := CheckUpload(card, id);
    if checked.Err? {
      return Err(checked.error);
    }
    var upload := checked.value;
    var p := Names(upload.destination);
    ghost var payload := was[PayloadPath(id)].content;
    var moved := Deliver(card, id, p, upload.policy, payload);
    if moved.Err? {
      return Err(moved.error);
    }
    ghost var log := card.log;
    AfterDelivery(was, card.fs, id, p, upload.policy, payload, moved.value);
    var joined := Finish(card, id, p, upload.policy, Parent(upload.destination), moved.value, payload, was);
    return match joined case Ok(path) => Ok((path, moved.value.skipped)) case Err(e) => Err(e);
  }

  /** No content is lost at any moment of a commit that may neither replace nor skip ... */
  lemma CommitLosesNothing(was: Fs, now: Fs, id: Name, p: Path, policy: seq<byte>, payload: seq<byte>)
    requires WellFormed(was) && WellFormed(now) && p != [] && p[0] != PRIVATE && policy in {FAIL, KEEP}
    requires IsDir(was, StagingDir(id)) && PayloadPath(id) in was && was[PayloadPath(id)] == File(payload)
    requires CommitMoment(was, now, id, p, policy, payload)
    ensures NothingLost(was, now)
  {
    assert IsRecord(StagingRecord(id));
    if Waiting(was, now, id, Up(p), payload) {
      forall r | r in was && was[r].File? && !IsRecord(r)
        ensures r in now && now[r] == was[r]
      {
        assert Own(id, r) || SameOrWay(was, now, Up(p), r);
      }
      EditLosesNothing(was, now);
    } else {
      var name :| Arrived(was, now, id, p, policy, payload, name);
      ArrivedLosesNothing(was, now, id, p, Up(p) + [name], payload);
    }
  }

  lemma ArrivedLosesNothing(was: Fs, now: Fs, id: Name, p: Path, dst: Path, payload: seq<byte>)
    requires WellFormed(was) && WellFormed(now) && p != [] && p[0] != PRIVATE
    requires dst != [] && Up(dst) == Up(p) && dst !in was
    requires IsDir(was, StagingDir(id)) && PayloadPath(id) in was && was[PayloadPath(id)] == File(payload)
    requires Holds(was, now, id, Up(p), dst, payload) && PayloadPath(id) !in now
    ensures NothingLost(was, now)
  {
    hide WellFormed;
    hide NothingLost;
    var src := PayloadPath(id);
    OnlyDirsHaveEntries(was, src);
    OnlyDirsHaveEntries(now, dst);
    OnlyDirsHaveEntries(was, dst);
    assert !IsRecord(dst) by {
      assert |dst| > 1 ==> dst[0] == p[0];
    }
    assert dst[..|dst| - 1] == Up(p);
    forall r: Path
      ensures (dst + r in now <==> src + r in was) && (dst + r in now ==> now[dst + r] == was[src + r])
    {
      assert dst <= dst + r && src <= src + r;
      assert r != [] ==> dst + r != dst && src + r != src;
      assert dst + [] == dst && src + [] == src;
    }
    assert IsRecord(StagingRecord(id));
    forall r | r in was && was[r].File? && !IsRecord(r) && !(src <= r)
      ensures r in now && now[r] == was[r] && !(dst <= r)
    {
      assert Own(id, r) || SameOrWay(was, now, Up(p), r);
    }
    TransferLosesNothing(was, now, src, dst);
  }

  /** ... nor of a preparation. */
  lemma PrepareLosesNothing(was: Fs, now: Fs, id: Name)
    requires WellFormed(was) && Untouched(was, now, id, [])
    requires StagingDir(id) in was ==> Grown(was, now, INCOMING_ROOT)
    ensures NothingLost(was, now)
  {
    if StagingDir(id) !in was {
      OnlyDirsHaveEntries(was, StagingDir(id));
      assert StagingDir(id) <= StagingRecord(id) && StagingDir(id) <= PayloadPath(id);
    }
    forall r | r in was && was[r].File? && !IsRecord(r)
      ensures r in now && now[r] == was[r]
    {
      assert Own(id, r) || SameOrWay(was, now, [], r);
    }
    EditLosesNothing(was, now);
  }
}
