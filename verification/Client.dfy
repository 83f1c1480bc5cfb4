/**
 The Android client's upload: prepare, send, ask for the status, commit, and cancel on any error.
 Every remote step can fail before it reaches the card, and its reply can be lost after it.
 */
module Client {
  import opened Bytes
  import opened Paths
  import opened Numbers
  import opened Tree
  import opened Syscalls
  import opened Directories
  import opened TrashCan
  import opened Policies
  import opened Deletion
  import opened Uploads
  import Base64
  import Metadata

  /** One moment of an upload: the destination is as it was, or it is all of the source. */
  ghost predicate UploadMoment(was: Fs, now: Fs, id: Name, p: Path, policy: seq<byte>, source: seq<byte>)
    requires p != []
  {
    Untouched(was, now, id, Up(p)) || exists name :: Arrived(was, now, id, p, policy, source, name)
  }

  ghost predicate UploadSince(was: Fs, log: seq<Fs>, n: nat, id: Name, p: Path, policy: seq<byte>, source: seq<byte>)
    requires p != []
  {
    forall k | n <= k < |log| :: UploadMoment(was, log[k], id, p, policy, source)
  }

  lemma UntouchedIsMoment(was: Fs, now: Fs, id: Name, p: Path, policy: seq<byte>, source: seq<byte>)
    requires p != [] && Untouched(was, now, id, [])
    ensures Untouched(was, now, id, Up(p)) && UploadMoment(was, now, id, p, policy, source)
  {
    forall r | !Own(id, r)
      ensures SameOrWay(was, now, Up(p), r)
    {
      assert SameOrWay(was, now, [], r);
      assert r <= [] ==> r == [] && r <= Up(p);
    }
  }

  lemma UntouchedAreMoments(was: Fs, log: seq<Fs>, n: nat, id: Name, p: Path, policy: seq<byte>, source: seq<byte>)
    requires p != [] && UntouchedSince(was, log, n, id, [])
    ensures UploadSince(was, log, n, id, p, policy, source)
  {
    forall k | n <= k < |log|
      ensures UploadMoment(was, log[k], id, p, policy, source)
    {
      UntouchedIsMoment(was, log[k], id, p, policy, source);
    }
  }

  lemma MomentsJoin(was: Fs, log: seq<Fs>, n: nat, more: seq<Fs>, id: Name, p: Path, policy: seq<byte>, source: seq<byte>)
    requires p != [] && log <= more && UploadSince(was, log, n, id, p, policy, source)
    requires UploadSince(was, more, |log|, id, p, policy, source)
    ensures UploadSince(was, more, n, id, p, policy, source)
  {
    hide UploadMoment;
  }

  // ---- Sending ----

  lemma NoneTouched(was: Fs, log: seq<Fs>, id: Name)
    ensures UntouchedSince(was, log, |log|, id, [])
  {
  }

  /** SshTransport.upload: the device has, at any moment, a prefix of what was written. */
  method Send(card: Card, id: Name, source: seq<byte>, size: nat, record: seq<byte>, ghost was: Fs) returns (sent: bool)
    requires card.Valid() && Ready(card.fs, id, record, []) && Untouched(was, card.fs, id, [])
    modifies card`fs, card`faults, card`log
    ensures card.Valid() && old(card.log) <= card.log
    ensures UntouchedSince(was, card.log, |old(card.log)|, id, []) && Untouched(was, card.fs, id, [])
    ensures exists received :: received <= source && Ready(card.fs, id, record, received)
    ensures sent ==> |source| == size && Ready(card.fs, id, record, source)
    ensures card.faults >= old(card.faults)
    ensures card.faults == old(card.faults) && |source| == size ==> sent
  {
    hide Untouched;
    hide UntouchedSince;
    hide Ready;
    hide WellFormed;
    ghost var n := |card.log|;
    NoneTouched(was, card.log, id);
    assert [] <= source;
    var error := card.Fault();
    if error.Some? {
      return false;
    }
    var total: nat, received: nat := 0, 0;
    assert source[..received] == [];
    while total < |source|
      invariant received <= total <= |source| && received <= size
      invariant card.Valid() && old(card.log) <= card.log
      invariant UntouchedSince(was, card.log, n, id, []) && Untouched(was, card.fs, id, [])
      invariant Ready(card.fs, id, record, source[..received])
      invariant card.faults >= old(card.faults)
    {
      var count: nat :| 0 < count <= |source| - total;
      total := total + count;
      var arriving: nat :| received + arriving <= total && received + arriving <= size;
      ghost var log := card.log;
      var written := Receive(card, id, source, received, arriving, record, was);
      JoinSince(was, log, n, |log|, card.log, id, []);
      received := received + written;
      error := card.Fault();
      if error.Some? {
        assert source[..received] <= source;
        return false;
      }
    }
    assert source[..received] <= source;
    if total != size {
      return false;
    }
    ghost var log := card.log;
    var written := Receive(card, id, source, received, size - received, record, was);
    JoinSince(was, log, n, |log|, card.log, id, []);
    assert source[..received + written] <= source;
    assert received + written == |source| ==> source[..received + written] == source;
    return received + written == size;
  }

  /** What scp does with bytes that arrive. */
  method Receive(card: Card, id: Name, source: seq<byte>, received: nat, arriving: nat, record: seq<byte>, ghost was: Fs)
    returns (written: nat)
    requires received + arriving <= |source|
    requires card.Valid() && Ready(card.fs, id, record, source[..received]) && Untouched(was, card.fs, id, [])
    modifies card`fs, card`faults, card`log
    ensures card.Valid() && old(card.log) <= card.log
    ensures UntouchedSince(was, card.log, |old(card.log)|, id, []) && Untouched(was, card.fs, id, [])
    ensures written <= arriving && Ready(card.fs, id, record, source[..received + written])
    ensures card.faults >= old(card.faults)
    ensures card.faults == old(card.faults) ==> written == arriving
  {
    hide Untouched;
    hide Staging;
    hide OnlyAt;
    hide OnlyAtSince;
    hide WellFormed;
    ghost var before, log := card.fs, card.log;
    written := card.Write(PayloadPath(id), source[received..received + arriving]);
    OnlyAtOne(before, card.fs, log, PayloadPath(id));
    EditsUntouched(was, before, card.log, |log|, id, PayloadPath(id));
    EditStaging(was, before, card.fs, id, PayloadPath(id));
    assert source[..received] + source[received..received + arriving][..written] == source[..received + written];
    assert |StagingDir(id)| != |PayloadPath(id)|;
    assert StagingRecord(id)[3] != PayloadPath(id)[3];
  }

  // ---- Putting the steps together ----

  lemma ComposeWays(was: Fs, b: Fs, c: Fs, up: Path, r: Path)
    requires SameOrWay(was, b, [], r) && SameOrWay(b, c, up, r)
    ensures SameOrWay(was, c, up, r)
  {
    assert r <= [] ==> r == [];
  }

  lemma AfterCommit(was: Fs, b: Fs, c: Fs, id: Name, p: Path, policy: seq<byte>, source: seq<byte>, name: Name)
    requires p != [] && Untouched(was, b, id, [])
    ensures Untouched(b, c, id, Up(p)) ==> Untouched(was, c, id, Up(p))
    ensures Skipped(b, c, id, p, policy) && p[0] != PRIVATE ==> Skipped(was, c, id, p, policy)
    ensures Arrived(b, c, id, p, policy, source, name) ==> Arrived(was, c, id, p, policy, source, name)
  {
    hide IsKeepName;
    assert SameOrWay(was, b, [], p) || Own(id, p);
    if Untouched(b, c, id, Up(p)) {
      forall r | !Own(id, r)
        ensures SameOrWay(was, c, Up(p), r)
      {
        ComposeWays(was, b, c, Up(p), r);
      }
    }
    if Arrived(b, c, id, p, policy, source, name) {
      var dst := Up(p) + [name];
      assert SameOrWay(was, b, [], dst);
      forall r | !Own(id, r) && r != dst
        ensures SameOrWay(was, c, Up(p), r)
      {
        ComposeWays(was, b, c, Up(p), r);
      }
    }
  }

  lemma CommitIsMoment(was: Fs, b: Fs, c: Fs, id: Name, p: Path, policy: seq<byte>, source: seq<byte>)
    requires p != [] && Untouched(was, b, id, []) && CommitMoment(b, c, id, p, policy, source)
    ensures UploadMoment(was, c, id, p, policy, source)
  {
    hide Arrived;
    hide Untouched;
    if Waiting(b, c, id, Up(p), source) || Skipped(b, c, id, p, policy) {
      AfterCommit(was, b, c, id, p, policy, source, Last(p));
    } else {
      var name :| Arrived(b, c, id, p, policy, source, name);
      AfterCommit(was, b, c, id, p, policy, source, name);
    }
  }

  lemma CommitsAreMoments(was: Fs, b: Fs, log: seq<Fs>, n: nat, id: Name, p: Path, policy: seq<byte>, source: seq<byte>)
    requires p != [] && Untouched(was, b, id, []) && CommitSince(b, log, n, id, p, policy, source)
    ensures UploadSince(was, log, n, id, p, policy, source)
  {
    hide CommitMoment;
    hide Untouched;
    hide UploadMoment;
    forall k | n <= k < |log|
      ensures UploadMoment(was, log[k], id, p, policy, source)
    {
      CommitIsMoment(was, b, log[k], id, p, policy, source);
    }
  }

  /** Cancelling takes entries out of staging only. */
  lemma CancelIsMoment(was: Fs, c: Fs, d: Fs, id: Name, p: Path, policy: seq<byte>, source: seq<byte>)
    requires WellFormed(was) && StagingDir(id) !in was && p != []
    requires UploadMoment(was, c, id, p, policy, source) && Shrunk(c, d, StagingDir(id))
    ensures UploadMoment(was, d, id, p, policy, source)
  {
    hide IsKeepName;
    OnlyDirsHaveEntries(was, StagingDir(id));
    hide WellFormed;
    assert forall r | StagingDir(id) <= r :: r !in was;
    if Untouched(was, c, id, Up(p)) {
      forall r | !Own(id, r)
        ensures SameOrWay(was, d, Up(p), r)
      {
        ShrunkWay(was, c, d, id, Up(p), r);
      }
    } else {
      var name :| Arrived(was, c, id, p, policy, source, name);
      var dst := Up(p) + [name];
      forall r | !Own(id, r) && r != dst
        ensures SameOrWay(was, d, Up(p), r)
      {
        ShrunkWay(was, c, d, id, Up(p), r);
      }
      assert Arrived(was, d, id, p, policy, source, name);
    }
  }

  lemma ShrunkWay(was: Fs, c: Fs, d: Fs, id: Name, up: Path, r: Path)
    requires SameOrWay(was, c, up, r) && Shrunk(c, d, StagingDir(id)) && (StagingDir(id) <= r ==> r !in was)
    ensures SameOrWay(was, d, up, r)
  {
  }

  lemma CancelsAreMoments(was: Fs, c: Fs, log: seq<Fs>, n: nat, id: Name, p: Path, policy: seq<byte>, source: seq<byte>)
    requires WellFormed(was) && StagingDir(id) !in was && p != []
    requires UploadMoment(was, c, id, p, policy, source) && ShrunkSince(c, log, n, StagingDir(id))
    ensures UploadSince(was, log, n, id, p, policy, source)
  {
    hide UploadMoment;
    hide Shrunk;
    hide WellFormed;
    forall k | n <= k < |log|
      ensures UploadMoment(was, log[k], id, p, policy, source)
    {
      CancelIsMoment(was, c, log[k], id, p, policy, source);
    }
  }

  /** The record of a staged upload and what a commit will make of it. */
  lemma ReadyToCommit(fs: Fs, id: Name, destination: CString, size: nat, policy: seq<byte>, received: seq<byte>)
    requires Verdict(destination, false, false) == None && size < TWO_64 && policy in {FAIL, SKIP, REPLACE, KEEP}
    requires Ready(fs, id, Metadata.Record(destination, size, policy), received)
    ensures RecordedUpload(fs, id) == Ok(Metadata.Upload(destination, size, policy))
    ensures Complete(fs, id) <==> |received| == size
    ensures ValidId(id) && IsDir(fs, StagingDir(id)) && PayloadPath(id) in fs && fs[PayloadPath(id)] == File(received)
  {
    Metadata.RecordReadsBack(destination, size, policy);
  }

  // ---- When an upload succeeds ----

  /** What a destination needs, on a sound device: a way to it, and a place that the policy allows. */
  predicate Uploadable(fs: Fs, destination: seq<byte>, policy: seq<byte>) {
    var p := Names(destination);
    && p != [] && Short(p) && Passable(fs, Up(p)) && Delivery(fs, p, policy).Some?
    && JoinPath(PATH_MAX, Parent(destination), Delivery(fs, p, policy).value.actual).Ok?
  }

  lemma UserPathsSame(was: Fs, b: Fs, id: Name, r: Path)
    requires Untouched(was, b, id, []) && (r == [] || r[0] != PRIVATE)
    ensures r != [] ==> Agree(was, b, r)
    ensures r in b && b[r] != Dir ==> r in was && was[r] != Dir
  {
    assert SameOrWay(was, b, [], r);
  }

  /** Staging changes nothing about what a delivery comes to. */
  lemma StagedDelivery(was: Fs, b: Fs, id: Name, p: Path, policy: seq<byte>)
    requires Untouched(was, b, id, []) && p != [] && p[0] != PRIVATE
    ensures Delivery(b, p, policy) == Delivery(was, p, policy)
    ensures Passable(was, Up(p)) ==> Passable(b, Up(p))
  {
    hide Untouched;
    hide Choice;
    hide IsKeepName;
    UserPathsSame(was, b, id, p);
    forall i: nat | i < LIMIT
      ensures Free(was, Up(p), Candidate(Last(p), i)) <==> Free(b, Up(p), Candidate(Last(p), i))
    {
      SmallCandidate(Last(p), i);
      if i >= 2 {
        NumberedIsNotPrivate(Last(p), i);
      }
      UserPathsSame(was, b, id, Up(p) + [Candidate(Last(p), i)]);
    }
    ChoiceSame(was, b, Up(p), Last(p), 1);
    forall i | 0 <= i <= |Up(p)|
      ensures Passable(was, Up(p)) && Up(p)[..i] in b ==> b[Up(p)[..i]] == Dir
    {
      UserPathsSame(was, b, id, Up(p)[..i]);
    }
  }

  lemma SentIsCommittable(was: Fs, fs: Fs, id: Name, destination: CString, size: nat, policy: seq<byte>, source: seq<byte>)
    requires Verdict(destination, false, false) == None && size < TWO_64 && policy in {FAIL, SKIP, REPLACE, KEEP}
    requires Names(destination) != [] && Names(destination)[0] != PRIVATE
    requires Untouched(was, fs, id, []) && Ready(fs, id, Metadata.Record(destination, size, policy), source) && |source| == size
    requires Uploadable(was, destination, policy)
    ensures Committable(fs, id) && RecordedUpload(fs, id).value.destination == destination
    ensures RecordedUpload(fs, id).value.policy == policy
    ensures Delivery(fs, Names(destination), policy) == Delivery(was, Names(destination), policy)
  {
    hide Verdict;
    hide Untouched;
    hide Delivery;
    hide JoinPath;
    hide Names;
    hide RecordedUpload;
    hide Metadata.Record;
    hide Staging;
    hide Passable;
    ReadyToCommit(fs, id, destination, size, policy, source);
    StagedDelivery(was, fs, id, Names(destination), policy);
  }

  datatype Commitment = Commitment(path: seq<byte>, skipped: bool)

  /** The client asks for the status and commits what it has sent. */
  method Confirm(card: Card, id: Name, destination: CString, size: nat, policy: seq<byte>, source: seq<byte>, ghost was: Fs)
    returns (r: Option<Commitment>)
    requires card.Valid() && Verdict(destination, false, false) == None && Names(destination) != []
    requires Names(destination)[0] != PRIVATE && size < TWO_64 && policy in {FAIL, SKIP, REPLACE, KEEP}
    requires Ready(card.fs, id, Metadata.Record(destination, size, policy), source) && Untouched(was, card.fs, id, [])
    requires |source| == size
    modifies card`fs, card`faults, card`log
    ensures card.Valid() && old(card.log) <= card.log
    ensures UploadSince(was, card.log, |old(card.log)|, id, Names(destination), policy, source)
    ensures UploadMoment(was, card.fs, id, Names(destination), policy, source)
    ensures StagingDir(id) in card.fs ==> IsDir(card.fs, StagingDir(id))
    ensures r.Some? ==>
              && StagingDir(id) !in card.fs
              && exists name ::
                   && Outcome(was, card.fs, id, Names(destination), policy, source, Moved(name, r.value.skipped))
                   && JoinPath(PATH_MAX, Parent(destination), name) == Ok(r.value.path)
    ensures card.faults >= old(card.faults)
    ensures card.faults == old(card.faults) && Uploadable(was, destination, policy) ==>
              var moved := Delivery(was, Names(destination), policy).value;
              && r.Some? && r.value.skipped == moved.skipped
              && JoinPath(PATH_MAX, Parent(destination), moved.actual) == Ok(r.value.path)
  {
    hide Uploadable;
    hide Names;
    hide Verdict;
    hide Ready;
    hide Untouched;
    hide UntouchedSince;
    hide UploadSince;
    hide CommitSince;
    hide Metadata.Record;
    hide UploadMoment;
    hide CommitMoment;
    hide Outcome;
    hide Complete;
    hide RecordedUpload;
    hide Committable;
    hide Delivery;
    hide ValidId;
    hide Passable;
    hide WellFormed;
    hide JoinPath;
    ghost var p, n, before := Names(destination), |card.log|, card.fs;
    NoMoments(was, card.log, id, p, policy, source);
    ReadyToCommit(before, id, destination, size, policy, source);
    UntouchedIsMoment(was, before, id, p, policy, source);
    if Uploadable(was, destination, policy) {
      SentIsCommittable(was, before, id, destination, size, policy, source);
    }
    var status := UploadStatus(card, id);
    var reply := card.Fault();
    if status.Err? || reply.Some? || status.value.received != status.value.upload.size {
      return None;
    }
    var unreachable := card.Fault();
    if unreachable.Some? {
      return None;
    }
    var committed := Commit(card, id);
    CommitsAreMoments(was, before, card.log, n, id, p, policy, source);
    CommitIsMoment(was, before, card.fs, id, p, policy, source);
    reply := card.Fault();
    if committed.Err? || reply.Some? {
      return None;
    }
    r := Some(Commitment(committed.value.0, committed.value.1));
    ghost var name: Name :| Outcome(before, card.fs, id, p, policy, source, Moved(name, r.value.skipped)) &&
                            JoinPath(PATH_MAX, Parent(destination), name) == Ok(r.value.path);
    OutcomeFromStart(was, before, card.fs, id, p, policy, source, Moved(name, r.value.skipped));
  }

  lemma NoMoments(was: Fs, log: seq<Fs>, id: Name, p: Path, policy: seq<byte>, source: seq<byte>)
    requires p != []
    ensures UploadSince(was, log, |log|, id, p, policy, source)
  {
  }

  /** The body of the client's try block. */
  method Attempt(card: Card, id: Name, destination: CString, size: nat, policy: seq<byte>, source: seq<byte>, ghost was: Fs)
    returns (r: Option<Commitment>)
    requires card.Valid() && Verdict(destination, false, false) == None && Names(destination) != []
    requires Names(destination)[0] != PRIVATE && size < TWO_64 && policy in {FAIL, SKIP, REPLACE, KEEP}
    requires Ready(card.fs, id, Metadata.Record(destination, size, policy), []) && Untouched(was, card.fs, id, [])
    modifies card`fs, card`faults, card`log
    ensures card.Valid() && old(card.log) <= card.log
    ensures UploadSince(was, card.log, |old(card.log)|, id, Names(destination), policy, source)
    ensures UploadMoment(was, card.fs, id, Names(destination), policy, source)
    ensures StagingDir(id) in card.fs ==> IsDir(card.fs, StagingDir(id))
    ensures r.Some? ==>
              && |source| == size && StagingDir(id) !in card.fs
              && exists name ::
                   && Outcome(was, card.fs, id, Names(destination), policy, source, Moved(name, r.value.skipped))
                   && JoinPath(PATH_MAX, Parent(destination), name) == Ok(r.value.path)
    ensures card.faults >= old(card.faults)
    ensures card.faults == old(card.faults) && |source| == size && Uploadable(was, destination, policy) ==>
              var moved := Delivery(was, Names(destination), policy).value;
              && r.Some? && r.value.skipped == moved.skipped
              && JoinPath(PATH_MAX, Parent(destination), moved.actual) == Ok(r.value.path)
  {
    hide Uploadable;
    hide Names;
    hide Verdict;
    hide Ready;
    hide Untouched;
    hide UntouchedSince;
    hide UploadSince;
    hide Metadata.Record;
    hide UploadMoment;
    hide Outcome;
    hide Complete;
    hide RecordedUpload;
    hide Delivery;
    hide ValidId;
    hide Passable;
    hide WellFormed;
    hide JoinPath;
    ghost var p, n := Names(destination), |card.log|;
    var sent := Send(card, id, source, size, Metadata.Record(destination, size, policy), was);
    ghost var received: seq<byte> :| received <= source &&
                                     Ready(card.fs, id, Metadata.Record(destination, size, policy), received);
    ReadyToCommit(card.fs, id, destination, size, policy, received);
    UntouchedAreMoments(was, card.log, n, id, p, policy, source);
    UntouchedIsMoment(was, card.fs, id, p, policy, source);
    if !sent {
      return None;
    }
    ghost var log := card.log;
    r := Confirm(card, id, destination, size, policy, source, was);
    MomentsJoin(was, log, n, card.log, id, p, policy, source);
  }

  lemma OutcomeFromStart(was: Fs, b: Fs, c: Fs, id: Name, p: Path, policy: seq<byte>, source: seq<byte>, moved: Moved)
    requires p != [] && p[0] != PRIVATE && Untouched(was, b, id, []) && Outcome(b, c, id, p, policy, source, moved)
    ensures Outcome(was, c, id, p, policy, source, moved)
  {
    hide Untouched;
    hide Skipped;
    hide Arrived;
    AfterCommit(was, b, c, id, p, policy, source, moved.actual);
  }

  /** R1Repository.upload */
  method Upload(card: Card, destination: seq<byte>, size: nat, policy: seq<byte>, source: seq<byte>,
                available: nat, rootLength: nat)
    returns (id: Name, r: Option<Commitment>)
    requires card.Valid() && size < TWO_64 && policy in {FAIL, SKIP, REPLACE, KEEP}
    modifies card`fs, card`faults, card`log
    ensures card.Valid() && old(card.log) <= card.log
    ensures Metadata.DecodeArgument(Argument(destination), false).Err? ==>
              r.None? && card.fs == old(card.fs) && card.log == old(card.log)
    ensures Metadata.DecodeArgument(Argument(destination), false).Ok? && StagingDir(id) !in old(card.fs) ==>
              && 0 !in destination && Verdict(destination, false, false) == None
              && var p := Names(destination);
                 && p != []
                 && UploadSince(old(card.fs), card.log, |old(card.log)|, id, p, policy, source)
                 && UploadMoment(old(card.fs), card.fs, id, p, policy, source)
                 && (r.Some? ==>
                       && |source| == size && StagingDir(id) !in card.fs
                       && exists name ::
                            && Outcome(old(card.fs), card.fs, id, p, policy, source, Moved(name, r.value.skipped))
                            && JoinPath(PATH_MAX, Parent(destination), name) == Ok(r.value.path))
    ensures card.faults == old(card.faults) && StagingDir(id) !in old(card.fs) && rootLength + |id| + 35 < PATH_MAX ==>
              StagingDir(id) !in card.fs
    ensures card.faults == old(card.faults) && StagingDir(id) !in old(card.fs) && rootLength + |id| + 35 < PATH_MAX &&
            Metadata.DecodeArgument(Argument(destination), false).Ok? && |source| == size && Fits(size, available) &&
            Passable(old(card.fs), INCOMING_ROOT) && Uploadable(old(card.fs), destination, policy) ==>
              var moved := Delivery(old(card.fs), Names(destination), policy).value;
              && r.Some? && r.value.skipped == moved.skipped
              && JoinPath(PATH_MAX, Parent(destination), moved.actual) == Ok(r.value.path)
  {
    hide Uploadable;
    hide Delivery;
    hide Passable;
    hide Metadata.DecodeArgument;
    hide Metadata.Record;
    hide Names;
    hide Verdict;
    hide Ready;
    hide Untouched;
    hide UploadMoment;
    hide Outcome;
    hide Shrunk;
    hide WellFormed;
    hide JoinPath;
    hide ParseSize;
    hide Decimal;
    hide Bare;
    hide Grown;
    ghost var was, n := card.fs, |card.log|;
    ArgumentDecodes(destination);
    ParseDecimal(size);
    ghost var fine := Metadata.DecodeArgument(Argument(destination), false).Ok?;
    var unreachable := card.Fault();
    var error: Option<Errno>;
    if unreachable.Some? {
      id := [97, 97, 97, 97, 97, 97, 97, 97];
      error := unreachable;
      UntouchedAtFirst(was, id);
    } else {
      id, error := Prepare(card, Argument(destination), Decimal(size), policy, available, rootLength);
    }
    if fine {
      UntouchedAreMoments(was, card.log, n, id, Names(destination), policy, source);
      UntouchedIsMoment(was, card.fs, id, Names(destination), policy, source);
    }
    if error.Some? {
      return id, None;
    }
    var reply := card.Fault();
    if reply.Some? {
      return id, None;
    }
    ghost var log := card.log;
    r := Attempt(card, id, destination, size, policy, source, was);
    MomentsJoin(was, log, n, card.log, id, Names(destination), policy, source);
    if r.None? {
      unreachable := card.Fault();
      if unreachable.None? {
        ghost var before := card.fs;
        log := card.log;
        var cancelled := RemovePrivateItem(card, INCOMING, id);
        CancelIsMoment(was, before, card.fs, id, Names(destination), policy, source);
        CancelsAreMoments(was, before, card.log, |log|, id, Names(destination), policy, source);
        MomentsJoin(was, log, n, card.log, id, Names(destination), policy, source);
      }
    }
  }

  /** The path argument as the client writes it. */
  function Argument(path: seq<byte>): (argument: CString) {
    Base64.DecodedEncoded(path);
    Base64.ProtocolEncode(path)
  }

  lemma ArgumentDecodes(destination: seq<byte>)
    ensures var decoded := Metadata.DecodeArgument(Argument(destination), false);
            decoded.Ok? ==>
              && decoded.value == destination && Verdict(decoded.value, false, false) == None
              && Names(destination) != [] && Names(destination)[0] != PRIVATE
  {
    Base64.DecodedEncoded(destination);
    hide Base64.ProtocolEncode;
    hide Base64.Decoded;
  }
}
