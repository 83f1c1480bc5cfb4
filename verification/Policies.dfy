/** The four conflict policies of a move, and the names that "keep" tries. */
module Policies {
  import opened Bytes
  import opened Paths
  import opened Tree
  import opened Syscalls
  import opened Numbers

  // "fail", "skip", "replace", "keep"
  const FAIL: seq<byte> := [102, 97, 105, 108]
  const SKIP: seq<byte> := [115, 107, 105, 112]
  const REPLACE: seq<byte> := [114, 101, 112, 108, 97, 99, 101]
  const KEEP: seq<byte> := [107, 101, 101, 112]

  const ACTUAL_SIZE := NAME_MAX + 32
  const LIMIT := 10000

  // ---- choose_keep_name ----

  function LastDot(name: Name): (n: int)
    ensures -1 <= n < |name|
  {
    if name == [] then -1
    else if name[|name| - 1] == DOT then |name| - 1
    else LastDot(name[..|name| - 1])
  }

  /** Length of a name without its extension; a leading dot starts no extension. */
  function Stem(name: Name): (n: nat)
    ensures n <= |name|
  {
    if LastDot(name) > 0 then LastDot(name) else |name|
  }

  /** The names to try: the name itself, then "stem (2)ext" to "stem (9999)ext". */
  function Candidate(requested: Name, index: nat): Name {
    if index < 2 then requested
    else requested[..Stem(requested)] + [32, 40] + Decimal(index) + [41] + requested[Stem(requested)..]
  }

  // ---- What a kept name looks like ----

  /** The stem ends before the last dot, unless that is the first character; without such a dot it is the whole name. */
  ghost predicate StemEnds(requested: Name, d: nat) {
    && d <= |requested| && (forall i | d < i < |requested| :: requested[i] != DOT)
    && if d < |requested| then d > 0 && requested[d] == DOT else forall i | 0 < i < |requested| :: requested[i] != DOT
  }

  /** The number, in brackets after a space, stands between the stem and the extension. */
  ghost predicate HasNumber(requested: Name, name: Name, d: nat, index: nat) {
    StemEnds(requested, d) && name == requested[..d] + [32, 40] + Decimal(index) + [41] + requested[d..]
  }

  ghost predicate IsKeepName(requested: Name, name: Name) {
    name == requested || exists d: nat, index: nat | 2 <= index < LIMIT :: HasNumber(requested, name, d, index)
  }

  lemma {:induction false} LastDotIs(name: Name)
    ensures LastDot(name) >= 0 ==> name[LastDot(name)] == DOT
    ensures forall i | LastDot(name) < i < |name| :: name[i] != DOT
  {
    if name != [] && name[|name| - 1] != DOT {
      LastDotIs(name[..|name| - 1]);
      assert forall i | 0 <= i < |name| - 1 :: name[..|name| - 1][i] == name[i];
    }
  }

  lemma CandidateIsKept(requested: Name, index: nat)
    requires index < LIMIT
    ensures IsKeepName(requested, Candidate(requested, index))
  {
    if index >= 2 {
      hide LastDot;
      LastDotIs(requested);
      assert HasNumber(requested, Candidate(requested, index), Stem(requested), index);
    }
  }

  lemma KeptIsNotPrivate(requested: Name, name: Name)
    requires IsKeepName(requested, name) && name != requested
    ensures name != PRIVATE
  {
    var d: nat, index: nat :| 2 <= index < LIMIT && HasNumber(requested, name, d, index);
    assert name[d] == 32;
    assert forall i | 0 <= i < |PRIVATE| :: PRIVATE[i] != 32;
  }

  /** No numbered name is the private one. */
  lemma NumberedIsNotPrivate(requested: Name, index: nat)
    requires index >= 2
    ensures Candidate(requested, index) != PRIVATE
  {
    assert Candidate(requested, index)[Stem(requested)] == 32;
    assert forall i | 0 <= i < |PRIVATE| :: PRIVATE[i] != 32;
  }

  lemma SmallCandidate(requested: Name, index: nat)
    ensures index < 2 ==> Candidate(requested, index) == requested
  {
  }

  /** fstatat answers ENOENT: the name could exist and does not. */
  predicate Free(fs: Fs, directory: Path, name: Name) {
    |name| <= NAME_MAX && directory + [name] !in fs
  }

  /** The choice among the candidates from `index` on. */
  function Choice(fs: Fs, directory: Path, requested: Name, index: nat): (r: Result<Name>)
    requires 1 <= index <= LIMIT
    decreases LIMIT - index
  {
    if index == LIMIT then Err(EEXIST)
    else
      var name := Candidate(requested, index);
      if index > 1 && |name| >= ACTUAL_SIZE then Err(ENAMETOOLONG)
      else if Free(fs, directory, name) then Ok(name)
      else Choice(fs, directory, requested, index + 1)
  }

  method ChooseKeepName(card: Card, directory: Path, requested: Name) returns (actual: Result<Name>)
    requires card.Valid()
    modifies card`faults
    ensures actual.Ok? ==>
              Free(card.fs, directory, actual.value) && IsKeepName(requested, actual.value)
    ensures card.faults >= old(card.faults)
    ensures card.faults == old(card.faults) ==> actual == Choice(card.fs, directory, requested, 1)
  {
    hide IsKeepName;
    CandidateIsKept(requested, 1);
    assert Last(directory + [requested]) == requested;
    var existing := card.Fstatat(directory + [requested]);
    if existing == Some(ENOENT) {
      if |requested| < ACTUAL_SIZE {
        assert Candidate(requested, 1) == requested;
        return Ok(requested);
      }
      return Err(ENAMETOOLONG);
    }
    var index := 2;
    while index < LIMIT
      invariant 2 <= index <= LIMIT
      invariant card.faults >= old(card.faults)
      invariant card.faults == old(card.faults) ==>
                  Choice(card.fs, directory, requested, 1) == Choice(card.fs, directory, requested, index)
    {
      var name := Candidate(requested, index);
      if |name| >= ACTUAL_SIZE {
        return Err(ENAMETOOLONG);
      }
      assert Last(directory + [name]) == name;
      existing := card.Fstatat(directory + [name]);
      if existing == Some(ENOENT) {
        CandidateIsKept(requested, index);
        return Ok(name);
      }
      index := index + 1;
    }
    return Err(EEXIST);
  }

  /** The choice is the free candidate with the least number. */
  lemma {:induction false} ChoiceIsLeast(fs: Fs, directory: Path, requested: Name, index: nat) returns (chosen: nat)
    requires 1 <= index <= LIMIT && |requested| <= NAME_MAX
    ensures Choice(fs, directory, requested, index).Ok? ==>
              && index <= chosen < LIMIT
              && Choice(fs, directory, requested, index) == Ok(Candidate(requested, chosen))
              && Free(fs, directory, Candidate(requested, chosen))
              && forall i | index <= i < chosen :: !Free(fs, directory, Candidate(requested, i))
    ensures Choice(fs, directory, requested, index).Err? ==>
              && Choice(fs, directory, requested, index) == Err(EEXIST)
              && forall i | index <= i < LIMIT :: !Free(fs, directory, Candidate(requested, i))
    decreases LIMIT - index
  {
    chosen := index;
    if index < LIMIT {
      CandidateLength(requested, index);
      if !Free(fs, directory, Candidate(requested, index)) {
        chosen := ChoiceIsLeast(fs, directory, requested, index + 1);
      }
    }
  }

  lemma {:induction false} CandidateLength(requested: Name, index: nat)
    requires index < LIMIT
    ensures |Candidate(requested, index)| <= |requested| + 7
    ensures index >= 2 ==> |Candidate(requested, index)| == |requested| + 3 + |Decimal(index)|
  {
    assert Power10(4) == 10000;
    DecimalIsShort(index, 4);
  }

  lemma CandidatesDiffer(requested: Name, i: nat, j: nat)
    requires 1 <= i < j < LIMIT
    ensures Candidate(requested, i) != Candidate(requested, j)
  {
    var n := Stem(requested);
    CandidateLength(requested, j);
    if i >= 2 && Candidate(requested, i) == Candidate(requested, j) {
      CandidateLength(requested, i);
      var a, b := Candidate(requested, i), Candidate(requested, j);
      assert Decimal(i) == a[n + 2..n + 2 + |Decimal(i)|];
      assert Decimal(j) == b[n + 2..n + 2 + |Decimal(j)|];
      DecimalIsInjective(i, j);
    }
  }

  /** The paths of the first candidates. */
  function Taken(directory: Path, requested: Name, n: nat): set<Path> {
    set i | 1 <= i <= n :: directory + [Candidate(requested, i)]
  }

  lemma {:induction false} TakenSize(directory: Path, requested: Name, n: nat)
    requires n < LIMIT
    ensures |Taken(directory, requested, n)| == n
  {
    if n == 0 {
      assert Taken(directory, requested, 0) == {};
    } else {
      TakenSize(directory, requested, n - 1);
      var last := directory + [Candidate(requested, n)];
      assert Taken(directory, requested, n) == Taken(directory, requested, n - 1) + {last};
      forall i | 1 <= i <= n - 1
        ensures directory + [Candidate(requested, i)] != last
      {
        CandidatesDiffer(requested, i, n);
        assert (directory + [Candidate(requested, i)])[|directory|] == Candidate(requested, i);
      }
    }
  }

  /** The entries of a directory. */
  function Children(fs: Fs, directory: Path): set<Path> {
    set p | p in fs && |p| == |directory| + 1 && directory <= p
  }

  /** In a directory of fewer than 9999 entries, "keep" always finds a name that fits. */
  lemma {:induction false} KeepSucceeds(fs: Fs, directory: Path, requested: Name)
    requires |Children(fs, directory)| < LIMIT - 1 && |requested| + 7 <= NAME_MAX
    ensures Choice(fs, directory, requested, 1).Ok?
  {
    var chosen := ChoiceIsLeast(fs, directory, requested, 1);
    if Choice(fs, directory, requested, 1).Err? {
      forall i | 1 <= i < LIMIT
        ensures directory + [Candidate(requested, i)] in Children(fs, directory)
      {
        CandidateLength(requested, i);
      }
      TakenSize(directory, requested, LIMIT - 1);
      SubsetSize(Taken(directory, requested, LIMIT - 1), Children(fs, directory));
    }
  }

  // ---- move_with_policy ----

  lemma NewNameIsNoObstacle(fs: Fs, src: Path, directory: Path, name: Name)
    requires WellFormed(fs) && Free(fs, directory, name)
    ensures src in fs && !(src <= directory) ==> RenameError(fs, src, directory + [name], false) == None
  {
    var dst := directory + [name];
    OnlyDirsHaveEntries(fs, dst);
    assert dst[..|directory|] == directory;
    assert src <= dst && src != dst ==> src <= directory;
    assert Last(dst) == name;
  }

  datatype Moved = Moved(actual: Name, skipped: bool)

  /** What a policy decides when no call fails on its own; the error matters only as such. */
  function Decision(fs: Fs, src: Path, directory: Path, requested: Name, policy: seq<byte>): Option<Moved> {
    var dst := directory + [requested];
    if policy == FAIL then
      if RenameError(fs, src, dst, true) == None then Some(Moved(requested, false)) else None
    else if policy == SKIP && dst in fs then Some(Moved(requested, true))
    else if policy == SKIP || policy == REPLACE then
      if RenameError(fs, src, dst, false) == None then Some(Moved(requested, false)) else None
    else if policy == KEEP then
      match Choice(fs, directory, requested, 1)
      case Ok(name) =>
        if RenameError(fs, src, directory + [name], false) == None then Some(Moved(name, false)) else None
      case Err(_) => None
    else None
  }

  method MoveWithPolicy(card: Card, src: Path, directory: Path, requested: Name, policy: seq<byte>)
    returns (r: Result<Moved>)
    requires card.Valid() && src != [] && IsDir(card.fs, Up(src)) && IsDir(card.fs, directory)
    requires |requested| <= NAME_MAX
    modifies card`fs, card`faults, card`log
    ensures card.Valid()
    ensures r.Err? || r.value.skipped ==> card.fs == old(card.fs) && card.log == old(card.log)
    ensures r.Ok? ==>
              var dst := directory + [r.value.actual];
              if r.value.skipped then
                policy == SKIP && r.value.actual == requested && dst in old(card.fs)
              else
                && src in old(card.fs)
                && (if policy == KEEP then IsKeepName(requested, r.value.actual)
                    else r.value.actual == requested && policy in {FAIL, SKIP, REPLACE})
                && (policy != REPLACE ==> dst !in old(card.fs))
                && (src != dst ==>
                      !(src <= dst) && card.fs == Renamed(old(card.fs), src, dst) && card.log == old(card.log) + [card.fs])
                && (src == dst ==> card.fs == old(card.fs) && card.log == old(card.log))
                && RenameError(old(card.fs), src, dst, false) == None
    ensures card.faults >= old(card.faults)
    ensures card.faults == old(card.faults) ==>
              (match Decision(old(card.fs), src, directory, requested, policy)
               case Some(moved) => r == Ok(moved)
               case None => r.Err?)
  {
    hide Renamed;
    hide IsKeepName;
    hide Choice;
    var dst := directory + [requested];
    assert Up(dst) == directory && Last(dst) == requested;
    if policy == FAIL {
      var error := card.RenameNoreplace(src, dst);
      return if error.Some? then Err(error.value) else Ok(Moved(requested, false));
    }
    if policy == SKIP {
      var existing := card.Fstatat(dst);
      if existing == None {
        return Ok(Moved(requested, true));
      }
      if existing != Some(ENOENT) {
        return Err(existing.value);
      }
      var error := card.Renameat(src, dst, false);
      return if error.Some? then Err(error.value) else Ok(Moved(requested, false));
    }
    if policy == REPLACE {
      var error := card.Renameat(src, dst, false);
      return if error.Some? then Err(error.value) else Ok(Moved(requested, false));
    }
    if policy == KEEP {
      var name := ChooseKeepName(card, directory, requested);
      if name.Err? {
        return Err(name.error);
      }
      dst := directory + [name.value];
      assert Up(dst) == directory && Last(dst) == name.value;
      NewNameIsNoObstacle(card.fs, src, directory, name.value);
      var error := card.Renameat(src, dst, false);
      return if error.Some? then Err(error.value) else Ok(Moved(name.value, false));
    }
    return Err(EINVAL);
  }
}
