/**
 Card-relative paths: which ones r1-filectl accepts, how it walks them, and how it takes them
 apart and puts them together again.
 */
module Paths {
  import opened Bytes
  import opened Text

  type Name = seq<byte>
  type Path = seq<Name>

  const MAX_RELATIVE_PATH := 4095
  const PATH_MAX := 4096
  const NAME_MAX := 255

  // ".r1-manager"
  const PRIVATE: Name := [46, 114, 49, 45, 109, 97, 110, 97, 103, 101, 114]

  // ---- valid_relative ----

  predicate Ordinary(name: Name) {
    name != [] && name != [DOT] && name != [DOT, DOT]
  }

  predicate AllOrdinary(parts: Path) {
    forall i | 0 <= i < |parts| :: Ordinary(parts[i])
  }

  /** The rule, told on the split: `None` is acceptance. */
  function Verdict(path: CString, allowRoot: bool, allowPrivate: bool): Option<Errno> {
    if path == [] then (if allowRoot then None else Some(EINVAL))
    else if |path| > MAX_RELATIVE_PATH then Some(EINVAL)
    else if !allowPrivate && Split(path, SLASH)[0] == PRIVATE then Some(EPERM)
    else if !AllOrdinary(Split(path, SLASH)) then Some(EINVAL)
    else None
  }

  /** The scan has seen `done` names, all fine, and stands at the start of the next. */
  ghost predicate Scanned(path: CString, allowPrivate: bool, component: nat, done: nat) {
    var parts := Split(path, SLASH);
    && component <= |path| && done < |parts|
    && parts == parts[..done] + SplitFrom(path, SLASH, component)
    && (forall k | 0 <= k < done :: Ordinary(parts[k]))
    && (component == 0 <==> done == 0)
    && (done > 0 && !allowPrivate ==> parts[0] != PRIVATE)
  }

  /** What the next name settles. */
  lemma ScanStep(path: CString, allowRoot: bool, allowPrivate: bool, component: nat, cursor: nat, done: nat)
    requires path != [] && |path| <= MAX_RELATIVE_PATH
    requires Scanned(path, allowPrivate, component, done)
    requires component <= cursor <= |path| && (cursor < |path| ==> path[cursor] == SLASH)
    requires forall i | component <= i < cursor :: path[i] != SLASH
    ensures var name := path[component..cursor];
            if !Ordinary(name) then
              Verdict(path, allowRoot, allowPrivate) == Some(EINVAL)
            else if !allowPrivate && component == 0 && name == PRIVATE then
              Verdict(path, allowRoot, allowPrivate) == Some(EPERM)
            else if cursor == |path| then
              Verdict(path, allowRoot, allowPrivate) == None
            else
              Scanned(path, allowPrivate, cursor + 1, done + 1)
  {
    NextIs(path, SLASH, component, cursor);
    var parts := Split(path, SLASH);
    assert parts[done] == path[component..cursor];
    if cursor < |path| {
      assert parts[..done + 1] == parts[..done] + [parts[done]];
    }
  }

  /** What is settled before the scan, and where it starts. */
  lemma ScanStart(path: CString, allowRoot: bool, allowPrivate: bool)
    ensures path == [] ==> Verdict(path, allowRoot, allowPrivate) == if allowRoot then None else Some(EINVAL)
    ensures path != [] && (path[0] == SLASH || |path| > MAX_RELATIVE_PATH) ==>
              Verdict(path, allowRoot, allowPrivate) == Some(EINVAL)
    ensures Scanned(path, allowPrivate, 0, 0)
  {
    hide SplitFrom;
    if path != [] && path[0] == SLASH {
      NextIs(path, SLASH, 0, 0);
      SplitStep(path, SLASH, 0, 0);
      assert Split(path, SLASH)[0] == [];
    }
  }

  method ValidRelative(path: CString, allowRoot: bool, allowPrivate: bool) returns (error: Option<Errno>)
    ensures error == Verdict(path, allowRoot, allowPrivate)
  {
    hide Verdict;
    hide Ordinary;
    hide Scanned;
    ScanStart(path, allowRoot, allowPrivate);
    if path == [] {
      return if allowRoot then None else Some(EINVAL);
    }
    if path[0] == SLASH || |path| > MAX_RELATIVE_PATH {
      return Some(EINVAL);
    }
    var component, cursor := 0, 0;
    ghost var done := 0;
    while true
      invariant 0 <= component <= cursor <= |path|
      invariant forall i | component <= i < cursor :: path[i] != SLASH
      invariant Scanned(path, allowPrivate, component, done)
      decreases |path| - cursor
    {
      if cursor == |path| || path[cursor] == SLASH {
        var name := path[component..cursor];
        ScanStep(path, allowRoot, allowPrivate, component, cursor, done);
        if !Ordinary(name) {
          return Some(EINVAL);
        }
        if !allowPrivate && component == 0 && name == PRIVATE {
          return Some(EPERM);
        }
        if cursor == |path| {
          break;
        }
        component, done := cursor + 1, done + 1;
      }
      cursor := cursor + 1;
    }
    return None;
  }

  // ---- The component walk of open_directory and ensure_directory ----

  /** Where the walk goes on after the name that starts at the cursor. */
  function Onward(path: seq<byte>, cursor: nat): (next: nat)
    requires cursor <= |path|
    ensures next <= |path| && (cursor < |path| ==> next > cursor)
  {
    var n := Next(path, SLASH, cursor);
    if n < |path| then n + 1 else n
  }

  /** next_component: the name before the next '/', and where to go on. */
  method NextComponent(path: CString, cursor: nat, capacity: nat)
    returns (component: Result<Name>, next: nat)
    requires cursor <= |path|
    ensures var n := Next(path, SLASH, cursor);
            if n == cursor || n - cursor >= capacity then component == Err(ENAMETOOLONG) && next == cursor
            else component == Ok(path[cursor..n]) && next == Onward(path, cursor)
  {
    var length := 0;
    while cursor + length < |path| && path[cursor + length] != SLASH
      invariant cursor + length <= |path|
      invariant forall i | cursor <= i < cursor + length :: path[i] != SLASH
    {
      length := length + 1;
    }
    NextIs(path, SLASH, cursor, cursor + length);
    if length == 0 || length >= capacity {
      return Err(ENAMETOOLONG), cursor;
    }
    component := Ok(path[cursor..cursor + length]);
    next := if cursor + length < |path| then cursor + length + 1 else |path|;
  }

  predicate Short(parts: Path) {
    forall i | 0 <= i < |parts| :: |parts[i]| <= NAME_MAX
  }

  /** What a walk has still to visit. */
  function Remaining(path: seq<byte>, cursor: nat): Path
    requires cursor <= |path|
  {
    if cursor == |path| then [] else SplitFrom(path, SLASH, cursor)
  }

  /** A text that ends in '/' has an empty last name. */
  lemma {:induction false} EmptyLast(text: seq<byte>, k: nat)
    requires k <= |text| && (k < |text| ==> text[|text| - 1] == SLASH)
    ensures SplitFrom(text, SLASH, k)[|SplitFrom(text, SLASH, k)| - 1] == []
    decreases |text| - k
  {
    var n := Next(text, SLASH, k);
    if n < |text| {
      EmptyLast(text, n + 1);
    }
  }

  lemma {:induction false} RemainingStep(path: seq<byte>, cursor: nat)
    requires cursor < |path| && path[|path| - 1] != SLASH
    ensures Remaining(path, cursor) ==
              [path[cursor..Next(path, SLASH, cursor)]] + Remaining(path, Onward(path, cursor))
  {
    hide Next;
    SplitStep(path, SLASH, cursor, Next(path, SLASH, cursor));
    hide SplitFrom;
  }

  lemma {:induction false} WalkStep(path: seq<byte>, names: Path, cursor: nat)
    requires AllOrdinary(Split(path, SLASH)) && cursor < |path|
    requires Split(path, SLASH) == names + Remaining(path, cursor)
    ensures var n := Next(path, SLASH, cursor);
            && n > cursor
            && Split(path, SLASH)[|names|] == path[cursor..n]
            && Split(path, SLASH) == names + [path[cursor..n]] + Remaining(path, Onward(path, cursor))
  {
    assert path[|path| - 1] != SLASH by {
      if path[|path| - 1] == SLASH {
        EmptyLast(path, 0);
      }
    }
    RemainingStep(path, cursor);
    hide Remaining;
    hide Split;
    assert Split(path, SLASH)[|names|] == path[cursor..Next(path, SLASH, cursor)];
    assert Ordinary(Split(path, SLASH)[|names|]);
  }

  /** The names a walk opens, one after the other, on a path that valid_relative accepted. */
  method Walk(path: CString) returns (visited: Result<Path>)
    requires Verdict(path, true, true) == None
    ensures visited ==
            if path == [] then Ok([])
            else if Short(Split(path, SLASH)) then Ok(Split(path, SLASH))
            else Err(ENAMETOOLONG)
  {
    if path == [] {
      return Ok([]);
    }
    var names: Path := [];
    var cursor := 0;
    assert Split(path, SLASH) == names + Remaining(path, cursor);
    hide Split;
    hide SplitFrom;
    hide Onward;
    while cursor < |path|
      invariant 0 <= cursor <= |path|
      invariant Short(names)
      invariant Split(path, SLASH) == names + Remaining(path, cursor)
    {
      WalkStep(path, names, cursor);
      var component, next := NextComponent(path, cursor, NAME_MAX + 1);
      if component.Err? {
        return Err(ENAMETOOLONG);
      }
      names := names + [component.value];
      cursor := next;
    }
    assert names + [] == names;
    return Ok(names);
  }

  // ---- split_parent and join_path ----

  /** Position after the last '/', or 0. */
  function LeafStart(path: seq<byte>): (n: nat)
    ensures n <= |path|
    ensures forall i | n <= i < |path| :: path[i] != SLASH
    ensures n > 0 ==> path[n - 1] == SLASH
  {
    if path == [] then 0
    else if path[|path| - 1] == SLASH then |path|
    else LeafStart(path[..|path| - 1])
  }

  function Parent(path: seq<byte>): seq<byte> {
    if LeafStart(path) == 0 then [] else path[..LeafStart(path) - 1]
  }

  function Leaf(path: seq<byte>): seq<byte> {
    path[LeafStart(path)..]
  }

  method SplitParent(path: CString, parentSize: nat, nameSize: nat) returns (r: Result<(seq<byte>, Name)>)
    ensures r == if Leaf(path) == [] || |Parent(path)| >= parentSize || |Leaf(path)| >= nameSize
                 then Err(ENAMETOOLONG) else Ok((Parent(path), Leaf(path)))
  {
    var slash := |path|;
    while slash > 0 && path[slash - 1] != SLASH
      invariant 0 <= slash <= |path|
      invariant forall i | slash <= i < |path| :: path[i] != SLASH
      invariant LeafStart(path) == LeafStart(path[..slash])
    {
      assert path[..slash][..slash - 1] == path[..slash - 1];
      slash := slash - 1;
    }
    var parentLength := if slash > 0 then slash - 1 else 0;
    var leaf := path[slash..];
    if leaf == [] || parentLength >= parentSize || |leaf| >= nameSize {
      return Err(ENAMETOOLONG);
    }
    return Ok((path[..parentLength], leaf));
  }

  /** join_path: the joined text, unless it does not fit with its terminator. */
  function JoinPath(capacity: nat, parent: seq<byte>, name: seq<byte>): Result<seq<byte>> {
    var text := if parent != [] then parent + [SLASH] + name else name;
    if |text| < capacity then Ok(text) else Err(ENAMETOOLONG)
  }

  /** The parent and the leaf of an accepted path are its split, cut before the last name. */
  lemma {:induction false} ParentAndLeaf(path: CString)
    requires path != [] && Verdict(path, false, true) == None
    ensures var parts := Split(path, SLASH);
            && Leaf(path) == parts[|parts| - 1]
            && (if |parts| == 1 then Parent(path) == []
                else Parent(path) != [] && Split(Parent(path), SLASH) == parts[..|parts| - 1])
    ensures JoinPath(PATH_MAX, Parent(path), Leaf(path)) == Ok(path)
  {
    hide LeafStart;
    var parts, n := Split(path, SLASH), LeafStart(path);
    if n == 0 {
      NextIs(path, SLASH, 0, |path|);
    } else {
      SplitAt(path, SLASH, 0, n - 1);
      NextIs(path, SLASH, n, |path|);
      assert Split([], SLASH) == [[]];
      hide SplitFrom;
      assert path[n..|path|] == Leaf(path);
      assert Ordinary(parts[0]) && parts[0] == Split(Parent(path), SLASH)[0];
      assert path == Parent(path) + [SLASH] + Leaf(path);
    }
  }
}
