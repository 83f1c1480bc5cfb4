/**
 The emulator's input descriptors: every open has its own queue, every event goes to all of them,
 and a grab decides who sees it. Each queued event carries the descriptor that held the grab when
 it was written, so that a replay can be told from a delivery.
 */
module InputGrab {
  const MAX_INPUT_FDS := 16
  const NOBODY := -1

  datatype Event = Event(value: nat, owner: int)

  datatype Outcome = Done | Busy | Invalid | TooMany

  type Queues = map<int, seq<Event>>

  /** What the bridge writes at one moment: an endpoint and a value at a time. */
  type Moment = seq<(int, nat)>

  /** A slot holds a descriptor plus one, or 0; the queues are those of all endpoints that are open. */
  datatype State = State(slots: seq<int>, grab: int, queues: Queues)

  predicate IsInput(s: State, fd: int) { fd >= 0 && fd + 1 in s.slots }

  /** Every descriptor is in one slot at most. */
  ghost predicate Distinct(slots: seq<int>) {
    forall i, j | 0 <= i < j < |slots| && slots[i] != 0 :: slots[i] != slots[j]
  }

  ghost predicate Consistent(s: State) {
    && |s.slots| == MAX_INPUT_FDS
    && (forall i | 0 <= i < MAX_INPUT_FDS :: s.slots[i] >= 0)
    && Distinct(s.slots)
    && (forall fd | IsInput(s, fd) :: fd in s.queues)
    && (forall fd | fd in s.queues :: fd >= 0)
    && (s.grab == NOBODY || IsInput(s, s.grab))
  }

  /** The event may reach this descriptor: it was written while nobody or the descriptor itself held the grab. */
  predicate MayReach(event: Event, fd: int) {
    event.owner == NOBODY || event.owner == fd
  }

  /** What waits for fd may reach it, or is held back because the grab under which it was written goes on. */
  ghost predicate AllSettled(events: seq<Event>, fd: int, grab: int) {
    forall i | 0 <= i < |events| :: MayReach(events[i], fd) || events[i].owner == grab
  }

  ghost predicate Settled(s: State) {
    forall fd | fd in s.queues :: AllSettled(s.queues[fd], fd, s.grab)
  }

  /** Nothing in the queue was written under the grab of owner. */
  predicate NoneOf(events: seq<Event>, owner: int) {
    forall i | 0 <= i < |events| :: events[i].owner != owner
  }

  // ---- What the calls do ----

  /** The first slot that holds `before` holds `after`. */
  function ReplaceFirst(slots: seq<int>, before: int, after: int): seq<int> {
    if slots == [] then []
    else if slots[0] == before then [after] + slots[1..]
    else [slots[0]] + ReplaceFirst(slots[1..], before, after)
  }

  function Recorded(s: State, fd: int): (State, Outcome) {
    if 0 in s.slots then (s.(slots := ReplaceFirst(s.slots, 0, fd + 1)), Done)
    else (s.(queues := s.queues - {fd}), TooMany)
  }

  function Closed(s: State, fd: int): State {
    State(ReplaceFirst(s.slots, fd + 1, 0), if s.grab == fd then NOBODY else s.grab, s.queues - {fd})
  }

  function ReadFrom(s: State, fd: int, count: nat): (State, seq<Event>)
    requires fd in s.queues
  {
    var n := if count < |s.queues[fd]| then count else |s.queues[fd]|;
    (s.(queues := s.queues[fd := s.queues[fd][n..]]), if s.grab >= 0 && s.grab != fd then [] else s.queues[fd][..n])
  }

  function Grabbed(s: State, fd: int): (State, Outcome) {
    if s.grab == fd || s.grab < 0 then (s.(grab := fd), Done) else (s, Busy)
  }

  /** What of a moment's events goes to fd. */
  function Written(moment: Moment, fd: int, owner: int): seq<Event> {
    if moment == [] then []
    else
      var last := moment[|moment| - 1];
      Written(moment[..|moment| - 1], fd, owner) + if last.0 == fd then [Event(last.1, owner)] else []
  }

  /** The queue of fd after n slots were drained one after the other, with the events that arrived behind each of them. */
  function Drained(queue: seq<Event>, slots: seq<int>, arrivals: seq<Moment>, n: nat, fd: int, owner: int): seq<Event>
    requires n <= |slots| && n <= |arrivals|
  {
    if n == 0 then queue
    else
      (if slots[n - 1] == fd + 1 then [] else Drained(queue, slots, arrivals, n - 1, fd, owner)) +
      Written(arrivals[n - 1], fd, owner)
  }

  function Flushed(s: State, arrivals: seq<Moment>, n: nat): Queues
    requires n <= |s.slots| && n <= |arrivals|
  {
    map fd | fd in s.queues :: Drained(s.queues[fd], s.slots, arrivals, n, fd, s.grab)
  }

  function Released(s: State, fd: int, arrivals: seq<Moment>): (State, Outcome)
    requires |arrivals| == |s.slots|
  {
    if s.grab == fd then (State(s.slots, NOBODY, Flushed(s, arrivals, |arrivals|)), Done)
    else (s, if s.grab < 0 then Done else Invalid)
  }

  // ---- The slots ----

  lemma {:induction false} ReplacedAt(slots: seq<int>, before: int, after: int, k: nat)
    requires k < |slots| && slots[k] == before && forall i | 0 <= i < k :: slots[i] != before
    ensures ReplaceFirst(slots, before, after) == slots[k := after]
  {
    if k > 0 {
      assert forall i | 0 <= i < |slots| - 1 :: slots[1..][i] == slots[i + 1];
      ReplacedAt(slots[1..], before, after, k - 1);
      assert slots[k := after] == [slots[0]] + slots[1..][k - 1 := after];
    }
  }

  lemma {:induction false} NothingReplaced(slots: seq<int>, before: int, after: int)
    requires before !in slots
    ensures ReplaceFirst(slots, before, after) == slots
  {
    if slots != [] {
      NothingReplaced(slots[1..], before, after);
    }
  }

  lemma FirstOf(slots: seq<int>, entry: int) returns (k: nat)
    requires entry in slots
    ensures k < |slots| && slots[k] == entry && forall i | 0 <= i < k :: slots[i] != entry
  {
    k := 0;
    while slots[k] != entry
      invariant k < |slots| && forall i | 0 <= i < k :: slots[i] != entry
      decreases |slots| - k
    {
      k := k + 1;
    }
  }

  lemma {:induction false} SlotTaken(slots: seq<int>, entry: int)
    requires 0 in slots && entry != 0 && entry !in slots && Distinct(slots)
    ensures var after := ReplaceFirst(slots, 0, entry);
            && |after| == |slots| && Distinct(after)
            && (forall x | x != 0 :: x in after <==> x in slots || x == entry)
            && (forall i | 0 <= i < |after| :: after[i] == slots[i] || after[i] == entry)
  {
    var k := FirstOf(slots, 0);
    ReplacedAt(slots, 0, entry, k);
    var after := slots[k := entry];
    forall x | x != 0
      ensures x in after <==> x in slots || x == entry
    {
      if x in slots {
        var i :| 0 <= i < |slots| && slots[i] == x;
        assert after[i] == x;
      }
      assert after[k] == entry;
    }
  }

  lemma {:induction false} SlotFreed(slots: seq<int>, entry: int)
    requires entry != 0 && Distinct(slots)
    ensures var after := ReplaceFirst(slots, entry, 0);
            && |after| == |slots| && Distinct(after)
            && (forall x | x != 0 :: x in after <==> x in slots && x != entry)
            && (forall i | 0 <= i < |after| :: after[i] == slots[i] || after[i] == 0)
  {
    if entry !in slots {
      NothingReplaced(slots, entry, 0);
    } else {
      var k := FirstOf(slots, entry);
      ReplacedAt(slots, entry, 0, k);
      var after := slots[k := 0];
      forall x | x != 0
        ensures x in after <==> x in slots && x != entry
      {
        if x in slots && x != entry {
          var i :| 0 <= i < |slots| && slots[i] == x;
          assert after[i] == x;
        }
      }
    }
  }

  lemma RecordedIsConsistent(s: State, fd: int)
    requires Consistent(s) && fd in s.queues && !IsInput(s, fd)
    ensures Consistent(Recorded(s, fd).0)
  {
    if 0 in s.slots {
      SlotTaken(s.slots, fd + 1);
    }
    hide Distinct;
    hide ReplaceFirst;
    if 0 in s.slots {
      forall f | IsInput(Recorded(s, fd).0, f)
        ensures f == fd || IsInput(s, f)
      {
      }
    }
  }

  lemma ClosedIsConsistent(s: State, fd: int)
    requires Consistent(s) && fd in s.queues
    ensures Consistent(Closed(s, fd))
  {
    SlotFreed(s.slots, fd + 1);
    hide Distinct;
    hide ReplaceFirst;
    forall f | f >= 0
      ensures IsInput(Closed(s, fd), f) <==> IsInput(s, f) && f != fd
    {
    }
  }

  lemma FlushedNothing(s: State, arrivals: seq<Moment>)
    ensures Flushed(s, arrivals, 0) == s.queues
  {
  }

  lemma FlushedStep(s: State, arrivals: seq<Moment>, n: nat, before: Queues, after: Queues)
    requires n < |s.slots| && n < |arrivals| && before == Flushed(s, arrivals, n) && after.Keys == before.Keys
    requires forall fd | fd in after ::
      after[fd] == (if s.slots[n] == fd + 1 then [] else before[fd]) + Written(arrivals[n], fd, s.grab)
    ensures after == Flushed(s, arrivals, n + 1)
  {
    hide Written;
    assert forall fd | fd in s.queues :: fd in before;
  }

  // ---- The shim itself ----

  class Shim {
    // fd + 1, or 0 for an empty slot
    const inputFds: array<int>
    var grabFd: int
    var queues: Queues

    function View(): State
      reads this, inputFds
    {
      State(inputFds[..], grabFd, queues)
    }

    ghost predicate Valid()
      reads this, inputFds
    {
      inputFds.Length == MAX_INPUT_FDS && Consistent(View())
    }

    constructor ()
      ensures Valid() && Settled(View()) && grabFd == NOBODY && queues == map[] && fresh(inputFds)
    {
      inputFds := new int[MAX_INPUT_FDS](_ => 0);
      grabFd, queues := NOBODY, map[];
    }

    /** The FIFO of a descriptor is open from here on, although the shim does not know it yet. */
    method OpenEndpoint(fd: int)
      requires Valid() && fd >= 0 && fd !in queues
      modifies this`queues
      ensures Valid() && View() == old(View()).(queues := old(queues)[fd := []])
    {
      queues := queues[fd := []];
    }

    /** bridge.py writes an event to one endpoint. */
    method Push(fd: int, value: nat)
      requires Valid() && fd in queues
      modifies this`queues
      ensures Valid() && View() == old(View()).(queues := old(queues)[fd := old(queues)[fd] + [Event(value, grabFd)]])
    {
      queues := queues[fd := queues[fd] + [Event(value, grabFd)]];
    }

    /** record_input_open */
    method RecordOpen(fd: int) returns (outcome: Outcome)
      requires Valid() && fd in queues && !IsInput(View(), fd)
      modifies this`queues, inputFds
      ensures Valid() && (View(), outcome) == Recorded(old(View()), fd)
      ensures outcome == TooMany <==> old(forall i | 0 <= i < MAX_INPUT_FDS :: inputFds[i] != 0)
    {
      hide Consistent;
      hide ReplaceFirst;
      RecordedIsConsistent(View(), fd);
      ghost var slots := inputFds[..];
      var index := 0;
      while index < MAX_INPUT_FDS
        invariant 0 <= index <= MAX_INPUT_FDS && forall i | 0 <= i < index :: inputFds[i] != 0
        invariant inputFds[..] == slots && queues == old(queues)
      {
        if inputFds[index] == 0 {
          assert slots[index] == 0;
          ReplacedAt(slots, 0, fd + 1, index);
          inputFds[index] := fd + 1;
          assert inputFds[..] == slots[index := fd + 1];
          return Done;
        }
        index := index + 1;
      }
      assert 0 !in slots;
      queues := queues - {fd};
      return TooMany;
    }

    /** close */
    method Close(fd: int)
      requires Valid() && fd in queues
      modifies this`queues, this`grabFd, inputFds
      ensures Valid() && View() == Closed(old(View()), fd)
    {
      hide Consistent;
      hide ReplaceFirst;
      ClosedIsConsistent(View(), fd);
      ghost var slots := inputFds[..];
      var index := 0;
      while index < MAX_INPUT_FDS
        invariant 0 <= index <= MAX_INPUT_FDS && forall i | 0 <= i < index :: inputFds[i] != fd + 1
        invariant inputFds[..] == slots
      {
        if inputFds[index] == fd + 1 {
          break;
        }
        index := index + 1;
      }
      if index < MAX_INPUT_FDS {
        assert slots[index] == fd + 1;
        ReplacedAt(slots, fd + 1, 0, index);
        inputFds[index] := 0;
        assert inputFds[..] == slots[index := 0];
      } else {
        assert fd + 1 !in slots;
        NothingReplaced(slots, fd + 1, 0);
      }
      if grabFd == fd {
        grabFd := NOBODY;
      }
      queues := queues - {fd};
    }

    /** read: what is read is gone, and hidden from everybody but the owner of the grab. */
    method Read(fd: int, count: nat) returns (delivered: seq<Event>)
      requires Valid() && IsInput(View(), fd)
      modifies this`queues
      ensures Valid() && (View(), delivered) == ReadFrom(old(View()), fd, count)
    {
      var n := if count < |queues[fd]| then count else |queues[fd]|;
      delivered := queues[fd][..n];
      queues := queues[fd := queues[fd][n..]];
      if grabFd >= 0 && grabFd != fd {
        delivered := [];
      }
    }

    /** EVIOCGRAB with a true argument */
    method Grab(fd: int) returns (outcome: Outcome)
      requires Valid() && IsInput(View(), fd)
      modifies this`grabFd
      ensures Valid() && (View(), outcome) == Grabbed(old(View()), fd)
    {
      if grabFd == fd || grabFd < 0 {
        grabFd := fd;
        return Done;
      }
      return Busy;
    }

    /** What the bridge writes at one moment, to one endpoint after the other. */
    method Arrive(moment: Moment)
      requires Valid()
      modifies this`queues
      ensures Valid() && queues.Keys == old(queues).Keys
      ensures forall fd | fd in queues :: queues[fd] == old(queues)[fd] + Written(moment, fd, grabFd)
    {
      assert moment[..0] == [];
      for k := 0 to |moment|
        invariant Valid() && queues.Keys == old(queues).Keys
        invariant forall fd | fd in queues :: queues[fd] == old(queues)[fd] + Written(moment[..k], fd, grabFd)
      {
        var (target, value) := moment[k];
        assert moment[..k + 1][..k] == moment[..k] && moment[..k + 1][k] == moment[k];
        if target in queues {
          queues := queues[target := queues[target] + [Event(value, grabFd)]];
        }
      }
      assert moment[..|moment|] == moment;
    }

    /**
     flush_input_queues. The bridge does not take the lock, so it may write while the queues are
     drained one after the other; `arrivals[i]` are its events of the i-th moment.
     */
    method FlushInputQueues(arrivals: seq<Moment>)
      requires Valid() && |arrivals| == MAX_INPUT_FDS
      modifies this`queues
      ensures Valid() && queues == Flushed(old(View()), arrivals, MAX_INPUT_FDS)
    {
      hide Flushed;
      hide Distinct;
      hide Written;
      ghost var was := View();
      FlushedNothing(was, arrivals);
      for index := 0 to MAX_INPUT_FDS
        invariant Valid() && queues == Flushed(was, arrivals, index) && inputFds[..] == was.slots
      {
        var encoded := inputFds[index];
        assert encoded == was.slots[index];
        ghost var before := queues;
        if encoded > 0 {
          assert IsInput(was, encoded - 1);
          queues := queues[encoded - 1 := []];
        }
        Arrive(arrivals[index]);
        FlushedStep(was, arrivals, index, before, queues);
      }
    }

    /** EVIOCGRAB with a false argument */
    method Release(fd: int, arrivals: seq<Moment>) returns (outcome: Outcome)
      requires Valid() && IsInput(View(), fd) && |arrivals| == MAX_INPUT_FDS
      modifies this`queues, this`grabFd
      ensures Valid() && (View(), outcome) == Released(old(View()), fd, arrivals)
    {
      if grabFd == fd {
        FlushInputQueues(arrivals);
        grabFd := NOBODY;
        return Done;
      }
      if grabFd < 0 {
        return Done;
      }
      return Invalid;
    }
  }

  // ---- Runs ----

  datatype Step =
    | OpenStep(fd: int)
    | RecordStep(fd: int)
    | PushStep(fd: int, value: nat)
    | ReadStep(fd: int, count: nat)
    | GrabStep(fd: int)
    | ReleaseStep(fd: int, arrivals: seq<Moment>)
    | CloseStep(fd: int)

  predicate Possible(s: State, step: Step) {
    match step
    case OpenStep(fd) => fd >= 0 && fd !in s.queues
    case RecordStep(fd) => fd in s.queues && !IsInput(s, fd)
    case PushStep(fd, _) => fd in s.queues
    case ReadStep(fd, _) => IsInput(s, fd) && fd in s.queues
    case GrabStep(fd) => IsInput(s, fd)
    case ReleaseStep(fd, arrivals) => IsInput(s, fd) && |arrivals| == |s.slots|
    case CloseStep(fd) => fd in s.queues
  }

  function Deliveries(fd: int, events: seq<Event>): seq<(int, Event)> {
    seq(|events|, i requires 0 <= i < |events| => (fd, events[i]))
  }

  /** The state after a step, and what the step delivers to whom. */
  function Next(s: State, step: Step): (State, seq<(int, Event)>) {
    if !Possible(s, step) then (s, [])
    else
      match step
      case OpenStep(fd) => (s.(queues := s.queues[fd := []]), [])
      case RecordStep(fd) => (Recorded(s, fd).0, [])
      case PushStep(fd, value) => (s.(queues := s.queues[fd := s.queues[fd] + [Event(value, s.grab)]]), [])
      case ReadStep(fd, count) => (ReadFrom(s, fd, count).0, Deliveries(fd, ReadFrom(s, fd, count).1))
      case GrabStep(fd) => (Grabbed(s, fd).0, [])
      case ReleaseStep(fd, arrivals) => (Released(s, fd, arrivals).0, [])
      case CloseStep(fd) => (Closed(s, fd), [])
  }

  function After(s: State, schedule: seq<Step>): (State, seq<(int, Event)>) {
    if schedule == [] then (s, [])
    else
      var (before, delivered) := After(s, schedule[..|schedule| - 1]);
      var (now, more) := Next(before, schedule[|schedule| - 1]);
      (now, delivered + more)
  }

  method Perform(shim: Shim, step: Step) returns (deliveries: seq<(int, Event)>)
    requires shim.Valid()
    modifies shim, shim.inputFds
    ensures shim.Valid() && (shim.View(), deliveries) == Next(old(shim.View()), step)
  {
    deliveries := [];
    if !Possible(shim.View(), step) {
      return;
    }
    match step {
      case OpenStep(fd) => shim.OpenEndpoint(fd);
      case RecordStep(fd) => var outcome := shim.RecordOpen(fd);
      case PushStep(fd, value) => shim.Push(fd, value);
      case GrabStep(fd) => var outcome := shim.Grab(fd);
      case ReleaseStep(fd, arrivals) => var outcome := shim.Release(fd, arrivals);
      case CloseStep(fd) => shim.Close(fd);
      case ReadStep(fd, count) =>
        var delivered := shim.Read(fd, count);
        deliveries := Deliveries(fd, delivered);
    }
  }

  /** Any run of the shim is a run of the state machine, delivery by delivery. */
  method Run(shim: Shim, schedule: seq<Step>) returns (deliveries: seq<(int, Event)>)
    requires shim.Valid()
    modifies shim, shim.inputFds
    ensures shim.Valid() && (shim.View(), deliveries) == After(old(shim.View()), schedule)
  {
    hide Next;
    deliveries := [];
    ghost var was := shim.View();
    assert schedule[..0] == [];
    for next := 0 to |schedule|
      invariant shim.Valid() && (shim.View(), deliveries) == After(was, schedule[..next])
    {
      assert schedule[..next + 1][..next] == schedule[..next] && schedule[..next + 1][next] == schedule[next];
      var delivered := Perform(shim, schedule[next]);
      deliveries := deliveries + delivered;
    }
    assert schedule[..|schedule|] == schedule;
  }

  // ---- No gesture is replayed: exactly when ----

  predicate NothingFor(moment: Moment, fd: int) {
    forall k | 0 <= k < |moment| :: moment[k].0 != fd
  }

  /** The queue of fd is drained in the i-th moment or later, but before the n-th. */
  predicate DrainedIn(slots: seq<int>, i: nat, n: nat, fd: int)
    requires n <= |slots|
  {
    exists j | i <= j < n :: slots[j] == fd + 1
  }

  /**
   What is left in the queue of fd by a release of owner's grab was not written under that grab: the queue is
   drained after everything that arrives in it, and if it is not drained at all nothing of the kind waits in it.
   */
  predicate Quiet(queue: seq<Event>, slots: seq<int>, arrivals: seq<Moment>, n: nat, fd: int, owner: int)
    requires n <= |slots| && n <= |arrivals|
  {
    && (DrainedIn(slots, 0, n, fd) || NoneOf(queue, owner))
    && forall i | 0 <= i < n :: NothingFor(arrivals[i], fd) || DrainedIn(slots, i + 1, n, fd)
  }

  /**
   What the users of the shim owe it. An owner may close without a release only if no other queue holds an
   event from under its grab; what is not known when a grab is released may hold none either, and while the
   queues are drained nothing may arrive in another queue unless it is still to be drained.
   */
  predicate Disciplined(s: State, step: Step) {
    match step
    case CloseStep(fd) => fd in s.queues && fd == s.grab ==> forall f | f in s.queues :: f != fd ==> NoneOf(s.queues[f], fd)
    case ReleaseStep(fd, arrivals) =>
      fd == s.grab && |arrivals| == |s.slots| ==>
        forall f | f in s.queues :: f != fd ==> Quiet(s.queues[f], s.slots, arrivals, |arrivals|, f, fd)
    case _ => true
  }

  lemma {:induction false} WrittenIs(moment: Moment, fd: int, owner: int)
    ensures forall i | 0 <= i < |Written(moment, fd, owner)| :: Written(moment, fd, owner)[i].owner == owner
    ensures Written(moment, fd, owner) == [] <==> NothingFor(moment, fd)
  {
    if moment != [] {
      WrittenIs(moment[..|moment| - 1], fd, owner);
    }
  }

  /** Both halves: what a release leaves in a queue is free of the owner's events exactly if it was quiet around it. */
  lemma {:induction false} DrainedIsQuiet(queue: seq<Event>, slots: seq<int>, arrivals: seq<Moment>, n: nat, fd: int,
                                          owner: int)
    requires n <= |slots| && n <= |arrivals|
    ensures NoneOf(Drained(queue, slots, arrivals, n, fd, owner), owner) <==> Quiet(queue, slots, arrivals, n, fd, owner)
  {
    if n > 0 {
      var m := n - 1;
      var written := Written(arrivals[m], fd, owner);
      var kept := if slots[m] == fd + 1 then [] else Drained(queue, slots, arrivals, m, fd, owner);
      hide NoneOf;
      hide Quiet;
      hide Written;
      WrittenIs(arrivals[m], fd, owner);
      DrainedIsQuiet(queue, slots, arrivals, m, fd, owner);
      NoneOfBoth(kept, written, owner);
      QuietStep(queue, slots, arrivals, n, fd, owner);
    }
  }

  lemma NoneOfBoth(a: seq<Event>, b: seq<Event>, owner: int)
    requires forall i | 0 <= i < |b| :: b[i].owner == owner
    ensures NoneOf(a + b, owner) <==> NoneOf(a, owner) && b == []
  {
    assert forall i | 0 <= i < |a| :: (a + b)[i] == a[i];
    if b != [] {
      assert (a + b)[|a|] == b[0];
    }
  }

  lemma QuietStep(queue: seq<Event>, slots: seq<int>, arrivals: seq<Moment>, n: nat, fd: int, owner: int)
    requires 0 < n <= |slots| && n <= |arrivals|
    ensures Quiet(queue, slots, arrivals, n, fd, owner) <==>
              && NothingFor(arrivals[n - 1], fd)
              && (slots[n - 1] == fd + 1 || Quiet(queue, slots, arrivals, n - 1, fd, owner))
  {
    hide NoneOf;
    hide NothingFor;
    var m := n - 1;
    forall i | 0 <= i <= m
      ensures DrainedIn(slots, i, n, fd) <==> slots[m] == fd + 1 || DrainedIn(slots, i, m, fd)
    {
      DrainedStep(slots, i, m, fd);
    }
    assert !DrainedIn(slots, n, n, fd);
    hide DrainedIn;
  }

  lemma DrainedStep(slots: seq<int>, i: nat, m: nat, fd: int)
    requires i <= m < |slots|
    ensures DrainedIn(slots, i, m + 1, fd) <==> slots[m] == fd + 1 || DrainedIn(slots, i, m, fd)
  {
    if slots[m] == fd + 1 {
      assert DrainedIn(slots, i, m + 1, fd);
    }
  }

  lemma {:induction false} DrainedStaysSettled(queue: seq<Event>, slots: seq<int>, arrivals: seq<Moment>, n: nat,
                                               fd: int, owner: int)
    requires n <= |slots| && n <= |arrivals| && AllSettled(queue, fd, owner)
    ensures AllSettled(Drained(queue, slots, arrivals, n, fd, owner), fd, owner)
  {
    if n > 0 {
      DrainedStaysSettled(queue, slots, arrivals, n - 1, fd, owner);
      WrittenIs(arrivals[n - 1], fd, owner);
    }
  }

  /** When a grab ends, what was held back for its sake is what matters. */
  lemma WhenTheGrabEnds(events: seq<Event>, fd: int, owner: int)
    requires AllSettled(events, fd, owner) && owner != NOBODY
    ensures AllSettled(events, fd, NOBODY) <==> fd == owner || NoneOf(events, owner)
  {
  }

  lemma CloseSettles(s: State, fd: int)
    requires Consistent(s) && Settled(s) && fd in s.queues
    ensures Settled(Closed(s, fd)) <==> Disciplined(s, CloseStep(fd))
  {
    hide Distinct;
    hide NoneOf;
    hide AllSettled;
    hide ReplaceFirst;
    if fd == s.grab {
      forall f | f in s.queues && f != fd
        ensures AllSettled(s.queues[f], f, NOBODY) <==> NoneOf(s.queues[f], fd)
      {
        WhenTheGrabEnds(s.queues[f], f, fd);
      }
      var now := Closed(s, fd).queues;
      assert forall f | f in s.queues && f != fd :: f in now && now[f] == s.queues[f];
      assert forall f | f in now :: f in s.queues && f != fd;
      if Settled(Closed(s, fd)) {
        forall f | f in s.queues && f != fd
          ensures NoneOf(s.queues[f], fd)
        {
          assert AllSettled(now[f], f, NOBODY);
        }
      }
    }
  }

  lemma ReleaseSettles(s: State, fd: int, arrivals: seq<Moment>)
    requires Consistent(s) && Settled(s) && IsInput(s, fd) && |arrivals| == |s.slots|
    ensures Settled(Released(s, fd, arrivals).0) <==> Disciplined(s, ReleaseStep(fd, arrivals))
  {
    hide Distinct;
    hide NoneOf;
    hide AllSettled;
    hide Drained;
    hide Quiet;
    if fd == s.grab {
      var n := |arrivals|;
      forall f | f in s.queues
        ensures AllSettled(Drained(s.queues[f], s.slots, arrivals, n, f, fd), f, NOBODY) <==>
                  f == fd || Quiet(s.queues[f], s.slots, arrivals, n, f, fd)
      {
        DrainedStaysSettled(s.queues[f], s.slots, arrivals, n, f, fd);
        WhenTheGrabEnds(Drained(s.queues[f], s.slots, arrivals, n, f, fd), f, fd);
        DrainedIsQuiet(s.queues[f], s.slots, arrivals, n, f, fd);
      }
      var now := Released(s, fd, arrivals).0.queues;
      assert now == Flushed(s, arrivals, n);
      assert forall f | f in s.queues :: f in now && now[f] == Drained(s.queues[f], s.slots, arrivals, n, f, fd);
      if Settled(Released(s, fd, arrivals).0) {
        forall f | f in s.queues && f != fd
          ensures Quiet(s.queues[f], s.slots, arrivals, n, f, fd)
        {
          assert AllSettled(now[f], f, NOBODY);
        }
      }
    }
  }

  lemma NextIsConsistent(s: State, step: Step)
    requires Consistent(s)
    ensures Consistent(Next(s, step).0)
  {
    if Possible(s, step) {
      match step
      case RecordStep(fd) => RecordedIsConsistent(s, fd);
      case CloseStep(fd) => ClosedIsConsistent(s, fd);
      case _ => hide Distinct;
    }
  }

  /** A step keeps everything settled exactly if it is disciplined. */
  lemma StepSettles(s: State, step: Step)
    requires Consistent(s) && Settled(s)
    ensures Possible(s, step) ==> (Settled(Next(s, step).0) <==> Disciplined(s, step))
    ensures !Possible(s, step) ==> Settled(Next(s, step).0)
  {
    hide Distinct;
    hide Drained;
    hide Quiet;
    hide ReplaceFirst;
    if Possible(s, step) {
      match step
      case CloseStep(fd) => CloseSettles(s, fd);
      case ReleaseStep(fd, arrivals) => ReleaseSettles(s, fd, arrivals);
      case _ =>
    }
  }

  lemma StepDelivers(s: State, step: Step, k: nat)
    requires Consistent(s) && Settled(s) && k < |Next(s, step).1|
    ensures MayReach(Next(s, step).1[k].1, Next(s, step).1[k].0)
  {
    hide Distinct;
  }

  lemma {:induction false} AfterStep(s: State, schedule: seq<Step>)
    requires schedule != []
    ensures var n := |schedule| - 1;
            After(s, schedule) == (Next(After(s, schedule[..n]).0, schedule[n]).0,
                                   After(s, schedule[..n]).1 + Next(After(s, schedule[..n]).0, schedule[n]).1)
  {
    hide Next;
  }

  lemma {:induction false} AfterIsConsistent(s: State, schedule: seq<Step>)
    requires Consistent(s)
    ensures Consistent(After(s, schedule).0)
  {
    hide Consistent;
    hide Next;
    if schedule != [] {
      var n := |schedule| - 1;
      AfterIsConsistent(s, schedule[..n]);
      NextIsConsistent(After(s, schedule[..n]).0, schedule[n]);
    }
  }

  /** Every step that can be taken is disciplined in the state that it meets. */
  ghost predicate AllDisciplined(s: State, schedule: seq<Step>) {
    forall k | 0 <= k < |schedule| ::
      Possible(After(s, schedule[..k]).0, schedule[k]) ==> Disciplined(After(s, schedule[..k]).0, schedule[k])
  }

  ghost predicate AlwaysSettled(s: State, schedule: seq<Step>) {
    forall k | 0 <= k <= |schedule| :: Settled(After(s, schedule[..k]).0)
  }

  lemma {:induction false} DisciplinedFront(s: State, schedule: seq<Step>)
    requires schedule != []
    ensures var n := |schedule| - 1;
            AllDisciplined(s, schedule) <==>
              && AllDisciplined(s, schedule[..n])
              && (Possible(After(s, schedule[..n]).0, schedule[n]) ==> Disciplined(After(s, schedule[..n]).0, schedule[n]))
  {
    hide After;
    hide Possible;
    hide Disciplined;
    var n := |schedule| - 1;
    assert forall k | 0 <= k < n :: schedule[..n][..k] == schedule[..k] && schedule[..n][k] == schedule[k];
  }

  lemma {:induction false} SettledFront(s: State, schedule: seq<Step>)
    requires schedule != []
    ensures AlwaysSettled(s, schedule) <==> AlwaysSettled(s, schedule[..|schedule| - 1]) && Settled(After(s, schedule).0)
  {
    hide After;
    hide Settled;
    var n := |schedule| - 1;
    assert schedule[..n + 1] == schedule;
    assert forall k | 0 <= k <= n :: schedule[..n][..k] == schedule[..k];
  }

  /** A run stays settled throughout exactly if every step of it is disciplined. */
  lemma {:induction false} SettledIffDisciplined(s: State, schedule: seq<Step>)
    requires Consistent(s) && Settled(s)
    ensures AlwaysSettled(s, schedule) <==> AllDisciplined(s, schedule)
  {
    hide Consistent;
    hide Settled;
    hide Next;
    hide Possible;
    hide Disciplined;
    if schedule == [] {
      assert schedule[..0] == schedule;
    } else {
      var n := |schedule| - 1;
      var front := schedule[..n];
      SettledIffDisciplined(s, front);
      DisciplinedFront(s, schedule);
      SettledFront(s, schedule);
      hide AllDisciplined;
      AfterIsConsistent(s, front);
      AfterStep(s, schedule);
      if AlwaysSettled(s, front) {
        assert front[..n] == front;
        assert Settled(After(s, front).0);
        StepSettles(After(s, front).0, schedule[n]);
      }
    }
  }

  /**
   Over a disciplined run, whatever a descriptor reads was written while nobody or it itself held the grab,
   so no gesture made under another grab is ever replayed.
   */
  lemma {:induction false} NothingIsReplayed(s: State, schedule: seq<Step>)
    requires Consistent(s) && Settled(s) && AllDisciplined(s, schedule)
    ensures Settled(After(s, schedule).0)
    ensures forall k | 0 <= k < |After(s, schedule).1| :: MayReach(After(s, schedule).1[k].1, After(s, schedule).1[k].0)
  {
    hide Consistent;
    hide Settled;
    hide Next;
    hide Possible;
    hide Disciplined;
    if schedule != [] {
      var n := |schedule| - 1;
      var front := schedule[..n];
      DisciplinedFront(s, schedule);
      hide AllDisciplined;
      NothingIsReplayed(s, front);
      AfterIsConsistent(s, front);
      AfterStep(s, schedule);
      hide After;
      var before := After(s, front).0;
      StepSettles(before, schedule[n]);
      forall k | 0 <= k < |Next(before, schedule[n]).1|
        ensures MayReach(Next(before, schedule[n]).1[k].1, Next(before, schedule[n]).1[k].0)
      {
        StepDelivers(before, schedule[n], k);
      }
    }
  }

  // ---- What happens without the discipline ----

  /** An unsettled event of a known descriptor is delivered wrongly by its next read, once nobody holds the grab. */
  lemma UnsettledIsReplayed(s: State, fd: int, i: nat)
    requires Consistent(s) && s.grab == NOBODY && IsInput(s, fd) && i < |s.queues[fd]| && !MayReach(s.queues[fd][i], fd)
    ensures var delivered := Next(s, ReadStep(fd, |s.queues[fd]|)).1;
            i < |delivered| && delivered[i] == (fd, s.queues[fd][i]) && !MayReach(delivered[i].1, fd)
  {
    hide Distinct;
  }

  /** Somebody reads what was written under the grab of somebody else. */
  ghost predicate Replays(s: State, schedule: seq<Step>) {
    exists k | 0 <= k < |After(s, schedule).1| :: !MayReach(After(s, schedule).1[k].1, After(s, schedule).1[k].0)
  }

  /** One more disciplined step. */
  lemma DisciplinedMore(s: State, schedule: seq<Step>, step: Step)
    requires AllDisciplined(s, schedule) && Disciplined(After(s, schedule).0, step)
    ensures AllDisciplined(s, schedule + [step])
    ensures After(s, schedule + [step]) ==
              (Next(After(s, schedule).0, step).0, After(s, schedule).1 + Next(After(s, schedule).0, step).1)
  {
    hide AllDisciplined;
    hide Disciplined;
    assert (schedule + [step])[..|schedule|] == schedule;
    DisciplinedFront(s, schedule + [step]);
    AfterStep(s, schedule + [step]);
  }

  lemma ReadReplays(s: State, schedule: seq<Step>, fd: int, i: nat)
    requires AllDisciplined(s, schedule)
    requires var now := After(s, schedule).0;
             && Consistent(now) && now.grab == NOBODY && IsInput(now, fd) && fd in now.queues
             && i < |now.queues[fd]| && !MayReach(now.queues[fd][i], fd)
    ensures var more := schedule + [ReadStep(fd, |After(s, schedule).0.queues[fd]|)];
            AllDisciplined(s, more) && Replays(s, more)
  {
    hide AllDisciplined;
    hide After;
    hide Next;
    hide Consistent;
    hide Replays;
    hide MayReach;
    var now, delivered := After(s, schedule).0, After(s, schedule).1;
    var step := ReadStep(fd, |now.queues[fd]|);
    DisciplinedMore(s, schedule, step);
    UnsettledIsReplayed(now, fd, i);
    assert (delivered + Next(now, step).1)[|delivered| + i] == Next(now, step).1[i];
    ReplayedAt(s, schedule + [step], |delivered| + i);
  }

  lemma ReplayedAt(s: State, schedule: seq<Step>, k: nat)
    requires k < |After(s, schedule).1| && !MayReach(After(s, schedule).1[k].1, After(s, schedule).1[k].0)
    ensures Replays(s, schedule)
  {
  }

  /** A descriptor that the shim does not know yet is recorded first; it keeps what waits for it. */
  lemma RecordReplays(s: State, schedule: seq<Step>, fd: int, i: nat) returns (more: seq<Step>)
    requires AllDisciplined(s, schedule)
    requires var now := After(s, schedule).0;
             && Consistent(now) && now.grab == NOBODY && fd in now.queues && !IsInput(now, fd) && 0 in now.slots
             && i < |now.queues[fd]| && !MayReach(now.queues[fd][i], fd)
    ensures AllDisciplined(s, more) && Replays(s, more)
  {
    var now := After(s, schedule).0;
    var step := RecordStep(fd);
    DisciplinedMore(s, schedule, step);
    NextIsConsistent(now, step);
    SlotTaken(now.slots, fd + 1);
    hide AllDisciplined;
    hide Replays;
    hide After;
    hide Consistent;
    hide ReplaceFirst;
    ReadReplays(s, schedule + [step], fd, i);
    more := schedule + [step] + [ReadStep(fd, |After(s, schedule + [step]).0.queues[fd]|)];
  }

  /** While nobody holds the grab, what is not settled is replayed after three disciplined steps at most. */
  lemma UnsettledReplays(s: State) returns (schedule: seq<Step>)
    requires Consistent(s) && s.grab == NOBODY && !Settled(s)
    ensures AllDisciplined(s, schedule) && Replays(s, schedule)
  {
    var fd :| fd in s.queues && !AllSettled(s.queues[fd], fd, NOBODY);
    var i :| 0 <= i < |s.queues[fd]| && !MayReach(s.queues[fd][i], fd);
    assert After(s, []) == (s, []);
    if IsInput(s, fd) {
      ReadReplays(s, [], fd, i);
      schedule := [] + [ReadStep(fd, |s.queues[fd]|)];
    } else if 0 in s.slots {
      schedule := RecordReplays(s, [], fd, i);
    } else {
      var other := s.slots[0] - 1;
      var step := CloseStep(other);
      DisciplinedMore(s, [], step);
      NextIsConsistent(s, step);
      SlotIsFree(s, other);
      SlotFreed(s.slots, other + 1);
      hide AllDisciplined;
      hide Replays;
      hide Consistent;
      hide ReplaceFirst;
      schedule := RecordReplays(s, [] + [step], fd, i);
    }
  }

  lemma SlotIsFree(s: State, fd: int)
    requires Consistent(s) && IsInput(s, fd)
    ensures 0 in Closed(s, fd).slots
  {
    var k := FirstOf(s.slots, fd + 1);
    ReplacedAt(s.slots, fd + 1, 0, k);
    assert s.slots[k := 0][k] == 0;
  }

  /** An undisciplined step ends a grab. */
  lemma UndisciplinedEndsTheGrab(s: State, step: Step)
    requires Possible(s, step) && !Disciplined(s, step)
    ensures Next(s, step).0.grab == NOBODY
  {
    hide Quiet;
    hide Drained;
    hide NoneOf;
  }

  /**
   The discipline is what it takes: a step is disciplined exactly if no disciplined run after it, whatever
   it does, delivers what was written under the grab of another.
   */
  lemma DisciplinedIffNothingIsReplayed(s: State, step: Step)
    requires Consistent(s) && Settled(s) && Possible(s, step)
    ensures Disciplined(s, step) <==>
              forall schedule | AllDisciplined(Next(s, step).0, schedule) :: !Replays(Next(s, step).0, schedule)
  {
    hide Consistent;
    hide Settled;
    hide Next;
    hide AllDisciplined;
    NextIsConsistent(s, step);
    StepSettles(s, step);
    var now := Next(s, step).0;
    if Disciplined(s, step) {
      forall schedule | AllDisciplined(now, schedule)
        ensures !Replays(now, schedule)
      {
        NothingIsReplayed(now, schedule);
      }
    } else {
      UndisciplinedEndsTheGrab(s, step);
      var schedule := UnsettledReplays(now);
    }
  }

  /** An owner that closes without releasing: the gesture made under its grab is replayed. */
  lemma CloseReplays(s: State, owner: int, other: int, value: nat)
    requires Consistent(s) && s.grab == owner && owner != NOBODY && owner != other && IsInput(s, other)
    ensures var pushed := Next(s, PushStep(other, value)).0;
            var closed := Next(pushed, CloseStep(owner)).0;
            var delivered := Next(closed, ReadStep(other, |s.queues[other]| + 1)).1;
            delivered != [] && delivered[|delivered| - 1] == (other, Event(value, owner))
  {
    SlotFreed(s.slots, owner + 1);
    hide Distinct;
    hide ReplaceFirst;
  }

  /** A descriptor that is recorded only after the release: likewise. */
  lemma HalfOpenReplays(s: State, owner: int, other: int, value: nat)
    requires Consistent(s) && s.grab == owner && owner != NOBODY && owner != other
    requires other in s.queues && !IsInput(s, other) && 0 in s.slots
    ensures var pushed := Next(s, PushStep(other, value)).0;
            var released := Next(pushed, ReleaseStep(owner, seq(MAX_INPUT_FDS, _ => []))).0;
            var recorded := Next(released, RecordStep(other)).0;
            var delivered := Next(recorded, ReadStep(other, |s.queues[other]| + 1)).1;
            delivered != [] && delivered[|delivered| - 1] == (other, Event(value, owner))
  {
    var arrivals := seq(MAX_INPUT_FDS, _ => []);
    var pushed := Next(s, PushStep(other, value)).0;
    UnknownIsNotDrained(pushed.queues[other], s.slots, arrivals, MAX_INPUT_FDS, other, owner);
    SlotTaken(s.slots, other + 1);
    hide Distinct;
    hide ReplaceFirst;
    hide Drained;
  }

  lemma {:induction false} UnknownIsNotDrained(queue: seq<Event>, slots: seq<int>, arrivals: seq<Moment>, n: nat,
                                               fd: int, owner: int)
    requires n <= |slots| && n <= |arrivals| && fd + 1 !in slots && forall i | 0 <= i < n :: arrivals[i] == []
    ensures Drained(queue, slots, arrivals, n, fd, owner) == queue
  {
    if n > 0 {
      UnknownIsNotDrained(queue, slots, arrivals, n - 1, fd, owner);
    }
  }

  /** An event that arrives after its queue was drained but before the grab ends: likewise. */
  lemma LateArrivalReplays(s: State, owner: int, other: int, value: nat)
    requires Consistent(s) && s.grab == owner && owner != NOBODY && owner != other && IsInput(s, other)
    ensures var late := seq(MAX_INPUT_FDS, i => if i == MAX_INPUT_FDS - 1 then [(other, value)] else []);
            var released := Next(s, ReleaseStep(owner, late)).0;
            var delivered := Next(released, ReadStep(other, |released.queues[other]|)).1;
            delivered != [] && delivered[|delivered| - 1] == (other, Event(value, owner))
  {
    var late: seq<Moment> := seq(MAX_INPUT_FDS, i => if i == MAX_INPUT_FDS - 1 then [(other, value)] else []);
    var moment := late[MAX_INPUT_FDS - 1];
    assert moment[..0] == [] && Written(moment[..0], other, owner) == [];
    assert Written(moment, other, owner) == [Event(value, owner)];
    var released := Next(s, ReleaseStep(owner, late)).0;
    NextIsConsistent(s, ReleaseStep(owner, late));
    hide Distinct;
    hide Written;
    UnsettledIsReplayed(released, other, |released.queues[other]| - 1);
  }
}
