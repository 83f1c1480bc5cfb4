/**
 The player's virtual display: while the sidecar owns the panel, the player's page flips and
 queries are answered as if the panel were still the player's alone.
 */
module VirtualDisplay {
  import opened Bytes

  datatype Fault = BadAddress | InvalidArgument

  /** What the player asks; a missing argument is a null pointer. */
  datatype Request = Pan(offset: Option<nat>) | Query(argument: bool)

  datatype Answer = Done | Reported(offset: nat) | Failed(fault: Fault)

  /** A frame buffer device of `total` lines that shows `height` of them from `offset` on. */
  datatype Panel = Panel(offset: nat, height: nat, total: nat) {
    function Limit(): nat { if total > height then total - height else 0 }

    predicate Valid() { offset <= Limit() }
  }

  /** The device itself, which is what a player without a sidecar talks to. */
  function Serve(panel: Panel, request: Request): (Panel, Answer) {
    match request
    case Pan(None) => (panel, Failed(BadAddress))
    case Pan(Some(offset)) =>
      if offset <= panel.Limit() then (panel.(offset := offset), Done) else (panel, Failed(InvalidArgument))
    case Query(false) => (panel, Failed(BadAddress))
    case Query(true) => (panel, Reported(panel.offset))
  }

  /** A whole sequence of requests, each with its answer. */
  function ServeAll(panel: Panel, requests: seq<Request>): (r: (Panel, seq<Answer>))
    ensures |r.1| == |requests|
  {
    if requests == [] then (panel, [])
    else
      var (before, answers) := ServeAll(panel, requests[..|requests| - 1]);
      var (after, answer) := Serve(before, requests[|requests| - 1]);
      (after, answers + [answer])
  }

  /** The last page flip that was accepted, or where the panel stood before. */
  function LastAccepted(panel: Panel, requests: seq<Request>): nat {
    if requests == [] then panel.offset
    else
      match requests[|requests| - 1]
      case Pan(Some(offset)) => if offset <= panel.Limit() then offset else LastAccepted(panel, requests[..|requests| - 1])
      case _ => LastAccepted(panel, requests[..|requests| - 1])
  }

  lemma {:induction false} ServeAllOffset(panel: Panel, requests: seq<Request>)
    ensures var after := ServeAll(panel, requests).0;
            after == panel.(offset := LastAccepted(panel, requests)) && (panel.Valid() ==> after.Valid())
  {
    if requests != [] {
      ServeAllOffset(panel, requests[..|requests| - 1]);
    }
  }

  /** struct virtual_display_state, beside the panel that it stands in for. */
  class Hook {
    var active: bool
    var yoffset: nat
    var yres: nat
    var yresVirtual: nat
    var suppressedPans: nat
    var panel: Panel

    ghost predicate Valid()
      reads this
    {
      panel.Valid() && (active ==> yres == panel.height && yresVirtual == panel.total && yoffset <= panel.Limit())
    }

    /** The panel as the player sees it: the virtual offset while active, the panel's own otherwise. */
    ghost function Seen(): Panel
      reads this
    {
      if active then panel.(offset := yoffset) else panel
    }

    constructor (panel: Panel)
      requires panel.Valid()
      ensures Valid() && !active && Seen() == panel && this.panel == panel
    {
      active, yoffset, yres, yresVirtual, suppressedPans, this.panel := false, 0, 0, 0, 0, panel;
    }

    /** forward_ioctl */
    method Forward(request: Request) returns (answer: Answer)
      requires Valid()
      modifies this`panel
      ensures (panel, answer) == Serve(old(panel), request) && Valid()
    {
      answer := Serve(panel, request).1;
      panel := Serve(panel, request).0;
    }

    /** The snapshot of the callback and virtual_display_begin, with no forwarded pan between them. */
    method Begin()
      requires Valid() && !active
      modifies this
      ensures Valid() && active && Seen() == old(Seen()) && panel == old(panel) && suppressedPans == 0
    {
      yoffset, yres, yresVirtual, suppressedPans := panel.offset, panel.height, panel.total, 0;
      active := true;
    }

    /** virtual_display_finish, with the offset of the snapshot for a display that is not active. */
    method Finish(snapshot: nat) returns (offset: nat)
      requires Valid() && (active || snapshot <= panel.Limit())
      modifies this
      ensures Valid() && !active && offset == panel.offset
      ensures old(active) ==> panel == old(Seen())
      ensures !old(active) ==> panel == old(panel).(offset := snapshot)
    {
      offset := if active then yoffset else snapshot;
      var answer := Forward(Pan(Some(offset)));
      active := false;
    }

    /** virtual_display_ioctl: while active, what the device would answer, without touching it. */
    method Filter(request: Request) returns (handled: bool, answer: Answer)
      requires Valid()
      modifies this`yoffset, this`suppressedPans
      ensures Valid() && handled == active
      ensures active ==> (Seen(), answer) == Serve(old(Seen()), request)
      ensures !active ==> yoffset == old(yoffset)
      ensures suppressedPans == old(suppressedPans) + if active && request.Pan? && answer == Done then 1 else 0
    {
      handled, answer := false, Done;
      if !active {
        return;
      }
      match request {
        case Pan(argument) =>
          handled := true;
          if argument.None? {
            return true, Failed(BadAddress);
          }
          var maximum := if yresVirtual > yres then yresVirtual - yres else 0;
          if argument.value > maximum {
            return true, Failed(InvalidArgument);
          }
          yoffset := argument.value;
          suppressedPans := suppressedPans + 1;
        case Query(argument) =>
          handled := true;
          answer := Serve(panel, request).1;
          if answer.Reported? && argument {
            answer := Reported(yoffset);
          }
      }
    }
  }

  /** One step of the two processes. A player's request that is not handled is forwarded in a later step. */
  datatype Step =
    | Enter(thread: nat, request: Request)
    | Deliver(thread: nat)
    | SidecarPan(offset: nat)
    | BeginStep
    | FinishStep

  /** A request that was answered, and the thread that made it. */
  datatype Served = Served(thread: nat, request: Request, answer: Answer)

  /** What the player can tell: the panel as it sees it, and its threads that wait for the device. */
  datatype View = View(panel: Panel, active: bool, inFlight: map<nat, Request>)

  /**
   The player's side of a step, on a panel that is its own. A thread that waits for the device makes no
   request, and the display begins with no forwarded request on its way.
   */
  function Next(v: View, step: Step): (View, seq<Served>) {
    match step
    case Enter(thread, request) =>
      if thread in v.inFlight then (v, [])
      else if v.active then
        var (panel, answer) := Serve(v.panel, request);
        (v.(panel := panel), [Served(thread, request, answer)])
      else (v.(inFlight := v.inFlight[thread := request]), [])
    case Deliver(thread) =>
      if thread in v.inFlight then
        var (panel, answer) := Serve(v.panel, v.inFlight[thread]);
        (View(panel, v.active, v.inFlight - {thread}), [Served(thread, v.inFlight[thread], answer)])
      else (v, [])
    case SidecarPan(_) => (v, [])
    case BeginStep => (v.(active := v.active || v.inFlight == map[]), [])
    case FinishStep => (v.(active := false), [])
  }

  function After(v: View, schedule: seq<Step>): (View, seq<Served>) {
    if schedule == [] then (v, [])
    else
      var (before, served) := After(v, schedule[..|schedule| - 1]);
      var (now, more) := Next(before, schedule[|schedule| - 1]);
      (now, served + more)
  }

  /**
   Where the hardware shows a page while the display is virtual: at the last place that the sidecar asked
   for and the device accepted, or, as long as there was none, where the panel stood when the display began.
   */
  function ShownOffset(v: View, schedule: seq<Step>): nat {
    if schedule == [] then v.panel.offset
    else
      var front, last := schedule[..|schedule| - 1], schedule[|schedule| - 1];
      var before := After(v, front).0;
      if !before.active then before.panel.offset
      else if last.SidecarPan? && last.offset <= before.panel.Limit() then last.offset
      else ShownOffset(v, front)
  }

  lemma {:induction false} ShownStep(v: View, schedule: seq<Step>)
    requires schedule != []
    ensures var n := |schedule| - 1;
            var before, last := After(v, schedule[..n]).0, schedule[n];
            ShownOffset(v, schedule) ==
              if !before.active then before.panel.offset
              else if last.SidecarPan? && last.offset <= before.panel.Limit() then last.offset
              else ShownOffset(v, schedule[..n])
  {
    hide After;
  }

  function Requests(served: seq<Served>): (r: seq<Request>)
    ensures |r| == |served|
  {
    seq(|served|, i requires 0 <= i < |served| => served[i].request)
  }

  function Answers(served: seq<Served>): (r: seq<Answer>)
    ensures |r| == |served|
  {
    seq(|served|, i requires 0 <= i < |served| => served[i].answer)
  }

  /** The requests of one thread that were served, in order. */
  function Of(served: seq<Served>, thread: nat): seq<Request> {
    if served == [] then []
    else
      var last := served[|served| - 1];
      Of(served[..|served| - 1], thread) + if last.thread == thread then [last.request] else []
  }

  /** The requests that one thread makes, in order. */
  function Asked(v: View, schedule: seq<Step>, thread: nat): seq<Request> {
    if schedule == [] then []
    else
      var front, last := schedule[..|schedule| - 1], schedule[|schedule| - 1];
      Asked(v, front, thread) +
      if last.Enter? && last.thread == thread && thread !in After(v, front).0.inFlight then [last.request] else []
  }

  function Waiting(v: View, thread: nat): seq<Request> {
    if thread in v.inFlight then [v.inFlight[thread]] else []
  }

  lemma {:induction false} OfMore(served: seq<Served>, more: seq<Served>, thread: nat)
    requires |more| <= 1
    ensures Of(served + more, thread) == Of(served, thread) + Of(more, thread)
  {
    if more == [] {
      assert served + more == served;
    } else {
      assert (served + more)[..|served|] == served;
      assert more[..0] == [];
    }
  }

  lemma {:induction false} AfterStep(v: View, schedule: seq<Step>)
    requires schedule != []
    ensures var n := |schedule| - 1;
            After(v, schedule) == (Next(After(v, schedule[..n]).0, schedule[n]).0,
                                   After(v, schedule[..n]).1 + Next(After(v, schedule[..n]).0, schedule[n]).1)
  {
    hide Next;
  }

  lemma Regroup(first: seq<Request>, asked: seq<Request>, ask: seq<Request>, done: seq<Request>, waits: seq<Request>,
                more: seq<Request>, stillWaits: seq<Request>)
    requires first + asked == done + waits && more + stillWaits == waits + ask
    ensures first + (asked + ask) == (done + more) + stillWaits
  {
    assert first + (asked + ask) == (first + asked) + ask == done + (waits + ask) == done + (more + stillWaits);
  }

  /** Every request of a thread is answered, in the order in which it was made, but for the one on its way. */
  lemma {:induction false} ProgramOrder(v: View, schedule: seq<Step>, thread: nat)
    ensures Waiting(v, thread) + Asked(v, schedule, thread) == Of(After(v, schedule).1, thread) + Waiting(After(v, schedule).0, thread)
  {
    if schedule != [] {
      var n := |schedule| - 1;
      var (before, served) := After(v, schedule[..n]);
      var more := Next(before, schedule[n]).1;
      ProgramOrder(v, schedule[..n], thread);
      AfterStep(v, schedule);
      OfMore(served, more, thread);
      OfStep(before, schedule[n], thread);
      hide After;
      hide Next;
      hide Of;
      hide Waiting;
      var ask := if schedule[n].Enter? && schedule[n].thread == thread && thread !in before.inFlight then [schedule[n].request] else [];
      Regroup(Waiting(v, thread), Asked(v, schedule[..n], thread), ask, Of(served, thread), Waiting(before, thread),
              Of(more, thread), Waiting(Next(before, schedule[n]).0, thread));
    }
  }

  lemma {:induction false} OrderFromStart(panel: Panel, schedule: seq<Step>, thread: nat)
    ensures var start := View(panel, false, map[]);
            Of(After(start, schedule).1, thread) + Waiting(After(start, schedule).0, thread) == Asked(start, schedule, thread)
  {
    var start := View(panel, false, map[]);
    ProgramOrder(start, schedule, thread);
    assert Waiting(start, thread) == [];
  }

  lemma {:induction false} OfStep(v: View, step: Step, thread: nat)
    ensures var (now, more) := Next(v, step);
            && |more| <= 1
            && Of(more, thread) + Waiting(now, thread) == Waiting(v, thread) +
                 if step.Enter? && step.thread == thread && thread !in v.inFlight then [step.request] else []
  {
    var more := Next(v, step).1;
    if more != [] {
      assert more[..0] == [];
    }
  }

  lemma NextServes(v: View, step: Step)
    ensures var (now, more) := Next(v, step);
            && |more| <= 1 && (more == [] ==> now.panel == v.panel)
            && (more != [] ==> Serve(v.panel, more[0].request) == (now.panel, more[0].answer))
  {
    hide Serve;
  }

  lemma OneMore(served: seq<Served>, more: seq<Served>)
    requires |more| <= 1
    ensures more == [] ==> served + more == served
    ensures more != [] ==>
              && Requests(served + more) == Requests(served) + [more[0].request]
              && Answers(served + more) == Answers(served) + [more[0].answer]
  {
  }

  lemma NothingHappened(v: View)
    ensures After(v, []) == (v, []) && ServeAll(v.panel, Requests([])) == (v.panel, Answers([]))
  {
  }

  /** All requests together are served as by a panel of the player's own. */
  lemma {:induction false} ServedAsAlone(v: View, schedule: seq<Step>)
    ensures ServeAll(v.panel, Requests(After(v, schedule).1)) == (After(v, schedule).0.panel, Answers(After(v, schedule).1))
  {
    hide After;
    hide Next;
    hide Serve;
    hide ServeAll;
    hide Requests;
    hide Answers;
    if schedule == [] {
      NothingHappened(v);
    } else {
      var n := |schedule| - 1;
      var before, served := After(v, schedule[..n]).0, After(v, schedule[..n]).1;
      var more := Next(before, schedule[n]).1;
      ServedAsAlone(v, schedule[..n]);
      AfterStep(v, schedule);
      NextServes(before, schedule[n]);
      OneMore(served, more);
      if more != [] {
        Serving(v.panel, Requests(served), more[0].request);
      }
    }
  }

  /**
   Every interleaving of player threads, the sidecar, begin and finish: the player is served exactly
   as by a panel of its own, thread by thread in order, and when the sidecar is gone the panel stands
   where the player left it.
   */
  method Run(hook: Hook, schedule: seq<Step>) returns (served: seq<Served>, inFlight: map<nat, Request>)
    requires hook.Valid() && !hook.active
    modifies hook
    ensures hook.Valid()
    ensures (View(hook.Seen(), hook.active, inFlight), served) == After(View(old(hook.panel), false, map[]), schedule)
    ensures ServeAll(old(hook.panel), Requests(served)) == (hook.Seen(), Answers(served))
    ensures forall thread ::
              Of(served, thread) + Waiting(View(hook.Seen(), hook.active, inFlight), thread) ==
              Asked(View(old(hook.panel), false, map[]), schedule, thread)
    ensures hook.Seen().offset == LastAccepted(old(hook.panel), Requests(served))
    ensures !hook.active ==> hook.panel.offset == LastAccepted(old(hook.panel), Requests(served))
    ensures hook.active ==> hook.panel.offset == ShownOffset(View(old(hook.panel), false, map[]), schedule)
  {
    hide ShownOffset;
    hide Of;
    hide Asked;
    hide Waiting;
    hide ServeAll;
    hide LastAccepted;
    served, inFlight := [], map[];
    ghost var start := View(hook.panel, false, map[]);
    assert schedule[..0] == [];
    for next := 0 to |schedule|
      invariant hook.Valid() && (hook.active ==> inFlight == map[])
      invariant (View(hook.Seen(), hook.active, inFlight), served) == After(start, schedule[..next])
      invariant hook.active ==> hook.panel.offset == ShownOffset(start, schedule[..next])
    {
      assert schedule[..next + 1][..next] == schedule[..next] && schedule[..next + 1][next] == schedule[next];
      AfterStep(start, schedule[..next + 1]);
      ShownStep(start, schedule[..next + 1]);
      assert served + [] == served;
      match schedule[next] {
        case Enter(thread, request) =>
          if thread !in inFlight {
            var handled, answer := hook.Filter(request);
            if handled {
              served := served + [Served(thread, request, answer)];
            } else {
              inFlight := inFlight[thread := request];
            }
          }
        case Deliver(thread) =>
          if thread in inFlight {
            var answer := hook.Forward(inFlight[thread]);
            served := served + [Served(thread, inFlight[thread], answer)];
            inFlight := inFlight - {thread};
          }
        case SidecarPan(offset) =>
          if hook.active {
            SidecarIsUnseen(hook, offset);
            hook.panel := Serve(hook.panel, Pan(Some(offset))).0;
          }
        case BeginStep =>
          if !hook.active && inFlight == map[] {
            hook.Begin();
          }
        case FinishStep =>
          if hook.active {
            var offset := hook.Finish(0);
          }
      }
    }
    assert schedule[..|schedule|] == schedule;
    ServedAsAlone(start, schedule);
    ServeAllOffset(start.panel, Requests(served));
    forall thread
      ensures Of(served, thread) + Waiting(View(hook.Seen(), hook.active, inFlight), thread) == Asked(start, schedule, thread)
    {
      OrderFromStart(start.panel, schedule, thread);
    }
  }

  lemma {:induction false} Serving(panel: Panel, requests: seq<Request>, request: Request)
    ensures var (before, answers) := ServeAll(panel, requests);
            var (after, answer) := Serve(before, request);
            ServeAll(panel, requests + [request]) == (after, answers + [answer])
  {
    assert (requests + [request])[..|requests|] == requests;
  }

  /** What the sidecar does to the panel leaves the player's view alone. */
  lemma SidecarIsUnseen(hook: Hook, offset: nat)
    requires hook.Valid() && hook.active
    ensures var panel := Serve(hook.panel, Pan(Some(offset))).0;
            panel.Valid() && panel.(offset := hook.yoffset) == hook.Seen()
  {
  }
}
