/**
 The launcher callback of the player: it takes the frame buffer and the touch screen for the
 sidecar and gives them back, whatever fails on the way.
 */
module Callback {
  import opened Bytes
  import opened VirtualDisplay

  datatype Device = FrameBuffer | Input(index: nat) | Other

  /** An open file description; descriptors that were duplicated share one. */
  datatype Description = Description(id: nat, device: Device)

  type Descriptors = map<int, Description>

  /** What an input device says about itself: its name and its absolute axes. */
  datatype InputDevice = InputDevice(name: string, axes: set<nat>)

  /** What the frame buffer says about itself besides its height, its lines and its memory. */
  datatype Screen = Screen(width: nat, bits: nat, lineLength: nat)

  /** How the sidecar ended. */
  datatype Exit = Exited(status: byte) | Killed

  /** What the sidecar starts with: two descriptors as arguments, all that it has open, and who holds the grabs then. */
  datatype Sidecar = Sidecar(framebuffer: int, touch: int, descriptors: Descriptors, grabs: map<nat, Description>)

  const NO_DESCRIPTOR := -1
  const INPUT_SCAN_LIMIT := 8
  const ABS_X := 0x00
  const ABS_Y := 0x01
  const ABS_MT_POSITION_X := 0x35
  const ABS_MT_POSITION_Y := 0x36
  const STDERR := 2
  const FRAMEBUFFER_MAX_BYTES := 32 * 1024 * 1024
  const EXEC_FAILED: byte := 127
  const ROUTE_WIFI := 21
  const ROUTE_BLUETOOTH := 22

  /** The player's process as the callback finds it. Acquisitions may fail at any time, which is counted; releases do not. */
  class Process {
    const inputs: map<nat, InputDevice>
    const screen: Screen
    var descriptors: Descriptors
    // who holds the grab of an input device
    var grabs: map<nat, Description>
    var frame: seq<byte>
    var mappings: nat
    var nextId: nat
    var callbackActive: bool
    // how many calls have failed for no reason in the state
    var faults: nat
    const hook: Hook

    ghost predicate Valid()
      reads this, hook
    {
      && hook.Valid()
      && (forall fd | fd in descriptors :: fd >= 0 && descriptors[fd].id < nextId)
      && (forall d | d in grabs :: grabs[d].id < nextId && grabs[d].device == Input(d))
    }

    constructor (hook: Hook, inputs: map<nat, InputDevice>, screen: Screen, frame: seq<byte>)
      requires hook.Valid()
      ensures Valid() && this.hook == hook && this.inputs == inputs && this.screen == screen && this.frame == frame
      ensures descriptors == map[] && grabs == map[] && !callbackActive && mappings == 0 && faults == 0
    {
      this.hook, this.inputs, this.screen, this.frame := hook, inputs, screen, frame;
      descriptors, grabs, mappings, nextId, callbackActive, faults := map[], map[], 0, 0, false, 0;
    }

    /** A call that may fail for reasons that are not modelled. */
    method Attempt() returns (ok: bool)
      modifies this`faults
      ensures faults == old(faults) + if ok then 0 else 1
    {
      ok := *;
      if !ok {
        faults := faults + 1;
      }
    }

    method AnyFree() returns (fd: int)
      requires forall f | f in descriptors :: f >= 0
      ensures fd >= 0 && fd !in descriptors
    {
      ghost var bound := SomeBound(descriptors.Keys);
      assert bound !in descriptors.Keys;
      fd :| fd >= 0 && fd !in descriptors;
    }

    /** open: a new description of a device that is there, or a failure */
    method Open(device: Device) returns (fd: int)
      requires Valid()
      modifies this`descriptors, this`nextId, this`faults
      ensures Valid() && fd >= NO_DESCRIPTOR && nextId >= old(nextId) && faults >= old(faults)
      ensures faults == old(faults) ==> (fd >= 0 <==> device.Input? ==> device.index in inputs)
      ensures fd >= 0 && device.Input? ==> device.index in inputs
      ensures fd == NO_DESCRIPTOR ==> descriptors == old(descriptors)
      ensures fd >= 0 ==>
                && fd !in old(descriptors) && descriptors == old(descriptors)[fd := Description(old(nextId), device)]
                && nextId == old(nextId) + 1
    {
      if device.Input? && device.index !in inputs {
        return NO_DESCRIPTOR;
      }
      var created := Attempt();
      if !created {
        return NO_DESCRIPTOR;
      }
      fd := AnyFree();
      descriptors := descriptors[fd := Description(nextId, device)];
      nextId := nextId + 1;
    }

    /** dup and fcntl(F_DUPFD): another descriptor of the same description, or a failure */
    method Duplicate(source: int) returns (fd: int)
      requires Valid()
      modifies this`descriptors, this`faults
      ensures Valid() && fd >= NO_DESCRIPTOR && faults >= old(faults)
      ensures faults == old(faults) ==> (fd >= 0 <==> source in old(descriptors))
      ensures fd == NO_DESCRIPTOR ==> descriptors == old(descriptors)
      ensures fd >= 0 ==>
                && source in old(descriptors) && fd !in old(descriptors)
                && descriptors == old(descriptors)[fd := old(descriptors)[source]]
    {
      if source !in descriptors {
        return NO_DESCRIPTOR;
      }
      var duplicated := Attempt();
      if !duplicated {
        return NO_DESCRIPTOR;
      }
      fd := AnyFree();
      descriptors := descriptors[fd := descriptors[source]];
    }

    /** close: the last descriptor of a description takes its grabs along */
    method Close(fd: int)
      requires Valid() && fd in descriptors
      modifies this`descriptors, this`grabs
      ensures Valid() && descriptors == old(descriptors) - {fd}
      ensures grabs == if old(descriptors)[fd] in (old(descriptors) - {fd}).Values then old(grabs)
                       else Ungrabbed(old(grabs), old(descriptors)[fd])
    {
      var description := descriptors[fd];
      descriptors := descriptors - {fd};
      if description !in descriptors.Values {
        grabs := Ungrabbed(grabs, description);
      }
    }

    /** EVIOCGRAB 1; `sure` is a call that gives a grab back */
    method Grab(fd: int, index: nat, sure: bool) returns (ok: bool)
      requires Valid() && fd in descriptors && descriptors[fd].device == Input(index)
      modifies this`grabs, this`faults
      ensures Valid() && faults >= old(faults)
      ensures ok ==> index !in old(grabs) && grabs == old(grabs)[index := descriptors[fd]]
      ensures !ok ==> grabs == old(grabs)
      ensures sure ==> faults == old(faults)
      ensures faults == old(faults) ==> (ok <==> index !in old(grabs))
    {
      if index in grabs {
        return false;
      }
      if !sure {
        var taken := Attempt();
        if !taken {
          return false;
        }
      }
      grabs := grabs[index := descriptors[fd]];
      return true;
    }

    /** EVIOCGRAB 0 */
    method Ungrab(fd: int, index: nat) returns (ok: bool)
      requires Valid() && fd in descriptors
      modifies this`grabs
      ensures Valid() && (ok <==> index in old(grabs) && old(grabs)[index] == descriptors[fd])
      ensures grabs == if ok then old(grabs) - {index} else old(grabs)
    {
      ok := index in grabs && grabs[index] == descriptors[fd];
      if ok {
        grabs := grabs - {index};
      }
    }

    // ---- Touch ----

    /**
     transfer_stock_grab, for any listing of /proc/self/fd: either the grab moves from a description
     of this process to the fresh one, and a duplicate of the old one is kept, or nothing changes. Unless
     a call fails it moves exactly if the listing has a descriptor of the one that holds it.
     */
    method TransferStockGrab(own: int, index: nat, listing: seq<int>) returns (retained: int)
      requires Valid() && own in descriptors && descriptors[own].device == Input(index)
      requires index in grabs ==> grabs[index] != descriptors[own]
      modifies this`descriptors, this`grabs, this`nextId, this`faults
      ensures Valid() && nextId >= old(nextId) && faults >= old(faults)
      ensures faults == old(faults) ==>
                (retained >= 0 <==> index in old(grabs) && Listed(old(descriptors), old(grabs)[index], listing, |listing|))
      ensures retained >= 0 ==>
                && retained !in old(descriptors) && index in old(grabs)
                && (exists source | source in old(descriptors) && source != own ::
                      old(descriptors)[source] == old(grabs)[index])
                && descriptors == old(descriptors)[retained := old(grabs)[index]]
                && grabs == old(grabs)[index := old(descriptors)[own]]
      ensures retained < 0 ==> descriptors == old(descriptors) && grabs == old(grabs)
    {
      var directory := Open(Other);
      if directory < 0 {
        return NO_DESCRIPTOR;
      }
      retained := NO_DESCRIPTOR;
      var next := 0;
      ghost var listed := descriptors;
      while next < |listing|
        invariant Valid() && 0 <= next <= |listing| && nextId >= old(nextId)
        invariant retained == NO_DESCRIPTOR && descriptors == listed && grabs == old(grabs)
        invariant directory !in old(descriptors) && listed == old(descriptors)[directory := Description(old(nextId), Other)]
        invariant faults >= old(faults)
        invariant faults == old(faults) && index in old(grabs) ==> !Listed(old(descriptors), old(grabs)[index], listing, next)
        decreases |listing| - next
      {
        var source := listing[next];
        next := next + 1;
        if source in descriptors && source != own && source != directory {
          // readlink
          var read := Attempt();
          if read && descriptors[source].device == Input(index) {
            retained := TryTransfer(source, own, index);
            if retained >= 0 {
              break;
            }
          }
        }
      }
      UngrabbedNothing(grabs, descriptors[directory]);
      Close(directory);
    }

    /** One round of its loop. */
    method TryTransfer(source: int, own: int, index: nat) returns (retained: int)
      requires Valid() && own in descriptors && source in descriptors && source != own
      requires descriptors[own].device == descriptors[source].device == Input(index)
      modifies this`descriptors, this`grabs, this`faults
      ensures Valid() && faults >= old(faults)
      ensures faults == old(faults) ==> (retained >= 0 <==> index in old(grabs) && old(grabs)[index] == old(descriptors)[source])
      ensures retained >= 0 ==>
                && retained !in old(descriptors) && index in old(grabs) && old(descriptors)[source] == old(grabs)[index]
                && descriptors == old(descriptors)[retained := old(descriptors)[source]]
                && grabs == old(grabs)[index := old(descriptors)[own]]
      ensures retained < 0 ==> retained == NO_DESCRIPTOR && descriptors == old(descriptors) && grabs == old(grabs)
    {
      var duplicate := Duplicate(source);
      if duplicate < 0 {
        return NO_DESCRIPTOR;
      }
      var released := Ungrab(duplicate, index);
      if released {
        var taken := Grab(own, index, false);
        if taken {
          return duplicate;
        }
        var restored := Grab(duplicate, index, true);
        assert grabs == old(grabs);
      }
      assert (descriptors - {duplicate})[source] == descriptors[duplicate];
      Close(duplicate);
      return NO_DESCRIPTOR;
    }

    /** EVIOCGNAME, and whether the name is the one of the R1's touch screen */
    method IsNamed(index: nat) returns (named: bool)
      requires index in inputs && index < INPUT_SCAN_LIMIT
      modifies this`faults
      ensures faults >= old(faults) && (named ==> NamedTouch(inputs, index))
      ensures faults == old(faults) ==> (named <==> NamedTouch(inputs, index))
    {
      var answered := Attempt();
      named := answered && inputs[index].name == "hyn_ts";
    }

    /** touch_capabilities */
    method TouchCapabilities(index: nat) returns (capable: bool)
      requires index in inputs
      modifies this`faults
      ensures faults >= old(faults) && (capable ==> HasTouchAxes(inputs[index]))
      ensures faults == old(faults) ==> (capable <==> HasTouchAxes(inputs[index]))
    {
      var answered := Attempt();
      var axes := inputs[index].axes;
      capable := answered &&
        ((ABS_MT_POSITION_X in axes && ABS_MT_POSITION_Y in axes) || (ABS_X in axes && ABS_Y in axes));
    }

    /** One round of the scan: a descriptor of a touch screen, by its name or by its axes, or none. */
    method Probe(index: nat) returns (found: int, named: bool)
      requires Valid() && index < INPUT_SCAN_LIMIT
      modifies this`descriptors, this`grabs, this`nextId, this`faults
      ensures Valid() && nextId >= old(nextId) && grabs == old(grabs) && found >= NO_DESCRIPTOR && faults >= old(faults)
      ensures found == NO_DESCRIPTOR ==> descriptors == old(descriptors) && !named
      ensures found >= 0 ==>
                && found !in old(descriptors) && descriptors == old(descriptors)[found := Description(old(nextId), Input(index))]
                && nextId > old(nextId)
                && if named then NamedTouch(inputs, index) else index == 1 && index in inputs && HasTouchAxes(inputs[1])
      ensures faults == old(faults) ==>
                && (named <==> NamedTouch(inputs, index))
                && (found >= 0 && !named <==>
                    index == 1 && index in inputs && HasTouchAxes(inputs[1]) && !NamedTouch(inputs, index))
    {
      hide HasTouchAxes;
      named := false;
      found := Open(Input(index));
      if found >= 0 {
        named := IsNamed(index);
        if named {
          return;
        }
        var capable := false;
        if index == 1 {
          capable := TouchCapabilities(index);
        }
        if !capable {
          CloseUngrabbed(found);
          found := NO_DESCRIPTOR;
        }
      }
    }

    /** find_touch_device */
    method FindTouchDevice() returns (found: int, index: nat)
      requires Valid()
      modifies this`descriptors, this`grabs, this`nextId, this`faults
      ensures Valid() && nextId >= old(nextId) && grabs == old(grabs) && found >= NO_DESCRIPTOR && faults >= old(faults)
      ensures found == NO_DESCRIPTOR ==> descriptors == old(descriptors)
      ensures found >= 0 ==>
                && found !in old(descriptors) && found in descriptors
                && old(nextId) <= descriptors[found].id && descriptors[found].device == Input(index)
                && descriptors == old(descriptors)[found := descriptors[found]]
                && MaybeTouch(inputs, index)
      ensures faults == old(faults) ==>
                if found >= 0 then TheTouch(inputs, index) else forall i: nat :: !MaybeTouch(inputs, i)
    {
      hide HasTouchAxes;
      hide NamedTouch;
      var fallback := NO_DESCRIPTOR;
      index := 0;
      while index < INPUT_SCAN_LIMIT
        invariant Valid() && nextId >= old(nextId) && grabs == old(grabs) && fallback >= NO_DESCRIPTOR && faults >= old(faults)
        invariant fallback == NO_DESCRIPTOR ==> descriptors == old(descriptors)
        invariant fallback >= 0 ==> index > 1 && 1 in inputs && HasTouchAxes(inputs[1])
        invariant fallback >= 0 ==>
                    && fallback !in old(descriptors) && fallback in descriptors
                    && old(nextId) <= descriptors[fallback].id < nextId && descriptors[fallback].device == Input(1)
                    && descriptors == old(descriptors)[fallback := descriptors[fallback]]
        invariant faults == old(faults) ==>
                    && (forall i | 0 <= i < index :: !NamedTouch(inputs, i))
                    && (fallback >= 0 <==> index > 1 && 1 in inputs && HasTouchAxes(inputs[1]))
      {
        var named;
        found, named := Probe(index);
        if named {
          if fallback >= 0 {
            CloseUngrabbed(fallback);
          }
          return;
        }
        if found >= 0 {
          fallback := found;
        }
        index := index + 1;
      }
      NoneNamed(inputs);
      return fallback, 1;
    }

    /** Closing a descriptor that holds no grab. */
    method CloseUngrabbed(fd: int)
      requires Valid() && fd in descriptors && forall d | d in grabs :: grabs[d] != descriptors[fd]
      modifies this`descriptors, this`grabs
      ensures Valid() && descriptors == old(descriptors) - {fd} && grabs == old(grabs)
    {
      UngrabbedNothing(grabs, descriptors[fd]);
      Close(fd);
    }

    /**
     acquire_touch; an error changes nothing. Unless a call fails, the touch screen is taken exactly if there
     is one and its grab is free or held by a description of this process that is listed.
     */
    method AcquireTouch(listing: seq<int>) returns (ok: bool, touch: Touch)
      requires Valid()
      modifies this`descriptors, this`grabs, this`nextId, this`faults
      ensures Valid() && nextId >= old(nextId) && faults >= old(faults)
      ensures ok ==> touch.descriptor >= 0 && MaybeTouch(inputs, touch.index)
      ensures faults == old(faults) && ok ==> TheTouch(inputs, touch.index)
      ensures faults == old(faults) ==> (ok <==> Available(inputs, old(descriptors), old(grabs), listing))
      ensures !ok ==> touch == NO_TOUCH && descriptors == old(descriptors) && grabs == old(grabs)
      ensures ok ==> Took(touch, old(descriptors), old(grabs), old(nextId), descriptors, grabs)
    {
      hide TheTouch;
      hide MaybeTouch;
      hide NamedTouch;
      hide Listed;
      var found, index := FindTouchDevice();
      if found < 0 {
        NoneAvailable(inputs, descriptors, grabs, listing);
        return false, NO_TOUCH;
      }
      AvailableHere(inputs, old(descriptors), grabs, listing, index);
      hide Available;
      var taken := Grab(found, index, false);
      if taken {
        return true, Touch(found, NO_DESCRIPTOR, true, index);
      }
      ghost var before := descriptors;
      if index in grabs {
        ListedBeside(old(descriptors), found, descriptors[found], grabs[index], listing);
      }
      var stock := TransferStockGrab(found, index, listing);
      if stock >= 0 {
        ghost var source :| source in before && source != found && before[source] == old(grabs)[index];
        assert source in old(descriptors);
        return true, Touch(found, stock, true, index);
      }
      CloseUngrabbed(found);
      return false, NO_TOUCH;
    }

    /** release_touch: descriptors and grabs are again what they were before the acquisition. */
    method ReleaseTouch(touch: Touch, ghost base: Descriptors, ghost owners: map<nat, Description>, ghost id: nat)
      requires Valid()
      requires if touch == NO_TOUCH then descriptors == base && grabs == owners
               else Took(touch, base, owners, id, descriptors, grabs)
      modifies this`descriptors, this`grabs, this`faults
      ensures Valid() && descriptors == base && grabs == owners && faults == old(faults)
    {
      if touch.descriptor >= 0 && touch.grabbed {
        var ungrabbed := Ungrab(touch.descriptor, touch.index);
      }
      if touch.stock >= 0 {
        ghost var source :| source in base && base[source] == owners[touch.index];
        ReturnStock(touch.stock, touch.index, source);
        assert grabs == owners;
      }
      if touch.descriptor >= 0 {
        CloseUngrabbed(touch.descriptor);
      }
    }

    /** The stock description gets its grab back, and the duplicate of its descriptor goes. */
    method ReturnStock(stock: int, index: nat, ghost source: int)
      requires Valid() && stock in descriptors && descriptors[stock].device == Input(index) && index !in grabs
      requires source in descriptors && source != stock && descriptors[source] == descriptors[stock]
      modifies this`descriptors, this`grabs, this`faults
      ensures Valid() && faults == old(faults)
      ensures descriptors == old(descriptors) - {stock} && grabs == old(grabs)[index := old(descriptors)[stock]]
    {
      var given := Grab(stock, index, true);
      assert (descriptors - {stock})[source] == descriptors[stock];
      Close(stock);
    }

    // ---- Frame buffer ----

    /** capture_framebuffer: unless a call fails, exactly the frame buffers that the sidecar can draw on are captured. */
    method Capture(framebuffer: int) returns (snapshot: Snapshot)
      requires Valid() && framebuffer in descriptors
      modifies this`mappings, this`faults
      ensures Valid() && faults >= old(faults)
      ensures snapshot.taken ==> snapshot.copy == frame && mappings == old(mappings) + 1 && Drawable(screen, hook.panel, |frame|)
      ensures !snapshot.taken ==> mappings == old(mappings)
      ensures faults == old(faults) ==> (snapshot.taken <==> Drawable(screen, hook.panel, |frame|))
    {
      // FBIOGET_VSCREENINFO and FBIOGET_FSCREENINFO
      var asked := Attempt();
      if !asked {
        return Snapshot(false, []);
      }
      var panel := hook.panel;
      if screen.width != 480 || panel.height != 800 || panel.total < 1600 || (screen.bits != 16 && screen.bits != 32) {
        return Snapshot(false, []);
      }
      // size_t has 32 bits
      var minimum := screen.lineLength * panel.total % 0x1_0000_0000;
      if screen.lineLength < 480 * screen.bits / 8 || |frame| < minimum || |frame| > FRAMEBUFFER_MAX_BYTES {
        return Snapshot(false, []);
      }
      var mapped := Attempt();
      if !mapped {
        return Snapshot(false, []);
      }
      mappings := mappings + 1;
      var reserved := Attempt();
      if !reserved {
        mappings := mappings - 1;
        return Snapshot(false, []);
      }
      return Snapshot(true, frame);
    }

    /** restore_framebuffer: the snapshot, and the page that the player believes to show */
    method Restore(snapshot: Snapshot)
      requires Valid() && snapshot.taken && hook.active
      modifies this`frame, hook
      ensures Valid() && frame == snapshot.copy
      ensures !hook.active && hook.panel == old(hook.Seen())
    {
      frame := snapshot.copy;
      var offset := hook.Finish(0);
    }

    /** destroy_framebuffer */
    method Destroy(snapshot: Snapshot)
      requires Valid() && (snapshot.taken ==> mappings > 0)
      modifies this`mappings
      ensures Valid() && mappings == old(mappings) - if snapshot.taken then 1 else 0
    {
      if snapshot.taken {
        mappings := mappings - 1;
      }
    }

    /** What the sidecar and the other threads of the player do while the callback waits. */
    method Meanwhile(steps: seq<Step>) returns (requests: seq<Request>, answers: seq<Answer>)
      requires Valid() && hook.active
      modifies this`frame, hook
      ensures Valid() && hook.active && ServeAll(old(hook.Seen()), requests) == (hook.Seen(), answers)
      ensures requests == Entered(steps) && hook.panel.offset == LastPan(old(hook.panel), steps)
    {
      requests, answers := [], [];
      assert steps[..0] == [];
      for next := 0 to |steps|
        invariant Valid() && hook.active && requests == Entered(steps[..next])
        invariant hook.panel == old(hook.panel).(offset := LastPan(old(hook.panel), steps[..next]))
        invariant ServeAll(old(hook.Seen()), requests) == (hook.Seen(), answers)
      {
        assert steps[..next + 1][..next] == steps[..next] && steps[..next + 1][next] == steps[next];
        match steps[next] {
          case Enter(_, request) =>
            Serving(old(hook.Seen()), requests, request);
            var handled, answer := hook.Filter(request);
            requests, answers := requests + [request], answers + [answer];
          case SidecarPan(offset) =>
            SidecarIsUnseen(hook, offset);
            hook.panel := Serve(hook.panel, Pan(Some(offset))).0;
          case _ =>
        }
      }
      assert steps[..|steps|] == steps;
      frame := *;
    }

    /** fork, and what the child does before it becomes the sidecar */
    method Fork(directory: int, framebuffer: int, touch: int, names: seq<int>) returns (sidecar: Option<Sidecar>)
      requires directory in descriptors && directory !in {framebuffer, touch}
      modifies this`faults
      ensures faults >= old(faults) && (faults == old(faults) ==> sidecar.Some?)
      ensures sidecar.Some? ==>
                Given(sidecar.value, descriptors - {directory}, framebuffer, touch, names) && sidecar.value.grabs == grabs
    {
      var forked := Attempt();
      if !forked {
        return None;
      }
      var left := ChildDescriptors(descriptors, directory, framebuffer, touch, names);
      return Some(Sidecar(framebuffer, touch, left, grabs));
    }

    /**
     launch_ui: the exit status of the sidecar, or a negative error. The sidecar is there if it was forked;
     `names` is what it reads in /proc/self/fd.
     */
    method LaunchUi(framebuffer: int, touch: int, names: seq<int>, exit: Exit, steps: seq<Step>)
      returns (result: int, sidecar: Option<Sidecar>, requests: seq<Request>, answers: seq<Answer>)
      requires Valid() && hook.active && framebuffer in descriptors && touch in descriptors && callbackActive
      modifies this`descriptors, this`grabs, this`nextId, this`frame, this`faults, hook
      ensures Valid() && hook.active && nextId >= old(nextId) && faults >= old(faults)
      ensures descriptors == old(descriptors) && grabs == old(grabs)
      ensures ServeAll(old(hook.Seen()), requests) == (hook.Seen(), answers)
      ensures requests == if sidecar.Some? then Entered(steps) else []
      ensures sidecar.Some? ==>
                Given(sidecar.value, old(descriptors), framebuffer, touch, names) && sidecar.value.grabs == old(grabs)
      ensures result >= 0 ==> sidecar.Some? && exit.Exited? && exit.status == result && result != 127
      ensures faults == old(faults) ==> sidecar.Some? && (result >= 0 <==> exit.Exited? && exit != Exited(127))
    {
      hide ServeAll;
      hide Entered;
      hide Given;
      result, sidecar, requests, answers := -1, None, [], [];
      NothingServed(hook.Seen());
      // the environment of the child
      var prepared := Attempt();
      if !prepared {
        return;
      }
      var directory := Open(Other);
      if directory < 0 {
        return;
      }
      sidecar := Fork(directory, framebuffer, touch, names);
      CloseUngrabbed(directory);
      if sidecar.None? {
        return;
      }
      requests, answers := Meanwhile(steps);
      // waitpid
      var waited := Attempt();
      if waited && exit.Exited? && exit.status != EXEC_FAILED {
        result := exit.status;
      }
    }

    /** A duplicate is closed while the descriptor that it duplicates stays open. */
    method CloseChild(child: int, kept: int)
      requires Valid() && (child >= 0 ==> child in descriptors && kept in descriptors && kept != child)
      requires child >= 0 ==> descriptors[child] == descriptors[kept]
      modifies this`descriptors, this`grabs
      ensures Valid() && grabs == old(grabs) && descriptors == if child >= 0 then old(descriptors) - {child} else old(descriptors)
    {
      if child >= 0 {
        assert (descriptors - {child})[kept] == descriptors[child];
        Close(child);
      }
    }

    /** The end of the callback; `held` is what was open before the duplicates for the child. */
    method CleanUp(touch: Touch, childTouch: int, childFramebuffer: int, framebuffer: int, snapshot: Snapshot,
                   ghost base: Descriptors, ghost held: Descriptors, ghost owners: map<nat, Description>, ghost id: nat)
      requires Valid() && (snapshot.taken ==> mappings > 0)
      requires Holds(touch, base, owners, id, held, grabs, framebuffer)
      requires Children(touch, childTouch, childFramebuffer, framebuffer, held, descriptors)
      requires (forall fd | fd in base && fd != framebuffer :: base[fd] != base[framebuffer])
      requires (forall d | d in owners :: owners[d] != base[framebuffer])
      modifies this`descriptors, this`grabs, this`mappings, this`faults
      ensures Valid() && descriptors == base - {framebuffer} && grabs == owners && faults == old(faults)
      ensures mappings == old(mappings) - if snapshot.taken then 1 else 0
    {
      CloseChildren(touch, childTouch, childFramebuffer, framebuffer, held);
      ReleaseTouch(touch, base, owners, id);
      Destroy(snapshot);
      CloseUngrabbed(framebuffer);
    }

    /** The duplicates for the child are closed first. */
    method CloseChildren(touch: Touch, childTouch: int, childFramebuffer: int, framebuffer: int, ghost held: Descriptors)
      requires Valid() && framebuffer in held && Children(touch, childTouch, childFramebuffer, framebuffer, held, descriptors)
      modifies this`descriptors, this`grabs
      ensures Valid() && descriptors == held && grabs == old(grabs)
    {
      CloseChild(childTouch, touch.descriptor);
      CloseChild(childFramebuffer, framebuffer);
    }

    /** The duplicates for the child, and the sidecar if both could be made. */
    method RunChild(framebuffer: int, touch: Touch, names: seq<int>, exit: Exit, steps: seq<Step>)
      returns (childTouch: int, childFramebuffer: int, result: int, sidecar: Option<Sidecar>,
               requests: seq<Request>, answers: seq<Answer>)
      requires Valid() && hook.active && framebuffer in descriptors && touch.descriptor in descriptors && touch.descriptor >= 0
      requires callbackActive
      modifies this`descriptors, this`grabs, this`nextId, this`frame, this`faults, hook
      ensures Valid() && hook.active && grabs == old(grabs) && faults >= old(faults)
      ensures Children(touch, childTouch, childFramebuffer, framebuffer, old(descriptors), descriptors)
      ensures ServeAll(old(hook.Seen()), requests) == (hook.Seen(), answers)
      ensures requests == if sidecar.Some? then Entered(steps) else []
      ensures sidecar.Some? ==>
                Has(sidecar.value, old(descriptors)[framebuffer], old(descriptors)[touch.descriptor], names) &&
                sidecar.value.grabs == old(grabs)
      ensures Ended(result, sidecar, exit)
      ensures faults == old(faults) ==> sidecar.Some? && (result > 0 <==> exit.Exited? && exit.status !in {0, 127})
    {
      hide ServeAll;
      hide Entered;
      hide Given;
      NothingServed(hook.Seen());
      childTouch, result, sidecar, requests, answers := NO_DESCRIPTOR, 0, None, [], [];
      childFramebuffer := Duplicate(framebuffer);
      if childFramebuffer >= 0 {
        childTouch := Duplicate(touch.descriptor);
        if childTouch >= 0 {
          ghost var open := descriptors;
          result, sidecar, requests, answers := LaunchUi(childFramebuffer, childTouch, names, exit, steps);
          if sidecar.Some? {
            GivenHas(sidecar.value, open, childFramebuffer, childTouch, names);
          }
        }
      }
    }

    /** From the beginning of the virtual display until the frame is restored. */
    method Session(framebuffer: int, listing: seq<int>, names: seq<int>, exit: Exit,
                   early: seq<Step>, steps: seq<Step>, late: seq<Step>)
      returns (touch: Touch, childTouch: int, childFramebuffer: int, result: int, sidecar: Option<Sidecar>,
               requests: seq<Request>, answers: seq<Answer>, ghost held: Descriptors)
      requires Valid() && hook.active && callbackActive
      requires framebuffer in descriptors && descriptors[framebuffer].device == FrameBuffer
      modifies this`descriptors, this`grabs, this`nextId, this`frame, this`faults, hook
      ensures Valid() && hook.active && faults >= old(faults)
      ensures Holds(touch, old(descriptors), old(grabs), old(nextId), held, grabs, framebuffer)
      ensures Children(touch, childTouch, childFramebuffer, framebuffer, held, descriptors)
      ensures ServeAll(old(hook.Seen()), requests) == (hook.Seen(), answers)
      ensures requests == Entered(early) + (if sidecar.Some? then Entered(steps) else []) + Entered(late)
      ensures sidecar.Some? ==> Equipped(sidecar.value, inputs, names)
      ensures Ended(result, sidecar, exit)
      ensures faults == old(faults) ==>
                && (sidecar.Some? <==> Available(inputs, old(descriptors), old(grabs), listing))
                && (result > 0 <==> sidecar.Some? && exit.Exited? && exit.status !in {0, 127})
    {
      hide ServeAll;
      hide Took;
      hide Available;
      hide TheTouch;
      hide MaybeTouch;
      hide Equipped;
      hide Has;
      childTouch, childFramebuffer, result, sidecar := NO_DESCRIPTOR, NO_DESCRIPTOR, 0, None;
      ghost var start := hook.Seen();
      requests, answers := Meanwhile(early);
      ghost var before := hook.Seen();
      var acquired;
      acquired, touch := AcquireTouch(listing);
      held := descriptors;
      assert hook.Seen() == before;
      TookKeeps(touch, old(descriptors), old(grabs), old(nextId), held, grabs, framebuffer);
      NothingServed(before);
      var asked: seq<Request>, told: seq<Answer> := [], [];
      if acquired {
        childTouch, childFramebuffer, result, sidecar, asked, told := RunChild(framebuffer, touch, names, exit, steps);
        if sidecar.Some? {
          TookEquips(sidecar.value, touch, old(descriptors), old(grabs), old(nextId), held, grabs, framebuffer, inputs, names);
        }
      }
      ServeMore(start, requests, answers, asked, told);
      requests, answers := requests + asked, answers + told;
      asked, told := Meanwhile(late);
      ServeMore(start, requests, answers, asked, told);
      requests, answers := requests + asked, answers + told;
    }

    /** What the callback does once the frame buffer is open, up to its closing. */
    method OnFramebuffer(framebuffer: int, listing: seq<int>, names: seq<int>, exit: Exit,
                         early: seq<Step>, steps: seq<Step>, late: seq<Step>)
      returns (result: int, begun: bool, sidecar: Option<Sidecar>, requests: seq<Request>, answers: seq<Answer>)
      requires Valid() && !hook.active && callbackActive
      requires framebuffer in descriptors && descriptors[framebuffer].device == FrameBuffer
      requires (forall fd | fd in descriptors && fd != framebuffer :: descriptors[fd] != descriptors[framebuffer])
      requires (forall d | d in grabs :: grabs[d] != descriptors[framebuffer])
      modifies this, hook
      ensures Valid() && !hook.active && callbackActive && faults >= old(faults)
      ensures descriptors == old(descriptors) - {framebuffer} && grabs == old(grabs)
      ensures mappings == old(mappings) && frame == old(frame)
      ensures ServeAll(old(hook.panel), requests) == (hook.panel, answers)
      ensures requests == if begun then Entered(early) + (if sidecar.Some? then Entered(steps) else []) + Entered(late) else []
      ensures sidecar.Some? ==> begun && Equipped(sidecar.value, inputs, names)
      ensures Ended(result, sidecar, exit)
      ensures faults == old(faults) ==>
                && (begun <==> Drawable(screen, old(hook.panel), |old(frame)|))
                && (sidecar.Some? <==> begun && Available(inputs, old(descriptors), old(grabs), listing))
                && (result > 0 <==> sidecar.Some? && exit.Exited? && exit.status !in {0, 127})
    {
      hide ServeAll;
      hide Holds;
      hide Children;
      hide Available;
      hide Equipped;
      hide Drawable;
      NothingServed(hook.panel);
      result, begun, sidecar, requests, answers := 0, false, None, [], [];
      var touch, childTouch, childFramebuffer := NO_TOUCH, NO_DESCRIPTOR, NO_DESCRIPTOR;
      ghost var base, held, id := descriptors, descriptors, nextId;
      NothingHeld(base, grabs, id, framebuffer);
      var snapshot := Capture(framebuffer);
      if snapshot.taken {
        hook.Begin();
        begun := true;
        touch, childTouch, childFramebuffer, result, sidecar, requests, answers, held :=
          Session(framebuffer, listing, names, exit, early, steps, late);
        Restore(snapshot);
      }
      CleanUp(touch, childTouch, childFramebuffer, framebuffer, snapshot, base, held, old(grabs), id);
    }

    /**
     cfw_callback: whatever fails, afterwards the display is the player's, the descriptors, the
     mappings and every grab are as they were, the frame is what it was if it was captured, and the
     panel stands where the player's own page flips left it. The player's threads go on before the
     sidecar starts (`early`), while it runs (`steps`) and after it ended (`late`); a run without
     sidecar has the first and the last of these. Unless a call fails, the sidecar runs exactly if the
     callback is not active already, the frame buffer can be drawn on and the touch screen can be had;
     and the stock route is taken exactly if it ends with the status for it.
     */
    method CfwCallback(listing: seq<int>, names: seq<int>, exit: Exit, early: seq<Step>, steps: seq<Step>, late: seq<Step>)
      returns (stockRoute: bool, begun: bool, sidecar: Option<Sidecar>, requests: seq<Request>, answers: seq<Answer>)
      requires Valid() && !hook.active
      modifies this, hook
      ensures Valid() && !hook.active && callbackActive == old(callbackActive) && faults >= old(faults)
      ensures descriptors == old(descriptors) && grabs == old(grabs) && mappings == old(mappings)
      ensures frame == old(frame)
      ensures ServeAll(old(hook.panel), requests) == (hook.panel, answers)
      ensures hook.panel.offset == LastAccepted(old(hook.panel), requests)
      ensures requests == if begun then Entered(early) + (if sidecar.Some? then Entered(steps) else []) + Entered(late) else []
      ensures old(callbackActive) ==> !begun && faults == old(faults)
      ensures sidecar.Some? ==> begun && Equipped(sidecar.value, inputs, names)
      ensures stockRoute ==> sidecar.Some? && exit in {Exited(21), Exited(22)}
      ensures faults == old(faults) && !old(callbackActive) ==>
                && (begun <==> Drawable(screen, old(hook.panel), |old(frame)|))
                && (sidecar.Some? <==> begun && Available(inputs, old(descriptors), old(grabs), listing))
                && (stockRoute <==> sidecar.Some? && exit in {Exited(21), Exited(22)})
    {
      hide ServeAll;
      hide LastAccepted;
      hide Entered;
      hide Available;
      hide Equipped;
      hide Drawable;
      NothingServed(hook.panel);
      stockRoute, begun, sidecar, requests, answers := false, false, None, [], [];
      if !callbackActive {
        callbackActive := true;
        var result := 0;
        var framebuffer := Open(FrameBuffer);
        if framebuffer >= 0 {
          AvailableBeside(inputs, old(descriptors), framebuffer, descriptors[framebuffer], grabs, listing);
          result, begun, sidecar, requests, answers := OnFramebuffer(framebuffer, listing, names, exit, early, steps, late);
          assert descriptors == old(descriptors);
        }
        callbackActive := false;
        stockRoute := result == ROUTE_WIFI || result == ROUTE_BLUETOOTH;
      }
      ServeAllOffset(old(hook.panel), requests);
    }
  }

  // ---- What can be had ----

  /** An input device within the scan that has the name of the R1's touch screen. */
  ghost predicate NamedTouch(inputs: map<nat, InputDevice>, index: nat) {
    index < 8 && index in inputs && inputs[index].name == "hyn_ts"
  }

  /** Both axes of ABS_MT_POSITION, or ABS_X and ABS_Y. */
  ghost predicate HasTouchAxes(device: InputDevice) {
    {0x35, 0x36} <= device.axes || {0, 1} <= device.axes
  }

  /** A touch screen by its name, or, at the place that it has on the R1, by its axes. */
  ghost predicate MaybeTouch(inputs: map<nat, InputDevice>, index: nat) {
    NamedTouch(inputs, index) || (index == 1 && 1 in inputs && HasTouchAxes(inputs[1]))
  }

  /** The first of those with the name; only without any the other one. */
  ghost predicate TheTouch(inputs: map<nat, InputDevice>, index: nat) {
    && MaybeTouch(inputs, index)
    && forall i: nat | i != index && NamedTouch(inputs, i) :: NamedTouch(inputs, index) && index < i
  }

  /** The first n names of the listing have a descriptor of the description. */
  ghost predicate Listed(descriptors: Descriptors, description: Description, listing: seq<int>, n: nat)
    requires n <= |listing|
  {
    exists i | 0 <= i < n :: listing[i] in descriptors && descriptors[listing[i]] == description
  }

  /** There is a touch screen, and nobody has its grab or it can be found in this process. */
  ghost predicate Available(inputs: map<nat, InputDevice>, descriptors: Descriptors, grabs: map<nat, Description>,
                            listing: seq<int>)
  {
    exists index: nat ::
      TheTouch(inputs, index) && (index in grabs ==> Listed(descriptors, grabs[index], listing, |listing|))
  }

  /** The geometry that the sidecar draws on, with memory for all of it. */
  ghost predicate Drawable(screen: Screen, panel: Panel, memory: nat) {
    && screen.width == 480 && panel.height == 800 && panel.total >= 1600 && screen.bits in {16, 32}
    && screen.lineLength >= 60 * screen.bits
    && screen.lineLength * panel.total % 0x1_0000_0000 <= memory <= 0x200_0000
  }

  lemma NoneNamed(inputs: map<nat, InputDevice>)
    ensures (forall i: nat | i < INPUT_SCAN_LIMIT :: !NamedTouch(inputs, i)) ==>
              if 1 in inputs && HasTouchAxes(inputs[1]) then TheTouch(inputs, 1) else forall i: nat :: !MaybeTouch(inputs, i)
  {
    hide HasTouchAxes;
    forall i: nat
      ensures NamedTouch(inputs, i) ==> i < INPUT_SCAN_LIMIT
    {
    }
    hide NamedTouch;
  }

  lemma OneTouch(inputs: map<nat, InputDevice>, a: nat, b: nat)
    requires TheTouch(inputs, a) && TheTouch(inputs, b)
    ensures a == b
  {
  }

  lemma NoneAvailable(inputs: map<nat, InputDevice>, descriptors: Descriptors, grabs: map<nat, Description>, listing: seq<int>)
    ensures (forall i: nat :: !MaybeTouch(inputs, i)) ==> !Available(inputs, descriptors, grabs, listing)
  {
    hide MaybeTouch;
    hide Listed;
  }

  lemma AvailableHere(inputs: map<nat, InputDevice>, descriptors: Descriptors, grabs: map<nat, Description>, listing: seq<int>,
                      index: nat)
    ensures TheTouch(inputs, index) ==>
              (Available(inputs, descriptors, grabs, listing) <==>
               (index in grabs ==> Listed(descriptors, grabs[index], listing, |listing|)))
  {
    if TheTouch(inputs, index) && Available(inputs, descriptors, grabs, listing) {
      var other: nat :| TheTouch(inputs, other) && (other in grabs ==> Listed(descriptors, grabs[other], listing, |listing|));
      OneTouch(inputs, index, other);
    }
    hide TheTouch;
    hide Listed;
  }

  lemma ListedBeside(descriptors: Descriptors, fd: int, description: Description, other: Description, listing: seq<int>)
    requires fd !in descriptors && description != other
    ensures Listed(descriptors[fd := description], other, listing, |listing|) <==>
              Listed(descriptors, other, listing, |listing|)
  {
    if i :| 0 <= i < |listing| && listing[i] in descriptors && descriptors[listing[i]] == other {
      assert descriptors[fd := description][listing[i]] == other;
    }
  }

  /** Another description that holds no grab makes no difference. */
  lemma AvailableBeside(inputs: map<nat, InputDevice>, descriptors: Descriptors, fd: int, description: Description,
                        grabs: map<nat, Description>, listing: seq<int>)
    requires fd !in descriptors && forall d | d in grabs :: grabs[d] != description
    ensures Available(inputs, descriptors[fd := description], grabs, listing) <==>
              Available(inputs, descriptors, grabs, listing)
  {
    hide TheTouch;
    hide Listed;
    forall d | d in grabs
      ensures Listed(descriptors[fd := description], grabs[d], listing, |listing|) <==>
                Listed(descriptors, grabs[d], listing, |listing|)
    {
      ListedBeside(descriptors, fd, description, grabs[d], listing);
    }
  }

  // ---- What the sidecar has ----

  /** It keeps the standard streams, its two arguments, and what it did not find in its listing. */
  ghost predicate Given(sidecar: Sidecar, open: Descriptors, framebuffer: int, touch: int, names: seq<int>) {
    && sidecar.framebuffer == framebuffer && sidecar.touch == touch
    && sidecar.descriptors == map fd | fd in open && (fd <= 2 || fd in {framebuffer, touch} || fd !in names) :: open[fd]
  }

  /** Its arguments are of these two descriptions, and else it has only the standard streams of what it found listed. */
  ghost predicate Has(sidecar: Sidecar, framebuffer: Description, touch: Description, names: seq<int>) {
    && sidecar.framebuffer in sidecar.descriptors && sidecar.descriptors[sidecar.framebuffer] == framebuffer
    && sidecar.touch in sidecar.descriptors && sidecar.descriptors[sidecar.touch] == touch
    && forall fd | fd in sidecar.descriptors && fd in names :: fd <= 2 || fd == sidecar.framebuffer || fd == sidecar.touch
  }

  /** It has the frame buffer and the description of a touch screen that holds its grab, and no other descriptor that it found. */
  ghost predicate Equipped(sidecar: Sidecar, inputs: map<nat, InputDevice>, names: seq<int>) {
    && sidecar.framebuffer in sidecar.descriptors && sidecar.descriptors[sidecar.framebuffer].device == FrameBuffer
    && sidecar.touch in sidecar.descriptors && sidecar.descriptors[sidecar.touch].device.Input?
    && (var index := sidecar.descriptors[sidecar.touch].device.index;
        && MaybeTouch(inputs, index)
        && index in sidecar.grabs && sidecar.grabs[index] == sidecar.descriptors[sidecar.touch])
    && forall fd | fd in sidecar.descriptors && fd in names :: fd <= 2 || fd == sidecar.framebuffer || fd == sidecar.touch
  }

  /** A status comes from a sidecar that ended with it. */
  ghost predicate Ended(result: int, sidecar: Option<Sidecar>, exit: Exit) {
    result > 0 ==> sidecar.Some? && exit.Exited? && exit.status == result
  }

  lemma GivenHas(sidecar: Sidecar, open: Descriptors, framebuffer: int, touch: int, names: seq<int>)
    requires Given(sidecar, open, framebuffer, touch, names) && framebuffer in open && touch in open
    ensures Has(sidecar, open[framebuffer], open[touch], names)
  {
  }

  /** child_close_unneeded_descriptors */
  method ChildDescriptors(open: Descriptors, directory: int, framebuffer: int, touch: int, names: seq<int>)
    returns (left: Descriptors)
    requires directory !in {framebuffer, touch}
    ensures left == map fd | fd in open - {directory} &&
                             (fd <= STDERR || fd in {framebuffer, touch} || fd !in names) :: open[fd]
  {
    left := open;
    for next := 0 to |names|
      invariant left == map fd | fd in open &&
                                 (fd <= STDERR || fd in {directory, framebuffer, touch} || fd !in names[..next]) :: open[fd]
    {
      var fd := names[next];
      assert names[..next + 1] == names[..next] + [fd];
      if fd > STDERR && fd != directory && fd != framebuffer && fd != touch {
        left := left - {fd};
      }
    }
    assert names[..|names|] == names;
    left := left - {directory};
  }

  /** struct touch_ownership, with the device that it is about */
  datatype Touch = Touch(descriptor: int, stock: int, grabbed: bool, index: nat)

  const NO_TOUCH := Touch(NO_DESCRIPTOR, NO_DESCRIPTOR, false, 0)

  datatype Snapshot = Snapshot(taken: bool, copy: seq<byte>)

  /** What the player's threads ask for, in order. */
  function Entered(steps: seq<Step>): seq<Request> {
    if steps == [] then []
    else
      var last := steps[|steps| - 1];
      Entered(steps[..|steps| - 1]) + if last.Enter? then [last.request] else []
  }

  /** Where the panel itself stands: at the last place that the sidecar asked for and the device accepted. */
  function LastPan(panel: Panel, steps: seq<Step>): nat {
    if steps == [] then panel.offset
    else
      var last := steps[|steps| - 1];
      if last.SidecarPan? && last.offset <= panel.Limit() then last.offset else LastPan(panel, steps[..|steps| - 1])
  }

  /** `descriptors` is what is held, and the duplicates for the child. */
  ghost predicate Children(touch: Touch, childTouch: int, childFramebuffer: int, framebuffer: int,
                           held: Descriptors, descriptors: Descriptors)
    requires framebuffer in held
  {
    if childFramebuffer < 0 then childTouch < 0 && descriptors == held
    else
      && childFramebuffer !in held
      && if childTouch < 0 then descriptors == held[childFramebuffer := held[framebuffer]]
         else
           && childTouch !in held && childTouch != childFramebuffer && touch.descriptor in held
           && descriptors == held[childFramebuffer := held[framebuffer]][childTouch := held[touch.descriptor]]
  }

  /** What is open and grabbed besides the duplicates: nothing of the touch screen, or all that its acquisition took. */
  ghost predicate Holds(touch: Touch, base: Descriptors, owners: map<nat, Description>, id: nat,
                        held: Descriptors, grabs: map<nat, Description>, framebuffer: int)
  {
    && framebuffer in base && framebuffer in held && held[framebuffer] == base[framebuffer]
    && if touch == NO_TOUCH then held == base && grabs == owners else Took(touch, base, owners, id, held, grabs)
  }

  lemma NothingHeld(base: Descriptors, owners: map<nat, Description>, id: nat, framebuffer: int)
    requires framebuffer in base
    ensures Holds(NO_TOUCH, base, owners, id, base, owners, framebuffer)
    ensures Children(NO_TOUCH, NO_DESCRIPTOR, NO_DESCRIPTOR, framebuffer, base, base)
  {
  }

  lemma TookKeeps(touch: Touch, base: Descriptors, owners: map<nat, Description>, id: nat,
                  held: Descriptors, grabs: map<nat, Description>, framebuffer: int)
    requires framebuffer in base
    requires if touch == NO_TOUCH then held == base && grabs == owners else Took(touch, base, owners, id, held, grabs)
    ensures Holds(touch, base, owners, id, held, grabs, framebuffer)
    ensures touch != NO_TOUCH ==> touch.descriptor in held && touch.descriptor >= 0
  {
  }

  lemma TookEquips(sidecar: Sidecar, touch: Touch, base: Descriptors, owners: map<nat, Description>, id: nat,
                   held: Descriptors, grabs: map<nat, Description>, framebuffer: int,
                   inputs: map<nat, InputDevice>, names: seq<int>)
    requires Took(touch, base, owners, id, held, grabs) && MaybeTouch(inputs, touch.index)
    requires framebuffer in base && framebuffer in held && held[framebuffer] == base[framebuffer]
    requires base[framebuffer].device == FrameBuffer
    requires Has(sidecar, held[framebuffer], held[touch.descriptor], names) && sidecar.grabs == grabs
    ensures Equipped(sidecar, inputs, names)
  {
    hide MaybeTouch;
  }

  lemma NothingServed(panel: Panel)
    ensures ServeAll(panel, []) == (panel, [])
  {
  }

  /** Requests after requests. */
  lemma {:induction false} ServeMore(panel: Panel, requests: seq<Request>, answers: seq<Answer>, asked: seq<Request>,
                                     told: seq<Answer>)
    requires ServeAll(panel, requests).1 == answers && ServeAll(ServeAll(panel, requests).0, asked).1 == told
    ensures ServeAll(panel, requests + asked) == (ServeAll(ServeAll(panel, requests).0, asked).0, answers + told)
  {
    if asked == [] {
      assert requests + asked == requests && told == [] && answers + told == answers;
    } else {
      var n := |asked| - 1;
      ServeMore(panel, requests, answers, asked[..n], told[..n]);
      assert (requests + asked)[..|requests| + n] == requests + asked[..n];
      assert (requests + asked)[|requests| + n] == asked[n];
      assert answers + told == (answers + told[..n]) + [told[n]];
    }
  }

  /** The touch screen has been taken: from nobody, or from a description of this process that is kept. */
  ghost predicate Took(touch: Touch, base: Descriptors, owners: map<nat, Description>, id: nat,
                       descriptors: Descriptors, grabs: map<nat, Description>)
  {
    && touch.descriptor >= 0 && touch.grabbed
    && touch.descriptor in descriptors && touch.descriptor !in base && descriptors[touch.descriptor].id >= id
    && descriptors[touch.descriptor].device == Input(touch.index)
    && (forall d | d in owners :: owners[d].device == Input(d))
    && (forall fd | fd in base :: base[fd].id < id) && (forall d | d in owners :: owners[d].id < id)
    && grabs == owners[touch.index := descriptors[touch.descriptor]]
    && if touch.stock < 0 then
         touch.index !in owners && descriptors == base[touch.descriptor := descriptors[touch.descriptor]]
       else
         && touch.index in owners && touch.stock !in base && touch.stock != touch.descriptor
         && (exists source | source in base :: base[source] == owners[touch.index])
         && descriptors == base[touch.descriptor := descriptors[touch.descriptor]][touch.stock := owners[touch.index]]
  }

  function Ungrabbed(grabs: map<nat, Description>, description: Description): map<nat, Description> {
    map d | d in grabs && grabs[d] != description :: grabs[d]
  }

  lemma UngrabbedNothing(grabs: map<nat, Description>, description: Description)
    requires forall d | d in grabs :: grabs[d] != description
    ensures Ungrabbed(grabs, description) == grabs
  {
  }

  lemma {:induction false} SomeBound(fds: set<int>) returns (bound: int)
    ensures bound >= 0 && forall fd | fd in fds :: fd < bound
  {
    if fd :| fd in fds {
      bound := SomeBound(fds - {fd});
      bound := if fd < bound then bound else fd + 1;
      forall other | other in fds
        ensures other < bound
      {
        assert other == fd || other in fds - {fd};
      }
    } else {
      bound := 0;
    }
  }
}
