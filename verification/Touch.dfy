/** Touches as the bridge encodes them and gestures as the sidecar decodes them. */
module Touch {
  import opened Bytes

  const WIDTH := 480
  const HEIGHT := 800

  const EV_SYN := 0
  const EV_KEY := 1
  const EV_ABS := 3
  const SYN_REPORT := 0
  const SYN_MT_REPORT := 2
  const BTN_TOUCH := 330
  const ABS_X := 0
  const ABS_Y := 1
  const ABS_MT_TOUCH_MAJOR := 48
  const ABS_MT_POSITION_X := 53
  const ABS_MT_POSITION_Y := 54
  const ABS_MT_TRACKING_ID := 57
  const ABS_MT_PRESSURE := 58

  const EVENT_SIZE := 16
  const SLOP := 16

  // ---- Events as bytes ----

  /** struct input_event, without its time */
  datatype Event = Event(kind: nat, code: nat, value: int) {
    predicate Valid() { kind < 0x1_0000 && code < 0x1_0000 && -0x8000_0000 <= value < 0x8000_0000 }
  }

  function Word16(n: nat): seq<byte>
    requires n < 0x1_0000
  {
    [n % 0x100, n / 0x100]
  }

  /** INPUT_EVENT.pack */
  function Pack(event: Event): (bytes: seq<byte>)
    requires event.Valid()
    ensures |bytes| == EVENT_SIZE
  {
    var value := if event.value < 0 then event.value + 0x1_0000_0000 else event.value;
    [0, 0, 0, 0, 0, 0, 0, 0] + Word16(event.kind) + Word16(event.code) + Word16(value % 0x1_0000) + Word16(value / 0x1_0000)
  }

  /** The same bytes as the C structure. */
  function Unpack(bytes: seq<byte>): Event
    requires |bytes| == EVENT_SIZE
  {
    var low: int, high: int := bytes[12] as int + 0x100 * bytes[13] as int, bytes[14] as int + 0x100 * bytes[15] as int;
    var value := low + 0x1_0000 * high;
    Event(bytes[8] as int + 0x100 * bytes[9] as int, bytes[10] as int + 0x100 * bytes[11] as int,
          if value >= 0x8000_0000 then value - 0x1_0000_0000 else value)
  }

  lemma UnpackPack(event: Event)
    requires event.Valid()
    ensures Unpack(Pack(event)) == event
  {
  }

  // ---- bridge.py ----

  datatype Point = Point(x: int, y: int)

  function Clamp(n: int, most: nat): nat {
    if n < 0 then 0 else if n > most then most else n
  }

  function Clamped(p: Point): Point { Point(Clamp(p.x, WIDTH), Clamp(p.y, HEIGHT)) }

  function Report(p: Point): seq<Event> {
    [Event(EV_ABS, ABS_MT_TRACKING_ID, 0), Event(EV_ABS, ABS_MT_PRESSURE, 63), Event(EV_ABS, ABS_MT_TOUCH_MAJOR, 9),
     Event(EV_ABS, ABS_MT_POSITION_X, Clamped(p).x), Event(EV_ABS, ABS_MT_POSITION_Y, Clamped(p).y),
     Event(EV_SYN, SYN_MT_REPORT, 0)]
  }

  datatype Phase = Down | Move | Up

  /** touch_events, before it is packed */
  function TouchEvents(p: Point, phase: Phase): seq<Event> {
    match phase
    case Up => [Event(EV_KEY, BTN_TOUCH, 0), Event(EV_SYN, SYN_MT_REPORT, 0), Event(EV_SYN, SYN_REPORT, 0)]
    case Move => Report(p) + [Event(EV_SYN, SYN_REPORT, 0)]
    case Down => Report(p) + [Event(EV_KEY, BTN_TOUCH, 1), Event(EV_SYN, SYN_REPORT, 0)]
  }

  /** A finger that goes down, moves and goes up. */
  datatype Stroke = Stroke(down: Point, moves: seq<Point>)

  function MoveEvents(moves: seq<Point>): seq<Event> {
    if moves == [] then [] else MoveEvents(moves[..|moves| - 1]) + TouchEvents(moves[|moves| - 1], Move)
  }

  function StrokeEvents(stroke: Stroke): seq<Event> {
    TouchEvents(stroke.down, Down) + MoveEvents(stroke.moves) + TouchEvents(stroke.down, Up)
  }

  function AllEvents(strokes: seq<Stroke>): seq<Event> {
    if strokes == [] then [] else AllEvents(strokes[..|strokes| - 1]) + StrokeEvents(strokes[|strokes| - 1])
  }

  // ---- What a touch means ----

  datatype Gesture = Tap(x: int, y: int, deltaX: int, deltaY: int) | Drag(x: int, y: int, deltaX: int, deltaY: int)

  predicate Far(a: Point, b: Point) {
    a.x - b.x > SLOP || b.x - a.x > SLOP || a.y - b.y > SLOP || b.y - a.y > SLOP
  }

  function LastPoint(stroke: Stroke): Point {
    Clamped(if stroke.moves == [] then stroke.down else stroke.moves[|stroke.moves| - 1])
  }

  /** A tap if no reported point is far from where the finger went down; at the last reported point. */
  function Meaning(stroke: Stroke): Gesture {
    var first, last := Clamped(stroke.down), LastPoint(stroke);
    if exists i | 0 <= i < |stroke.moves| :: Far(Clamped(stroke.moves[i]), first) then
      Drag(last.x, last.y, last.x - first.x, last.y - first.y)
    else Tap(last.x, last.y, last.x - first.x, last.y - first.y)
  }

  // ---- r1_touch_read ----

  datatype State = State(active: bool, pending: bool, x: int, y: int, downX: int, downY: int, moved: bool)

  // r1_touch_init
  const START := State(false, false, 0, 0, -1, -1, false)

  function Abs(n: int): int { if n < 0 then -n else n }

  /** What one event does, and the gesture that it completes. */
  function Step(s: State, e: Event): (State, Option<Gesture>) {
    if e.kind == EV_ABS then
      var t := if e.code in {ABS_X, ABS_MT_POSITION_X} then s.(x := e.value)
               else if e.code in {ABS_Y, ABS_MT_POSITION_Y} then s.(y := e.value)
               else if e.code == ABS_MT_TRACKING_ID && e.value >= 0 && !s.active then
                 s.(active := true, downX := -1, downY := -1, moved := false)
               else if e.code == ABS_MT_TRACKING_ID && e.value < 0 && s.active then s.(pending := true)
               else s;
      (if t.active && t.downX >= 0 && (Abs(t.x - t.downX) > SLOP || Abs(t.y - t.downY) > SLOP) then t.(moved := true)
       else t, None)
    else if e.kind == EV_KEY && e.code == BTN_TOUCH then
      (if e.value != 0 && !s.active then s.(active := true, downX := s.x, downY := s.y, moved := false)
       else if e.value == 0 && s.active then s.(pending := true)
       else s, None)
    else if e.kind == EV_SYN && e.code == SYN_REPORT then
      var t := if s.active && s.downX < 0 then s.(downX := s.x, downY := s.y) else s;
      if t.pending then
        (State(false, false, t.x, t.y, -1, -1, false),
         Some(if t.moved then Drag(t.x, t.y, t.x - t.downX, t.y - t.downY)
              else Tap(t.x, t.y, t.x - t.downX, t.y - t.downY)))
      else (t, None)
    else (s, None)
  }

  function Also(gestures: seq<Gesture>, gesture: Option<Gesture>): seq<Gesture> {
    match gesture case Some(g) => gestures + [g] case None => gestures
  }

  /** A whole sequence of events. */
  function Feed(s: State, events: seq<Event>): (State, seq<Gesture>) {
    if events == [] then (s, [])
    else
      var n := |events| - 1;
      var (t, gestures) := Feed(s, events[..n]);
      var (u, gesture) := Step(t, events[n]);
      (u, Also(gestures, gesture))
  }

  lemma {:induction false} FeedAppend(s: State, a: seq<Event>, b: seq<Event>)
    ensures var (t, first) := Feed(s, a);
            var (u, second) := Feed(t, b);
            Feed(s, a + b) == (u, first + second)
  {
    if b == [] {
      assert a + b == a && Feed(s, a).1 + [] == Feed(s, a).1;
    } else {
      var n := |b| - 1;
      FeedAppend(s, a, b[..n]);
      assert (a + b)[..|a| + n] == a + b[..n] && (a + b)[|a| + n] == b[n];
      var (t, first) := Feed(s, a);
      var (u, second) := Feed(t, b[..n]);
      var (v, gesture) := Step(u, b[n]);
      assert first + Also(second, gesture) == Also(first + second, gesture);
    }
  }

  lemma {:induction false} Consumed(done: seq<Event>, more: seq<Event>, s: State, t: State, gestures: seq<Gesture>,
                                    gesture: Option<Gesture>)
    requires Feed(START, done) == (s, gestures) && Feed(s, more) == (t, Also([], gesture))
    ensures Feed(START, done + more) == (t, Also(gestures, gesture))
  {
    FeedAppend(START, done, more);
    hide Feed;
    assert gestures + Also([], gesture) == Also(gestures, gesture);
  }

  lemma {:induction false} FeedOne(s: State, events: seq<Event>, e: Event)
    ensures var (t, gestures) := Feed(s, events);
            var (u, gesture) := Step(t, e);
            Feed(s, events + [e]) == (u, Also(gestures, gesture))
  {
    assert (events + [e])[..|events|] == events;
  }

  // ---- The touch screen's decoder over its descriptor ----

  /** The bytes that wait in the descriptor, and struct r1_touch_state. */
  class Decoder {
    var waiting: seq<byte>
    var state: State

    constructor ()
      ensures waiting == [] && state == START
    {
      waiting, state := [], START;
    }

    /** read of one event: all of it if it is there */
    method ReadEvent() returns (event: Option<Event>)
      requires |waiting| % EVENT_SIZE == 0
      modifies this`waiting
      ensures old(waiting) == [] ==> event == None && waiting == []
      ensures old(waiting) != [] ==>
                |old(waiting)| >= EVENT_SIZE && event == Some(Unpack(old(waiting)[..EVENT_SIZE])) && waiting == old(waiting)[EVENT_SIZE..]
      ensures |waiting| % EVENT_SIZE == 0
    {
      if waiting == [] {
        return None;
      }
      event := Some(Unpack(waiting[..EVENT_SIZE]));
      waiting := waiting[EVENT_SIZE..];
    }

    /** r1_touch_read: one gesture, or all that is there without one */
    method TouchRead(ghost queued: seq<Event>) returns (gesture: Option<Gesture>, ghost consumed: seq<Event>)
      requires AllValid(queued) && waiting == Packed(queued)
      modifies this
      ensures consumed <= queued && waiting == Packed(queued[|consumed|..])
      ensures Feed(old(state), consumed) == (state, Also([], gesture))
      ensures gesture.None? ==> consumed == queued
      ensures gesture.Some? ==> consumed != []
    {
      consumed := [];
      gesture := None;
      assert queued[0..] == queued;
      PackedSize(queued);
      while true
        invariant consumed <= queued && waiting == Packed(queued[|consumed|..])
        invariant Feed(old(state), consumed) == (state, [])
        decreases |queued| - |consumed|
      {
        ghost var rest := queued[|consumed|..];
        PackedSize(rest);
        var event := ReadEvent();
        if event.None? {
          return None, consumed;
        }
        FirstPacked(rest);
        FeedOne(old(state), consumed, rest[0]);
        consumed := consumed + [rest[0]];
        assert queued[|consumed|..] == rest[1..];
        var (next, completed) := Step(state, event.value);
        state := next;
        if completed.Some? {
          return completed, consumed;
        }
      }
    }
  }

  ghost predicate AllValid(events: seq<Event>) {
    forall i | 0 <= i < |events| :: events[i].Valid()
  }

  function Packed(events: seq<Event>): seq<byte>
    requires forall i | 0 <= i < |events| :: events[i].Valid()
  {
    if events == [] then [] else Pack(events[0]) + Packed(events[1..])
  }

  lemma {:induction false} PackedSize(events: seq<Event>)
    requires AllValid(events)
    ensures |Packed(events)| == EVENT_SIZE * |events|
  {
    if events != [] {
      PackedSize(events[1..]);
    }
  }

  lemma {:induction false} FirstPacked(events: seq<Event>)
    requires AllValid(events) && events != []
    ensures var bytes := Packed(events);
            |bytes| >= EVENT_SIZE && Unpack(bytes[..EVENT_SIZE]) == events[0] && bytes[EVENT_SIZE..] == Packed(events[1..])
  {
    UnpackPack(events[0]);
    hide Pack;
    hide Unpack;
    var bytes := Packed(events);
    assert bytes[..EVENT_SIZE] == Pack(events[0]);
  }

  /**
   Events arrive in any portions, and after each portion the decoder is called any number of times:
   the gestures are those of the whole sequence.
   */
  method Decode(portions: seq<seq<Event>>, calls: seq<nat>) returns (gestures: seq<Gesture>, state: State)
    requires |calls| == |portions| && forall i | 0 <= i < |portions| :: AllValid(portions[i])
    ensures Feed(START, Joined(portions)) == (state, gestures)
    ensures forall strokes | AllEvents(strokes) == Joined(portions) :: gestures == Meanings(strokes)
  {
    forall strokes
      ensures Feed(START, AllEvents(strokes)).1 == Meanings(strokes)
    {
      StrokesDecoded(strokes);
    }
    var decoder := new Decoder();
    gestures := [];
    ghost var done: seq<Event>, queued: seq<Event> := [], [];
    hide Feed;
    assert Feed(START, []) == (START, []) by { FeedNothing(START); }
    for next := 0 to |portions|
      invariant done + queued == Joined(portions[..next]) && AllValid(queued) && decoder.waiting == Packed(queued)
      invariant Feed(START, done) == (decoder.state, gestures)
    {
      assert portions[..next + 1][..next] == portions[..next];
      PackedAppend(queued, portions[next]);
      decoder.waiting := decoder.waiting + Packed(portions[next]);
      queued := queued + portions[next];
      gestures, done, queued := CallRepeatedly(decoder, calls[next], gestures, done, queued);
    }
    assert portions[..|portions|] == portions;
    gestures, done, queued := CallToTheEnd(decoder, gestures, done, queued);
    state := decoder.state;
  }

  /** Calls until one finds nothing. */
  method CallToTheEnd(decoder: Decoder, earlier: seq<Gesture>, ghost doneBefore: seq<Event>, ghost queuedBefore: seq<Event>)
    returns (gestures: seq<Gesture>, ghost done: seq<Event>, ghost queued: seq<Event>)
    requires AllValid(queuedBefore) && decoder.waiting == Packed(queuedBefore)
    requires Feed(START, doneBefore) == (decoder.state, earlier)
    modifies decoder
    ensures done == doneBefore + queuedBefore && queued == [] && Feed(START, done) == (decoder.state, gestures)
  {
    gestures, done, queued := earlier, doneBefore, queuedBefore;
    hide Feed;
    hide Packed;
    while true
      invariant done + queued == doneBefore + queuedBefore && AllValid(queued) && decoder.waiting == Packed(queued)
      invariant Feed(START, done) == (decoder.state, gestures)
      decreases |queued|
    {
      ghost var before := decoder.state;
      var gesture, consumed := decoder.TouchRead(queued);
      Consumed(done, consumed, before, decoder.state, gestures, gesture);
      Shift(done, queued, consumed);
      done, queued := done + consumed, queued[|consumed|..];
      if gesture.None? {
        assert queued == [];
        return;
      }
      gestures := gestures + [gesture.value];
    }
  }

  method CallRepeatedly(decoder: Decoder, calls: nat, earlier: seq<Gesture>, ghost doneBefore: seq<Event>,
                        ghost queuedBefore: seq<Event>)
    returns (gestures: seq<Gesture>, ghost done: seq<Event>, ghost queued: seq<Event>)
    requires AllValid(queuedBefore) && decoder.waiting == Packed(queuedBefore)
    requires Feed(START, doneBefore) == (decoder.state, earlier)
    modifies decoder
    ensures done + queued == doneBefore + queuedBefore && AllValid(queued) && decoder.waiting == Packed(queued)
    ensures Feed(START, done) == (decoder.state, gestures)
  {
    gestures, done, queued := earlier, doneBefore, queuedBefore;
    hide Feed;
    hide Packed;
    for call := 0 to calls
      invariant done + queued == doneBefore + queuedBefore && AllValid(queued) && decoder.waiting == Packed(queued)
      invariant Feed(START, done) == (decoder.state, gestures)
    {
      ghost var before := decoder.state;
      var gesture, consumed := decoder.TouchRead(queued);
      Consumed(done, consumed, before, decoder.state, gestures, gesture);
      Shift(done, queued, consumed);
      done, queued := done + consumed, queued[|consumed|..];
      if gesture.Some? {
        gestures := gestures + [gesture.value];
      }
    }
  }

  lemma Shift(done: seq<Event>, queued: seq<Event>, consumed: seq<Event>)
    requires consumed <= queued
    ensures (done + consumed) + queued[|consumed|..] == done + queued
  {
    assert queued == consumed + queued[|consumed|..];
  }

  lemma {:induction false} FeedNothing(s: State)
    ensures Feed(s, []) == (s, [])
  {
  }

  function Joined(portions: seq<seq<Event>>): seq<Event> {
    if portions == [] then [] else Joined(portions[..|portions| - 1]) + portions[|portions| - 1]
  }

  lemma {:induction false} PackedAppend(a: seq<Event>, b: seq<Event>)
    requires AllValid(a) && AllValid(b)
    ensures Packed(a + b) == Packed(a) + Packed(b)
  {
    if a == [] {
      assert a + b == b;
    } else {
      PackedAppend(a[1..], b);
      assert (a + b)[1..] == a[1..] + b;
    }
  }

  // ---- Every touch is decoded as what it means ----

  /** Between touches; the coordinates are those of the last one. */
  predicate Idle(s: State) {
    !s.active && !s.pending && s.downX == s.downY == -1 && !s.moved
  }

  /** During a touch that went down at `first` and was last reported at `last`. */
  predicate Held(s: State, first: Point, last: Point, far: bool) {
    && s == State(true, false, last.x, last.y, first.x, first.y, far)
    && first.x >= 0 && first.y >= 0 && (!far ==> !Far(last, first))
  }

  /** The events of one report, one after the other. */
  lemma {:induction false} ReportHeld(s: State, first: Point, last: Point, far: bool, p: Point)
    requires Held(s, first, last, far)
    ensures var q := Clamped(p);
            Feed(s, Report(p)) == (State(true, false, q.x, q.y, first.x, first.y, far || Far(q, first)), [])
  {
    var q, events := Clamped(p), Report(p);
    var s4 := s.(x := q.x, moved := far || q.x - first.x > SLOP || first.x - q.x > SLOP);
    assert Step(s, events[0]) == (s, None) && Step(s, events[1]) == (s, None) && Step(s, events[2]) == (s, None);
    assert Step(s, events[3]) == (s4, None);
    var s5 := State(true, false, q.x, q.y, first.x, first.y, far || Far(q, first));
    assert Step(s4, events[4]) == (s5, None) && Step(s5, events[5]) == (s5, None);
    hide Step;
    FeedSix(s, events, s, s, s, s4, s5, s5);
  }

  lemma {:induction false} FeedSix(s: State, events: seq<Event>, s1: State, s2: State, s3: State, s4: State,
                                   s5: State, s6: State)
    requires |events| == 6
    requires Step(s, events[0]) == (s1, None) && Step(s1, events[1]) == (s2, None) && Step(s2, events[2]) == (s3, None)
    requires Step(s3, events[3]) == (s4, None) && Step(s4, events[4]) == (s5, None) && Step(s5, events[5]) == (s6, None)
    ensures Feed(s, events) == (s6, [])
  {
    hide Step;
    FeedOne(s, [], events[0]);
    FeedOne(s, [events[0]], events[1]);
    FeedOne(s, [events[0], events[1]], events[2]);
    FeedOne(s, [events[0], events[1], events[2]], events[3]);
    FeedOne(s, [events[0], events[1], events[2], events[3]], events[4]);
    FeedOne(s, [events[0], events[1], events[2], events[3], events[4]], events[5]);
    assert events == [events[0], events[1], events[2], events[3], events[4]] + [events[5]];
    assert [] + [events[0]] == [events[0]];
    assert [events[0]] + [events[1]] == [events[0], events[1]];
    assert [events[0], events[1]] + [events[2]] == [events[0], events[1], events[2]];
    assert [events[0], events[1], events[2]] + [events[3]] == [events[0], events[1], events[2], events[3]];
    assert [events[0], events[1], events[2], events[3]] + [events[4]] == [events[0], events[1], events[2], events[3], events[4]];
  }

  lemma {:induction false} MoveHeld(s: State, first: Point, last: Point, far: bool, p: Point)
    requires Held(s, first, last, far)
    ensures var (t, gestures) := Feed(s, TouchEvents(p, Move));
            Held(t, first, Clamped(p), far || Far(Clamped(p), first)) && gestures == []
  {
    ReportHeld(s, first, last, far, p);
    FeedOne(s, Report(p), Event(EV_SYN, SYN_REPORT, 0));
  }

  lemma {:induction false} DownHeld(s: State, p: Point)
    requires Idle(s)
    ensures var (t, gestures) := Feed(s, TouchEvents(p, Down));
            Held(t, Clamped(p), Clamped(p), false) && gestures == []
  {
    var q, events := Clamped(p), Report(p);
    var s1 := s.(active := true);
    var s4 := s1.(x := q.x);
    var s5 := s4.(y := q.y);
    assert Step(s, events[0]) == (s1, None) && Step(s1, events[1]) == (s1, None) && Step(s1, events[2]) == (s1, None);
    assert Step(s1, events[3]) == (s4, None) && Step(s4, events[4]) == (s5, None) && Step(s5, events[5]) == (s5, None);
    FeedSix(s, events, s1, s1, s1, s4, s5, s5);
    FeedOne(s, events, Event(EV_KEY, BTN_TOUCH, 1));
    FeedOne(s, events + [Event(EV_KEY, BTN_TOUCH, 1)], Event(EV_SYN, SYN_REPORT, 0));
    assert TouchEvents(p, Down) == events + [Event(EV_KEY, BTN_TOUCH, 1)] + [Event(EV_SYN, SYN_REPORT, 0)];
  }

  lemma {:induction false} UpDone(s: State, first: Point, last: Point, far: bool, p: Point)
    requires Held(s, first, last, far)
    ensures var (t, gestures) := Feed(s, TouchEvents(p, Up));
            && Idle(t)
            && gestures == [if far then Drag(last.x, last.y, last.x - first.x, last.y - first.y)
                            else Tap(last.x, last.y, last.x - first.x, last.y - first.y)]
  {
    var events := TouchEvents(p, Up);
    FeedOne(s, [], events[0]);
    FeedOne(s, [events[0]], events[1]);
    FeedOne(s, [events[0], events[1]], events[2]);
    assert [] + [events[0]] == [events[0]] && [events[0]] + [events[1]] == [events[0], events[1]];
    assert events == [events[0], events[1]] + [events[2]];
  }

  predicate AnyFar(moves: seq<Point>, first: Point) {
    exists i | 0 <= i < |moves| :: Far(Clamped(moves[i]), first)
  }

  lemma {:induction false} MovesHeld(s: State, down: Point, moves: seq<Point>)
    requires Held(s, Clamped(down), Clamped(down), false)
    ensures var (t, gestures) := Feed(s, MoveEvents(moves));
            Held(t, Clamped(down), LastPoint(Stroke(down, moves)), AnyFar(moves, Clamped(down))) && gestures == []
  {
    if moves != [] {
      var n := |moves| - 1;
      MovesHeld(s, down, moves[..n]);
      var t := Feed(s, MoveEvents(moves[..n])).0;
      MoveHeld(t, Clamped(down), LastPoint(Stroke(down, moves[..n])), AnyFar(moves[..n], Clamped(down)), moves[n]);
      FeedAppend(s, MoveEvents(moves[..n]), TouchEvents(moves[n], Move));
      AnyFarStep(moves, Clamped(down));
    }
  }

  lemma AnyFarStep(moves: seq<Point>, first: Point)
    requires moves != []
    ensures AnyFar(moves, first) <==> AnyFar(moves[..|moves| - 1], first) || Far(Clamped(moves[|moves| - 1]), first)
  {
    var n := |moves| - 1;
    if i :| 0 <= i < n && Far(Clamped(moves[..n][i]), first) {
      assert moves[i] == moves[..n][i];
    }
    if i :| 0 <= i < |moves| && Far(Clamped(moves[i]), first) {
      assert i < n ==> moves[..n][i] == moves[i];
    }
  }

  lemma {:induction false} StrokeDecoded(s: State, stroke: Stroke)
    requires Idle(s)
    ensures var (t, gestures) := Feed(s, StrokeEvents(stroke)); Idle(t) && gestures == [Meaning(stroke)]
  {
    hide Feed;
    hide TouchEvents;
    hide MoveEvents;
    var first := Clamped(stroke.down);
    DownHeld(s, stroke.down);
    var t := Feed(s, TouchEvents(stroke.down, Down)).0;
    MovesHeld(t, stroke.down, stroke.moves);
    var u := Feed(t, MoveEvents(stroke.moves)).0;
    UpDone(u, first, LastPoint(stroke), AnyFar(stroke.moves, first), stroke.down);
    FeedAppend(s, TouchEvents(stroke.down, Down), MoveEvents(stroke.moves));
    FeedAppend(s, TouchEvents(stroke.down, Down) + MoveEvents(stroke.moves), TouchEvents(stroke.down, Up));
  }

  function Meanings(strokes: seq<Stroke>): (gestures: seq<Gesture>)
    ensures |gestures| == |strokes|
    ensures forall i | 0 <= i < |strokes| :: gestures[i] == Meaning(strokes[i])
  {
    if strokes == [] then [] else Meanings(strokes[..|strokes| - 1]) + [Meaning(strokes[|strokes| - 1])]
  }

  /** One gesture per touch, in order: a tap exactly if no point was far, at the last reported position. */
  lemma {:induction false} StrokesDecoded(strokes: seq<Stroke>)
    ensures var (t, gestures) := Feed(START, AllEvents(strokes));
            Idle(t) && gestures == Meanings(strokes)
  {
    FeedNothing(START);
    assert Idle(START);
    hide Feed;
    hide StrokeEvents;
    hide Meaning;
    hide Idle;
    if strokes != [] {
      var n := |strokes| - 1;
      var front := AllEvents(strokes[..n]);
      StrokesDecoded(strokes[..n]);
      StrokeDecoded(Feed(START, front).0, strokes[n]);
      FeedAppend(START, front, StrokeEvents(strokes[n]));
    }
  }
}
