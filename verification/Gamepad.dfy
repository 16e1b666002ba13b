/** The gamepad pump (src/jni_shim.c:62-162): polled snapshots of a controller become button and axis
    events for the game. Axis values are exact numbers. */
module Gamepad {
  import opened Prelude

  datatype Button =
    | PadA | PadB | PadX | PadY | PadStart | PadBack | LeftShoulder | RightShoulder
    | DpadUp | DpadDown | DpadLeft | DpadRight | LeftStick | RightStick

  const BTNMAP: seq<(Button, nat)> := [
    (PadA, 0), (PadB, 1), (PadX, 2), (PadY, 3), (PadStart, 4), (PadBack, 5), (LeftShoulder, 6), (RightShoulder, 7),
    (DpadUp, 8), (DpadDown, 9), (DpadLeft, 10), (DpadRight, 11), (LeftStick, 16), (RightStick, 18)]

  const IDS: nat := 20
  const AXES: nat := 6
  const LEFT_TRIGGER_ID: nat := 17
  const RIGHT_TRIGGER_ID: nat := 19
  const PULLED: int := 12000

  /** One update of the controller; axes are left x, y, right x, y, left and right trigger. */
  datatype Reading = Reading(pressed: set<Button>, axes: seq<int>)

  predicate IsReading(r: Reading) { |r.axes| == AXES && forall i | 0 <= i < AXES :: -32768 <= r.axes[i] <= 32767 }

  /** Which of the game's entry points there are; a pump that has not looked yet has null ones. */
  datatype Callbacks = Callbacks(down: bool, up: bool, axes: bool, count: bool) {
    predicate All() { down && up && axes && count }
  }

  datatype Event = Down(id: nat) | Up(id: nat) | Axes(values: seq<real>) | Count

  datatype Pad = Pad(instance: Option<int>, inited: bool, cbs: Callbacks, last: seq<bool>, la: seq<real>, exited: bool)

  function Released(): (last: seq<bool>)
    ensures |last| == IDS && forall g | 0 <= g < IDS :: !last[g]
  {
    seq(IDS, _ => false)
  }

  function Centred(): (la: seq<real>)
    ensures |la| == AXES && forall i | 0 <= i < AXES :: la[i] == 0.0
  {
    seq(AXES, _ => 0.0)
  }

  predicate WellFormed(s: Pad) { |s.last| == IDS && |s.la| == AXES }

  // ----- what a poll does, on values -----

  /** The 14 buttons and the two triggers, in the order of the source. */
  const SOURCES: nat := 16

  function IdOf(k: nat): (id: nat)
    requires k < SOURCES
    ensures id < IDS
  {
    if k < 14 then BTNMAP[k].1 else if k == 14 then LEFT_TRIGGER_ID else RIGHT_TRIGGER_ID
  }

  predicate Held(r: Reading, k: nat)
    requires k < SOURCES && IsReading(r)
  {
    if k < 14 then BTNMAP[k].0 in r.pressed else if k == 14 then r.axes[4] > PULLED else r.axes[5] > PULLED
  }

  function Edge(p: bool, g: nat): Event { if p then Down(g) else Up(g) }

  /** The remembered state and the events after the first n sources. */
  function ButtonRun(r: Reading, last: seq<bool>, n: nat): (out: (seq<bool>, seq<Event>))
    requires n <= SOURCES && IsReading(r) && |last| == IDS
    ensures |out.0| == IDS
  {
    if n == 0 then (last, [])
    else
      var (l, es) := ButtonRun(r, last, n - 1);
      var g, p := IdOf(n - 1), Held(r, n - 1);
      if p != l[g] then (l[g := p], es + [Edge(p, g)]) else (l, es)
  }

  function Abs(x: real): real { if x < 0.0 then -x else x }

  /** Lines 147-155: sticks have a dead zone around the centre, triggers below 0.15. */
  function AxisValue(r: Reading, i: nat): real
    requires i < AXES && IsReading(r)
  {
    var v := r.axes[i] as real / 32768.0;
    if (if i < 4 then Abs(v) else v) < 0.15 then 0.0 else v
  }

  function AxisValues(r: Reading): (a: seq<real>)
    requires IsReading(r)
    ensures |a| == AXES
  {
    seq(AXES, i requires 0 <= i < AXES => AxisValue(r, i))
  }

  predicate Moved(a: seq<real>, la: seq<real>)
    requires |a| == |la| == AXES
  {
    exists i :: 0 <= i < AXES && Abs(a[i] - la[i]) > 0.02
  }

  datatype Input =
    | Connect(isController: bool, handle: Option<int>)
    | Disconnect(instance: int)
    | Poll(found: Callbacks, reading: Reading)

  function Reset(s: Pad, instance: Option<int>): Pad {
    s.(instance := instance, inited := false, last := Released(), la := Centred())
  }

  /** What one input makes of the state, and the events sent since the last reset. */
  function Step(s: Pad, sent: seq<Event>, i: Input): (n: (Pad, seq<Event>))
    requires WellFormed(s) && (i.Poll? ==> IsReading(i.reading))
    ensures WellFormed(n.0)
  {
    if s.exited then (s, sent)
    else match i
      case Connect(isController, handle) =>
        if !isController || s.instance.Some? || handle == None then (s, sent) else (Reset(s, handle), [])
      case Disconnect(instance) => if s.instance != Some(instance) then (s, sent) else (Reset(s, None), [])
      case Poll(found, r) => if s.instance == None then (s, sent) else PollStep(s, sent, found, r)
  }

  /** Lines 115-124: the first poll of a connection looks up the entry points and announces the pad.
      so_symbol is so_find_addr, which ends the process when there is no such symbol
      (src/so_util_x64.h:8, src/so_util.c:386-392). */
  function Announced(s: Pad, sent: seq<Event>, found: Callbacks): (n: (Pad, seq<Event>)) {
    if s.inited then (s, sent)
    else if !found.All() then (s.(exited := true), sent)
    else (s.(cbs := found, inited := true), sent + [Count])
  }

  /** Lines 62-67. */
  predicate IsExitHotkey(r: Reading) { PadBack in r.pressed && PadStart in r.pressed }

  function PollStep(s: Pad, sent: seq<Event>, found: Callbacks, r: Reading): (n: (Pad, seq<Event>))
    requires WellFormed(s) && IsReading(r)
    ensures WellFormed(n.0)
  {
    var (t, log) := Announced(s, sent, found);
    if t.exited || IsExitHotkey(r) then (t.(exited := true), log)
    else
      var (l, es) := ButtonRun(r, t.last, SOURCES);
      var a := AxisValues(r);
      if Moved(a, t.la) then (t.(last := l, la := a), log + es + [Axes(a)]) else (t.(last := l), log + es)
  }

  /** After n sources the state and the log are those of ButtonRun. */
  ghost predicate Sent(r: Reading, was: seq<bool>, before: seq<Event>, n: nat, now: seq<bool>, sent: seq<Event>) {
    && n <= SOURCES && IsReading(r) && |was| == |now| == IDS
    && now == ButtonRun(r, was, n).0 && sent == before + ButtonRun(r, was, n).1
  }

  lemma SentStart(r: Reading, was: seq<bool>, before: seq<Event>)
    requires IsReading(r) && |was| == IDS
    ensures Sent(r, was, before, 0, was, before)
  {
  }

  lemma SentNext(r: Reading, was: seq<bool>, before: seq<Event>, n: nat, now: seq<bool>, sent: seq<Event>)
    requires Sent(r, was, before, n, now, sent) && n < SOURCES
    ensures |r.axes| == AXES && |now| == IDS
    ensures var g, p := if n < 14 then BTNMAP[n].1 else if n == 14 then 17 else 19,
                        if n < 14 then BTNMAP[n].0 in r.pressed else if n == 14 then r.axes[4] > 12000
                            else r.axes[5] > 12000;
            && g < IDS
            && if p == now[g] then Sent(r, was, before, n + 1, now, sent)
               else Sent(r, was, before, n + 1, now[g := p], sent + [Edge(p, g)])
  {
    hide Edge;
    Assoc(before, ButtonRun(r, was, n).1, [Edge(Held(r, n), IdOf(n))]);
  }

  // ----- the pump -----

  class Pump {
    var instance: Option<int>   // the open controller, if any
    var inited: bool
    var cbs: Callbacks
    const last: array<bool>
    const la: array<real>
    var exited: bool
    ghost var sent: seq<Event>  // callbacks made since the last reset

    constructor ()
      ensures Valid() && State() ==
          Pad(None, false, Callbacks(false, false, false, false), Released(), Centred(), false) && sent == []
      ensures fresh(last) && fresh(la)
    {
      instance, inited, exited, sent := None, false, false, [];
      cbs := Callbacks(false, false, false, false);
      last := new bool[IDS](_ => false);
      la := new real[AXES](_ => 0.0);
    }

    /** A pump in use has all its entry points, so the tests for null ones below always succeed. */
    ghost predicate Valid()
      reads this
    {
      last.Length == IDS && la.Length == AXES && (inited ==> cbs.All())
    }

    ghost function State(): Pad
      reads this, last, la
    {
      Pad(instance, inited, cbs, last[..], la[..], exited)
    }

    /** gamepad_reset. */
    method ResetPump()
      requires Valid()
      modifies this`inited, this`sent, last, la
      ensures Valid() && State() == Reset(old(State()), instance) && sent == []
    {
      inited := false;
      forall i | 0 <= i < IDS {
        last[i] := false;
      }
      forall i | 0 <= i < AXES {
        la[i] := 0.0;
      }
      sent := [];
    }

    /** jni_gamepad_connect; handle is what SDL_GameControllerOpen returns. */
    method ConnectPad(isController: bool, handle: Option<int>)
      requires Valid() && !exited
      modifies this, last, la
      ensures Valid() && (State(), sent) == Step(old(State()), old(sent), Connect(isController, handle))
    {
      if !isController || instance.Some? { return; }
      if handle == None { return; }
      instance := handle;
      ResetPump();
    }

    /** jni_gamepad_disconnect. */
    method DisconnectPad(id: int)
      requires Valid() && !exited
      modifies this, last, la
      ensures Valid() && (State(), sent) == Step(old(State()), old(sent), Disconnect(id))
    {
      if instance == None { return; }
      if instance.value != id { return; }
      instance := None;
      ResetPump();
    }

    /** Lines 130-134, 138-141 or 142-145 for one button or trigger. */
    method Report(g: nat, p: bool)
      requires Valid() && inited && g < IDS
      modifies this`sent, last
      ensures if p == old(last[g]) then last[..] == old(last[..]) && sent == old(sent)
              else last[..] == old(last[..])[g := p] && sent == old(sent) + [Edge(p, g)]
    {
      if p != last[g] {
        if p {
          if cbs.down { sent := sent + [Down(g)]; }
        } else {
          if cbs.up { sent := sent + [Up(g)]; }
        }
        last[g] := p;
      }
    }

    /** Lines 127-145. */
    method ReportButtons(r: Reading)
      requires Valid() && inited && IsReading(r)
      modifies this`sent, last
      ensures Sent(r, old(last[..]), old(sent), SOURCES, last[..], sent)
    {
      hide Sent, ButtonRun, Edge;
      SentStart(r, last[..], sent);
      for i := 0 to 14
        invariant Sent(r, old(last[..]), old(sent), i, last[..], sent)
      {
        SentNext(r, old(last[..]), old(sent), i, last[..], sent);
        Report(BTNMAP[i].1, BTNMAP[i].0 in r.pressed);
      }
      var lt, rt := r.axes[4] > 12000, r.axes[5] > 12000;
      SentNext(r, old(last[..]), old(sent), 14, last[..], sent);
      Report(17, lt);
      SentNext(r, old(last[..]), old(sent), 15, last[..], sent);
      Report(19, rt);
    }

    /** Lines 146-155. */
    method ReadAxes(r: Reading) returns (a: array<real>)
      requires IsReading(r)
      ensures fresh(a) && a[..] == AxisValues(r)
    {
      a := new real[AXES](i requires 0 <= i < AXES => r.axes[i] as real / 32768.0);
      for i := 0 to 4
        invariant forall j | 0 <= j < AXES :: a[j] == if j < i then AxisValue(r, j) else r.axes[j] as real / 32768.0
      {
        if Abs(a[i]) < 0.15 { a[i] := 0.0; }
      }
      if a[4] < 0.15 { a[4] := 0.0; }
      if a[5] < 0.15 { a[5] := 0.0; }
    }

    /** Lines 156-157. */
    method HasMoved(a: array<real>) returns (ch: bool)
      requires Valid() && a.Length == AXES
      ensures ch == Moved(a[..], la[..])
    {
      ch := false;
      for i := 0 to AXES
        invariant forall j | 0 <= j < i :: Abs(a[..][j] - la[..][j]) <= 0.02
      {
        if Abs(a[i] - la[i]) > 0.02 {
          assert Abs(a[..][i] - la[..][i]) > 0.02;
          return true;
        }
      }
    }

    /** Lines 146-161. */
    method ReportAxes(r: Reading)
      requires Valid() && inited && IsReading(r)
      modifies this`sent, la
      ensures if Moved(AxisValues(r), old(la[..])) then
                la[..] == AxisValues(r) && sent == old(sent) + [Axes(AxisValues(r))]
              else la[..] == old(la[..]) && sent == old(sent)
    {
      hide Moved, AxisValues;
      var a := ReadAxes(r);
      var ch := HasMoved(a);
      if ch && cbs.axes {
        sent := sent + [Axes(a[..])];
        forall i | 0 <= i < AXES {
          la[i] := a[i];
        }
        assert la[..] == a[..];
      }
    }

    /** jni_pump_gamepad; found are the entry points the game has, exited says that the process has
        ended. */
    method PumpOnce(found: Callbacks, r: Reading)
      requires Valid() && !exited && IsReading(r)
      modifies this, last, la
      ensures Valid() && (State(), sent) == Step(old(State()), old(sent), Poll(found, r))
    {
      if instance == None { return; }
      if !inited {
        if !found.All() {
          exited := true;
          return;
        }
        cbs := found;
        if cbs.count { sent := sent + [Count]; }
        inited := true;
      }
      if PadBack in r.pressed && PadStart in r.pressed {
        exited := true;
        return;
      }
      hide ButtonRun, AxisValues, Moved;
      ReportButtons(r);
      ReportAxes(r);
    }
  }

  // ----- what the game can reconstruct -----

  /** Whether button g is down after these events. */
  function Replay(es: seq<Event>, g: nat): bool {
    if es == [] then false
    else if es[|es| - 1] == Down(g) then true
    else if es[|es| - 1] == Up(g) then false
    else Replay(es[..|es| - 1], g)
  }

  /** The event fits what went before: a button goes down when it is up, and up when it is down. */
  predicate Fits(es: seq<Event>, e: Event) {
    match e case Down(g) => !Replay(es, g) case Up(g) => Replay(es, g) case _ => true
  }

  /** Per button, downs and ups alternate, beginning with a down. */
  predicate Alternates(es: seq<Event>) {
    es == [] || (Fits(es[..|es| - 1], es[|es| - 1]) && Alternates(es[..|es| - 1]))
  }

  /** The axes as last reported; the game starts from centred ones. */
  function LastAxes(es: seq<Event>): seq<real> {
    if es == [] then Centred() else if es[|es| - 1].Axes? then es[|es| - 1].values else LastAxes(es[..|es| - 1])
  }

  /** The count notification comes once, before everything else. */
  predicate CountedFirst(es: seq<Event>) { es != [] && es[0] == Count && Count !in es[1..] }

  ghost predicate Tracks(s: Pad, sent: seq<Event>) {
    WellFormed(s) && Alternates(sent) && CountedFirst(sent) && forall g: nat | g < IDS :: s.last[g] == Replay(sent, g)
  }

  /** What every run keeps. An initialised pump has all its entry points. */
  ghost predicate Inv(s: Pad, sent: seq<Event>) {
    && WellFormed(s) && (s.instance == None ==> !s.inited)
    && (!s.inited ==> sent == [] && s.last == Released() && s.la == Centred())
    && (s.inited ==> s.cbs.All() && Tracks(s, sent) && LastAxes(sent) == s.la)
  }

  lemma SnocLast(es: seq<Event>, e: Event)
    ensures (es + [e])[..|es|] == es && (es + [e])[|es|] == e
  {
  }

  /** Appending an event. */
  lemma Appended(es: seq<Event>, e: Event)
    ensures forall g :: Replay(es + [e], g) == if e == Down(g) then true else if e == Up(g) then false
        else Replay(es, g)
    ensures Alternates(es + [e]) <==> Fits(es, e) && Alternates(es)
    ensures LastAxes(es + [e]) == if e.Axes? then e.values else LastAxes(es)
  {
    SnocLast(es, e);
    hide Fits;
  }

  lemma StaysCounted(es: seq<Event>, e: Event)
    requires e != Count && CountedFirst(es)
    ensures CountedFirst(es + [e])
  {
    assert (es + [e])[1..] == es[1..] + [e];
  }

  /** One button edge keeps the log in step with the remembered state. */
  lemma EdgeTracks(s: Pad, sent: seq<Event>, p: bool, g: nat)
    requires Tracks(s, sent) && g < IDS && p != s.last[g]
    ensures Tracks(s.(last := s.last[g := p]), sent + [Edge(p, g)])
    ensures LastAxes(sent + [Edge(p, g)]) == LastAxes(sent)
  {
    Appended(sent, Edge(p, g));
    StaysCounted(sent, Edge(p, g));
    hide Alternates, Replay, LastAxes, CountedFirst;
  }

  lemma {:induction false} ButtonsTrack(s: Pad, sent: seq<Event>, r: Reading, n: nat)
    requires Tracks(s, sent) && IsReading(r) && n <= SOURCES
    ensures var (l, es) := ButtonRun(r, s.last, n);
            Tracks(s.(last := l), sent + es) && LastAxes(sent + es) == LastAxes(sent)
  {
    assert |s.last| == IDS;
    hide Tracks, LastAxes, Edge;
    if n == 0 {
      assert sent + [] == sent;
      assert s.(last := s.last) == s;
    } else {
      var (l, es) := ButtonRun(r, s.last, n - 1);
      ButtonsTrack(s, sent, r, n - 1);
      var g, p := IdOf(n - 1), Held(r, n - 1);
      hide IdOf, Held;
      if p != l[g] {
        EdgeTracks(s.(last := l), sent + es, p, g);
        Assoc(sent, es, [Edge(p, g)]);
      }
    }
  }

  /** Different sources have different ids. */
  lemma IdsDiffer(j: nat, k: nat)
    requires j < SOURCES && k < SOURCES && j != k
    ensures IdOf(j) != IdOf(k)
  {
  }

  /** After a poll the remembered state is what was polled. */
  lemma {:induction false} ButtonsPolled(r: Reading, last: seq<bool>, n: nat, k: nat)
    requires IsReading(r) && |last| == IDS && k < n <= SOURCES
    ensures ButtonRun(r, last, n).0[IdOf(k)] == Held(r, k)
  {
    if k == n - 1 {
    } else {
      ButtonsPolled(r, last, n - 1, k);
      IdsDiffer(k, n - 1);
    }
    hide IdOf, Held, Edge;
  }

  lemma AnnouncedInv(s: Pad, sent: seq<Event>, found: Callbacks)
    requires Inv(s, sent) && s.instance.Some? && !s.exited
    ensures Inv(Announced(s, sent, found).0, Announced(s, sent, found).1)
    ensures Announced(s, sent, found).0.inited || Announced(s, sent, found).0.exited
  {
    hide Replay, Alternates, LastAxes, CountedFirst, Released, Centred;
    if !s.inited {
      FirstEvent();
      assert sent + [Count] == [Count];
    }
  }

  /** What the game knows after the count. */
  lemma FirstEvent()
    ensures (forall g :: !Replay([Count], g)) && Alternates([Count]) && LastAxes([Count]) == Centred()
        && CountedFirst([Count])
  {
    assert [] + [Count] == [Count];
    Appended([], Count);
    hide Fits;
  }

  lemma PollInv(s: Pad, sent: seq<Event>, found: Callbacks, r: Reading)
    requires Inv(s, sent) && s.instance.Some? && !s.exited && IsReading(r)
    ensures Inv(PollStep(s, sent, found, r).0, PollStep(s, sent, found, r).1)
    ensures PollStep(s, sent, found, r).0.inited || PollStep(s, sent, found, r).0.exited
  {
    AnnouncedInv(s, sent, found);
    var (t, log) := Announced(s, sent, found);
    hide Announced, ButtonRun, AxisValues, Moved, Tracks, LastAxes;
    if t.inited {
      ButtonsTrack(t, log, r, SOURCES);
      AxesTrack(t.(last := ButtonRun(r, t.last, SOURCES).0), log + ButtonRun(r, t.last, SOURCES).1, AxisValues(r));
    }
    TracksExited(t, log);
  }

  lemma TracksExited(s: Pad, sent: seq<Event>)
    ensures Tracks(s, sent) ==> Tracks(s.(exited := true), sent)
  {
    hide Alternates, CountedFirst;
  }

  lemma AxesTrack(s: Pad, sent: seq<Event>, a: seq<real>)
    requires Tracks(s, sent) && |a| == AXES
    ensures Tracks(s.(la := a), sent + [Axes(a)]) && LastAxes(sent + [Axes(a)]) == a
  {
    Appended(sent, Axes(a));
    StaysCounted(sent, Axes(a));
    hide Alternates, Replay, LastAxes, CountedFirst;
  }

  /** Every input keeps the invariant. */
  lemma StepInv(s: Pad, sent: seq<Event>, i: Input)
    requires Inv(s, sent) && (i.Poll? ==> IsReading(i.reading))
    ensures Inv(Step(s, sent, i).0, Step(s, sent, i).1)
  {
    hide PollStep, Tracks, LastAxes, CountedFirst;
    if i.Poll? && s.instance.Some? && !s.exited {
      hide Inv;
      PollInv(s, sent, i.found, i.reading);
    }
  }

  // ----- whole runs -----

  predicate AreReadings(inputs: seq<Input>) { forall i | i in inputs :: i.Poll? ==> IsReading(i.reading) }

  /** State and current connection's events after inputs, from a pump that has seen none. */
  function Run(inputs: seq<Input>): (n: (Pad, seq<Event>))
    requires AreReadings(inputs)
    ensures WellFormed(n.0)
  {
    if inputs == [] then (Pad(None, false, Callbacks(false, false, false, false), Released(), Centred(), false), [])
    else
      var (s, sent) := Run(inputs[..|inputs| - 1]);
      Step(s, sent, inputs[|inputs| - 1])
  }

  lemma {:induction false} RunInv(inputs: seq<Input>)
    requires AreReadings(inputs)
    ensures Inv(Run(inputs).0, Run(inputs).1)
  {
    if inputs == [] {
    } else {
      hide Step, Inv;
      var before := inputs[..|inputs| - 1];
      assert inputs[|inputs| - 1] in inputs;
      RunInv(before);
      StepInv(Run(before).0, Run(before).1, inputs[|inputs| - 1]);
    }
  }

  // ----- the open controller -----

  /** Input p opens controller k, and it is not unplugged afterwards. */
  ghost predicate StaysOpen(inputs: seq<Input>, k: int, p: int)
    requires AreReadings(inputs)
  {
    && 0 <= p < |inputs| && inputs[p] == Connect(true, Some(k))
    && Run(inputs[..p]).0.instance == None && forall q | p < q < |inputs| :: inputs[q] != Disconnect(k)
  }

  lemma StaysOpenNext(inputs: seq<Input>, k: int, p: int)
    requires AreReadings(inputs) && inputs != []
    ensures var n := |inputs| - 1;
            StaysOpen(inputs, k, p) <==>
              if p == n then inputs[n] == Connect(true, Some(k)) && Run(inputs[..n]).0.instance == None
              else StaysOpen(inputs[..n], k, p) && inputs[n] != Disconnect(k)
  {
    hide Run;
    var n := |inputs| - 1;
    assert 0 <= p < n ==> inputs[..n][..p] == inputs[..p];
  }

  lemma StepInstance(s: Pad, sent: seq<Event>, i: Input, k: int)
    requires WellFormed(s) && (i.Poll? ==> IsReading(i.reading)) && !s.exited
    ensures Step(s, sent, i).0.instance == Some(k) <==>
            (s.instance == Some(k) && i != Disconnect(k)) || (s.instance == None && i == Connect(true, Some(k)))
  {
    hide ButtonRun, AxisValues, Moved;
  }

  /** While the process runs, controller k is open exactly when some connection opened it while none
      was open and it has not been unplugged since: a second controller is ignored, and so is the
      unplugging of any other. */
  lemma {:induction false} InstanceIff(inputs: seq<Input>, k: int)
    requires AreReadings(inputs) && !Run(inputs).0.exited
    ensures Run(inputs).0.instance == Some(k) <==> exists p :: StaysOpen(inputs, k, p)
  {
    if inputs == [] {
    } else {
      var n := |inputs| - 1;
      assert inputs[n] in inputs;
      hide Step, StaysOpen, Released, Centred;
      assert !Run(inputs[..n]).0.exited by { RunningBefore(inputs); }
      InstanceIff(inputs[..n], k);
      StepInstance(Run(inputs[..n]).0, Run(inputs[..n]).1, inputs[n], k);
      if Run(inputs).0.instance == Some(k) {
        var p := n;
        if Run(inputs[..n]).0.instance == Some(k) {
          p := OpenedBefore(inputs[..n], k);
        }
        StaysOpenNext(inputs, k, p);
        assert StaysOpen(inputs, k, p);
      }
      if p :| StaysOpen(inputs, k, p) {
        StaysOpenNext(inputs, k, p);
        assert p == n || StaysOpen(inputs[..n], k, p);
      }
    }
  }

  lemma RunningBefore(inputs: seq<Input>)
    requires AreReadings(inputs) && inputs != [] && !Run(inputs).0.exited
    ensures !Run(inputs[..|inputs| - 1]).0.exited
  {
    assert inputs[|inputs| - 1] in inputs;
    hide PollStep;
  }

  lemma OpenedBefore(inputs: seq<Input>, k: int) returns (p: int)
    requires AreReadings(inputs) && exists q :: StaysOpen(inputs, k, q)
    ensures 0 <= p < |inputs| && StaysOpen(inputs, k, p)
  {
    hide Run;
    p :| StaysOpen(inputs, k, p);
  }

  // ----- what a reading is, in numbers -----

  predicate Near(x: real, y: real) { -0.02 <= x - y <= 0.02 }

  /** 4915 is the greatest number below 0.15 * 32768. */
  predicate InDeadZone(r: Reading, i: nat)
    requires i < AXES && IsReading(r)
  {
    r.axes[i] <= 4915 && (i < 4 ==> -4915 <= r.axes[i])
  }

  lemma AxisValueIs(r: Reading, i: nat)
    requires i < AXES && IsReading(r)
    ensures AxisValue(r, i) == if InDeadZone(r, i) then 0.0 else r.axes[i] as real / 32768.0
  {
    var v := r.axes[i];
    assert v <= 4915 || v >= 4916;
    assert v >= -4915 || v <= -4916;
  }

  /** In every run, a pump that is initialised has all four entry points: none of its tests for a null
      one ever fails. */
  lemma RunHasCallbacks(inputs: seq<Input>)
    requires AreReadings(inputs)
    ensures Run(inputs).0.inited ==> Run(inputs).0.cbs.All()
  {
    RunInv(inputs);
    hide Run, Tracks;
  }

  /** Replaying the button events gives what was polled, id by id; a trigger counts as a button when it
      is more than 12000 down. */
  ghost predicate KnowsButtons(sent: seq<Event>, r: Reading)
    requires IsReading(r)
  {
    && Replay(sent, 0) == (PadA in r.pressed) && Replay(sent, 1) == (PadB in r.pressed)
    && Replay(sent, 2) == (PadX in r.pressed) && Replay(sent, 3) == (PadY in r.pressed)
    && Replay(sent, 4) == (PadStart in r.pressed) && Replay(sent, 5) == (PadBack in r.pressed)
    && Replay(sent, 6) == (LeftShoulder in r.pressed) && Replay(sent, 7) == (RightShoulder in r.pressed)
    && Replay(sent, 8) == (DpadUp in r.pressed) && Replay(sent, 9) == (DpadDown in r.pressed)
    && Replay(sent, 10) == (DpadLeft in r.pressed) && Replay(sent, 11) == (DpadRight in r.pressed)
    && Replay(sent, 16) == (LeftStick in r.pressed) && Replay(sent, 18) == (RightStick in r.pressed)
    && Replay(sent, 17) == (r.axes[4] > 12000) && Replay(sent, 19) == (r.axes[5] > 12000)
  }

  /** Every axis as last reported is within 0.02 of the polled one, or of 0 in its dead zone. */
  ghost predicate KnowsAxes(sent: seq<Event>, r: Reading)
    requires IsReading(r)
  {
    && |LastAxes(sent)| == 6
    && forall i: nat | i < 6 ::
         Near(LastAxes(sent)[i], if InDeadZone(r, i) then 0.0 else r.axes[i] as real / 32768.0)
  }

  /** The game knows the reading. */
  ghost predicate Knows(sent: seq<Event>, r: Reading)
    requires IsReading(r)
  {
    KnowsButtons(sent, r) && KnowsAxes(sent, r)
  }

  lemma KnowsSources(sent: seq<Event>, r: Reading)
    requires IsReading(r)
    ensures KnowsButtons(sent, r) <==> forall k: nat | k < SOURCES :: Replay(sent, IdOf(k)) == Held(r, k)
  {
    hide Replay;
    var f := (k: nat) requires k < SOURCES => Replay(sent, IdOf(k)) == Held(r, k);
    assert (forall k: nat | k < SOURCES :: Replay(sent, IdOf(k)) == Held(r, k)) <==>
        && f(0) && f(1) && f(2) && f(3) && f(4) && f(5) && f(6) && f(7) && f(8) && f(9) && f(10) && f(11)
        && f(12) && f(13) && f(14) && f(15);
  }

  lemma KnowsIs(sent: seq<Event>, r: Reading)
    requires IsReading(r) && |LastAxes(sent)| == AXES
    requires forall k: nat | k < SOURCES :: Replay(sent, IdOf(k)) == Held(r, k)
    requires forall i: nat | i < AXES :: Near(LastAxes(sent)[i], AxisValue(r, i))
    ensures Knows(sent, r)
  {
    KnowsSources(sent, r);
    forall i: nat | i < AXES {
      AxisValueIs(r, i);
    }
    hide Replay, IdOf, Held, LastAxes, AxisValue, InDeadZone, KnowsButtons;
  }

  /** In every run, after every poll of a connected controller that the process survives: the events of
      this connection tell the game the reading, downs and ups alternate, and the count came once,
      first. */
  lemma RunReports(inputs: seq<Input>, found: Callbacks, r: Reading)
    requires AreReadings(inputs) && IsReading(r)
    requires Run(inputs).0.instance.Some? && !Step(Run(inputs).0, Run(inputs).1, Poll(found, r)).0.exited
    ensures var sent := Step(Run(inputs).0, Run(inputs).1, Poll(found, r)).1;
            Knows(sent, r) && Alternates(sent) && CountedFirst(sent)
  {
    RunInv(inputs);
    hide Run;
    PollReports(Run(inputs).0, Run(inputs).1, found, r);
  }

  lemma PollReports(s: Pad, sent: seq<Event>, found: Callbacks, r: Reading)
    requires Inv(s, sent) && s.instance.Some? && IsReading(r) && !Step(s, sent, Poll(found, r)).0.exited
    ensures var log := Step(s, sent, Poll(found, r)).1; Knows(log, r) && Alternates(log) && CountedFirst(log)
  {
    PollInv(s, sent, found, r);
    PollStates(s, sent, found, r);
    hide PollStep, IdOf, Held, Near, AxisValue, Replay, Alternates, LastAxes, CountedFirst, Knows;
    KnowsIs(Step(s, sent, Poll(found, r)).1, r);
  }

  lemma PollStates(s: Pad, sent: seq<Event>, found: Callbacks, r: Reading)
    requires WellFormed(s) && IsReading(r) && !PollStep(s, sent, found, r).0.exited
    ensures var n := PollStep(s, sent, found, r).0;
            && n.inited && WellFormed(n)
            && (forall k: nat | k < SOURCES :: n.last[IdOf(k)] == Held(r, k))
            && (forall i: nat | i < AXES :: Near(n.la[i], AxisValue(r, i)))
  {
    var (t, log) := Announced(s, sent, found);
    forall k: nat | k < SOURCES
      ensures ButtonRun(r, t.last, SOURCES).0[IdOf(k)] == Held(r, k)
    {
      ButtonsPolled(r, t.last, SOURCES, k);
    }
    hide ButtonRun, IdOf, Held, AxisValue;
    assert forall i: nat | i < AXES :: AxisValues(r)[i] == AxisValue(r, i);
    assert forall i: nat | i < AXES && !Moved(AxisValues(r), t.la) :: Abs(AxisValues(r)[i] - t.la[i]) <= 0.02;
  }

  lemma {:induction false} NoEdges(r: Reading, last: seq<bool>, n: nat)
    requires IsReading(r) && |last| == IDS && n <= SOURCES
    requires forall k: nat | k < SOURCES :: last[IdOf(k)] == Held(r, k)
    ensures ButtonRun(r, last, n) == (last, [])
  {
    if n == 0 {
    } else {
      NoEdges(r, last, n - 1);
      hide IdOf, Held;
    }
  }

  lemma NotMoved(sent: seq<Event>, r: Reading, la: seq<real>)
    requires IsReading(r) && KnowsAxes(sent, r) && la == LastAxes(sent)
    ensures |la| == AXES && !Moved(AxisValues(r), la)
  {
    forall i: nat | i < AXES {
      AxisValueIs(r, i);
    }
    hide LastAxes, InDeadZone, AxisValue;
    assert forall i: nat | i < AXES :: AxisValues(r)[i] == AxisValue(r, i) && Near(la[i], AxisValue(r, i));
  }

  lemma KnownIsQuiet(s: Pad, sent: seq<Event>, found: Callbacks, r: Reading)
    requires Inv(s, sent) && s.inited && !s.exited && IsReading(r) && !IsExitHotkey(r) && Knows(sent, r)
    ensures PollStep(s, sent, found, r) == (s, sent)
  {
    KnowsSources(sent, r);
    NotMoved(sent, r, s.la);
    hide Replay, IdOf, Held, LastAxes, Alternates, CountedFirst, Knows, KnowsButtons, KnowsAxes, AxisValues, Moved;
    NoEdges(r, s.last, SOURCES);
    hide ButtonRun;
    assert sent + [] == sent;
  }

  /** A poll sends nothing exactly when the game knows the reading already. */
  lemma QuietIff(inputs: seq<Input>, found: Callbacks, r: Reading)
    requires AreReadings(inputs) && IsReading(r) && !(PadBack in r.pressed && PadStart in r.pressed)
    requires var s := Run(inputs).0; s.instance.Some? && s.inited && !s.exited
    ensures Step(Run(inputs).0, Run(inputs).1, Poll(found, r)) == Run(inputs) <==> Knows(Run(inputs).1, r)
  {
    RunInv(inputs);
    hide Run, Knows;
    var (s, sent) := Run(inputs);
    if Knows(sent, r) {
      KnownIsQuiet(s, sent, found, r);
    } else if Step(s, sent, Poll(found, r)) == (s, sent) {
      hide Step, Inv;
      PollReports(s, sent, found, r);
    }
  }

  /** A poll ends the process exactly when the hotkey is held or an entry point is missing at the first
      poll, and then it has sent no button and no axis. */
  lemma ExitBeforeButtons(s: Pad, sent: seq<Event>, found: Callbacks, r: Reading)
    requires WellFormed(s) && s.instance.Some? && !s.exited && IsReading(r)
    ensures var (n, log) := Step(s, sent, Poll(found, r));
            && (n.exited <==>
                  || (PadBack in r.pressed && PadStart in r.pressed)
                  || (!s.inited && !(found.down && found.up && found.axes && found.count)))
            && (n.exited ==> n.last == s.last && n.la == s.la)
            && (n.exited ==>
                  log == if !s.inited && found.down && found.up && found.axes && found.count then sent + [Count]
                         else sent)
  {
    hide ButtonRun, AxisValues, Moved;
  }
}
