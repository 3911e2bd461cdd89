/**
  The server's virtual keyboard and pointer: the pressed sets it keeps, the events it emits, and
  the keys and buttons the devices hold down as a result.
*/
module UinputSink {
  import opened Prelude
  import opened Message

  /** An evdev key or button code. */
  type EvCode = nat

  datatype DeviceEvent = KeyEvent(code: EvCode, down: bool) | Relative(vertical: bool, amount: i16) | Absolute(y: bool, position: u16)

  /** The key and the button table; nothing is assumed about them. */
  datatype Tables = Tables(key: KeyCode -> Option<EvCode>, button: MouseButton -> EvCode)

  /** What a device holds down after a log of events. */
  function Held(log: seq<DeviceEvent>): set<EvCode> {
    if log == [] then {} else Press(Held(log[..|log| - 1]), log[|log| - 1])
  }

  function Press(held: set<EvCode>, e: DeviceEvent): set<EvCode> {
    match e
    case KeyEvent(code, down) => With(held, code, down)
    case _ => held
  }

  /** `held` after `code` went down or up. */
  function With(held: set<EvCode>, code: EvCode, down: bool): set<EvCode> {
    if down then held + {code} else held - {code}
  }

  lemma HeldAppend(log: seq<DeviceEvent>, e: DeviceEvent)
    ensures Held(log + [e]) == Press(Held(log), e)
  {
    assert (log + [e])[..|log|] == log;
  }

  lemma LastOfAppended(log: seq<DeviceEvent>, events: seq<DeviceEvent>)
    requires events != []
    ensures log + events == log + events[..|events| - 1] + [events[|events| - 1]]
  {
  }

  lemma {:induction false} MotionHoldsNothing(log: seq<DeviceEvent>, events: seq<DeviceEvent>)
    requires forall i :: 0 <= i < |events| ==> !events[i].KeyEvent?
    ensures Held(log + events) == Held(log)
  {
    if events == [] {
      assert log + events == log;
    } else {
      var (rest, e) := (events[..|events| - 1], events[|events| - 1]);
      MotionHoldsNothing(log, rest);
      HeldAppend(log + rest, e);
      LastOfAppended(log, events);
    }
  }

  /** The pressed sets and what the two devices hold. */
  datatype SinkState = SinkState(keys: set<EvCode>, buttons: set<EvCode>, heldKeys: set<EvCode>, heldButtons: set<EvCode>)
  {
    predicate InSync() {
      heldKeys == keys && heldButtons == buttons
    }
  }

  /** Whether an emit on the keyboard and on the pointer succeeds. */
  datatype Emits = Emits(keyboard: bool, pointer: bool)

  function AfterKey(s: SinkState, code: EvCode, pressed: bool, works: bool): SinkState {
    s.(keys := With(s.keys, code, pressed),
       heldKeys := if works then With(s.heldKeys, code, pressed) else s.heldKeys)
  }

  function AfterButton(s: SinkState, code: EvCode, pressed: bool, works: bool): SinkState {
    s.(buttons := With(s.buttons, code, pressed),
       heldButtons := if works then With(s.heldButtons, code, pressed) else s.heldButtons)
  }

  /** Both sets are drained; a failing keyboard emit skips the buttons. */
  function AfterReleaseAll(s: SinkState, e: Emits): SinkState {
    var keysDone := s.keys == {} || e.keyboard;
    SinkState({}, {},
              if keysDone then s.heldKeys - s.keys else s.heldKeys,
              if keysDone && e.pointer then s.heldButtons - s.buttons else s.heldButtons)
  }

  function AfterControl(tables: Tables, s: SinkState, m: ControlMessage, e: Emits): SinkState {
    match m
    case Key(code, pressed) =>
      (match tables.key(code)
       case Some(ev) => AfterKey(s, ev, pressed, e.keyboard)
       case None => s)
    case Button(button, pressed) => AfterButton(s, tables.button(button), pressed, e.pointer)
    case ReleaseAll => AfterReleaseAll(s, e)
    case _ => s
  }

  class Sink {
    const tables: Tables
    var pressedKeys: set<EvCode>
    var pressedButtons: set<EvCode>
    /** Everything the two virtual devices accepted. */
    var keyboard: seq<DeviceEvent>
    var pointer: seq<DeviceEvent>

    ghost function View(): SinkState
      reads this
    {
      SinkState(pressedKeys, pressedButtons, Held(keyboard), Held(pointer))
    }

    constructor (tables: Tables)
      ensures this.tables == tables && View() == SinkState({}, {}, {}, {})
    {
      this.tables := tables;
      pressedKeys, pressedButtons, keyboard, pointer := {}, {}, [], [];
    }

    method EmitKeyboard(events: seq<DeviceEvent>, works: bool) returns (ok: bool)
      modifies this`keyboard
      ensures ok == works && keyboard == if works then old(keyboard) + events else old(keyboard)
    {
      ok := works;
      if works {
        keyboard := keyboard + events;
      }
    }

    method EmitPointer(events: seq<DeviceEvent>, works: bool) returns (ok: bool)
      modifies this`pointer
      ensures ok == works && pointer == if works then old(pointer) + events else old(pointer)
    {
      ok := works;
      if works {
        pointer := pointer + events;
      }
    }

    method Key(code: EvCode, pressed: bool, works: bool) returns (ok: bool)
      modifies this`pressedKeys, this`keyboard
      ensures View() == AfterKey(old(View()), code, pressed, works) && ok == works
      ensures keyboard == if works then old(keyboard) + [KeyEvent(code, pressed)] else old(keyboard)
    {
      if pressed {
        pressedKeys := pressedKeys + {code};
      } else {
        pressedKeys := pressedKeys - {code};
      }
      HeldAppend(keyboard, KeyEvent(code, pressed));
      ok := EmitKeyboard([KeyEvent(code, pressed)], works);
    }

    method Button(code: EvCode, pressed: bool, works: bool) returns (ok: bool)
      modifies this`pressedButtons, this`pointer
      ensures View() == AfterButton(old(View()), code, pressed, works) && ok == works
      ensures pointer == if works then old(pointer) + [KeyEvent(code, pressed)] else old(pointer)
    {
      if pressed {
        pressedButtons := pressedButtons + {code};
      } else {
        pressedButtons := pressedButtons - {code};
      }
      HeldAppend(pointer, KeyEvent(code, pressed));
      ok := EmitPointer([KeyEvent(code, pressed)], works);
    }

    method Wheel(horizontal: i16, vertical: i16, works: bool) returns (ok: bool)
      modifies this`pointer
      ensures View() == old(View())
      ensures ok == (works || (horizontal == 0 && vertical == 0))
      ensures pointer == if works then old(pointer) + WheelEvents(horizontal, vertical) else old(pointer)
    {
      var events := [];
      if vertical != 0 {
        events := events + [Relative(true, vertical)];
      }
      if horizontal != 0 {
        events := events + [Relative(false, horizontal)];
      }
      if events == [] {
        return true;
      }
      MotionHoldsNothing(pointer, events);
      ok := EmitPointer(events, works);
    }

    method MoveAbs(m: MouseMove, works: bool) returns (ok: bool)
      modifies this`pointer
      ensures View() == old(View()) && ok == works
      ensures pointer == if works then old(pointer) + [Absolute(false, m.x), Absolute(true, m.y)] else old(pointer)
    {
      MotionHoldsNothing(pointer, [Absolute(false, m.x), Absolute(true, m.y)]);
      ok := EmitPointer([Absolute(false, m.x), Absolute(true, m.y)], works);
    }

    /** Emits the release events of `codes` on the keyboard, if there are any. */
    method ReleaseKeys(events: seq<DeviceEvent>, works: bool, ghost codes: set<EvCode>) returns (ok: bool)
      requires (events == [] <==> codes == {}) && Held(keyboard + events) == Held(keyboard) - codes
      modifies this`keyboard
      ensures ok <==> codes == {} || works
      ensures Held(keyboard) == if ok then old(Held(keyboard)) - codes else old(Held(keyboard))
    {
      ok := true;
      if events != [] {
        ok := EmitKeyboard(events, works);
      }
    }

    /** The same on the pointer. */
    method ReleaseButtons(events: seq<DeviceEvent>, works: bool, ghost codes: set<EvCode>) returns (ok: bool)
      requires (events == [] <==> codes == {}) && Held(pointer + events) == Held(pointer) - codes
      modifies this`pointer
      ensures ok <==> codes == {} || works
      ensures Held(pointer) == if ok then old(Held(pointer)) - codes else old(Held(pointer))
    {
      ok := true;
      if events != [] {
        ok := EmitPointer(events, works);
      }
    }

    method ReleaseAll(e: Emits) returns (ok: bool)
      modifies this
      ensures View() == AfterReleaseAll(old(View()), e)
      ensures ok <==> (old(pressedKeys) == {} || e.keyboard) && (old(pressedButtons) == {} || e.pointer)
    {
      ghost var (keyCodes, buttonCodes) := (pressedKeys, pressedButtons);
      var keys := ReleaseEvents(pressedKeys, keyboard);
      var buttons := ReleaseEvents(pressedButtons, pointer);
      pressedKeys, pressedButtons := {}, {};
      ok := ReleaseKeys(keys, e.keyboard, keyCodes);
      if !ok { return; }
      ok := ReleaseButtons(buttons, e.pointer, buttonCodes);
    }

    method Handle(m: ControlMessage, e: Emits) returns (ok: bool)
      modifies this
      ensures View() == AfterControl(tables, old(View()), m, e)
      ensures ok == match m
                    case Key(code, _) => tables.key(code).None? || e.keyboard
                    case Button(_, _) => e.pointer
                    case Wheel(horizontal, vertical) => e.pointer || horizontal == vertical == 0
                    case ReleaseAll => (old(pressedKeys) == {} || e.keyboard) && (old(pressedButtons) == {} || e.pointer)
                    case _ => true
      ensures match m
              case Key(code, pressed) =>
                && pointer == old(pointer)
                && keyboard == old(keyboard) + (match tables.key(code)
                     case Some(ev) => if e.keyboard then [KeyEvent(ev, pressed)] else []
                     case None => [])
              case Button(button, pressed) =>
                && keyboard == old(keyboard)
                && pointer == old(pointer) + if e.pointer then [KeyEvent(tables.button(button), pressed)] else []
              case Wheel(horizontal, vertical) =>
                && keyboard == old(keyboard)
                && pointer == old(pointer) + if e.pointer then WheelEvents(horizontal, vertical) else []
              case ReleaseAll => pressedKeys == pressedButtons == {}
              case _ => keyboard == old(keyboard) && pointer == old(pointer)
    {
      match m {
        case Key(code, pressed) =>
          var ev := tables.key(code);
          if ev.None? {
            return true;
          }
          ok := Key(ev.value, pressed, e.keyboard);
        case Button(button, pressed) => ok := Button(tables.button(button), pressed, e.pointer);
        case Wheel(horizontal, vertical) => ok := Wheel(horizontal, vertical, e.pointer);
        case ReleaseAll => ok := ReleaseAll(e);
        case _ => ok := true;
      }
    }
  }

  function WheelEvents(horizontal: i16, vertical: i16): seq<DeviceEvent> {
    (if vertical != 0 then [Relative(true, vertical)] else []) +
    (if horizontal != 0 then [Relative(false, horizontal)] else [])
  }

  /** How far a log of events turns the wheel on one axis. */
  function Turned(log: seq<DeviceEvent>, vertical: bool): int {
    if log == [] then 0
    else
      var e := log[|log| - 1];
      Turned(log[..|log| - 1], vertical) + if e.Relative? && e.vertical == vertical then e.amount else 0
  }

  lemma TurnedAppend(log: seq<DeviceEvent>, e: DeviceEvent, vertical: bool)
    ensures Turned(log + [e], vertical) == Turned(log, vertical) + if e.Relative? && e.vertical == vertical then e.amount else 0
  {
    assert (log + [e])[..|log|] == log;
  }

  /** Vertical notches turn the vertical axis and horizontal ones the horizontal axis, each by the
      amount in the message, and a zero amount makes no event. */
  lemma WheelTurns(log: seq<DeviceEvent>, horizontal: i16, vertical: i16)
    ensures Turned(log + WheelEvents(horizontal, vertical), true) == Turned(log, true) + vertical
    ensures Turned(log + WheelEvents(horizontal, vertical), false) == Turned(log, false) + horizontal
    ensures forall e :: e in WheelEvents(horizontal, vertical) ==> e.Relative? && e.amount != 0
  {
    var first := if vertical != 0 then [Relative(true, vertical)] else [];
    assert log + WheelEvents(horizontal, vertical) == log + first + if horizontal != 0 then [Relative(false, horizontal)] else [];
    assert vertical == 0 ==> log + first == log;
    forall axis ensures Turned(log + first, axis) == Turned(log, axis) + if axis then vertical else 0 {
      TurnedAppend(log, Relative(true, vertical), axis);
    }
    forall axis ensures Turned(log + WheelEvents(horizontal, vertical), axis) == Turned(log + first, axis) + if axis then 0 else horizontal {
      TurnedAppend(log + first, Relative(false, horizontal), axis);
      assert horizontal == 0 ==> log + WheelEvents(horizontal, vertical) == log + first;
    }
  }

  /** One release event per code of a set, in some order. */
  ghost predicate ReleasesOf(events: seq<DeviceEvent>, codes: set<EvCode>) {
    && (forall i :: 0 <= i < |events| ==> events[i].KeyEvent? && !events[i].down && events[i].code in codes)
    && (forall c :: c in codes ==> KeyEvent(c, false) in events)
    && |events| == |codes|
  }

  method Releases(codes: set<EvCode>) returns (events: seq<DeviceEvent>)
    ensures ReleasesOf(events, codes)
  {
    var left := codes;
    events := [];
    while left != {}
      invariant left <= codes && ReleasesOf(events, codes - left)
      decreases left
    {
      var c :| c in left;
      assert codes - (left - {c}) == (codes - left) + {c};
      left := left - {c};
      events := events + [KeyEvent(c, false)];
    }
    assert codes - left == codes;
  }

  /** The release events of a set, which leave a device with the rest of what it holds. */
  method ReleaseEvents(codes: set<EvCode>, ghost log: seq<DeviceEvent>) returns (events: seq<DeviceEvent>)
    ensures events == [] <==> codes == {}
    ensures Held(log + events) == Held(log) - codes
  {
    events := Releases(codes);
    ReleasesHeld(log, events, codes);
  }

  /** Releasing every code of a set leaves the device with the rest. */
  lemma {:induction false} ReleasesHeld(log: seq<DeviceEvent>, events: seq<DeviceEvent>, codes: set<EvCode>)
    requires ReleasesOf(events, codes)
    ensures Held(log + events) == Held(log) - codes
  {
    ReleasedCodes(log, events);
    forall c ensures c in CodesOf(events) <==> c in codes {
      CodesOfExactly(events, c);
      if c in codes {
        assert KeyEvent(c, false) in events;
      }
    }
  }

  /** The codes that key events name. */
  function CodesOf(events: seq<DeviceEvent>): set<EvCode> {
    if events == [] then {}
    else
      var e := events[|events| - 1];
      CodesOf(events[..|events| - 1]) + if e.KeyEvent? then {e.code} else {}
  }

  lemma {:induction false} CodesOfExactly(events: seq<DeviceEvent>, c: EvCode)
    ensures c in CodesOf(events) <==> exists i :: 0 <= i < |events| && events[i].KeyEvent? && events[i].code == c
  {
    if events != [] {
      var rest := events[..|events| - 1];
      CodesOfExactly(rest, c);
      assert forall i :: 0 <= i < |rest| ==> rest[i] == events[i];
    }
  }

  lemma {:induction false} ReleasedCodes(log: seq<DeviceEvent>, events: seq<DeviceEvent>)
    requires forall i :: 0 <= i < |events| ==> events[i].KeyEvent? && !events[i].down
    ensures Held(log + events) == Held(log) - CodesOf(events)
  {
    if events == [] {
      assert log + events == log;
    } else {
      var (rest, e) := (events[..|events| - 1], events[|events| - 1]);
      ReleasedCodes(log, rest);
      HeldAppend(log + rest, e);
      LastOfAppended(log, events);
    }
  }

  // ---- Properties ----

  /** With successful emits the devices hold exactly the pressed sets, after every message. */
  lemma StaysInSync(tables: Tables, s: SinkState, m: ControlMessage)
    requires s.InSync()
    ensures AfterControl(tables, s, m, Emits(true, true)).InSync()
    ensures AfterReleaseAll(s, Emits(true, true)).InSync()
  {
  }

  /** What a release leaves held, exactly: a keyboard emit that fails strands the buttons too. */
  lemma ReleaseAllReleasesExactly(s: SinkState, e: Emits)
    requires s.InSync()
    ensures var t := AfterReleaseAll(s, e);
            && (t.heldKeys == {} <==> s.keys == {} || e.keyboard)
            && (t.heldButtons == {} <==> s.buttons == {} || ((s.keys == {} || e.keyboard) && e.pointer))
  {
  }

  /** What it strands stays held: the codes are forgotten, so releasing again changes nothing. */
  lemma StrandedButtonsStayHeld(s: SinkState, c: EvCode)
    requires s.InSync() && s.keys != {} && c in s.buttons
    ensures var t := AfterReleaseAll(s, Emits(false, true));
            c in t.heldButtons && c in AfterReleaseAll(t, Emits(true, true)).heldButtons
  {
  }
}
