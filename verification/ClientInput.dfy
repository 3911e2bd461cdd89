/** The client window's input handling: pressed sets, forwarded messages and wheel notches. */
module ClientInput {
  import opened Prelude
  import opened Message

  /** A physical key as the window system reports it. */
  datatype Physical = F11 | Known(key: KeyCode) | Unknown

  /** A wheel or touchpad movement, in lines or in pixels; positive is up, and content to the right. */
  datatype ScrollDelta = LineDelta(x: real, y: real) | PixelDelta(x: real, y: real)

  const PIXELS_PER_NOTCH: real := 60.0

  /** The movement in notches; positive is up, and scrolling to the right. */
  function Moved(d: ScrollDelta): (real, real) {
    match d
    case LineDelta(x, y) => (-x, y)
    case PixelDelta(x, y) => (-x / PIXELS_PER_NOTCH, y / PIXELS_PER_NOTCH)
  }

  datatype ClientEvent =
    | KeyInput(physical: Physical, pressed: bool, again: bool, synthetic: bool)
    | MouseInput(which: Option<MouseButton>, down: bool)
    | FocusLost
    | CloseRequested
    | MouseWheel(delta: ScrollDelta)

  /** The window's input state; `acc` is the wheel movement not sent yet. */
  datatype Client = Client(keys: set<KeyCode>, buttons: set<MouseButton>, accH: real, accV: real)

  const MAX_NOTCHES: int := 1000

  /** Rounding toward zero. */
  function Trunc(r: real): int {
    if r >= 0.0 then r.Floor else -((-r).Floor)
  }

  function Clamp(n: int): (c: i16)
    ensures -MAX_NOTCHES <= c <= MAX_NOTCHES
  {
    if n < -MAX_NOTCHES then -MAX_NOTCHES else if n > MAX_NOTCHES then MAX_NOTCHES else n
  }

  /** The state after an event and the messages it sends. */
  function React(c: Client, e: ClientEvent): (Client, seq<ControlMessage>) {
    match e
    case KeyInput(physical, pressed, again, synthetic) =>
      if synthetic || again || !physical.Known? then (c, [])
      else
        var key := physical.key;
        (c.(keys := if pressed then c.keys + {key} else c.keys - {key}), [Key(key, pressed)])
    case MouseInput(which, down) =>
      if which.None? then (c, [])
      else
        var b := which.value;
        (c.(buttons := if down then c.buttons + {b} else c.buttons - {b}), [Button(b, down)])
    case FocusLost => (c.(keys := {}, buttons := {}), [ReleaseAll])
    case CloseRequested => (c.(keys := {}, buttons := {}), [ReleaseAll])
    case MouseWheel(delta) =>
      var (dx, dy) := Moved(delta);
      var (h, v) := (c.accH + dx, c.accV + dy);
      var (nh, nv) := (Trunc(h), Trunc(v));
      if nh == 0 && nv == 0 then (c.(accH := h, accV := v), [])
      else (c.(accH := h - nh as real, accV := v - nv as real), [Wheel(Clamp(nh), Clamp(nv))])
  }

  /** The `App`, as far as its input goes; `sent` is the queue to the network task. */
  class App {
    var fullscreen: bool
    var pressedKeys: set<KeyCode>
    var pressedButtons: set<MouseButton>
    var accH: real
    var accV: real
    var sent: seq<ControlMessage>

    ghost function View(): Client
      reads this
    {
      Client(pressedKeys, pressedButtons, accH, accV)
    }

    constructor ()
      ensures View() == Client({}, {}, 0.0, 0.0) && sent == []
    {
      fullscreen, pressedKeys, pressedButtons, accH, accV, sent := false, {}, {}, 0.0, 0.0, [];
    }

    method Control(m: ControlMessage)
      modifies this`sent
      ensures sent == old(sent) + [m]
    {
      sent := sent + [m];
    }

    method ReleaseAllInput()
      modifies this
      ensures pressedKeys == {} && pressedButtons == {} && sent == old(sent) + [ReleaseAll]
      ensures var (c, msgs) := React(old(View()), FocusLost); View() == c && sent == old(sent) + msgs
      ensures fullscreen == old(fullscreen)
    {
      pressedKeys, pressedButtons := {}, {};
      Control(ReleaseAll);
    }

    method HandleKey(physical: Physical, pressed: bool, again: bool)
      modifies this
      ensures if physical.Known? && !again
              then sent == old(sent) + [Key(physical.key, pressed)] &&
                   pressedKeys == (if pressed then old(pressedKeys) + {physical.key} else old(pressedKeys) - {physical.key})
              else sent == old(sent) && pressedKeys == old(pressedKeys)
      ensures var (c, msgs) := React(old(View()), KeyInput(physical, pressed, again, false));
              View() == c && sent == old(sent) + msgs
      ensures fullscreen == (if physical.F11? && pressed && !again then !old(fullscreen) else old(fullscreen))
    {
      if physical.F11? {
        if pressed && !again {
          fullscreen := !fullscreen;
        }
        return;
      }
      if again {
        return;
      }
      if physical.Unknown? {
        return;
      }
      var key := physical.key;
      if pressed {
        pressedKeys := pressedKeys + {key};
      } else {
        pressedKeys := pressedKeys - {key};
      }
      Control(Key(key, pressed));
    }

    method HandleButton(which: Option<MouseButton>, down: bool)
      modifies this
      ensures if which.Some?
              then sent == old(sent) + [Button(which.value, down)] &&
                   pressedButtons == (if down then old(pressedButtons) + {which.value} else old(pressedButtons) - {which.value})
              else sent == old(sent) && pressedButtons == old(pressedButtons)
      ensures var (c, msgs) := React(old(View()), MouseInput(which, down));
              View() == c && sent == old(sent) + msgs
    {
      if which.Some? {
        var b := which.value;
        if down {
          pressedButtons := pressedButtons + {b};
        } else {
          pressedButtons := pressedButtons - {b};
        }
        Control(Button(b, down));
      }
    }

    method HandleWheel(delta: ScrollDelta)
      modifies this
      ensures var (c, msgs) := React(old(View()), MouseWheel(delta));
              View() == c && sent == old(sent) + msgs
    {
      var dx, dy;
      match delta {
        case LineDelta(x, y) => dx, dy := -x, y;
        case PixelDelta(x, y) => dx, dy := -x / PIXELS_PER_NOTCH, y / PIXELS_PER_NOTCH;
      }
      accH := accH + dx;
      accV := accV + dy;
      var h := Trunc(accH);
      var v := Trunc(accV);
      if h != 0 || v != 0 {
        accH := accH - h as real;
        accV := accV - v as real;
        Control(Wheel(Clamp(h), Clamp(v)));
      }
    }
  }

  // ---- Wheel movement is conserved ----

  function After(events: seq<ClientEvent>): (Client, seq<ControlMessage>) {
    if events == [] then (Client({}, {}, 0.0, 0.0), [])
    else
      var (c, sent) := After(events[..|events| - 1]);
      var (d, more) := React(c, events[|events| - 1]);
      (d, sent + more)
  }

  /** The two wheel axes. */
  datatype Axis = Horizontal | Vertical

  function Outstanding(c: Client, axis: Axis): real {
    if axis.Horizontal? then c.accH else c.accV
  }

  /** The movement of one event, and the notches in one event's messages. */
  function Movement(e: ClientEvent, axis: Axis): real {
    if !e.MouseWheel? then 0.0 else if axis.Horizontal? then Moved(e.delta).0 else Moved(e.delta).1
  }

  function Sent(more: seq<ControlMessage>, axis: Axis): int {
    if more == [] || !more[0].Wheel? then 0
    else if axis.Horizontal? then more[0].horizontal else more[0].vertical
  }

  /** The movement that went in, and the notches that came out. */
  function Scrolled(events: seq<ClientEvent>, axis: Axis): real {
    if events == [] then 0.0
    else Scrolled(events[..|events| - 1], axis) + Movement(events[|events| - 1], axis)
  }

  function Notches(sent: seq<ControlMessage>, axis: Axis): int {
    if sent == [] then 0
    else Notches(sent[..|sent| - 1], axis) + Sent(sent[|sent| - 1..], axis)
  }

  lemma TruncLeavesFraction(r: real)
    ensures -1.0 < r - Trunc(r) as real < 1.0
  {
  }

  lemma NotchesAppend(sent: seq<ControlMessage>, more: seq<ControlMessage>, axis: Axis)
    requires |more| <= 1
    ensures Notches(sent + more, axis) == Notches(sent, axis) + Sent(more, axis)
  {
    if more == [] {
      assert sent + more == sent;
    } else {
      assert (sent + more)[..|sent|] == sent;
    }
  }

  lemma ReactConserves(c: Client, e: ClientEvent, axis: Axis)
    requires -1.0 < Outstanding(c, axis) < 1.0 && -999.0 <= Movement(e, axis) <= 999.0
    ensures var (d, more) := React(c, e);
            && -1.0 < Outstanding(d, axis) < 1.0 && |more| <= 1
            && Outstanding(c, axis) + Movement(e, axis) == Sent(more, axis) as real + Outstanding(d, axis)
  {
    TruncLeavesFraction(Outstanding(c, axis) + Movement(e, axis));
    var n := Trunc(Outstanding(c, axis) + Movement(e, axis));
    assert -1000 <= n <= 1000;
    assert Clamp(n) == n;
  }

  /** In every run less than one notch is outstanding on each axis, and as long as no event moves it by
      more than 999 notches, nothing is lost or invented: input = notches sent + outstanding. */
  lemma {:induction false} WheelIsConserved(events: seq<ClientEvent>, axis: Axis)
    requires forall i :: 0 <= i < |events| ==> -999.0 <= Movement(events[i], axis) <= 999.0
    ensures var (c, sent) := After(events);
            && -1.0 < Outstanding(c, axis) < 1.0
            && Scrolled(events, axis) == Notches(sent, axis) as real + Outstanding(c, axis)
  {
    if events != [] {
      var (rest, e) := (events[..|events| - 1], events[|events| - 1]);
      WheelIsConserved(rest, axis);
      var (c, sent) := After(rest);
      ReactConserves(c, e, axis);
      NotchesAppend(sent, React(c, e).1, axis);
    }
  }

  /** A wheel event loses movement exactly when what is due reaches 1001 notches on that axis. */
  lemma ConservedExactly(c: Client, delta: ScrollDelta, axis: Axis)
    requires -1.0 < Outstanding(c, axis) < 1.0
    ensures var e := MouseWheel(delta);
            var (d, sent) := React(c, e);
            var due := Outstanding(c, axis) + Movement(e, axis);
            due == Sent(sent, axis) as real + Outstanding(d, axis) <==> -1001.0 < due < 1001.0
  {
    TruncLeavesFraction(Outstanding(c, axis) + Movement(MouseWheel(delta), axis));
  }

  /** Sixty pixels are a notch, and only the horizontal direction is turned round: from rest, `n` lines up and `m`
      lines of content to the right send `n` notches up and `m` to the left. */
  lemma NotchesOfMovement(c: Client, n: int, m: int)
    requires c.accH == 0.0 && c.accV == 0.0 && -1000 <= n <= 1000 && -1000 <= m <= 1000 && (n != 0 || m != 0)
    ensures React(c, MouseWheel(LineDelta(m as real, n as real))) == (c, [Wheel(-m, n)])
    ensures React(c, MouseWheel(PixelDelta(60.0 * m as real, 60.0 * n as real))) == (c, [Wheel(-m, n)])
  {
    var (x, y) := (m as real, n as real);
    assert Moved(PixelDelta(60.0 * x, 60.0 * y)) == (-x, y);
    assert Trunc(y) == n && Trunc(-x) == -m;
  }
}
