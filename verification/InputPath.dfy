/**
  The input path end to end: window events become messages, messages become bytes on the ordered
  control channel, bytes become device events on the server, which may also release everything
  on its own at any moment (disconnect, take-over, teardown).
*/
module InputPath {
  import opened Prelude
  import opened Message
  import opened UinputSink
  import opened ClientInput

  datatype System = System(client: Client, wire: seq<seq<byte>>, sink: SinkState)

  datatype Step = ClientDoes(e: ClientEvent) | Deliver | ServerReleases

  const ALL_WORK := Emits(true, true)

  function Encoded(msgs: seq<ControlMessage>): seq<seq<byte>> {
    if msgs == [] then [] else Encoded(msgs[..|msgs| - 1]) + [Encode(msgs[|msgs| - 1])]
  }

  /** The active session's control channel handles one message. */
  function Receive(tables: Tables, sink: SinkState, bytes: seq<byte>): SinkState {
    match Decode(bytes)
    case Ok(m) => AfterControl(tables, sink, m, ALL_WORK)
    case Err(_) => sink
  }

  function Next(tables: Tables, s: System, step: Step): System {
    match step
    case ClientDoes(e) =>
      var (c, msgs) := React(s.client, e);
      s.(client := c, wire := s.wire + Encoded(msgs))
    case Deliver =>
      if s.wire == [] then s
      else s.(wire := s.wire[1..], sink := Receive(tables, s.sink, s.wire[0]))
    case ServerReleases => s.(sink := AfterReleaseAll(s.sink, ALL_WORK))
  }

  function Run(tables: Tables, steps: seq<Step>): System {
    if steps == [] then System(Client({}, {}, 0.0, 0.0), [], SinkState({}, {}, {}, {}))
    else Next(tables, Run(tables, steps[..|steps| - 1]), steps[|steps| - 1])
  }

  // ---- What the bytes on the wire will do to a pressed set ----

  datatype Effect = Down(code: EvCode) | Up(code: EvCode) | Clear | Ignore

  function Act(held: set<EvCode>, effect: Effect): set<EvCode> {
    match effect
    case Down(code) => held + {code}
    case Up(code) => held - {code}
    case Clear => {}
    case Ignore => held
  }

  function KeyEffect(tables: Tables, bytes: seq<byte>): Effect {
    match Decode(bytes)
    case Ok(Key(code, pressed)) =>
      (match tables.key(code)
       case Some(ev) => if pressed then Down(ev) else Up(ev)
       case None => Ignore)
    case Ok(ReleaseAll) => Clear
    case _ => Ignore
  }

  function ButtonEffect(tables: Tables, bytes: seq<byte>): Effect {
    match Decode(bytes)
    case Ok(Button(b, pressed)) => if pressed then Down(tables.button(b)) else Up(tables.button(b))
    case Ok(ReleaseAll) => Clear
    case _ => Ignore
  }

  /** The pressed set once every message of the wire is handled. */
  function Replay(effects: seq<Effect>, held: set<EvCode>): set<EvCode> {
    if effects == [] then held else Act(Replay(effects[..|effects| - 1], held), effects[|effects| - 1])
  }

  function KeyEffects(tables: Tables, wire: seq<seq<byte>>): seq<Effect> {
    seq(|wire|, i requires 0 <= i < |wire| => KeyEffect(tables, wire[i]))
  }

  function ButtonEffects(tables: Tables, wire: seq<seq<byte>>): seq<Effect> {
    seq(|wire|, i requires 0 <= i < |wire| => ButtonEffect(tables, wire[i]))
  }

  lemma ReplayAppend(effects: seq<Effect>, e: Effect, held: set<EvCode>)
    ensures Replay(effects + [e], held) == Act(Replay(effects, held), e)
  {
    assert (effects + [e])[..|effects|] == effects;
  }

  lemma {:induction false} ReplayFirst(effects: seq<Effect>, held: set<EvCode>)
    requires effects != []
    ensures Replay(effects, held) == Replay(effects[1..], Act(held, effects[0]))
  {
    if |effects| > 1 {
      var rest := effects[..|effects| - 1];
      ReplayFirst(rest, held);
      assert rest[1..] == effects[1..][..|effects[1..]| - 1];
    }
  }

  lemma {:induction false} ReplayMonotone(effects: seq<Effect>, small: set<EvCode>, large: set<EvCode>)
    requires small <= large
    ensures Replay(effects, small) <= Replay(effects, large)
  {
    if effects != [] {
      ReplayMonotone(effects[..|effects| - 1], small, large);
    }
  }

  // ---- The invariant ----

  function KeyImage(tables: Tables, keys: set<KeyCode>): set<EvCode> {
    set k | k in keys && tables.key(k).Some? :: tables.key(k).value
  }

  function ButtonImage(tables: Tables, buttons: set<MouseButton>): set<EvCode> {
    set b | b in buttons :: tables.button(b)
  }

  ghost predicate KeysFollow(tables: Tables, wire: seq<seq<byte>>, held: set<EvCode>, keys: set<KeyCode>) {
    Replay(KeyEffects(tables, wire), held) <= KeyImage(tables, keys)
  }

  ghost predicate ButtonsFollow(tables: Tables, wire: seq<seq<byte>>, held: set<EvCode>, buttons: set<MouseButton>) {
    Replay(ButtonEffects(tables, wire), held) <= ButtonImage(tables, buttons)
  }

  /** Whatever the server will hold after the queued messages, the client records as pressed. */
  ghost predicate NothingStuck(tables: Tables, s: System) {
    && KeysFollow(tables, s.wire, s.sink.keys, s.client.keys)
    && ButtonsFollow(tables, s.wire, s.sink.buttons, s.client.buttons)
    && s.sink.InSync()
  }

  /** A message changes the images of the client's pressed sets at least as much as it will
      change the server's sets, even when the key table is not injective. */
  lemma ReactImages(tables: Tables, c: Client, e: ClientEvent)
    ensures var (d, msgs) := React(c, e);
            if msgs == [] then d.keys == c.keys && d.buttons == c.buttons
            else
              && |msgs| == 1
              && Act(KeyImage(tables, c.keys), KeyEffect(tables, Encode(msgs[0]))) <= KeyImage(tables, d.keys)
              && Act(ButtonImage(tables, c.buttons), ButtonEffect(tables, Encode(msgs[0]))) <= ButtonImage(tables, d.buttons)
  {
    var (d, msgs) := React(c, e);
    if msgs != [] {
      RoundTrip(msgs[0]);
    }
  }

  // ---- One message more, one message less ----

  lemma ReplayOneMore(effects: seq<Effect>, e: Effect, held: set<EvCode>, before: set<EvCode>, after: set<EvCode>)
    requires Replay(effects, held) <= before && Act(before, e) <= after
    ensures Replay(effects + [e], held) <= after
  {
    ReplayAppend(effects, e, held);
  }

  lemma SendKeys(tables: Tables, wire: seq<seq<byte>>, bytes: seq<byte>, held: set<EvCode>, before: set<KeyCode>, after: set<KeyCode>)
    requires KeysFollow(tables, wire, held, before)
    requires Act(KeyImage(tables, before), KeyEffect(tables, bytes)) <= KeyImage(tables, after)
    ensures KeysFollow(tables, wire + [bytes], held, after)
  {
    ReplayOneMore(KeyEffects(tables, wire), KeyEffect(tables, bytes), held, KeyImage(tables, before), KeyImage(tables, after));
    assert KeyEffects(tables, wire + [bytes]) == KeyEffects(tables, wire) + [KeyEffect(tables, bytes)];
  }

  lemma SendButtons(tables: Tables, wire: seq<seq<byte>>, bytes: seq<byte>, held: set<EvCode>, before: set<MouseButton>, after: set<MouseButton>)
    requires ButtonsFollow(tables, wire, held, before)
    requires Act(ButtonImage(tables, before), ButtonEffect(tables, bytes)) <= ButtonImage(tables, after)
    ensures ButtonsFollow(tables, wire + [bytes], held, after)
  {
    ReplayOneMore(ButtonEffects(tables, wire), ButtonEffect(tables, bytes), held,
                  ButtonImage(tables, before), ButtonImage(tables, after));
    assert ButtonEffects(tables, wire + [bytes]) == ButtonEffects(tables, wire) + [ButtonEffect(tables, bytes)];
  }

  lemma EncodedOne(m: ControlMessage)
    ensures Encoded([m]) == [Encode(m)]
  {
    assert [m][..0] == [];
  }

  lemma ClientStep(tables: Tables, s: System, e: ClientEvent)
    requires NothingStuck(tables, s)
    ensures NothingStuck(tables, Next(tables, s, ClientDoes(e)))
  {
    var (c, msgs) := React(s.client, e);
    ReactImages(tables, s.client, e);
    if msgs == [] {
      assert s.wire + Encoded(msgs) == s.wire;
    } else {
      assert msgs == [msgs[0]];
      EncodedOne(msgs[0]);
      SendKeys(tables, s.wire, Encode(msgs[0]), s.sink.keys, s.client.keys, c.keys);
      SendButtons(tables, s.wire, Encode(msgs[0]), s.sink.buttons, s.client.buttons, c.buttons);
    }
  }

  lemma DeliverKeys(tables: Tables, wire: seq<seq<byte>>, held: set<EvCode>, keys: set<KeyCode>)
    requires wire != [] && KeysFollow(tables, wire, held, keys)
    ensures KeysFollow(tables, wire[1..], Act(held, KeyEffect(tables, wire[0])), keys)
  {
    ReplayFirst(KeyEffects(tables, wire), held);
    assert KeyEffects(tables, wire)[1..] == KeyEffects(tables, wire[1..]);
  }

  lemma DeliverButtons(tables: Tables, wire: seq<seq<byte>>, held: set<EvCode>, buttons: set<MouseButton>)
    requires wire != [] && ButtonsFollow(tables, wire, held, buttons)
    ensures ButtonsFollow(tables, wire[1..], Act(held, ButtonEffect(tables, wire[0])), buttons)
  {
    ReplayFirst(ButtonEffects(tables, wire), held);
    assert ButtonEffects(tables, wire)[1..] == ButtonEffects(tables, wire[1..]);
  }

  /** A received message does to the server's sets what its effect says. */
  lemma ReceiveActs(tables: Tables, sink: SinkState, bytes: seq<byte>)
    requires sink.InSync()
    ensures var after := Receive(tables, sink, bytes);
            && after.keys == Act(sink.keys, KeyEffect(tables, bytes))
            && after.buttons == Act(sink.buttons, ButtonEffect(tables, bytes))
            && after.InSync()
  {
  }

  lemma DeliverStep(tables: Tables, s: System)
    requires NothingStuck(tables, s) && s.wire != []
    ensures NothingStuck(tables, Next(tables, s, Deliver))
  {
    ReceiveActs(tables, s.sink, s.wire[0]);
    DeliverKeys(tables, s.wire, s.sink.keys, s.client.keys);
    DeliverButtons(tables, s.wire, s.sink.buttons, s.client.buttons);
  }

  lemma ReleaseStep(tables: Tables, s: System)
    requires NothingStuck(tables, s)
    ensures NothingStuck(tables, Next(tables, s, ServerReleases))
  {
    ReplayMonotone(KeyEffects(tables, s.wire), {}, s.sink.keys);
    ReplayMonotone(ButtonEffects(tables, s.wire), {}, s.sink.buttons);
  }

  // ---- Main results ----

  /** In every run, whatever the tables, replaying the queue on the server's pressed sets gives a
      subset of what the client records as pressed, and the devices hold the pressed sets. */
  lemma {:induction false} NoStuckInput(tables: Tables, steps: seq<Step>)
    ensures NothingStuck(tables, Run(tables, steps))
  {
    if steps != [] {
      var s := Run(tables, steps[..|steps| - 1]);
      NoStuckInput(tables, steps[..|steps| - 1]);
      match steps[|steps| - 1]
      case ClientDoes(e) => ClientStep(tables, s, e);
      case Deliver => if s.wire != [] { DeliverStep(tables, s); }
      case ServerReleases => ReleaseStep(tables, s);
    }
  }

  /** Once the queue is drained the devices hold nothing the client does not. */
  lemma DrainedQueueAgrees(tables: Tables, steps: seq<Step>)
    requires Run(tables, steps).wire == []
    ensures var s := Run(tables, steps);
            s.sink.heldKeys <= KeyImage(tables, s.client.keys) &&
            s.sink.heldButtons <= ButtonImage(tables, s.client.buttons)
  {
    NoStuckInput(tables, steps);
  }

  /** Processing a delivered ReleaseAll leaves both devices empty, whatever came before. */
  lemma ReleaseAllEmptiesDevices(tables: Tables, steps: seq<Step>)
    requires Run(tables, steps).wire != [] && Run(tables, steps).wire[0] == Encode(ReleaseAll)
    ensures var s := Next(tables, Run(tables, steps), Deliver);
            s.sink == SinkState({}, {}, {}, {})
  {
    NoStuckInput(tables, steps);
    RoundTrip(ReleaseAll);
  }

  // ---- What the client sends ----

  function KeyDoes(k: KeyCode, pressed: bool): ClientEvent {
    KeyInput(Known(k), pressed, false, false)
  }

  /** The server's pressed keys once the queue is handled. */
  function KeysToBe(tables: Tables, s: System): set<EvCode> {
    Replay(KeyEffects(tables, s.wire), s.sink.keys)
  }

  function ButtonsToBe(tables: Tables, s: System): set<EvCode> {
    Replay(ButtonEffects(tables, s.wire), s.sink.buttons)
  }

  /** The queue with one more message does what the message does to what it did before. */
  lemma SentActs(tables: Tables, s: System, c: Client, bytes: seq<byte>)
    ensures var t := s.(client := c, wire := s.wire + [bytes]);
            && KeysToBe(tables, t) == Act(KeysToBe(tables, s), KeyEffect(tables, bytes))
            && ButtonsToBe(tables, t) == Act(ButtonsToBe(tables, s), ButtonEffect(tables, bytes))
  {
    assert KeyEffects(tables, s.wire + [bytes]) == KeyEffects(tables, s.wire) + [KeyEffect(tables, bytes)];
    assert ButtonEffects(tables, s.wire + [bytes]) == ButtonEffects(tables, s.wire) + [ButtonEffect(tables, bytes)];
    ReplayAppend(KeyEffects(tables, s.wire), KeyEffect(tables, bytes), s.sink.keys);
    ReplayAppend(ButtonEffects(tables, s.wire), ButtonEffect(tables, bytes), s.sink.buttons);
  }

  /** A key event that is not repeated, synthetic or unknown sends one message, after which the server will
      hold the key's code exactly when the event was a press, and everything else as before. */
  lemma KeyReachesServer(tables: Tables, s: System, k: KeyCode, pressed: bool)
    ensures var t := Next(tables, s, ClientDoes(KeyDoes(k, pressed)));
            && t.wire == s.wire + [Encode(Key(k, pressed))] && t.sink == s.sink
            && t.client == s.client.(keys := if pressed then s.client.keys + {k} else s.client.keys - {k})
            && (forall x :: x in KeysToBe(tables, t) <==>
                  if Some(x) == tables.key(k) then pressed else x in KeysToBe(tables, s))
            && ButtonsToBe(tables, t) == ButtonsToBe(tables, s)
  {
    var (c, msgs) := React(s.client, KeyDoes(k, pressed));
    assert msgs == [Key(k, pressed)];
    EncodedOne(msgs[0]);
    RoundTrip(msgs[0]);
    SentActs(tables, s, c, Encode(msgs[0]));
  }

  lemma ButtonReachesServer(tables: Tables, s: System, b: MouseButton, down: bool)
    ensures var t := Next(tables, s, ClientDoes(MouseInput(Some(b), down)));
            && t.wire == s.wire + [Encode(Button(b, down))] && t.sink == s.sink
            && t.client == s.client.(buttons := if down then s.client.buttons + {b} else s.client.buttons - {b})
            && (forall x :: x in ButtonsToBe(tables, t) <==>
                  if x == tables.button(b) then down else x in ButtonsToBe(tables, s))
            && KeysToBe(tables, t) == KeysToBe(tables, s)
  {
    var (c, msgs) := React(s.client, MouseInput(Some(b), down));
    assert msgs == [Button(b, down)];
    EncodedOne(msgs[0]);
    RoundTrip(msgs[0]);
    SentActs(tables, s, c, Encode(msgs[0]));
  }

  /** Any other key or button event sends nothing and is not recorded. */
  lemma OthersAreIgnored(tables: Tables, s: System, e: ClientEvent)
    requires (e.KeyInput? && (e.synthetic || e.again || !e.physical.Known?)) || (e.MouseInput? && e.which.None?)
    ensures Next(tables, s, ClientDoes(e)) == s
  {
    assert s.wire + [] == s.wire;
  }

  /** Losing the focus or closing the window clears both of the client's sets and sends one ReleaseAll, so
      that the server will hold nothing. */
  lemma LeavingReleases(tables: Tables, s: System, e: ClientEvent)
    requires e == FocusLost || e == CloseRequested
    ensures var t := Next(tables, s, ClientDoes(e));
            && t.client == s.client.(keys := {}, buttons := {}) && t.sink == s.sink
            && t.wire == s.wire + [Encode(ReleaseAll)]
            && KeysToBe(tables, t) == {} && ButtonsToBe(tables, t) == {}
  {
    var (c, msgs) := React(s.client, e);
    assert msgs == [ReleaseAll];
    EncodedOne(ReleaseAll);
    RoundTrip(ReleaseAll);
    SentActs(tables, s, c, Encode(ReleaseAll));
  }

  /** The system once every queued message is delivered. */
  function Drain(tables: Tables, s: System): System
    decreases |s.wire|
  {
    if s.wire == [] then s else Drain(tables, Next(tables, s, Deliver))
  }

  lemma {:induction false} DrainIsReplay(tables: Tables, s: System)
    requires s.sink.InSync()
    ensures var t := Drain(tables, s);
            && t.wire == [] && t.client == s.client && t.sink.InSync()
            && t.sink.keys == KeysToBe(tables, s) && t.sink.buttons == ButtonsToBe(tables, s)
    decreases |s.wire|
  {
    if s.wire != [] {
      ReceiveActs(tables, s.sink, s.wire[0]);
      DrainIsReplay(tables, Next(tables, s, Deliver));
      DeliverKeepsToBe(tables, s);
    }
  }

  lemma DeliverKeepsToBe(tables: Tables, s: System)
    requires s.sink.InSync() && s.wire != []
    ensures var t := Next(tables, s, Deliver);
            KeysToBe(tables, t) == KeysToBe(tables, s) && ButtonsToBe(tables, t) == ButtonsToBe(tables, s)
  {
    ReceiveActs(tables, s.sink, s.wire[0]);
    ReplayFirst(KeyEffects(tables, s.wire), s.sink.keys);
    ReplayFirst(ButtonEffects(tables, s.wire), s.sink.buttons);
    assert KeyEffects(tables, s.wire)[1..] == KeyEffects(tables, s.wire[1..]);
    assert ButtonEffects(tables, s.wire)[1..] == ButtonEffects(tables, s.wire[1..]);
  }

  /** In every run: when the client loses the focus or closes and its messages arrive, no device holds anything. */
  lemma LeavingEmptiesDevices(tables: Tables, steps: seq<Step>, e: ClientEvent)
    requires e == FocusLost || e == CloseRequested
    ensures Drain(tables, Next(tables, Run(tables, steps), ClientDoes(e))).sink == SinkState({}, {}, {}, {})
  {
    var s := Run(tables, steps);
    NoStuckInput(tables, steps);
    LeavingReleases(tables, s, e);
    DrainIsReplay(tables, Next(tables, s, ClientDoes(e)));
  }

  // ---- When the server will hold exactly what the client records ----

  ghost predicate Injective(tables: Tables) {
    && (forall j, k :: tables.key(j).Some? && tables.key(j) == tables.key(k) ==> j == k)
    && (forall a, b :: tables.button(a) == tables.button(b) ==> a == b)
  }

  predicate NoServerReleases(steps: seq<Step>) {
    forall i :: 0 <= i < |steps| ==> !steps[i].ServerReleases?
  }

  /** Neither more nor less than what the client records. */
  predicate Mirrors(tables: Tables, s: System) {
    KeysToBe(tables, s) == KeyImage(tables, s.client.keys) && ButtonsToBe(tables, s) == ButtonImage(tables, s.client.buttons)
  }

  lemma KeyMirrors(tables: Tables, s: System, k: KeyCode, pressed: bool)
    requires Injective(tables) && Mirrors(tables, s)
    ensures Mirrors(tables, Next(tables, s, ClientDoes(KeyDoes(k, pressed))))
  {
    KeyReachesServer(tables, s, k, pressed);
    var t := Next(tables, s, ClientDoes(KeyDoes(k, pressed)));
    forall x ensures x in KeyImage(tables, t.client.keys) <==> x in KeysToBe(tables, t) {
      KeyImageStep(tables, s.client.keys, k, pressed, x);
    }
  }

  lemma KeyImageStep(tables: Tables, keys: set<KeyCode>, k: KeyCode, pressed: bool, x: EvCode)
    requires Injective(tables)
    ensures x in KeyImage(tables, if pressed then keys + {k} else keys - {k}) <==>
            if Some(x) == tables.key(k) then pressed else x in KeyImage(tables, keys)
  {
    var after := if pressed then keys + {k} else keys - {k};
    if x in KeyImage(tables, keys) && Some(x) != tables.key(k) {
      var j :| j in keys && tables.key(j) == Some(x);
      assert j in after;
    }
    if pressed && Some(x) == tables.key(k) {
      assert k in after;
    }
  }

  lemma ButtonMirrors(tables: Tables, s: System, b: MouseButton, down: bool)
    requires Injective(tables) && Mirrors(tables, s)
    ensures Mirrors(tables, Next(tables, s, ClientDoes(MouseInput(Some(b), down))))
  {
    ButtonReachesServer(tables, s, b, down);
    var t := Next(tables, s, ClientDoes(MouseInput(Some(b), down)));
    forall x ensures x in ButtonImage(tables, t.client.buttons) <==> x in ButtonsToBe(tables, t) {
      ButtonImageStep(tables, s.client.buttons, b, down, x);
    }
  }

  lemma ButtonImageStep(tables: Tables, buttons: set<MouseButton>, b: MouseButton, down: bool, x: EvCode)
    requires Injective(tables)
    ensures x in ButtonImage(tables, if down then buttons + {b} else buttons - {b}) <==>
            if x == tables.button(b) then down else x in ButtonImage(tables, buttons)
  {
    var after := if down then buttons + {b} else buttons - {b};
    if x in ButtonImage(tables, buttons) && x != tables.button(b) {
      var a :| a in buttons && tables.button(a) == x;
      assert a in after;
    }
    if down && x == tables.button(b) {
      assert b in after;
    }
  }

  /** Wheel messages move nothing in the pressed sets. */
  lemma WheelMirrors(tables: Tables, s: System, delta: ScrollDelta)
    requires Mirrors(tables, s)
    ensures Mirrors(tables, Next(tables, s, ClientDoes(MouseWheel(delta))))
  {
    var (c, msgs) := React(s.client, MouseWheel(delta));
    if msgs == [] {
      assert s.wire + [] == s.wire;
    } else {
      assert msgs == [msgs[0]] && msgs[0].Wheel?;
      EncodedOne(msgs[0]);
      WheelActs(tables, s, c, msgs[0]);
    }
  }

  lemma WheelActs(tables: Tables, s: System, c: Client, m: ControlMessage)
    requires Mirrors(tables, s) && m.Wheel? && c.keys == s.client.keys && c.buttons == s.client.buttons
    ensures Mirrors(tables, s.(client := c, wire := s.wire + [Encode(m)]))
  {
    RoundTrip(m);
    SentActs(tables, s, c, Encode(m));
  }

  lemma ClientMirrors(tables: Tables, s: System, e: ClientEvent)
    requires Injective(tables) && Mirrors(tables, s)
    ensures Mirrors(tables, Next(tables, s, ClientDoes(e)))
  {
    match e
    case KeyInput(physical, pressed, again, synthetic) =>
      if synthetic || again || !physical.Known? {
        OthersAreIgnored(tables, s, e);
      } else {
        KeyMirrors(tables, s, physical.key, pressed);
      }
    case MouseInput(which, down) =>
      if which.None? {
        OthersAreIgnored(tables, s, e);
      } else {
        ButtonMirrors(tables, s, which.value, down);
      }
    case MouseWheel(delta) => WheelMirrors(tables, s, delta);
    case _ => LeavingReleases(tables, s, e);
  }

  /** Without releases of its own the server will hold exactly the images of what the client records. */
  lemma {:induction false} ReplayIsImage(tables: Tables, steps: seq<Step>)
    requires Injective(tables) && NoServerReleases(steps)
    ensures Mirrors(tables, Run(tables, steps))
  {
    if steps != [] {
      var (rest, step) := (steps[..|steps| - 1], steps[|steps| - 1]);
      var s := Run(tables, rest);
      ReplayIsImage(tables, rest);
      NoStuckInput(tables, rest);
      assert !step.ServerReleases?;
      match step
      case ClientDoes(e) => ClientMirrors(tables, s, e);
      case Deliver => if s.wire != [] { DeliverKeepsToBe(tables, s); }
    }
  }

  lemma RunOneMore(tables: Tables, steps: seq<Step>, step: Step)
    ensures Run(tables, steps + [step]) == Next(tables, Run(tables, steps), step)
  {
    assert (steps + [step])[..|steps|] == steps;
  }

  /** Two keys with one code: pressing both and releasing one leaves the server without it. */
  lemma SharedKeyBreaks(tables: Tables, j: KeyCode, k: KeyCode) returns (steps: seq<Step>)
    requires j != k && tables.key(j).Some? && tables.key(j) == tables.key(k)
    ensures NoServerReleases(steps) && !Mirrors(tables, Run(tables, steps))
  {
    var (a, b) := (ClientDoes(KeyDoes(j, true)), ClientDoes(KeyDoes(k, false)));
    steps := [] + [a] + [b];
    var s := Run(tables, []);
    var t := Next(tables, s, a);
    RunOneMore(tables, [], a);
    RunOneMore(tables, [] + [a], b);
    KeyReachesServer(tables, s, j, true);
    KeyReachesServer(tables, t, k, false);
    var u := Next(tables, t, b);
    assert j in u.client.keys;
    assert tables.key(j).value in KeyImage(tables, u.client.keys);
    assert tables.key(j).value !in KeysToBe(tables, u);
  }

  lemma SharedButtonBreaks(tables: Tables, a: MouseButton, b: MouseButton) returns (steps: seq<Step>)
    requires a != b && tables.button(a) == tables.button(b)
    ensures NoServerReleases(steps) && !Mirrors(tables, Run(tables, steps))
  {
    var (press, release) := (ClientDoes(MouseInput(Some(a), true)), ClientDoes(MouseInput(Some(b), false)));
    steps := [] + [press] + [release];
    var s := Run(tables, []);
    var t := Next(tables, s, press);
    RunOneMore(tables, [], press);
    RunOneMore(tables, [] + [press], release);
    ButtonReachesServer(tables, s, a, true);
    ButtonReachesServer(tables, t, b, false);
    var u := Next(tables, t, release);
    assert a in u.client.buttons;
    assert tables.button(a) in ButtonImage(tables, u.client.buttons);
    assert tables.button(a) !in ButtonsToBe(tables, u);
  }

  ghost predicate AlwaysMirrors(tables: Tables) {
    forall steps :: NoServerReleases(steps) ==> Mirrors(tables, Run(tables, steps))
  }

  /** The subset of `NoStuckInput` is an equality in all runs without server releases exactly when no two keys
      and no two buttons share a code. */
  lemma MirrorsExactly(tables: Tables)
    ensures AlwaysMirrors(tables) <==> Injective(tables)
  {
    if Injective(tables) {
      forall steps | NoServerReleases(steps) ensures Mirrors(tables, Run(tables, steps)) {
        ReplayIsImage(tables, steps);
      }
    } else if j, k :| tables.key(j).Some? && tables.key(j) == tables.key(k) && j != k {
      var steps := SharedKeyBreaks(tables, j, k);
    } else {
      var a, b :| tables.button(a) == tables.button(b) && a != b;
      var steps := SharedButtonBreaks(tables, a, b);
    }
  }
}
