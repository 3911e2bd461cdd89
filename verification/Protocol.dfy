/**
  The capture / encode / session protocol of the server as one transition system.

  The two pipeline threads and the session tasks share a keyframe flag, a connected flag, the
  frame sink, the id of the active session and a one-slot frame channel. `Next` performs one
  step; a step that is not enabled leaves the state alone, so every sequence of steps is a run.

  Granularity: every access of the encoder thread to a shared variable is a step of its own, as
  are the three stores of a session that connects. Any other stretch of session code between
  two awaits is one step.
*/
module Protocol {
  import opened Prelude

  type SessionId = nat

  datatype Size = Size(width: nat, height: nat)

  /** A converted frame on its way to the encoder thread, with the flag capture saw. */
  datatype Captured = Captured(size: Size, keyframe: bool)

  /** An encoded frame: the `index`-th output of encoder instance `encoder`. `began` is the
      length of the event log when this encode took the keyframe flag. */
  datatype Frame = Frame(encoder: nat, index: nat, keyframe: bool, began: nat)

  /** A live encoder instance, the frame size it was made for and its number of outputs. */
  datatype Encoder = Encoder(id: nat, size: Size, produced: nat)

  /** What an encode call returned. */
  datatype EncodeResult = Key | Delta | Nothing | Error

  /** What happened at the boundary between pipeline and sessions. An install is made `anew` when
      the session's sink was not in place already. */
  datatype Event =
    | Installed(session: SessionId, anew: bool)
    | Requested(session: SessionId)
    | Handed(session: SessionId, frame: Frame, accepted: bool)

  /** Where the capture thread is inside one tick: between ticks, past its check that a client is
      connected, or about to offer the frame it decided to send. */
  datatype CapturePhase = Pacing | Capturing | Loaded(captured: Captured)

  /** Where the encoder thread is inside one iteration. */
  datatype EncodePhase =
    | Waiting
    | Received(captured: Captured)
    | Swapped(size: Size, force: bool, began: nat)
    | Encoded(frame: Frame, force: bool)
    | Sending(frame: Frame, to: SessionId)

  /** A session's task: running, waiting for the connection mutex in its teardown, or past it. */
  datatype Status = Live | Ending | Ended

  /** Which of its three stores a connecting session has performed. */
  datatype Connecting = NotConnecting | HasInstalled(session: SessionId) | HasForced(session: SessionId)

  datatype State = State(
    // Shared
    clientConnected: bool,
    forceKeyframe: bool,
    activeSession: nat,
    sink: Option<SessionId>,
    // The pipeline threads and the slot between them
    slot: Option<Captured>,
    capturing: CapturePhase,
    encoder: Option<Encoder>,
    nextEncoder: nat,
    encoding: EncodePhase,
    // The session layer
    nextSession: nat,
    takenOffers: nat,
    namedOffers: set<SessionId>,
    sessions: map<SessionId, Status>,
    current: Option<SessionId>,
    connecting: Connecting,
    receiversGone: set<SessionId>,
    // What happened so far
    log: seq<Event>)

  const Initial := State(
    clientConnected := false, forceKeyframe := false, activeSession := 0, sink := None,
    slot := None, capturing := Pacing, encoder := None, nextEncoder := 0, encoding := Waiting,
    nextSession := 1, takenOffers := 0, namedOffers := {}, sessions := map[], current := None,
    connecting := NotConnecting, receiversGone := {}, log := [])

  /** The steps, with everything that the environment decides as an argument. */
  datatype Step =
    | StartTick
    | LoadFlag(size: Size)
    | SkipTick
    | OfferFrame
    | Receive
    | SwapFlag
    | CreateFails
    | Encode(result: EncodeResult)
    | ReadSink
    | Send
    | TakePrevious
    | NameSession
    | AbandonOffer(named: Option<SessionId>)
    | Publish(session: SessionId)
    | Connect(session: SessionId)
    | ForceOnConnect
    | MarkConnected
    | RequestKeyframe(session: SessionId)
    | EndSession(session: SessionId)
    | FinishTeardown(session: SessionId)
    | DropReceiver(session: SessionId)

  // ---- Capture thread ----

  /** A tick starts when a client is connected. */
  function AfterStartTick(s: State): State {
    if s.capturing.Pacing? && s.clientConnected then s.(capturing := Capturing) else s
  }

  /** The tick converted a frame, reads the keyframe flag and decides to send the frame. */
  function AfterLoadFlag(s: State, size: Size): State {
    if s.capturing.Capturing? then s.(capturing := Loaded(Captured(size, s.forceKeyframe))) else s
  }

  /** The tick ends without a frame: no display, a failed capture or unchanged content. */
  function AfterSkipTick(s: State): State {
    if s.capturing.Capturing? then s.(capturing := Pacing) else s
  }

  /** The capture thread offers its frame to the slot; a full slot refuses it. */
  function AfterOfferFrame(s: State): State {
    if !s.capturing.Loaded? then s
    else if s.slot.None? then s.(capturing := Pacing, slot := Some(s.capturing.captured))
    else s.(capturing := Pacing)
  }

  // ---- Encoder thread ----

  function AfterReceive(s: State): State {
    if s.encoding.Waiting? && s.slot.Some?
    then s.(encoding := Received(s.slot.value), slot := None)
    else s
  }

  /** Empty frames are dropped; any other frame consumes the keyframe flag. */
  function AfterSwapFlag(s: State): State {
    if !s.encoding.Received? then s
    else
      var c := s.encoding.captured;
      if c.size.width == 0 || c.size.height == 0 then s.(encoding := Waiting)
      else s.(encoding := Swapped(c.size, c.keyframe || s.forceKeyframe, |s.log|), forceKeyframe := false)
  }

  predicate NeedsEncoder(s: State)
    requires s.encoding.Swapped?
  {
    s.encoder.None? || s.encoder.value.size != s.encoding.size
  }

  /** A needed encoder could not be created: the frame is dropped, the old encoder is kept. */
  function AfterCreateFails(s: State): State {
    if s.encoding.Swapped? && NeedsEncoder(s) then s.(encoding := Waiting) else s
  }

  /** The encoder an encode call runs on, and whether the call is forced. */
  function EncoderInUse(s: State): (Encoder, bool)
    requires s.encoding.Swapped?
  {
    if NeedsEncoder(s) then (Encoder(s.nextEncoder, s.encoding.size, 0), true)
    else (s.encoder.value, s.encoding.force)
  }

  /** One encode call, on a new encoder when needed. The encoder contract is the guard: a forced
      call returns a keyframe or an error. */
  function AfterEncode(s: State, result: EncodeResult): State {
    if !s.encoding.Swapped? then s
    else
      var (enc, force) := EncoderInUse(s);
      var made := if NeedsEncoder(s) then s.nextEncoder + 1 else s.nextEncoder;
      if force && !result.Key? && !result.Error? then s
      else match result
        case Error => s.(encoder := None, nextEncoder := made, encoding := Waiting)
        case Nothing => s.(encoder := Some(enc), nextEncoder := made, encoding := Waiting)
        case _ =>
          s.(encoder := Some(enc.(produced := enc.produced + 1)), nextEncoder := made,
             encoding := Encoded(Frame(enc.id, enc.produced, result.Key?, s.encoding.began), force))
  }

  /** Reads the sink; a forced frame that finds none re-arms the flag. */
  function AfterReadSink(s: State): State {
    if !s.encoding.Encoded? then s
    else match s.sink
      case Some(to) => s.(encoding := Sending(s.encoding.frame, to))
      case None => s.(encoding := Waiting, forceKeyframe := s.forceKeyframe || s.encoding.force)
  }

  /** The frame is handed over; it is refused when the receiver is gone. */
  function AfterSend(s: State): State {
    if !s.encoding.Sending? then s
    else
      var to := s.encoding.to;
      s.(encoding := Waiting, log := s.log + [Handed(to, s.encoding.frame, to !in s.receiversGone)])
  }

  // ---- Offers ----

  /** An offer takes the current connection out of its mutex and silences the old session. */
  function AfterTakePrevious(s: State): State {
    if !s.connecting.NotConnecting? then s
    else
      var t := s.(takenOffers := s.takenOffers + 1, current := None);
      if s.current.Some? then t.(clientConnected := false, sink := None) else t
  }

  /** The offer draws the next session id. */
  function AfterNameSession(s: State): State {
    if s.takenOffers == 0 then s
    else s.(takenOffers := s.takenOffers - 1, nextSession := s.nextSession + 1,
            namedOffers := s.namedOffers + {s.nextSession})
  }

  /** An offer fails, before or after it drew an id. */
  function AfterAbandonOffer(s: State, named: Option<SessionId>): State {
    match named
    case None => if s.takenOffers == 0 then s else s.(takenOffers := s.takenOffers - 1)
    case Some(id) => s.(namedOffers := s.namedOffers - {id})
  }

  /** The answer is ready: the connection and its session take over. */
  function AfterPublish(s: State, id: SessionId): State {
    if !s.connecting.NotConnecting? || id !in s.namedOffers then s
    else s.(namedOffers := s.namedOffers - {id}, current := Some(id), activeSession := id,
            sessions := s.sessions[id := Live])
  }

  // ---- Sessions ----

  predicate IsLive(s: State, id: SessionId) {
    id in s.sessions && s.sessions[id].Live?
  }

  /** The connection is up: a replaced session ends, the active one installs its sink. */
  function AfterConnect(s: State, id: SessionId): State {
    if !s.connecting.NotConnecting? || !IsLive(s, id) then s
    else if s.activeSession != id then s.(sessions := s.sessions[id := Ended])
    else s.(sink := Some(id), connecting := HasInstalled(id),
            log := s.log + [Installed(id, s.sink != Some(id))])
  }

  function AfterForceOnConnect(s: State): State {
    if !s.connecting.HasInstalled? then s
    else s.(forceKeyframe := true, connecting := HasForced(s.connecting.session),
            log := s.log + [Requested(s.connecting.session)])
  }

  function AfterMarkConnected(s: State): State {
    if !s.connecting.HasForced? then s
    else s.(clientConnected := true, connecting := NotConnecting)
  }

  /** A PLI or FIR arrives at a session that was started (its RTCP task may outlive it). */
  function AfterRequestKeyframe(s: State, id: SessionId): State {
    if id !in s.sessions then s
    else s.(forceKeyframe := true, log := s.log + [Requested(id)])
  }

  /** The event loop ends: the active session clears the shared state, a replaced one does not. */
  function AfterEndSession(s: State, id: SessionId): State {
    if !s.connecting.NotConnecting? || !IsLive(s, id) then s
    else if s.activeSession == id then
      s.(clientConnected := false, sink := None, sessions := s.sessions[id := Ending])
    else s.(sessions := s.sessions[id := Ended])
  }

  /** Second half of the teardown, once the connection mutex is free. */
  function AfterFinishTeardown(s: State, id: SessionId): State {
    if !s.connecting.NotConnecting? || id !in s.sessions || !s.sessions[id].Ending? then s
    else s.(sessions := s.sessions[id := Ended],
            current := if s.current == Some(id) then None else s.current)
  }

  /** The session's frame writer stops (write error or abort). */
  function AfterDropReceiver(s: State, id: SessionId): State {
    s.(receiversGone := s.receiversGone + {id})
  }

  predicate IsCaptureStep(step: Step) {
    step.StartTick? || step.LoadFlag? || step.SkipTick? || step.OfferFrame?
  }

  predicate IsEncoderStep(step: Step) {
    step.Receive? || step.SwapFlag? || step.CreateFails? || step.Encode? || step.ReadSink? || step.Send?
  }

  function Next(s: State, step: Step): State {
    match step
    case StartTick => AfterStartTick(s)
    case LoadFlag(size) => AfterLoadFlag(s, size)
    case SkipTick => AfterSkipTick(s)
    case OfferFrame => AfterOfferFrame(s)
    case Receive => AfterReceive(s)
    case SwapFlag => AfterSwapFlag(s)
    case CreateFails => AfterCreateFails(s)
    case Encode(result) => AfterEncode(s, result)
    case ReadSink => AfterReadSink(s)
    case Send => AfterSend(s)
    case TakePrevious => AfterTakePrevious(s)
    case NameSession => AfterNameSession(s)
    case AbandonOffer(named) => AfterAbandonOffer(s, named)
    case Publish(id) => AfterPublish(s, id)
    case Connect(id) => AfterConnect(s, id)
    case ForceOnConnect => AfterForceOnConnect(s)
    case MarkConnected => AfterMarkConnected(s)
    case RequestKeyframe(id) => AfterRequestKeyframe(s, id)
    case EndSession(id) => AfterEndSession(s, id)
    case FinishTeardown(id) => AfterFinishTeardown(s, id)
    case DropReceiver(id) => AfterDropReceiver(s, id)
  }

  /** The state after a run. */
  function Run(steps: seq<Step>): State {
    if steps == [] then Initial else Next(Run(steps[..|steps| - 1]), steps[|steps| - 1])
  }

  /** Encoder creation fails while an encoder of another size is still held. */
  predicate FailsWhileHeld(s: State, step: Step) {
    step.CreateFails? && s.encoding.Swapped? && NeedsEncoder(s) && s.encoder.Some?
  }

  /** No step of the run is a failed creation with another encoder held. */
  predicate NeverFailsWhileHeld(steps: seq<Step>) {
    steps == [] ||
    (NeverFailsWhileHeld(steps[..|steps| - 1]) &&
     !FailsWhileHeld(Run(steps[..|steps| - 1]), steps[|steps| - 1]))
  }

  lemma RunStep(steps: seq<Step>, step: Step)
    ensures Run(steps + [step]) == Next(Run(steps), step)
    ensures NeverFailsWhileHeld(steps + [step]) <==> NeverFailsWhileHeld(steps) && !FailsWhileHeld(Run(steps), step)
  {
    assert (steps + [step])[..|steps|] == steps;
  }
}
