/**
  The server's objects: the shared flags, the two pipeline threads and the session manager, with
  the code between two interleaving points as one method each. `Valid` says that the objects are
  in the state that a run of the protocol reaches; every method extends that run by the step of
  its name. What holds of all runs therefore holds of the live objects at every moment.
*/
module Server {
  import opened Prelude
  import opened Protocol
  import opened Delivery
  import opened ClientStream
  import opened Requests
  import opened Sessions

  /** State shared between the pipeline threads and the session layer. */
  class Shared {
    var clientConnected: bool
    var forceKeyframe: bool
    var activeSession: nat
    var sink: Option<SessionId>
    /** What happened so far; no branch depends on it. */
    var log: seq<Event>

    constructor ()
      ensures !clientConnected && !forceKeyframe && activeSession == 0 && sink == None && log == []
    {
      clientConnected, forceKeyframe, activeSession, sink, log := false, false, 0, None, [];
    }

    method InstallSink(session: SessionId)
      modifies this`sink, this`log
      ensures sink == Some(session) && log == old(log) + [Installed(session, old(sink) != Some(session))]
    {
      log := log + [Installed(session, sink != Some(session))];
      sink := Some(session);
    }

    method ClearSink()
      modifies this`sink
      ensures sink == None
    {
      sink := None;
    }

    /** Atomic exchange of the keyframe flag with `false`. */
    method TakeKeyframeFlag() returns (was: bool)
      modifies this`forceKeyframe
      ensures was == old(forceKeyframe) && !forceKeyframe
    {
      was := forceKeyframe;
      forceKeyframe := false;
    }

    method Request(session: SessionId)
      modifies this`forceKeyframe, this`log
      ensures forceKeyframe && log == old(log) + [Requested(session)]
    {
      forceKeyframe := true;
      log := log + [Requested(session)];
    }
  }

  /** The one-slot channel between the capture and the encoder thread. */
  class FrameSlot {
    var content: Option<Captured>

    constructor ()
      ensures content == None
    {
      content := None;
    }

    method TrySend(c: Captured) returns (sent: bool)
      modifies this
      ensures sent == old(content).None?
      ensures content == if sent then Some(c) else old(content)
    {
      sent := content.None?;
      if sent {
        content := Some(c);
      }
    }
  }

  class CaptureThread {
    var phase: CapturePhase

    constructor ()
      ensures phase == Pacing
    {
      phase := Pacing;
    }
  }

  class EncodeThread {
    var encoder: Option<Encoder>
    var nextEncoder: nat
    var phase: EncodePhase

    constructor ()
      ensures encoder == None && nextEncoder == 0 && phase == Waiting
    {
      encoder, nextEncoder, phase := None, 0, Waiting;
    }
  }

  class SessionManager {
    var nextSession: nat
    var takenOffers: nat
    var namedOffers: set<SessionId>
    var sessions: map<SessionId, Status>
    var current: Option<SessionId>
    var connecting: Connecting
    var receiversGone: set<SessionId>

    constructor ()
      ensures nextSession == 1 && takenOffers == 0 && namedOffers == {} && sessions == map[]
      ensures current == None && connecting == NotConnecting && receiversGone == {}
    {
      nextSession, takenOffers, namedOffers, sessions := 1, 0, {}, map[];
      current, connecting, receiversGone := None, NotConnecting, {};
    }
  }

  class VideoServer {
    const shared: Shared
    const slot: FrameSlot
    const capture: CaptureThread
    const encode: EncodeThread
    const manager: SessionManager
    /** The steps taken so far. */
    ghost var steps: seq<Step>

    ghost function Snapshot(): State
      reads shared, slot, capture, encode, manager
    {
      State(shared.clientConnected, shared.forceKeyframe, shared.activeSession, shared.sink,
            slot.content, capture.phase, encode.encoder, encode.nextEncoder, encode.phase,
            manager.nextSession, manager.takenOffers, manager.namedOffers, manager.sessions,
            manager.current, manager.connecting, manager.receiversGone, shared.log)
    }

    ghost predicate Valid()
      reads this, shared, slot, capture, encode, manager
    {
      Snapshot() == Run(steps)
    }

    /** A connected pipeline and the current connection belong to the active session. */
    ghost predicate Owned()
      reads this, shared, slot, capture, encode, manager
    {
      && (shared.clientConnected || shared.sink.Some? ==> IsLive(Snapshot(), shared.activeSession))
      && (manager.current.Some? ==> manager.current.value == shared.activeSession)
    }

    constructor ()
      ensures Valid() && steps == []
    {
      shared := new Shared();
      slot := new FrameSlot();
      capture := new CaptureThread();
      encode := new EncodeThread();
      manager := new SessionManager();
      steps := [];
    }

    // ---- capture_loop ----

    /** The check at the head of the loop, with a client connected. */
    method StartTick()
      requires Valid()
      requires capture.phase.Pacing? && shared.clientConnected
      modifies capture, this`steps
      ensures Valid() && steps == old(steps) + [Step.StartTick]
      ensures capture.phase == Capturing
    {
      RunStep(steps, Step.StartTick);
      steps := steps + [Step.StartTick];
      capture.phase := Capturing;
    }

    /** No display, a failed capture or unchanged content. */
    method SkipTick()
      requires Valid()
      requires capture.phase.Capturing?
      modifies capture, this`steps
      ensures Valid() && steps == old(steps) + [Step.SkipTick]
      ensures capture.phase == Pacing
    {
      RunStep(steps, Step.SkipTick);
      steps := steps + [Step.SkipTick];
      capture.phase := Pacing;
    }

    method LoadFlag(size: Size)
      requires Valid()
      requires capture.phase.Capturing?
      modifies capture, this`steps
      ensures Valid() && steps == old(steps) + [Step.LoadFlag(size)]
      ensures capture.phase == Loaded(Captured(size, shared.forceKeyframe))
    {
      RunStep(steps, Step.LoadFlag(size));
      steps := steps + [Step.LoadFlag(size)];
      var keyframe := shared.forceKeyframe;
      capture.phase := Loaded(Captured(size, keyframe));
    }

    method OfferFrame()
      requires Valid()
      requires capture.phase.Loaded?
      modifies capture, slot, this`steps
      ensures Valid() && steps == old(steps) + [Step.OfferFrame]
      ensures capture.phase == Pacing
      ensures slot.content == if old(slot.content).None? then Some(old(capture.phase).captured) else old(slot.content)
    {
      RunStep(steps, Step.OfferFrame);
      steps := steps + [Step.OfferFrame];
      var sent := slot.TrySend(capture.phase.captured);
      capture.phase := Pacing;
    }

    // ---- encode_loop ----

    method Receive()
      requires Valid()
      requires encode.phase.Waiting? && slot.content.Some?
      modifies encode, slot, this`steps
      ensures Valid() && steps == old(steps) + [Step.Receive]
      ensures encode.phase == Received(old(slot.content).value) && slot.content == None
    {
      RunStep(steps, Step.Receive);
      steps := steps + [Step.Receive];
      encode.phase := Received(slot.content.value);
      slot.content := None;
    }

    method SwapFlag()
      requires Valid()
      requires encode.phase.Received?
      modifies encode, shared`forceKeyframe, this`steps
      ensures Valid() && steps == old(steps) + [Step.SwapFlag]
      ensures var c := old(encode.phase).captured;
              if c.size.width == 0 || c.size.height == 0
              then encode.phase == Waiting && shared.forceKeyframe == old(shared.forceKeyframe)
              else encode.phase == Swapped(c.size, c.keyframe || old(shared.forceKeyframe), |shared.log|) && !shared.forceKeyframe
    {
      RunStep(steps, Step.SwapFlag);
      steps := steps + [Step.SwapFlag];
      var Captured(size, keyframe) := encode.phase.captured;
      if size.width == 0 || size.height == 0 {
        encode.phase := Waiting;
        return;
      }
      var requested := shared.TakeKeyframeFlag();
      encode.phase := Swapped(size, keyframe || requested, |shared.log|);
    }

    /** `encoder::create` fails: the frame is dropped and the encoder variable keeps its value. */
    method CreateFails()
      requires Valid()
      requires encode.phase.Swapped? && NeedsEncoder(Snapshot())
      modifies encode, this`steps
      ensures Valid() && steps == old(steps) + [Step.CreateFails]
      ensures encode.phase == Waiting && encode.encoder == old(encode.encoder)
    {
      RunStep(steps, Step.CreateFails);
      steps := steps + [Step.CreateFails];
      encode.phase := Waiting;
    }

    /** Creates an encoder when needed, then encodes with the result `result`. */
    method Encode(result: EncodeResult)
      requires Valid()
      requires encode.phase.Swapped?
      requires EncoderInUse(Snapshot()).1 ==> result.Key? || result.Error?
      modifies encode, this`steps
      ensures Valid() && steps == old(steps) + [Step.Encode(result)]
      ensures match result
              case Error => encode.phase == Waiting && encode.encoder.None?
              case Nothing => encode.phase == Waiting && encode.encoder.Some?
              case _ => encode.phase.Encoded? && encode.phase.frame.keyframe == result.Key? && encode.encoder.Some?
                        && Follows(encode.phase.frame, Frame(encode.encoder.value.id, encode.encoder.value.produced, false, 0))
      ensures encode.encoder.Some? ==> encode.encoder.value.size == old(encode.phase).size
      ensures encode.phase.Encoded? ==>
                (encode.phase.force <==> old(encode.phase).force || old(encode.encoder).None?
                                         || old(encode.encoder).value.size != old(encode.phase).size)
    {
      RunStep(steps, Step.Encode(result));
      steps := steps + [Step.Encode(result)];
      var Swapped(size, swapped, began) := encode.phase;
      var force := swapped;
      if encode.encoder.None? || encode.encoder.value.size != size {
        encode.encoder := Some(Encoder(encode.nextEncoder, size, 0));
        encode.nextEncoder := encode.nextEncoder + 1;
        force := true;
      }
      var enc := encode.encoder.value;
      match result {
        case Nothing => encode.phase := Waiting;
        case Error =>
          encode.encoder := None;
          encode.phase := Waiting;
        case _ =>
          encode.encoder := Some(enc.(produced := enc.produced + 1));
          encode.phase := Encoded(Frame(enc.id, enc.produced, result.Key?, began), force);
      }
    }

    method ReadSink()
      requires Valid()
      requires encode.phase.Encoded?
      modifies encode, shared`forceKeyframe, this`steps
      ensures Valid() && steps == old(steps) + [Step.ReadSink]
      ensures var (frame, force) := old((encode.phase.frame, encode.phase.force));
              if shared.sink.Some?
              then encode.phase == Sending(frame, shared.sink.value) && shared.forceKeyframe == old(shared.forceKeyframe)
              else encode.phase == Waiting && (shared.forceKeyframe <==> old(shared.forceKeyframe) || force)
    {
      RunStep(steps, Step.ReadSink);
      steps := steps + [Step.ReadSink];
      var Encoded(frame, force) := encode.phase;
      if shared.sink.Some? {
        encode.phase := Sending(frame, shared.sink.value);
      } else {
        if force {
          shared.forceKeyframe := true;
        }
        encode.phase := Waiting;
      }
    }

    method Send()
      requires Valid()
      requires encode.phase.Sending?
      modifies encode, shared`log, this`steps
      ensures Valid() && steps == old(steps) + [Step.Send]
      ensures var (to, frame) := old((encode.phase.to, encode.phase.frame));
              && shared.log == old(shared.log) + [Handed(to, frame, to !in manager.receiversGone)]
              && Continues(old(shared.log), to, frame)
      ensures NeverFailsWhileHeld(steps) ==> forall q :: RequestAt(shared.log, q) ==> !Lost(shared.log, q)
    {
      RunStep(steps, Step.Send);
      steps := steps + [Step.Send];
      var Sending(frame, to) := encode.phase;
      RunKeepsStreams(old(steps));
      shared.log := shared.log + [Handed(to, frame, to !in manager.receiversGone)];
      encode.phase := Waiting;
      if NeverFailsWhileHeld(steps) {
        NothingIsLost(steps);
      }
    }

    // ---- accept_offer ----

    method TakePrevious()
      requires Valid()
      requires manager.connecting.NotConnecting?
      modifies manager, shared`clientConnected, shared`sink, this`steps
      ensures Valid() && steps == old(steps) + [Step.TakePrevious]
      ensures manager.current == None
      ensures if old(manager.current).Some? then !shared.clientConnected && shared.sink.None?
              else shared.clientConnected == old(shared.clientConnected) && shared.sink == old(shared.sink)
    {
      RunStep(steps, Step.TakePrevious);
      steps := steps + [Step.TakePrevious];
      var previous := manager.current;
      manager.current := None;
      manager.takenOffers := manager.takenOffers + 1;
      if previous.Some? {
        shared.clientConnected := false;
        shared.ClearSink();
      }
    }

    method NameSession() returns (id: SessionId)
      requires Valid()
      requires manager.takenOffers > 0
      modifies manager, this`steps
      ensures Valid() && steps == old(steps) + [Step.NameSession] && id == old(manager.nextSession)
      ensures manager.nextSession == id + 1 && manager.namedOffers == old(manager.namedOffers) + {id}
      ensures manager.takenOffers == old(manager.takenOffers) - 1
    {
      RunStep(steps, Step.NameSession);
      steps := steps + [Step.NameSession];
      id := manager.nextSession;
      manager.nextSession := id + 1;
      manager.takenOffers := manager.takenOffers - 1;
      manager.namedOffers := manager.namedOffers + {id};
    }

    method AbandonOffer(named: Option<SessionId>)
      requires Valid()
      requires named.None? ==> manager.takenOffers > 0
      modifies manager, this`steps
      ensures Valid() && steps == old(steps) + [Step.AbandonOffer(named)]
      ensures match named
              case None => manager.takenOffers == old(manager.takenOffers) - 1 && manager.namedOffers == old(manager.namedOffers)
              case Some(id) => manager.takenOffers == old(manager.takenOffers) && manager.namedOffers == old(manager.namedOffers) - {id}
    {
      RunStep(steps, Step.AbandonOffer(named));
      steps := steps + [Step.AbandonOffer(named)];
      match named {
        case None => manager.takenOffers := manager.takenOffers - 1;
        case Some(id) => manager.namedOffers := manager.namedOffers - {id};
      }
    }

    method Publish(id: SessionId)
      requires Valid()
      requires manager.connecting.NotConnecting? && id in manager.namedOffers
      modifies manager, shared`activeSession, this`steps
      ensures Valid() && steps == old(steps) + [Step.Publish(id)]
      ensures manager.current == Some(id) && shared.activeSession == id && manager.sessions == old(manager.sessions)[id := Live]
      ensures manager.namedOffers == old(manager.namedOffers) - {id}
    {
      RunStep(steps, Step.Publish(id));
      steps := steps + [Step.Publish(id)];
      manager.current := Some(id);
      shared.activeSession := id;
      manager.namedOffers := manager.namedOffers - {id};
      manager.sessions := manager.sessions[id := Live];
    }

    // ---- run_session ----

    method Connect(id: SessionId)
      requires Valid()
      requires manager.connecting.NotConnecting? && IsLive(Snapshot(), id)
      modifies manager, shared`sink, shared`log, this`steps
      ensures Valid() && steps == old(steps) + [Step.Connect(id)]
      ensures Owned()
      ensures if shared.activeSession == id then shared.sink == Some(id) else unchanged(shared)
    {
      RunStep(steps, Step.Connect(id));
      steps := steps + [Step.Connect(id)];
      if shared.activeSession != id {
        manager.sessions := manager.sessions[id := Ended];
        Ownership(steps);
        return;
      }
      shared.InstallSink(id);
      manager.connecting := HasInstalled(id);
      Ownership(steps);
    }

    method ForceOnConnect()
      requires Valid()
      requires manager.connecting.HasInstalled?
      modifies manager, shared`forceKeyframe, shared`log, this`steps
      ensures Valid() && steps == old(steps) + [Step.ForceOnConnect]
      ensures shared.forceKeyframe
      ensures NeverFailsWhileHeld(steps) ==> Guarded(Snapshot(), |old(shared.log)|)
    {
      RunStep(steps, Step.ForceOnConnect);
      steps := steps + [Step.ForceOnConnect];
      shared.Request(manager.connecting.session);
      manager.connecting := HasForced(manager.connecting.session);
      if NeverFailsWhileHeld(steps) {
        RunKeepsRequests(steps);
      }
    }

    method MarkConnected()
      requires Valid()
      requires manager.connecting.HasForced?
      modifies manager, shared`clientConnected, this`steps
      ensures Valid() && steps == old(steps) + [Step.MarkConnected]
      ensures shared.clientConnected && manager.connecting == NotConnecting
    {
      RunStep(steps, Step.MarkConnected);
      steps := steps + [Step.MarkConnected];
      shared.clientConnected := true;
      manager.connecting := NotConnecting;
    }

    /** A PLI or FIR reached the session's RTCP task. */
    method RequestKeyframe(id: SessionId)
      requires Valid()
      requires id in manager.sessions
      modifies shared`forceKeyframe, shared`log, this`steps
      ensures Valid() && steps == old(steps) + [Step.RequestKeyframe(id)]
      ensures shared.forceKeyframe
      ensures NeverFailsWhileHeld(steps) ==> Guarded(Snapshot(), |old(shared.log)|)
    {
      RunStep(steps, Step.RequestKeyframe(id));
      steps := steps + [Step.RequestKeyframe(id)];
      shared.Request(id);
      if NeverFailsWhileHeld(steps) {
        RunKeepsRequests(steps);
      }
    }

    method EndSession(id: SessionId)
      requires Valid()
      requires manager.connecting.NotConnecting? && IsLive(Snapshot(), id)
      modifies manager, shared`clientConnected, shared`sink, this`steps
      ensures Valid() && steps == old(steps) + [Step.EndSession(id)]
      ensures Owned()
      ensures if shared.activeSession == id then !shared.clientConnected && shared.sink.None? else unchanged(shared)
    {
      RunStep(steps, Step.EndSession(id));
      steps := steps + [Step.EndSession(id)];
      if shared.activeSession == id {
        shared.clientConnected := false;
        shared.ClearSink();
        manager.sessions := manager.sessions[id := Ending];
      } else {
        manager.sessions := manager.sessions[id := Ended];
      }
      Ownership(steps);
    }

    method FinishTeardown(id: SessionId)
      requires Valid()
      requires manager.connecting.NotConnecting? && id in manager.sessions && manager.sessions[id].Ending?
      modifies manager, this`steps
      ensures Valid() && steps == old(steps) + [Step.FinishTeardown(id)]
      ensures manager.current == if old(manager.current) == Some(id) then None else old(manager.current)
    {
      RunStep(steps, Step.FinishTeardown(id));
      steps := steps + [Step.FinishTeardown(id)];
      if manager.current.Some? {
        if manager.current.value == id {
          manager.current := None;
        }
      }
      manager.sessions := manager.sessions[id := Ended];
    }

    method DropReceiver(id: SessionId)
      requires Valid()
      modifies manager, this`steps
      ensures Valid() && steps == old(steps) + [Step.DropReceiver(id)]
      ensures manager.receiversGone == old(manager.receiversGone) + {id}
    {
      RunStep(steps, Step.DropReceiver(id));
      steps := steps + [Step.DropReceiver(id)];
      manager.receiversGone := manager.receiversGone + {id};
    }
  }

  lemma Ownership(steps: seq<Step>)
    ensures var s := Run(steps);
            && (s.clientConnected || s.sink.Some? ==> IsLive(s, s.activeSession))
            && (s.current.Some? ==> s.current.value == s.activeSession)
  {
    ActiveSessionOwnsPipeline(steps);
  }

  lemma NothingIsLost(steps: seq<Step>)
    requires NeverFailsWhileHeld(steps)
    ensures forall q :: RequestAt(Run(steps).log, q) ==> !Lost(Run(steps).log, q)
  {
    var log := Run(steps).log;
    RunKeepsRequests(steps);
    forall q | RequestAt(log, q) ensures !Lost(log, q) {
      assert Guarded(Run(steps), q);
      if Served(log, q) { ServedIsNotLost(log, q); } else { OpenIsNotLost(log, q); }
    }
  }

  /** At every moment, whatever was called in whatever order: the active session owns the pipeline, every
      client can decode what it got from any keyframe on, and no keyframe request was lost. */
  lemma LiveServer(v: VideoServer)
    requires v.Valid()
    ensures v.Owned()
    ensures forall id, k: nat ::
              var got := ClientStream.Received(v.shared.log, id);
              k < |got| && got[k].keyframe ==> Decodable(got[k..])
    ensures NeverFailsWhileHeld(v.steps) ==> forall q :: RequestAt(v.shared.log, q) ==> !Lost(v.shared.log, q)
  {
    Ownership(v.steps);
    var log := v.shared.log;
    assert log[..|log|] == log;
    forall id, k: nat | k < |ClientStream.Received(log, id)| && ClientStream.Received(log, id)[k].keyframe
      ensures Decodable(ClientStream.Received(log, id)[k..])
    {
      StreamIsDecodable(v.steps, log, |log|, id, k);
    }
    if NeverFailsWhileHeld(v.steps) {
      NothingIsLost(v.steps);
    }
  }
}
