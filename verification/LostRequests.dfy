/**
  The one way a keyframe request can be lost: a new encoder is needed, cannot be created, and the
  encoder for the previous frame size is kept. Here is exactly when that loses the request.
*/
module LostRequests {
  import opened Prelude
  import opened Protocol
  import opened Delivery
  import opened Requests
  import opened Continuations

  // ---- What holds of every reachable state ----

  /** Encoders have a picture size, and a connecting session's sink is in place. */
  predicate HeldInv(s: State) {
    && (s.encoder.Some? ==> NonEmpty(s.encoder.value.size))
    && (s.encoding.Swapped? ==> NonEmpty(s.encoding.size))
    && (!s.connecting.NotConnecting? ==> s.sink.Some?)
  }

  lemma HeldEncoderStep(s: State, step: Step)
    requires HeldInv(s) && IsEncoderStep(step)
    ensures HeldInv(Next(s, step))
  {
  }

  lemma HeldStep(s: State, step: Step)
    requires HeldInv(s)
    ensures HeldInv(Next(s, step))
  {
    if IsEncoderStep(step) {
      HeldEncoderStep(s, step);
    }
  }

  lemma {:induction false} RunKeepsHeld(steps: seq<Step>)
    ensures HeldInv(Run(steps))
  {
    if steps != [] {
      RunKeepsHeld(steps[..|steps| - 1]);
      HeldStep(Run(steps[..|steps| - 1]), steps[|steps| - 1]);
    }
  }

  // ---- A recorded request is never lost ----

  lemma {:induction false} GuardLasts(s: State, more: seq<Step>, q: int)
    requires Guarded(s, q) && NoHeldFailure(s, more)
    ensures Guarded(Continue(s, more), q)
    decreases |more|
  {
    if more != [] {
      GuardStep(s, more[0], q);
      GuardLasts(Next(s, more[0]), more[1..], q);
    }
  }

  lemma GuardedIsNotLost(s: State, more: seq<Step>, q: int)
    requires Guarded(s, q) && NoHeldFailure(s, more)
    ensures !Lost(Continue(s, more).log, q)
  {
    GuardLasts(s, more, q);
    var log := Continue(s, more).log;
    if Served(log, q) {
      ServedIsNotLost(log, q);
    } else {
      OpenIsNotLost(log, q);
    }
  }

  // ---- An unrecorded one can be lost ----

  /** The encoder thread waits with the encoder `e`, and nothing records a request. */
  predicate Unforced(s: State, e: Encoder) {
    s.encoding.Waiting? && !s.forceKeyframe && s.encoder == Some(e)
  }

  /** A frame that slips through is queued. */
  predicate Slipping(s: State, e: Encoder) {
    Unforced(s, e) && s.slot == Some(Captured(e.size, false))
  }

  /** A tick that may start, or has started, brings such a frame into the empty slot. */
  lemma TickSlips(s: State, e: Encoder) returns (more: seq<Step>)
    requires Unforced(s, e) && s.slot.None?
    requires s.capturing.Capturing? || (s.capturing.Pacing? && MayTick(s))
    ensures NoHeldFailure(s, more)
    ensures var t := Continue(s, more); Slipping(t, e) && t.log == s.log && t.sink == s.sink
    ensures Continue(s, more).connecting.NotConnecting? || Continue(s, more).connecting == s.connecting
    decreases !s.capturing.Capturing?, !s.clientConnected
  {
    if s.capturing.Capturing? {
      more := [LoadFlag(e.size), OfferFrame];
      UnfoldTwo(s, LoadFlag(e.size), OfferFrame);
    } else if s.clientConnected {
      more := TickSlips(Next(s, StartTick), e);
      Then(s, StartTick, more);
      more := [StartTick] + more;
    } else {
      more := TickSlips(Next(s, MarkConnected), e);
      Then(s, MarkConnected, more);
      more := [MarkConnected] + more;
    }
  }

  function Pieces(s: State): nat {
    (if s.capturing.Loaded? then 2 else 0) + (if s.slot.Some? then 1 else 0)
  }

  /** The condition of `NextSlips` is enough: some steps of the two threads queue a frame that slips through. */
  lemma NextCanSlip(s: State, e: Encoder) returns (more: seq<Step>)
    requires Unforced(s, e) && NextSlips(s)
    ensures NoHeldFailure(s, more)
    ensures var t := Continue(s, more); Slipping(t, e) && t.log == s.log && t.sink == s.sink
    ensures Continue(s, more).connecting.NotConnecting? || Continue(s, more).connecting == s.connecting
    decreases Pieces(s)
  {
    if s.slot.Some? && Slips(s, s.slot.value) {
      more := [];
    } else if s.slot.None? && !s.capturing.Loaded? {
      more := TickSlips(s, e);
    } else if s.capturing.Loaded? && (s.slot.None? || !Slips(s, s.capturing.captured)) {
      more := NextCanSlip(Next(s, OfferFrame), e);
      Then(s, OfferFrame, more);
      more := [OfferFrame] + more;
    } else {
      var t := Next(Next(s, Receive), SwapFlag);
      more := NextCanSlip(t, e);
      UnfoldTwo(s, Receive, SwapFlag);
      ContinueOn(s, [Receive, SwapFlag], more);
      more := [Receive, SwapFlag] + more;
    }
  }

  /** Some sink can be there when that frame comes out of the encoder. */
  lemma SlippingMeetsSink(s: State, e: Encoder) returns (more: seq<Step>)
    requires Slipping(s, e) && (s.sink.Some? || s.connecting.NotConnecting?)
    ensures NoHeldFailure(s, more) && (more == [] || more == NewSession(s.nextSession))
    ensures var t := Continue(s, more);
            Slipping(t, e) && t.sink.Some? && (t.log == s.log || t.log == s.log + [Installed(s.nextSession, true)])
  {
    if s.sink.Some? {
      more := [];
    } else {
      more := NewSession(s.nextSession);
      SessionInstalls(s);
    }
  }

  /** It is handed over as the first frame of a later encode. */
  lemma SlippingIsLost(s: State, e: Encoder, q: int)
    requires Slipping(s, e) && s.sink.Some? && NonEmpty(e.size) && Open(s.log, q) && q < |s.log|
    ensures NoHeldFailure(s, DELIVERY) && Lost(Continue(s, DELIVERY).log, q)
  {
    var to := s.sink.value;
    DeltaIsHanded(s, e, to);
    OpenDecided(s.log, Handed(to, Frame(e.id, e.produced, false, |s.log|), to !in s.receiversGone), q);
  }

  lemma UnrecordedIsLost(s: State, e: Encoder, q: int) returns (more: seq<Step>)
    requires HeldInv(s) && Unforced(s, e) && NextSlips(s) && RequestAt(s.log, q) && Open(s.log, q)
    ensures NoHeldFailure(s, more) && Lost(Continue(s, more).log, q)
  {
    var a := NextCanSlip(s, e);
    var t := Continue(s, a);
    var b := SlippingMeetsSink(t, e);
    var u := Continue(t, b);
    if u.log != s.log {
      OpenGrows(s.log, Installed(t.nextSession, true), q);
    }
    SlippingIsLost(u, e, q);
    ContinueOn(s, a, b + DELIVERY);
    ContinueOn(t, b, DELIVERY);
    more := a + (b + DELIVERY);
  }

  // ---- Main results ----

  /** Some way on, without a further such failure, loses the request. */
  ghost predicate CanBeLost(s: State, q: int) {
    exists more :: NoHeldFailure(s, more) && Lost(Continue(s, more).log, q)
  }

  /**
   * When creating an encoder fails while another is held, an open request can be lost exactly when the
   * flag is clear and the next encode can slip through: the frame it will get carries no mark and has
   * the held encoder's size, or is still to be captured. A marked frame in the slot, or one of yet
   * another size, saves the request.
   */
  lemma FailedCreationLosesExactly(steps: seq<Step>, q: int)
    requires FailsWhileHeld(Run(steps), CreateFails)
    requires RequestAt(Run(steps).log, q) && Open(Run(steps).log, q)
    ensures var t := AfterCreateFails(Run(steps)); CanBeLost(t, q) <==> !t.forceKeyframe && NextSlips(t)
  {
    var t := AfterCreateFails(Run(steps));
    RunKeepsHeld(steps);
    if !t.forceKeyframe && NextSlips(t) {
      var more := UnrecordedIsLost(t, t.encoder.value, q);
    } else {
      assert Guarded(t, q);
      forall more | NoHeldFailure(t, more) ensures !Lost(Continue(t, more).log, q) {
        GuardedIsNotLost(t, more, q);
      }
    }
  }

  /** Without such a failure no reachable state can lose a request. */
  lemma OtherwiseNeverLost(steps: seq<Step>, q: int)
    requires NeverFailsWhileHeld(steps) && RequestAt(Run(steps).log, q)
    ensures !CanBeLost(Run(steps), q)
  {
    RunKeepsRequests(steps);
    forall more | NoHeldFailure(Run(steps), more) ensures !Lost(Continue(Run(steps), more).log, q) {
      GuardedIsNotLost(Run(steps), more, q);
    }
  }

  // ---- An example ----

  const SCREEN := Size(1920, 1080)
  const TINY := Size(8, 8)

  /** The first client connects and gets its first keyframe. */
  const CONNECTED := NewSession(1) + [ForceOnConnect, MarkConnected]
  const STREAMING := CONNECTED + CaptureTick(SCREEN) + [Receive, SwapFlag] + [Encode(Key)] + [ReadSink, Send]

  lemma FirstConnects()
    ensures var s := Continue(Initial, CONNECTED);
            && SamePipeline(Initial.(forceKeyframe := true), s) && s.log == [Installed(1, true), Requested(1)]
            && s.sink == Some(1) && s.clientConnected && s.connecting.NotConnecting? && s.nextSession == 2
            && IsLive(s, 1) && s.activeSession == 1 && s.current == Some(1)
    ensures NoHeldFailure(Initial, CONNECTED)
  {
    SessionInstalls(Initial);
    ContinueOn(Initial, NewSession(1), [ForceOnConnect, MarkConnected]);
    ConnectEnds(Continue(Initial, NewSession(1)));
  }

  /** A state in which session 1 streams from encoder 0. */
  predicate Streams(s: State) {
    && s.encoding.Waiting? && s.capturing.Pacing? && s.slot.None? && !s.forceKeyframe
    && s.encoder == Some(Encoder(0, SCREEN, 1)) && s.sink == Some(1) && s.clientConnected && s.connecting.NotConnecting?
    && s.nextSession == 2 && IsLive(s, 1) && s.activeSession == 1 && s.current == Some(1) && s.receiversGone == {}
    && s.log == [Installed(1, true), Requested(1), Handed(1, Frame(0, 0, true, 2), true)]
  }

  lemma FirstKeyframe(s: State)
    requires s.encoding.Swapped? && s.encoding.force && s.encoder.None?
    ensures Continue(s, [Encode(Key)]) ==
            s.(encoder := Some(Encoder(s.nextEncoder, s.encoding.size, 1)), nextEncoder := s.nextEncoder + 1,
               encoding := Encoded(Frame(s.nextEncoder, 0, true, s.encoding.began), true))
    ensures NoHeldFailure(s, [Encode(Key)])
  {
    OneStep(s, Encode(Key));
  }

  lemma FirstStreams()
    ensures Streams(Continue(Initial, STREAMING)) && NoHeldFailure(Initial, STREAMING)
  {
    FirstConnects();
    var s0 := Continue(Initial, CONNECTED);
    var s1 := Continue(s0, CaptureTick(SCREEN));
    var s2 := Continue(s1, [Receive, SwapFlag]);
    var s3 := Continue(s2, [Encode(Key)]);
    FrameIsQueued(s0, SCREEN);
    FrameIsTaken(s1);
    FirstKeyframe(s2);
    FrameIsHanded(s3);
    ContinueOn(Initial, CONNECTED, CaptureTick(SCREEN));
    ContinueOn(Initial, CONNECTED + CaptureTick(SCREEN), [Receive, SwapFlag]);
    ContinueOn(Initial, CONNECTED + CaptureTick(SCREEN) + [Receive, SwapFlag], [Encode(Key)]);
    ContinueOn(Initial, CONNECTED + CaptureTick(SCREEN) + [Receive, SwapFlag] + [Encode(Key)], [ReadSink, Send]);
  }

  /** The client asks for another keyframe while the display shrinks to a size no encoder is made for. */
  lemma ShrinkingFails(s: State)
    requires Streams(s)
    ensures var t := Continue(Next(s, RequestKeyframe(1)), CaptureTick(TINY) + [Receive, SwapFlag]);
            && FailsWhileHeld(t, CreateFails) && t.log == s.log + [Requested(1)]
            && !AfterCreateFails(t).forceKeyframe && NextSlips(AfterCreateFails(t))
  {
    var r := Next(s, RequestKeyframe(1));
    assert r == s.(forceKeyframe := true, log := s.log + [Requested(1)]);
    ContinueOn(r, CaptureTick(TINY), [Receive, SwapFlag]);
    FrameIsQueued(r, TINY);
    FrameIsTaken(Continue(r, CaptureTick(TINY)));
  }

  /** A run in which a request is lost: the first frame from an encode that began after it is no keyframe. */
  lemma RequestCanBeLost() returns (steps: seq<Step>, q: nat)
    ensures RequestAt(Run(steps).log, q) && Lost(Run(steps).log, q)
  {
    FirstStreams();
    var s := Continue(Initial, STREAMING);
    ShrinkingFails(s);
    var failing := [RequestKeyframe(1)] + (CaptureTick(TINY) + [Receive, SwapFlag]);
    Then(s, RequestKeyframe(1), CaptureTick(TINY) + [Receive, SwapFlag]);
    var before := STREAMING + failing;
    ContinueOn(Initial, STREAMING, failing);
    RunFromStart(before);
    q := 3;
    FailedCreationLosesExactly(before, q);
    var t := AfterCreateFails(Run(before));
    var more :| NoHeldFailure(t, more) && Lost(Continue(t, more).log, q);
    RunOn(before, [CreateFails]);
    OneStep(Run(before), CreateFails);
    RunOn(before + [CreateFails], more);
    RequestStays(t, more, q);
    steps := before + [CreateFails] + more;
  }

  lemma {:induction false} RequestStays(s: State, more: seq<Step>, q: int)
    requires RequestAt(s.log, q)
    ensures RequestAt(Continue(s, more).log, q)
    decreases |more|
  {
    if more != [] {
      Shape(s, more[0]);
      RequestStays(Next(s, more[0]), more[1..], q);
    }
  }
}
