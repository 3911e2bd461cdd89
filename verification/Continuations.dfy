/** Runs that go on from a given state, and the stretches of steps that the examples are made of. */
module Continuations {
  import opened Prelude
  import opened Protocol

  /** The state after `more`, taken from `s`. */
  function Continue(s: State, more: seq<Step>): State
    decreases |more|
  {
    if more == [] then s else Continue(Next(s, more[0]), more[1..])
  }

  /** No creation fails on the way while an encoder of another size is held. */
  predicate NoHeldFailure(s: State, more: seq<Step>)
    decreases |more|
  {
    more == [] || (!FailsWhileHeld(s, more[0]) && NoHeldFailure(Next(s, more[0]), more[1..]))
  }

  lemma Then(s: State, step: Step, more: seq<Step>)
    ensures Continue(s, [step] + more) == Continue(Next(s, step), more)
    ensures NoHeldFailure(s, [step] + more) <==> !FailsWhileHeld(s, step) && NoHeldFailure(Next(s, step), more)
  {
    assert ([step] + more)[1..] == more;
  }

  lemma {:induction false} ContinueOn(s: State, a: seq<Step>, b: seq<Step>)
    ensures Continue(s, a + b) == Continue(Continue(s, a), b)
    ensures NoHeldFailure(s, a + b) <==> NoHeldFailure(s, a) && NoHeldFailure(Continue(s, a), b)
    decreases |a|
  {
    if a == [] {
      assert a + b == b;
    } else {
      assert (a + b)[1..] == a[1..] + b;
      ContinueOn(Next(s, a[0]), a[1..], b);
    }
  }

  lemma {:induction false} RunOn(steps: seq<Step>, more: seq<Step>)
    ensures Continue(Run(steps), more) == Run(steps + more)
    ensures NeverFailsWhileHeld(steps + more) <==> NeverFailsWhileHeld(steps) && NoHeldFailure(Run(steps), more)
    decreases |more|
  {
    if more == [] {
      assert steps + more == steps;
    } else {
      var first := steps + [more[0]];
      RunStep(steps, more[0]);
      RunOn(first, more[1..]);
      assert first + more[1..] == steps + more;
    }
  }

  /** A continuation of a run is a run. */
  lemma RunFromStart(more: seq<Step>)
    ensures Continue(Initial, more) == Run(more) && (NeverFailsWhileHeld(more) <==> NoHeldFailure(Initial, more))
  {
    RunOn([], more);
    assert [] + more == more;
  }

  // ---- A new session connects ----

  /** What the session layer leaves alone. */
  predicate SamePipeline(s: State, t: State) {
    && t.encoding == s.encoding && t.encoder == s.encoder && t.nextEncoder == s.nextEncoder
    && t.slot == s.slot && t.capturing == s.capturing && t.forceKeyframe == s.forceKeyframe
    && t.receiversGone == s.receiversGone
  }

  lemma OfferStarts(s: State)
    requires s.connecting.NotConnecting?
    ensures var t := Next(Next(s, TakePrevious), NameSession);
            && SamePipeline(s, t) && t.log == s.log && t.connecting.NotConnecting? && s.nextSession in t.namedOffers
            && t.nextSession == s.nextSession + 1 && (t.sink == s.sink || t.sink.None?)
            && (t.clientConnected ==> s.clientConnected)
  {
  }

  lemma OfferEnds(s: State, id: SessionId)
    requires s.connecting.NotConnecting? && id in s.namedOffers && s.sink != Some(id)
    ensures var t := Next(Next(s, Publish(id)), Connect(id));
            && SamePipeline(s, t) && t.log == s.log + [Installed(id, true)] && t.connecting == HasInstalled(id)
            && t.sink == Some(id) && t.nextSession == s.nextSession && t.clientConnected == s.clientConnected
            && IsLive(t, id) && t.activeSession == id && t.current == Some(id)
  {
  }

  /** The steps of a new session up to its sink store. */
  function NewSession(id: SessionId): seq<Step> {
    [TakePrevious, NameSession, Publish(id), Connect(id)]
  }

  lemma SessionInstalls(s: State)
    requires s.connecting.NotConnecting? && s.sink != Some(s.nextSession)
    ensures var t := Continue(s, NewSession(s.nextSession));
            && SamePipeline(s, t) && t.log == s.log + [Installed(s.nextSession, true)]
            && t.connecting == HasInstalled(s.nextSession) && t.sink == Some(s.nextSession)
            && t.nextSession == s.nextSession + 1
            && IsLive(t, s.nextSession) && t.activeSession == s.nextSession && t.current == Some(s.nextSession)
            && (t.clientConnected ==> s.clientConnected)
    ensures NoHeldFailure(s, NewSession(s.nextSession))
  {
    var id := s.nextSession;
    OfferStarts(s);
    OfferEnds(Next(Next(s, TakePrevious), NameSession), id);
    UnfoldFour(s, TakePrevious, NameSession, Publish(id), Connect(id));
  }

  lemma UnfoldTwo(s: State, a: Step, b: Step)
    ensures Continue(s, [a, b]) == Next(Next(s, a), b)
    ensures NoHeldFailure(s, [a, b]) <==> !FailsWhileHeld(s, a) && !FailsWhileHeld(Next(s, a), b)
  {
    assert [a, b] == [a] + ([b] + []);
    Then(s, a, [b] + []);
    Then(Next(s, a), b, []);
  }

  lemma UnfoldFour(s: State, a: Step, b: Step, c: Step, d: Step)
    ensures Continue(s, [a, b, c, d]) == Next(Next(Next(Next(s, a), b), c), d)
    ensures !a.CreateFails? && !b.CreateFails? && !c.CreateFails? && !d.CreateFails? ==> NoHeldFailure(s, [a, b, c, d])
  {
    assert [a, b, c, d] == [a, b] + [c, d];
    ContinueOn(s, [a, b], [c, d]);
    UnfoldTwo(s, a, b);
    UnfoldTwo(Next(Next(s, a), b), c, d);
  }

  /** The other two stores of a connect. */
  lemma ConnectEnds(s: State)
    requires s.connecting.HasInstalled?
    ensures Continue(s, [ForceOnConnect, MarkConnected]) ==
            s.(forceKeyframe := true, clientConnected := true, connecting := NotConnecting,
               log := s.log + [Requested(s.connecting.session)])
    ensures NoHeldFailure(s, [ForceOnConnect, MarkConnected])
  {
    UnfoldTwo(s, ForceOnConnect, MarkConnected);
  }

  // ---- A frame goes through the pipeline ----

  /** The steps of a capture tick that offers a frame. */
  function CaptureTick(size: Size): seq<Step> {
    [StartTick, LoadFlag(size), OfferFrame]
  }

  lemma FrameIsQueued(s: State, size: Size)
    requires s.capturing.Pacing? && s.clientConnected && s.slot.None?
    ensures Continue(s, CaptureTick(size)) == s.(slot := Some(Captured(size, s.forceKeyframe)))
    ensures NoHeldFailure(s, CaptureTick(size))
  {
    assert CaptureTick(size) == [StartTick] + [LoadFlag(size), OfferFrame];
    Then(s, StartTick, [LoadFlag(size), OfferFrame]);
    UnfoldTwo(Next(s, StartTick), LoadFlag(size), OfferFrame);
  }

  predicate NonEmpty(size: Size) {
    size.width > 0 && size.height > 0
  }

  /** The encoder thread takes the queued frame and the flag. */
  lemma FrameIsTaken(s: State)
    requires s.encoding.Waiting? && s.slot.Some? && NonEmpty(s.slot.value.size)
    ensures Continue(s, [Receive, SwapFlag]) ==
            s.(slot := None, forceKeyframe := false,
               encoding := Swapped(s.slot.value.size, s.slot.value.keyframe || s.forceKeyframe, |s.log|))
    ensures NoHeldFailure(s, [Receive, SwapFlag])
  {
    UnfoldTwo(s, Receive, SwapFlag);
  }

  /** A queued frame that nothing forces becomes a non-keyframe of the held encoder. */
  lemma FrameIsEncoded(s: State, e: Encoder)
    requires s.encoding.Waiting? && !s.forceKeyframe && s.encoder == Some(e) && NonEmpty(e.size)
    requires s.slot == Some(Captured(e.size, false))
    ensures Continue(s, [Receive, SwapFlag] + [Encode(Delta)]) ==
            s.(slot := None, encoder := Some(e.(produced := e.produced + 1)),
               encoding := Encoded(Frame(e.id, e.produced, false, |s.log|), false))
    ensures NoHeldFailure(s, [Receive, SwapFlag] + [Encode(Delta)])
  {
    FrameIsTaken(s);
    ContinueOn(s, [Receive, SwapFlag], [Encode(Delta)]);
    OneStep(Continue(s, [Receive, SwapFlag]), Encode(Delta));
  }

  lemma OneStep(s: State, step: Step)
    ensures Continue(s, [step]) == Next(s, step)
    ensures NoHeldFailure(s, [step]) <==> !FailsWhileHeld(s, step)
  {
    assert [step] == [step] + [];
    Then(s, step, []);
  }

  lemma FrameIsHanded(s: State)
    requires s.encoding.Encoded? && s.sink.Some?
    ensures Continue(s, [ReadSink, Send]) ==
            s.(encoding := Waiting,
               log := s.log + [Handed(s.sink.value, s.encoding.frame, s.sink.value !in s.receiversGone)])
    ensures NoHeldFailure(s, [ReadSink, Send])
  {
    UnfoldTwo(s, ReadSink, Send);
  }

  /** The way of a queued frame to the sink. */
  const DELIVERY: seq<Step> := [Receive, SwapFlag] + [Encode(Delta)] + [ReadSink, Send]

  lemma DeltaIsHanded(s: State, e: Encoder, to: SessionId)
    requires s.encoding.Waiting? && !s.forceKeyframe && s.encoder == Some(e) && NonEmpty(e.size)
    requires s.slot == Some(Captured(e.size, false)) && s.sink == Some(to)
    ensures Continue(s, DELIVERY) ==
            s.(slot := None, encoder := Some(e.(produced := e.produced + 1)),
               log := s.log + [Handed(to, Frame(e.id, e.produced, false, |s.log|), to !in s.receiversGone)])
    ensures NoHeldFailure(s, DELIVERY)
  {
    FrameIsEncoded(s, e);
    ContinueOn(s, [Receive, SwapFlag] + [Encode(Delta)], [ReadSink, Send]);
    FrameIsHanded(Continue(s, [Receive, SwapFlag] + [Encode(Delta)]));
  }
}
