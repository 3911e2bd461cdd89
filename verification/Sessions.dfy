/**
  Who owns the pipeline: the active session, the current connection and the sink under take-over,
  hand-over and teardown in any order.
*/
module Sessions {
  import opened Prelude
  import opened Protocol
  import opened Continuations

  /** An offer took the previous connection and has not yet published or given up. */
  predicate OfferUnderWay(s: State) {
    s.takenOffers > 0 || s.namedOffers != {}
  }

  ghost predicate SessionInv(s: State) {
    && (forall id :: id in s.sessions ==> id < s.nextSession)
    && (forall id :: id in s.namedOffers ==> id < s.nextSession && id !in s.sessions)
    && (!s.connecting.NotConnecting? ==> s.connecting.session == s.activeSession && IsLive(s, s.activeSession))
    && (s.clientConnected || s.sink.Some? ==> IsLive(s, s.activeSession))
    && (s.sink.Some? ==> s.sink.value in s.sessions)
    && (s.current.Some? ==>
          && s.current.value == s.activeSession
          && s.current.value in s.sessions
          && !s.sessions[s.current.value].Ended?)
  }

  /** The steps of the two pipeline threads, the receivers and the RTCP tasks. */
  predicate IsPipelineStep(step: Step) {
    match step
    case TakePrevious => false
    case NameSession => false
    case AbandonOffer(_) => false
    case Publish(_) => false
    case Connect(_) => false
    case ForceOnConnect => false
    case MarkConnected => false
    case EndSession(_) => false
    case FinishTeardown(_) => false
    case _ => true
  }

  /** What they leave alone. */
  predicate SameSessions(s: State, t: State) {
    && t.clientConnected == s.clientConnected && t.activeSession == s.activeSession && t.sink == s.sink
    && t.nextSession == s.nextSession && t.takenOffers == s.takenOffers && t.namedOffers == s.namedOffers
    && t.sessions == s.sessions && t.current == s.current && t.connecting == s.connecting
  }

  lemma EncoderKeepsSessions(s: State, step: Step)
    requires IsEncoderStep(step)
    ensures SameSessions(s, Next(s, step))
  {
  }

  lemma PipelineKeepsSessions(s: State, step: Step)
    requires IsPipelineStep(step)
    ensures SameSessions(s, Next(s, step))
  {
    if IsEncoderStep(step) {
      EncoderKeepsSessions(s, step);
    }
  }

  lemma TakeStep(s: State)
    requires SessionInv(s)
    ensures SessionInv(AfterTakePrevious(s))
  {
  }

  lemma NameStep(s: State)
    requires SessionInv(s)
    ensures SessionInv(AfterNameSession(s))
  {
  }

  lemma OfferStep(s: State, step: Step)
    requires SessionInv(s)
    requires step.TakePrevious? || step.NameSession? || step.AbandonOffer?
    ensures SessionInv(Next(s, step))
  {
    match step
    case TakePrevious => TakeStep(s);
    case NameSession => NameStep(s);
    case _ =>
  }

  lemma PublishStep(s: State, id: SessionId)
    requires SessionInv(s)
    ensures SessionInv(AfterPublish(s, id))
  {
  }

  lemma ConnectStep(s: State, step: Step)
    requires SessionInv(s)
    requires step.Connect? || step.ForceOnConnect? || step.MarkConnected?
    ensures SessionInv(Next(s, step))
  {
  }

  lemma FinishStep(s: State, id: SessionId)
    requires SessionInv(s)
    ensures SessionInv(AfterFinishTeardown(s, id))
  {
  }

  lemma EndStep(s: State, step: Step)
    requires SessionInv(s)
    requires step.EndSession? || step.FinishTeardown?
    ensures SessionInv(Next(s, step))
  {
    if step.FinishTeardown? {
      FinishStep(s, step.session);
    }
  }

  lemma SessionStep(s: State, step: Step)
    requires SessionInv(s)
    ensures SessionInv(Next(s, step))
  {
    if IsPipelineStep(step) { PipelineKeepsSessions(s, step); }
    else if step.Publish? { PublishStep(s, step.session); }
    else if step.EndSession? || step.FinishTeardown? { EndStep(s, step); }
    else if step.Connect? || step.ForceOnConnect? || step.MarkConnected? { ConnectStep(s, step); }
    else { OfferStep(s, step); }
  }

  /** In every reachable state a connected pipeline or an installed sink implies that the active
      session has not run its teardown, and the current connection is the active session's. */
  lemma {:induction false} ActiveSessionOwnsPipeline(steps: seq<Step>)
    ensures SessionInv(Run(steps))
  {
    if steps != [] {
      ActiveSessionOwnsPipeline(steps[..|steps| - 1]);
      SessionStep(Run(steps[..|steps| - 1]), steps[|steps| - 1]);
    }
  }

  /** Nothing changed but the fate of the session `id`. */
  predicate OnlyItself(s: State, t: State, id: SessionId) {
    && t.clientConnected == s.clientConnected && t.sink == s.sink && t.current == s.current
    && t.activeSession == s.activeSession && t.forceKeyframe == s.forceKeyframe
    && (forall other :: other != id && other in s.sessions ==> other in t.sessions && t.sessions[other] == s.sessions[other])
  }

  lemma FinishesQuietly(s: State, id: SessionId)
    requires SessionInv(s) && id != s.activeSession
    ensures OnlyItself(s, AfterFinishTeardown(s, id), id)
  {
  }

  /** However a replaced session ends, it clears nothing of the session that replaced it. */
  lemma ReplacedSessionEndsQuietly(steps: seq<Step>, s: State, id: SessionId, step: Step)
    requires s == Run(steps) && id != s.activeSession
    requires step in {Connect(id), EndSession(id), FinishTeardown(id), DropReceiver(id)}
    ensures OnlyItself(s, Next(s, step), id)
  {
    if step.FinishTeardown? {
      ActiveSessionOwnsPipeline(steps);
      FinishesQuietly(s, id);
    }
  }

  /** No client counts as connected, no sink is installed and no session is about to change that. */
  predicate Idle(s: State) {
    !s.clientConnected && s.sink.None? && s.connecting.NotConnecting?
  }

  lemma IdleStep(s: State, step: Step)
    requires Idle(s) && !step.Connect?
    ensures Idle(Next(s, step))
  {
    if IsPipelineStep(step) { PipelineKeepsSessions(s, step); }
  }

  lemma {:induction false} IdleLasts(s: State, more: seq<Step>)
    requires Idle(s) && forall i :: 0 <= i < |more| ==> !more[i].Connect?
    ensures Idle(Continue(s, more))
    decreases |more|
  {
    if more != [] {
      IdleStep(s, more[0]);
      IdleLasts(Next(s, more[0]), more[1..]);
    }
  }

  /** A take-over that finds a current connection stops capture and takes the sink away, and both stay so
      until some session connects, whatever happens in between: the offer may also fail. */
  lemma TakeOverSilencesPipeline(s: State, more: seq<Step>)
    requires s.connecting.NotConnecting? && s.current.Some?
    requires forall i :: 0 <= i < |more| ==> !more[i].Connect?
    ensures var t := Continue(Next(s, TakePrevious), more); !t.clientConnected && t.sink.None?
  {
    assert Idle(Next(s, TakePrevious));
    IdleLasts(Next(s, TakePrevious), more);
  }

  /** In that time no capture tick starts and no frame is picked for a sink. */
  lemma IdleSendsNothing(s: State)
    requires Idle(s)
    ensures Next(s, StartTick) == s && (Next(s, ReadSink).encoding.Sending? ==> s.encoding.Sending?)
  {
  }

  /** The pipeline is idle and the session `id` past its event loop. */
  predicate Silent(s: State, id: SessionId) {
    Idle(s) && id in s.sessions && !s.sessions[id].Live?
  }

  lemma SilentStep(s: State, id: SessionId, step: Step)
    requires SessionInv(s) && Silent(s, id) && !step.Connect?
    ensures Silent(Next(s, step), id)
  {
    if IsPipelineStep(step) { PipelineKeepsSessions(s, step); }
  }

  lemma {:induction false} SilentLasts(s: State, id: SessionId, more: seq<Step>)
    requires SessionInv(s) && Silent(s, id) && forall i :: 0 <= i < |more| ==> !more[i].Connect?
    ensures SessionInv(Continue(s, more)) && Silent(Continue(s, more), id)
    decreases |more|
  {
    if more != [] {
      SilentStep(s, id, more[0]);
      SessionStep(s, more[0]);
      SilentLasts(Next(s, more[0]), id, more[1..]);
    }
  }

  lemma EndSilences(s: State)
    requires SessionInv(s) && IsLive(s, s.activeSession) && s.connecting.NotConnecting?
    ensures Silent(Next(s, EndSession(s.activeSession)), s.activeSession)
  {
  }

  lemma FinishedIsNotCurrent(s: State, id: SessionId)
    requires SessionInv(s) && Silent(s, id)
    ensures Next(s, FinishTeardown(id)).current != Some(id)
  {
  }

  /** When the active session ends, the pipeline is idle until some session connects, whatever else
      happens before and after the teardown's wait for the connection mutex. Past that wait no
      connection of the ended session is current. */
  lemma TeardownSilencesPipeline(steps: seq<Step>, s: State, id: SessionId, more: seq<Step>)
    requires s == Run(steps) && id == s.activeSession && IsLive(s, id) && s.connecting.NotConnecting?
    requires forall i :: 0 <= i < |more| ==> !more[i].Connect?
    ensures var t := Continue(Next(s, EndSession(id)), more);
            && !t.clientConnected && t.sink.None? && Silent(t, id)
            && Silent(Next(t, FinishTeardown(id)), id) && Next(t, FinishTeardown(id)).current != Some(id)
  {
    ActiveSessionOwnsPipeline(steps);
    EndSilences(s);
    SessionStep(s, EndSession(id));
    SilentLasts(Next(s, EndSession(id)), id, more);
    var t := Continue(Next(s, EndSession(id)), more);
    SilentStep(t, id, FinishTeardown(id));
    FinishedIsNotCurrent(t, id);
  }

  // ---- What overlapping offers and late connects break ----

  /** Every offer starts when no other is under way. */
  predicate OffersInTurn(steps: seq<Step>) {
    steps == [] ||
    (OffersInTurn(steps[..|steps| - 1]) &&
     (steps[|steps| - 1].TakePrevious? ==> !OfferUnderWay(Run(steps[..|steps| - 1]))))
  }

  /** Every session that connects does so while its connection is the current one. */
  predicate ConnectsWhileCurrent(steps: seq<Step>) {
    steps == [] ||
    (ConnectsWhileCurrent(steps[..|steps| - 1]) &&
     (steps[|steps| - 1].Connect? ==> Run(steps[..|steps| - 1]).current == Some(steps[|steps| - 1].session)))
  }

  ghost predicate InTurnInv(s: State) {
    && SessionInv(s)
    && (s.takenOffers == 0 || (s.takenOffers == 1 && s.namedOffers == {}))
    && (forall id, other :: id in s.namedOffers && other in s.namedOffers ==> id == other)
    && (forall id, other :: id in s.namedOffers && other in s.sessions ==> other < id)
    && (forall id :: id in s.sessions ==> id <= s.activeSession)
    && (OfferUnderWay(s) ==> s.current.None?)
  }

  lemma InTurnOffer(s: State, step: Step)
    requires InTurnInv(s) && (step.TakePrevious? ==> !OfferUnderWay(s))
    requires step.TakePrevious? || step.NameSession? || step.AbandonOffer? || step.Publish?
    ensures InTurnInv(Next(s, step))
  {
    SessionStep(s, step);
  }

  lemma SessionsKeepOffers(s: State, step: Step)
    requires step.Connect? || step.ForceOnConnect? || step.MarkConnected? || step.EndSession? || step.FinishTeardown?
    ensures var t := Next(s, step);
            && t.sessions.Keys == s.sessions.Keys && t.activeSession == s.activeSession
            && t.takenOffers == s.takenOffers && t.namedOffers == s.namedOffers
            && (t.current == s.current || t.current.None?)
  {
  }

  lemma InTurnSession(s: State, t: State)
    requires InTurnInv(s) && SessionInv(t)
    requires t.sessions.Keys == s.sessions.Keys && t.activeSession == s.activeSession
    requires t.takenOffers == s.takenOffers && t.namedOffers == s.namedOffers
    requires t.current == s.current || t.current.None?
    ensures InTurnInv(t)
  {
  }

  lemma InTurnStep(s: State, step: Step)
    requires InTurnInv(s) && (step.TakePrevious? ==> !OfferUnderWay(s))
    ensures InTurnInv(Next(s, step))
  {
    if IsPipelineStep(step) { PipelineKeepsSessions(s, step); }
    else if step.TakePrevious? || step.NameSession? || step.AbandonOffer? || step.Publish? { InTurnOffer(s, step); }
    else {
      SessionStep(s, step);
      SessionsKeepOffers(s, step);
      InTurnSession(s, Next(s, step));
    }
  }

  /** When offers come one at a time the newest session is the active one, and no connection is
      current while an offer is under way. */
  lemma {:induction false} NewestSessionIsActive(steps: seq<Step>)
    requires OffersInTurn(steps)
    ensures InTurnInv(Run(steps))
  {
    if steps != [] {
      NewestSessionIsActive(steps[..|steps| - 1]);
      InTurnStep(Run(steps[..|steps| - 1]), steps[|steps| - 1]);
    }
  }

  ghost predicate SinkInv(s: State) {
    s.sink.Some? ==> s.sink.value == s.activeSession && s.current == Some(s.activeSession)
  }

  /** If, besides, sessions connect only while current, frames go to the active session only. */
  lemma {:induction false} SinkIsActiveSessions(steps: seq<Step>)
    requires OffersInTurn(steps) && ConnectsWhileCurrent(steps)
    ensures SinkInv(Run(steps))
  {
    if steps != [] {
      var s := Run(steps[..|steps| - 1]);
      SinkIsActiveSessions(steps[..|steps| - 1]);
      NewestSessionIsActive(steps[..|steps| - 1]);
      SinkStep(s, steps[|steps| - 1]);
    }
  }

  lemma SinkStep(s: State, step: Step)
    requires InTurnInv(s) && SinkInv(s)
    requires step.TakePrevious? ==> !OfferUnderWay(s)
    requires step.Connect? ==> s.current == Some(step.session)
    ensures SinkInv(Next(s, step))
  {
    if IsPipelineStep(step) {
      PipelineKeepsSessions(s, step);
    } else {
      SinkSessionStep(s, step);
    }
  }

  lemma SinkSessionStep(s: State, step: Step)
    requires !IsPipelineStep(step) && InTurnInv(s) && SinkInv(s)
    requires step.TakePrevious? ==> !OfferUnderWay(s)
    requires step.Connect? ==> s.current == Some(step.session)
    ensures SinkInv(Next(s, step))
  {
  }

  /** Of the connects of the active session, exactly those while its connection is current keep that. */
  lemma ConnectKeepsSinkExactly(s: State)
    requires SinkInv(s) && s.connecting.NotConnecting? && IsLive(s, s.activeSession)
    ensures SinkInv(AfterConnect(s, s.activeSession)) <==> s.current == Some(s.activeSession)
  {
  }

  predicate NewestIsActive(s: State) {
    forall id :: id in s.sessions ==> id <= s.activeSession
  }

  /** A session that is published becomes the newest active one exactly when none after it was published before. */
  lemma PublishKeepsNewestExactly(s: State, id: SessionId)
    requires SessionInv(s) && s.connecting.NotConnecting? && id in s.namedOffers
    ensures NewestIsActive(AfterPublish(s, id)) <==> forall other :: other in s.sessions ==> other < id
  {
    var t := AfterPublish(s, id);
    assert t.sessions.Keys == s.sessions.Keys + {id} && t.activeSession == id;
  }

  /** Without the first condition an older session can end up active. */
  lemma OverlappingOffersReviveOlder() returns (steps: seq<Step>)
    ensures Run(steps).activeSession == 1 && IsLive(Run(steps), 2)
  {
    var s1 := Next(Initial, TakePrevious);
    var s2 := Next(s1, TakePrevious);
    var s3 := Next(s2, NameSession);
    var s4 := Next(s3, NameSession);
    var s5 := Next(s4, Publish(2));
    var s6 := Next(s5, Publish(1));
    assert s4.namedOffers == {1, 2};
    steps := [TakePrevious];
    RunStep([], TakePrevious);
    assert [] + [TakePrevious] == steps;
    RunStep(steps, TakePrevious);
    steps := steps + [TakePrevious];
    RunStep(steps, NameSession);
    steps := steps + [NameSession];
    RunStep(steps, NameSession);
    steps := steps + [NameSession];
    RunStep(steps, Publish(2));
    steps := steps + [Publish(2)];
    RunStep(steps, Publish(1));
    steps := steps + [Publish(1)];
  }

  lemma ReconnectWhileTaken(s: State, prior: SessionId)
    requires s.connecting.NotConnecting? && s.activeSession == prior && IsLive(s, prior)
    ensures var t1 := Next(Next(s, TakePrevious), Connect(prior));
            var t2 := Next(Next(t1, ForceOnConnect), MarkConnected);
            && t2.sink == Some(prior) && t2.clientConnected && t2.connecting.NotConnecting?
            && t2.takenOffers > 0 && t2.nextSession == s.nextSession
  {
    var t := Next(s, TakePrevious);
    assert t.connecting.NotConnecting? && t.activeSession == prior && IsLive(t, prior) && t.takenOffers > 0;
    assert t.nextSession == s.nextSession;
  }

  /** Without the second one a session that is being replaced can reinstall its sink, which then
      outlives the hand-over. */
  lemma ReplacedSinkCanReturn(s: State, prior: SessionId)
    requires SessionInv(s) && s.connecting.NotConnecting? && s.activeSession == prior && IsLive(s, prior)
    ensures var t1 := Next(Next(s, TakePrevious), Connect(prior));
            var t2 := Next(Next(t1, ForceOnConnect), MarkConnected);
            var t := Next(Next(t2, NameSession), Publish(s.nextSession));
            t.activeSession == s.nextSession && s.nextSession != prior && t.sink == Some(prior) && t.clientConnected
  {
    ReconnectWhileTaken(s, prior);
  }
}
