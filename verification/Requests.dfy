/**
  Keyframe requests: where a request is recorded until an encode answers it, and why the first
  frame handed over from a later encode is a keyframe in every run.
*/
module Requests {
  import opened Prelude
  import opened Protocol
  import opened Delivery

  // ---- What became of a request ----

  /** Of the handed frames whose encode began after `q`, the one at `i` is the first. */
  ghost predicate FirstLater(log: seq<Event>, q: int, i: int) {
    HandedAt(log, i) && q < log[i].frame.began && forall j :: HandedAt(log, j) && j < i ==> log[j].frame.began <= q
  }

  ghost predicate Served(log: seq<Event>, q: int) {
    exists i :: FirstLater(log, q, i) && log[i].frame.keyframe
  }

  ghost predicate Lost(log: seq<Event>, q: int) {
    exists i :: FirstLater(log, q, i) && !log[i].frame.keyframe
  }

  /** No frame of a later encode was handed over yet. */
  ghost predicate Open(log: seq<Event>, q: int) {
    forall i :: HandedAt(log, i) ==> log[i].frame.began <= q
  }

  lemma FirstLaterIsUnique(log: seq<Event>, q: int, i: int, j: int)
    requires FirstLater(log, q, i) && FirstLater(log, q, j)
    ensures i == j
  {
  }

  lemma ServedIsNotLost(log: seq<Event>, q: int)
    requires Served(log, q)
    ensures !Lost(log, q)
  {
    var i :| FirstLater(log, q, i) && log[i].frame.keyframe;
    forall j | FirstLater(log, q, j) ensures log[j].frame.keyframe {
      FirstLaterIsUnique(log, q, i, j);
    }
  }

  lemma OpenIsNotLost(log: seq<Event>, q: int)
    requires Open(log, q)
    ensures !Lost(log, q) && !Served(log, q)
  {
  }

  lemma FirstLaterGrows(log: seq<Event>, e: Event, q: int, i: int)
    requires FirstLater(log, q, i)
    ensures FirstLater(log + [e], q, i) && (log + [e])[i] == log[i]
  {
    Append(log, e);
    assert forall j :: 0 <= j < |log| ==> (log + [e])[j] == log[j];
  }

  lemma ServedGrows(log: seq<Event>, e: Event, q: int)
    requires Served(log, q)
    ensures Served(log + [e], q)
  {
    var i :| FirstLater(log, q, i) && log[i].frame.keyframe;
    FirstLaterGrows(log, e, q, i);
  }

  lemma OpenGrows(log: seq<Event>, e: Event, q: int)
    requires Open(log, q) && (e.Handed? ==> e.frame.began <= q)
    ensures Open(log + [e], q)
  {
    Append(log, e);
  }

  /** The first frame of a later encode decides. */
  lemma OpenDecided(log: seq<Event>, e: Event, q: int)
    requires Open(log, q) && e.Handed? && q < e.frame.began
    ensures FirstLater(log + [e], q, |log|)
    ensures if e.frame.keyframe then Served(log + [e], q) else Lost(log + [e], q)
  {
    Append(log, e);
    assert FirstLater(log + [e], q, |log|);
  }

  // ---- Where a request is recorded ----

  predicate Empty(c: Captured) {
    c.size.width == 0 || c.size.height == 0
  }

  /** With the flag clear, the encode of `c` is not forced: no mark, and the held encoder fits. */
  predicate Slips(s: State, c: Captured) {
    !Empty(c) && !c.keyframe && s.encoder.Some? && s.encoder.value.size == c.size
  }

  /** A capture tick can start without a keyframe request coming first. */
  predicate MayTick(s: State) {
    s.clientConnected || s.connecting.HasForced?
  }

  /** The capture thread can, with the flag clear, bring about an encode that is not forced. When the
      slot is full the frame it is about to offer may be refused. */
  predicate CaptureSlips(s: State, full: bool) {
    match s.capturing
    case Pacing => MayTick(s)
    case Capturing => true
    case Loaded(c) => Slips(s, c) || ((full || Empty(c)) && MayTick(s))
  }

  /** The next encode may, with the flag clear, be one that is not forced. */
  predicate NextSlips(s: State) {
    match s.slot
    case None => CaptureSlips(s, false)
    case Some(c) => Slips(s, c) || (Empty(c) && CaptureSlips(s, true))
  }

  /** The next encode is forced: by the flag, by the keyframe a new encoder starts with, or by the mark
      or the size of the frame it will get. */
  predicate NextIsForced(s: State) {
    s.forceKeyframe || s.encoder.None? || !NextSlips(s)
  }

  /** The request at `q` will be answered by the next encode, or by the one in flight when that began later. */
  predicate WillForce(s: State, q: int) {
    match s.encoding
    case Waiting => NextIsForced(s)
    case Received(c) => if Empty(c) then NextIsForced(s) else s.forceKeyframe || !Slips(s, c)
    case Swapped(_, force, began) => if began <= q then s.forceKeyframe else force || NeedsEncoder(s)
    case Encoded(f, force) => if f.began <= q then s.forceKeyframe else f.keyframe && force
    case Sending(f, _) => if f.began <= q then s.forceKeyframe else f.keyframe
  }

  ghost predicate Guarded(s: State, q: int) {
    RequestAt(s.log, q) && (Served(s.log, q) || (Open(s.log, q) && WillForce(s, q)))
  }

  ghost predicate RequestInv(s: State) {
    forall q :: RequestAt(s.log, q) ==> Guarded(s, q)
  }

  // ---- Every step keeps it ----

  /** What a session step leaves alone, and what it can only make smaller unless it sets the flag. */
  predicate SessionShape(s: State, t: State) {
    && EncoderIdle(s, t) && t.slot == s.slot && t.capturing == s.capturing
    && (s.forceKeyframe ==> t.forceKeyframe) && (MayTick(t) ==> MayTick(s) || t.forceKeyframe)
  }

  lemma SessionStepShape(s: State, step: Step)
    requires !IsCaptureStep(step) && !IsEncoderStep(step)
    ensures SessionShape(s, Next(s, step))
  {
  }

  lemma SessionKeepsForce(s: State, t: State, q: int)
    requires SessionShape(s, t) && WillForce(s, q)
    ensures WillForce(t, q)
  {
  }

  lemma CaptureKeepsForce(s: State, step: Step, q: int)
    requires IsCaptureStep(step) && WillForce(s, q)
    ensures WillForce(Next(s, step), q) && Next(s, step).log == s.log
  {
  }

  /** Everything but the handing over itself. */
  lemma EncoderKeepsForce(s: State, step: Step, q: int)
    requires IsEncoderStep(step) && !step.Send? && !FailsWhileHeld(s, step)
    requires WillForce(s, q) && q < |s.log|
    ensures WillForce(Next(s, step), q) && Next(s, step).log == s.log
  {
    match step
    case Receive => ReceiveKeepsForce(s, q);
    case SwapFlag => SwapKeepsForce(s, q);
    case Encode(result) => EncodeKeepsForce(s, result, q);
    case _ =>
  }

  lemma ReceiveKeepsForce(s: State, q: int)
    requires WillForce(s, q)
    ensures WillForce(AfterReceive(s), q)
  {
  }

  lemma SwapKeepsForce(s: State, q: int)
    requires WillForce(s, q) && q < |s.log|
    ensures WillForce(AfterSwapFlag(s), q)
  {
  }

  lemma EncodeKeepsForce(s: State, result: EncodeResult, q: int)
    requires WillForce(s, q)
    ensures WillForce(AfterEncode(s, result), q) && AfterEncode(s, result).log == s.log
  {
  }

  lemma SendKeepsGuard(s: State, q: int)
    requires Guarded(s, q)
    ensures Guarded(AfterSend(s), q)
  {
    if s.encoding.Sending? {
      var e := Handed(s.encoding.to, s.encoding.frame, s.encoding.to !in s.receiversGone);
      Append(s.log, e);
      if Served(s.log, q) {
        ServedGrows(s.log, e, q);
      } else if s.encoding.frame.began <= q {
        OpenGrows(s.log, e, q);
      } else {
        OpenDecided(s.log, e, q);
      }
    }
  }

  /** A step that logs nothing, or something that is no frame. */
  lemma QuietKeepsGuard(s: State, t: State, q: int)
    requires Guarded(s, q) && (WillForce(s, q) ==> WillForce(t, q))
    requires t.log == s.log || (|t.log| == |s.log| + 1 && t.log[..|s.log|] == s.log && !t.log[|s.log|].Handed?)
    ensures Guarded(t, q)
  {
    if t.log != s.log {
      var e := t.log[|s.log|];
      assert t.log == s.log + [e];
      Append(s.log, e);
      if Served(s.log, q) {
        ServedGrows(s.log, e, q);
      } else {
        OpenGrows(s.log, e, q);
      }
    }
  }

  lemma SessionLog(s: State, step: Step)
    requires !IsCaptureStep(step) && !IsEncoderStep(step)
    ensures var t := Next(s, step);
            t.log == s.log || (|t.log| == |s.log| + 1 && t.log[..|s.log|] == s.log && !t.log[|s.log|].Handed?)
    ensures Next(s, step).log != s.log && Next(s, step).log[|s.log|].Requested? ==> Next(s, step).forceKeyframe
  {
    Shape(s, step);
  }

  /** Unless an encoder cannot be created while another is held, a recorded request stays recorded
      until it is answered. */
  lemma GuardStep(s: State, step: Step, q: int)
    requires Guarded(s, q) && !FailsWhileHeld(s, step)
    ensures Guarded(Next(s, step), q)
  {
    var t := Next(s, step);
    if step.Send? {
      SendKeepsGuard(s, q);
    } else if IsEncoderStep(step) {
      if WillForce(s, q) { EncoderKeepsForce(s, step, q); }
      EncoderLog(s, step);
      QuietKeepsGuard(s, t, q);
    } else if IsCaptureStep(step) {
      if WillForce(s, q) { CaptureKeepsForce(s, step, q); }
      QuietKeepsGuard(s, t, q);
    } else {
      SessionStepShape(s, step);
      if WillForce(s, q) { SessionKeepsForce(s, t, q); }
      SessionLog(s, step);
      QuietKeepsGuard(s, t, q);
    }
  }

  lemma EncoderLog(s: State, step: Step)
    requires IsEncoderStep(step) && !step.Send?
    ensures Next(s, step).log == s.log
  {
    Shape(s, step);
  }

  /** A new request is recorded at once. */
  lemma NewRequestIsGuarded(s: State, t: State)
    requires OrderInv(s) && EncoderIdle(s, t) && t.forceKeyframe
    requires |t.log| == |s.log| + 1 && t.log[..|s.log|] == s.log && t.log[|s.log|].Requested?
    ensures Guarded(t, |s.log|)
  {
    assert t.log == s.log + [t.log[|s.log|]];
    Append(s.log, t.log[|s.log|]);
  }

  lemma RequestStep(s: State, step: Step)
    requires OrderInv(s) && RequestInv(s) && !FailsWhileHeld(s, step)
    ensures RequestInv(Next(s, step))
  {
    var t := Next(s, step);
    forall q | RequestAt(t.log, q) ensures Guarded(t, q) {
      if RequestAt(s.log, q) {
        GuardStep(s, step, q);
      } else {
        NewRequestOfStep(s, step, q);
      }
    }
  }

  lemma NewRequestOfStep(s: State, step: Step, q: int)
    requires OrderInv(s) && RequestAt(Next(s, step).log, q) && !RequestAt(s.log, q)
    ensures Guarded(Next(s, step), q)
  {
    if step.Send? {
      SendRequestsNothing(s, q);
    } else if IsEncoderStep(step) {
      EncoderLog(s, step);
    } else if !IsCaptureStep(step) {
      SessionStepShape(s, step);
      SessionLog(s, step);
      NewRequestIsGuarded(s, Next(s, step));
    }
  }

  lemma SendRequestsNothing(s: State, q: int)
    requires RequestAt(AfterSend(s).log, q)
    ensures RequestAt(s.log, q)
  {
  }

  lemma {:induction false} RunKeepsRequests(steps: seq<Step>)
    requires NeverFailsWhileHeld(steps)
    ensures RequestInv(Run(steps))
  {
    if steps != [] {
      var rest := steps[..|steps| - 1];
      RunKeepsRequests(rest);
      RunKeepsStreams(rest);
      RequestStep(Run(rest), steps[|steps| - 1]);
    }
  }

  // ---- Main results ----

  /** No request is lost: of the encodes that began after it, the first whose frame is handed
      to any sink (even one whose receiver is gone) made a keyframe. */
  lemma RequestsAreAnswered(steps: seq<Step>, q: nat, i: nat)
    requires NeverFailsWhileHeld(steps)
    requires RequestAt(Run(steps).log, q) && HandedAt(Run(steps).log, i)
    requires q < Run(steps).log[i].frame.began
    requires forall j :: HandedAt(Run(steps).log, j) && j < i ==> Run(steps).log[j].frame.began <= q
    ensures Run(steps).log[i].frame.keyframe
  {
    var log := Run(steps).log;
    RunKeepsRequests(steps);
    assert FirstLater(log, q, i);
    assert Guarded(Run(steps), q);
    NeverLost(log, q, i);
  }

  lemma NeverLost(log: seq<Event>, q: int, i: int)
    requires (Served(log, q) || Open(log, q)) && FirstLater(log, q, i)
    ensures log[i].frame.keyframe
  {
    if Served(log, q) {
      ServedIsNotLost(log, q);
    } else {
      OpenIsNotLost(log, q);
    }
  }

  /** The first handed frame whose encode began after `q`. */
  lemma FirstFromLaterEncode(log: seq<Event>, q: nat, j: nat) returns (k: nat)
    requires HandedAt(log, j) && q < log[j].frame.began
    ensures k <= j && FirstLater(log, q, k)
  {
    k := j;
    while exists m :: HandedAt(log, m) && m < k && q < log[m].frame.began
      invariant k <= j && HandedAt(log, k) && q < log[k].frame.began
      decreases k
    {
      var m :| HandedAt(log, m) && m < k && q < log[m].frame.began;
      k := m;
    }
  }

  /** The frame handed over at `j`, after another one at `i`, comes from an encode that began after
      whatever was logged before `i`; frames from encodes since the sink's installation went to it. */
  lemma LaterEncode(steps: seq<Step>, i: nat, j: nat)
    requires HandedAt(Run(steps).log, j)
    ensures var log := Run(steps).log;
            && (HandedAt(log, i) && i < j ==> i < log[j].frame.began)
            && log[j].frame.began <= j
            && (HandedAt(log, i) && i < j && LastInstall(log[..j], log[j].session) < log[i].frame.began ==>
                  log[i].session == log[j].session)
  {
    var log := Run(steps).log;
    RunKeepsStreams(steps);
    EventInOrder(log, j);
    if HandedAt(log, i) && i < j {
      assert HandedAt(log[..j], i) && log[..j][i] == log[i];
    }
  }

  /** Of any two frames handed to sinks after a request the later one is, or comes after, a keyframe
      handed since: only the frame already in the encoder can come before it. When the later one's
      sink was in place before the request, that sink got the keyframe. */
  lemma AtMostOneBeforeKeyframe(steps: seq<Step>, q: nat, i: nat, j: nat) returns (k: nat)
    requires NeverFailsWhileHeld(steps)
    requires RequestAt(Run(steps).log, q) && q < i < j
    requires HandedAt(Run(steps).log, i) && HandedAt(Run(steps).log, j)
    ensures q < k <= j && HandedAt(Run(steps).log, k) && Run(steps).log[k].frame.keyframe
    ensures LastInstall(Run(steps).log[..j], Run(steps).log[j].session) < q ==>
              Run(steps).log[k].session == Run(steps).log[j].session
  {
    LaterEncode(steps, i, j);
    k := FirstFromLaterEncode(Run(steps).log, q, j);
    LaterEncode(steps, k, k);
    LaterEncode(steps, k, j);
    RequestsAreAnswered(steps, q, k);
  }

  /** The first frame a sink gets after its installation is a keyframe unless it was already in
      the encoder when the session asked for one. */
  lemma FirstFrameOfStream(steps: seq<Step>, i: nat, q: nat)
    requires NeverFailsWhileHeld(steps)
    requires HandedAt(Run(steps).log, i) && LastSince(Run(steps).log[..i], Run(steps).log[i].session).None?
    requires LastInstall(Run(steps).log[..i], Run(steps).log[i].session) < q < Run(steps).log[i].frame.began
    requires RequestAt(Run(steps).log, q)
    ensures Run(steps).log[i].frame.keyframe
  {
    var log := Run(steps).log;
    var k := FirstFromLaterEncode(log, q, i);
    LaterEncode(steps, k, i);
    LaterEncode(steps, k, k);
    if k < i {
      assert HandedAt(log[..i], k) && log[..i][k] == log[k];
      HandedShows(log[..i], log[i].session, k);
    }
    RequestsAreAnswered(steps, q, k);
  }
}
