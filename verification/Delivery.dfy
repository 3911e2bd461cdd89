/**
  What the capture / encode / session protocol guarantees about the frames that reach a sink,
  for every run: in which order they come, and that no frame of a stream is skipped unnoticed.
*/
module Delivery {
  import opened Prelude
  import opened Protocol

  // ---- Reading the event log ----

  predicate RequestAt(log: seq<Event>, q: int) {
    0 <= q < |log| && log[q].Requested?
  }

  predicate HandedAt(log: seq<Event>, i: int) {
    0 <= i < |log| && log[i].Handed?
  }

  /** `f` is the output right after `g` of the same encoder instance. */
  predicate Follows(g: Frame, f: Frame) {
    f.encoder == g.encoder && f.index == g.index + 1
  }

  /** The last frame handed to `id` since its sink was last installed anew. */
  function LastSince(log: seq<Event>, id: SessionId): Option<Frame> {
    if log == [] then None
    else
      var (rest, e) := (log[..|log| - 1], log[|log| - 1]);
      if e.session == id && e.Handed? then Some(e.frame)
      else if e.session == id && e.Installed? && e.anew then None
      else LastSince(rest, id)
  }

  /** Where the sink of `id` was last installed anew; -1 if never. */
  function LastInstall(log: seq<Event>, id: SessionId): (p: int)
    ensures -1 <= p < |log|
    ensures p >= 0 ==> log[p] == Installed(id, true)
  {
    if log == [] then -1
    else
      var (rest, e) := (log[..|log| - 1], log[|log| - 1]);
      if e == Installed(id, true) then |rest| else LastInstall(rest, id)
  }

  // ---- What every event of the log satisfies when it is appended ----

  /** The frame `f` may be handed to `to` after `log`. */
  ghost predicate Continues(log: seq<Event>, to: SessionId, f: Frame) {
    LastSince(log, to).Some? && !f.keyframe ==> Follows(LastSince(log, to).value, f)
  }

  ghost predicate InOrder(log: seq<Event>, f: Frame) {
    f.began <= |log| && forall i :: HandedAt(log, i) ==> i < f.began
  }

  ghost predicate OnlyTo(log: seq<Event>, to: SessionId) {
    forall i :: HandedAt(log, i) && LastInstall(log, to) < log[i].frame.began ==> log[i].session == to
  }

  ghost predicate LogContinues(log: seq<Event>) {
    log != [] ==>
      var (rest, e) := (log[..|log| - 1], log[|log| - 1]);
      LogContinues(rest) && (e.Handed? ==> Continues(rest, e.session, e.frame))
  }

  ghost predicate LogInOrder(log: seq<Event>) {
    log != [] ==>
      var (rest, e) := (log[..|log| - 1], log[|log| - 1]);
      LogInOrder(rest) && (e.Handed? ==> InOrder(rest, e.frame) && OnlyTo(rest, e.session))
  }

  /** How the readings of the log change when an event is appended. */
  lemma Append(log: seq<Event>, e: Event)
    ensures (log + [e])[..|log + [e]| - 1] == log && (log + [e])[|log + [e]| - 1] == e
    ensures forall id :: LastInstall(log + [e], id) == if e == Installed(id, true) then |log| else LastInstall(log, id)
    ensures forall i :: HandedAt(log + [e], i) <==> HandedAt(log, i) || (i == |log| && e.Handed?)
    ensures forall q :: RequestAt(log + [e], q) <==> RequestAt(log, q) || (q == |log| && e.Requested?)
  {
  }

  // ---- Invariants of the reachable states ----

  predicate InFlight(p: EncodePhase) {
    p.Swapped? || p.Encoded? || p.Sending?
  }

  function Began(p: EncodePhase): nat
    requires InFlight(p)
  {
    match p
    case Swapped(_, _, began) => began
    case Encoded(frame, _) => frame.began
    case Sending(frame, _) => frame.began
  }

  /** The frame in the encoder thread began after everything already handed over, and the
      sink it is read for has received nothing from elsewhere since its installation. */
  ghost predicate OrderInv(s: State) {
    && LogInOrder(s.log)
    && (InFlight(s.encoding) ==>
          Began(s.encoding) <= |s.log| && forall i :: HandedAt(s.log, i) ==> i < Began(s.encoding))
    && (forall i :: HandedAt(s.log, i) ==> s.log[i].frame.began <= i)
    && (s.encoding.Sending? ==> OnlyTo(s.log, s.encoding.to))
    && (s.sink.Some? ==> OnlyTo(s.log, s.sink.value))
    && (s.sink.Some? && s.encoding.Sending? && LastInstall(s.log, s.sink.value) < s.encoding.frame.began ==>
          s.encoding.to == s.sink.value)
  }

  /** The encoder's next output directly follows `g`, or will be a keyframe. */
  ghost predicate NextFollows(s: State, g: Frame) {
    match s.encoding
    case Encoded(f, _) => f.keyframe || Follows(g, f)
    case Sending(f, _) => f.keyframe || Follows(g, f)
    case _ => s.encoder.Some? ==> s.encoder.value.id == g.encoder && s.encoder.value.produced == g.index + 1
  }

  ghost predicate StreamInv(s: State) {
    && LogContinues(s.log)
    && (s.encoder.Some? ==> s.encoder.value.id < s.nextEncoder)
    && (s.encoding.Encoded? || s.encoding.Sending? ==>
          && s.encoder.Some?
          && s.encoding.frame.encoder == s.encoder.value.id
          && s.encoding.frame.index + 1 == s.encoder.value.produced)
    && (s.encoding.Sending? ==> Continues(s.log, s.encoding.to, s.encoding.frame))
    && (s.sink.Some? && LastSince(s.log, s.sink.value).Some? ==>
          NextFollows(s, LastSince(s.log, s.sink.value).value))
    && (s.sink.Some? && s.encoding.Sending? && s.encoding.to != s.sink.value ==>
          LastSince(s.log, s.sink.value).None?)
  }

  // ---- The shapes a step can have ----

  /** Nothing but, possibly, the end of an iteration or a cleared sink. */
  predicate QuietShape(s: State, t: State) {
    && t.log == s.log
    && (t.encoding == s.encoding || !InFlight(t.encoding))
    && (t.sink == s.sink || t.sink.None?)
  }

  /** The frame in flight moves along. */
  predicate MoveShape(s: State, t: State) {
    && t.log == s.log && t.sink == s.sink && InFlight(t.encoding)
    && Began(t.encoding) == (if InFlight(s.encoding) then Began(s.encoding) else |s.log|)
    && (t.encoding.Sending? ==> t.sink == Some(t.encoding.to))
  }

  /** The encoder thread is untouched. */
  predicate EncoderIdle(s: State, t: State) {
    t.encoding == s.encoding && t.encoder == s.encoder && t.nextEncoder == s.nextEncoder
  }

  predicate InstallShape(s: State, t: State, id: SessionId) {
    && EncoderIdle(s, t) && t.sink == Some(id) && t.forceKeyframe == s.forceKeyframe
    && t.log == s.log + [Installed(id, s.sink != Some(id))]
  }

  predicate RequestShape(s: State, t: State, id: SessionId) {
    && EncoderIdle(s, t) && t.sink == s.sink && t.forceKeyframe
    && t.log == s.log + [Requested(id)]
  }

  predicate SendShape(s: State, t: State) {
    && s.encoding.Sending? && t.encoding.Waiting? && t.sink == s.sink
    && t.encoder == s.encoder && t.nextEncoder == s.nextEncoder && t.forceKeyframe == s.forceKeyframe
    && t.log == s.log + [Handed(s.encoding.to, s.encoding.frame, s.encoding.to !in s.receiversGone)]
  }

  /** A step outside the encoder thread that neither installs nor requests. */
  predicate OutsideShape(s: State, t: State) {
    && EncoderIdle(s, t) && t.log == s.log && t.forceKeyframe == s.forceKeyframe
    && (t.sink == s.sink || t.sink.None?)
  }

  predicate StepShape(s: State, step: Step, t: State) {
    match step
    case Connect(id) => OutsideShape(s, t) || InstallShape(s, t, id)
    case ForceOnConnect => t == s || (s.connecting.HasInstalled? && RequestShape(s, t, s.connecting.session))
    case RequestKeyframe(id) => t == s || RequestShape(s, t, id)
    case Send => t == s || SendShape(s, t)
    case Receive => QuietShape(s, t) || MoveShape(s, t)
    case SwapFlag => QuietShape(s, t) || MoveShape(s, t)
    case CreateFails => QuietShape(s, t) || MoveShape(s, t)
    case Encode(_) => QuietShape(s, t) || MoveShape(s, t)
    case ReadSink => QuietShape(s, t) || MoveShape(s, t)
    case _ => OutsideShape(s, t)
  }

  lemma EncoderShape(s: State, step: Step)
    requires IsEncoderStep(step)
    ensures StepShape(s, step, Next(s, step))
  {
  }

  lemma Shape(s: State, step: Step)
    ensures StepShape(s, step, Next(s, step))
  {
    if IsEncoderStep(step) {
      EncoderShape(s, step);
    }
  }

  // ---- Order ----

  lemma OrderQuiet(s: State, t: State)
    requires OrderInv(s) && QuietShape(s, t)
    ensures OrderInv(t)
  {
  }

  lemma OrderMove(s: State, t: State)
    requires OrderInv(s) && MoveShape(s, t)
    ensures OrderInv(t)
  {
  }

  lemma OrderInstall(s: State, t: State, id: SessionId)
    requires OrderInv(s) && InstallShape(s, t, id)
    ensures OrderInv(t)
  {
    Append(s.log, Installed(id, s.sink != Some(id)));
    forall i | HandedAt(t.log, i) ensures HandedAt(s.log, i) && t.log[i] == s.log[i] {}
  }

  lemma OrderRequest(s: State, t: State, id: SessionId)
    requires OrderInv(s) && RequestShape(s, t, id)
    ensures OrderInv(t)
  {
    Append(s.log, Requested(id));
  }

  lemma OrderSend(s: State, t: State)
    requires OrderInv(s) && SendShape(s, t)
    ensures OrderInv(t)
  {
    Append(s.log, Handed(s.encoding.to, s.encoding.frame, s.encoding.to !in s.receiversGone));
  }

  lemma OrderShaped(s: State, step: Step, t: State)
    requires OrderInv(s) && StepShape(s, step, t)
    ensures OrderInv(t)
  {
    if QuietShape(s, t) { OrderQuiet(s, t); }
    else if MoveShape(s, t) { OrderMove(s, t); }
    else {
      match step
      case Connect(id) => OrderInstall(s, t, id);
      case ForceOnConnect => OrderRequest(s, t, s.connecting.session);
      case RequestKeyframe(id) => OrderRequest(s, t, id);
      case Send => OrderSend(s, t);
    }
  }

  // ---- Streams ----

  lemma StreamOutside(s: State, t: State)
    requires StreamInv(s) && OutsideShape(s, t)
    ensures StreamInv(t)
  {
  }

  lemma StreamInstall(s: State, t: State, id: SessionId)
    requires StreamInv(s) && InstallShape(s, t, id)
    ensures StreamInv(t)
  {
    Append(s.log, Installed(id, s.sink != Some(id)));
  }

  lemma StreamRequest(s: State, t: State, id: SessionId)
    requires StreamInv(s) && RequestShape(s, t, id)
    ensures StreamInv(t)
  {
    Append(s.log, Requested(id));
  }

  lemma StreamSend(s: State, t: State)
    requires StreamInv(s) && SendShape(s, t)
    ensures StreamInv(t)
  {
    Append(s.log, Handed(s.encoding.to, s.encoding.frame, s.encoding.to !in s.receiversGone));
  }

  lemma StreamEncode(s: State, result: EncodeResult)
    requires StreamInv(s)
    ensures StreamInv(AfterEncode(s, result))
  {
  }

  lemma StreamReadSink(s: State)
    requires StreamInv(s)
    ensures StreamInv(AfterReadSink(s))
  {
  }

  lemma StreamTakes(s: State, step: Step)
    requires StreamInv(s)
    requires step.Receive? || step.SwapFlag? || step.CreateFails?
    ensures StreamInv(Next(s, step))
  {
  }

  lemma StreamEncodes(s: State, step: Step)
    requires StreamInv(s)
    requires step.Receive? || step.SwapFlag? || step.CreateFails? || step.Encode? || step.ReadSink?
    ensures StreamInv(Next(s, step))
  {
    match step
    case Encode(result) => StreamEncode(s, result);
    case ReadSink => StreamReadSink(s);
    case _ => StreamTakes(s, step);
  }

  // ---- Every run ----

  lemma {:induction false} RunKeepsStreams(steps: seq<Step>)
    ensures OrderInv(Run(steps)) && StreamInv(Run(steps))
  {
    if steps != [] {
      var step := steps[|steps| - 1];
      var s := Run(steps[..|steps| - 1]);
      RunKeepsStreams(steps[..|steps| - 1]);
      Shape(s, step);
      OrderShaped(s, step, Next(s, step));
      StreamShaped(s, step);
    }
  }

  lemma StreamShaped(s: State, step: Step)
    requires StreamInv(s)
    ensures StreamInv(Next(s, step))
  {
    var t := Next(s, step);
    Shape(s, step);
    if OutsideShape(s, t) { StreamOutside(s, t); }
    else {
      match step
      case Connect(id) => StreamInstall(s, t, id);
      case ForceOnConnect => StreamRequest(s, t, s.connecting.session);
      case RequestKeyframe(id) => StreamRequest(s, t, id);
      case Send => StreamSend(s, t);
      case _ => StreamEncodes(s, step);
    }
  }

  // ---- From the log as a whole to one of its events ----

  lemma {:induction false} EventContinues(log: seq<Event>, i: nat)
    requires LogContinues(log) && HandedAt(log, i)
    ensures Continues(log[..i], log[i].session, log[i].frame)
  {
    var rest := log[..|log| - 1];
    if i < |rest| {
      EventContinues(rest, i);
      assert rest[..i] == log[..i];
    }
  }

  lemma {:induction false} EventInOrder(log: seq<Event>, i: nat)
    requires LogInOrder(log) && HandedAt(log, i)
    ensures InOrder(log[..i], log[i].frame) && OnlyTo(log[..i], log[i].session)
  {
    var rest := log[..|log| - 1];
    if i < |rest| {
      EventInOrder(rest, i);
      assert rest[..i] == log[..i];
    }
  }

  /** A frame handed over after the sink's last installation shows in `LastSince`. */
  lemma {:induction false} HandedShows(log: seq<Event>, id: SessionId, j: nat)
    requires HandedAt(log, j) && log[j].session == id && LastInstall(log, id) < j
    ensures LastSince(log, id).Some?
  {
    var rest := log[..|log| - 1];
    if j < |rest| && !(log[|rest|].Handed? && log[|rest|].session == id) {
      HandedShows(rest, id, j);
    }
  }

  // ---- Main results ----

  /** A non-keyframe that is not the first frame its sink gets since the sink was installed
      directly follows, in the output of one encoder, the frame that sink got before it. */
  lemma StreamsAreContiguous(steps: seq<Step>, i: nat)
    requires HandedAt(Run(steps).log, i)
    ensures Continues(Run(steps).log[..i], Run(steps).log[i].session, Run(steps).log[i].frame)
  {
    RunKeepsStreams(steps);
    EventContinues(Run(steps).log, i);
  }
}
