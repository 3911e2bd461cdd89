/**
  How many frames can reach a newly installed sink before a keyframe does. A connecting session stores
  its sink first and asks for a keyframe in a second store; what the encoder thread hands over in
  between is what the bound depends on.
*/
module Installs {
  import opened Prelude
  import opened Protocol
  import opened Delivery
  import opened Requests
  import opened Continuations
  import opened LostRequests

  predicate HandedTo(log: seq<Event>, id: SessionId, i: int) {
    HandedAt(log, i) && log[i].session == id
  }

  /** How many frames were handed to `id` at the positions `lo` to `hi - 1`. */
  function Count(log: seq<Event>, id: SessionId, lo: int, hi: int): (n: nat)
    requires lo <= hi
    decreases hi - lo
  {
    if lo == hi then 0
    else Count(log, id, lo, hi - 1) + if HandedTo(log, id, hi - 1) then 1 else 0
  }

  lemma {:induction false} CountSplits(log: seq<Event>, id: SessionId, lo: int, mid: int, hi: int)
    requires lo <= mid <= hi
    ensures Count(log, id, lo, hi) == Count(log, id, lo, mid) + Count(log, id, mid, hi)
    decreases hi - mid
  {
    if mid < hi {
      CountSplits(log, id, lo, mid, hi - 1);
    }
  }

  lemma {:induction false} CountOfNone(log: seq<Event>, id: SessionId, lo: int, hi: int)
    requires lo <= hi && forall i :: lo <= i < hi ==> !HandedTo(log, id, i)
    ensures Count(log, id, lo, hi) == 0
    decreases hi - lo
  {
    if lo < hi {
      CountOfNone(log, id, lo, hi - 1);
    }
  }

  /** The sink of `id` was installed anew at `p` and still was in place, with no newer installation, at `j`. */
  ghost predicate InstalledSince(log: seq<Event>, id: SessionId, p: int, j: int) {
    0 <= p < j < |log| && log[p] == Installed(id, true) && LastInstall(log[..j], id) == p
  }

  ghost predicate NoKeyframe(log: seq<Event>, id: SessionId, p: int, j: int) {
    forall k :: p < k <= j && HandedTo(log, id, k) ==> !log[k].frame.keyframe
  }

  // ---- The bound in general ----

  /** After a request that follows the installation at most one frame reaches the sink before a keyframe. */
  lemma OneAfterRequest(steps: seq<Step>, log: seq<Event>, id: SessionId, p: nat, q: nat, j: nat)
    requires NeverFailsWhileHeld(steps) && log == Run(steps).log
    requires InstalledSince(log, id, p, j) && HandedTo(log, id, j) && NoKeyframe(log, id, p, j)
    requires RequestAt(log, q) && p < q < j
    ensures forall i :: q < i < j ==> !HandedTo(log, id, i)
  {
    forall i | q < i < j && HandedTo(log, id, i) ensures false {
      var k := AtMostOneBeforeKeyframe(steps, q, i, j);
      assert HandedTo(log, id, k);
    }
  }

  lemma CountToLast(log: seq<Event>, id: SessionId, p: nat, q: nat, j: nat)
    requires p < q && p < j && q != j && (forall i :: q < i < j ==> !HandedTo(log, id, i)) && !HandedTo(log, id, q)
    ensures Count(log, id, p, j + 1) <= Count(log, id, p, q) + if q < j then 1 else 0
  {
    if q < j {
      CountSplits(log, id, p, q, j + 1);
      CountOfNone(log, id, q, j);
    } else {
      CountSplits(log, id, p, j + 1, q);
    }
  }

  /** As long as no keyframe reached it, a new sink got at most one frame more than were handed to it
      between its installation at `p` and a request at `q`. */
  lemma BoundFromInstall(steps: seq<Step>, log: seq<Event>, id: SessionId, p: nat, q: nat, j: nat)
    requires NeverFailsWhileHeld(steps) && log == Run(steps).log
    requires InstalledSince(log, id, p, j) && HandedTo(log, id, j) && NoKeyframe(log, id, p, j)
    requires RequestAt(log, q) && p < q
    ensures Count(log, id, p, j + 1) <= Count(log, id, p, q) + if q < j then 1 else 0
  {
    if q < j {
      OneAfterRequest(steps, log, id, p, q, j);
    }
    CountToLast(log, id, p, q, j);
  }

  /** If nothing is handed to the sink between its installation and a request, at most one frame reaches it
      before a keyframe: of any two the later one is, or comes after, a keyframe. */
  lemma AtMostOneFromInstall(steps: seq<Step>, log: seq<Event>, id: SessionId, p: nat, q: nat, i: nat, j: nat)
    requires NeverFailsWhileHeld(steps) && log == Run(steps).log
    requires InstalledSince(log, id, p, j) && p < i < j && HandedTo(log, id, i) && HandedTo(log, id, j)
    requires RequestAt(log, q) && p < q && forall m :: p < m < q ==> !HandedTo(log, id, m)
    ensures !NoKeyframe(log, id, p, j)
  {
    ComesAfter(log, id, p, q, i);
    if NoKeyframe(log, id, p, j) {
      OneAfterRequest(steps, log, id, p, q, j);
    }
  }

  lemma ComesAfter(log: seq<Event>, id: SessionId, p: nat, q: nat, i: nat)
    requires RequestAt(log, q) && HandedTo(log, id, i) && p < i && forall m :: p < m < q ==> !HandedTo(log, id, m)
    ensures q < i
  {
  }

  // ---- Runs in which the stores of a connect are not divided ----

  /** The encoder thread takes no step between the sink store and the keyframe store of a connect. */
  predicate StoresTogether(steps: seq<Step>) {
    steps == [] ||
    (StoresTogether(steps[..|steps| - 1]) &&
     (Run(steps[..|steps| - 1]).connecting.HasInstalled? ==> !IsEncoderStep(steps[|steps| - 1])))
  }

  predicate InstalledAt(log: seq<Event>, p: int) {
    0 <= p < |log| && log[p].Installed?
  }

  ghost predicate RequestedBetween(log: seq<Event>, p: int, i: int) {
    exists q :: p < q < i && RequestAt(log, q)
  }

  /** Every installation is followed by a request before any frame. */
  ghost predicate PairInv(s: State) {
    && (forall p, i :: InstalledAt(s.log, p) && HandedAt(s.log, i) && p < i ==> RequestedBetween(s.log, p, i))
    && (forall p :: InstalledAt(s.log, p) ==> RequestedBetween(s.log, p, |s.log|) || s.connecting.HasInstalled?)
  }

  lemma RequestedGrows(log: seq<Event>, e: Event, p: int, i: int)
    requires RequestedBetween(log, p, i)
    ensures RequestedBetween(log + [e], p, i) && (i <= |log| ==> RequestedBetween(log + [e], p, |log| + 1))
  {
    var q :| p < q < i && RequestAt(log, q);
    assert RequestAt(log + [e], q);
  }

  lemma PairAppend(s: State, t: State, e: Event)
    requires PairInv(s) && t.log == s.log + [e]
    requires e.Installed? ==> t.connecting.HasInstalled?
    requires e.Handed? ==> !s.connecting.HasInstalled?
    requires e.Requested? || (s.connecting.HasInstalled? ==> t.connecting.HasInstalled?)
    ensures PairInv(t)
  {
    Append(s.log, e);
    forall p, i | InstalledAt(t.log, p) && HandedAt(t.log, i) && p < i ensures RequestedBetween(t.log, p, i) {
      assert InstalledAt(s.log, p);
      RequestedGrows(s.log, e, p, i);
    }
    forall p | InstalledAt(t.log, p) && !t.connecting.HasInstalled? ensures RequestedBetween(t.log, p, |t.log|) {
      assert InstalledAt(s.log, p);
      if e.Requested? {
        assert RequestAt(t.log, |s.log|);
      } else {
        RequestedGrows(s.log, e, p, |s.log|);
      }
    }
  }

  /** What a step does to the log and to the connect under way. */
  lemma PairShape(s: State, step: Step)
    requires s.connecting.HasInstalled? ==> !IsEncoderStep(step)
    ensures var t := Next(s, step);
            if t.log == s.log then t.connecting.HasInstalled? == s.connecting.HasInstalled?
            else
              && |t.log| == |s.log| + 1 && t.log == s.log + [t.log[|s.log|]]
              && (t.log[|s.log|].Installed? ==> t.connecting.HasInstalled?)
              && (t.log[|s.log|].Handed? ==> !s.connecting.HasInstalled?)
              && (t.log[|s.log|].Requested? || (s.connecting.HasInstalled? ==> t.connecting.HasInstalled?))
  {
    Shape(s, step);
    ConnectingShape(s, step);
  }

  lemma ConnectingShape(s: State, step: Step)
    ensures var t := Next(s, step).connecting;
            t.HasInstalled? == s.connecting.HasInstalled?
            || (step.ForceOnConnect? && s.connecting.HasInstalled?)
            || (step.Connect? && t.HasInstalled? && Next(s, step).log != s.log)
  {
  }

  lemma {:induction false} RunKeepsPairs(steps: seq<Step>)
    requires StoresTogether(steps)
    ensures PairInv(Run(steps))
  {
    if steps != [] {
      var rest := steps[..|steps| - 1];
      var (s, t) := (Run(rest), Run(steps));
      RunKeepsPairs(rest);
      PairShape(s, steps[|steps| - 1]);
      if t.log != s.log {
        PairAppend(s, t, t.log[|s.log|]);
      }
    }
  }

  /** In such runs at most one frame, the one already in the encoder, reaches a newly installed sink
      before a keyframe. */
  lemma UndividedInstall(steps: seq<Step>, log: seq<Event>, id: SessionId, p: nat, i: nat, j: nat)
    requires NeverFailsWhileHeld(steps) && StoresTogether(steps) && log == Run(steps).log
    requires InstalledSince(log, id, p, j) && p < i < j && HandedTo(log, id, i) && HandedTo(log, id, j)
    ensures !NoKeyframe(log, id, p, j)
  {
    RunKeepsPairs(steps);
    var first := FirstHanded(log, p, i);
    assert InstalledAt(log, p) && RequestedBetween(log, p, first);
    var q :| p < q < first && RequestAt(log, q);
    AtMostOneFromInstall(steps, log, id, p, q, i, j);
  }

  /** The first frame handed over after `p`. */
  lemma FirstHanded(log: seq<Event>, p: nat, i: nat) returns (first: nat)
    requires p < i && HandedAt(log, i)
    ensures p < first <= i && HandedAt(log, first) && forall m :: p < m < first ==> !HandedAt(log, m)
  {
    first := i;
    while exists m :: p < m < first && HandedAt(log, m)
      invariant p < first <= i && HandedAt(log, first)
      decreases first
    {
      var m :| p < m < first && HandedAt(log, m);
      first := m;
    }
  }

  // ---- The bound is attained ----

  /** The frames that a session with a stored sink and a running capture gets before it asks for a keyframe. */
  function Between(size: Size, n: nat): seq<Step> {
    if n == 0 then [] else CaptureTick(size) + DELIVERY + Between(size, n - 1)
  }

  /** The last one is in the encoder when the keyframe store comes. */
  function OneMore(size: Size): seq<Step> {
    CaptureTick(size) + ([Receive, SwapFlag] + [Encode(Delta)]) + [ForceOnConnect] + [ReadSink, Send]
  }

  /** A session has stored its sink while capture runs and the encoder `e` is held. */
  predicate Storing(s: State, id: SessionId, e: Encoder) {
    && s.encoding.Waiting? && s.capturing.Pacing? && s.slot.None? && !s.forceKeyframe && s.encoder == Some(e)
    && NonEmpty(e.size) && s.sink == Some(id) && s.clientConnected && s.connecting == HasInstalled(id)
  }

  lemma TickIsHanded(s: State, id: SessionId, e: Encoder)
    requires Storing(s, id, e)
    ensures Continue(s, CaptureTick(e.size) + DELIVERY) ==
            s.(encoder := Some(e.(produced := e.produced + 1)),
               log := s.log + [Handed(id, Frame(e.id, e.produced, false, |s.log|), id !in s.receiversGone)])
    ensures NoHeldFailure(s, CaptureTick(e.size) + DELIVERY)
  {
    FrameIsQueued(s, e.size);
    DeltaIsHanded(Continue(s, CaptureTick(e.size)), e, id);
    ContinueOn(s, CaptureTick(e.size), DELIVERY);
  }

  /** The log grew by non-keyframes for `id` only. */
  ghost predicate GrewByDeltas(before: seq<Event>, log: seq<Event>, id: SessionId, n: nat) {
    && |log| == |before| + n && log[..|before|] == before
    && forall i :: |before| <= i < |log| ==> HandedTo(log, id, i) && !log[i].frame.keyframe
  }

  lemma {:induction false} BetweenHands(s: State, id: SessionId, e: Encoder, n: nat) returns (f: Encoder)
    requires Storing(s, id, e)
    ensures var t := Continue(s, Between(e.size, n));
            Storing(t, id, f) && f.size == e.size && GrewByDeltas(s.log, t.log, id, n)
    ensures NoHeldFailure(s, Between(e.size, n))
    decreases n
  {
    f := e;
    if n > 0 {
      var t := Continue(s, CaptureTick(e.size) + DELIVERY);
      TickIsHanded(s, id, e);
      f := BetweenHands(t, id, e.(produced := e.produced + 1), n - 1);
      ContinueOn(s, CaptureTick(e.size) + DELIVERY, Between(e.size, n - 1));
      var log := Continue(t, Between(e.size, n - 1)).log;
      assert log[..|s.log|] == log[..|t.log|][..|s.log|] == s.log;
      assert log[|s.log|] == log[..|t.log|][|s.log|];
    }
  }

  lemma OneMoreIsHanded(s: State, id: SessionId, e: Encoder)
    requires Storing(s, id, e)
    ensures var f := Frame(e.id, e.produced, false, |s.log|);
            Continue(s, OneMore(e.size)).log == s.log + [Requested(id)] + [Handed(id, f, id !in s.receiversGone)]
    ensures NoHeldFailure(s, OneMore(e.size))
  {
    var encode := [Receive, SwapFlag] + [Encode(Delta)];
    var t := Continue(s, CaptureTick(e.size));
    var u := Continue(t, encode);
    FrameIsQueued(s, e.size);
    FrameIsEncoded(t, e);
    OneStep(u, ForceOnConnect);
    FrameIsHanded(Next(u, ForceOnConnect));
    ContinueOn(s, CaptureTick(e.size), encode);
    ContinueOn(s, CaptureTick(e.size) + encode, [ForceOnConnect]);
    ContinueOn(s, CaptureTick(e.size) + encode + [ForceOnConnect], [ReadSink, Send]);
  }

  /** From such a state on: `n` frames between the two stores, the keyframe store at `q`, and one more
      frame; none of them a keyframe. */
  lemma BoundIsAttained(s: State, id: SessionId, e: Encoder, n: nat) returns (more: seq<Step>)
    requires Storing(s, id, e)
    ensures NoHeldFailure(s, more)
    ensures var (log, q) := (Continue(s, more).log, |s.log| + n);
            && |log| == q + 2 && log[..|s.log|] == s.log && RequestAt(log, q)
            && forall i :: |s.log| <= i < |log| && i != q ==> HandedTo(log, id, i) && !log[i].frame.keyframe
  {
    var f := BetweenHands(s, id, e, n);
    var t := Continue(s, Between(e.size, n));
    OneMoreIsHanded(t, id, f);
    ContinueOn(s, Between(e.size, n), OneMore(e.size));
    more := Between(e.size, n) + OneMore(e.size);
    var log := Continue(s, more).log;
    assert log[..|t.log|] == t.log;
    assert log[..|s.log|] == log[..|t.log|][..|s.log|];
    assert forall i :: |s.log| <= i < |t.log| ==> log[i] == log[..|t.log|][i];
  }

  // ---- Such a state is reached ----

  /** While it is being replaced, session 1 connects again and gets a keyframe; then session 2 connects. */
  const RECONNECTED: seq<Step> := [TakePrevious, Connect(1), ForceOnConnect, MarkConnected]
  const STORING: seq<Step> :=
    STREAMING + RECONNECTED + CaptureTick(SCREEN) + [Receive, SwapFlag] + [Encode(Key)] + [ReadSink, Send]
    + [NameSession] + [Publish(2), Connect(2)]

  lemma Reconnects(s: State)
    requires Streams(s)
    ensures var t := Continue(s, RECONNECTED);
            && SamePipeline(s.(forceKeyframe := true), t) && t.clientConnected && t.sink == Some(1)
            && t.connecting.NotConnecting? && t.takenOffers > 0 && t.nextSession == 2
            && t.log == s.log + [Installed(1, true)] + [Requested(1)]
    ensures NoHeldFailure(s, RECONNECTED)
  {
    var s1 := Next(s, TakePrevious);
    assert s1 == s.(takenOffers := s.takenOffers + 1, current := None, clientConnected := false, sink := None);
    var s2 := Next(s1, Connect(1));
    assert s2 == s1.(sink := Some(1), connecting := HasInstalled(1), log := s.log + [Installed(1, true)]);
    ConnectEnds(s2);
    UnfoldFour(s, TakePrevious, Connect(1), ForceOnConnect, MarkConnected);
    UnfoldTwo(s2, ForceOnConnect, MarkConnected);
  }

  lemma KeyIsEncoded(s: State, e: Encoder)
    requires s.encoder == Some(e) && s.encoding.Swapped? && s.encoding.size == e.size
    ensures Continue(s, [Encode(Key)]) ==
            s.(encoder := Some(e.(produced := e.produced + 1)),
               encoding := Encoded(Frame(e.id, e.produced, true, s.encoding.began), s.encoding.force))
    ensures NoHeldFailure(s, [Encode(Key)])
  {
    OneStep(s, Encode(Key));
  }

  lemma NextSessionStores(s: State)
    requires s.takenOffers > 0 && s.nextSession == 2 && s.connecting.NotConnecting? && s.sink == Some(1)
    ensures var t := Continue(s, [NameSession] + [Publish(2), Connect(2)]);
            && SamePipeline(s, t) && t.log == s.log + [Installed(2, true)] && t.connecting == HasInstalled(2)
            && t.sink == Some(2) && t.clientConnected == s.clientConnected
    ensures NoHeldFailure(s, [NameSession] + [Publish(2), Connect(2)])
  {
    var t := Next(s, NameSession);
    assert SamePipeline(s, t) && 2 in t.namedOffers && t.log == s.log;
    OfferEnds(t, 2);
    Then(s, NameSession, [Publish(2), Connect(2)]);
    UnfoldTwo(t, Publish(2), Connect(2));
  }

  lemma StoringIsReached()
    ensures var s := Continue(Initial, STORING);
            Storing(s, 2, Encoder(0, SCREEN, 2)) && |s.log| == 7 && s.log[6] == Installed(2, true)
    ensures NoHeldFailure(Initial, STORING)
  {
    FirstStreams();
    var s0 := Continue(Initial, STREAMING);
    var s1 := Continue(s0, RECONNECTED);
    var s2 := Continue(s1, CaptureTick(SCREEN));
    var s3 := Continue(s2, [Receive, SwapFlag]);
    var s4 := Continue(s3, [Encode(Key)]);
    var s5 := Continue(s4, [ReadSink, Send]);
    Reconnects(s0);
    FrameIsQueued(s1, SCREEN);
    FrameIsTaken(s2);
    KeyIsEncoded(s3, Encoder(0, SCREEN, 1));
    FrameIsHanded(s4);
    NextSessionStores(s5);
    StoringInParts();
  }

  lemma StoringInParts()
    ensures var s1 := Continue(Continue(Initial, STREAMING), RECONNECTED);
            var s3 := Continue(Continue(s1, CaptureTick(SCREEN)), [Receive, SwapFlag]);
            var s5 := Continue(Continue(s3, [Encode(Key)]), [ReadSink, Send]);
            && Continue(Initial, STORING) == Continue(s5, [NameSession] + [Publish(2), Connect(2)])
            && (NoHeldFailure(Initial, STORING) <==>
                  && NoHeldFailure(Initial, STREAMING) && NoHeldFailure(Continue(Initial, STREAMING), RECONNECTED)
                  && NoHeldFailure(s1, CaptureTick(SCREEN)) && NoHeldFailure(Continue(s1, CaptureTick(SCREEN)), [Receive, SwapFlag])
                  && NoHeldFailure(s3, [Encode(Key)]) && NoHeldFailure(Continue(s3, [Encode(Key)]), [ReadSink, Send])
                  && NoHeldFailure(s5, [NameSession] + [Publish(2), Connect(2)]))
  {
    var a1 := STREAMING + RECONNECTED;
    var a2 := a1 + CaptureTick(SCREEN);
    var a3 := a2 + [Receive, SwapFlag];
    var a4 := a3 + [Encode(Key)];
    var a5 := a4 + [ReadSink, Send];
    assert STORING == a5 + ([NameSession] + [Publish(2), Connect(2)]);
    ContinueOn(Initial, STREAMING, RECONNECTED);
    ContinueOn(Initial, a1, CaptureTick(SCREEN));
    ContinueOn(Initial, a2, [Receive, SwapFlag]);
    ContinueOn(Initial, a3, [Encode(Key)]);
    ContinueOn(Initial, a4, [ReadSink, Send]);
    ContinueOn(Initial, a5, [NameSession] + [Publish(2), Connect(2)]);
  }

  // ---- Tightness ----

  lemma {:induction false} CountOfAll(log: seq<Event>, id: SessionId, lo: int, hi: int)
    requires lo <= hi && forall i :: lo <= i < hi ==> HandedTo(log, id, i)
    ensures Count(log, id, lo, hi) == hi - lo
    decreases hi - lo
  {
    if lo < hi {
      CountOfAll(log, id, lo, hi - 1);
    }
  }

  /** An installation stays the last one as long as none follows. */
  lemma {:induction false} LastInstallStays(log: seq<Event>, id: SessionId, p: nat, j: nat)
    requires p < j <= |log| && log[p] == Installed(id, true) && forall i :: p < i < j ==> !log[i].Installed?
    ensures LastInstall(log[..j], id) == p
    decreases j
  {
    assert log[..j][..j - 1] == log[..j - 1] && log[..j][j - 1] == log[j - 1];
    if p < j - 1 {
      LastInstallStays(log, id, p, j - 1);
    }
  }

  /** The counts of `n` frames between installation and request and one after it. */
  lemma CountsOfExample(log: seq<Event>, id: SessionId, p: nat, n: nat)
    requires |log| == p + n + 3 && log[p] == Installed(id, true) && RequestAt(log, p + n + 1)
    requires forall i :: p < i < |log| && i != p + n + 1 ==> HandedTo(log, id, i) && !log[i].frame.keyframe
    ensures var (q, j) := (p + n + 1, p + n + 2);
            && InstalledSince(log, id, p, j) && HandedTo(log, id, j) && NoKeyframe(log, id, p, j)
            && Count(log, id, p, q) == n && Count(log, id, p, j + 1) == n + 1
  {
    var (q, j) := (p + n + 1, p + n + 2);
    LastInstallStays(log, id, p, j);
    CountSplits(log, id, p, p + 1, q);
    CountOfNone(log, id, p, p + 1);
    CountOfAll(log, id, p + 1, q);
    CountSplits(log, id, p, q, j + 1);
    assert Count(log, id, q, q) == 0 && Count(log, id, q, q + 1) == 0 && Count(log, id, q, j + 1) == 1;
  }

  /** The bound cannot be improved: for every `n` some run hands `n` frames to a new sink between its
      installation at `p` and the request at `q`, and one more before any keyframe. */
  lemma BoundIsTight(n: nat) returns (steps: seq<Step>, p: nat, q: nat, j: nat)
    ensures NeverFailsWhileHeld(steps) && p < q < j
    ensures var log := Run(steps).log;
            && InstalledSince(log, 2, p, j) && HandedTo(log, 2, j) && NoKeyframe(log, 2, p, j) && RequestAt(log, q)
            && Count(log, 2, p, q) == n && Count(log, 2, p, j + 1) == n + 1
  {
    StoringIsReached();
    var s := Continue(Initial, STORING);
    var more := BoundIsAttained(s, 2, Encoder(0, SCREEN, 2), n);
    steps := STORING + more;
    ContinueOn(Initial, STORING, more);
    RunFromStart(steps);
    p, q, j := 6, 7 + n, 8 + n;
    var log := Run(steps).log;
    assert log[6] == log[..7][6];
    CountsOfExample(log, 2, 6, n);
  }

  // ---- An example ----

  /** While session 1 streams, an unforced frame is in the encoder and another one queued; session 2 connects. */
  const TAKEN_OVER: seq<Step> :=
    CaptureTick(SCREEN) + ([Receive, SwapFlag] + [Encode(Delta)]) + CaptureTick(SCREEN) + NewSession(2)

  /** Both frames reach session 2, with the keyframe store after the second one is encoded. */
  const TWO_FRAMES: seq<Step> :=
    [ReadSink, Send] + ([Receive, SwapFlag] + [Encode(Delta)]) + [ForceOnConnect] + [ReadSink, Send]

  lemma TakeOver(s: State)
    requires Streams(s)
    ensures var t := Continue(s, TAKEN_OVER);
            && t.log == s.log + [Installed(2, true)] && t.sink == Some(2) && t.connecting == HasInstalled(2)
            && t.encoding == Encoded(Frame(0, 1, false, |s.log|), false) && t.encoder == Some(Encoder(0, SCREEN, 2))
            && t.slot == Some(Captured(SCREEN, false)) && !t.forceKeyframe && t.receiversGone == {}
    ensures NoHeldFailure(s, TAKEN_OVER)
  {
    var encode := [Receive, SwapFlag] + [Encode(Delta)];
    var s1 := Continue(s, CaptureTick(SCREEN));
    var s2 := Continue(s1, encode);
    var s3 := Continue(s2, CaptureTick(SCREEN));
    FrameIsQueued(s, SCREEN);
    FrameIsEncoded(s1, Encoder(0, SCREEN, 1));
    FrameIsQueued(s2, SCREEN);
    SessionInstalls(s3);
    ContinueOn(s, CaptureTick(SCREEN), encode);
    ContinueOn(s, CaptureTick(SCREEN) + encode, CaptureTick(SCREEN));
    ContinueOn(s, CaptureTick(SCREEN) + encode + CaptureTick(SCREEN), NewSession(2));
  }

  lemma TwoAreHanded(s: State, id: SessionId, e: Encoder, f: Frame)
    requires s.sink == Some(id) && s.connecting == HasInstalled(id) && id !in s.receiversGone && !s.forceKeyframe
    requires s.encoding == Encoded(f, false) && s.encoder == Some(e) && NonEmpty(e.size)
    requires s.slot == Some(Captured(e.size, false))
    ensures Continue(s, TWO_FRAMES).log ==
            s.log + [Handed(id, f, true)] + [Requested(id)] + [Handed(id, Frame(e.id, e.produced, false, |s.log| + 1), true)]
    ensures NoHeldFailure(s, TWO_FRAMES)
  {
    var encode := [Receive, SwapFlag] + [Encode(Delta)];
    var s1 := Continue(s, [ReadSink, Send]);
    var s2 := Continue(s1, encode);
    FrameIsHanded(s);
    FrameIsEncoded(s1, e);
    OneStep(s2, ForceOnConnect);
    FrameIsHanded(Next(s2, ForceOnConnect));
    ContinueOn(s, [ReadSink, Send], encode);
    ContinueOn(s, [ReadSink, Send] + encode, [ForceOnConnect]);
    ContinueOn(s, [ReadSink, Send] + encode + [ForceOnConnect], [ReadSink, Send]);
  }

  /** A plain take-over in which two frames reach a new sink, installed at 3, before any keyframe does. */
  lemma TwoBeforeKeyframe()
    ensures NeverFailsWhileHeld(STREAMING + TAKEN_OVER + TWO_FRAMES)
    ensures var log := Run(STREAMING + TAKEN_OVER + TWO_FRAMES).log;
            && |log| == 7 && InstalledSince(log, 2, 3, 6) && HandedTo(log, 2, 4) && RequestAt(log, 5) && HandedTo(log, 2, 6)
            && NoKeyframe(log, 2, 3, 6)
  {
    var s := Continue(Initial, STREAMING);
    var t := Continue(s, TAKEN_OVER);
    FirstStreams();
    TakeOver(s);
    TwoAreHanded(t, 2, Encoder(0, SCREEN, 2), Frame(0, 1, false, 3));
    ContinueOn(Initial, STREAMING, TAKEN_OVER);
    ContinueOn(Initial, STREAMING + TAKEN_OVER, TWO_FRAMES);
    RunFromStart(STREAMING + TAKEN_OVER + TWO_FRAMES);
    LastInstallStays(Run(STREAMING + TAKEN_OVER + TWO_FRAMES).log, 2, 3, 6);
  }
}
