/**
  The capture thread's loop: frame pacing and the skipping of unchanged frames. Times are
  readings of one monotonic clock in nanoseconds.
*/
module Capture {
  import opened Prelude

  const SECOND: int := 1_000_000_000

  /** The answer of the one-slot channel to the encoder. */
  datatype SlotAnswer = Accepted | Full | Disconnected

  /** What one iteration meets: the connected flag, the clock readings in program order (`idle`
      replaces the others when no client is connected), the display, the hash of the frame, the
      keyframe flag and the slot. */
  datatype Tick = Tick(
    connected: bool, idle: int,
    now: int, woke: int, checked: int, resynced: int,
    display: bool, hash: Option<int>,
    keyframe: bool, decided: int,
    answer: SlotAnswer, sentAt: int)

  datatype Outcome =
    | Idle
    | NoDisplay
    | NoFrame
    | Skipped(hash: int)
    | Sent(hash: int, at: int)
    | Refused(hash: int)
    | Stopped

  datatype State = State(wasConnected: bool, lastHash: Option<int>, lastSent: int, nextTick: int)

  /** The next tick's due time, resynchronised when more than a frame behind. */
  function Paced(due: int, frame: int, t: Tick): int {
    if due + frame + frame < t.checked then t.resynced else due + frame
  }

  /** One iteration of the loop. */
  function Iterate(s: State, frame: int, t: Tick): (State, Outcome) {
    if !t.connected then (s.(wasConnected := false, nextTick := t.idle), Idle)
    else
      var last := if s.wasConnected then s.lastHash else None;
      var p := State(true, last, s.lastSent, Paced(s.nextTick, frame, t));
      if !t.display then (p, NoDisplay)
      else match t.hash
        case None => (p, NoFrame)
        case Some(h) =>
          if last == Some(h) && !t.keyframe && t.decided - s.lastSent < SECOND then (p, Skipped(h))
          else match t.answer
            case Accepted => (p.(lastHash := Some(h), lastSent := t.sentAt), Sent(h, t.sentAt))
            case Full => (p, Refused(h))
            case Disconnected => (p, Stopped)
  }

  /** `capture_loop` with its locals as fields; one call is one iteration. */
  class CaptureLoop {
    const frame: int
    var wasConnected: bool
    var lastHash: Option<int>
    var lastSent: int
    var nextTick: int

    ghost function View(): State
      reads this
    {
      State(wasConnected, lastHash, lastSent, nextTick)
    }

    constructor (frame: int, start: int)
      ensures this.frame == frame && View() == State(false, None, start, start)
    {
      this.frame := frame;
      wasConnected, lastHash, lastSent, nextTick := false, None, start, start;
    }

    method Step(t: Tick) returns (outcome: Outcome)
      modifies this
      ensures (View(), outcome) == Iterate(old(View()), frame, t)
    {
      if !t.connected {
        wasConnected := false;
        nextTick := t.idle;
        return Idle;
      }
      if !wasConnected {
        wasConnected := true;
        lastHash := None;
      }
      nextTick := nextTick + frame;
      if nextTick + frame < t.checked {
        nextTick := t.resynced;
      }
      if !t.display {
        return NoDisplay;
      }
      if t.hash.None? {
        return NoFrame;
      }
      var hash := t.hash.value;
      var same := lastHash == Some(hash);
      if same && !t.keyframe && t.decided - lastSent < SECOND {
        return Skipped(hash);
      }
      match t.answer {
        case Accepted =>
          lastHash := Some(hash);
          lastSent := t.sentAt;
          return Sent(hash, t.sentAt);
        case Full =>
          return Refused(hash);
        case Disconnected =>
          return Stopped;
      }
    }
  }

  // ---- Runs ----

  /** The state before tick `|ticks|`. */
  function After(start: State, frame: int, ticks: seq<Tick>): State {
    if ticks == [] then start
    else Iterate(After(start, frame, ticks[..|ticks| - 1]), frame, ticks[|ticks| - 1]).0
  }

  function OutcomeAt(start: State, frame: int, ticks: seq<Tick>, i: nat): Outcome
    requires i < |ticks|
  {
    Iterate(After(start, frame, ticks[..i]), frame, ticks[i]).1
  }

  /** The clock never goes back and a sleep lasts at least until the tick is due. */
  ghost predicate WellTimed(start: State, frame: int, ticks: seq<Tick>) {
    && (forall i :: 0 <= i < |ticks| && ticks[i].connected ==>
          && ticks[i].now <= ticks[i].woke <= ticks[i].checked <= ticks[i].resynced <= ticks[i].decided
          && After(start, frame, ticks[..i]).nextTick <= ticks[i].woke)
    && (forall i :: 0 < i < |ticks| && ticks[i - 1].connected && ticks[i].connected ==>
          ticks[i - 1].decided <= ticks[i].now)
  }

  ghost predicate Connected(ticks: seq<Tick>, i: int, j: int)
    requires 0 <= i <= j < |ticks|
  {
    forall m :: i <= m <= j ==> ticks[m].connected
  }

  function Due(start: State, frame: int, ticks: seq<Tick>, i: nat): int
    requires i <= |ticks|
  {
    After(start, frame, ticks[..i]).nextTick
  }

  lemma PacedGrows(due: int, frame: nat, t: Tick)
    requires t.checked <= t.resynced
    ensures Paced(due, frame, t) >= due + frame
  {
  }

  lemma DueStep(start: State, frame: int, ticks: seq<Tick>, i: nat)
    requires i < |ticks| && ticks[i].connected
    ensures Due(start, frame, ticks, i + 1) == Paced(Due(start, frame, ticks, i), frame, ticks[i])
  {
    assert ticks[..i + 1][..i] == ticks[..i];
  }

  /** Due times are at least a frame apart. */
  lemma {:induction false} DueGrows(start: State, frame: nat, ticks: seq<Tick>, i: nat, k: nat)
    requires WellTimed(start, frame, ticks) && i + k < |ticks| && Connected(ticks, i, i + k)
    ensures Due(start, frame, ticks, i + k) >= Due(start, frame, ticks, i) + k * frame
  {
    if k > 0 {
      DueGrows(start, frame, ticks, i, k - 1);
      var last := i + k - 1;
      assert ticks[last].connected && ticks[last].checked <= ticks[last].resynced;
      DueStep(start, frame, ticks, last);
      PacedGrows(Due(start, frame, ticks, last), frame, ticks[last]);
      assert k * frame == (k - 1) * frame + frame;
    }
  }

  /** Within a connected stretch, `k` ticks after one that passed its pacing check, at least
      `k - 2` frame durations have gone by, whatever the delays, oversleeping and resyncs. */
  lemma PacingBound(start: State, frame: nat, ticks: seq<Tick>, i: nat, k: nat)
    requires WellTimed(start, frame, ticks) && 1 <= k && i + k < |ticks| && Connected(ticks, i, i + k)
    ensures ticks[i + k].woke - ticks[i].checked >= (k - 2) * frame
  {
    DueAtMostNextFrame(start, frame, ticks, i);
    DueGrows(start, frame, ticks, i + 1, k - 1);
    assert i + 1 + (k - 1) == i + k;
    assert ticks[i + k].connected;
    FrameMore(k - 2, frame);
  }

  /** The pacing check leaves the next due time at most a frame behind. */
  lemma DueAtMostNextFrame(start: State, frame: nat, ticks: seq<Tick>, i: nat)
    requires i < |ticks| && ticks[i].connected && ticks[i].checked <= ticks[i].resynced
    ensures Due(start, frame, ticks, i + 1) >= ticks[i].checked - frame
  {
    DueStep(start, frame, ticks, i);
  }

  lemma FrameMore(n: int, frame: nat)
    ensures (n + 1) * frame == n * frame + frame
  {
  }

  /** The bound for the work done after the check (the capture itself), one frame weaker. */
  lemma CaptureBound(start: State, frame: nat, ticks: seq<Tick>, i: nat, k: nat)
    requires WellTimed(start, frame, ticks) && 2 <= k && i + k < |ticks| && Connected(ticks, i, i + k)
    ensures ticks[i + k].woke - ticks[i].decided >= (k - 3) * frame
  {
    PacingBound(start, frame, ticks, i + 1, k - 1);
    assert ticks[i + 1 - 1].connected && ticks[i + 1].connected;
  }

  /** Ticks of a thread that starts two frames late and then is never late again. */
  function LateStart(frame: nat, k: nat): seq<Tick> {
    seq(k + 1, i requires 0 <= i => Prompt(LateAt(frame, i)))
  }

  function LateAt(frame: nat, i: nat): nat {
    if i < 2 then 2 * frame else i * frame
  }

  lemma LateAtGrows(frame: nat, i: nat)
    ensures i * frame <= LateAt(frame, i) <= LateAt(frame, i + 1)
  {
    FrameMore(i, frame);
  }

  function Prompt(at: int): Tick {
    Tick(true, at, at, at, at, at, true, None, false, at, Full, at)
  }

  lemma {:induction false} LateStartDue(frame: nat, k: nat, i: nat)
    requires i <= k + 1
    ensures Due(State(false, None, 0, 0), frame, LateStart(frame, k), i) == i * frame
  {
    if i > 0 {
      var ticks := LateStart(frame, k);
      LateStartDue(frame, k, i - 1);
      DueStep(State(false, None, 0, 0), frame, ticks, i - 1);
      FrameMore(i - 1, frame);
    }
  }

  /** The bound cannot be improved: for every `k` some run attains it. */
  lemma PacingBoundIsTight(frame: nat, k: nat)
    requires 2 <= k
    ensures var ticks := LateStart(frame, k);
            && WellTimed(State(false, None, 0, 0), frame, ticks) && |ticks| == k + 1 && Connected(ticks, 0, k)
            && ticks[k].woke - ticks[0].checked == (k - 2) * frame
  {
    var ticks := LateStart(frame, k);
    forall i | 0 <= i < |ticks| ensures After(State(false, None, 0, 0), frame, ticks[..i]).nextTick <= ticks[i].woke {
      LateStartDue(frame, k, i);
      LateAtGrows(frame, i);
    }
    forall i | 0 < i < |ticks| ensures ticks[i - 1].decided <= ticks[i].now {
      LateAtGrows(frame, i - 1);
    }
  }

  /** Nor does a tick ever put the next one off by more than a frame. */
  lemma NextTickIsSoon(start: State, frame: nat, ticks: seq<Tick>, i: nat)
    requires WellTimed(start, frame, ticks) && i < |ticks| && ticks[i].connected
    ensures Due(start, frame, ticks, i + 1) <= ticks[i].resynced + frame
  {
    DueStep(start, frame, ticks, i);
  }

  /** A thread that is on time ticks at the frame rate exactly; one that is more than a frame late starts anew. */
  lemma NextTickExactly(start: State, frame: nat, ticks: seq<Tick>, i: nat)
    requires i < |ticks|
    ensures var (due, next) := (Due(start, frame, ticks, i), Due(start, frame, ticks, i + 1));
            if !ticks[i].connected then next == ticks[i].idle
            else if ticks[i].checked <= due + 2 * frame then next == due + frame
            else next == ticks[i].resynced
  {
    assert ticks[..i + 1][..i] == ticks[..i];
  }

  // ---- Skipping ----

  /** A client is connected and the display gave a frame. */
  predicate ShowsFrame(t: Tick) {
    t.connected && t.display && t.hash.Some?
  }

  /** The frame has the content of the one last taken, under a second ago, and no keyframe is wanted. */
  predicate IsOldNews(last: Option<(int, int)>, t: Tick)
    requires t.hash.Some?
  {
    !t.keyframe && last.Some? && last.value.0 == t.hash.value && t.decided - last.value.1 < 1_000_000_000
  }

  /** Hash and time of the last frame that was offered and that the slot answered with `Accepted`, since
      capture last saw a client connect. */
  function LastAccepted(ticks: seq<Tick>, i: nat): Option<(int, int)>
    requires i <= |ticks|
    decreases i, 0
  {
    if i == 0 || !ticks[i - 1].connected then None
    else if Offered(ticks, i - 1) && ticks[i - 1].answer.Accepted?
    then Some((ticks[i - 1].hash.value, ticks[i - 1].sentAt))
    else LastAccepted(ticks, i - 1)
  }

  /** The tick has a frame and it is news. */
  predicate Offered(ticks: seq<Tick>, i: nat)
    requires i < |ticks|
    decreases i, 1
  {
    ShowsFrame(ticks[i]) && !IsOldNews(LastAccepted(ticks, i), ticks[i])
  }

  /** What a tick comes to, from the inputs alone. */
  function Expected(ticks: seq<Tick>, i: nat): Outcome
    requires i < |ticks|
  {
    var t := ticks[i];
    if !t.connected then Idle
    else if !t.display then NoDisplay
    else if t.hash.None? then NoFrame
    else if !Offered(ticks, i) then Skipped(t.hash.value)
    else match t.answer
      case Accepted => Sent(t.hash.value, t.sentAt)
      case Full => Refused(t.hash.value)
      case Disconnected => Stopped
  }

  /** The remembered hash and time are those of the last frame the slot accepted; a frame that a full slot
      refused is never remembered. */
  lemma {:induction false} HashIsLastAccepted(start: State, frame: int, ticks: seq<Tick>, i: nat)
    requires !start.wasConnected && i <= |ticks|
    ensures var s := After(start, frame, ticks[..i]);
            && (s.wasConnected <==> i > 0 && ticks[i - 1].connected)
            && match LastAccepted(ticks, i)
               case None => s.wasConnected ==> s.lastHash.None?
               case Some((hash, at)) => s.lastHash == Some(hash) && s.lastSent == at
  {
    if i > 0 {
      HashIsLastAccepted(start, frame, ticks, i - 1);
      assert ticks[..i][..i - 1] == ticks[..i - 1];
      assert Offered(ticks, i - 1) <==> ShowsFrame(ticks[i - 1]) && !IsOldNews(LastAccepted(ticks, i - 1), ticks[i - 1]);
    }
  }

  /** In every run each tick comes to exactly what its inputs and the earlier answers of the slot say. */
  lemma OutcomeExactly(start: State, frame: int, ticks: seq<Tick>, i: nat)
    requires !start.wasConnected && i < |ticks|
    ensures OutcomeAt(start, frame, ticks, i) == Expected(ticks, i)
  {
    HashIsLastAccepted(start, frame, ticks, i);
  }

  /** An offered frame is sent, refused or the end exactly as the slot answers. */
  lemma OutcomeIsAnswer(start: State, frame: int, ticks: seq<Tick>, i: nat)
    requires !start.wasConnected && i < |ticks| && Offered(ticks, i)
    ensures var outcome := OutcomeAt(start, frame, ticks, i);
            && (outcome.Sent? <==> ticks[i].answer.Accepted?)
            && (outcome.Refused? <==> ticks[i].answer.Full?)
            && (outcome.Stopped? <==> ticks[i].answer.Disconnected?)
  {
    OutcomeExactly(start, frame, ticks, i);
  }

  /** In every run a tick is skipped exactly when its frame has the content of the last frame the
      slot accepted since the connect, no keyframe is wanted and that was under a second ago. */
  lemma SkipsOnlyWhatWasSent(start: State, frame: int, ticks: seq<Tick>, i: nat)
    requires !start.wasConnected && i < |ticks|
    ensures OutcomeAt(start, frame, ticks, i).Skipped? <==>
            && ticks[i].connected && ticks[i].display && ticks[i].hash.Some? && !ticks[i].keyframe
            && var last := LastAccepted(ticks, i);
               last.Some? && last.value.0 == ticks[i].hash.value && ticks[i].decided - last.value.1 < 1_000_000_000
  {
    OutcomeExactly(start, frame, ticks, i);
  }

  /** Content that differs from what was last accepted when a full slot refused it at tick `j` is offered
      again at every later tick that shows it, until the slot accepts a frame. */
  lemma ChangedContentIsOffered(start: State, frame: int, ticks: seq<Tick>, j: nat, i: nat, h: int)
    requires !start.wasConnected && j < i < |ticks|
    requires ShowsFrame(ticks[j]) && ticks[j].hash == Some(h) && ticks[j].answer.Full?
    requires var last := LastAccepted(ticks, j); last.Some? ==> last.value.0 != h
    requires forall m :: j < m < i ==> ticks[m].connected && !(Offered(ticks, m) && ticks[m].answer.Accepted?)
    requires ShowsFrame(ticks[i]) && ticks[i].hash == Some(h)
    ensures OutcomeAt(start, frame, ticks, j) == Refused(h)
    ensures OutcomeAt(start, frame, ticks, i) ==
            match ticks[i].answer
            case Accepted => Sent(h, ticks[i].sentAt)
            case Full => Refused(h)
            case Disconnected => Stopped
  {
    OutcomeExactly(start, frame, ticks, j);
    LastAcceptedStays(ticks, j, i);
    OutcomeExactly(start, frame, ticks, i);
  }

  lemma {:induction false} LastAcceptedStays(ticks: seq<Tick>, j: nat, i: nat)
    requires j <= i <= |ticks|
    requires forall m :: j <= m < i ==> ticks[m].connected && !(Offered(ticks, m) && ticks[m].answer.Accepted?)
    ensures LastAccepted(ticks, i) == LastAccepted(ticks, j)
  {
    if j < i {
      LastAcceptedStays(ticks, j, i - 1);
    }
  }
}
