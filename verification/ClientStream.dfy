/**
  What one client receives: the frames its receiver accepted since its sink was installed, and
  why they can be decoded from the first keyframe on.
*/
module ClientStream {
  import opened Prelude
  import opened Protocol
  import opened Delivery

  /** The frames accepted for `id` since its sink was last installed anew. */
  function Received(log: seq<Event>, id: SessionId): seq<Frame> {
    if log == [] then []
    else
      var (rest, e) := (log[..|log| - 1], log[|log| - 1]);
      if e.session != id then Received(rest, id)
      else match e
        case Installed(_, anew) => if anew then [] else Received(rest, id)
        case Requested(_) => Received(rest, id)
        case Handed(_, frame, accepted) => if accepted then Received(rest, id) + [frame] else Received(rest, id)
  }

  /** A decoder that starts with nothing can decode all of it. */
  ghost predicate Decodable(frames: seq<Frame>) {
    frames != [] ==>
      frames[0].keyframe && forall k :: 1 <= k < |frames| ==> frames[k].keyframe || Follows(frames[k - 1], frames[k])
  }

  predicate RefusedAt(log: seq<Event>, i: int, id: SessionId) {
    HandedAt(log, i) && log[i].session == id && !log[i].accepted
  }

  /** A receiver that refused a frame never accepts one again. */
  ghost predicate RefusalsLast(log: seq<Event>) {
    log != [] ==>
      var (rest, e) := (log[..|log| - 1], log[|log| - 1]);
      RefusalsLast(rest) && (e.Handed? && e.accepted ==> forall i :: !RefusedAt(rest, i, e.session))
  }

  ghost predicate RefusalInv(s: State) {
    RefusalsLast(s.log) && forall i :: HandedAt(s.log, i) && !s.log[i].accepted ==> s.log[i].session in s.receiversGone
  }

  lemma RefusalAppend(s: State, t: State, e: Event)
    requires RefusalInv(s) && t.log == s.log + [e] && s.receiversGone <= t.receiversGone
    requires e.Handed? ==> e.accepted == (e.session !in s.receiversGone)
    ensures RefusalInv(t)
  {
    Append(s.log, e);
  }

  lemma ReceiversStayGone(s: State, step: Step)
    ensures s.receiversGone <= Next(s, step).receiversGone
  {
  }

  lemma RefusalStep(s: State, step: Step)
    requires RefusalInv(s)
    ensures RefusalInv(Next(s, step))
  {
    var t := Next(s, step);
    ReceiversStayGone(s, step);
    Shape(s, step);
    RefusalShaped(s, step, t);
  }

  lemma RefusalShaped(s: State, step: Step, t: State)
    requires RefusalInv(s) && StepShape(s, step, t) && s.receiversGone <= t.receiversGone
    ensures RefusalInv(t)
  {
    if t.log != s.log {
      match step
      case Connect(id) => RefusalAppend(s, t, Installed(id, s.sink != Some(id)));
      case ForceOnConnect => RefusalAppend(s, t, Requested(s.connecting.session));
      case RequestKeyframe(id) => RefusalAppend(s, t, Requested(id));
      case Send =>
        RefusalAppend(s, t, Handed(s.encoding.to, s.encoding.frame, s.encoding.to !in s.receiversGone));
    }
  }

  lemma {:induction false} RunKeepsRefusals(steps: seq<Step>)
    ensures RefusalInv(Run(steps))
  {
    if steps != [] {
      RunKeepsRefusals(steps[..|steps| - 1]);
      RefusalStep(Run(steps[..|steps| - 1]), steps[|steps| - 1]);
    }
  }

  /** Without a refusal so far the last accepted frame is the last one handed over. */
  lemma {:induction false} LastReceived(log: seq<Event>, id: SessionId)
    requires forall i :: !RefusedAt(log, i, id)
    ensures var got := Received(log, id);
            LastSince(log, id) == if got == [] then None else Some(got[|got| - 1])
  {
    if log != [] {
      var rest := log[..|log| - 1];
      assert !RefusedAt(log, |rest|, id);
      forall i ensures !RefusedAt(rest, i, id) {
        assert !RefusedAt(log, i, id);
      }
      LastReceived(rest, id);
    }
  }

  lemma {:induction false} ReceivedChains(log: seq<Event>, id: SessionId)
    requires LogContinues(log) && RefusalsLast(log)
    ensures var got := Received(log, id);
            forall k :: 1 <= k < |got| ==> got[k].keyframe || Follows(got[k - 1], got[k])
  {
    if log != [] {
      var (rest, e) := (log[..|log| - 1], log[|log| - 1]);
      ReceivedChains(rest, id);
      if e.session == id && e.Handed? && e.accepted {
        LastReceived(rest, id);
        assert Received(log, id) == Received(rest, id) + [e.frame];
        assert Continues(rest, id, e.frame);
      }
    }
  }

  lemma {:induction false} PrefixesToo(log: seq<Event>, i: nat)
    requires LogContinues(log) && RefusalsLast(log) && i <= |log|
    ensures LogContinues(log[..i]) && RefusalsLast(log[..i])
  {
    if i < |log| {
      PrefixesToo(log[..|log| - 1], i);
      assert log[..|log| - 1][..i] == log[..i];
    } else {
      assert log[..i] == log;
    }
  }

  /** In every run and at every moment of it, each client can decode what it received since its sink was
      last installed anew, from any keyframe on, whatever sinks were swapped, encodes failed or encoders
      were rebuilt in between. A session's queue is the sequence of these stretches. */
  lemma StreamIsDecodable(steps: seq<Step>, log: seq<Event>, i: nat, id: SessionId, k: nat)
    requires log == Run(steps).log && i <= |log|
    requires k < |Received(log[..i], id)| && Received(log[..i], id)[k].keyframe
    ensures Decodable(Received(log[..i], id)[k..])
  {
    RunKeepsStreams(steps);
    RunKeepsRefusals(steps);
    PrefixesToo(log, i);
    ReceivedChains(log[..i], id);
  }
}
