/**
  The client's decode thread: when it gives up on the hardware decoder, and when it asks the
  server for a keyframe. What a decoder does with an access unit is an input.
*/
module DecoderFallback {
  import opened Prelude

  const HW_FAILURE_LIMIT: nat := 8
  const REQUEST_INTERVAL: int := 200

  datatype Result = Fine | Corrupt | Fatal

  /** One access unit: its time in milliseconds, what decoding it returns, how many pictures it
      yields, whether the stream makes a hardware decoder switch to software internally, and
      whether a software decoder could be created now. */
  datatype Unit = Unit(at: int, result: Result, pictures: nat, rejected: bool, software: bool)

  /** A decoder instance; `Broken` stands in when none could be created. */
  datatype Decoder =
    | Working(id: nat, hardware: bool, fellBack: bool, pictures: nat)
    | Broken
  {
    predicate IsHardware() {
      Working? && hardware && !fellBack
    }

    /** The instance after it decoded a unit. */
    function Fed(u: Unit): Decoder {
      match this
      case Broken => Broken
      case Working(id, hw, fell, n) => Working(id, hw, fell || (hw && u.rejected), n + u.pictures)
    }

    function Verdict(u: Unit): Result {
      if Broken? then Fatal else u.result
    }
  }

  datatype State = State(decoder: Decoder, made: nat, hwFailures: nat, lastRequest: int, requests: seq<int>, running: bool)

  function Start(hardware: bool, now: int): State {
    State(Working(0, hardware, false, 0), 1, 0, now - 1000, [], true)
  }

  function Requesting(s: State, at: int): State {
    if at - s.lastRequest >= REQUEST_INTERVAL
    then s.(requests := s.requests + [at], lastRequest := at)
    else s
  }

  /** A software decoder takes over, or nothing does. */
  function Fallback(s: State, software: bool): State {
    if software then s.(decoder := Working(s.made, false, false, 0), made := s.made + 1)
    else s.(decoder := Broken)
  }

  /** One iteration of the decode loop. */
  function Handle(s: State, u: Unit): State {
    if !s.running then s
    else
      var fed := s.(decoder := s.decoder.Fed(u));
      match s.decoder.Verdict(u)
      case Fine => fed.(hwFailures := 0)
      case Corrupt =>
        var r := Requesting(fed, u.at);
        if !(r.decoder.IsHardware() && r.decoder.pictures == 0) then r
        else if r.hwFailures + 1 < HW_FAILURE_LIMIT then r.(hwFailures := r.hwFailures + 1)
        else Fallback(r, u.software).(hwFailures := 0)
      case Fatal =>
        var r := Requesting(fed, u.at);
        if r.decoder.IsHardware() || u.software then Fallback(r, u.software)
        else r.(running := false)
  }

  /** `run` with its locals as fields. */
  class DecodeThread {
    var decoder: Decoder
    var made: nat
    var hwFailures: nat
    var lastRequest: int
    var requests: seq<int>
    var running: bool

    ghost function View(): State
      reads this
    {
      State(decoder, made, hwFailures, lastRequest, requests, running)
    }

    constructor (hardware: bool, now: int)
      ensures View() == Start(hardware, now)
    {
      decoder, made, hwFailures := Working(0, hardware, false, 0), 1, 0;
      lastRequest, requests, running := now - 1000, [], true;
    }

    method RequestKeyframe(at: int)
      modifies this`requests, this`lastRequest
      ensures View() == Requesting(old(View()), at)
    {
      if at - lastRequest >= REQUEST_INTERVAL {
        requests := requests + [at];
        lastRequest := at;
      }
    }

    method FallbackToSoftware(software: bool)
      modifies this`decoder, this`made
      ensures View() == Fallback(old(View()), software)
    {
      if software {
        decoder := Working(made, false, false, 0);
        made := made + 1;
      } else {
        decoder := Broken;
      }
    }

    method HandleUnit(u: Unit)
      requires running
      modifies this
      ensures View() == Handle(old(View()), u)
    {
      var verdict := decoder.Verdict(u);
      decoder := decoder.Fed(u);
      match verdict {
        case Fine => hwFailures := 0;
        case Corrupt =>
          RequestKeyframe(u.at);
          if decoder.IsHardware() && decoder.pictures == 0 {
            hwFailures := hwFailures + 1;
            if hwFailures >= HW_FAILURE_LIMIT {
              FallbackToSoftware(u.software);
              hwFailures := 0;
            }
          }
        case Fatal =>
          RequestKeyframe(u.at);
          if decoder.IsHardware() {
            FallbackToSoftware(u.software);
          } else if u.software {
            FallbackToSoftware(true);
          } else {
            running := false;
          }
      }
    }
  }

  // ---- Runs ----

  function After(start: State, units: seq<Unit>): State {
    if units == [] then start else Handle(After(start, units[..|units| - 1]), units[|units| - 1])
  }

  /** How many units at the end of the sequence were corrupt. */
  function TrailingCorrupt(units: seq<Unit>): (n: nat)
    ensures n <= |units|
    ensures forall i :: |units| - n <= i < |units| ==> units[i].result.Corrupt?
    ensures n < |units| ==> !units[|units| - 1 - n].result.Corrupt?
  {
    if units == [] || !units[|units| - 1].result.Corrupt? then 0
    else 1 + TrailingCorrupt(units[..|units| - 1])
  }

  /** While the hardware decoder is in use it is the first decoder, and until it made a picture
      the counter is the number of corrupt units since the last good one. */
  predicate HardwareInv(s: State, units: seq<Unit>) {
    && s.hwFailures < HW_FAILURE_LIMIT
    && s.made >= 1
    && (s.decoder.IsHardware() ==> s.running && s.decoder.id == 0)
    && (s.decoder.IsHardware() && s.decoder.pictures == 0 ==> s.hwFailures == TrailingCorrupt(units))
  }

  lemma HandleKeeps(s: State, units: seq<Unit>, u: Unit)
    requires HardwareInv(s, units)
    ensures HardwareInv(Handle(s, u), units + [u])
  {
    assert (units + [u])[..|units|] == units;
    var fed := s.decoder.Fed(u);
    if fed.IsHardware() && fed.pictures == 0 {
      assert s.decoder.IsHardware() && s.decoder.pictures == 0;
    }
  }

  /** In every run the failure counter is below the limit at the loop head, and is the exact count
      of consecutive failures as long as it can matter. */
  lemma {:induction false} RunKeepsHardwareInv(hardware: bool, now: int, units: seq<Unit>)
    ensures HardwareInv(After(Start(hardware, now), units), units)
  {
    if units != [] {
      var rest := units[..|units| - 1];
      RunKeepsHardwareInv(hardware, now, rest);
      HandleKeeps(After(Start(hardware, now), rest), rest, units[|units| - 1]);
      assert rest + [units[|units| - 1]] == units;
    }
  }

  /** Hardware decoding, once lost, never comes back. */
  lemma {:induction false} HardwareNeverReturns(hardware: bool, now: int, units: seq<Unit>, i: nat)
    requires i <= |units| && !After(Start(hardware, now), units[..i]).decoder.IsHardware()
    ensures !After(Start(hardware, now), units).decoder.IsHardware()
  {
    if i < |units| {
      var rest := units[..|units| - 1];
      assert rest[..i] == units[..i];
      HardwareNeverReturns(hardware, now, rest, i);
    } else {
      assert units[..i] == units;
    }
  }

  /** The hardware decoder is replaced at a unit exactly when the unit is fatal, or when it is the
      eighth corrupt one in a row and no picture was ever made. So a count-triggered fallback
      means eight failures of one decoder, and after a picture only a fatal error counts. */
  lemma HardwareReplacedExactly(hardware: bool, now: int, units: seq<Unit>, u: Unit)
    requires After(Start(hardware, now), units).decoder.IsHardware()
    requires After(Start(hardware, now), units).decoder.Fed(u).IsHardware()
    ensures var (s, t) := (After(Start(hardware, now), units), After(Start(hardware, now), units + [u]));
            t.decoder != s.decoder.Fed(u) <==>
            || u.result.Fatal?
            || (TrailingCorrupt(units + [u]) == 8 && s.decoder.pictures + u.pictures == 0)
  {
    RunKeepsHardwareInv(hardware, now, units);
    assert (units + [u])[..|units|] == units;
  }

  /** The unit fails for good: its result is fatal, or there is no decoder to give it to. */
  predicate FailsForGood(s: State, u: Unit) {
    u.result.Fatal? || s.decoder.Broken?
  }

  /** In every run the thread stops at a unit exactly when the unit fails for good, the decoder does not
      decode in hardware after it, and no software decoder can be created. */
  lemma StopsExactly(hardware: bool, now: int, units: seq<Unit>, u: Unit)
    requires After(Start(hardware, now), units).running
    ensures var (s, t) := (After(Start(hardware, now), units), After(Start(hardware, now), units + [u]));
            !t.running <==> FailsForGood(s, u) && !s.decoder.Fed(u).IsHardware() && !u.software
  {
    assert (units + [u])[..|units|] == units;
  }

  /** A decoder that does not decode in hardware after a unit is replaced exactly when the unit fails for
      good and a software decoder can be created. */
  lemma SoftwareReplacedExactly(hardware: bool, now: int, units: seq<Unit>, u: Unit)
    requires After(Start(hardware, now), units).running
    requires !After(Start(hardware, now), units).decoder.Fed(u).IsHardware()
    ensures var (s, t) := (After(Start(hardware, now), units), After(Start(hardware, now), units + [u]));
            t.decoder != s.decoder.Fed(u) <==> FailsForGood(s, u) && u.software
  {
    IdsAreUsed(hardware, now, units);
    assert (units + [u])[..|units|] == units;
  }

  /** Whatever replaces a decoder is a new software decoder that has made no picture if one can be created,
      and the broken stand-in otherwise; the thread goes on. */
  lemma SoftwareTakesOver(hardware: bool, now: int, units: seq<Unit>, u: Unit)
    requires var (s, t) := (After(Start(hardware, now), units), After(Start(hardware, now), units + [u]));
             s.running && t.decoder != s.decoder.Fed(u)
    ensures var (s, t) := (After(Start(hardware, now), units), After(Start(hardware, now), units + [u]));
            && t.running
            && if u.software then t.decoder.Working? && !t.decoder.hardware && t.decoder.pictures == 0 && IsNew(t.decoder, s)
               else t.decoder.Broken?
  {
    assert (units + [u])[..|units|] == units;
    IdsAreUsed(hardware, now, units);
  }

  /** The instance was made after every earlier one. */
  predicate IsNew(d: Decoder, s: State)
    requires d.Working?
  {
    d.id >= s.made && (s.decoder.Working? ==> d.id > s.decoder.id)
  }

  lemma {:induction false} IdsAreUsed(hardware: bool, now: int, units: seq<Unit>)
    ensures var s := After(Start(hardware, now), units); s.decoder.Working? ==> s.decoder.id < s.made
  {
    if units != [] {
      IdsAreUsed(hardware, now, units[..|units| - 1]);
    }
  }

  /** As long as software decoders can be created, there is a working decoder and the thread runs. */
  lemma {:induction false} DecodingGoesOn(hardware: bool, now: int, units: seq<Unit>)
    requires forall i :: 0 <= i < |units| ==> units[i].software
    ensures After(Start(hardware, now), units).running && After(Start(hardware, now), units).decoder.Working?
  {
    if units != [] {
      DecodingGoesOn(hardware, now, units[..|units| - 1]);
    }
  }

  /** All pictures of a sequence of units. */
  function Pictures(units: seq<Unit>): nat {
    if units == [] then 0 else Pictures(units[..|units| - 1]) + units[|units| - 1].pictures
  }

  /** A hardware decoder in use has made all the pictures of the run. */
  lemma {:induction false} HardwareMadeThemAll(hardware: bool, now: int, units: seq<Unit>)
    requires After(Start(hardware, now), units).decoder.IsHardware()
    ensures After(Start(hardware, now), units).decoder.pictures == Pictures(units)
  {
    if units != [] {
      RunKeepsHardwareInv(hardware, now, units[..|units| - 1]);
      HardwareMadeThemAll(hardware, now, units[..|units| - 1]);
    }
  }

  /** A hardware decoder that never made a picture was fed every unit of the run. */
  lemma {:induction false} SameDecoderThroughout(hardware: bool, now: int, units: seq<Unit>, i: nat)
    requires i <= |units| && After(Start(hardware, now), units).decoder.IsHardware()
    ensures var (s, t) := (After(Start(hardware, now), units[..i]), After(Start(hardware, now), units));
            s.decoder.IsHardware() && s.decoder.id == t.decoder.id && s.decoder.pictures <= t.decoder.pictures
  {
    if i < |units| {
      var rest := units[..|units| - 1];
      assert rest[..i] == units[..i];
      SameDecoderThroughout(hardware, now, rest, i);
    } else {
      assert units[..i] == units;
    }
  }

  // ---- Keyframe requests ----

  ghost predicate Spaced(s: State, now: int) {
    && (forall i :: 0 < i < |s.requests| ==> s.requests[i] - s.requests[i - 1] >= 200)
    && (s.requests != [] ==> s.requests[|s.requests| - 1] == s.lastRequest)
    && s.lastRequest <= now
  }

  predicate InTime(units: seq<Unit>, now: int) {
    && (forall i :: 0 <= i < |units| ==> now <= units[i].at)
    && (forall i, j :: 0 <= i < j < |units| ==> units[i].at <= units[j].at)
  }

  lemma HandleThrottles(s: State, now: int, u: Unit)
    requires Spaced(s, now) && now <= u.at && (s.requests == [] ==> s.lastRequest <= u.at - 1000)
    ensures Spaced(Handle(s, u), u.at)
    ensures s.running && !s.decoder.Verdict(u).Fine? ==> Requested(Handle(s, u), u.at)
  {
  }

  /** A request was made less than 200 ms ago. */
  predicate Requested(s: State, at: int) {
    s.requests != [] && at - s.requests[|s.requests| - 1] < 200
  }

  /** Requests are at least 200 ms apart, and every unit that fails while the thread runs comes
      less than 200 ms after a request or makes one. */
  lemma {:induction false} RequestsAreThrottled(hardware: bool, now: int, units: seq<Unit>, u: Unit)
    requires InTime(units + [u], now)
    ensures var s := After(Start(hardware, now), units);
            && Spaced(s, u.at) && Spaced(Handle(s, u), u.at)
            && (s.running && !s.decoder.Verdict(u).Fine? ==> Requested(Handle(s, u), u.at))
  {
    var s := After(Start(hardware, now), units);
    FirstRequest(hardware, now, units);
    LaterInTime(units, now, u);
    if units != [] {
      var (rest, last) := (units[..|units| - 1], units[|units| - 1]);
      assert rest + [last] == units;
      RequestsAreThrottled(hardware, now, rest, last);
    }
    assert Spaced(s, u.at);
    HandleThrottles(s, u.at, u);
  }

  /** A unit makes one request, at its time, exactly when it fails while the thread runs and the last
      request is at least 200 ms ago; otherwise it makes none. */
  lemma RequestsExactly(hardware: bool, now: int, units: seq<Unit>, u: Unit)
    requires InTime(units + [u], now)
    ensures var (s, t) := (After(Start(hardware, now), units), After(Start(hardware, now), units + [u]));
            t.requests == if s.running && !s.decoder.Verdict(u).Fine? && !Requested(s, u.at)
                          then s.requests + [u.at] else s.requests
  {
    RequestsAreThrottled(hardware, now, units, u);
    FirstRequest(hardware, now, units);
    LaterInTime(units, now, u);
    assert (units + [u])[..|units|] == units;
  }

  lemma LaterInTime(units: seq<Unit>, now: int, u: Unit)
    requires InTime(units + [u], now)
    ensures InTime(units, now) && now <= u.at && (units != [] ==> units[|units| - 1].at <= u.at)
  {
    var all := units + [u];
    assert all[|units|] == u && forall i :: 0 <= i < |units| ==> all[i] == units[i];
    assert units != [] ==> all[|units| - 1].at <= all[|units|].at;
  }

  /** Nothing was requested only while `lastRequest` still is its initial, long past value. */
  lemma {:induction false} FirstRequest(hardware: bool, now: int, units: seq<Unit>)
    ensures var s := After(Start(hardware, now), units); s.requests == [] ==> s.lastRequest == now - 1000
  {
    if units != [] {
      FirstRequest(hardware, now, units[..|units| - 1]);
    }
  }
}
