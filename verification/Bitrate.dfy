/**
  The encoder's bitrate: the target must never exceed the ceiling, although the two are set by
  separate option calls, either of which can fail.
*/
module Bitrate {
  const U32_MAX: int := 0xFFFF_FFFF
  const I32_MAX: int := 0x7FFF_FFFF
  const MAX_BITRATE_FACTOR: int := 3
  const MIN_KBPS: int := 100

  /** The largest rate whose ceiling in bit/s fits an `i32`. */
  const SAFE_KBPS: int := 715_827

  type u32 = x: int | 0 <= x <= 0xFFFF_FFFF

  /** `saturating_mul` on `u32`. */
  function SaturatingMul(a: u32, b: u32): u32 {
    if a * b <= U32_MAX then a * b else U32_MAX
  }

  /** `i32::try_from(x).unwrap_or(i32::MAX)`. */
  function ClampToI32(x: u32): int {
    if x <= I32_MAX then x else I32_MAX
  }

  /** `x as i32`: the bits reread as two's complement. */
  function CastToI32(x: u32): int {
    if x <= I32_MAX then x else x - U32_MAX - 1
  }

  function TargetBps(kbps: u32): int {
    ClampToI32(SaturatingMul(kbps, 1000))
  }

  function CeilingBps(kbps: u32): int {
    ClampToI32(SaturatingMul(SaturatingMul(kbps, 1000), MAX_BITRATE_FACTOR))
  }

  /** The ceiling as `set_bitrate` recomputes it for its comparison. */
  function ComparedBps(kbps: u32): int {
    CastToI32(SaturatingMul(SaturatingMul(kbps, 1000), MAX_BITRATE_FACTOR))
  }

  /** The encoder's own options and the rate the wrapper believes to be set. */
  datatype Rates = Rates(target: int, ceiling: int, kbps: u32)

  function Fresh(kbps: u32): Rates {
    Rates(TargetBps(kbps), CeilingBps(kbps), kbps)
  }

  /** A request and whether its first and its second option call succeed. */
  datatype Call = Call(kbps: u32, first: bool, second: bool)

  function Wanted(c: Call): u32 {
    if c.kbps < MIN_KBPS then MIN_KBPS else c.kbps
  }

  predicate RaisesFirst(r: Rates, c: Call) {
    CeilingBps(Wanted(c)) > ComparedBps(r.kbps)
  }

  /** The options after the first option call. */
  function Midway(r: Rates, c: Call): Rates {
    if Wanted(c) == r.kbps || !c.first then r
    else if RaisesFirst(r, c) then r.(ceiling := CeilingBps(Wanted(c)))
    else r.(target := TargetBps(Wanted(c)))
  }

  /** The options after the whole call. */
  function Done(r: Rates, c: Call): Rates {
    if Wanted(c) == r.kbps || !c.first || !c.second then Midway(r, c)
    else Fresh(Wanted(c))
  }

  predicate Ordered(r: Rates) {
    r.target <= r.ceiling
  }

  /** `OpenH264Encoder`, as far as its bitrate goes: two encoder options and the wrapper's field. */
  class BitrateControl {
    var target: int
    var ceiling: int
    var bitrateKbps: u32

    ghost function View(): Rates
      reads this
    {
      Rates(target, ceiling, bitrateKbps)
    }

    constructor (kbps: u32)
      ensures View() == Fresh(kbps)
    {
      target, ceiling, bitrateKbps := TargetBps(kbps), CeilingBps(kbps), kbps;
    }

    method SetTarget(bps: int, works: bool) returns (ok: bool)
      modifies this`target
      ensures ok == works && target == if works then bps else old(target)
    {
      ok := works;
      if works {
        target := bps;
      }
    }

    method SetCeiling(bps: int, works: bool) returns (ok: bool)
      modifies this`ceiling
      ensures ok == works && ceiling == if works then bps else old(ceiling)
    {
      ok := works;
      if works {
        ceiling := bps;
      }
    }

    /** `midway` is the state between the two option calls. */
    method SetBitrate(c: Call) returns (ok: bool, ghost midway: Rates)
      modifies this
      ensures midway == Midway(old(View()), c) && View() == Done(old(View()), c)
      ensures ok <==> bitrateKbps == Wanted(c)
    {
      midway := View();
      var kbps := if c.kbps < MIN_KBPS then MIN_KBPS else c.kbps;
      if kbps == bitrateKbps {
        return true, midway;
      }
      var bps := TargetBps(kbps);
      var max := CeilingBps(kbps);
      if max > ComparedBps(bitrateKbps) {
        ok := SetCeiling(max, c.first);
        midway := View();
        if !ok { return; }
        ok := SetTarget(bps, c.second);
      } else {
        ok := SetTarget(bps, c.first);
        midway := View();
        if !ok { return; }
        ok := SetCeiling(max, c.second);
      }
      if ok {
        bitrateKbps := kbps;
      }
    }
  }

  /** The encoder's options after a sequence of calls, some of which failed midway. */
  function Run(start: u32, calls: seq<Call>): Rates {
    if calls == [] then Fresh(start) else Done(Run(start, calls[..|calls| - 1]), calls[|calls| - 1])
  }

  /** What keeps target and ceiling apart although `kbps` may be stale. */
  predicate Bracketed(r: Rates) {
    r.kbps <= SAFE_KBPS && r.target <= 1000 * r.kbps && 3000 * r.kbps <= r.ceiling
  }

  lemma SafeRates(kbps: u32)
    requires kbps <= SAFE_KBPS
    ensures TargetBps(kbps) == 1000 * kbps && CeilingBps(kbps) == ComparedBps(kbps) == 3000 * kbps
  {
  }

  lemma CallKeepsBracket(r: Rates, c: Call)
    requires Bracketed(r) && c.kbps <= SAFE_KBPS
    ensures Bracketed(Done(r, c)) && Ordered(Midway(r, c))
  {
    SafeRates(r.kbps);
    SafeRates(Wanted(c));
  }

  /** `bps` where an `i32` can hold it. */
  function AtMostI32(bps: int): int {
    if bps <= I32_MAX then bps else I32_MAX
  }

  /** A call whose option calls work leaves the rate at the wanted one; when that changed the rate, the
      target is that rate and the ceiling three times it, in bit/s, and after the first option call
      exactly one of them has its new value. */
  lemma WorkingCallSets(r: Rates, c: Call)
    requires c.first && c.second
    ensures var kbps := if c.kbps >= 100 then c.kbps else 100;
            var (target, ceiling) := (AtMostI32(1000 * kbps), AtMostI32(3000 * kbps));
            if kbps == r.kbps then Midway(r, c) == Done(r, c) == r
            else && Done(r, c) == Rates(target, ceiling, kbps)
                 && (Midway(r, c) == r.(target := target) || Midway(r, c) == r.(ceiling := ceiling))
  {
  }

  /** A call that fails keeps the rate: a failing first option call changes nothing, and a failing second
      one leaves what the first has changed. */
  lemma FailedCallKeeps(r: Rates, c: Call)
    requires !(c.first && c.second)
    ensures Done(r, c) == (if c.first then Midway(r, c.(second := true)) else r)
    ensures Done(r, c).kbps == r.kbps
  {
  }

  /** In every run of working calls the encoder's options are those of the rate last asked for, or
      those of 100 kbit/s if that is more. */
  lemma {:induction false} LastRateIsSet(start: u32, calls: seq<Call>)
    requires forall i :: 0 <= i < |calls| ==> calls[i].first && calls[i].second
    ensures var kbps := if calls == [] then start else if calls[|calls| - 1].kbps >= 100 then calls[|calls| - 1].kbps else 100;
            Run(start, calls) == Rates(AtMostI32(1000 * kbps), AtMostI32(3000 * kbps), kbps)
  {
    if calls != [] {
      LastRateIsSet(start, calls[..|calls| - 1]);
      WorkingCallSets(Run(start, calls[..|calls| - 1]), calls[|calls| - 1]);
    }
  }

  /** For all rates up to 715827 kbit/s the target stays at or below the ceiling after every single
      option call of every run, whichever calls fail. */
  lemma {:induction false} TargetNeverExceedsCeiling(start: u32, calls: seq<Call>, c: Call)
    requires start <= SAFE_KBPS && c.kbps <= SAFE_KBPS
    requires forall i :: 0 <= i < |calls| ==> calls[i].kbps <= SAFE_KBPS
    ensures Bracketed(Run(start, calls))
    ensures Ordered(Run(start, calls)) && Ordered(Midway(Run(start, calls), c)) && Ordered(Done(Run(start, calls), c))
  {
    if calls == [] {
      SafeRates(start);
    } else {
      TargetNeverExceedsCeiling(start, calls[..|calls| - 1], calls[|calls| - 1]);
      CallKeepsBracket(Run(start, calls[..|calls| - 1]), calls[|calls| - 1]);
    }
    CallKeepsBracket(Run(start, calls), c);
  }

  /** Beyond that rate the comparison wraps around: a call that works from a settled rate keeps
      the order throughout exactly when the settled rate is safe, unchanged, or its target is no
      higher than the new ceiling. */
  lemma OrderedExactly(settled: u32, kbps: u32)
    ensures var c := Call(kbps, true, true);
            Ordered(Midway(Fresh(settled), c)) <==>
            settled <= SAFE_KBPS || Wanted(c) == settled || TargetBps(settled) <= CeilingBps(Wanted(c))
  {
  }

  /** A configured 800 Mbit/s lowered to 200 kbit/s passes through a ceiling below the target. */
  lemma WrappedComparisonBreaksOrder()
    ensures !Ordered(Midway(Fresh(800_000), Call(200, true, true)))
  {
    OrderedExactly(800_000, 200);
  }
}
