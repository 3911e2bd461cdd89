/**
  Splitting an H.264 byte stream into NAL units, and why it inverts the framing of section B.1 of
  Annex B of Recommendation ITU-T H.264.
*/
module Nal {
  import opened Prelude

  /** A three-byte start code at index `i`. */
  predicate CodeAt(s: seq<byte>, i: int) {
    0 <= i && i + 3 <= |s| && s[i] == 0 && s[i + 1] == 0 && s[i + 2] == 1
  }

  ghost predicate HasCode(s: seq<byte>) {
    exists i :: CodeAt(s, i)
  }

  /** Without its trailing zeros. */
  function Trim(s: seq<byte>): seq<byte> {
    if s != [] && s[|s| - 1] == 0 then Trim(s[..|s| - 1]) else s
  }

  // ---- The scanner ----

  /** The payload positions behind the start codes found from index `i` on. */
  function StartsFrom(s: seq<byte>, i: nat): seq<nat>
    decreases |s| - i
  {
    if i + 3 > |s| then []
    else if CodeAt(s, i) then [i + 3] + StartsFrom(s, i + 3)
    else StartsFrom(s, i + 1)
  }

  /** They lie behind codes, in order and with room for a code between any two. */
  ghost predicate BehindCodes(s: seq<byte>, i: nat, starts: seq<nat>) {
    && (forall k :: 0 <= k < |starts| ==> i + 3 <= starts[k] <= |s| && CodeAt(s, starts[k] - 3))
    && (forall j, k :: 0 <= j < k < |starts| ==> starts[j] + 3 <= starts[k])
  }

  lemma OneMoreBehind(s: seq<byte>, i: nat, rest: seq<nat>)
    requires CodeAt(s, i) && BehindCodes(s, i + 3, rest)
    ensures BehindCodes(s, i, [i + 3] + rest)
  {
    var all := [i + 3] + rest;
    forall k | 0 <= k < |all| ensures i + 3 <= all[k] <= |s| && CodeAt(s, all[k] - 3) {
      if k > 0 { assert all[k] == rest[k - 1]; }
    }
    forall j, k | 0 <= j < k < |all| ensures all[j] + 3 <= all[k] {
      assert all[k] == rest[k - 1];
      if j > 0 { assert all[j] == rest[j - 1]; }
    }
  }

  lemma {:induction false} StartsAreBehindCodes(s: seq<byte>, i: nat)
    ensures BehindCodes(s, i, StartsFrom(s, i))
    decreases |s| - i
  {
    if i + 3 <= |s| {
      if CodeAt(s, i) {
        StartsAreBehindCodes(s, i + 3);
        OneMoreBehind(s, i, StartsFrom(s, i + 3));
      } else {
        StartsAreBehindCodes(s, i + 1);
      }
    }
  }

  /** Consecutive positions with room for a start code between them. */
  predicate Spaced(s: seq<byte>, starts: seq<nat>) {
    && (forall k :: 0 <= k < |starts| ==> starts[k] <= |s|)
    && (forall j, k :: 0 <= j < k < |starts| ==> starts[j] + 3 <= starts[k])
  }

  /** The unit that begins at the `k`-th position. */
  function UnitAt(s: seq<byte>, starts: seq<nat>, k: nat): seq<byte>
    requires Spaced(s, starts) && k < |starts|
  {
    if k + 1 < |starts| then Trim(s[starts[k]..starts[k + 1] - 3]) else s[starts[k]..]
  }

  function Slices(s: seq<byte>, starts: seq<nat>): seq<seq<byte>>
    requires Spaced(s, starts)
  {
    seq(|starts|, k requires 0 <= k < |starts| => UnitAt(s, starts, k))
  }

  method FindStarts(annexb: seq<byte>) returns (starts: seq<nat>)
    ensures starts == StartsFrom(annexb, 0)
  {
    starts := [];
    var i := 0;
    while i + 3 <= |annexb|
      invariant starts + StartsFrom(annexb, i) == StartsFrom(annexb, 0)
    {
      if annexb[i] == 0 && annexb[i + 1] == 0 && annexb[i + 2] == 1 {
        RegroupStarts(starts, i + 3, StartsFrom(annexb, i + 3));
        starts := starts + [i + 3];
        i := i + 3;
      } else {
        i := i + 1;
      }
    }
  }

  lemma RegroupStarts(a: seq<nat>, x: nat, b: seq<nat>)
    ensures a + ([x] + b) == a + [x] + b
  {
  }

  /** The unit from `begin` to `end`, without the zeros of a following start code. */
  method CutUnit(annexb: seq<byte>, begin: nat, upTo: nat, last: bool) returns (nal: seq<byte>)
    requires begin <= upTo <= |annexb|
    ensures nal == if last then annexb[begin..upTo] else Trim(annexb[begin..upTo])
  {
    var end := upTo;
    while end > begin && !last && annexb[end - 1] == 0
      invariant begin <= end <= upTo && (last ==> end == upTo)
      invariant Trim(annexb[begin..end]) == Trim(annexb[begin..upTo])
    {
      assert annexb[begin..end][..end - begin - 1] == annexb[begin..end - 1];
      end := end - 1;
    }
    nal := annexb[begin..end];
  }

  method CutUnits(annexb: seq<byte>, starts: seq<nat>) returns (nals: seq<seq<byte>>)
    requires Spaced(annexb, starts)
    ensures nals == Slices(annexb, starts)
  {
    nals := [];
    for k := 0 to |starts|
      invariant |nals| == k
      invariant forall j :: 0 <= j < k ==> nals[j] == UnitAt(annexb, starts, j)
    {
      var last := k + 1 == |starts|;
      var end := |annexb|;
      if !last {
        assert starts[k] + 3 <= starts[k + 1];
        end := starts[k + 1] - 3;
      }
      var nal := CutUnit(annexb, starts[k], end, last);
      nals := nals + [nal];
    }
  }

  method NalUnits(annexb: seq<byte>) returns (nals: seq<seq<byte>>)
    ensures nals == Units(annexb)
  {
    var starts := FindStarts(annexb);
    StartsAreBehindCodes(annexb, 0);
    nals := CutUnits(annexb, starts);
    UnitsAreSlices(annexb);
  }

  // ---- What it computes ----

  /** The first start code. */
  function FirstCode(s: seq<byte>): (i: Option<nat>)
    ensures i.Some? ==> CodeAt(s, i.value) && forall j :: 0 <= j < i.value ==> !CodeAt(s, j)
    ensures i.None? ==> !HasCode(s)
  {
    FirstCodeFrom(s, 0)
  }

  function FirstCodeFrom(s: seq<byte>, k: nat): (i: Option<nat>)
    requires forall j :: 0 <= j < k ==> !CodeAt(s, j)
    ensures i.Some? ==> CodeAt(s, i.value) && forall j :: 0 <= j < i.value ==> !CodeAt(s, j)
    ensures i.None? ==> !HasCode(s)
    decreases |s| - k
  {
    if CodeAt(s, k) then Some(k) else if k + 3 > |s| then None else FirstCodeFrom(s, k + 1)
  }

  /** The units of what follows a start code. */
  function UnitsAfter(s: seq<byte>): seq<seq<byte>>
    decreases |s|
  {
    match FirstCode(s)
    case None => [s]
    case Some(i) => [Trim(s[..i])] + UnitsAfter(s[i + 3..])
  }

  /** The units of a byte stream. */
  function Units(s: seq<byte>): seq<seq<byte>> {
    match FirstCode(s)
    case None => []
    case Some(i) => UnitsAfter(s[i + 3..])
  }

  /** The scanner jumps from one first code to the next. */
  lemma {:induction false} ScanJumps(s: seq<byte>, i: nat, p: nat)
    requires p <= i <= |s| && forall j :: p <= j < i ==> !CodeAt(s, j)
    ensures match FirstCode(s[p..])
            case None => StartsFrom(s, i) == []
            case Some(j) => i <= p + j && StartsFrom(s, i) == [p + j + 3] + StartsFrom(s, p + j + 3)
    decreases |s| - i
  {
    assert forall j :: 0 <= j ==> (CodeAt(s[p..], j) <==> CodeAt(s, p + j));
    if i + 3 > |s| {
    } else if CodeAt(s, i) {
      assert CodeAt(s[p..], i - p);
      var j := FirstCode(s[p..]).value;
      assert CodeAt(s, p + j);
    } else {
      ScanJumps(s, i + 1, p);
    }
  }

  lemma {:induction false} SlicesAfter(s: seq<byte>, p: nat, starts: seq<nat>)
    requires p <= |s| && starts == StartsFrom(s, p) && Spaced(s, [p] + starts)
    ensures Slices(s, [p] + starts) == UnitsAfter(s[p..])
    decreases |s| - p
  {
    ScanJumps(s, p, p);
    match FirstCode(s[p..])
    case None =>
      LastSlice(s, p);
      assert [p] + starts == [p];
    case Some(j) =>
      SpacedTail(s, p, starts);
      SlicesAfter(s, p + j + 3, StartsFrom(s, p + j + 3));
      NextSlice(s, p, j, starts);
  }

  lemma LastSlice(s: seq<byte>, p: nat)
    requires p <= |s| && FirstCode(s[p..]).None?
    ensures Slices(s, [p]) == UnitsAfter(s[p..])
  {
    assert Slices(s, [p]) == [s[p..]];
  }

  lemma NextSlice(s: seq<byte>, p: nat, j: nat, starts: seq<nat>)
    requires p <= |s| && FirstCode(s[p..]) == Some(j) && Spaced(s, [p] + starts)
    requires starts != [] && starts[0] == p + j + 3 && Spaced(s, starts) && Slices(s, starts) == UnitsAfter(s[p + j + 3..])
    ensures Slices(s, [p] + starts) == UnitsAfter(s[p..])
  {
    SlicesShift(s, p, starts);
    UnitsStep(s, p, j);
  }

  lemma SpacedTail(s: seq<byte>, p: nat, starts: seq<nat>)
    requires starts != [] && Spaced(s, [p] + starts)
    ensures Spaced(s, starts) && p + 3 <= starts[0]
  {
    var all := [p] + starts;
    assert all[0] == p && all[1] == starts[0];
    assert forall k :: 0 <= k < |starts| ==> starts[k] == all[k + 1];
  }

  lemma UnitsStep(s: seq<byte>, p: nat, j: nat)
    requires p <= |s| && FirstCode(s[p..]) == Some(j)
    ensures UnitsAfter(s[p..]) == [Trim(s[p..p + j])] + UnitsAfter(s[p + j + 3..])
  {
    var t := s[p..];
    assert t[..j] == s[p..p + j] && t[j + 3..] == s[p + j + 3..];
  }

  lemma SlicesShift(s: seq<byte>, p: nat, starts: seq<nat>)
    requires starts != [] && p + 3 <= starts[0] && Spaced(s, [p] + starts) && Spaced(s, starts)
    ensures Slices(s, [p] + starts) == [Trim(s[p..starts[0] - 3])] + Slices(s, starts)
  {
    var all := [p] + starts;
    assert UnitAt(s, all, 0) == Trim(s[p..starts[0] - 3]);
    forall k | 0 <= k < |starts| ensures UnitAt(s, all, k + 1) == UnitAt(s, starts, k) {
      assert all[k + 1] == starts[k];
    }
  }

  /** The scanner's slices are the units. */
  lemma UnitsAreSlices(s: seq<byte>)
    ensures Spaced(s, StartsFrom(s, 0)) && Slices(s, StartsFrom(s, 0)) == Units(s)
  {
    StartsAreBehindCodes(s, 0);
    ScanJumps(s, 0, 0);
    assert s[0..] == s;
    match FirstCode(s)
    case None =>
    case Some(j) =>
      SlicesAfter(s, j + 3, StartsFrom(s, j + 3));
  }

  // ---- Framing ----

  function Zeros(n: nat): seq<byte> {
    seq(n, _ => 0)
  }

  /** A start code with `n` leading zeros. */
  function StartCode(n: nat): seq<byte> {
    Zeros(n) + [1]
  }

  /** The byte stream of the units, the `k`-th after a start code with `zeros[k]` zeros. */
  function Framed(nals: seq<seq<byte>>, zeros: seq<nat>): seq<byte>
    requires |zeros| == |nals|
  {
    if nals == [] then [] else StartCode(zeros[0]) + nals[0] + Framed(nals[1..], zeros[1..])
  }

  /** Units a byte stream can carry: no start code inside, and only the last may end in zero. */
  ghost predicate Carriable(nals: seq<seq<byte>>) {
    && (forall k :: 0 <= k < |nals| ==> !HasCode(nals[k]))
    && (forall k :: 0 <= k < |nals| - 1 ==> nals[k] == [] || nals[k][|nals[k]| - 1] != 0)
  }

  /** Behind a unit without start codes, the first code is the last two zeros of the next one. */
  lemma FirstCodeBehind(nal: seq<byte>, n: nat, rest: seq<byte>)
    requires !HasCode(nal) && n >= 2
    ensures FirstCode(nal + StartCode(n) + rest) == Some(|nal| + n - 2)
  {
    var s := nal + StartCode(n) + rest;
    var at := |nal| + n - 2;
    assert CodeAt(s, at);
    assert forall j :: j + 3 <= |nal| ==> (CodeAt(s, j) <==> CodeAt(nal, j));
    assert forall j :: 0 <= j < at ==> !CodeAt(s, j);
  }

  lemma {:induction false} TrimZeros(nal: seq<byte>, n: nat)
    requires nal == [] || nal[|nal| - 1] != 0
    ensures Trim(nal + Zeros(n)) == nal
  {
    if n == 0 {
      assert nal + Zeros(0) == nal;
    } else {
      TrimZeros(nal, n - 1);
      assert (nal + Zeros(n))[..|nal| + n - 1] == nal + Zeros(n - 1);
    }
  }

  lemma UnitBehind(nal: seq<byte>, n: nat, rest: seq<byte>)
    requires !HasCode(nal) && n >= 2 && (nal == [] || nal[|nal| - 1] != 0)
    ensures UnitsAfter(nal + StartCode(n) + rest) == [nal] + UnitsAfter(rest)
  {
    FirstCodeBehind(nal, n, rest);
    CutBehind(nal, n, rest);
    TrimZeros(nal, n - 2);
  }

  /** What is before and behind the code that ends in the last zeros of a start code. */
  lemma CutBehind(nal: seq<byte>, n: nat, rest: seq<byte>)
    requires n >= 2
    ensures var (s, j) := (nal + StartCode(n) + rest, |nal| + n - 2);
            s[..j] == nal + Zeros(n - 2) && s[j + 3..] == rest
  {
  }

  lemma {:induction false} UnitsAfterFramed(nals: seq<seq<byte>>, zeros: seq<nat>)
    requires nals != [] && |zeros| == |nals| && Carriable(nals)
    requires forall k :: 0 <= k < |zeros| ==> zeros[k] >= 2
    ensures UnitsAfter(nals[0] + Framed(nals[1..], zeros[1..])) == nals
    decreases |nals|
  {
    var (first, tail, codes) := (nals[0], nals[1..], zeros[1..]);
    assert nals == [first] + tail;
    if tail == [] {
      LastUnit(first);
    } else {
      TailIsCarriable(nals);
      UnitsAfterFramed(tail, codes);
      FramedStep(first, tail, codes);
    }
  }

  lemma LastUnit(nal: seq<byte>)
    requires !HasCode(nal)
    ensures UnitsAfter(nal + Framed([], [])) == [nal]
  {
    assert nal + Framed([], []) == nal;
  }

  lemma TailIsCarriable(nals: seq<seq<byte>>)
    requires |nals| > 1 && Carriable(nals)
    ensures Carriable(nals[1..]) && !HasCode(nals[0]) && (nals[0] == [] || nals[0][|nals[0]| - 1] != 0)
  {
    assert forall k :: 0 <= k < |nals| - 1 ==> nals[1..][k] == nals[k + 1];
  }

  lemma FramedStep(nal: seq<byte>, tail: seq<seq<byte>>, codes: seq<nat>)
    requires tail != [] && |codes| == |tail| && codes[0] >= 2
    requires !HasCode(nal) && (nal == [] || nal[|nal| - 1] != 0)
    ensures UnitsAfter(nal + Framed(tail, codes)) == [nal] + UnitsAfter(tail[0] + Framed(tail[1..], codes[1..]))
  {
    var (more, code) := (Framed(tail[1..], codes[1..]), StartCode(codes[0]));
    Regroup(nal, code, tail[0], more);
    UnitBehind(nal, codes[0], tail[0] + more);
  }

  lemma Regroup(a: seq<byte>, b: seq<byte>, c: seq<byte>, d: seq<byte>)
    ensures a + (b + c + d) == a + b + (c + d)
  {
  }

  lemma UnitsBehindCode(n: nat, rest: seq<byte>)
    requires n >= 2
    ensures Units(StartCode(n) + rest) == UnitsAfter(rest)
  {
    var s := StartCode(n) + rest;
    assert s == [] + StartCode(n) + rest;
    FirstCodeBehind([], n, rest);
    assert s[n - 2 + 3..] == rest;
  }

  /** Splitting inverts framing, for any mix of start codes with at least two zeros. */
  lemma UnitsInvertFraming(nals: seq<seq<byte>>, zeros: seq<nat>)
    requires |zeros| == |nals| && Carriable(nals)
    requires forall k :: 0 <= k < |zeros| ==> zeros[k] >= 2
    ensures Units(Framed(nals, zeros)) == nals
  {
    if nals == [] {
      NothingFramed();
    } else {
      FramedFirst(nals, zeros);
      UnitsBehindCode(zeros[0], nals[0] + Framed(nals[1..], zeros[1..]));
      UnitsAfterFramed(nals, zeros);
    }
  }

  lemma FramedFirst(nals: seq<seq<byte>>, zeros: seq<nat>)
    requires |zeros| == |nals| && nals != []
    ensures Framed(nals, zeros) == StartCode(zeros[0]) + (nals[0] + Framed(nals[1..], zeros[1..]))
  {
    var (b, c, d) := (StartCode(zeros[0]), nals[0], Framed(nals[1..], zeros[1..]));
    assert b + c + d == b + (c + d);
  }

  lemma NothingFramed()
    ensures Units(Framed([], [])) == []
  {
  }

  lemma {:induction false} TrimPrefix(s: seq<byte>)
    ensures Trim(s) <= s && (Trim(s) == [] || Trim(s)[|Trim(s)| - 1] != 0)
  {
    if s != [] && s[|s| - 1] == 0 {
      TrimPrefix(s[..|s| - 1]);
    }
  }

  lemma {:induction false} UnitsAfterCarriable(s: seq<byte>)
    ensures UnitsAfter(s) != [] && Carriable(UnitsAfter(s))
    decreases |s|
  {
    match FirstCode(s)
    case None =>
    case Some(i) =>
      UnitsAfterCarriable(s[i + 3..]);
      UnitBefore(s, i);
      ConsCarriable(Trim(s[..i]), UnitsAfter(s[i + 3..]));
  }

  lemma UnitBefore(s: seq<byte>, i: nat)
    requires i <= |s| && forall j :: 0 <= j < i ==> !CodeAt(s, j)
    ensures var unit := Trim(s[..i]); !HasCode(unit) && (unit == [] || unit[|unit| - 1] != 0)
  {
    var unit := Trim(s[..i]);
    TrimPrefix(s[..i]);
    assert forall j :: CodeAt(unit, j) ==> CodeAt(s, j);
  }

  lemma ConsCarriable(unit: seq<byte>, rest: seq<seq<byte>>)
    requires !HasCode(unit) && (unit == [] || unit[|unit| - 1] != 0) && Carriable(rest)
    ensures Carriable([unit] + rest)
  {
    assert forall k :: 0 < k < |rest| + 1 ==> ([unit] + rest)[k] == rest[k - 1];
  }

  /** Bytes before the first start code are ignored. */
  lemma UnitsBehindPrefix(prefix: seq<byte>, nals: seq<seq<byte>>, zeros: seq<nat>)
    requires |zeros| == |nals| && Carriable(nals) && !HasCode(prefix)
    requires forall k :: 0 <= k < |zeros| ==> zeros[k] >= 2
    ensures Units(prefix + Framed(nals, zeros)) == nals
  {
    if nals == [] {
      assert prefix + Framed(nals, zeros) == prefix;
    } else {
      var rest := nals[0] + Framed(nals[1..], zeros[1..]);
      FramedFirst(nals, zeros);
      var s := prefix + StartCode(zeros[0]) + rest;
      assert prefix + Framed(nals, zeros) == s;
      FirstCodeBehind(prefix, zeros[0], rest);
      assert s[|prefix| + zeros[0] + 1..] == rest;
      UnitsAfterFramed(nals, zeros);
    }
  }

  lemma {:induction false} TrimmedZeros(s: seq<byte>) returns (n: nat)
    ensures s == Trim(s) + Zeros(n)
  {
    n := 0;
    if s != [] && s[|s| - 1] == 0 {
      var k := TrimmedZeros(s[..|s| - 1]);
      n := k + 1;
      assert Zeros(n) == Zeros(k) + [0];
    }
  }

  lemma FrameOfCode(s: seq<byte>, i: nat, unit: seq<byte>, n: nat, units: seq<seq<byte>>, more: seq<nat>)
    requires CodeAt(s, i) && s[..i] == unit + Zeros(n)
    requires units != [] && |more| == |units| - 1 && s[i + 3..] == units[0] + Framed(units[1..], more)
    ensures s == unit + Framed(units, [n + 2] + more)
  {
    SplitAtCode(s, i, unit, n);
    FramedCode(n + 2, units, more, s[i + 3..]);
  }

  lemma FramedCode(n: nat, units: seq<seq<byte>>, more: seq<nat>, rest: seq<byte>)
    requires units != [] && |more| == |units| - 1 && rest == units[0] + Framed(units[1..], more)
    ensures Framed(units, [n] + more) == StartCode(n) + rest
  {
    assert ([n] + more)[1..] == more;
    FramedFirst(units, [n] + more);
  }

  lemma SplitAtCode(s: seq<byte>, i: nat, unit: seq<byte>, n: nat)
    requires CodeAt(s, i) && s[..i] == unit + Zeros(n)
    ensures s == unit + (StartCode(n + 2) + s[i + 3..])
  {
    assert s == s[..i] + [0, 0, 1] + s[i + 3..];
    assert Zeros(n + 2) == Zeros(n) + [0, 0];
  }

  /** `zeros` frames the units of what follows a start code. */
  ghost predicate Frames(s: seq<byte>, units: seq<seq<byte>>, zeros: seq<nat>) {
    && units != [] && |zeros| == |units| - 1
    && (forall k :: 0 <= k < |zeros| ==> zeros[k] >= 2)
    && s == units[0] + Framed(units[1..], zeros)
  }

  /** What follows a start code is the first unit and the framing of the others. */
  lemma {:induction false} FramesOf(s: seq<byte>, units: seq<seq<byte>>) returns (zeros: seq<nat>)
    requires units == UnitsAfter(s)
    ensures Frames(s, units, zeros)
    decreases |s|
  {
    match FirstCode(s)
    case None =>
      zeros := [];
      LoneFrame(s);
    case Some(i) =>
      var (rest, tail) := (s[i + 3..], UnitsAfter(s[i + 3..]));
      assert units == [Trim(s[..i])] + tail;
      var more := FramesOf(rest, tail);
      zeros := FramesBefore(s, i, rest, tail, more);
  }

  lemma LoneFrame(s: seq<byte>)
    ensures Frames(s, [s], [])
  {
    assert s == s + Framed([], []);
  }

  lemma FramesBefore(s: seq<byte>, i: nat, rest: seq<byte>, units: seq<seq<byte>>, more: seq<nat>) returns (zeros: seq<nat>)
    requires CodeAt(s, i) && rest == s[i + 3..] && Frames(rest, units, more)
    ensures Frames(s, [Trim(s[..i])] + units, zeros)
  {
    var n := TrimmedZeros(s[..i]);
    zeros := [n + 2] + more;
    NextFrames(s, i, Trim(s[..i]), n, units, more);
  }

  lemma NextFrames(s: seq<byte>, i: nat, unit: seq<byte>, n: nat, units: seq<seq<byte>>, more: seq<nat>)
    requires CodeAt(s, i) && s[..i] == unit + Zeros(n) && Frames(s[i + 3..], units, more)
    ensures Frames(s, [unit] + units, [n + 2] + more)
  {
    FrameOfCode(s, i, unit, n, units, more);
    assert ([unit] + units)[1..] == units;
  }

  /** The stream is the framing of the units, behind bytes without a start code. */
  ghost predicate Carries(s: seq<byte>, nals: seq<seq<byte>>, prefix: seq<byte>, zeros: seq<nat>) {
    && !HasCode(prefix) && |zeros| == |nals|
    && (forall k :: 0 <= k < |zeros| ==> zeros[k] >= 2)
    && s == prefix + Framed(nals, zeros)
  }

  /** Every stream is the framing of its units, behind bytes without a start code. */
  lemma UnitsAreCarried(s: seq<byte>) returns (prefix: seq<byte>, zeros: seq<nat>)
    ensures Carries(s, Units(s), prefix, zeros)
  {
    match FirstCode(s)
    case None =>
      prefix, zeros := s, [];
      assert s == s + Framed([], []);
    case Some(i) =>
      prefix := s[..i];
      var more := FramesOf(s[i + 3..], UnitsAfter(s[i + 3..]));
      zeros := [2] + more;
      NoCodeBefore(s, i);
      FirstCarries(s, i, s[i + 3..], UnitsAfter(s[i + 3..]), more);
  }

  lemma FirstCarries(s: seq<byte>, i: nat, rest: seq<byte>, units: seq<seq<byte>>, more: seq<nat>)
    requires CodeAt(s, i) && !HasCode(s[..i]) && rest == s[i + 3..] && Frames(rest, units, more)
    ensures Carries(s, units, s[..i], [2] + more)
  {
    FirstFrame(s, i, rest, units, more);
  }

  lemma FirstFrame(s: seq<byte>, i: nat, rest: seq<byte>, units: seq<seq<byte>>, more: seq<nat>)
    requires CodeAt(s, i) && rest == s[i + 3..]
    requires units != [] && |more| == |units| - 1 && rest == units[0] + Framed(units[1..], more)
    ensures s == s[..i] + Framed(units, [2] + more)
  {
    FramedCode(2, units, more, rest);
    SplitAtThree(s, i);
  }

  lemma SplitAtThree(s: seq<byte>, i: nat)
    requires CodeAt(s, i)
    ensures s == s[..i] + (StartCode(2) + s[i + 3..])
  {
    assert StartCode(2) == [0, 0, 1];
    assert s == s[..i] + [0, 0, 1] + s[i + 3..];
  }

  lemma NoCodeBefore(s: seq<byte>, i: nat)
    requires i <= |s| && forall j :: 0 <= j < i ==> !CodeAt(s, j)
    ensures !HasCode(s[..i])
  {
    assert forall j :: CodeAt(s[..i], j) ==> CodeAt(s, j);
  }

  /** Splitting returns a list of units exactly when framing can carry it and the stream is its framing,
      behind bytes without a start code. So every stream is such a framing of one list only. */
  lemma UnitsExactly(s: seq<byte>, nals: seq<seq<byte>>)
    ensures Units(s) == nals <==> Carriable(nals) && exists prefix, zeros :: Carries(s, nals, prefix, zeros)
  {
    if Units(s) == nals {
      CarriableExactly(nals);
      var prefix, zeros := UnitsAreCarried(s);
    }
    if Carriable(nals) && exists prefix, zeros :: Carries(s, nals, prefix, zeros) {
      var prefix, zeros :| Carries(s, nals, prefix, zeros);
      UnitsBehindPrefix(prefix, nals, zeros);
    }
  }

  /** The lists of units that splitting can return are exactly those that framing can carry. */
  lemma CarriableExactly(nals: seq<seq<byte>>)
    ensures Carriable(nals) <==> exists s :: Units(s) == nals
  {
    if Carriable(nals) {
      var zeros := seq(|nals|, _ => 2);
      UnitsInvertFraming(nals, zeros);
    }
    if exists s :: Units(s) == nals {
      var s :| Units(s) == nals;
      if FirstCode(s).Some? {
        UnitsAfterCarriable(s[FirstCode(s).value + 3..]);
      }
    }
  }
}
