/**
  Presentation and pointer of the client window: the size a picture is scaled to, where it is
  drawn, and which coordinates the cursor sends. Floating-point values are exact reals here.
*/
module View {
  import opened Prelude

  /** A `0x00RRGGBB` pixel. */
  type Rgb = x: int | 0 <= x < 0x1_0000_0000

  datatype RgbFrame = RgbFrame(width: nat, height: nat, pixels: seq<Rgb>)
  {
    /** There are enough pixels for all rows. */
    predicate Valid() {
      RowStart(width, height) <= |pixels|
    }
  }

  function Min(a: nat, b: nat): nat {
    if a < b then a else b
  }

  function Max(a: nat, b: nat): nat {
    if a < b then b else a
  }

  /** `round` of a non-negative number: half goes up. */
  function Round(x: real): (n: nat)
    requires x >= 0.0
    ensures x - 0.5 < n as real <= x + 0.5
  {
    (x + 0.5).Floor
  }

  // ---- fit_aspect ----

  function Scale(tw: nat, th: nat, sw: nat, sh: nat): (s: real)
    requires tw > 0 && th > 0 && sw > 0 && sh > 0
    ensures s >= 0.0
  {
    var a := tw as real / sw as real;
    var b := th as real / sh as real;
    if a < b then a else b
  }

  /** One side of the scaled picture, clamped to the window and at least 2. */
  function Side(exact: real, limit: nat): (n: nat)
    requires exact >= 0.0 && limit > 0
    ensures n >= 2
  {
    Max(2, Min(limit, Max(1, Round(exact))))
  }

  /** The source's sides times the scale, before rounding. */
  function Scaled(tw: nat, th: nat, sw: nat, sh: nat): (e: (real, real))
    requires tw > 0 && th > 0 && sw > 0 && sh > 0
    ensures e.0 >= 0.0 && e.1 >= 0.0
  {
    var scale := Scale(tw, th, sw, sh);
    (sw as real * scale, sh as real * scale)
  }

  function Fit(tw: nat, th: nat, sw: nat, sh: nat): (nat, nat)
    requires tw > 0 && th > 0 && sw > 0 && sh > 0
  {
    var e := Scaled(tw, th, sw, sh);
    (Side(e.0, tw), Side(e.1, th))
  }

  function FitAspect(target: (nat, nat), src: (nat, nat)): (nat, nat) {
    Fit(Max(1, target.0), Max(1, target.1), Max(1, src.0), Max(1, src.1))
  }

  lemma ScaleMeets(tw: nat, th: nat, sw: nat, sh: nat)
    requires tw > 0 && th > 0 && sw > 0 && sh > 0
    ensures var s := Scale(tw, th, sw, sh);
            && sw as real * s <= tw as real && sh as real * s <= th as real
            && (sw as real * s == tw as real || sh as real * s == th as real)
  {
    var (a, b) := (tw as real / sw as real, th as real / sh as real);
    assert sw as real * a == tw as real && sh as real * b == th as real;
    if a < b {
      assert sh as real * a <= sh as real * b;
    } else {
      assert sw as real * b <= sw as real * a;
    }
  }

  /** The scaled picture fits the window exactly when the window is at least 2x2, and then it
      touches the window on one axis. */
  lemma FitsAndTouches(target: (nat, nat), src: (nat, nat))
    ensures var (w, h) := FitAspect(target, src);
            && (w <= target.0 && h <= target.1 <==> target.0 >= 2 && target.1 >= 2)
            && (target.0 >= 2 && target.1 >= 2 ==> w == target.0 || h == target.1)
  {
    ScaleMeets(Max(1, target.0), Max(1, target.1), Max(1, src.0), Max(1, src.1));
  }

  /** Half a pixel at most was rounded away, unless the length rounds to less than the minimum of 2. */
  predicate RoundedSide(n: nat, exact: real) {
    (n == 2 && exact < 1.5) || exact - 0.5 < n as real <= exact + 0.5
  }

  /** A side is the scaled length up to half a pixel, and 2 when that is less. */
  lemma SideIsRounded(exact: real, limit: nat)
    requires exact >= 0.0 && limit >= 2 && exact <= limit as real
    ensures RoundedSide(Side(exact, limit), exact)
  {
  }

  lemma SameScale(a: real, b: real, s: real)
    ensures a * s * b == b * s * a
  {
  }

  lemma PositiveFit(target: (nat, nat), src: (nat, nat))
    requires target.0 > 0 && target.1 > 0 && src.0 > 0 && src.1 > 0
    ensures FitAspect(target, src) == Fit(target.0, target.1, src.0, src.1)
  {
    assert Max(1, target.0) == target.0 && Max(1, target.1) == target.1;
    assert Max(1, src.0) == src.0 && Max(1, src.1) == src.1;
  }

  /** The largest rectangle of the source's aspect ratio that fits the window. */
  ghost predicate BestFit(tw: nat, th: nat, sw: nat, sh: nat, x: real, y: real) {
    && x * sh as real == y * sw as real
    && x <= tw as real && y <= th as real
    && (x == tw as real || y == th as real)
  }

  lemma ScaledIsBestFit(tw: nat, th: nat, sw: nat, sh: nat)
    requires tw > 0 && th > 0 && sw > 0 && sh > 0
    ensures var e := Scaled(tw, th, sw, sh); BestFit(tw, th, sw, sh, e.0, e.1)
  {
    ScaleMeets(tw, th, sw, sh);
    SameScale(sw as real, sh as real, Scale(tw, th, sw, sh));
  }

  /** The sides are those of the best fit, each rounded. */
  lemma KeepsAspect(tw: nat, th: nat, sw: nat, sh: nat) returns (x: real, y: real)
    requires tw >= 2 && th >= 2 && sw > 0 && sh > 0
    ensures BestFit(tw, th, sw, sh, x, y)
    ensures RoundedSide(FitAspect((tw, th), (sw, sh)).0, x) && RoundedSide(FitAspect((tw, th), (sw, sh)).1, y)
  {
    var e := Scaled(tw, th, sw, sh);
    ScaledIsBestFit(tw, th, sw, sh);
    PositiveFit((tw, th), (sw, sh));
    x, y := e.0, e.1;
    SideIsRounded(x, tw);
    SideIsRounded(y, th);
  }

  // ---- blit ----

  /** Where a side of length `inner` starts when centred in `outer`: an odd pixel goes after it. */
  function Centred(outer: nat, inner: nat): (start: nat)
    requires inner <= outer
    ensures var after := outer - inner - start; start <= after <= start + 1
  {
    (outer - inner) / 2
  }

  /** The `y`-th of the rows of width `w` that a buffer consists of. */
  function Row(d: seq<Rgb>, w: nat, y: nat): seq<Rgb>
    requires RowStart(w, y) + w <= |d|
  {
    d[RowStart(w, y)..RowStart(w, y) + w]
  }

  function Black(n: nat): seq<Rgb> {
    seq(n, _ => 0)
  }

  /** The part of row `py` of the frame that is visible in a window of width `w`. */
  function Visible(f: RgbFrame, w: nat, py: nat): (r: seq<Rgb>)
    requires f.Valid() && py < f.height
    ensures |r| == Min(f.width, w)
  {
    RowsApart(f.width, py, f.height);
    var cw := Min(f.width, w);
    Row(f.pixels, f.width, py)[Centred(f.width, cw)..Centred(f.width, cw) + cw]
  }

  /** What row `y` of a `w` x `h` window shows: the frame centred between black bars, clipped
      around its centre where it is larger than the window. */
  function ShownRow(f: RgbFrame, w: nat, h: nat, y: nat): (r: seq<Rgb>)
    requires f.Valid()
    ensures |r| == w
  {
    var (cw, ch) := (Min(f.width, w), Min(f.height, h));
    var (x0, y0) := (Centred(w, cw), Centred(h, ch));
    if y0 <= y < y0 + ch
    then Black(x0) + Visible(f, w, Centred(f.height, ch) + y - y0) + Black(w - x0 - cw)
    else Black(w)
  }

  ghost predicate RowShown(f: RgbFrame, w: nat, h: nat, d: seq<Rgb>, y: nat)
    requires f.Valid()
  {
    RowStart(w, y) + w <= |d| && Row(d, w, y) == ShownRow(f, w, h, y)
  }

  ghost predicate RowBlack(w: nat, d: seq<Rgb>, y: nat) {
    RowStart(w, y) + w <= |d| && Row(d, w, y) == Black(w)
  }

  /** The frame coordinate that the window coordinate `z` shows when a frame side of length `inner` is
      centred in a window side of length `outer`, or clipped around its centre. */
  function FrameCoordinate(z: nat, outer: nat, inner: nat): int {
    if inner <= outer then z - (outer - inner) / 2 else z + (inner - outer) / 2
  }

  lemma CoordinateIsCentred(z: nat, outer: nat, inner: nat, c: nat, at: int)
    requires z < outer && c == Min(inner, outer) && at == FrameCoordinate(z, outer, inner)
    ensures 0 <= at < inner <==> Centred(outer, c) <= z < Centred(outer, c) + c
    ensures at == Centred(inner, c) + z - Centred(outer, c)
  {
  }

  /** Every window pixel shows the frame pixel at its frame coordinates, and black where there is none. */
  lemma PixelShown(f: RgbFrame, w: nat, h: nat, d: seq<Rgb>, x: nat, y: nat, fx: int, fy: int)
    requires f.Valid() && x < w && y < h && RowShown(f, w, h, d, y)
    requires fx == FrameCoordinate(x, w, f.width) && fy == FrameCoordinate(y, h, f.height)
    ensures RowStart(w, y) + x < |d|
    ensures if 0 <= fx < f.width && 0 <= fy < f.height
            then RowStart(f.width, fy) + fx < |f.pixels| && d[RowStart(w, y) + x] == f.pixels[RowStart(f.width, fy) + fx]
            else d[RowStart(w, y) + x] == 0
  {
    var shown := ShownRow(f, w, h, y);
    RowPixel(d, w, y, x, shown);
    ShownRowIs(f, w, h, y, fy, shown);
    if 0 <= fy < f.height {
      ColumnShown(f, w, x, fy, fx, shown);
    }
  }

  lemma RowPixel(d: seq<Rgb>, w: nat, y: nat, x: nat, shown: seq<Rgb>)
    requires x < w && RowStart(w, y) + w <= |d| && Row(d, w, y) == shown
    ensures d[RowStart(w, y) + x] == shown[x]
  {
  }

  lemma ShownRowIs(f: RgbFrame, w: nat, h: nat, y: nat, fy: int, shown: seq<Rgb>)
    requires f.Valid() && y < h && fy == FrameCoordinate(y, h, f.height) && shown == ShownRow(f, w, h, y)
    ensures var (cw, x0) := (Min(f.width, w), Centred(w, Min(f.width, w)));
            shown == if 0 <= fy < f.height then Black(x0) + Visible(f, w, fy) + Black(w - x0 - cw) else Black(w)
  {
    CoordinateIsCentred(y, h, f.height, Min(f.height, h), fy);
  }

  /** The same within a window row that shows the frame row `fy`. */
  lemma ColumnShown(f: RgbFrame, w: nat, x: nat, fy: nat, fx: int, shown: seq<Rgb>)
    requires f.Valid() && x < w && fy < f.height && fx == FrameCoordinate(x, w, f.width)
    requires var (cw, x0) := (Min(f.width, w), Centred(w, Min(f.width, w)));
             shown == Black(x0) + Visible(f, w, fy) + Black(w - x0 - cw)
    ensures |shown| == w
    ensures if 0 <= fx < f.width
            then RowStart(f.width, fy) + fx < |f.pixels| && shown[x] == f.pixels[RowStart(f.width, fy) + fx]
            else shown[x] == 0
  {
    var cw := Min(f.width, w);
    CoordinateIsCentred(x, w, f.width, cw, fx);
    if 0 <= fx < f.width {
      BetweenBars(Visible(f, w, fy), w, Centred(w, cw), x);
      VisibleAt(f, w, fy, fx, x - Centred(w, cw));
    }
  }

  lemma VisibleAt(f: RgbFrame, w: nat, fy: nat, fx: nat, k: nat)
    requires f.Valid() && fy < f.height && k < Min(f.width, w) && fx == Centred(f.width, Min(f.width, w)) + k
    ensures RowStart(f.width, fy) + fx < |f.pixels| && Visible(f, w, fy)[k] == f.pixels[RowStart(f.width, fy) + fx]
  {
    VisibleSlice(f, w, fy);
  }

  lemma BetweenBars(part: seq<Rgb>, w: nat, x0: nat, x: nat)
    requires x0 + |part| <= w && x0 <= x < x0 + |part|
    ensures (Black(x0) + part + Black(w - x0 - |part|))[x] == part[x - x0]
  {
  }

  method CopyRow(dst: array<Rgb>, at: nat, src: seq<Rgb>)
    requires at + |src| <= dst.Length
    modifies dst
    ensures dst[..] == Spliced(old(dst[..]), at, src)
  {
    ghost var d := dst[..];
    for i := 0 to |src|
      invariant forall k :: 0 <= k < dst.Length ==> dst[k] == if at <= k < at + i then src[k - at] else d[k]
    {
      dst[at + i] := src[i];
    }
    SplicedAt(d, at, src);
    assert dst[..] == Spliced(d, at, src);
  }

  /** `d` with `src` in place of what stood at `at`. */
  function Spliced(d: seq<Rgb>, at: nat, src: seq<Rgb>): seq<Rgb>
    requires at + |src| <= |d|
  {
    d[..at] + src + d[at + |src|..]
  }

  lemma SplicedAt(d: seq<Rgb>, at: nat, src: seq<Rgb>)
    requires at + |src| <= |d|
    ensures |Spliced(d, at, src)| == |d|
    ensures forall k :: 0 <= k < |d| ==>
              Spliced(d, at, src)[k] == if at <= k < at + |src| then src[k - at] else d[k]
  {
  }

  method Fill(dst: array<Rgb>)
    modifies dst
    ensures dst[..] == Black(dst.Length)
  {
    for i := 0 to dst.Length
      invariant forall j :: 0 <= j < i ==> dst[j] == 0
    {
      dst[i] := 0;
    }
  }

  /** Copies the frame centred into a buffer of `h` rows of `w` pixels, black elsewhere. */
  method Blit(f: RgbFrame, dst: array<Rgb>, w: nat, h: nat)
    requires f.Valid() && dst.Length == w * h
    modifies dst
    ensures dst.Length == RowStart(w, h)
    ensures forall y: nat :: y < h ==> RowShown(f, w, h, dst[..], y)
  {
    RowStartIsProduct(w, h);
    if f.width == w && f.height == h && |f.pixels| == dst.Length {
      CopyRow(dst, 0, f.pixels);
      assert dst[..] == f.pixels;
      SameSizeRows(f);
      return;
    }
    Fill(dst);
    var copyH := Min(f.height, h);
    NothingDrawn(f, w, h);
    for row := 0 to copyH
      invariant Drawn(f, w, h, dst[..], row)
    {
      ghost var before := dst[..];
      DrawRow(f, dst, w, h, row);
      RowDrawn(f, w, h, before, dst[..], row);
    }
    AllDrawn(f, w, h, dst[..]);
  }

  /** Copies the `row`-th visible frame row to its place. */
  method DrawRow(f: RgbFrame, dst: array<Rgb>, w: nat, h: nat, row: nat)
    requires f.Valid() && dst.Length == RowStart(w, h) && row < Min(f.height, h)
    modifies dst
    ensures CopiedAt(w, old(dst[..]), dst[..], Centred(h, Min(f.height, h)) + row, Centred(w, Min(f.width, w)),
                     Visible(f, w, Centred(f.height, Min(f.height, h)) + row))
  {
    RowFits(f, w, h, row);
    var src := VisibleRow(f, w, Centred(f.height, Min(f.height, h)) + row);
    var at := Index(w, Centred(h, Min(f.height, h)) + row, Centred(w, Min(f.width, w)));
    CopyRow(dst, at, src);
  }

  method VisibleRow(f: RgbFrame, w: nat, py: nat) returns (src: seq<Rgb>)
    requires f.Valid() && py < f.height
    ensures src == Visible(f, w, py)
  {
    VisibleSlice(f, w, py);
    var copyW := Min(f.width, w);
    var start := Index(f.width, py, Centred(f.width, copyW));
    src := f.pixels[start..start + copyW];
  }

  /** The index of column `x` in row `y` of a buffer of width `w`. */
  method Index(w: nat, y: nat, x: nat) returns (i: nat)
    ensures i == RowStart(w, y) + x
  {
    RowStartIsProduct(w, y);
    i := y * w + x;
  }

  /** The `row`-th visible frame row lies inside frame and window. */
  lemma RowFits(f: RgbFrame, w: nat, h: nat, row: nat)
    requires row < Min(f.height, h)
    ensures Centred(f.height, Min(f.height, h)) + row < f.height
    ensures var z := Centred(h, Min(f.height, h)) + row;
            z < h && RowStart(w, z) + Centred(w, Min(f.width, w)) + Min(f.width, w) <= RowStart(w, h)
  {
    RowsApart(w, Centred(h, Min(f.height, h)) + row, h);
  }

  lemma SliceOfSlice<T>(s: seq<T>, a: nat, n: nat, c: nat, m: nat)
    requires c + m <= n && a + n <= |s|
    ensures s[a..a + n][c..c + m] == s[a + c..a + c + m]
  {
    var part := s[a..a + n];
    var (inner, direct) := (part[c..c + m], s[a + c..a + c + m]);
    forall k | 0 <= k < m ensures inner[k] == direct[k] {
      assert part[c + k] == s[a + (c + k)];
    }
  }

  lemma VisibleSlice(f: RgbFrame, w: nat, py: nat)
    requires f.Valid() && py < f.height
    ensures var start := RowStart(f.width, py) + Centred(f.width, Min(f.width, w));
            start + Min(f.width, w) <= |f.pixels| && Visible(f, w, py) == f.pixels[start..start + Min(f.width, w)]
  {
    RowsApart(f.width, py, f.height);
    SliceOfSlice(f.pixels, RowStart(f.width, py), f.width, Centred(f.width, Min(f.width, w)), Min(f.width, w));
  }

  /** `t` is `d` with `src` copied into row `z` at column `x0`. */
  ghost predicate CopiedAt(w: nat, d: seq<Rgb>, t: seq<Rgb>, z: nat, x0: nat, src: seq<Rgb>) {
    var at := RowStart(w, z) + x0;
    at + |src| <= |d| && t == Spliced(d, at, src)
  }

  /** The first `n` visible frame rows are drawn, the rest of the window is black. */
  ghost predicate Drawn(f: RgbFrame, w: nat, h: nat, d: seq<Rgb>, n: nat)
    requires f.Valid()
  {
    var y0 := Centred(h, Min(f.height, h));
    && |d| == RowStart(w, h)
    && (forall y: nat :: y < h && y0 <= y < y0 + n ==> RowShown(f, w, h, d, y))
    && (forall y: nat :: y < h && !(y0 <= y < y0 + n) ==> RowBlack(w, d, y))
  }

  lemma NothingDrawn(f: RgbFrame, w: nat, h: nat)
    requires f.Valid()
    ensures Drawn(f, w, h, Black(RowStart(w, h)), 0)
  {
    forall y: nat | y < h ensures RowBlack(w, Black(RowStart(w, h)), y) {
      RowsApart(w, y, h);
    }
  }

  lemma AllDrawn(f: RgbFrame, w: nat, h: nat, d: seq<Rgb>)
    requires f.Valid() && Drawn(f, w, h, d, Min(f.height, h))
    ensures forall y: nat :: y < h ==> RowShown(f, w, h, d, y)
  {
    var y0 := Centred(h, Min(f.height, h));
    forall y: nat | y < h ensures RowShown(f, w, h, d, y) {
      if !(y0 <= y < y0 + Min(f.height, h)) {
        assert RowBlack(w, d, y);
      }
    }
  }

  lemma SameSizeRows(f: RgbFrame)
    requires f.Valid() && |f.pixels| == RowStart(f.width, f.height)
    ensures forall y: nat :: y < f.height ==> RowShown(f, f.width, f.height, f.pixels, y)
  {
    forall y: nat | y < f.height ensures RowShown(f, f.width, f.height, f.pixels, y) {
      RowsApart(f.width, y, f.height);
      assert Black(0) + Visible(f, f.width, y) + Black(0) == Visible(f, f.width, y);
    }
  }

  /** Copying the `row`-th visible frame row draws it and keeps the rest. */
  lemma RowDrawn(f: RgbFrame, w: nat, h: nat, d: seq<Rgb>, t: seq<Rgb>, row: nat)
    requires f.Valid() && row < Min(f.height, h) && Drawn(f, w, h, d, row)
    requires CopiedAt(w, d, t, Centred(h, Min(f.height, h)) + row, Centred(w, Min(f.width, w)),
                      Visible(f, w, Centred(f.height, Min(f.height, h)) + row))
    ensures Drawn(f, w, h, t, row + 1)
  {
    var z := Centred(h, Min(f.height, h)) + row;
    ThisRowDrawn(f, w, h, d, t, row);
    forall y: nat | y < h && y != z
      ensures RowShown(f, w, h, d, y) ==> RowShown(f, w, h, t, y)
      ensures RowBlack(w, d, y) ==> RowBlack(w, t, y)
    {
      OtherRowKept(f, w, h, d, t, row, y);
    }
  }

  lemma ThisRowDrawn(f: RgbFrame, w: nat, h: nat, d: seq<Rgb>, t: seq<Rgb>, row: nat)
    requires f.Valid() && row < Min(f.height, h) && |d| == RowStart(w, h)
    requires RowBlack(w, d, Centred(h, Min(f.height, h)) + row)
    requires CopiedAt(w, d, t, Centred(h, Min(f.height, h)) + row, Centred(w, Min(f.width, w)),
                      Visible(f, w, Centred(f.height, Min(f.height, h)) + row))
    ensures RowShown(f, w, h, t, Centred(h, Min(f.height, h)) + row) && |t| == |d|
  {
    var (x0, z) := (Centred(w, Min(f.width, w)), Centred(h, Min(f.height, h)) + row);
    var src := Visible(f, w, Centred(f.height, Min(f.height, h)) + row);
    ShownBetweenBars(f, w, h, row);
    RowCopied(w, d, t, z, x0, src);
    SplicedAt(d, RowStart(w, z) + x0, src);
  }

  /** What a window row that shows a frame row consists of. */
  lemma ShownBetweenBars(f: RgbFrame, w: nat, h: nat, row: nat)
    requires f.Valid() && row < Min(f.height, h)
    ensures var (x0, src) := (Centred(w, Min(f.width, w)), Visible(f, w, Centred(f.height, Min(f.height, h)) + row));
            && x0 + |src| <= w
            && ShownRow(f, w, h, Centred(h, Min(f.height, h)) + row) == Black(x0) + src + Black(w - x0 - |src|)
  {
  }

  lemma OtherRowKept(f: RgbFrame, w: nat, h: nat, d: seq<Rgb>, t: seq<Rgb>, row: nat, y: nat)
    requires f.Valid() && row < Min(f.height, h) && |d| == RowStart(w, h) && y < h && y != Centred(h, Min(f.height, h)) + row
    requires CopiedAt(w, d, t, Centred(h, Min(f.height, h)) + row, Centred(w, Min(f.width, w)),
                      Visible(f, w, Centred(f.height, Min(f.height, h)) + row))
    ensures SameRow(w, d, t, y)
  {
    var z := Centred(h, Min(f.height, h)) + row;
    RowsApart(w, y, h);
    RowsApart(w, z, h);
    RowKept(w, d, t, z, Centred(w, Min(f.width, w)), Visible(f, w, Centred(f.height, Min(f.height, h)) + row), y);
  }

  ghost predicate SameRow(w: nat, d: seq<Rgb>, t: seq<Rgb>, y: nat) {
    RowStart(w, y) + w <= |d| && RowStart(w, y) + w <= |t| && Row(t, w, y) == Row(d, w, y)
  }

  /** A slice copied into a black row puts it between black bars. */
  lemma RowCopied(w: nat, d: seq<Rgb>, t: seq<Rgb>, z: nat, x0: nat, src: seq<Rgb>)
    requires x0 + |src| <= w && RowBlack(w, d, z) && CopiedAt(w, d, t, z, x0, src)
    ensures RowStart(w, z) + w <= |t| && Row(t, w, z) == Black(x0) + src + Black(w - x0 - |src|)
  {
    var a := RowStart(w, z);
    var shown := Black(x0) + src + Black(w - x0 - |src|);
    SplicedAt(d, a + x0, src);
    forall k | 0 <= k < w ensures Row(t, w, z)[k] == shown[k] {
      assert d[a + k] == Row(d, w, z)[k] == 0;
    }
  }

  /** Other rows are left alone. */
  lemma RowKept(w: nat, d: seq<Rgb>, t: seq<Rgb>, z: nat, x0: nat, src: seq<Rgb>, y: nat)
    requires x0 + |src| <= w && RowStart(w, z) + w <= |d| && RowStart(w, y) + w <= |d| && y != z
    requires CopiedAt(w, d, t, z, x0, src)
    ensures SameRow(w, d, t, y)
  {
    if y < z { RowsApart(w, y, z); } else { RowsApart(w, z, y); }
    SplicedAt(d, RowStart(w, z) + x0, src);
    var a := RowStart(w, y);
    assert t[a..a + w] == d[a..a + w];
  }
}
