/** Where the client believes the video is, and the pointer coordinates it derives from that. */
module Pointer {
  import opened Prelude
  import opened View
  import Message

  datatype Rect = Rect(x: nat, y: nat, w: nat, h: nat)

  /** The video rectangle inside the window, from the latest frame's size. */
  function VideoRect(window: (nat, nat), frame: Option<(nat, nat)>): Rect {
    var (ww, wh) := (Max(1, window.0), Max(1, window.1));
    match frame
    case Some((fw, fh)) =>
      if fw <= ww && fh <= wh then Rect(Centred(ww, fw), Centred(wh, fh), fw, fh) else Rect(0, 0, ww, wh)
    case None => Rect(0, 0, ww, wh)
  }

  /** The rectangle `Blit` draws into. */
  function DrawnRect(w: nat, h: nat, fw: nat, fh: nat): Rect {
    Rect(Centred(w, Min(fw, w)), Centred(h, Min(fh, h)), Min(fw, w), Min(fh, h))
  }

  function Clamp01(x: real): (r: real)
    ensures 0.0 <= r <= 1.0
  {
    if x < 0.0 then 0.0 else if x > 1.0 then 1.0 else x
  }

  /** A position on an axis of `size` pixels, normalised to 0..65535. */
  function Norm(v: real, size: nat): (n: Message.u16) {
    if size <= 1 then 0 else Round(Clamp01(v / (size - 1) as real) * 65535.0)
  }

  function FromVideoPosition(x: real, y: real, w: nat, h: nat): Message.MouseMove {
    Message.MouseMove(Norm(x, w), Norm(y, h))
  }

  /** The video area of a window position, as a cursor event sends it. */
  function CursorMoved(window: (nat, nat), frame: Option<(nat, nat)>, x: real, y: real): Message.MouseMove {
    var r := VideoRect(window, frame);
    FromVideoPosition(x - r.x as real, y - r.y as real, r.w, r.h)
  }

  // ---- Normalisation ----

  /** The normalised value before rounding. */
  function Exact(p: nat, size: nat): real
    requires size >= 2
  {
    p as real / (size - 1) as real * 65535.0
  }

  /** The value of pixel `p` of an axis. */
  function NormAt(p: nat, size: nat): (n: Message.u16) {
    Norm(p as real, size)
  }

  lemma NormOfPixel(p: nat, size: nat)
    requires p < size && size >= 2
    ensures Exact(p, size) >= 0.0 && NormAt(p, size) == Round(Exact(p, size))
  {
    var v := p as real / (size - 1) as real;
    assert 0.0 <= v <= 1.0;
    assert Clamp01(v) == v;
  }

  lemma ExactGap(p: nat, q: nat, size: nat)
    requires p < q && 2 <= size <= 65536
    ensures Exact(q, size) >= Exact(p, size) + 1.0
  {
    var s := (size - 1) as real;
    var (a, b) := (p as real / s, q as real / s);
    assert a * s == p as real && b * s == q as real;
    var d := b - a;
    assert d * s == b * s - a * s;
    assert d * s >= 1.0;
    Scaled(d, s, 65535.0);
    assert b * 65535.0 == a * 65535.0 + d * 65535.0;
  }

  lemma Scaled(d: real, s: real, t: real)
    requires d >= 0.0 && s <= t
    ensures d * s <= d * t
  {
  }

  lemma NormIncreases(p: nat, q: nat, size: nat)
    requires p < q < size <= 65536
    ensures NormAt(p, size) < NormAt(q, size)
  {
    NormOfPixel(p, size);
    NormOfPixel(q, size);
    ExactGap(p, q, size);
  }

  lemma NormEnds(size: nat)
    requires size >= 2
    ensures NormAt(0, size) == 0 && NormAt(size - 1, size) == 65535
  {
    var s := (size - 1) as real;
    assert s / s == 1.0 && 0.0 / s == 0.0;
  }

  /** Different pixels of an axis get different, increasing values. */
  ghost predicate Distinguishes(size: nat) {
    forall p: nat, q: nat :: p < q < size ==> NormAt(p, size) < NormAt(q, size)
  }

  lemma {:induction false} IncreasingIsAtLeast(p: nat, size: nat)
    requires Distinguishes(size) && p < size
    ensures NormAt(p, size) >= p
  {
    if p > 0 {
      IncreasingIsAtLeast(p - 1, size);
      assert NormAt(p - 1, size) < NormAt(p, size);
    }
  }

  /** Every pixel of an axis can be pointed at exactly up to 65536 pixels. */
  lemma DistinguishesExactly(size: nat)
    ensures Distinguishes(size) <==> size <= 65536
  {
    if size <= 65536 {
      forall p: nat, q: nat | p < q < size ensures NormAt(p, size) < NormAt(q, size) {
        NormIncreases(p, q, size);
      }
    } else if Distinguishes(size) {
      IncreasingIsAtLeast(size - 1, size);
      assert false;
    }
  }

  /** A position on an axis of two pixels or more: at or before the first pixel it gives 0, at or after the
      last one 65535, and in between the value nearest to the exact one. On a shorter axis it gives 0. */
  lemma NormExactly(v: real, size: nat)
    ensures size <= 1 ==> Norm(v, size) == 0
    ensures size >= 2 && v <= 0.0 ==> Norm(v, size) == 0
    ensures size >= 2 && v >= (size - 1) as real ==> Norm(v, size) == 65535
    ensures size >= 2 && 0.0 <= v <= (size - 1) as real ==>
              -0.5 <= Norm(v, size) as real - v / (size - 1) as real * 65535.0 <= 0.5
  {
    if size >= 2 {
      Quotient(v, (size - 1) as real);
      RoundedShare(v / (size - 1) as real);
    }
  }

  lemma RoundedShare(q: real)
    ensures var n := Round(Clamp01(q) * 65535.0);
            && (q <= 0.0 ==> n == 0)
            && (q >= 1.0 ==> n == 65535)
            && (0.0 <= q <= 1.0 ==> -0.5 <= n as real - q * 65535.0 <= 0.5)
  {
  }

  lemma Quotient(v: real, s: real)
    requires s > 0.0
    ensures (v / s <= 0.0 <==> v <= 0.0) && (v / s >= 0.0 <==> v >= 0.0)
    ensures (v / s <= 1.0 <==> v <= s) && (v / s >= 1.0 <==> v >= s)
  {
    var q := v / s;
    assert q * s == v;
    if q > 1.0 {
      PositiveProduct(q - 1.0, s);
    } else if 0.0 < q < 1.0 {
      PositiveProduct(q, s);
      PositiveProduct(1.0 - q, s);
    } else if q < 0.0 {
      PositiveProduct(-q, s);
    }
  }

  lemma PositiveProduct(a: real, b: real)
    requires a > 0.0 && b > 0.0
    ensures a * b > 0.0
  {
  }

  // ---- Pointer and picture ----

  /** A cursor left of the video area or on its first column sends 0, one right of it or on its last column
      65535, and the same holds of rows; the area lies inside the window. */
  lemma OutsideSendsEdges(window: (nat, nat), frame: Option<(nat, nat)>, x: real, y: real)
    ensures var (r, m) := (VideoRect(window, frame), CursorMoved(window, frame, x, y));
            && r.x + r.w <= Max(1, window.0) && r.y + r.h <= Max(1, window.1)
            && (x <= r.x as real ==> m.x == 0) && (y <= r.y as real ==> m.y == 0)
            && (r.w >= 2 && x >= (r.x + r.w - 1) as real ==> m.x == 65535)
            && (r.h >= 2 && y >= (r.y + r.h - 1) as real ==> m.y == 65535)
  {
    var r := VideoRect(window, frame);
    NormExactly(x - r.x as real, r.w);
    NormExactly(y - r.y as real, r.h);
  }

  /** Without a frame, and with one that exceeds the window on some axis, the video area is the whole window. */
  lemma WholeWindow(ww: nat, wh: nat, frame: Option<(nat, nat)>)
    requires ww > 0 && wh > 0
    ensures VideoRect((ww, wh), frame) == Rect(0, 0, ww, wh) <==>
            match frame
            case None => true
            case Some((fw, fh)) => fw > ww || fh > wh || (fw == ww && fh == wh)
  {
  }

  /** The rectangle the pointer assumes is the one drawn exactly when the frame fits the window on
      both axes or covers it on both. */
  lemma RectIsDrawnExactly(w: nat, h: nat, fw: nat, fh: nat)
    requires w > 0 && h > 0
    ensures VideoRect((w, h), Some((fw, fh))) == DrawnRect(w, h, fw, fh) <==>
            (fw <= w && fh <= h) || (fw >= w && fh >= h)
  {
  }

  lemma VisibleWhole(f: RgbFrame, w: nat, py: nat)
    requires f.Valid() && f.width <= w && py < f.height && RowStart(f.width, py) + f.width <= |f.pixels|
    ensures Visible(f, w, py) == Row(f.pixels, f.width, py)
  {
    assert Centred(f.width, f.width) == 0;
  }

  lemma FittingRow(f: RgbFrame, w: nat, h: nat, py: nat)
    requires f.Valid() && f.width <= w && f.height <= h && py < f.height
    ensures var (x0, y0) := (Centred(w, f.width), Centred(h, f.height));
            ShownRow(f, w, h, y0 + py) == Black(x0) + Visible(f, w, py) + Black(w - x0 - f.width)
  {
    assert Min(f.width, w) == f.width && Min(f.height, h) == f.height;
    assert Centred(f.height, f.height) == 0;
  }

  /** A window row that shows row `py` of a frame that fits. */
  lemma FittingShown(f: RgbFrame, w: nat, h: nat, py: nat, shown: seq<Rgb>)
    requires f.Valid() && f.width <= w && f.height <= h && py < f.height
    requires shown == ShownRow(f, w, h, Centred(h, f.height) + py)
    ensures RowStart(f.width, py) + f.width <= |f.pixels|
    ensures var x0 := Centred(w, f.width);
            shown == Black(x0) + Row(f.pixels, f.width, py) + Black(w - x0 - f.width)
  {
    RowsApart(f.width, py, f.height);
    FittingRow(f, w, h, py);
    VisibleWhole(f, w, py);
  }

  lemma RowBetweenBars(f: RgbFrame, w: nat, px: nat, py: nat, shown: seq<Rgb>)
    requires f.width <= w && px < f.width && RowStart(f.width, py) + f.width <= |f.pixels|
    requires var x0 := Centred(w, f.width);
             shown == Black(x0) + Row(f.pixels, f.width, py) + Black(w - x0 - f.width)
    ensures |shown| == w && shown[Centred(w, f.width) + px] == f.pixels[RowStart(f.width, py) + px]
  {
    var row := Row(f.pixels, f.width, py);
  }

  /** The pixel at column `px` of row `py` of a frame that fits is shown at `shown[x]`. */
  lemma FittingPixel(f: RgbFrame, w: nat, h: nat, px: nat, py: nat, shown: seq<Rgb>)
    requires f.Valid() && f.width <= w && f.height <= h && px < f.width && py < f.height
    requires shown == ShownRow(f, w, h, Centred(h, f.height) + py)
    ensures RowStart(f.width, py) + px < |f.pixels| && |shown| == w
    ensures shown[Centred(w, f.width) + px] == f.pixels[RowStart(f.width, py) + px]
  {
    FittingShown(f, w, h, py, shown);
    RowBetweenBars(f, w, px, py, shown);
  }

  /** For a window of at least 2x2 and a frame scaled for it: frame pixel (px, py) is shown at the
      video rectangle's offset, and a cursor on that window pixel sends exactly the normalised
      (px, py). */
  lemma PointerMeetsPicture(window: (nat, nat), src: (nat, nat), f: RgbFrame, px: nat, py: nat, r: Rect, shown: seq<Rgb>)
    requires window.0 >= 2 && window.1 >= 2 && f.Valid()
    requires (f.width, f.height) == FitAspect(window, src) && px < f.width && py < f.height
    requires r == VideoRect(window, Some((f.width, f.height))) && shown == ShownRow(f, window.0, window.1, r.y + py)
    ensures r.x + px < |shown| == window.0 && r.y + py < window.1 && RowStart(f.width, py) + px < |f.pixels|
    ensures shown[r.x + px] == f.pixels[RowStart(f.width, py) + px]
    ensures CursorMoved(window, Some((f.width, f.height)), (r.x + px) as real, (r.y + py) as real)
            == Message.MouseMove(NormAt(px, f.width), NormAt(py, f.height))
  {
    FitsAndTouches(window, src);
    PointerMeetsFitting(window, f, px, py, r, shown);
  }

  /** The same of any frame that fits. */
  lemma PointerMeetsFitting(window: (nat, nat), f: RgbFrame, px: nat, py: nat, r: Rect, shown: seq<Rgb>)
    requires window.0 >= 2 && window.1 >= 2 && f.Valid()
    requires f.width <= window.0 && f.height <= window.1 && px < f.width && py < f.height
    requires r == VideoRect(window, Some((f.width, f.height))) && shown == ShownRow(f, window.0, window.1, r.y + py)
    ensures r.x + px < |shown| == window.0 && r.y + py < window.1 && RowStart(f.width, py) + px < |f.pixels|
    ensures shown[r.x + px] == f.pixels[RowStart(f.width, py) + px]
    ensures CursorMoved(window, Some((f.width, f.height)), (r.x + px) as real, (r.y + py) as real)
            == Message.MouseMove(NormAt(px, f.width), NormAt(py, f.height))
  {
    ShownAtOffset(window, f, px, py, r, shown);
    CursorAtOffset(window, f.width, f.height, px, py, r);
  }

  lemma ShownAtOffset(window: (nat, nat), f: RgbFrame, px: nat, py: nat, r: Rect, shown: seq<Rgb>)
    requires window.0 >= 2 && window.1 >= 2 && f.Valid()
    requires f.width <= window.0 && f.height <= window.1 && px < f.width && py < f.height
    requires r == VideoRect(window, Some((f.width, f.height))) && shown == ShownRow(f, window.0, window.1, r.y + py)
    ensures r.x + px < |shown| == window.0 && r.y + py < window.1 && RowStart(f.width, py) + px < |f.pixels|
    ensures shown[r.x + px] == f.pixels[RowStart(f.width, py) + px]
  {
    RectOfFitting(window, f.width, f.height);
    FittingPixel(f, window.0, window.1, px, py, shown);
  }

  lemma CursorAtOffset(window: (nat, nat), fw: nat, fh: nat, px: nat, py: nat, r: Rect)
    requires window.0 >= 2 && window.1 >= 2 && fw <= window.0 && fh <= window.1
    requires r == VideoRect(window, Some((fw, fh)))
    ensures CursorMoved(window, Some((fw, fh)), (r.x + px) as real, (r.y + py) as real)
            == Message.MouseMove(NormAt(px, fw), NormAt(py, fh))
  {
    RectOfFitting(window, fw, fh);
    CursorOnPixel(window, fw, fh, px, py);
  }

  lemma RectOfFitting(window: (nat, nat), fw: nat, fh: nat)
    requires window.0 >= 2 && window.1 >= 2 && fw <= window.0 && fh <= window.1
    ensures VideoRect(window, Some((fw, fh))) == Rect(Centred(window.0, fw), Centred(window.1, fh), fw, fh)
  {
  }

  lemma CursorOnPixel(window: (nat, nat), fw: nat, fh: nat, px: nat, py: nat)
    ensures var r := VideoRect(window, Some((fw, fh)));
            CursorMoved(window, Some((fw, fh)), (r.x + px) as real, (r.y + py) as real)
            == Message.MouseMove(NormAt(px, r.w), NormAt(py, r.h))
  {
    var r := VideoRect(window, Some((fw, fh)));
    assert (r.x + px) as real - r.x as real == px as real;
    assert (r.y + py) as real - r.y as real == py as real;
  }

  /** Outside that rectangle the window is black. */
  lemma OutsideIsBlack(w: nat, h: nat, f: RgbFrame, x: nat, y: nat)
    requires f.Valid() && x < w && y < h
    requires var r := DrawnRect(w, h, f.width, f.height); !(r.x <= x < r.x + r.w && r.y <= y < r.y + r.h)
    ensures ShownRow(f, w, h, y)[x] == 0
  {
  }
}
