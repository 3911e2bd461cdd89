/**
  XRGB8888 to planar I420: the row-pair kernel on plane slices, the conversion of a whole picture
  in any order of row pairs, and what the result depends on.
*/
module Convert {
  import opened Prelude
  import opened Colour

  /** A planar frame with tightly packed planes. */
  class I420Frame {
    var width: nat
    var height: nat
    var y: array<byte>
    var u: array<byte>
    var v: array<byte>

    /** The plane lengths match the even dimensions, and the planes are distinct. */
    ghost predicate Valid()
      reads this
    {
      && width % 2 == 0 && height % 2 == 0
      && y.Length == width * height
      && u.Length == v.Length == (width / 2) * (height / 2)
      && y != u && y != v && u != v
    }

    /** A black frame of the dimensions rounded down to even values. */
    constructor (w: nat, h: nat)
      ensures Valid() && fresh(y) && fresh(u) && fresh(v)
      ensures width == Even(w) && height == Even(h)
      ensures forall i :: 0 <= i < y.Length ==> y[i] == 16
      ensures forall i :: 0 <= i < u.Length ==> u[i] == 128 && v[i] == 128
    {
      width, height := Even(w), Even(h);
      y := new byte[Even(w) * Even(h)](_ => 16);
      u := new byte[(Even(w) / 2) * (Even(h) / 2)](_ => 128);
      v := new byte[(Even(w) / 2) * (Even(h) / 2)](_ => 128);
    }
  }

  /** The largest even number that does not exceed `n`. */
  function Even(n: nat): (e: nat)
    ensures e % 2 == 0 && n - 1 <= e <= n
  {
    n - n % 2
  }

  /** The pixel stored as B, G, R, X at offset `o`. */
  function PixelAt(src: seq<byte>, o: nat): Pixel
    requires o + 4 <= |src|
  {
    Pixel(src[o + 2], src[o + 1], src[o])
  }

  function LumaOf(p: Pixel): byte {
    Luma(p.r, p.g, p.b)
  }

  /** The 2x2 block whose rows start at the offsets `o0` and `o1`. */
  function BlockAt(src: seq<byte>, o0: nat, o1: nat): Block
    requires o0 + 8 <= |src| && o1 + 8 <= |src|
  {
    Block(PixelAt(src, o0), PixelAt(src, o0 + 4), PixelAt(src, o1), PixelAt(src, o1 + 4))
  }

  /** Writes the four luma bytes at `y0` and `y1` and the two chroma bytes at `c` of one block. */
  method ConvertBlock(k: Block, y: array<byte>, y0: nat, y1: nat, u: array<byte>, v: array<byte>, c: nat)
    requires y0 + 2 <= y1 && y1 + 2 <= y.Length && c < u.Length && c < v.Length
    requires y != u && y != v && u != v
    modifies y, u, v
    ensures y[..] == old(y[..])[y0 := LumaOf(k.a)][y0 + 1 := LumaOf(k.b)][y1 := LumaOf(k.c)][y1 + 1 := LumaOf(k.d)]
    ensures u[..] == old(u[..])[c := k.Cb()] && v[..] == old(v[..])[c := k.Cr()]
  {
    y[y0] := Luma(k.a.r, k.a.g, k.a.b);
    y[y0 + 1] := Luma(k.b.r, k.b.g, k.b.b);
    y[y1] := Luma(k.c.r, k.c.g, k.c.b);
    y[y1 + 1] := Luma(k.d.r, k.d.g, k.d.b);
    var r := Mean(k.a.r, k.b.r, k.c.r, k.d.r);
    var g := Mean(k.a.g, k.b.g, k.c.g, k.d.g);
    var b := Mean(k.a.b, k.b.b, k.c.b, k.d.b);
    u[c] := LowByte(CbSum(r, g, b));
    v[c] := LowByte(CrSum(r, g, b));
  }

  /** The luma slice at `y0` holds the first `n` pixels of the row at `row`. */
  ghost predicate LumaSlice(src: seq<byte>, row: nat, y: seq<byte>, y0: nat, n: nat) {
    row + 4 * n <= |src| && y0 + n <= |y| &&
    forall x :: 0 <= x < n ==> y[y0 + x] == LumaOf(PixelAt(src, row + 4 * x))
  }

  /** The chroma slices at `c0` hold the first `n` blocks of the rows at `row0` and `row1`. */
  ghost predicate ChromaSlice(src: seq<byte>, row0: nat, row1: nat, u: seq<byte>, v: seq<byte>, c0: nat, n: nat) {
    row0 + 8 * n <= |src| && row1 + 8 * n <= |src| && c0 + n <= |u| && c0 + n <= |v| &&
    forall i :: 0 <= i < n ==>
      && u[c0 + i] == BlockAt(src, row0 + 8 * i, row1 + 8 * i).Cb()
      && v[c0 + i] == BlockAt(src, row0 + 8 * i, row1 + 8 * i).Cr()
  }

  /** `after` differs from `before` at most inside the `n` bytes at `start`. */
  ghost predicate OnlyWithin(before: seq<byte>, after: seq<byte>, start: nat, n: nat) {
    && |after| == |before| && start + n <= |before|
    && forall k :: 0 <= k < |before| && !(start <= k < start + n) ==> after[k] == before[k]
  }

  lemma OnlyWithinChains(a: seq<byte>, b: seq<byte>, c: seq<byte>, start: nat, n: nat)
    requires OnlyWithin(a, b, start, n) && OnlyWithin(b, c, start, n)
    ensures OnlyWithin(a, c, start, n)
  {
  }

  /** Converts two rows of `w` pixels at `row0` and `row1` into adjacent luma rows at `y0` and the
      chroma slices at `c0`, and writes nothing else. */
  method ConvertRowPair(src: seq<byte>, w: nat, row0: nat, row1: nat,
                        y: array<byte>, y0: nat, u: array<byte>, v: array<byte>, c0: nat)
    requires w % 2 == 0 && row0 + 4 * w <= |src| && row1 + 4 * w <= |src|
    requires y0 + 2 * w <= y.Length && c0 + w / 2 <= u.Length && c0 + w / 2 <= v.Length
    requires y != u && y != v && u != v
    modifies y, u, v
    ensures LumaSlice(src, row0, y[..], y0, w) && LumaSlice(src, row1, y[..], y0 + w, w)
    ensures ChromaSlice(src, row0, row1, u[..], v[..], c0, w / 2)
    ensures OnlyWithin(old(y[..]), y[..], y0, 2 * w)
    ensures OnlyWithin(old(u[..]), u[..], c0, w / 2) && OnlyWithin(old(v[..]), v[..], c0, w / 2)
  {
    var i := 0;
    while i < w / 2
      invariant 0 <= i <= w / 2
      invariant LumaSlice(src, row0, y[..], y0, 2 * i) && LumaSlice(src, row1, y[..], y0 + w, 2 * i)
      invariant ChromaSlice(src, row0, row1, u[..], v[..], c0, i)
      invariant OnlyWithin(old(y[..]), y[..], y0, 2 * w)
      invariant OnlyWithin(old(u[..]), u[..], c0, w / 2) && OnlyWithin(old(v[..]), v[..], c0, w / 2)
    {
      ghost var (ys, us, vs) := (y[..], u[..], v[..]);
      ConvertColumn(src, w, row0, row1, i, y, y0, u, v, c0);
      OnlyWithinChains(old(y[..]), ys, y[..], y0, 2 * w);
      OnlyWithinChains(old(u[..]), us, u[..], c0, w / 2);
      OnlyWithinChains(old(v[..]), vs, v[..], c0, w / 2);
      i := i + 1;
    }
  }

  /** Converts the `i`-th block of a row pair whose first `i` blocks are converted. */
  method ConvertColumn(src: seq<byte>, w: nat, row0: nat, row1: nat, i: nat,
                       y: array<byte>, y0: nat, u: array<byte>, v: array<byte>, c0: nat)
    requires w % 2 == 0 && i < w / 2 && row0 + 4 * w <= |src| && row1 + 4 * w <= |src|
    requires y0 + 2 * w <= y.Length && c0 + w / 2 <= u.Length && c0 + w / 2 <= v.Length
    requires y != u && y != v && u != v
    requires LumaSlice(src, row0, y[..], y0, 2 * i) && LumaSlice(src, row1, y[..], y0 + w, 2 * i)
    requires ChromaSlice(src, row0, row1, u[..], v[..], c0, i)
    modifies y, u, v
    ensures LumaSlice(src, row0, y[..], y0, 2 * i + 2) && LumaSlice(src, row1, y[..], y0 + w, 2 * i + 2)
    ensures ChromaSlice(src, row0, row1, u[..], v[..], c0, i + 1)
    ensures OnlyWithin(old(y[..]), y[..], y0, 2 * w)
    ensures OnlyWithin(old(u[..]), u[..], c0, w / 2) && OnlyWithin(old(v[..]), v[..], c0, w / 2)
  {
    ConvertBlock(BlockAt(src, row0 + 8 * i, row1 + 8 * i), y, y0 + 2 * i, y0 + w + 2 * i, u, v, c0 + i);
    LumaStep(src, row0, row1, w, i, old(y[..]), y0, y[..]);
    var k := BlockAt(src, row0 + 8 * i, row1 + 8 * i);
    ChromaStep(src, row0, row1, old(u[..]), old(v[..]), c0, i, u[..], v[..], k);
    OneWithin(old(u[..]), c0 + i, k.Cb(), c0, w / 2);
    OneWithin(old(v[..]), c0 + i, k.Cr(), c0, w / 2);
  }

  lemma LumaStep(src: seq<byte>, row0: nat, row1: nat, w: nat, i: nat, y: seq<byte>, y0: nat, t: seq<byte>)
    requires 2 * i + 2 <= w && y0 + 2 * w <= |y| && row0 + 8 * i + 8 <= |src| && row1 + 8 * i + 8 <= |src|
    requires LumaSlice(src, row0, y, y0, 2 * i) && LumaSlice(src, row1, y, y0 + w, 2 * i)
    requires var k := BlockAt(src, row0 + 8 * i, row1 + 8 * i);
             t == y[y0 + 2 * i := LumaOf(k.a)][y0 + 2 * i + 1 := LumaOf(k.b)]
                   [y0 + w + 2 * i := LumaOf(k.c)][y0 + w + 2 * i + 1 := LumaOf(k.d)]
    ensures LumaSlice(src, row0, t, y0, 2 * i + 2) && LumaSlice(src, row1, t, y0 + w, 2 * i + 2)
    ensures OnlyWithin(y, t, y0, 2 * w)
  {
    forall x | 0 <= x < 2 * i + 2
      ensures t[y0 + x] == LumaOf(PixelAt(src, row0 + 4 * x)) && t[y0 + w + x] == LumaOf(PixelAt(src, row1 + 4 * x))
    {
      if x < 2 * i {
        assert t[y0 + x] == y[y0 + x] && t[y0 + w + x] == y[y0 + w + x];
      }
    }
  }

  lemma ChromaStep(src: seq<byte>, row0: nat, row1: nat, u: seq<byte>, v: seq<byte>, c0: nat, i: nat,
                   t: seq<byte>, s: seq<byte>, k: Block)
    requires row0 + 8 * i + 8 <= |src| && row1 + 8 * i + 8 <= |src| && c0 + i < |u| && c0 + i < |v|
    requires ChromaSlice(src, row0, row1, u, v, c0, i) && k == BlockAt(src, row0 + 8 * i, row1 + 8 * i)
    requires t == u[c0 + i := k.Cb()] && s == v[c0 + i := k.Cr()]
    ensures ChromaSlice(src, row0, row1, t, s, c0, i + 1)
  {
  }

  lemma OneWithin(u: seq<byte>, i: nat, x: byte, start: nat, n: nat)
    requires start <= i < start + n <= |u|
    ensures OnlyWithin(u, u[i := x], start, n)
  {
  }

  // ---- The whole picture ----

  /** The source holds a picture of even dimensions `w` x `h` with rows `pitch` bytes apart. */
  predicate Holds(src: seq<byte>, w: nat, h: nat, pitch: nat) {
    && w % 2 == 0 && h % 2 == 0 && 4 * w <= pitch
    && (w > 0 && h > 0 ==> RowStart(pitch, h - 1) + 4 * w <= |src|)
  }

  /** The row pair `p` is converted: its two luma rows and its chroma row. */
  ghost predicate PairDone(src: seq<byte>, w: nat, pitch: nat, y: seq<byte>, u: seq<byte>, v: seq<byte>, p: nat) {
    && LumaSlice(src, RowStart(pitch, 2 * p), y, RowStart(w, 2 * p), w)
    && LumaSlice(src, RowStart(pitch, 2 * p + 1), y, RowStart(w, 2 * p + 1), w)
    && ChromaSlice(src, RowStart(pitch, 2 * p), RowStart(pitch, 2 * p + 1), u, v, RowStart(w / 2, p), w / 2)
  }

  /** The planes have the lengths of the picture and every row pair is converted. */
  ghost predicate Converted(src: seq<byte>, w: nat, h: nat, pitch: nat, y: seq<byte>, u: seq<byte>, v: seq<byte>) {
    && |y| == w * h && |u| == |v| == (w / 2) * (h / 2)
    && forall p :: 0 <= p < h / 2 ==> PairDone(src, w, pitch, y, u, v, p)
  }

  /** A row of the picture lies within the source. */
  lemma RowWithin(src: seq<byte>, w: nat, h: nat, pitch: nat, row: nat)
    requires Holds(src, w, h, pitch) && w > 0 && row < h
    ensures RowStart(pitch, row) + 4 * w <= |src|
  {
    if row < h - 1 {
      RowsApart(pitch, row, h - 1);
    }
  }

  /** Where the row pair `p` lies in the source and in the planes. */
  lemma PairBounds(src: seq<byte>, w: nat, h: nat, pitch: nat, p: nat)
    requires Holds(src, w, h, pitch) && w > 0 && p < h / 2
    ensures RowStart(pitch, 2 * p) + 4 * w <= |src| && RowStart(pitch, 2 * p + 1) + 4 * w <= |src|
    ensures RowStart(w, 2 * p) + w == RowStart(w, 2 * p + 1) && RowStart(w, 2 * p) + 2 * w <= w * h
    ensures RowStart(w / 2, p) + w / 2 <= (w / 2) * (h / 2)
  {
    RowWithin(src, w, h, pitch, 2 * p);
    RowWithin(src, w, h, pitch, 2 * p + 1);
    RowsApart(w, 2 * p + 1, h);
    RowsApart(w / 2, p, h / 2);
    RowStartIsProduct(w, h);
    RowStartIsProduct(w / 2, h / 2);
  }

  lemma LumaKept(src: seq<byte>, row: nat, y: seq<byte>, y0: nat, n: nat, t: seq<byte>, start: nat, m: nat)
    requires LumaSlice(src, row, y, y0, n) && OnlyWithin(y, t, start, m)
    requires y0 + n <= start || start + m <= y0
    ensures LumaSlice(src, row, t, y0, n)
  {
  }

  lemma ChromaKept(src: seq<byte>, row0: nat, row1: nat, u: seq<byte>, v: seq<byte>, c0: nat, n: nat,
                   t: seq<byte>, s: seq<byte>, start: nat, m: nat)
    requires ChromaSlice(src, row0, row1, u, v, c0, n) && OnlyWithin(u, t, start, m) && OnlyWithin(v, s, start, m)
    requires c0 + n <= start || start + m <= c0
    ensures ChromaSlice(src, row0, row1, t, s, c0, n)
  {
  }

  /** Converting one row pair leaves the others as they are. */
  lemma PairKept(src: seq<byte>, w: nat, pitch: nat, p: nat, q: nat,
                 y: seq<byte>, u: seq<byte>, v: seq<byte>, t: seq<byte>, r: seq<byte>, s: seq<byte>)
    requires PairDone(src, w, pitch, y, u, v, q) && p != q
    requires OnlyWithin(y, t, RowStart(w, 2 * p), 2 * w)
    requires OnlyWithin(u, r, RowStart(w / 2, p), w / 2) && OnlyWithin(v, s, RowStart(w / 2, p), w / 2)
    ensures PairDone(src, w, pitch, t, r, s, q)
  {
    PairsApart(w, p, q);
    var (r0, r1) := (RowStart(pitch, 2 * q), RowStart(pitch, 2 * q + 1));
    LumaKept(src, r0, y, RowStart(w, 2 * q), w, t, RowStart(w, 2 * p), 2 * w);
    LumaKept(src, r1, y, RowStart(w, 2 * q + 1), w, t, RowStart(w, 2 * p), 2 * w);
    ChromaKept(src, r0, r1, u, v, RowStart(w / 2, q), w / 2, r, s, RowStart(w / 2, p), w / 2);
  }

  /** The slices of different row pairs do not overlap. */
  lemma PairsApart(w: nat, p: nat, q: nat)
    requires p != q
    ensures RowStart(w, 2 * q + 1) == RowStart(w, 2 * q) + w
    ensures if p < q then RowStart(w, 2 * p) + 2 * w <= RowStart(w, 2 * q) else RowStart(w, 2 * q) + 2 * w <= RowStart(w, 2 * p)
    ensures if p < q then RowStart(w / 2, p) + w / 2 <= RowStart(w / 2, q) else RowStart(w / 2, q) + w / 2 <= RowStart(w / 2, p)
  {
    if p < q {
      RowsApart(w, 2 * p + 1, 2 * q);
      RowsApart(w / 2, p, q);
    } else {
      RowsApart(w, 2 * q + 1, 2 * p);
      RowsApart(w / 2, q, p);
    }
  }

  /** Converts the picture into `dst`, which gets new planes when its size differs. The row pairs
      are taken in any order. */
  method XrgbToI420(src: seq<byte>, width: nat, height: nat, pitch: nat, dst: I420Frame)
    requires pitch >= Even(width) * 4
    requires Even(width) > 0 && Even(height) > 0 ==> |src| >= (Even(height) - 1) * pitch + Even(width) * 4
    requires dst.Valid()
    modifies dst, dst.y, dst.u, dst.v
    ensures dst.Valid()
    ensures if Even(width) == 0 || Even(height) == 0 then dst.width == dst.height == 0
            else dst.width == Even(width) && dst.height == Even(height) &&
                 Converted(src, Even(width), Even(height), pitch, dst.y[..], dst.u[..], dst.v[..])
    ensures old(dst.width) == Even(width) > 0 && old(dst.height) == Even(height) > 0 ==>
              dst.y == old(dst.y) && dst.u == old(dst.u) && dst.v == old(dst.v)
  {
    var w := Even(width);
    var h := Even(height);
    if w == 0 || h == 0 {
      var empty := new I420Frame(0, 0);
      dst.width, dst.height, dst.y, dst.u, dst.v := empty.width, empty.height, empty.y, empty.u, empty.v;
      return;
    }
    Resize(dst, w, h);
    PictureIsHeld(src, w, h, pitch);
    ConvertPairs(src, w, h, pitch, dst.y, dst.u, dst.v);
  }

  lemma PictureIsHeld(src: seq<byte>, w: nat, h: nat, pitch: nat)
    requires w % 2 == 0 && h % 2 == 0 && h > 0 && 4 * w <= pitch && (h - 1) * pitch + 4 * w <= |src|
    ensures Holds(src, w, h, pitch)
  {
    RowStartIsProduct(pitch, h - 1);
  }

  /** New planes for a new size, the same ones otherwise. */
  method Resize(dst: I420Frame, w: nat, h: nat)
    requires dst.Valid() && w % 2 == 0 && h % 2 == 0
    modifies dst
    ensures dst.Valid() && dst.width == w && dst.height == h
    ensures if old(dst.width) == w && old(dst.height) == h
            then dst.y == old(dst.y) && dst.u == old(dst.u) && dst.v == old(dst.v)
            else fresh(dst.y) && fresh(dst.u) && fresh(dst.v)
  {
    if dst.width != w || dst.height != h {
      var black := new I420Frame(w, h);
      dst.width, dst.height, dst.y, dst.u, dst.v := black.width, black.height, black.y, black.u, black.v;
    }
  }

  function Below(n: nat): (s: set<nat>)
    ensures forall p :: p in s <==> 0 <= p < n
  {
    if n == 0 then {} else Below(n - 1) + {n - 1}
  }

  method ConvertPairs(src: seq<byte>, w: nat, h: nat, pitch: nat, y: array<byte>, u: array<byte>, v: array<byte>)
    requires Holds(src, w, h, pitch) && w > 0
    requires y.Length == w * h && u.Length == v.Length == (w / 2) * (h / 2)
    requires y != u && y != v && u != v
    modifies y, u, v
    ensures Converted(src, w, h, pitch, y[..], u[..], v[..])
  {
    var left := Below(h / 2);
    while left != {}
      invariant forall p :: p in left ==> 0 <= p < h / 2
      invariant forall p :: 0 <= p < h / 2 && p !in left ==> PairDone(src, w, pitch, y[..], u[..], v[..], p)
      decreases left
    {
      var p :| p in left;
      ConvertPair(src, w, h, pitch, y, u, v, p);
      left := left - {p};
    }
  }

  /** Converts the row pair `p` and leaves the others alone. */
  method ConvertPair(src: seq<byte>, w: nat, h: nat, pitch: nat, y: array<byte>, u: array<byte>, v: array<byte>, p: nat)
    requires Holds(src, w, h, pitch) && w > 0 && p < h / 2
    requires y.Length == w * h && u.Length == v.Length == (w / 2) * (h / 2)
    requires y != u && y != v && u != v
    modifies y, u, v
    ensures PairDone(src, w, pitch, y[..], u[..], v[..], p)
    ensures forall q: nat :: q != p && old(PairDone(src, w, pitch, y[..], u[..], v[..], q)) ==>
              PairDone(src, w, pitch, y[..], u[..], v[..], q)
  {
    PairBounds(src, w, h, pitch, p);
    var row0 := Offset(2 * p, pitch);
    var row1 := Offset(2 * p + 1, pitch);
    ConvertRowPair(src, w, row0, row1, y, Offset(2 * p, w), u, v, Offset(p, w / 2));
    forall q: nat | q != p && old(PairDone(src, w, pitch, y[..], u[..], v[..], q))
      ensures PairDone(src, w, pitch, y[..], u[..], v[..], q)
    {
      PairKept(src, w, pitch, p, q, old(y[..]), old(u[..]), old(v[..]), y[..], u[..], v[..]);
    }
  }

  /** Where row `row` starts when rows are `width` apart. */
  function Offset(row: nat, width: nat): (o: nat)
    ensures o == RowStart(width, row)
  {
    RowStartIsProduct(width, row);
    row * width
  }

  // ---- What the result depends on ----

  /** The pixel at column `x` of row `row`. */
  function SourcePixel(src: seq<byte>, w: nat, h: nat, pitch: nat, x: nat, row: nat): Pixel
    requires Holds(src, w, h, pitch) && x < w && row < h
  {
    RowWithin(src, w, h, pitch, row);
    PixelAt(src, RowStart(pitch, row) + 4 * x)
  }

  /** The rows of `w` pixels at `ra` and `rb` agree on every byte but the fourth of each pixel. */
  ghost predicate SameRow(a: seq<byte>, ra: nat, b: seq<byte>, rb: nat, w: nat) {
    forall k :: 0 <= k < 4 * w && k % 4 != 3 ==> ra + k < |a| && rb + k < |b| && a[ra + k] == b[rb + k]
  }

  /** Two sources have the same colour bytes, whatever their pitch, padding and X bytes. */
  ghost predicate SamePicture(a: seq<byte>, pa: nat, b: seq<byte>, pb: nat, w: nat, h: nat) {
    forall row: nat :: row < h ==> SameRow(a, RowStart(pa, row), b, RowStart(pb, row), w)
  }

  lemma SameByte(a: seq<byte>, ra: nat, b: seq<byte>, rb: nat, w: nat, k: nat)
    requires SameRow(a, ra, b, rb, w) && k < 4 * w && k % 4 != 3
    ensures ra + k < |a| && rb + k < |b| && a[ra + k] == b[rb + k]
  {
  }

  lemma SamePixel(a: seq<byte>, pa: nat, b: seq<byte>, pb: nat, w: nat, h: nat, x: nat, row: nat)
    requires Holds(a, w, h, pa) && Holds(b, w, h, pb) && SamePicture(a, pa, b, pb, w, h) && x < w && row < h
    ensures SourcePixel(a, w, h, pa, x, row) == SourcePixel(b, w, h, pb, x, row)
  {
    var (ra, rb) := (RowStart(pa, row), RowStart(pb, row));
    SameByte(a, ra, b, rb, w, 4 * x);
    SameByte(a, ra, b, rb, w, 4 * x + 1);
    SameByte(a, ra, b, rb, w, 4 * x + 2);
  }

  /** The block at column `i` of row pair `p`. */
  function SourceBlock(src: seq<byte>, w: nat, h: nat, pitch: nat, i: nat, p: nat): Block
    requires Holds(src, w, h, pitch) && i < w / 2 && p < h / 2
  {
    Block(SourcePixel(src, w, h, pitch, 2 * i, 2 * p), SourcePixel(src, w, h, pitch, 2 * i + 1, 2 * p),
          SourcePixel(src, w, h, pitch, 2 * i, 2 * p + 1), SourcePixel(src, w, h, pitch, 2 * i + 1, 2 * p + 1))
  }

  /** Every luma byte is its pixel's. */
  lemma LumaOfPixel(src: seq<byte>, w: nat, h: nat, pitch: nat, y: seq<byte>, u: seq<byte>, v: seq<byte>, x: nat, row: nat)
    requires Holds(src, w, h, pitch) && Converted(src, w, h, pitch, y, u, v) && x < w && row < h
    ensures RowStart(w, row) + x < |y| && y[RowStart(w, row) + x] == LumaOf(SourcePixel(src, w, h, pitch, x, row))
  {
    assert PairDone(src, w, pitch, y, u, v, row / 2);
    assert row == 2 * (row / 2) || row == 2 * (row / 2) + 1;
    LumaInSlice(src, RowStart(pitch, row), y, RowStart(w, row), w, x, SourcePixel(src, w, h, pitch, x, row));
  }

  lemma LumaInSlice(src: seq<byte>, row: nat, y: seq<byte>, y0: nat, n: nat, x: nat, p: Pixel)
    requires LumaSlice(src, row, y, y0, n) && x < n && p == PixelAt(src, row + 4 * x)
    ensures y0 + x < |y| && y[y0 + x] == LumaOf(p)
  {
  }

  /** Every chroma byte is its block's. */
  lemma ChromaOfBlock(src: seq<byte>, w: nat, h: nat, pitch: nat, y: seq<byte>, u: seq<byte>, v: seq<byte>, i: nat, p: nat)
    requires Holds(src, w, h, pitch) && Converted(src, w, h, pitch, y, u, v) && i < w / 2 && p < h / 2
    ensures var c := RowStart(w / 2, p) + i;
            && c < |u| && c < |v|
            && u[c] == SourceBlock(src, w, h, pitch, i, p).Cb()
            && v[c] == SourceBlock(src, w, h, pitch, i, p).Cr()
  {
    assert PairDone(src, w, pitch, y, u, v, p);
    ChromaInSlice(src, RowStart(pitch, 2 * p), RowStart(pitch, 2 * p + 1), u, v, RowStart(w / 2, p), w / 2, i,
                  SourceBlock(src, w, h, pitch, i, p));
  }

  lemma ChromaInSlice(src: seq<byte>, row0: nat, row1: nat, u: seq<byte>, v: seq<byte>, c0: nat, n: nat, i: nat, k: Block)
    requires ChromaSlice(src, row0, row1, u, v, c0, n) && i < n
    requires row0 + 8 * i + 8 <= |src| && row1 + 8 * i + 8 <= |src| && k == BlockAt(src, row0 + 8 * i, row1 + 8 * i)
    ensures c0 + i < |u| && c0 + i < |v| && u[c0 + i] == k.Cb() && v[c0 + i] == k.Cr()
  {
  }

  lemma SameBlock(a: seq<byte>, pa: nat, b: seq<byte>, pb: nat, w: nat, h: nat, i: nat, p: nat)
    requires Holds(a, w, h, pa) && Holds(b, w, h, pb) && SamePicture(a, pa, b, pb, w, h) && i < w / 2 && p < h / 2
    ensures SourceBlock(a, w, h, pa, i, p) == SourceBlock(b, w, h, pb, i, p)
  {
    SamePixel(a, pa, b, pb, w, h, 2 * i, 2 * p);
    SamePixel(a, pa, b, pb, w, h, 2 * i + 1, 2 * p);
    SamePixel(a, pa, b, pb, w, h, 2 * i, 2 * p + 1);
    SamePixel(a, pa, b, pb, w, h, 2 * i + 1, 2 * p + 1);
  }

  /** In every converted picture the luma byte of a pixel is less than 1 from the exact luma of the
      source bytes at the offsets 2 (red), 1 (green) and 0 (blue) of that pixel. */
  lemma LumaOfBytes(src: seq<byte>, w: nat, h: nat, pitch: nat, y: seq<byte>, u: seq<byte>, v: seq<byte>, x: nat, row: nat)
    requires Holds(src, w, h, pitch) && Converted(src, w, h, pitch, y, u, v) && x < w && row < h
    ensures var (o, d) := (row * pitch + 4 * x, row * w + x);
            && 0 <= o <= |src| - 4 && 0 <= d < |y|
            && 16 <= y[d] <= 235
            && Near(y[d], ExactLuma(src[o + 2] as real, src[o + 1] as real, src[o] as real), 1.0)
  {
    RowStartIsProduct(pitch, row);
    RowStartIsProduct(w, row);
    RowWithin(src, w, h, pitch, row);
    LumaOfPixel(src, w, h, pitch, y, u, v, x, row);
    var o := RowStart(pitch, row) + 4 * x;
    LumaIsAccurate(src[o + 2], src[o + 1], src[o]);
  }

  /** The mean over a block of the source bytes at the offset `k` of its four pixels; the rows of the
      block start at `o0` and `o1`. */
  function MeanOfBytes(src: seq<byte>, o0: nat, o1: nat, k: nat): real
    requires k < 4 && o0 + 8 <= |src| && o1 + 8 <= |src|
  {
    (src[o0 + k] as real + src[o0 + 4 + k] as real + src[o1 + k] as real + src[o1 + 4 + k] as real) / 4.0
  }

  /** In every converted picture the chroma bytes of a block are less than 1.5 from the exact values of
      the means of its red, green and blue source bytes. */
  lemma ChromaOfBytes(src: seq<byte>, w: nat, h: nat, pitch: nat, y: seq<byte>, u: seq<byte>, v: seq<byte>, i: nat, p: nat)
    requires Holds(src, w, h, pitch) && Converted(src, w, h, pitch, y, u, v) && i < w / 2 && p < h / 2
    ensures var (o0, o1, c) := (2 * p * pitch + 8 * i, (2 * p + 1) * pitch + 8 * i, p * (w / 2) + i);
            && 0 <= o0 <= |src| - 8 && 0 <= o1 <= |src| - 8 && 0 <= c < |u| && c < |v|
            && ChromaNear(u[c], v[c], MeanOfBytes(src, o0, o1, 2), MeanOfBytes(src, o0, o1, 1), MeanOfBytes(src, o0, o1, 0))
  {
    RowStartIsProduct(pitch, 2 * p);
    RowStartIsProduct(pitch, 2 * p + 1);
    RowStartIsProduct(w / 2, p);
    ChromaAt(src, w, h, pitch, y, u, v, i, p, RowStart(pitch, 2 * p) + 8 * i, RowStart(pitch, 2 * p + 1) + 8 * i);
  }

  /** The same with the offsets of the two rows. */
  lemma ChromaAt(src: seq<byte>, w: nat, h: nat, pitch: nat, y: seq<byte>, u: seq<byte>, v: seq<byte>, i: nat, p: nat, o0: nat, o1: nat)
    requires Holds(src, w, h, pitch) && Converted(src, w, h, pitch, y, u, v) && i < w / 2 && p < h / 2
    requires o0 == RowStart(pitch, 2 * p) + 8 * i && o1 == RowStart(pitch, 2 * p + 1) + 8 * i
    ensures o0 + 8 <= |src| && o1 + 8 <= |src|
    ensures var c := RowStart(w / 2, p) + i;
            && c < |u| && c < |v|
            && ChromaNear(u[c], v[c], MeanOfBytes(src, o0, o1, 2), MeanOfBytes(src, o0, o1, 1), MeanOfBytes(src, o0, o1, 0))
  {
    RowWithin(src, w, h, pitch, 2 * p);
    RowWithin(src, w, h, pitch, 2 * p + 1);
    ChromaOfBlock(src, w, h, pitch, y, u, v, i, p);
    BlockAtRows(src, w, h, pitch, i, p);
    ChromaOfRows(src, o0, o1);
  }

  lemma BlockAtRows(src: seq<byte>, w: nat, h: nat, pitch: nat, i: nat, p: nat)
    requires Holds(src, w, h, pitch) && i < w / 2 && p < h / 2
    ensures var (o0, o1) := (RowStart(pitch, 2 * p) + 8 * i, RowStart(pitch, 2 * p + 1) + 8 * i);
            o0 + 8 <= |src| && o1 + 8 <= |src| && SourceBlock(src, w, h, pitch, i, p) == BlockAt(src, o0, o1)
  {
    RowWithin(src, w, h, pitch, 2 * p);
    RowWithin(src, w, h, pitch, 2 * p + 1);
  }

  /** The chroma bytes are in range and less than 1.5 from the exact values. */
  predicate ChromaNear(cb: byte, cr: byte, r: real, g: real, b: real) {
    && 16 <= cb <= 240 && Near(cb, ExactCb(r, g, b), 1.5)
    && 16 <= cr <= 240 && Near(cr, ExactCr(r, g, b), 1.5)
  }

  lemma ChromaOfRows(src: seq<byte>, o0: nat, o1: nat)
    requires o0 + 8 <= |src| && o1 + 8 <= |src|
    ensures var k := BlockAt(src, o0, o1);
            ChromaNear(k.Cb(), k.Cr(), MeanOfBytes(src, o0, o1, 2), MeanOfBytes(src, o0, o1, 1), MeanOfBytes(src, o0, o1, 0))
  {
    var k := BlockAt(src, o0, o1);
    ChromaIsAccurate(k, MeanOfBytes(src, o0, o1, 2), MeanOfBytes(src, o0, o1, 1), MeanOfBytes(src, o0, o1, 0));
  }

  /** The planes depend on nothing but the colour bytes of the picture: pitch, row padding, X bytes and
      the order of the row pairs never influence them. */
  lemma PlanesDependOnPictureOnly(a: seq<byte>, pa: nat, b: seq<byte>, pb: nat, w: nat, h: nat,
                                  ya: seq<byte>, ua: seq<byte>, va: seq<byte>, yb: seq<byte>, ub: seq<byte>, vb: seq<byte>)
    requires Holds(a, w, h, pa) && Holds(b, w, h, pb) && SamePicture(a, pa, b, pb, w, h)
    requires Converted(a, w, h, pa, ya, ua, va) && Converted(b, w, h, pb, yb, ub, vb)
    ensures ya == yb && ua == ub && va == vb
  {
    forall k | 0 <= k < w * h ensures ya[k] == yb[k] {
      var (x, row) := Position(w, h, k);
      SamePixel(a, pa, b, pb, w, h, x, row);
      LumaOfPixel(a, w, h, pa, ya, ua, va, x, row);
      LumaOfPixel(b, w, h, pb, yb, ub, vb, x, row);
    }
    forall k | 0 <= k < (w / 2) * (h / 2) ensures ua[k] == ub[k] && va[k] == vb[k] {
      var (i, p) := Position(w / 2, h / 2, k);
      SameBlock(a, pa, b, pb, w, h, i, p);
      ChromaOfBlock(a, w, h, pa, ya, ua, va, i, p);
      ChromaOfBlock(b, w, h, pb, yb, ub, vb, i, p);
    }
  }

  /** Column and row of a plane index. */
  function Position(w: nat, h: nat, k: nat): (p: (nat, nat))
    requires k < w * h
    ensures p.0 < w && p.1 < h && RowStart(w, p.1) + p.0 == k
  {
    RowStartIsProduct(w, h);
    PositionFrom(w, h, k)
  }

  function PositionFrom(w: nat, h: nat, k: nat): (p: (nat, nat))
    requires k < RowStart(w, h)
    ensures p.0 < w && p.1 < h && RowStart(w, p.1) + p.0 == k
    decreases h
  {
    if k >= RowStart(w, h - 1) then (k - RowStart(w, h - 1), h - 1) else PositionFrom(w, h - 1, k)
  }
}
