/**
  Fixed-point BT.601 limited-range colour arithmetic and how far it is from the exact values of
  section 2.5 of Recommendation ITU-R BT.601-7.
*/
module Colour {
  import opened Prelude

  /** `as u8`: the low eight bits. */
  function LowByte(x: int): byte {
    x % 256
  }

  /** The fixed-point sums, shifted right by eight (an arithmetic shift) and offset. */
  function LumaSum(r: int, g: int, b: int): int {
    (66 * r + 129 * g + 25 * b + 128) / 256 + 16
  }

  function CbSum(r: int, g: int, b: int): int {
    (-38 * r - 74 * g + 112 * b + 128) / 256 + 128
  }

  function CrSum(r: int, g: int, b: int): int {
    (112 * r - 94 * g - 18 * b + 128) / 256 + 128
  }

  function Luma(r: byte, g: byte, b: byte): byte {
    LowByte(LumaSum(r, g, b))
  }

  /** The rounded mean of one channel over a 2x2 block. */
  function Mean(p: byte, q: byte, s: byte, t: byte): byte {
    (p + q + s + t + 2) / 4
  }

  datatype Pixel = Pixel(r: byte, g: byte, b: byte)

  /** A 2x2 block: upper left, upper right, lower left, lower right. */
  datatype Block = Block(a: Pixel, b: Pixel, c: Pixel, d: Pixel)
  {
    function R(): byte { Mean(a.r, b.r, c.r, d.r) }
    function G(): byte { Mean(a.g, b.g, c.g, d.g) }
    function B(): byte { Mean(a.b, b.b, c.b, d.b) }
    function Cb(): byte { LowByte(CbSum(R(), G(), B())) }
    function Cr(): byte { LowByte(CrSum(R(), G(), B())) }
  }

  // ---- The exact values ----

  function ExactLuma(r: real, g: real, b: real): real {
    16.0 + 219.0 * (0.299 * r + 0.587 * g + 0.114 * b) / 255.0
  }

  function ExactCb(r: real, g: real, b: real): real {
    128.0 + 224.0 * ((b - (0.299 * r + 0.587 * g + 0.114 * b)) / 1.772) / 255.0
  }

  function ExactCr(r: real, g: real, b: real): real {
    128.0 + 224.0 * ((r - (0.299 * r + 0.587 * g + 0.114 * b)) / 1.402) / 255.0
  }

  function TrueMean(p: byte, q: byte, s: byte, t: byte): real {
    (p + q + s + t) as real / 4.0
  }

  predicate Near(x: int, exact: real, bound: real) {
    -bound < x as real - exact < bound
  }

  /** Luma never truncates, stays in 16..235 and is less than 1 from the exact value. */
  lemma LumaIsAccurate(r: byte, g: byte, b: byte)
    ensures Luma(r, g, b) == LumaSum(r, g, b) && 16 <= Luma(r, g, b) <= 235
    ensures Near(Luma(r, g, b), ExactLuma(r as real, g as real, b as real), 1.0)
  {
    var n := 66 * r + 129 * g + 25 * b + 128;
    assert 256 * (n / 256) <= n < 256 * (n / 256) + 256;
  }

  /** `x` is `n / 256`, rounded to the nearest integer with halves going up. */
  predicate NearestOf256(x: int, n: int) {
    -128 < 256 * x - n <= 128
  }

  /** The sums round the fixed-point products, of whatever sign, and never drop them. */
  lemma SumsAreRounded(r: byte, g: byte, b: byte)
    ensures NearestOf256(LumaSum(r, g, b) - 16, 66 * r + 129 * g + 25 * b)
    ensures NearestOf256(CbSum(r, g, b) - 128, 112 * b - 38 * r - 74 * g)
    ensures NearestOf256(CrSum(r, g, b) - 128, 112 * r - 94 * g - 18 * b)
  {
  }

  /** `m` is what rounding makes of the mean `exact`. */
  predicate Rounded(m: byte, exact: real) {
    -0.25 <= m as real - exact <= 0.5
  }

  lemma MeanIsRounded(p: byte, q: byte, s: byte, t: byte)
    ensures Rounded(Mean(p, q, s, t), TrueMean(p, q, s, t))
  {
  }

  lemma CbOfMeans(r: byte, g: byte, b: byte, er: real, eg: real, eb: real)
    requires Rounded(r, er) && Rounded(g, eg) && Rounded(b, eb)
    ensures 16 <= CbSum(r, g, b) <= 240 && Near(CbSum(r, g, b), ExactCb(er, eg, eb), 1.5)
  {
    var n := -38 * r - 74 * g + 112 * b + 128;
    assert 256 * (n / 256) <= n < 256 * (n / 256) + 256;
    var exact := 112.0 * eb - 37.79684 * er - 74.20317 * eg;
    assert -0.1 < 255.0 * (ExactCb(er, eg, eb) - 128.0) - exact < 0.1;
  }

  lemma CrOfMeans(r: byte, g: byte, b: byte, er: real, eg: real, eb: real)
    requires Rounded(r, er) && Rounded(g, eg) && Rounded(b, eb)
    ensures 16 <= CrSum(r, g, b) <= 240 && Near(CrSum(r, g, b), ExactCr(er, eg, eb), 1.5)
  {
    var n := 112 * r - 94 * g - 18 * b + 128;
    assert 256 * (n / 256) <= n < 256 * (n / 256) + 256;
  }

  lemma FitsAByte(x: int)
    requires 0 <= x < 256
    ensures LowByte(x) == x
  {
  }

  /** Chroma never truncates, stays in 16..240 and is less than 1.5 from the exact value of the
      unrounded mean of the block. */
  lemma ChromaIsAccurate(k: Block, r: real, g: real, b: real)
    requires r == TrueMean(k.a.r, k.b.r, k.c.r, k.d.r)
    requires g == TrueMean(k.a.g, k.b.g, k.c.g, k.d.g)
    requires b == TrueMean(k.a.b, k.b.b, k.c.b, k.d.b)
    ensures k.Cb() == CbSum(k.R(), k.G(), k.B()) && 16 <= k.Cb() <= 240 && Near(k.Cb(), ExactCb(r, g, b), 1.5)
    ensures k.Cr() == CrSum(k.R(), k.G(), k.B()) && 16 <= k.Cr() <= 240 && Near(k.Cr(), ExactCr(r, g, b), 1.5)
  {
    assert Rounded(k.R(), r) by { MeanIsRounded(k.a.r, k.b.r, k.c.r, k.d.r); }
    assert Rounded(k.G(), g) by { MeanIsRounded(k.a.g, k.b.g, k.c.g, k.d.g); }
    assert Rounded(k.B(), b) by { MeanIsRounded(k.a.b, k.b.b, k.c.b, k.d.b); }
    CbOfMeans(k.R(), k.G(), k.B(), r, g, b);
    CrOfMeans(k.R(), k.G(), k.B(), r, g, b);
    FitsAByte(CbSum(k.R(), k.G(), k.B()));
    FitsAByte(CrSum(k.R(), k.G(), k.B()));
  }

  predicate Grey(p: Pixel) {
    p.r == p.g == p.b
  }

  /** Four grey pixels, equal or not, have no colour. */
  lemma GreyHasNoColour(k: Block)
    requires Grey(k.a) && Grey(k.b) && Grey(k.c) && Grey(k.d)
    ensures k.Cb() == 128 && k.Cr() == 128
  {
    assert k.R() == k.G() == k.B();
  }
}
