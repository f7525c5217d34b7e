/**
 * 8-bit RGB pixels and the per-pixel rules of the compositors and the
 * binarizer (stellacomp/src/composite.rs, stellacomp/src/imageproc.rs).
 *
 * Luma is the ITU-R BT.601 weighting 0.299 R + 0.587 G + 0.114 B. The source
 * evaluates it in f32; here it is the exact integer 299 R + 587 G + 114 B,
 * that is the real-valued luma scaled by 1000.
 */
module Pixel {

  /** One 8-bit colour channel. */
  type Byte = x: int | 0 <= x < 256

  datatype Rgb = Rgb(r: Byte, g: Byte, b: Byte)

  const Black: Rgb := Rgb(0, 0, 0)
  const White: Rgb := Rgb(255, 255, 255)

  /** Largest value Luma can take: the luma of White. */
  const MaxLuma: nat := 255000

  /** BT.601 luma times 1000. */
  function Luma(p: Rgb): (l: nat)
    ensures l <= MaxLuma
  {
    299 * p.r + 587 * p.g + 114 * p.b
  }

  /**
   * Compare-lighten of one pixel: the whole pixel of whichever input is
   * brighter; on equal luma the second input wins (the source tests
   * `l1 > l2` and otherwise takes pixel2).
   */
  function LightenPixel(p1: Rgb, p2: Rgb): (p: Rgb)
    ensures p == p1 || p == p2
  {
    if Luma(p1) > Luma(p2) then p1 else p2
  }

  /** Lighten's result is at least as bright as both inputs; on a tie it is the second. */
  lemma LightenPicksBrighter(p1: Rgb, p2: Rgb)
    ensures Luma(LightenPixel(p1, p2)) >= Luma(p1) && Luma(LightenPixel(p1, p2)) >= Luma(p2)
    ensures Luma(p1) == Luma(p2) ==> LightenPixel(p1, p2) == p2
  {
  }

  /** c is the half-sum of a and b truncated toward zero. */
  predicate TruncatedMean(c: int, a: int, b: int)
  {
    2 * c <= a + b <= 2 * c + 1
  }

  /**
   * Averaging of one pixel, channel by channel: `(c1 + c2) / 2.0` in f32 is
   * exact (the sum is at most 510) and the `as u8` cast truncates it.
   */
  function AveragePixel(p1: Rgb, p2: Rgb): (p: Rgb)
    ensures TruncatedMean(p.r, p1.r, p2.r)
    ensures TruncatedMean(p.g, p1.g, p2.g)
    ensures TruncatedMean(p.b, p1.b, p2.b)
  {
    Rgb((p1.r + p2.r) / 2, (p1.g + p2.g) / 2, (p1.b + p2.b) / 2)
  }

  /**
   * Binarization of one pixel against a whole-number threshold t: white when
   * the luma (in 0..255 units) is strictly above t, black otherwise.
   */
  function BinarizePixel(p: Rgb, t: int): (q: Rgb)
    ensures q == White || q == Black
    ensures q == White <==> Luma(p) > 1000 * t
  {
    if Luma(p) > 1000 * t then White else Black
  }

  predicate IsBlackOrWhite(p: Rgb)
  {
    p == Black || p == White
  }

  /** Only black has luma 0 and only white has the largest luma. */
  lemma LumaExtremes(p: Rgb)
    ensures Luma(p) == 0 <==> p == Black
    ensures Luma(p) == MaxLuma <==> p == White
  {
  }

  /** The lighten result is the first input exactly when it is strictly brighter (or both inputs are the same pixel). */
  lemma LightenPicksFirstIff(p1: Rgb, p2: Rgb)
    ensures LightenPixel(p1, p2) == p1 <==> Luma(p1) > Luma(p2) || p1 == p2
  {
  }

  lemma LightenIdempotent(p: Rgb)
    ensures LightenPixel(p, p) == p
  {
  }

  /** Two different pixels of equal luma: whichever is passed second is kept. */
  lemma LightenTieGoesToSecond()
    ensures Luma(Rgb(15, 0, 7)) == Luma(Rgb(0, 9, 0))
    ensures LightenPixel(Rgb(15, 0, 7), Rgb(0, 9, 0)) == Rgb(0, 9, 0)
    ensures LightenPixel(Rgb(0, 9, 0), Rgb(15, 0, 7)) == Rgb(15, 0, 7)
  {
  }

  lemma AverageBetween(p1: Rgb, p2: Rgb)
    ensures var p := AveragePixel(p1, p2);
      (p1.r <= p.r <= p2.r || p2.r <= p.r <= p1.r) &&
      (p1.g <= p.g <= p2.g || p2.g <= p.g <= p1.g) &&
      (p1.b <= p.b <= p2.b || p2.b <= p.b <= p1.b)
  {
  }

  lemma AverageCommutes(p1: Rgb, p2: Rgb)
    ensures AveragePixel(p1, p2) == AveragePixel(p2, p1)
  {
  }

  lemma AverageIdempotent(p: Rgb)
    ensures AveragePixel(p, p) == p
  {
  }

  /** Black averaged with white truncates to 127 in every channel. */
  lemma AverageBlackWhite()
    ensures AveragePixel(Black, White) == Rgb(127, 127, 127)
  {
  }

  /** A black-and-white pixel is a fixed point of BinarizePixel for every threshold 0 <= t < 255. */
  lemma BinarizeFixesBlackAndWhite(p: Rgb, t: int)
    requires IsBlackOrWhite(p)
    requires 0 <= t < 255
    ensures BinarizePixel(p, t) == p
  {
    LumaExtremes(p);
  }

  /** Raising the threshold never turns a black output pixel white. */
  lemma BinarizeMonotone(p: Rgb, t1: int, t2: int)
    requires t1 <= t2
    ensures BinarizePixel(p, t1) == Black ==> BinarizePixel(p, t2) == Black
  {
  }
}
