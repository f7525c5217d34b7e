/**
 * Frames and the output pixel buffer.
 *
 * A `Frame` is an immutable 8-bit RGB image, the model of the `DynamicImage`
 * values the compositors read and return. An `RgbImage` is the mutable buffer
 * that `RgbImage::new` allocates (every pixel black) and `put_pixel` fills;
 * `ToFrame` is the `DynamicImage::from` conversion that ends its life.
 */
module Frames {
  import opened Pixel

  /** rows[y][x] is the pixel at column x of row y. */
  datatype Frame = Frame(width: nat, height: nat, rows: seq<seq<Rgb>>) {

    predicate Valid()
    {
      |rows| == height && forall y :: 0 <= y < height ==> |rows[y]| == width
    }

    /** `get_pixel(x, y)` */
    function At(x: nat, y: nat): Rgb
      requires Valid() && x < width && y < height
    {
      rows[y][x]
    }
  }

  /**
   * Reading every pixel of `small` at the same coordinates of `big` stays in
   * range: the compositors read image2 at image1's coordinates.
   */
  predicate Covers(big: Frame, small: Frame)
  {
    small.width <= big.width && small.height <= big.height
  }

  /** Two valid frames with the same size and the same pixels are the same frame. */
  lemma {:induction false} FrameExt(f: Frame, g: Frame)
    requires f.Valid() && g.Valid() && f.width == g.width && f.height == g.height
    requires forall x: nat, y: nat :: x < f.width && y < f.height ==> f.At(x, y) == g.At(x, y)
    ensures f == g
  {
    forall y | 0 <= y < f.height
      ensures f.rows[y] == g.rows[y]
    {
      assert forall x :: 0 <= x < f.width ==> f.rows[y][x] == f.At(x, y) == g.At(x, y) == g.rows[y][x];
    }
    assert f.rows == g.rows;
  }

  /** The pixel buffer of `RgbImage::new(width, height)`. */
  class RgbImage {
    const width: nat
    const height: nat
    /** data[y, x] is the pixel at column x of row y. */
    const data: array2<Rgb>

    ghost predicate Valid()
    {
      data.Length0 == height && data.Length1 == width
    }

    /** A new buffer is black everywhere. */
    constructor (width: nat, height: nat)
      ensures Valid() && fresh(data)
      ensures this.width == width && this.height == height
      ensures forall y, x :: 0 <= y < height && 0 <= x < width ==> data[y, x] == Black
    {
      this.width := width;
      this.height := height;
      data := new Rgb[height, width]((y, x) => Black);
    }

    /** `put_pixel(x, y, p)`: one pixel changes, every other stays. */
    method PutPixel(x: nat, y: nat, p: Rgb)
      requires Valid() && x < width && y < height
      modifies data
      ensures data[y, x] == p
      ensures forall j, i :: 0 <= j < height && 0 <= i < width && (j != y || i != x) ==> data[j, i] == old(data[j, i])
    {
      data[y, x] := p;
    }

    /** `DynamicImage::from(buffer)`: the frame holding exactly the buffer's pixels. */
    function ToFrame(): (f: Frame)
      requires Valid()
      reads data
      ensures f.Valid() && f.width == width && f.height == height
      ensures forall x: nat, y: nat :: x < width && y < height ==> f.At(x, y) == data[y, x]
    {
      Frame(width, height,
        seq(height, y requires 0 <= y < height reads data =>
          seq(width, x requires 0 <= x < width reads data => data[y, x])))
    }
  }
}
