/**
 * The two compositors of stellacomp/src/composite.rs (repeated line for line
 * in stellacomp/src/imageproc.rs). Each allocates a black buffer of image1's
 * size, visits every (x, y) row by row and writes one pixel, then hands the
 * buffer back as a frame. Neither input is changed.
 *
 * Nothing checks that the two inputs have the same size: the output takes
 * image1's size and image2 is read at image1's coordinates, so image2 must
 * cover image1.
 */
module Composite {
  import opened Pixel
  import opened Frames

  /** Compare-lighten composite: every pixel comes whole from the brighter input, ties from image2. */
  method Lighten(image1: Frame, image2: Frame) returns (image: Frame)
    requires image1.Valid() && image2.Valid() && Covers(image2, image1)
    ensures image.Valid() && image.width == image1.width && image.height == image1.height
    ensures forall x: nat, y: nat :: x < image.width && y < image.height ==>
      image.At(x, y) == LightenPixel(image1.At(x, y), image2.At(x, y))
    ensures image1 == image2 ==> image == image1
  {
    var width, height := image1.width, image1.height;
    var buffer := new RgbImage(width, height);
    for y := 0 to height
      invariant forall j, i :: 0 <= j < y && 0 <= i < width ==>
        buffer.data[j, i] == LightenPixel(image1.At(i, j), image2.At(i, j))
    {
      for x := 0 to width
        invariant forall j, i :: 0 <= j < y && 0 <= i < width ==>
          buffer.data[j, i] == LightenPixel(image1.At(i, j), image2.At(i, j))
        invariant forall i :: 0 <= i < x ==>
          buffer.data[y, i] == LightenPixel(image1.At(i, y), image2.At(i, y))
      {
        var pixel1 := image1.At(x, y);
        var pixel2 := image2.At(x, y);
        var l1 := Luma(pixel1);
        var l2 := Luma(pixel2);
        if l1 > l2 {
          buffer.PutPixel(x, y, pixel1);
        } else {
          buffer.PutPixel(x, y, pixel2);
        }
      }
    }
    image := buffer.ToFrame();
    if image1 == image2 {
      forall x: nat, y: nat | x < width && y < height
        ensures image.At(x, y) == image1.At(x, y)
      {
        LightenIdempotent(image1.At(x, y));
      }
      FrameExt(image, image1);
    }
  }

  /** Average composite: every channel is the truncated half-sum of the two inputs' channels. */
  method Average(image1: Frame, image2: Frame) returns (image: Frame)
    requires image1.Valid() && image2.Valid() && Covers(image2, image1)
    ensures image.Valid() && image.width == image1.width && image.height == image1.height
    ensures forall x: nat, y: nat :: x < image.width && y < image.height ==>
      image.At(x, y) == AveragePixel(image1.At(x, y), image2.At(x, y))
    ensures image1 == image2 ==> image == image1
  {
    var width, height := image1.width, image1.height;
    var buffer := new RgbImage(width, height);
    for y := 0 to height
      invariant forall j, i :: 0 <= j < y && 0 <= i < width ==>
        buffer.data[j, i] == AveragePixel(image1.At(i, j), image2.At(i, j))
    {
      for x := 0 to width
        invariant forall j, i :: 0 <= j < y && 0 <= i < width ==>
          buffer.data[j, i] == AveragePixel(image1.At(i, j), image2.At(i, j))
        invariant forall i :: 0 <= i < x ==>
          buffer.data[y, i] == AveragePixel(image1.At(i, y), image2.At(i, y))
      {
        var pixel1 := image1.At(x, y);
        var pixel2 := image2.At(x, y);
        var r := (pixel1.r + pixel2.r) / 2;
        var g := (pixel1.g + pixel2.g) / 2;
        var b := (pixel1.b + pixel2.b) / 2;
        buffer.PutPixel(x, y, Rgb(r, g, b));
      }
    }
    image := buffer.ToFrame();
    if image1 == image2 {
      forall x: nat, y: nat | x < width && y < height
        ensures image.At(x, y) == image1.At(x, y)
      {
        AverageIdempotent(image1.At(x, y));
      }
      FrameExt(image, image1);
    }
  }
}
