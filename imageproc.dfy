/**
 * The binarizer of stellacomp/src/imageproc.rs. The threshold is computed by
 * OpenCV's Otsu routine on a grayscale copy of the image; that routine is not
 * part of this model, so the threshold it returns (a whole number in 0..255
 * for 8-bit input) is a parameter here. The mapping from luma to black or
 * white is modelled exactly.
 */
module ImageProc {
  import opened Pixel
  import opened Frames

  predicate IsBlackAndWhite(f: Frame)
    requires f.Valid()
  {
    forall x: nat, y: nat :: x < f.width && y < f.height ==> IsBlackOrWhite(f.At(x, y))
  }

  /**
   * Every pixel brighter than the threshold becomes white, every other black;
   * an image that is already black and white comes back unchanged for any
   * threshold 0 <= t < 255.
   */
  method Binarize(image: Frame, threshold: int) returns (binary: Frame)
    requires image.Valid()
    ensures binary.Valid() && binary.width == image.width && binary.height == image.height
    ensures forall x: nat, y: nat :: x < binary.width && y < binary.height ==>
      binary.At(x, y) == BinarizePixel(image.At(x, y), threshold)
    ensures IsBlackAndWhite(binary)
    ensures 0 <= threshold < 255 && IsBlackAndWhite(image) ==> binary == image
  {
    var width, height := image.width, image.height;
    var buffer := new RgbImage(width, height);
    for y := 0 to height
      invariant forall j, i :: 0 <= j < y && 0 <= i < width ==>
        buffer.data[j, i] == BinarizePixel(image.At(i, j), threshold)
    {
      for x := 0 to width
        invariant forall j, i :: 0 <= j < y && 0 <= i < width ==>
          buffer.data[j, i] == BinarizePixel(image.At(i, j), threshold)
        invariant forall i :: 0 <= i < x ==>
          buffer.data[y, i] == BinarizePixel(image.At(i, y), threshold)
      {
        var pixel := image.At(x, y);
        if Luma(pixel) > 1000 * threshold {
          buffer.PutPixel(x, y, White);
        } else {
          buffer.PutPixel(x, y, Black);
        }
      }
    }
    binary := buffer.ToFrame();
    if 0 <= threshold < 255 && IsBlackAndWhite(image) {
      forall x: nat, y: nat | x < width && y < height
        ensures binary.At(x, y) == image.At(x, y)
      {
        BinarizeFixesBlackAndWhite(image.At(x, y), threshold);
      }
      FrameExt(binary, image);
    }
  }
}
