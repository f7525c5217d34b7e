# stellacomp — a Dafny model

stellacomp (the `hoshikasane` repository) stacks astrophotographs. It merges
two exposures with compare-lighten or with averaging, binarizes an image
against a threshold, and estimates the affine transform that aligns a
target exposure with a base one from matched feature points. A small command
line front end (`src/main.rs`) drives the three subcommands.

This project models the parts of that code that are not calls into image
libraries:

- `Pixel` (pixel.dfy): 8-bit RGB pixels, the BT.601 luma as the exact integer
  `299 R + 587 G + 114 B` (the real luma times 1000), and the per-pixel rules
  of compare-lighten, averaging and binarization.
- `Frames` (frame.dfy): immutable frames (`DynamicImage`) and the mutable
  `RgbImage` buffer, a class over an `array2` with `put_pixel`.
- `Composite` (composite.dfy): `lighten` and `average`. Each allocates a black
  buffer of image1's size, fills it row by row in nested loops, and returns it
  as a frame. `stellacomp/src/imageproc.rs` holds line-for-line copies of both
  functions, so one model serves both files.
- `ImageProc` (imageproc.dfy): `binarize`, with the threshold as a parameter.
- `Utils` (utils.dfy): the extension dispatch of `convert_to_dynamic_image`.
  This is `split('.')`, its last piece, and the choice between the RAW decoder,
  the raster loader and the "Unsupported file type." panic.
- `Calc` (calc.dfy): the good-match loop of `matches` (distance strictly below
  20) and the hand-back of keypoints and descriptors.
- `Cli` (cli.dfy): the argument checks of the three subcommands. It also
  models the left-to-right fold of the compositor over the decoded files and
  the two point lists handed to the affine estimator.

Values the libraries produce are parameters. These are the decoded frames,
the Otsu threshold, the keypoints, the descriptors and the raw matches.
Panics that end a run are outcomes (`Panicked`, `AffinePanicked`, or `None`
from the dispatch).

Three facts about the code shape the model:

- The compositors never compare the two frames' sizes
  (`stellacomp/src/composite.rs:7-13`). They take image1's size and read
  image2 at image1's coordinates. The model states this as a precondition:
  image2 covers image1.
- The final argument `10` of `estimate_affine_2d` (`src/main.rs:112`) is
  OpenCV's number of refinement iterations, recorded as `refineIters`.
- An empty file list passes both argument checks of a stacking run and then
  panics reading `file[0]` (`src/main.rs:59, 78`); the model has an outcome
  for this. The check at `src/main.rs:49-52` rejects more than two files,
  although the message it prints asks for more than two.

## Model

| member | source | states |
|---|---|---|
| Pixel.Luma | stellacomp/src/composite.rs:23-24 | luma is a natural number no larger than the luma of white (255000 in thousandths) |
| Pixel.LumaExtremes | stellacomp/src/imageproc.rs:90 | only black has luma 0 and only white has the largest luma |
| Pixel.LightenPixel | stellacomp/src/composite.rs:26-30 | the `if l1 > l2` rule for one pixel: the result is one of the two inputs whole, so channels are never mixed |
| Pixel.LightenPicksBrighter | stellacomp/src/composite.rs:23-30 | the lighten pixel's luma is at least both inputs' luma, and on equal luma it is the second input |
| Pixel.LightenPicksFirstIff | stellacomp/src/composite.rs:26-30 | the lighten pixel is image1's exactly when image1's luma is strictly greater (or both pixels are the same) |
| Pixel.LightenIdempotent | stellacomp/src/composite.rs:26-30 | lightening a pixel with itself gives it back |
| Pixel.LightenTieGoesToSecond | stellacomp/src/composite.rs:23-30 | two different pixels with equal luma: whichever is passed second is kept |
| Pixel.AveragePixel | stellacomp/src/composite.rs:58-62 | each channel c of the result satisfies 2c <= c1 + c2 <= 2c + 1, the truncated half-sum |
| Pixel.AverageBetween | stellacomp/src/composite.rs:58-62 | every averaged channel lies between the two input channels |
| Pixel.AverageCommutes | stellacomp/src/composite.rs:58-62 | averaging does not depend on the order of the two pixels |
| Pixel.AverageIdempotent | stellacomp/src/composite.rs:58-62 | averaging a pixel with itself gives it back |
| Pixel.AverageBlackWhite | stellacomp/src/composite.rs:58-62 | black averaged with white is 127 in every channel |
| Pixel.BinarizePixel | stellacomp/src/imageproc.rs:90-95 | the result is white or black, and white exactly when the luma is strictly above the threshold |
| Pixel.BinarizeFixesBlackAndWhite | stellacomp/src/imageproc.rs:90-95 | for a threshold 0 <= t < 255, black stays black and white stays white |
| Pixel.BinarizeMonotone | stellacomp/src/imageproc.rs:91-95 | raising the threshold never turns a black output pixel white |
| Frames.Frame.At | stellacomp/src/composite.rs:12-13 | `get_pixel(x, y)`: the pixel at column x of row y, read only inside the frame (outside it the source panics) |
| Frames.RgbImage.constructor | stellacomp/src/composite.rs:7-8 | `RgbImage::new(width, height)` is a fresh buffer of that size, black everywhere |
| Frames.RgbImage.PutPixel | stellacomp/src/composite.rs:26-30 | `put_pixel` sets exactly one pixel and leaves every other pixel unchanged |
| Frames.RgbImage.ToFrame | stellacomp/src/composite.rs:35 | `DynamicImage::from` yields a frame of the buffer's size holding exactly its pixels |
| Composite.Lighten | stellacomp/src/composite.rs:6-36 | output has image1's size; every pixel is the lighten pixel of the two inputs there; lighten(a, a) == a (also the model of the identical copy at stellacomp/src/imageproc.rs lines 10-40) |
| Composite.Average | stellacomp/src/composite.rs:41-67 | output has image1's size; every pixel is the truncated channel-wise half-sum of the inputs; average(a, a) == a (also the model of the identical copy at stellacomp/src/imageproc.rs lines 45-71) |
| ImageProc.Binarize | stellacomp/src/imageproc.rs:76-99 | output has the input's size; every pixel is white iff its luma exceeds the threshold, else black; the output is pure black and white; a black-and-white input is returned unchanged for 0 <= t < 255 |
| Utils.Split | stellacomp/src/utils.rs:54 | `split('.')` always yields at least one piece, so `.last().unwrap()` never panics; what the pieces are is stated by SplitPiecesAvoidSep, SplitLastIsTail and JoinSplit |
| Utils.SplitPiecesAvoidSep | stellacomp/src/utils.rs:54 | no piece of `split('.')` contains a '.' |
| Utils.SplitLastIsTail | stellacomp/src/utils.rs:54 | the last piece of `split('.')` holds no '.' and is the suffix after the last '.', or the whole path without one |
| Utils.JoinSplit | stellacomp/src/utils.rs:54 | splitting loses nothing: joining the pieces with the separator gives back the path |
| Utils.Extension | stellacomp/src/utils.rs:54 | `split(".").last().unwrap()`: the last piece of the split, never longer than the path; ExtensionIsLastPiece and ExtensionAfterLastDot say which text it is |
| Utils.ExtensionIsLastPiece | stellacomp/src/utils.rs:54 | the extension has no '.', is a suffix of the path, and is preceded by '.' unless it is the whole path |
| Utils.ExtensionWithoutDot | stellacomp/src/utils.rs:54 | a path without '.' is its own extension |
| Utils.ExtensionAfterLastDot | stellacomp/src/utils.rs:54 | the extension is exactly the text after the last '.' |
| Utils.Dispatch | stellacomp/src/utils.rs:53-74 | extension "CR3" selects the RAW decoder, "tiff" the raster loader, anything else the unsupported-file panic (each an iff) |
| Utils.DispatchSelectsLoader | stellacomp/src/utils.rs:56-68 | "IMG_0001.CR3" goes to the RAW decoder and "night.sky.tiff" to the raster loader |
| Utils.DispatchIsCaseSensitive | stellacomp/src/utils.rs:56-72 | ".cr3", ".TIFF" and ".tif" are rejected |
| Utils.DispatchTrailingDot | stellacomp/src/utils.rs:54-72 | a path ending in '.' has the empty extension and is rejected |
| Utils.DispatchDotInDirectory | stellacomp/src/utils.rs:54-72 | a '.' only in a directory name gives an extension containing '/' ("a.d/img" gives "d/img"), which is rejected |
| Utils.DispatchWithoutDot | stellacomp/src/utils.rs:54-72 | a path with no '.' is matched whole: "CR3" is accepted, "image" is rejected |
| Calc.GoodOf | stellacomp/src/calc.rs:24-29 | the good matches are no more than the raw matches, and each is a raw match with distance < 20 |
| Calc.FilterGood | stellacomp/src/calc.rs:24-29 | the loop that pushes every match with distance < 20 returns exactly GoodOf of its input |
| Calc.Matches | stellacomp/src/calc.rs:10-34 | panics exactly when either path has an unsupported extension; otherwise both images' keypoints and descriptors come back untouched, with the good matches |
| Calc.GoodOfMembership | stellacomp/src/calc.rs:25-28 | a match is kept iff it is a raw match with distance < 20 |
| Calc.GoodOfCounts | stellacomp/src/calc.rs:25-28 | a good match is kept as many times as it occurs; a bad one never |
| Calc.GoodOfKeepsOrder | stellacomp/src/calc.rs:25-28 | the kept matches sit at strictly increasing positions of the raw list: the result is a subsequence |
| Calc.GoodOfIdempotent | stellacomp/src/calc.rs:24-29 | filtering the good matches again changes nothing |
| Calc.DistanceTwentyIsDropped | stellacomp/src/calc.rs:26 | a match at distance exactly 20 is dropped; one at 19.5 is kept |
| Cli.BlendPixel | src/main.rs:61-63 | one step of the loop for one pixel: lighten or average of the accumulator's pixel and the next frame's |
| Cli.Fold | src/main.rs:59-64 | the loop for one pixel: the left fold of BlendPixel over that location's pixels, starting from the first frame's |
| Cli.LightenFoldIsBrightest | src/main.rs:59-64 | folding lighten over the pixels picks one of them, with the greatest luma; this describes the loop as written for any number of frames, although the file-count check lets the program reach it with at most two |
| Cli.LightenFoldLastTieWins | src/main.rs:59-64 | a last pixel at least as bright as every earlier one wins the fold, so fold order breaks ties (the loop as written; the program reaches it with at most two frames) |
| Cli.AverageFoldIsOrderDependent | src/main.rs:78-83 | the loop as written truncates at every step: black, black, white would give 127 but white, black, black 63; the file-count check stops before any three-frame fold, so the program itself, with at most one average, never shows this |
| Cli.BlendFrame | src/main.rs:61-64 | one compositor step yields a frame of the accumulator's size with the blended pixel at every location |
| Cli.FoldFrames | src/main.rs:59-64 | the accumulator after any number of steps has the first frame's size |
| Cli.FoldFramesAt | src/main.rs:59-64 | the folded frame holds, at every location, the pixel fold of that location's pixels across the frames, left to right |
| Cli.LightenStackIsBrightest | src/main.rs:59-65 | a lighten stack shows, at every location, one of the frames' pixels there, and no frame is brighter there |
| Cli.Blend | src/main.rs:61-64 | `lighten_composition` / `average_composition` with the accumulator as the first operand |
| Cli.SupportedPrefix | src/main.rs:59-62 | the number of files that load before the first with an unsupported extension panics: all before it are supported, and the one at it is not |
| Cli.LoadAndFold | src/main.rs:59-64 | panics exactly when some file has an unsupported extension; otherwise returns the left-to-right fold of the decoded frames; only frames that are loaded before a panic need to be readable |
| Cli.RunComposite | src/main.rs:48-85 | for both stacking subcommands: more than two files stops first; then an empty output path; then an empty list panics at `file[0]`; an unsupported file panics; otherwise the fold of the decoded frames is saved to the output path; frame sizes matter only on the path that reaches the fold |
| Cli.FoldFramesOfOneOrTwo | src/main.rs:59-64 | one file is saved as decoded; two are saved as the compositor applied to the first and then the second |
| Cli.BuildPointLists | src/main.rs:104-109 | apt1 and apt2 have one point per match: apt1[i] is the base keypoint at query_idx and apt2[i] the target keypoint at train_idx |
| Cli.AffineConvert | src/main.rs:86-113 | an empty base stops before the target is looked at; then an empty target; an unsupported file panics; otherwise the estimator gets the good matches' target points as source and base points as destination, with the RANSAC method, a 3.0 reprojection threshold, 2000 iterations, 0.99 confidence and 10 refinement iterations |

## Left out

- Pixel.Luma: the source computes luma in f32 (`0.299 * r + 0.587 * g + 0.114 * b`). The model uses the exact integer luma times 1000, so where f32 rounding breaks a tie between two different pixels the model does not follow it. f32 never creates a tie or reverses an order, because its error stays far below the 0.001 gap between distinct exact lumas. The tie in `Pixel.LightenTieGoesToSecond`, (15, 0, 7) against (0, 9, 0), is also a tie in f32 (both about 5.283).
- Pixel.LightenPicksBrighter: the first ensures (the result is at least as bright as both inputs) also holds under the source's f32 comparison. The tie clause does not hold where f32 breaks the tie. (15, 0, 8) and (0, 9, 1) both have exact luma 5397, but their f32 lumas are about 5.3970003 and 5.3969998. With (15, 0, 8) as image1 the source keeps image1, while the model keeps image2. The same gap affects Pixel.LightenPicksFirstIff, Composite.Lighten and the lighten fold in Cli at such pixels.
- Pixel.BinarizePixel: the threshold is a whole number `t` and the comparison is exact luma > 1000 t. The source compares the f32 luma with the f32 threshold returned by Otsu's method, and f32 rounding can lift a grey pixel's luma just above its grey level: (15, 15, 15) comes to about 15.000001, so with threshold 15 the source paints it white where the model paints it black. 22 of the 256 grey levels round upward like this.
- Otsu's threshold and the grayscale conversion that feeds it (`stellacomp/src/imageproc.rs:77-80`) are library calls; the threshold is a parameter of `ImageProc.Binarize`.
- Composite.Lighten: requires image2 to cover image1. The source does no check; a smaller image2 makes `get_pixel` panic, and a larger one is read only in image1's range.
- Composite.Average: requires image2 to cover image1, for the same reason.
- Cli.RunComposite: when the run reaches loading, requires every frame loaded before the first unsupported file to cover the first frame, for the same reason.
- Composite.Lighten, Composite.Average, ImageProc.Binarize: the contracts state the final contents of the buffer. That each pixel is written exactly once is not tracked.
- Inputs are never modified because frames are immutable values here; the aliasing of `DynamicImage` references is not modelled.
- `DynamicImage::get_pixel` colour conversion (16-bit or float images to 8-bit RGBA) is library code; frames are 8-bit RGB only.
- Decoding: the RAW decoder (rawler) and `image::open` are not modelled. `decoded[i]` is the frame decoding `files[i]` yields, and decode failures (their `unwrap` panics) are not modelled.
- AKAZE feature detection and description (`stellacomp/src/calc.rs:36-50`) and the cross-checked brute-force Hamming matcher (`stellacomp/src/calc.rs:17-22`) are library calls; their results are parameters of `Calc.Matches` and `Cli.AffineConvert`.
- Cli.AffineConvert: requires every raw match's indices to be in range of the keypoint lists. The matcher guarantees this; the source's `unwrap` would otherwise panic.
- The affine estimation itself, the warp and its parameters (`src/main.rs:111-126`) are randomised floating-point library code. The model stops at the estimator's arguments.
- The second loading of the base and target images (`src/main.rs:98-100`) repeats the dispatch `Calc.Matches` already did and is not modelled again.
- `draw_match_points` and the TIFF round-trip conversions (`stellacomp/src/utils.rs:9-51`) are image I/O.
- All `save` calls are image I/O. A save is shown only as the `Saved` outcome with its path.
- clap argument parsing and the `println!` diagnostics (`src/main.rs:1-45, 114`, `stellacomp/src/calc.rs:31-32`) are I/O. The messages appear only as comments on the outcome constructors.
