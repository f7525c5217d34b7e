/**
 * The three subcommands of `main` in src/main.rs, with argument parsing,
 * decoding, saving, feature extraction, matching, affine estimation and
 * warping left to their collaborators. What is modelled: the early returns
 * that validate the arguments, the left-to-right fold of lighten or average
 * over the decoded frames, and the construction of the two point lists that
 * are handed to the affine estimator.
 *
 * The decoders are not modelled: `decoded[i]` is the frame that decoding
 * `files[i]` yields. A path with an unsupported extension panics when it is
 * loaded, and so does `file[0]` on an empty list; both appear as `Panicked`.
 */
module Cli {
  import opened Pixel
  import opened Frames
  import Composite
  import Utils
  import Calc
  import opened Wrappers

  /** The two stacking subcommands share one shape and differ in the compositor. */
  datatype Command = LightenComposite | AverageComposite

  datatype PanicReason = UnsupportedFileType | FileIndexOutOfBounds

  /** How a stacking run ends. Only `Saved` writes a file. */
  datatype CompositeOutcome =
    | TooManyImages        // "Should specify more than 2 images."
    | NoOutputFile         // "Should specify output file."
    | Panicked(reason: PanicReason)
    | Saved(path: string, image: Frame)

  function BlendPixel(command: Command, p1: Rgb, p2: Rgb): (p: Rgb)
  {
    match command
    case LightenComposite => LightenPixel(p1, p2)
    case AverageComposite => AveragePixel(p1, p2)
  }

  /** Left fold of the compositor over the pixels one location takes in successive frames. */
  function Fold(command: Command, ps: seq<Rgb>): (p: Rgb)
    requires |ps| > 0
    decreases |ps|
  {
    if |ps| == 1 then ps[0]
    else BlendPixel(command, Fold(command, ps[..|ps| - 1]), ps[|ps| - 1])
  }

  /** The pixels at (x, y) of each frame in turn. */
  function Column(frames: seq<Frame>, x: nat, y: nat): (ps: seq<Rgb>)
    requires forall k :: 0 <= k < |frames| ==> frames[k].Valid() && x < frames[k].width && y < frames[k].height
    ensures |ps| == |frames|
    ensures forall k {:trigger ps[k]} :: 0 <= k < |frames| ==> ps[k] == frames[k].At(x, y)
  {
    seq(|frames|, k requires 0 <= k < |frames| => frames[k].At(x, y))
  }

  /**
   * Folding lighten picks, at every location, a pixel of one of the frames
   * with the greatest luma among them all.
   */
  lemma {:induction false} LightenFoldIsBrightest(ps: seq<Rgb>)
    requires |ps| > 0
    ensures Fold(LightenComposite, ps) in ps
    ensures forall k :: 0 <= k < |ps| ==> Luma(ps[k]) <= Luma(Fold(LightenComposite, ps))
    decreases |ps|
  {
    if |ps| > 1 {
      var init := ps[..|ps| - 1];
      LightenFoldIsBrightest(init);
      LightenPicksBrighter(Fold(LightenComposite, init), ps[|ps| - 1]);
      assert forall k :: 0 <= k < |init| ==> ps[k] == init[k];
    }
  }

  /** Fold order decides ties: a last frame at least as bright as every other wins. */
  lemma LightenFoldLastTieWins(ps: seq<Rgb>)
    requires |ps| > 0
    requires forall k :: 0 <= k < |ps| ==> Luma(ps[k]) <= Luma(ps[|ps| - 1])
    ensures Fold(LightenComposite, ps) == ps[|ps| - 1]
  {
    if |ps| > 1 {
      var init := ps[..|ps| - 1];
      LightenFoldIsBrightest(init);
      var acc := Fold(LightenComposite, init);
      assert acc in init;
      assert Luma(acc) <= Luma(ps[|ps| - 1]);
      LightenPicksBrighter(acc, ps[|ps| - 1]);
    }
  }

  /**
   * Folding average truncates after every step, so it is neither the mean
   * nor independent of the order: black, black, white gives 127 (the mean is
   * 85) and white, black, black gives 63.
   */
  lemma AverageFoldIsOrderDependent()
    ensures Fold(AverageComposite, [Black, Black, White]) == Rgb(127, 127, 127)
    ensures Fold(AverageComposite, [White, Black, Black]) == Rgb(63, 63, 63)
  {
    var gray := Rgb(127, 127, 127);
    assert [Black, Black, White][..2] == [Black, Black];
    assert [Black, Black][..1] == [Black];
    assert Fold(AverageComposite, [Black, Black]) == AveragePixel(Black, Black) == Black;
    assert Fold(AverageComposite, [Black, Black, White]) == AveragePixel(Black, White) == gray;
    assert [White, Black, Black][..2] == [White, Black];
    assert [White, Black][..1] == [White];
    assert Fold(AverageComposite, [White, Black]) == AveragePixel(White, Black) == gray;
    assert Fold(AverageComposite, [White, Black, Black]) == AveragePixel(gray, Black) == Rgb(63, 63, 63);
  }

  /** Each of the first n frames can be read at every location of the first one. */
  predicate CoversUpTo(frames: seq<Frame>, n: nat)
  {
    n <= |frames| &&
    forall k :: 0 <= k < n ==>
      frames[k].Valid() && frames[0].width <= frames[k].width && frames[0].height <= frames[k].height
  }

  /** Every frame can be read at every location of the first one. */
  predicate CoverFirst(frames: seq<Frame>)
  {
    |frames| > 0 && CoversUpTo(frames, |frames|)
  }

  /** The frame that `lighten_composition` or `average_composition` returns for image1 and image2. */
  function BlendFrame(command: Command, image1: Frame, image2: Frame): (image: Frame)
    requires image1.Valid() && image2.Valid() && Covers(image2, image1)
    ensures image.Valid() && image.width == image1.width && image.height == image1.height
    ensures forall x: nat, y: nat :: x < image.width && y < image.height ==>
      image.At(x, y) == BlendPixel(command, image1.At(x, y), image2.At(x, y))
  {
    Frame(image1.width, image1.height,
      seq(image1.height, y requires 0 <= y < image1.height =>
        seq(image1.width, x requires 0 <= x < image1.width =>
          BlendPixel(command, image1.At(x, y), image2.At(x, y)))))
  }

  /** The accumulator after folding the compositor over the first n frames from left to right. */
  function FoldFrames(command: Command, frames: seq<Frame>, n: nat): (image: Frame)
    requires 1 <= n <= |frames| && CoversUpTo(frames, n)
    ensures image.Valid() && image.width == frames[0].width && image.height == frames[0].height
    decreases n
  {
    if n == 1 then frames[0]
    else BlendFrame(command, FoldFrames(command, frames, n - 1), frames[n - 1])
  }

  /** One more pixel is one more compositor step on the accumulator. */
  lemma FoldPrefixStep(command: Command, ps: seq<Rgb>, n: nat)
    requires 2 <= n <= |ps|
    ensures Fold(command, ps[..n]) == BlendPixel(command, Fold(command, ps[..n - 1]), ps[n - 1])
  {
    assert ps[..n][..n - 1] == ps[..n - 1];
  }

  /**
   * The folded frame holds, at every location, the pixel fold of that
   * location's pixels across the first n frames.
   */
  lemma {:induction false} FoldFramesAt(command: Command, frames: seq<Frame>, n: nat, x: nat, y: nat)
    requires CoverFirst(frames) && 1 <= n <= |frames| && x < frames[0].width && y < frames[0].height
    ensures FoldFrames(command, frames, n).At(x, y) == Fold(command, Column(frames, x, y)[..n])
    decreases n
  {
    var column := Column(frames, x, y);
    if n > 1 {
      FoldFramesAt(command, frames, n - 1, x, y);
      FoldPrefixStep(command, column, n);
    } else {
      assert column[..1] == [frames[0].At(x, y)];
    }
  }

  /**
   * A lighten stack shows, at every location, the pixel of one of the frames
   * there, and none of the frames is brighter there.
   */
  lemma {:induction false} LightenStackIsBrightest(frames: seq<Frame>, x: nat, y: nat)
    requires CoverFirst(frames) && x < frames[0].width && y < frames[0].height
    ensures FoldFrames(LightenComposite, frames, |frames|).At(x, y) in Column(frames, x, y)
    ensures forall k :: 0 <= k < |frames| ==>
      Luma(frames[k].At(x, y)) <= Luma(FoldFrames(LightenComposite, frames, |frames|).At(x, y))
  {
    var column := Column(frames, x, y);
    FoldFramesAt(LightenComposite, frames, |frames|, x, y);
    assert column[..|frames|] == column;
    LightenFoldIsBrightest(column);
    assert forall k :: 0 <= k < |frames| ==> column[k] == frames[k].At(x, y);
  }

  /** `lighten_composition` or `average_composition` on the accumulator and the next frame. */
  method Blend(command: Command, image1: Frame, image2: Frame) returns (image: Frame)
    requires image1.Valid() && image2.Valid() && Covers(image2, image1)
    ensures image == BlendFrame(command, image1, image2)
  {
    match command {
      case LightenComposite =>
        image := Composite.Lighten(image1, image2);
      case AverageComposite =>
        image := Composite.Average(image1, image2);
    }
    FrameExt(image, BlendFrame(command, image1, image2));
  }

  predicate AllSupported(files: seq<string>)
  {
    forall k :: 0 <= k < |files| ==> Utils.Dispatch(files[k]).Some?
  }

  /**
   * How many files load before the first one with an unsupported extension
   * panics: only these are decoded, and only these need to be readable.
   */
  function SupportedPrefix(files: seq<string>): (n: nat)
    ensures n <= |files|
    ensures forall k :: 0 <= k < n ==> Utils.Dispatch(files[k]).Some?
    ensures n < |files| ==> Utils.Dispatch(files[n]).None?
    decreases |files|
  {
    if files == [] || Utils.Dispatch(files[0]).None? then 0
    else 1 + SupportedPrefix(files[1..])
  }

  /**
   * The loading loop of a stacking run: file[0] is loaded into the
   * accumulator, then each further file is loaded and composited onto it,
   * the accumulator being the first operand. None is the panic on the first
   * file with an unsupported extension.
   */
  method LoadAndFold(command: Command, files: seq<string>, decoded: seq<Frame>) returns (result: Option<Frame>)
    requires |decoded| == |files| > 0 && CoversUpTo(decoded, SupportedPrefix(files))
    ensures result.None? <==> !AllSupported(files)
    ensures AllSupported(files) ==> result == Some(FoldFrames(command, decoded, |decoded|))
  {
    if Utils.Dispatch(files[0]).None? {
      return None;
    }
    var newImage := decoded[0];
    for i := 1 to |files|
      invariant forall k :: 0 <= k < i ==> Utils.Dispatch(files[k]).Some?
      invariant i <= SupportedPrefix(files) && CoversUpTo(decoded, i)
      invariant newImage == FoldFrames(command, decoded, i)
    {
      if Utils.Dispatch(files[i]).None? {
        return None;
      }
      var image := decoded[i];
      newImage := Blend(command, newImage, image);
    }
    result := Some(newImage);
  }

  /**
   * `lighten-composite` / `average-composite --file f1[,f2] --output path`.
   * More than two files stops first, then an empty output path; then
   * file[0] is read without a guard (an empty list panics) and the files are
   * loaded and folded.
   */
  method RunComposite(command: Command, files: seq<string>, output: string, decoded: seq<Frame>)
    returns (outcome: CompositeOutcome)
    requires |decoded| == |files|
    requires |files| <= 2 && output != "" ==> CoversUpTo(decoded, SupportedPrefix(files))
    ensures |files| > 2 ==> outcome == TooManyImages
    ensures |files| <= 2 && output == "" ==> outcome == NoOutputFile
    ensures |files| == 0 && output != "" ==> outcome == Panicked(FileIndexOutOfBounds)
    ensures 1 <= |files| <= 2 && output != "" && !AllSupported(files) ==> outcome == Panicked(UnsupportedFileType)
    ensures 1 <= |files| <= 2 && output != "" && AllSupported(files) ==>
      outcome == Saved(output, FoldFrames(command, decoded, |decoded|))
  {
    if |files| > 2 {
      return TooManyImages;
    }
    if output == "" {
      return NoOutputFile;
    }
    if |files| == 0 {
      return Panicked(FileIndexOutOfBounds);
    }
    var result := LoadAndFold(command, files, decoded);
    if result.None? {
      return Panicked(UnsupportedFileType);
    }
    outcome := Saved(output, result.value);
  }

  /** One file is saved as decoded; two are saved as the compositor applied to them in order. */
  lemma FoldFramesOfOneOrTwo(command: Command, decoded: seq<Frame>)
    requires CoverFirst(decoded) && |decoded| <= 2
    ensures |decoded| == 1 ==> FoldFrames(command, decoded, 1) == decoded[0]
    ensures |decoded| == 2 ==> FoldFrames(command, decoded, 2) == BlendFrame(command, decoded[0], decoded[1])
  {
  }

  /** The robust fitting methods `estimate_affine_2d` offers: random sample consensus or least median of squares. */
  datatype RobustMethod = Ransac | LeastMedian

  /** The arguments `main` passes to `estimate_affine_2d(from, to, inliers, method, ...)`. */
  datatype EstimatorCall = EstimatorCall(
    from: seq<Calc.Point>, to: seq<Calc.Point>, robustMethod: RobustMethod,
    ransacReprojThreshold: real, maxIters: nat, confidence: real, refineIters: nat)

  /** How `affine-convert` ends in this model: before estimation, or with the estimator's arguments. */
  datatype AffineOutcome =
    | NoBaseFile           // "Should specify base file."
    | NoTargetFile         // "Should specify target file."
    | AffinePanicked(reason: PanicReason)
    | Estimate(goodMatches: seq<Calc.DMatch>, call: EstimatorCall)

  /** The loop over the good matches that pushes the base point onto apt1 and the target point onto apt2. */
  method BuildPointLists(k1: seq<Calc.KeyPoint>, k2: seq<Calc.KeyPoint>, matches: seq<Calc.DMatch>)
    returns (apt1: seq<Calc.Point>, apt2: seq<Calc.Point>)
    requires forall m :: m in matches ==> 0 <= m.queryIdx < |k1| && 0 <= m.trainIdx < |k2|
    ensures |apt1| == |matches| && |apt2| == |matches|
    ensures forall k :: 0 <= k < |matches| ==>
      apt1[k] == k1[matches[k].queryIdx].pt && apt2[k] == k2[matches[k].trainIdx].pt
  {
    apt1, apt2 := [], [];
    for i := 0 to |matches|
      invariant |apt1| == i && |apt2| == i
      invariant forall k :: 0 <= k < i ==>
        apt1[k] == k1[matches[k].queryIdx].pt && apt2[k] == k2[matches[k].trainIdx].pt
    {
      var m := matches[i];
      apt1 := apt1 + [k1[m.queryIdx].pt];
      apt2 := apt2 + [k2[m.trainIdx].pt];
    }
  }

  /**
   * `affine-convert --base b --target t`: an empty base stops first, then an
   * empty target; then both files are loaded and matched, and the estimator is
   * asked for the transform that carries the target points (apt2) onto the
   * base points (apt1), with RANSAC, a 3.0-pixel reprojection threshold, 2000
   * iterations, confidence 0.99 and 10 refinement iterations.
   */
  method AffineConvert(base: string, target: string, features1: Calc.Features, features2: Calc.Features,
                       rawMatches: seq<Calc.DMatch>)
    returns (outcome: AffineOutcome)
    requires forall m :: m in rawMatches ==>
      0 <= m.queryIdx < |features1.keypoints| && 0 <= m.trainIdx < |features2.keypoints|
    ensures base == "" ==> outcome == NoBaseFile
    ensures base != "" && target == "" ==> outcome == NoTargetFile
    ensures base != "" && target != "" && (Utils.Dispatch(base).None? || Utils.Dispatch(target).None?) ==>
      outcome == AffinePanicked(UnsupportedFileType)
    ensures base != "" && target != "" && Utils.Dispatch(base).Some? && Utils.Dispatch(target).Some? ==>
      && outcome.Estimate?
      && outcome.goodMatches == Calc.GoodOf(rawMatches)
      && |outcome.call.from| == |outcome.goodMatches| && |outcome.call.to| == |outcome.goodMatches|
      && (forall k :: 0 <= k < |outcome.goodMatches| ==>
            && outcome.call.to[k] == features1.keypoints[outcome.goodMatches[k].queryIdx].pt
            && outcome.call.from[k] == features2.keypoints[outcome.goodMatches[k].trainIdx].pt)
      && outcome.call.robustMethod == Ransac
      && outcome.call.ransacReprojThreshold == 3.0 && outcome.call.maxIters == 2000
      && outcome.call.confidence == 0.99 && outcome.call.refineIters == 10
  {
    if base == "" {
      return NoBaseFile;
    }
    if target == "" {
      return NoTargetFile;
    }
    var result := Calc.Matches(base, target, features1, features2, rawMatches);
    if result.None? {
      return AffinePanicked(UnsupportedFileType);
    }
    var found := result.value;
    var apt1, apt2 := BuildPointLists(found.k1, found.k2, found.good);
    outcome := Estimate(found.good, EstimatorCall(apt2, apt1, Ransac, 3.0, 2000, 0.99, 10));
  }
}
