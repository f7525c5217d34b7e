/**
 * `matches` of stellacomp/src/calc.rs. Keypoint detection and description
 * (AKAZE) and the cross-checked brute-force Hamming matcher are OpenCV calls
 * outside this model: their results are parameters. What is modelled is the
 * path dispatch that loads both images, the loop that keeps the good matches
 * (distance strictly below 20) in their original order, and the hand-back of
 * the keypoints and descriptors as the extractor produced them.
 */
module Calc {
  import opened Wrappers
  import Utils

  /** `Point2f` */
  datatype Point = Point(x: real, y: real)

  /** `KeyPoint`: location, diameter, orientation, detector response, pyramid octave and class. */
  datatype KeyPoint = KeyPoint(pt: Point, size: real, angle: real, response: real, octave: int, classId: int)

  /** One row of the descriptor matrix: a binary descriptor. */
  type Descriptor = seq<bv8>

  /** `DMatch`: index into the first image's keypoints, into the second's, and their distance. */
  datatype DMatch = DMatch(queryIdx: int, trainIdx: int, imgIdx: int, distance: real)

  /** What the feature extractor produced for one image. */
  datatype Features = Features(keypoints: seq<KeyPoint>, descriptors: seq<Descriptor>)

  /** The five values `matches` returns: (k1, d1, k2, d2, good_matches). */
  datatype MatchSet = MatchSet(
    k1: seq<KeyPoint>, d1: seq<Descriptor>,
    k2: seq<KeyPoint>, d2: seq<Descriptor>,
    good: seq<DMatch>)

  /** Matches at this distance or farther are dropped. */
  const GoodDistance: real := 20.0

  predicate IsGood(m: DMatch)
  {
    m.distance < GoodDistance
  }

  /** The good matches of ms, in the order they appear in ms. */
  function GoodOf(ms: seq<DMatch>): (good: seq<DMatch>)
    ensures |good| <= |ms|
    ensures forall k :: 0 <= k < |good| ==> IsGood(good[k]) && good[k] in ms
    decreases |ms|
  {
    if ms == [] then []
    else if IsGood(ms[|ms| - 1]) then GoodOf(ms[..|ms| - 1]) + [ms[|ms| - 1]]
    else GoodOf(ms[..|ms| - 1])
  }

  /** The positions in ms of the matches GoodOf keeps. */
  function GoodPositions(ms: seq<DMatch>): (positions: seq<nat>)
    decreases |ms|
  {
    if ms == [] then []
    else if IsGood(ms[|ms| - 1]) then GoodPositions(ms[..|ms| - 1]) + [|ms| - 1]
    else GoodPositions(ms[..|ms| - 1])
  }

  /** The loop over the raw matches that pushes every match with distance < 20. */
  method FilterGood(matches: seq<DMatch>) returns (goodMatches: seq<DMatch>)
    ensures goodMatches == GoodOf(matches)
  {
    goodMatches := [];
    for i := 0 to |matches|
      invariant goodMatches == GoodOf(matches[..i])
    {
      var m := matches[i];
      assert matches[..i + 1][..i] == matches[..i];
      if m.distance < 20.0 {
        goodMatches := goodMatches + [m];
      }
    }
    assert matches[..|matches|] == matches;
  }

  /**
   * `matches(f1, f2)`: both paths go through the extension dispatch (an
   * unsupported one panics, shown as None); the keypoints and descriptors of
   * both images are returned untouched together with the good matches.
   */
  method Matches(f1: string, f2: string, features1: Features, features2: Features, rawMatches: seq<DMatch>)
    returns (result: Option<MatchSet>)
    ensures result.None? <==> Utils.Dispatch(f1).None? || Utils.Dispatch(f2).None?
    ensures result.Some? ==>
      && result.value.k1 == features1.keypoints && result.value.d1 == features1.descriptors
      && result.value.k2 == features2.keypoints && result.value.d2 == features2.descriptors
      && result.value.good == GoodOf(rawMatches)
  {
    if Utils.Dispatch(f1).None? || Utils.Dispatch(f2).None? {
      return None;
    }
    var goodMatches := FilterGood(rawMatches);
    result := Some(MatchSet(features1.keypoints, features1.descriptors,
                            features2.keypoints, features2.descriptors, goodMatches));
  }

  /** A match is kept exactly when it is one of the raw matches and is good. */
  lemma {:induction false} GoodOfMembership(ms: seq<DMatch>, m: DMatch)
    ensures m in GoodOf(ms) <==> m in ms && IsGood(m)
    decreases |ms|
  {
    if ms != [] {
      var init := ms[..|ms| - 1];
      GoodOfMembership(init, m);
      assert ms == init + [ms[|ms| - 1]];
    }
  }

  /** Each good match is kept as many times as it occurs; a bad one never. */
  lemma {:induction false} GoodOfCounts(ms: seq<DMatch>, m: DMatch)
    ensures multiset(GoodOf(ms))[m] == if IsGood(m) then multiset(ms)[m] else 0
    decreases |ms|
  {
    if ms != [] {
      var init := ms[..|ms| - 1];
      GoodOfCounts(init, m);
      assert ms == init + [ms[|ms| - 1]];
    }
  }

  /**
   * The good matches form a subsequence of the raw matches: GoodPositions
   * picks them out of ms at strictly increasing positions.
   */
  lemma {:induction false} GoodOfKeepsOrder(ms: seq<DMatch>)
    ensures |GoodPositions(ms)| == |GoodOf(ms)|
    ensures forall k :: 0 <= k < |GoodOf(ms)| ==>
      GoodPositions(ms)[k] < |ms| && GoodOf(ms)[k] == ms[GoodPositions(ms)[k]]
    ensures forall k, l :: 0 <= k < l < |GoodPositions(ms)| ==> GoodPositions(ms)[k] < GoodPositions(ms)[l]
    decreases |ms|
  {
    if ms != [] {
      var init := ms[..|ms| - 1];
      GoodOfKeepsOrder(init);
    }
  }

  /** Filtering the good matches again changes nothing. */
  lemma {:induction false} GoodOfIdempotent(ms: seq<DMatch>)
    ensures GoodOf(GoodOf(ms)) == GoodOf(ms)
  {
    AllGoodIsFixed(GoodOf(ms));
  }

  lemma {:induction false} AllGoodIsFixed(ms: seq<DMatch>)
    requires forall k :: 0 <= k < |ms| ==> IsGood(ms[k])
    ensures GoodOf(ms) == ms
    decreases |ms|
  {
    if ms != [] {
      var init := ms[..|ms| - 1];
      AllGoodIsFixed(init);
      assert init + [ms[|ms| - 1]] == ms;
    }
  }

  /** The threshold is strict: a match at distance exactly 20 is dropped, one just under it is kept. */
  lemma DistanceTwentyIsDropped(ms: seq<DMatch>, m: DMatch)
    requires m.distance == 20.0
    ensures m !in GoodOf(ms)
    ensures GoodOf([m.(distance := 19.5)]) == [m.(distance := 19.5)]
  {
    GoodOfMembership(ms, m);
    assert [m.(distance := 19.5)][..0] == [];
  }
}
