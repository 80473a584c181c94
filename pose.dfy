/** Skeleton keypoints and the trunk-height metric used to tell the two
    people apart by stature. */
module Pose {
  import opened Common

  /** The joints one tracked person exposes, by COCO index; a missing joint is
      simply absent from the map. */
  type Keypoints = map<int, Point>

  const Nose := 0
  const LeftEye := 1
  const RightEye := 2
  const LeftEar := 3
  const RightEar := 4
  const LeftShoulder := 5
  const RightShoulder := 6
  const LeftHip := 11
  const RightHip := 12

  predicate HasTrunk(k: Keypoints)
  {
    LeftShoulder in k && RightShoulder in k && LeftHip in k && RightHip in k
  }

  /** The squared distance between the shoulder midpoint and the hip midpoint,
      with the midpoints taken over the reals as the source takes them. */
  function MidpointDistanceSq(k: Keypoints): real
    requires HasTrunk(k)
  {
    var sx := (k[LeftShoulder].x + k[RightShoulder].x) as real / 2.0;
    var sy := (k[LeftShoulder].y + k[RightShoulder].y) as real / 2.0;
    var hx := (k[LeftHip].x + k[RightHip].x) as real / 2.0;
    var hy := (k[LeftHip].y + k[RightHip].y) as real / 2.0;
    (sx - hx) * (sx - hx) + (sy - hy) * (sy - hy)
  }

  /** h is the trunk height the source computes: the square root of
      MidpointDistanceSq, or 0 when a shoulder or hip is missing. */
  ghost predicate IsTrunkHeight(k: Keypoints, h: real)
  {
    h >= 0.0 && if HasTrunk(k) then h * h == MidpointDistanceSq(k) else h == 0.0
  }

  /** Four times the squared trunk height, kept in the integers: it is zero
      exactly when the height is zero and orders people exactly as their
      heights do (TrunkMetricOrdersHeights), which is all the role latch uses. */
  function TrunkMetric(k: Keypoints): (m: nat)
    ensures !HasTrunk(k) ==> m == 0
  {
    if HasTrunk(k) then
      var dx := k[LeftShoulder].x + k[RightShoulder].x - k[LeftHip].x - k[RightHip].x;
      var dy := k[LeftShoulder].y + k[RightShoulder].y - k[LeftHip].y - k[RightHip].y;
      Square(dx) + Square(dy)
    else 0
  }

  /** The metric is four times the square of the trunk height. */
  lemma TrunkMetricScalesHeight(k: Keypoints, h: real)
    requires IsTrunkHeight(k, h)
    ensures TrunkMetric(k) as real == 4.0 * h * h
  {
    if HasTrunk(k) {
      var dx := k[LeftShoulder].x + k[RightShoulder].x - k[LeftHip].x - k[RightHip].x;
      var dy := k[LeftShoulder].y + k[RightShoulder].y - k[LeftHip].y - k[RightHip].y;
      var sx := (k[LeftShoulder].x + k[RightShoulder].x) as real / 2.0;
      var sy := (k[LeftShoulder].y + k[RightShoulder].y) as real / 2.0;
      var hx := (k[LeftHip].x + k[RightHip].x) as real / 2.0;
      var hy := (k[LeftHip].y + k[RightHip].y) as real / 2.0;
      assert sx - hx == dx as real / 2.0 && sy - hy == dy as real / 2.0;
      assert (dx * dx) as real == (dx as real) * (dx as real);
      assert (dy * dy) as real == (dy as real) * (dy as real);
      assert MidpointDistanceSq(k) * 4.0 == (dx * dx + dy * dy) as real;
    }
  }

  /** Comparing metrics compares trunk heights, and a metric is positive exactly
      when the height is: the latch decides exactly as it would on the heights. */
  lemma TrunkMetricOrdersHeights(k1: Keypoints, h1: real, k2: Keypoints, h2: real)
    requires IsTrunkHeight(k1, h1) && IsTrunkHeight(k2, h2)
    ensures h1 > h2 <==> TrunkMetric(k1) > TrunkMetric(k2)
    ensures h1 > 0.0 <==> TrunkMetric(k1) > 0
  {
    TrunkMetricScalesHeight(k1, h1);
    TrunkMetricScalesHeight(k2, h2);
    SquareMono(h1, h2);
    SquareMono(h2, h1);
    SquareMono(h1, 0.0);
  }
}
