/** The dual-mode gaze classifier: a mutual-gaze test between two people and
    an environment fallback that projects the head tilt a fixed distance
    toward the ground plane. Both modes fail closed on missing joints and
    zero-length vectors. */
module Gaze {
  import opened Common
  import opened Pose

  /** Cosine of the half-angle of the forward cone (about 20 degrees). */
  const CosThreshold: real := 0.94
  /** Length, in pixels, of the environment-gaze projection. */
  const ProjectionDistance: int := 300

  datatype Vec = Vec(x: real, y: real)

  function Dot(a: Vec, b: Vec): real
  {
    a.x * b.x + a.y * b.y
  }

  function NormSq(a: Vec): real
  {
    a.x * a.x + a.y * a.y
  }

  function Scale(a: Vec, f: real): Vec
  {
    Vec(a.x * f, a.y * f)
  }

  // ---------------------------------------------------------------- mutual gaze

  /** The target's nose and shoulders, in that order, those that are present. */
  function TargetJoints(k: Keypoints): (ps: seq<Point>)
    ensures |ps| == 0 <==> (Nose !in k && LeftShoulder !in k && RightShoulder !in k)
    ensures forall p :: p in ps ==> exists j :: j in {Nose, LeftShoulder, RightShoulder} && j in k && k[j] == p
  {
    JointList(k, Nose) + JointList(k, LeftShoulder) + JointList(k, RightShoulder)
  }

  /** Joint j of k as a list of zero or one points. */
  function JointList(k: Keypoints, j: int): seq<Point>
  {
    if j in k then [k[j]] else []
  }

  function SumX(ps: seq<Point>): int
  {
    if ps == [] then 0 else SumX(ps[..|ps| - 1]) + ps[|ps| - 1].x
  }

  function SumY(ps: seq<Point>): int
  {
    if ps == [] then 0 else SumY(ps[..|ps| - 1]) + ps[|ps| - 1].y
  }

  /** The target reference point: the mean of the target's present nose and
      shoulders, or nothing when none is present. */
  function TargetPoint(k: Keypoints): (p: Option<RPoint>)
    ensures p.Some? <==> (Nose in k || LeftShoulder in k || RightShoulder in k)
  {
    var ps := TargetJoints(k);
    if |ps| == 0 then None
    else Some(RPoint(SumX(ps) as real / |ps| as real, SumY(ps) as real / |ps| as real))
  }

  /** 1 when joint j is present in k, 0 otherwise. */
  function Present(k: Keypoints, j: int): nat
  {
    if j in k then 1 else 0
  }

  /** The coordinates of joint j when present, 0 otherwise. */
  function JointX(k: Keypoints, j: int): int
  {
    if j in k then k[j].x else 0
  }

  function JointY(k: Keypoints, j: int): int
  {
    if j in k then k[j].y else 0
  }

  lemma {:induction false} SumsOfConcat(a: seq<Point>, b: seq<Point>)
    ensures SumX(a + b) == SumX(a) + SumX(b) && SumY(a + b) == SumY(a) + SumY(b)
    decreases |b|
  {
    if b == [] {
      assert a + b == a;
    } else {
      var b' := b[..|b| - 1];
      assert (a + b)[..|a + b| - 1] == a + b';
      assert (a + b)[|a + b| - 1] == b[|b| - 1];
      SumsOfConcat(a, b');
    }
  }

  /** The target joints list each present joint among 0, 5, 6 exactly once:
      their count and coordinate sums are those of the present joints. */
  lemma TargetJointTotals(k: Keypoints)
    ensures |TargetJoints(k)| == Present(k, Nose) + Present(k, LeftShoulder) + Present(k, RightShoulder)
    ensures SumX(TargetJoints(k)) == JointX(k, Nose) + JointX(k, LeftShoulder) + JointX(k, RightShoulder)
    ensures SumY(TargetJoints(k)) == JointY(k, Nose) + JointY(k, LeftShoulder) + JointY(k, RightShoulder)
  {
    var a, b, c := JointList(k, Nose), JointList(k, LeftShoulder), JointList(k, RightShoulder);
    JointListTotals(k, Nose);
    JointListTotals(k, LeftShoulder);
    JointListTotals(k, RightShoulder);
    SumsOfConcat(a, b);
    SumsOfConcat(a + b, c);
  }

  lemma JointListTotals(k: Keypoints, j: int)
    ensures |JointList(k, j)| == Present(k, j)
    ensures SumX(JointList(k, j)) == JointX(k, j) && SumY(JointList(k, j)) == JointY(k, j)
  {
    if j in k {
      assert JointList(k, j)[..0] == [];
    }
  }

  /** The reference point is the mean, coordinate by coordinate, of the
      target's present nose and shoulders. */
  lemma TargetPointIsMean(k: Keypoints)
    ensures var n := Present(k, Nose) + Present(k, LeftShoulder) + Present(k, RightShoulder);
            var sx := JointX(k, Nose) + JointX(k, LeftShoulder) + JointX(k, RightShoulder);
            var sy := JointY(k, Nose) + JointY(k, LeftShoulder) + JointY(k, RightShoulder);
            TargetPoint(k) == if n == 0 then None else Some(RPoint(sx as real / n as real, sy as real / n as real))
  {
    TargetJointTotals(k);
  }

  /** A mean of points that all coincide is that point. */
  lemma {:induction false} SumOfEqualPoints(ps: seq<Point>, q: Point)
    requires forall i :: 0 <= i < |ps| ==> ps[i] == q
    ensures SumX(ps) == |ps| * q.x && SumY(ps) == |ps| * q.y
  {
    if ps != [] {
      SumOfEqualPoints(ps[..|ps| - 1], q);
    }
  }

  /** When every present target joint sits at q, the reference point is q. */
  lemma TargetPointOfCoincidentJoints(k: Keypoints, q: Point)
    requires Nose in k || LeftShoulder in k || RightShoulder in k
    requires forall j :: j in {Nose, LeftShoulder, RightShoulder} && j in k ==> k[j] == q
    ensures TargetPoint(k) == Some(RPoint(q.x as real, q.y as real))
  {
    var ps := TargetJoints(k);
    assert forall i :: 0 <= i < |ps| ==> ps[i] == q by {
      forall i | 0 <= i < |ps| ensures ps[i] == q {
        assert ps[i] in ps;
      }
    }
    SumOfEqualPoints(ps, q);
    var n := |ps| as real;
    assert (|ps| * q.x) as real / n == q.x as real by {
      assert (|ps| * q.x) as real == n * q.x as real;
    }
    assert (|ps| * q.y) as real / n == q.y as real by {
      assert (|ps| * q.y) as real == n * q.y as real;
    }
  }

  /** The observer's head direction: from the midpoint of the ears to the nose. */
  function HeadVector(obs: Keypoints): Vec
    requires Nose in obs && LeftEar in obs && RightEar in obs
  {
    Vec(obs[Nose].x as real - (obs[LeftEar].x + obs[RightEar].x) as real / 2.0,
        obs[Nose].y as real - (obs[LeftEar].y + obs[RightEar].y) as real / 2.0)
  }

  /** From the observer's nose to the target reference point. */
  function TargetVector(obs: Keypoints, p: RPoint): Vec
    requires Nose in obs
  {
    Vec(p.x - obs[Nose].x as real, p.y - obs[Nose].y as real)
  }

  /** The cosine test `cos(h, t) > CosThreshold`, squared so that no square
      root is needed (CosineTestIsExact). */
  predicate WithinCone(h: Vec, t: Vec)
  {
    var d := Dot(h, t);
    d > 0.0 && d * d > CosThreshold * CosThreshold * NormSq(h) * NormSq(t)
  }

  datatype MutualGazeResult = MutualGazeResult(looking: bool, target: Option<RPoint>)

  predicate HasHead(obs: Keypoints)
  {
    Nose in obs && LeftEar in obs && RightEar in obs
  }

  /** Whether the observer looks at the target, and the target reference point. */
  function MutualGaze(obs: Keypoints, tgt: Keypoints): (r: MutualGazeResult)
    ensures !(HasHead(obs) && TargetPoint(tgt).Some?) ==> r == MutualGazeResult(false, None)
    ensures HasHead(obs) && TargetPoint(tgt).Some?
            && (NormSq(HeadVector(obs)) == 0.0 || NormSq(TargetVector(obs, TargetPoint(tgt).value)) == 0.0)
            ==> r == MutualGazeResult(false, None)
    ensures r.looking ==> r.target.Some?
    ensures r.target.Some? ==> r.target == TargetPoint(tgt)
  {
    match TargetPoint(tgt)
    case None => MutualGazeResult(false, None)
    case Some(p) =>
      if !(LeftEar in obs && RightEar in obs) || Nose !in obs then MutualGazeResult(false, None)
      else
        var h := HeadVector(obs);
        var t := TargetVector(obs, p);
        if NormSq(h) == 0.0 || NormSq(t) == 0.0 then MutualGazeResult(false, None)
        else MutualGazeResult(WithinCone(h, t), Some(p))
  }

  lemma ScaledDot(h: Vec, t: Vec, a: real, b: real)
    ensures Dot(Scale(h, a), Scale(t, b)) == a * b * Dot(h, t)
  {
  }

  /** d / p > c, for p > 0 and c > 0, is d > 0 and d*d > c*c*p*p. */
  lemma QuotientAboveThreshold(d: real, p: real, c: real)
    requires p > 0.0 && c > 0.0
    ensures d / p > c <==> d > 0.0 && d * d > c * c * (p * p)
  {
    var cp := c * p;
    assert cp > 0.0;
    assert d / p > c <==> d > cp by {
      var x := d / p;
      assert x * p == d;
      assert (x - c) * p == d - cp;
      PositiveFactor(x - c, p);
      PositiveFactor(c - x, p);
    }
    assert cp * cp == c * c * (p * p);
    if d > 0.0 {
      SquareMono(d, cp);
      SquareMono(cp, d);
    }
  }

  lemma ReciprocalProduct(a: real, b: real, d: real)
    requires a > 0.0 && b > 0.0
    ensures (1.0 / a) * (1.0 / b) * d == d / (a * b)
  {
    var q := d / (a * b);
    assert q * (a * b) == d;
    assert (1.0 / a) * a == 1.0 && (1.0 / b) * b == 1.0;
    assert (1.0 / a) * (1.0 / b) * d == (1.0 / a) * (1.0 / b) * (q * (a * b));
    assert (1.0 / a) * (1.0 / b) * (q * (a * b)) == q * ((1.0 / a) * a) * ((1.0 / b) * b);
  }

  /** The squared test is the source's test: the dot product of the two
      normalised vectors exceeds CosThreshold, for the positive lengths nh, nt. */
  lemma CosineTestIsExact(h: Vec, t: Vec, nh: real, nt: real)
    requires nh > 0.0 && nt > 0.0 && nh * nh == NormSq(h) && nt * nt == NormSq(t)
    ensures WithinCone(h, t) <==> Dot(Scale(h, 1.0 / nh), Scale(t, 1.0 / nt)) > CosThreshold
  {
    var p := nh * nt;
    ScaledDot(h, t, 1.0 / nh, 1.0 / nt);
    ReciprocalProduct(nh, nt, Dot(h, t));
    assert p * p == (nh * nh) * (nt * nt);
    assert p * p == NormSq(h) * NormSq(t);
    QuotientAboveThreshold(Dot(h, t), p, CosThreshold);
    assert CosThreshold * CosThreshold * (p * p)
        == CosThreshold * CosThreshold * NormSq(h) * NormSq(t);
  }

  /** With every joint present and both vectors of positive length, the
      classifier answers the cosine test and returns the reference point. */
  lemma MutualGazeIsCosineTest(obs: Keypoints, tgt: Keypoints, nh: real, nt: real)
    requires HasHead(obs) && TargetPoint(tgt).Some?
    requires nh > 0.0 && nh * nh == NormSq(HeadVector(obs))
    requires nt > 0.0 && nt * nt == NormSq(TargetVector(obs, TargetPoint(tgt).value))
    ensures MutualGaze(obs, tgt).target == TargetPoint(tgt)
    ensures MutualGaze(obs, tgt).looking
        <==> Dot(Scale(HeadVector(obs), 1.0 / nh),
                 Scale(TargetVector(obs, TargetPoint(tgt).value), 1.0 / nt)) > CosThreshold
  {
    var h := HeadVector(obs);
    var t := TargetVector(obs, TargetPoint(tgt).value);
    assert NormSq(h) > 0.0 && NormSq(t) > 0.0;
    CosineTestIsExact(h, t, nh, nt);
  }

  // ---------------------------------------------------------- environment gaze

  datatype EnvironmentGaze = EnvironmentGaze(origin: Point, focus: Point)

  predicate HasEyes(obs: Keypoints)
  {
    Nose in obs && LeftEye in obs && RightEye in obs
  }

  /** The eye midpoint, each coordinate truncated toward zero. */
  function EyeMidpoint(obs: Keypoints): Point
    requires LeftEye in obs && RightEye in obs
  {
    Point(TruncReal((obs[LeftEye].x + obs[RightEye].x) as real / 2.0),
          TruncReal((obs[LeftEye].y + obs[RightEye].y) as real / 2.0))
  }

  /** The head-tilt vector from the eye midpoint to the nose, with its vertical
      part clamped so that it never points up the image. */
  function ClampedTilt(obs: Keypoints): (v: Point)
    requires HasEyes(obs)
    ensures v.y >= 0
    ensures v.x == obs[Nose].x - EyeMidpoint(obs).x
    ensures v.y == 0 <==> obs[Nose].y <= EyeMidpoint(obs).y
    ensures obs[Nose].y > EyeMidpoint(obs).y ==> v.y == obs[Nose].y - EyeMidpoint(obs).y
  {
    var m := EyeMidpoint(obs);
    var dy := obs[Nose].y - m.y;
    Point(obs[Nose].x - m.x, if dy > 0 then dy else 0)
  }

  /** The environment focus: the eye midpoint moved ProjectionDistance pixels
      along the unit clamped tilt, truncated toward zero. */
  function EnvironmentFocus(obs: Keypoints): (r: Option<EnvironmentGaze>)
    ensures r.None? <==> !HasEyes(obs) || ClampedTilt(obs) == Point(0, 0)
    ensures r.Some? ==> r.value.origin == EyeMidpoint(obs)
    ensures r.Some? ==> r.value.focus.y >= r.value.origin.y
  {
    if !HasEyes(obs) then None
    else
      var o := EyeMidpoint(obs);
      var v := ClampedTilt(obs);
      if v.x == 0 && v.y == 0 then None
      else
        var n := TiltNormSq(v);
        TruncShiftNotBelow(o.y, ProjectionDistance * v.y, n);
        Some(EnvironmentGaze(o, Point(TruncShift(o.x, ProjectionDistance * v.x, n),
                                      TruncShift(o.y, ProjectionDistance * v.y, n))))
  }

  function TiltNormSq(v: Point): (n: int)
    requires v != Point(0, 0)
    ensures n > 0 && n == v.x * v.x + v.y * v.y
  {
    if v.x != 0 then SquarePositive(v.x); Square(v.x) + Square(v.y)
    else SquarePositive(v.y); Square(v.x) + Square(v.y)
  }

  /** One coordinate of the projection, with the length s of the tilt. */
  lemma ShiftIsProjection(o: int, v: int, n: int, s: real)
    requires n > 0 && s > 0.0 && s * s == n as real
    ensures TruncShift(o, ProjectionDistance * v, n)
         == TruncReal(o as real + (v as real / s) * ProjectionDistance as real)
  {
    var w := ProjectionDistance * v;
    TruncShiftExact(o, w, n, s);
    var a := o as real + w as real / s;
    var b := o as real + (v as real / s) * ProjectionDistance as real;
    assert a == b by {
      QuotientOfMultiple(v, s);
    }
  }

  lemma QuotientOfMultiple(v: int, s: real)
    requires s > 0.0
    ensures (ProjectionDistance * v) as real / s == (v as real / s) * ProjectionDistance as real
  {
    var q := v as real / s;
    assert q * s == v as real;
    assert (ProjectionDistance * v) as real == (q * ProjectionDistance as real) * s;
  }

  /** The integer focus is exactly the source's projection
      int(origin + (v / |v|) * ProjectionDistance), for the length s of v. */
  lemma EnvironmentFocusIsProjection(obs: Keypoints, s: real)
    requires EnvironmentFocus(obs).Some?
    requires s > 0.0 && s * s == TiltNormSq(ClampedTilt(obs)) as real
    ensures var g := EnvironmentFocus(obs).value; var v := ClampedTilt(obs);
      && g.focus.x == TruncReal(g.origin.x as real + (v.x as real / s) * ProjectionDistance as real)
      && g.focus.y == TruncReal(g.origin.y as real + (v.y as real / s) * ProjectionDistance as real)
  {
    var g := EnvironmentFocus(obs).value;
    var v := ClampedTilt(obs);
    var n := TiltNormSq(v);
    assert g.focus == Point(TruncShift(g.origin.x, ProjectionDistance * v.x, n),
                            TruncShift(g.origin.y, ProjectionDistance * v.y, n));
    ShiftIsProjection(g.origin.x, v.x, n, s);
    ShiftIsProjection(g.origin.y, v.y, n, s);
  }

  // ---------------------------------------------------------- focus selection

  /** The pixel a person's attention is recorded at this frame: the truncated
      target reference point under mutual gaze, otherwise the environment
      focus; nothing when the chosen mode has no point. */
  function FocusPoint(obs: Keypoints, tgt: Keypoints): (f: Option<Point>)
    ensures MutualGaze(obs, tgt).looking ==> f == Some(TruncPoint(TargetPoint(tgt).value))
    ensures !MutualGaze(obs, tgt).looking ==>
      f == (if EnvironmentFocus(obs).Some? then Some(EnvironmentFocus(obs).value.focus) else None)
  {
    var g := MutualGaze(obs, tgt);
    if g.looking then
      if Nose in obs && g.target.Some? then Some(TruncPoint(g.target.value)) else None
    else
      match EnvironmentFocus(obs)
      case Some(e) => Some(e.focus)
      case None => None
  }

  // ---------------------------------------------------------- worked examples

  /** A head turned straight up the image toward a partner whose nose sits
      50 pixels above: the partner is looked at, and the focus is that nose. */
  lemma FacingPartnerIsMutualGaze()
    ensures var obs := map[Nose := Point(100, 100), LeftEar := Point(90, 110), RightEar := Point(110, 110)];
            var tgt := map[Nose := Point(100, 50)];
            && MutualGaze(obs, tgt) == MutualGazeResult(true, Some(RPoint(100.0, 50.0)))
            && FocusPoint(obs, tgt) == Some(Point(100, 50))
  {
    var obs := map[Nose := Point(100, 100), LeftEar := Point(90, 110), RightEar := Point(110, 110)];
    var tgt := map[Nose := Point(100, 50)];
    TargetPointOfCoincidentJoints(tgt, Point(100, 50));
    assert HeadVector(obs) == Vec(0.0, -10.0);
    assert TargetVector(obs, RPoint(100.0, 50.0)) == Vec(0.0, -50.0);
  }

  /** The same head with the partner 100 pixels to the side is not mutual gaze;
      the focus falls back to the eye midpoint moved 300 pixels down. */
  lemma SidewaysPartnerFallsBackToEnvironment()
    ensures var obs := SidewaysObserver();
            var tgt := map[Nose := Point(200, 100)];
            && !MutualGaze(obs, tgt).looking
            && EnvironmentFocus(obs) == Some(EnvironmentGaze(Point(100, 95), Point(100, 395)))
            && FocusPoint(obs, tgt) == Some(Point(100, 395))
  {
    SidewaysPartnerIsNotLooked();
    DownwardTiltProjects();
  }

  function SidewaysObserver(): Keypoints
  {
    map[Nose := Point(100, 100), LeftEar := Point(90, 110), RightEar := Point(110, 110),
        LeftEye := Point(95, 95), RightEye := Point(105, 95)]
  }

  lemma SidewaysPartnerIsNotLooked()
    ensures !MutualGaze(SidewaysObserver(), map[Nose := Point(200, 100)]).looking
  {
    var obs := SidewaysObserver();
    var tgt := map[Nose := Point(200, 100)];
    TargetPointOfCoincidentJoints(tgt, Point(200, 100));
    assert Dot(HeadVector(obs), TargetVector(obs, RPoint(200.0, 100.0))) == 0.0;
  }

  lemma DownwardTiltProjects()
    ensures EnvironmentFocus(SidewaysObserver()) == Some(EnvironmentGaze(Point(100, 95), Point(100, 395)))
  {
    var obs := SidewaysObserver();
    assert EyeMidpoint(obs) == Point(100, 95);
    assert ClampedTilt(obs) == Point(0, 5);
    assert TiltNormSq(Point(0, 5)) == 25;
    DownwardShift();
  }

  /** The two coordinates of the 300-pixel projection of the tilt (0, 5). */
  lemma DownwardShift()
    ensures TruncShift(100, 0, 25) == 100 && TruncShift(95, 1500, 25) == 395
  {
    ISqrtUnique(0, 0);
    ISqrtUnique(90000, 300);
    assert Quot(Square(1500), 25) == 90000;
  }
}
