/** Vocabulary shared by both front ends: variable keys, factors, values,
    the calibration, stereo back-projection, the disparity map and the image
    bounds.  Pose3 composition and the optimizer's numerics are left
    uninterpreted: a pose or point that the optimizer or gtsam computes is a
    symbolic term. */
module Graph {

  datatype Option<T> = None | Some(value: T)

  /** gtsam symbols: X(i) is the pose of frame i, L(j) landmark j. */
  datatype Key = X(frame: nat) | L(landmark: nat)

  /** A 3x3 rotation, kept as its entries; nothing is computed with it. */
  datatype Rot3 = Rot3(entries: seq<real>)

  /** A Pose3 is a rotation and a translation. */
  datatype Pose = Pose(rotation: Rot3, translation: Point3)

  /** A Point3 is either given by coordinates or is `pose.transformFrom(local)`,
      which stays an uninterpreted term. */
  datatype Point3 =
    | Point3(x: real, y: real, z: real)
    | TransformFrom(pose: Pose, local: Point3)

  /** What a gtsam.Values container holds under a key. */
  datatype Value = PoseValue(pose: Pose) | PointValue(point: Point3)

  /** A pixel position with sub-pixel coordinates (a SIFT keypoint's `pt`). */
  datatype Pt = Pt(x: real, y: real)

  /** A StereoPoint2 measurement (left u, right u, v). */
  datatype StereoPoint = StereoPoint(uL: real, uR: real, v: real)

  /** The factors the two scripts create. */
  datatype Factor =
    | PriorPose(key: Key, mean: Pose)          // PriorFactorPose3
    | EqualityPose(key: Key, value: Pose)      // NonlinearEqualityPose3
    | Stereo(m: StereoPoint, pose: Key, landmark: Key)  // GenericStereoFactor3D

  /** Image size, `img_w, img_h = (1241, 376)` in both scripts. */
  const ImgW: int := 1241
  const ImgH: int := 376

  /** The constant forward speed of the motion model (`velocity = 2`). */
  const Velocity: real := 2.0

  /** The identity pose, `gtsam.Pose3()`. */
  const IdentityPose: Pose :=
    Pose(Rot3([1.0, 0.0, 0.0, 0.0, 1.0, 0.0, 0.0, 0.0, 1.0]), Point3(0.0, 0.0, 0.0))

  /** Calibration read from calib.txt, with the fixed stereo baseline in metres. */
  datatype Calib = Calib(fx: real, fy: real, cx: real, cy: real, baseline: real)
  {
    predicate Valid() { fx > 0.0 && fy > 0.0 && baseline > 0.0 }
  }

  /** Constant-velocity prediction: same rotation, moved `Velocity` along the
      pose's own z (forward) axis. */
  function PredictNextPose(pose: Pose): (r: Pose)
    ensures r.rotation == pose.rotation
    ensures r.translation == TransformFrom(pose, Point3(0.0, 0.0, Velocity))
  {
    Pose(pose.rotation, TransformFrom(pose, Point3(0.0, 0.0, Velocity)))
  }

  /** Depth from disparity: `z = (fx * baseline) / d`. */
  function Depth(c: Calib, d: real): (z: real)
    requires c.Valid() && d > 0.0
    ensures z > 0.0
    ensures z * d == c.fx * c.baseline
  {
    (c.fx * c.baseline) / d
  }

  /** Back-projection as both scripts write it: x from uL, y from `row`, z
      from the disparity.  The landmark minting of sift_fixed_lag.py and the
      extension of isam.py pass uR as `row`, where v would be expected; the
      initial set-up of isam.py passes v.  Each caller keeps its code's
      behaviour. */
  function BackProject(c: Calib, uL: real, row: real, d: real): (p: Point3)
    requires c.Valid() && d > 0.0
    ensures p.Point3? && p.z == Depth(c, d)
    ensures p.x * c.fx == (uL - c.cx) * p.z
    ensures p.y * c.fy == (row - c.cy) * p.z
  {
    var z := Depth(c, d);
    Point3((uL - c.cx) * (z / c.fx), (row - c.cy) * (z / c.fy), z)
  }

  /** A disparity map as the depth provider returns it: ImgH rows of ImgW
      values, indexed `disparity[row, col]`. */
  type DisparityMap = seq<seq<real>>

  predicate Shaped(disp: DisparityMap)
  {
    |disp| == ImgH && forall r :: 0 <= r < |disp| ==> |disp[r]| == ImgW
  }

  function DisparityAt(disp: DisparityMap, row: int, col: int): real
    requires Shaped(disp) && 0 <= row < ImgH && 0 <= col < ImgW
  {
    disp[row][col]
  }

  /** A keypoint position inside the image, so that `int(v), int(uL)` index
      the disparity map. */
  predicate InImage(p: Pt)
  {
    0.0 <= p.x < ImgW as real && 0.0 <= p.y < ImgH as real
  }

  /** `_get_pose(result, key)`: `result.atPose3(key)`, which fails when the
      key is missing or holds a point. */
  function GetPose(result: map<Key, Value>, k: Key): (r: Option<Pose>)
    ensures r.Some? <==> k in result && result[k].PoseValue?
    ensures r.Some? ==> result[k] == PoseValue(r.value)
  {
    if k in result && result[k].PoseValue? then Some(result[k].pose) else None
  }

  /** The set of keys L(lo), ..., L(hi - 1). */
  function LandmarkRange(lo: nat, hi: nat): (r: set<Key>)
    ensures forall k :: k in r <==> k.L? && lo <= k.landmark < hi
  {
    set j | lo <= j < hi :: L(j)
  }

  /** The landmark keys a sequence of factors refers to are all below n. */
  predicate LandmarksBelow(factors: seq<Factor>, n: nat)
  {
    forall k :: 0 <= k < |factors| && factors[k].Stereo? ==>
      factors[k].landmark.L? && factors[k].landmark.landmark < n
  }

  /** The landmark keys of a Values container are all below n. */
  predicate LandmarkKeysBelow(values: map<Key, Value>, n: nat)
  {
    forall k :: k in values && k.L? ==> k.landmark < n
  }
}
