/** The bookkeeping of isam.py: corners with usable disparity become the
    first landmarks, optical flow tracks them from frame to frame, a feature
    the flow loses is never tracked again, every tracked feature yields one
    clamped stereo factor per frame, and new corners far from all tracked
    features may extend the landmark set.  Corner detection, the optical
    flow and ISAM2 are foreign calls: their outputs are parameters. */
module Isam {
  import opened Graph

  /** A pixel with integer coordinates, as `points` holds them after
      `astype(int)` and `onp.int32`. */
  datatype Pixel = Pixel(x: int, y: int)

  /** An entry of `status`: 1 while a feature is tracked, 0 once it is lost. */
  datatype Status = Lost | Tracked

  /** Corners are kept when their disparity exceeds this (`> 10`). */
  const MinDisparity: real := 10.0

  /** `new_feature_threshold`: the smallest distance, in pixels, from a new
      corner to every tracked feature. */
  const NewFeatureThreshold: int := 30

  /** `new_points[:5]`: at most this many landmarks are added at once. */
  const MaxNewPoints: nat := 5

  predicate PixelInImage(p: Pixel)
  {
    0 <= p.x < ImgW && 0 <= p.y < ImgH
  }

  /** `disparity[v, uL]` for the pixel (uL, v). */
  function DisparityOf(disp: DisparityMap, p: Pixel): real
    requires Shaped(disp) && PixelInImage(p)
  {
    DisparityAt(disp, p.y, p.x)
  }

  /** A corner the disparity filter keeps. */
  predicate Usable(disp: DisparityMap, p: Pixel)
    requires Shaped(disp)
  {
    PixelInImage(p) && DisparityOf(disp, p) > MinDisparity
  }

  predicate AllInImage(ps: seq<Pixel>)
  {
    forall k :: 0 <= k < |ps| ==> PixelInImage(ps[k])
  }

  /** `a` is `b` with some elements dropped, the rest in their order. */
  predicate Subsequence(a: seq<Pixel>, b: seq<Pixel>)
    decreases |b|
  {
    if a == [] then true
    else if b == [] then false
    else if a[|a| - 1] == b[|b| - 1] then Subsequence(a[..|a| - 1], b[..|b| - 1])
    else Subsequence(a, b[..|b| - 1])
  }

  // ---------------------------------------------------------------------
  // Which features are tracked

  /** `onp.argwhere(status == 1).flatten()`: the tracked indices, ascending. */
  function IndsToTrack(status: seq<Status>): (r: seq<nat>)
    ensures |r| <= |status|
    ensures forall k :: 0 <= k < |r| ==> r[k] < |status|
    decreases |status|
  {
    if status == [] then []
    else
      var n := |status| - 1;
      var r := IndsToTrack(status[..n]);
      if status[n] == Tracked then r + [n] else r
  }

  /** The indices handed to the tracker are exactly the tracked ones, in
      increasing order. */
  lemma {:induction false} IndsToTrackSpec(status: seq<Status>)
    ensures forall k :: 0 <= k < |IndsToTrack(status)| ==> status[IndsToTrack(status)[k]] == Tracked
    ensures forall a, b :: 0 <= a < b < |IndsToTrack(status)| ==> IndsToTrack(status)[a] < IndsToTrack(status)[b]
    ensures forall j :: 0 <= j < |status| && status[j] == Tracked ==> j in IndsToTrack(status)
    decreases |status|
  {
    if status != [] {
      var n := |status| - 1;
      IndsToTrackSpec(status[..n]);
      var r := IndsToTrack(status[..n]);
      assert forall k :: 0 <= k < |r| ==> status[..n][r[k]] == status[r[k]];
      assert forall j :: 0 <= j < n ==> status[..n][j] == status[j];
    }
  }

  /** The tracked indices of a prefix are a prefix of the tracked indices. */
  lemma {:induction false} IndsPrefix(status: seq<Status>, n: nat)
    requires n <= |status|
    ensures IndsToTrack(status[..n]) <= IndsToTrack(status)
    decreases |status|
  {
    if n == |status| {
      assert status[..n] == status;
    } else {
      var front := status[..|status| - 1];
      IndsPrefix(front, n);
      assert front[..n] == status[..n];
    }
  }

  /** A tracked feature j is the k-th point handed to the tracker, where k
      counts the tracked features before j. */
  lemma RankIndex(status: seq<Status>, j: nat)
    requires j < |status| && status[j] == Tracked
    ensures |IndsToTrack(status[..j])| < |IndsToTrack(status)|
    ensures IndsToTrack(status)[|IndsToTrack(status[..j])|] == j
  {
    IndsPrefix(status, j + 1);
    var s := status[..j + 1];
    assert s[..|s| - 1] == status[..j];
  }

  // ---------------------------------------------------------------------
  // Tracking (lines 434-455)

  /** C-style truncation toward zero, as `onp.int32` applies to the tracker's
      float coordinates. */
  function Trunc(r: real): (v: int)
    ensures r >= 0.0 ==> 0 <= v && v as real <= r < v as real + 1.0
    ensures r < 0.0 ==> v <= 0 && v as real - 1.0 < r <= v as real
  {
    if r >= 0.0 then r.Floor else -((-r).Floor)
  }

  /** `onp.int32(p1.reshape((-1, 2)))`. */
  function Truncated(p1: seq<Pt>): (r: seq<Pixel>)
    ensures |r| == |p1|
    ensures forall k :: 0 <= k < |p1| ==> r[k] == Pixel(Trunc(p1[k].x), Trunc(p1[k].y))
  {
    seq(|p1|, k requires 0 <= k < |p1| => Pixel(Trunc(p1[k].x), Trunc(p1[k].y)))
  }

  /** `status` after `status[untracked_inds] = 0`, walking the features in
      order and consuming one tracker answer per tracked feature: a lost
      feature stays lost, and the k-th tracked feature is lost exactly when
      the tracker's st[k] is 0. */
  function TrackStatus(status: seq<Status>, st: seq<bool>): (r: seq<Status>)
    requires |st| == |IndsToTrack(status)|
    ensures |r| == |status|
    ensures forall j :: 0 <= j < |status| && status[j] == Lost ==> r[j] == Lost
    ensures forall k :: 0 <= k < |st| ==> (r[IndsToTrack(status)[k]] == Tracked <==> st[k])
    decreases |status|
  {
    if status == [] then []
    else
      var n := |status| - 1;
      if status[n] == Lost then TrackStatus(status[..n], st) + [Lost]
      else
        var r := TrackStatus(status[..n], st[..|st| - 1]);
        r + [if st[|st| - 1] then Tracked else Lost]
  }

  /** `points` after `points[tracked_inds] = p1[st == 1]`: the k-th tracked
      feature moves to the tracker's k-th answer when st[k] is 1; every other
      feature keeps its position. */
  function TrackPoints(points: seq<Pixel>, status: seq<Status>, p1: seq<Pixel>, st: seq<bool>): (r: seq<Pixel>)
    requires |points| == |status| && |p1| == |st| == |IndsToTrack(status)|
    ensures |r| == |points|
    ensures forall j :: 0 <= j < |points| && status[j] == Lost ==> r[j] == points[j]
    ensures forall k :: 0 <= k < |st| ==>
      r[IndsToTrack(status)[k]] == if st[k] then p1[k] else points[IndsToTrack(status)[k]]
    decreases |status|
  {
    if status == [] then []
    else
      var n := |status| - 1;
      if status[n] == Lost then TrackPoints(points[..n], status[..n], p1, st) + [points[n]]
      else
        var m := |st| - 1;
        var r := TrackPoints(points[..n], status[..n], p1[..m], st[..m]);
        r + [if st[m] then p1[m] else points[n]]
  }

  /** The status after the first k writes of `status[untracked_inds] = 0`,
      taken in the order of the indices inds handed to the tracker. */
  function MarkedLost(s0: seq<Status>, inds: seq<nat>, st: seq<bool>, k: nat): (r: seq<Status>)
    requires |st| == |inds| && k <= |st| && forall q :: 0 <= q < |inds| ==> inds[q] < |s0|
    ensures |r| == |s0|
    decreases k
  {
    if k == 0 then s0
    else
      var r := MarkedLost(s0, inds, st, k - 1);
      if st[k - 1] then r else r[inds[k - 1] := Lost]
  }

  /** What the first k writes have done: the first k tracked features
      answer st, and the rest are still tracked. */
  lemma {:induction false} MarkedLostSpec(s0: seq<Status>, st: seq<bool>, k: nat)
    requires |st| == |IndsToTrack(s0)| && k <= |st|
    ensures forall q :: 0 <= q < k ==>
      (MarkedLost(s0, IndsToTrack(s0), st, k)[IndsToTrack(s0)[q]] == Tracked <==> st[q])
    ensures forall q :: k <= q < |st| ==> MarkedLost(s0, IndsToTrack(s0), st, k)[IndsToTrack(s0)[q]] == Tracked
    decreases k
  {
    IndsToTrackSpec(s0);
    if k > 0 {
      var inds := IndsToTrack(s0);
      var r := MarkedLost(s0, inds, st, k - 1);
      var r' := MarkedLost(s0, inds, st, k);
      MarkedLostSpec(s0, st, k - 1);
      forall q | 0 <= q < |st| && q != k - 1
        ensures r'[inds[q]] == r[inds[q]]
      {
        assert inds[q] != inds[k - 1];
      }
    }
  }

  /** The writes only ever mark tracked features: a lost feature stays lost. */
  lemma {:induction false} MarkedLostKeepsLost(s0: seq<Status>, st: seq<bool>, k: nat)
    requires |st| == |IndsToTrack(s0)| && k <= |st|
    ensures forall j :: 0 <= j < |s0| && s0[j] == Lost ==> MarkedLost(s0, IndsToTrack(s0), st, k)[j] == Lost
    decreases k
  {
    if k > 0 {
      MarkedLostKeepsLost(s0, st, k - 1);
      IndsToTrackSpec(s0);
    }
  }

  /** The points after the first k writes of `points[tracked_inds] = p1[st == 1]`. */
  function MovedTo(p0: seq<Pixel>, inds: seq<nat>, moved: seq<Pixel>, st: seq<bool>, k: nat): (r: seq<Pixel>)
    requires |moved| == |st| == |inds| && k <= |st| && forall q :: 0 <= q < |inds| ==> inds[q] < |p0|
    ensures |r| == |p0|
    decreases k
  {
    if k == 0 then p0
    else
      var r := MovedTo(p0, inds, moved, st, k - 1);
      if st[k - 1] then r[inds[k - 1] := moved[k - 1]] else r
  }

  /** What the first k writes have done: the first k tracked features sit
      at the tracker's answer where st is 1, and the rest have not moved. */
  lemma {:induction false} MovedToSpec(p0: seq<Pixel>, s0: seq<Status>, moved: seq<Pixel>, st: seq<bool>, k: nat)
    requires |p0| == |s0| && |moved| == |st| == |IndsToTrack(s0)| && k <= |st|
    ensures forall q :: 0 <= q < k ==>
      MovedTo(p0, IndsToTrack(s0), moved, st, k)[IndsToTrack(s0)[q]]
        == if st[q] then moved[q] else p0[IndsToTrack(s0)[q]]
    ensures forall q :: k <= q < |st| ==>
      MovedTo(p0, IndsToTrack(s0), moved, st, k)[IndsToTrack(s0)[q]] == p0[IndsToTrack(s0)[q]]
    decreases k
  {
    if k > 0 {
      var inds := IndsToTrack(s0);
      IndsToTrackSpec(s0);
      var r := MovedTo(p0, inds, moved, st, k - 1);
      var r' := MovedTo(p0, inds, moved, st, k);
      MovedToSpec(p0, s0, moved, st, k - 1);
      forall q | 0 <= q < |st| && q != k - 1
        ensures r'[inds[q]] == r[inds[q]]
      {
        assert inds[q] != inds[k - 1];
      }
    }
  }

  /** The writes only ever move tracked features: a lost feature stays put. */
  lemma {:induction false} MovedToKeepsLost(p0: seq<Pixel>, s0: seq<Status>, moved: seq<Pixel>, st: seq<bool>, k: nat)
    requires |p0| == |s0| && |moved| == |st| == |IndsToTrack(s0)| && k <= |st|
    ensures forall j :: 0 <= j < |p0| && s0[j] == Lost ==> MovedTo(p0, IndsToTrack(s0), moved, st, k)[j] == p0[j]
    decreases k
  {
    if k > 0 {
      MovedToKeepsLost(p0, s0, moved, st, k - 1);
      IndsToTrackSpec(s0);
    }
  }

  /** The properties of TrackStatus determine it: any status sequence that
      keeps the lost features lost and answers the tracker's st is it. */
  lemma TrackStatusUnique(status: seq<Status>, st: seq<bool>, r: seq<Status>)
    requires |st| == |IndsToTrack(status)| && |r| == |status|
    requires forall j :: 0 <= j < |status| && status[j] == Lost ==> r[j] == Lost
    requires forall k :: 0 <= k < |st| ==> (r[IndsToTrack(status)[k]] == Tracked <==> st[k])
    ensures r == TrackStatus(status, st)
  {
    var t := TrackStatus(status, st);
    forall j | 0 <= j < |status|
      ensures r[j] == t[j]
    {
      if status[j] == Tracked {
        RankIndex(status, j);
      }
    }
  }

  /** Likewise, the properties of TrackPoints determine it. */
  lemma TrackPointsUnique(points: seq<Pixel>, status: seq<Status>, p1: seq<Pixel>, st: seq<bool>, r: seq<Pixel>)
    requires |points| == |status| && |p1| == |st| == |IndsToTrack(status)| && |r| == |points|
    requires forall j :: 0 <= j < |points| && status[j] == Lost ==> r[j] == points[j]
    requires forall k :: 0 <= k < |st| ==>
      r[IndsToTrack(status)[k]] == if st[k] then p1[k] else points[IndsToTrack(status)[k]]
    ensures r == TrackPoints(points, status, p1, st)
  {
    var t := TrackPoints(points, status, p1, st);
    forall j | 0 <= j < |points|
      ensures r[j] == t[j]
    {
      if status[j] == Tracked {
        RankIndex(status, j);
      }
    }
  }

  /** The scatter `status[untracked_inds] = 0` and the walk TrackStatus
      agree. */
  lemma MarkedLostIsTrackStatus(s0: seq<Status>, st: seq<bool>)
    requires |st| == |IndsToTrack(s0)|
    ensures MarkedLost(s0, IndsToTrack(s0), st, |st|) == TrackStatus(s0, st)
  {
    MarkedLostSpec(s0, st, |st|);
    MarkedLostKeepsLost(s0, st, |st|);
    TrackStatusUnique(s0, st, MarkedLost(s0, IndsToTrack(s0), st, |st|));
  }

  /** The scatter `points[tracked_inds] = p1[st == 1]` and the walk
      TrackPoints agree. */
  lemma MovedToIsTrackPoints(p0: seq<Pixel>, s0: seq<Status>, moved: seq<Pixel>, st: seq<bool>)
    requires |p0| == |s0| && |moved| == |st| == |IndsToTrack(s0)|
    ensures MovedTo(p0, IndsToTrack(s0), moved, st, |st|) == TrackPoints(p0, s0, moved, st)
  {
    MovedToSpec(p0, s0, moved, st, |st|);
    MovedToKeepsLost(p0, s0, moved, st, |st|);
    TrackPointsUnique(p0, s0, moved, st, MovedTo(p0, IndsToTrack(s0), moved, st, |st|));
  }

  /** Once lost, a feature is never tracked again, and tracking never
      revives a feature. */
  lemma LostIsPermanent(status: seq<Status>, st: seq<bool>, j: nat)
    requires |st| == |IndsToTrack(status)| && j < |status|
    ensures TrackStatus(status, st)[j] == Tracked ==> status[j] == Tracked
    ensures status[j] == Lost ==> j !in IndsToTrack(TrackStatus(status, st))
  {
    IndsToTrackSpec(TrackStatus(status, st));
  }

  // ---------------------------------------------------------------------
  // Factor emission (lines 466-482)

  /** `onp.clip` on integers. */
  function ClipInt(a: int, lo: int, hi: int): (r: int)
    requires lo <= hi
    ensures lo <= r <= hi
    ensures a < lo ==> r == lo
    ensures a > hi ==> r == hi
    ensures lo <= a <= hi ==> r == a
  {
    if a < lo then lo else if a > hi then hi else a
  }

  /** `onp.clip` on the real-valued right coordinate.  The same clamp as
      ClipInt, written again because Dafny's `real` is not `int`: the
      feature's uL and v are int32 after tracking, while `uL - d` is a real. */
  function Clip(a: real, lo: real, hi: real): (r: real)
    requires lo <= hi
    ensures lo <= r <= hi
    ensures a < lo ==> r == lo
    ensures a > hi ==> r == hi
    ensures lo <= a <= hi ==> r == a
  {
    if a < lo then lo else if a > hi then hi else a
  }

  /** The measurement emitted for a tracked feature at p, which the flow
      may have carried outside the image: its position clamped to the image,
      the disparity read there, and the right coordinate `uL - d` clamped
      too. */
  function EmittedMeasurement(p: Pixel, disp: DisparityMap): (m: StereoPoint)
    requires Shaped(disp)
    ensures 0.0 <= m.uL <= (ImgW - 1) as real
    ensures 0.0 <= m.v <= (ImgH - 1) as real
    ensures 0.0 <= m.uR <= (ImgW - 1) as real
    ensures m.uL == ClipInt(p.x, 0, ImgW - 1) as real && m.v == ClipInt(p.y, 0, ImgH - 1) as real
    ensures m.uR == Clip(m.uL - DisparityAt(disp, ClipInt(p.y, 0, ImgH - 1), ClipInt(p.x, 0, ImgW - 1)),
                         0.0, (ImgW - 1) as real)
    ensures PixelInImage(p) ==> m.uL == p.x as real && m.v == p.y as real
    ensures PixelInImage(p) && 0.0 <= p.x as real - DisparityOf(disp, p) <= (ImgW - 1) as real ==>
      m.uR == p.x as real - DisparityOf(disp, p)
  {
    var uL := ClipInt(p.x, 0, ImgW - 1);
    var v := ClipInt(p.y, 0, ImgH - 1);
    var d := DisparityAt(disp, v, uL);
    StereoPoint(uL as real, Clip(uL as real - d, 0.0, (ImgW - 1) as real), v as real)
  }

  /** The factors of one frame: the k-th factor ties pose X(i) to the
      landmark of the k-th tracked feature, so there is exactly one per
      tracked feature, in order, and none for a lost one. */
  function Emission(i: nat, points: seq<Pixel>, status: seq<Status>, disp: DisparityMap): (g: seq<Factor>)
    requires |points| == |status| && Shaped(disp)
    ensures |g| == |IndsToTrack(status)|
    ensures forall k :: 0 <= k < |g| ==>
      g[k] == Stereo(EmittedMeasurement(points[IndsToTrack(status)[k]], disp), X(i), L(IndsToTrack(status)[k]))
    decreases |status|
  {
    if status == [] then []
    else
      var n := |status| - 1;
      var g := Emission(i, points[..n], status[..n], disp);
      if status[n] == Lost then g
      else g + [Stereo(EmittedMeasurement(points[n], disp), X(i), L(n))]
  }

  /** A landmark is measured in frame i exactly when its feature is tracked,
      every factor is on X(i), and every measurement lies in the image. */
  lemma EmissionSpec(i: nat, points: seq<Pixel>, status: seq<Status>, disp: DisparityMap, j: nat)
    requires |points| == |status| && Shaped(disp) && j < |status|
    ensures status[j] == Tracked ==>
      exists k :: 0 <= k < |Emission(i, points, status, disp)| && Emission(i, points, status, disp)[k].landmark == L(j)
    ensures status[j] == Lost ==>
      forall k :: 0 <= k < |Emission(i, points, status, disp)| ==> Emission(i, points, status, disp)[k].landmark != L(j)
    ensures forall k :: 0 <= k < |Emission(i, points, status, disp)| ==>
      var f := Emission(i, points, status, disp)[k];
      && f.Stereo? && f.pose == X(i)
      && 0.0 <= f.m.uL <= (ImgW - 1) as real && 0.0 <= f.m.uR <= (ImgW - 1) as real
      && 0.0 <= f.m.v <= (ImgH - 1) as real
  {
    var g := Emission(i, points, status, disp);
    if status[j] == Tracked {
      RankIndex(status, j);
      var k := |IndsToTrack(status[..j])|;
      assert 0 <= k < |g| && g[k].landmark == L(j);
    }
  }

  // ---------------------------------------------------------------------
  // Disparity filter (lines 126-133 and 359-363)

  /** `onp.squeeze(corners).astype(int)` followed by `corners[:, 1]` needs
      at least two detections: with none, `goodFeaturesToTrack` returns None
      and `.astype` raises; with one, squeezing leaves a one-dimensional
      array and the column index raises. */
  predicate EnoughCorners(detected: seq<Pixel>)
  {
    |detected| >= 2
  }

  /** r holds the elements of `from` at the positions idx, which increase. */
  predicate Picks(r: seq<Pixel>, from: seq<Pixel>, idx: seq<nat>)
  {
    && |idx| == |r|
    && (forall k :: 0 <= k < |idx| ==> idx[k] < |from| && r[k] == from[idx[k]])
    && (forall a, b :: 0 <= a < b < |idx| ==> idx[a] < idx[b])
  }

  /** `corners[disparity[corners[:, 1], corners[:, 0]] > 10]`. */
  function ValidCorners(corners: seq<Pixel>, disp: DisparityMap): (r: seq<Pixel>)
    requires Shaped(disp) && AllInImage(corners)
    ensures forall k :: 0 <= k < |r| ==> Usable(disp, r[k])
    decreases |corners|
  {
    if corners == [] then []
    else
      var n := |corners| - 1;
      var r := ValidCorners(corners[..n], disp);
      if DisparityOf(disp, corners[n]) > MinDisparity then r + [corners[n]] else r
  }

  /** The filter keeps the corners in their order. */
  lemma {:induction false} ValidCornersOrdered(corners: seq<Pixel>, disp: DisparityMap)
    requires Shaped(disp) && AllInImage(corners)
    ensures Subsequence(ValidCorners(corners, disp), corners)
    decreases |corners|
  {
    if corners != [] {
      var n := |corners| - 1;
      ValidCornersOrdered(corners[..n], disp);
      var r := ValidCorners(corners[..n], disp);
      if DisparityOf(disp, corners[n]) > MinDisparity {
        assert (r + [corners[n]])[..|r|] == r;
      }
    }
  }

  /** The filter keeps exactly the corners whose disparity exceeds 10, each
      as often as it occurs and in order: idx lists the positions kept. */
  lemma {:induction false} ValidCornersSpec(corners: seq<Pixel>, disp: DisparityMap) returns (idx: seq<nat>)
    requires Shaped(disp) && AllInImage(corners)
    ensures Picks(ValidCorners(corners, disp), corners, idx)
    ensures forall j :: 0 <= j < |corners| ==> (j in idx <==> Usable(disp, corners[j]))
    decreases |corners|
  {
    if corners == [] {
      idx := [];
    } else {
      var n := |corners| - 1;
      var front := corners[..n];
      var idx0 := ValidCornersSpec(front, disp);
      assert forall k :: 0 <= k < |idx0| ==> front[idx0[k]] == corners[idx0[k]];
      assert forall j :: 0 <= j < n ==> front[j] == corners[j];
      if DisparityOf(disp, corners[n]) > MinDisparity {
        idx := idx0 + [n];
      } else {
        idx := idx0;
      }
    }
  }

  // ---------------------------------------------------------------------
  // Initial set-up (lines 126-175 and 275-309)

  /** The stereo factors for landmarks base, base+1, ... observed at the
      given pixels from pose X(frame), unclamped, with `uR = uL - d`. */
  function LandmarkFactors(frame: nat, base: nat, pts: seq<Pixel>, disp: DisparityMap): (g: seq<Factor>)
    requires Shaped(disp) && AllInImage(pts)
  {
    seq(|pts|, j requires 0 <= j < |pts| =>
      Stereo(StereoPoint(pts[j].x as real, pts[j].x as real - DisparityOf(disp, pts[j]), pts[j].y as real),
             X(frame), L(base + j)))
  }

  /** The back-projected position of the landmark seen at p.  The initial
      set-up takes y from v; the extension takes it from uR, as isam.py:527
      does. */
  function LandmarkPosition(p: Pixel, disp: DisparityMap, calib: Calib, yFromRight: bool): Point3
    requires Shaped(disp) && calib.Valid() && Usable(disp, p)
  {
    var d := DisparityOf(disp, p);
    BackProject(calib, p.x as real, if yFromRight then p.x as real - d else p.y as real, d)
  }

  /** The landmark lies in front of the camera, and its y coordinate is the
      back-projection of v, or of uR when yFromRight. */
  lemma LandmarkPositionSpec(p: Pixel, disp: DisparityMap, calib: Calib, yFromRight: bool)
    requires Shaped(disp) && calib.Valid() && Usable(disp, p)
    ensures var q := LandmarkPosition(p, disp, calib, yFromRight);
      var row := if yFromRight then p.x as real - DisparityOf(disp, p) else p.y as real;
      && q.Point3? && q.z == Depth(calib, DisparityOf(disp, p)) && q.z > 0.0
      && q.x * calib.fx == (p.x as real - calib.cx) * q.z
      && q.y * calib.fy == (row - calib.cy) * q.z
  {
  }

  /** The initial estimates L(base), ..., L(base + |pts| - 1). */
  function LandmarkValues(base: nat, pts: seq<Pixel>, disp: DisparityMap, calib: Calib, yFromRight: bool)
    : (r: map<Key, Value>)
    requires Shaped(disp) && calib.Valid() && forall k :: 0 <= k < |pts| ==> Usable(disp, pts[k])
    ensures r.Keys == LandmarkRange(base, base + |pts|)
    ensures forall j :: 0 <= j < |pts| ==>
      r[L(base + j)] == PointValue(LandmarkPosition(pts[j], disp, calib, yFromRight))
    decreases |pts|
  {
    if pts == [] then map[]
    else
      var n := |pts| - 1;
      var r := LandmarkValues(base, pts[..n], disp, calib, yFromRight);
      assert LandmarkRange(base, base + |pts|) == LandmarkRange(base, base + n) + {L(base + n)};
      r[L(base + n) := PointValue(LandmarkPosition(pts[n], disp, calib, yFromRight))]
  }

  /** What the set-up before the loop produces: the factor graph, the
      initial estimate and the kept corners, which become `points`. */
  datatype Setup = Setup(factors: seq<Factor>, values: map<Key, Value>, corners: seq<Pixel>)

  /** The prior on X(0), one factor per kept corner and the estimate. */
  function SetupOf(corners: seq<Pixel>, disp: DisparityMap, calib: Calib): Setup
    requires Shaped(disp) && calib.Valid() && forall k :: 0 <= k < |corners| ==> Usable(disp, corners[k])
  {
    assert AllInImage(corners) by {
      forall k | 0 <= k < |corners| ensures PixelInImage(corners[k]) {
        assert Usable(disp, corners[k]);
      }
    }
    Setup([EqualityPose(X(0), IdentityPose)] + LandmarkFactors(0, 0, corners, disp),
          LandmarkValues(0, corners, disp, calib, false)[X(0) := PoseValue(IdentityPose)],
          corners)
  }

  /** The set-up from the detector's corners; None where the script raises:
      for fewer than two detections (see EnoughCorners), and when no corner
      survives the filter, since `onp.ptp` of the empty corner array at
      lines 208-209 raises. */
  function InitialSetup(detected: seq<Pixel>, disp: DisparityMap, calib: Calib): (s: Option<Setup>)
    requires Shaped(disp) && calib.Valid() && AllInImage(detected)
  {
    if !EnoughCorners(detected) then None
    else
      var corners := ValidCorners(detected, disp);
      if corners == [] then None else Some(SetupOf(corners, disp, calib))
  }

  /** The set-up fails exactly for fewer than two detections or when no
      detection has disparity above 10; otherwise it keeps exactly the
      detected corners whose disparity exceeds 10, each as often as it occurs
      and in order: idx lists the positions kept. */
  lemma InitialCornersSpec(detected: seq<Pixel>, disp: DisparityMap, calib: Calib) returns (idx: seq<nat>)
    requires Shaped(disp) && calib.Valid() && AllInImage(detected)
    ensures InitialSetup(detected, disp, calib).None? <==>
      |detected| < 2 || forall j :: 0 <= j < |detected| ==> !Usable(disp, detected[j])
    ensures InitialSetup(detected, disp, calib).Some? ==>
      && Subsequence(InitialSetup(detected, disp, calib).value.corners, detected)
      && Picks(InitialSetup(detected, disp, calib).value.corners, detected, idx)
      && forall j :: 0 <= j < |detected| ==> (j in idx <==> Usable(disp, detected[j]))
  {
    idx := ValidCornersSpec(detected, disp);
    ValidCornersOrdered(detected, disp);
    if idx != [] {
      assert idx[0] in idx && Usable(disp, detected[idx[0]]);
    }
  }

  /** The set-up's graph fixes the first pose at the identity and measures
      each landmark j once, from X(0), at corner j. */
  lemma InitialFactorsSpec(detected: seq<Pixel>, disp: DisparityMap, calib: Calib)
    requires Shaped(disp) && calib.Valid() && AllInImage(detected)
    ensures var s := InitialSetup(detected, disp, calib);
      s.Some? ==>
      && |s.value.factors| == |s.value.corners| + 1
      && s.value.factors[0] == EqualityPose(X(0), IdentityPose)
      && LandmarksBelow(s.value.factors, |s.value.corners|)
      && forall j :: 0 <= j < |s.value.corners| ==>
           var f := s.value.factors[j + 1];
           var c := s.value.corners[j];
           && f.Stereo? && f.pose == X(0) && f.landmark == L(j)
           && f.m.uL == c.x as real && f.m.v == c.y as real
  {
    if InitialSetup(detected, disp, calib).Some? {
      var s := SetupOf(ValidCorners(detected, disp), disp, calib);
      var fs := LandmarkFactors(0, 0, s.corners, disp);
      assert s.factors == [EqualityPose(X(0), IdentityPose)] + fs;
      forall j | 0 <= j < |s.corners|
        ensures s.factors[j + 1] == fs[j]
      {
      }
    }
  }

  /** The set-up's estimate holds the identity for X(0) and exactly the
      landmarks 0 .. n-1, each at its corner's back-projection in the camera
      frame, with y taken from v (see LandmarkPositionSpec). */
  lemma InitialValuesSpec(detected: seq<Pixel>, disp: DisparityMap, calib: Calib)
    requires Shaped(disp) && calib.Valid() && AllInImage(detected)
    ensures var s := InitialSetup(detected, disp, calib);
      s.Some? ==>
      && s.value.values.Keys == {X(0)} + LandmarkRange(0, |s.value.corners|)
      && s.value.values[X(0)] == PoseValue(IdentityPose)
      && forall j :: 0 <= j < |s.value.corners| ==>
           s.value.values[L(j)] == PointValue(LandmarkPosition(s.value.corners[j], disp, calib, false))
  {
    if InitialSetup(detected, disp, calib).Some? {
      var s := SetupOf(ValidCorners(detected, disp), disp, calib);
      var values := LandmarkValues(0, s.corners, disp, calib, false);
      assert s.values == values[X(0) := PoseValue(IdentityPose)];
      forall j | 0 <= j < |s.corners|
        ensures s.values[L(j)] == PointValue(LandmarkPosition(s.corners[j], disp, calib, false))
      {
        assert L(j) in LandmarkRange(0, |s.corners|);
      }
    }
  }

  // ---------------------------------------------------------------------
  // The new-point gate (lines 344-375)

  function SqDist(a: Pixel, b: Pixel): (r: int)
    ensures r >= 0
  {
    (a.x - b.x) * (a.x - b.x) + (a.y - b.y) * (a.y - b.y)
  }

  /** The integer positions are exact, so `norm(g - c) > 30` holds exactly
      when the squared distance exceeds 900. */
  predicate FarFrom(c: Pixel, g: Pixel)
  {
    SqDist(g, c) > NewFeatureThreshold * NewFeatureThreshold
  }

  predicate FarFromAll(c: Pixel, good: seq<Pixel>)
  {
    forall k :: 0 <= k < |good| ==> FarFrom(c, good[k])
  }

  /** c is farther than the threshold from every tracked feature. */
  predicate FarFromTracked(c: Pixel, points: seq<Pixel>, status: seq<Status>)
    requires |points| == |status|
  {
    forall j :: 0 <= j < |points| && status[j] == Tracked ==> FarFrom(c, points[j])
  }

  predicate NoneTracked(status: seq<Status>)
  {
    forall j :: 0 <= j < |status| ==> status[j] == Lost
  }

  /** `points[status == 1]`. */
  function GoodPoints(points: seq<Pixel>, status: seq<Status>): seq<Pixel>
    requires |points| == |status|
  {
    var inds := IndsToTrack(status);
    seq(|inds|, k requires 0 <= k < |inds| => points[inds[k]])
  }

  /** The good points are the positions of the tracked features: the k-th
      is the position of the k-th tracked feature, and every tracked
      feature's position is among them. */
  lemma GoodPointsSpec(points: seq<Pixel>, status: seq<Status>)
    requires |points| == |status|
    ensures |GoodPoints(points, status)| == |IndsToTrack(status)|
    ensures forall k :: 0 <= k < |GoodPoints(points, status)| ==>
      var j := IndsToTrack(status)[k];
      status[j] == Tracked && GoodPoints(points, status)[k] == points[j]
    ensures forall j :: 0 <= j < |points| && status[j] == Tracked ==> points[j] in GoodPoints(points, status)
  {
    var r := GoodPoints(points, status);
    IndsToTrackSpec(status);
    forall j | 0 <= j < |points| && status[j] == Tracked
      ensures points[j] in r
    {
      RankIndex(status, j);
      assert r[|IndsToTrack(status[..j])|] == points[j];
    }
  }

  /** So there are no good points exactly when no feature is tracked, and
      being far from all good points is being far from every tracked
      feature. */
  lemma GoodPointsFar(points: seq<Pixel>, status: seq<Status>)
    requires |points| == |status|
    ensures GoodPoints(points, status) == [] <==> NoneTracked(status)
    ensures forall c :: FarFromAll(c, GoodPoints(points, status)) <==> FarFromTracked(c, points, status)
  {
    GoodPointsSpec(points, status);
    var r := GoodPoints(points, status);
    if r != [] {
      assert status[IndsToTrack(status)[0]] == Tracked;
    }
  }

  /** `onp.min(dist)`: Closest is the index of a good point at that minimum
      distance from c. */
  function Closest(good: seq<Pixel>, c: Pixel): (k: nat)
    requires good != []
    ensures k < |good|
    ensures forall k' :: 0 <= k' < |good| ==> SqDist(good[k], c) <= SqDist(good[k'], c)
    decreases |good|
  {
    if |good| == 1 then 0
    else
      var n := |good| - 1;
      var k := Closest(good[..n], c);
      if SqDist(good[n], c) < SqDist(good[k], c) then n else k
  }

  /** Comparing the nearest distance with the threshold decides whether c
      is far from all good points. */
  lemma ClosestDecides(good: seq<Pixel>, c: Pixel)
    requires good != []
    ensures FarFrom(c, good[Closest(good, c)]) <==> FarFromAll(c, good)
  {
  }

  /** The corners the loop appends to `new_points`. */
  function FarCorners(valid: seq<Pixel>, good: seq<Pixel>): (r: seq<Pixel>)
    ensures forall k :: 0 <= k < |r| ==> FarFromAll(r[k], good)
    decreases |valid|
  {
    if valid == [] then []
    else
      var n := |valid| - 1;
      var r := FarCorners(valid[..n], good);
      if FarFromAll(valid[n], good) then r + [valid[n]] else r
  }

  /** The loop keeps the valid corners in their order. */
  lemma {:induction false} FarCornersOrdered(valid: seq<Pixel>, good: seq<Pixel>)
    ensures Subsequence(FarCorners(valid, good), valid)
    decreases |valid|
  {
    if valid != [] {
      var n := |valid| - 1;
      FarCornersOrdered(valid[..n], good);
      var r := FarCorners(valid[..n], good);
      if FarFromAll(valid[n], good) {
        assert (r + [valid[n]])[..|r|] == r;
      }
    }
  }

  /** The loop keeps exactly the valid corners far from every good point,
      each as often as it occurs and in order: idx lists the positions kept. */
  lemma {:induction false} FarCornersSpec(valid: seq<Pixel>, good: seq<Pixel>) returns (idx: seq<nat>)
    ensures Picks(FarCorners(valid, good), valid, idx)
    ensures forall j :: 0 <= j < |valid| ==> (j in idx <==> FarFromAll(valid[j], good))
    decreases |valid|
  {
    if valid == [] {
      idx := [];
    } else {
      var n := |valid| - 1;
      var front := valid[..n];
      var idx0 := FarCornersSpec(front, good);
      assert forall k :: 0 <= k < |idx0| ==> front[idx0[k]] == valid[idx0[k]];
      assert forall j :: 0 <= j < n ==> front[j] == valid[j];
      if FarFromAll(valid[n], good) {
        idx := idx0 + [n];
      } else {
        idx := idx0;
      }
    }
  }

  /** What `_find_new_points` returns.  None where the script raises: fewer
      than two detections (see EnoughCorners), or no good point left but
      some valid corner, where `onp.min` of an empty distance array raises.
      Otherwise the valid corners far from every good point. */
  function NewPoints(corners: seq<Pixel>, disp: DisparityMap, points: seq<Pixel>, status: seq<Status>)
    : Option<seq<Pixel>>
    requires Shaped(disp) && AllInImage(corners) && |points| == |status|
  {
    if !EnoughCorners(corners) then None
    else
      var valid := ValidCorners(corners, disp);
      var good := GoodPoints(points, status);
      if good == [] && valid != [] then None else Some(FarCorners(valid, good))
  }

  /** Composing two increasing position lists: picking idx2 out of the
      picks idx1 of `from` picks their composition out of `from`. */
  lemma PicksCompose(r: seq<Pixel>, mid: seq<Pixel>, from: seq<Pixel>, idx1: seq<nat>, idx2: seq<nat>)
    returns (idx: seq<nat>)
    requires Picks(mid, from, idx1) && Picks(r, mid, idx2)
    ensures Picks(r, from, idx)
    ensures |idx| == |idx2| && forall k :: 0 <= k < |idx2| ==> idx[k] == idx1[idx2[k]]
  {
    idx := seq(|idx2|, k requires 0 <= k < |idx2| => idx1[idx2[k]]);
  }

  /** The gate fails exactly for fewer than two detections, or when no
      feature is tracked but some corner is valid. */
  lemma NewPointsFails(corners: seq<Pixel>, disp: DisparityMap, points: seq<Pixel>, status: seq<Status>)
    requires Shaped(disp) && AllInImage(corners) && |points| == |status|
    ensures NewPoints(corners, disp, points, status).None? <==>
      |corners| < 2 || (NoneTracked(status) && ValidCorners(corners, disp) != [])
  {
    GoodPointsFar(points, status);
  }

  /** The gate keeps the detected corners in their order. */
  lemma NewPointsOrdered(corners: seq<Pixel>, disp: DisparityMap, points: seq<Pixel>, status: seq<Status>)
    requires Shaped(disp) && AllInImage(corners) && |points| == |status|
    ensures NewPoints(corners, disp, points, status).Some? ==>
      Subsequence(NewPoints(corners, disp, points, status).value, ValidCorners(corners, disp))
  {
    if EnoughCorners(corners) {
      FarCornersOrdered(ValidCorners(corners, disp), GoodPoints(points, status));
    }
  }

  /** Otherwise the gate returns exactly the detected corners with
      disparity above 10 that are farther than 30 pixels from every tracked
      feature, each as often as it occurs and in order: idx lists their
      positions in `corners`. */
  lemma NewPointsSpec(corners: seq<Pixel>, disp: DisparityMap, points: seq<Pixel>, status: seq<Status>)
    returns (idx: seq<nat>)
    requires Shaped(disp) && AllInImage(corners) && |points| == |status|
    ensures var r := NewPoints(corners, disp, points, status);
      r.Some? ==>
      && Picks(r.value, corners, idx)
      && forall j :: 0 <= j < |corners| ==>
           (j in idx <==> Usable(disp, corners[j]) && FarFromTracked(corners[j], points, status))
  {
    idx := [];
    var valid := ValidCorners(corners, disp);
    var good := GoodPoints(points, status);
    if EnoughCorners(corners) && !(good == [] && valid != []) {
      GoodPointsFar(points, status);
      var idx1 := ValidCornersSpec(corners, disp);
      var r := FarCorners(valid, good);
      var idx2 := FarCornersSpec(valid, good);
      idx := PicksCompose(r, valid, corners, idx1, idx2);
      forall j | 0 <= j < |corners|
        ensures j in idx <==> Usable(disp, corners[j]) && FarFromAll(corners[j], good)
      {
        if j in idx {
          var p :| 0 <= p < |idx| && idx[p] == j;
          assert idx1[idx2[p]] == j && valid[idx2[p]] == corners[j];
        }
        if Usable(disp, corners[j]) && FarFromAll(corners[j], good) {
          var q :| 0 <= q < |idx1| && idx1[q] == j;
          assert valid[q] == corners[j];
          assert q in idx2;
          var p :| 0 <= p < |idx2| && idx2[p] == q;
          assert idx[p] == j;
        }
      }
    }
  }

  /** The part of NewPointsSpec the extension needs. */
  lemma NewPointsUsable(corners: seq<Pixel>, disp: DisparityMap, points: seq<Pixel>, status: seq<Status>)
    requires Shaped(disp) && AllInImage(corners) && |points| == |status|
    ensures NewPoints(corners, disp, points, status).Some? ==>
      forall k :: 0 <= k < |NewPoints(corners, disp, points, status).value| ==>
        Usable(disp, NewPoints(corners, disp, points, status).value[k])
  {
    var idx := NewPointsSpec(corners, disp, points, status);
    var r := NewPoints(corners, disp, points, status);
    if r.Some? {
      forall k | 0 <= k < |r.value|
        ensures Usable(disp, r.value[k])
      {
        assert idx[k] in idx && r.value[k] == corners[idx[k]];
      }
    }
  }

  /** `new_points[:5]`. */
  function FirstNewPoints(found: seq<Pixel>): (r: seq<Pixel>)
    ensures |r| == if |found| <= MaxNewPoints then |found| else MaxNewPoints
    ensures r <= found
  {
    if |found| <= MaxNewPoints then found else found[..MaxNewPoints]
  }

  // ---------------------------------------------------------------------
  // The tracker state

  /** `points` and `status`, one entry per feature; feature j is landmark L(j). */
  class Tracker {
    var points: array<Pixel>
    var status: array<Status>

    ghost predicate Valid()
      reads this
    {
      points.Length == status.Length
    }

    /** `points = corners`, `status = onp.ones(num_features)`. */
    constructor (corners: seq<Pixel>)
      ensures Valid() && fresh(points) && fresh(status)
      ensures points[..] == corners
      ensures status.Length == |corners| && forall j :: 0 <= j < status.Length ==> status[j] == Tracked
    {
      points := new Pixel[|corners|](j requires 0 <= j < |corners| => corners[j]);
      status := new Status[|corners|](_ => Tracked);
    }

    /** Lines 434-455: hand the tracked features to the optical flow, whose
        answer is p1 (one position per tracked feature) and st (1 where the
        flow succeeded); mark the failures lost and move the successes. */
    method Track(p1: seq<Pt>, st: seq<bool>)
      requires Valid() && |p1| == |st| == |IndsToTrack(status[..])|
      modifies points, status
      ensures Valid()
      ensures status[..] == TrackStatus(old(status[..]), st)
      ensures points[..] == TrackPoints(old(points[..]), old(status[..]), Truncated(p1), st)
    {
      ghost var s0 := status[..];
      ghost var p0 := points[..];
      var inds := IndsToTrack(status[..]);
      var moved := Truncated(p1);
      MarkLost(inds, st);
      MovePoints(inds, moved, st);
      MarkedLostIsTrackStatus(s0, st);
      MovedToIsTrackPoints(p0, s0, moved, st);
    }

    /** `status[inds[st == 0]] = 0`. */
    method MarkLost(inds: seq<nat>, st: seq<bool>)
      requires |st| == |inds| && forall q :: 0 <= q < |inds| ==> inds[q] < status.Length
      modifies status
      ensures status[..] == MarkedLost(old(status[..]), inds, st, |inds|)
    {
      ghost var s0 := status[..];
      var k := 0;
      while k < |inds|
        invariant 0 <= k <= |inds|
        invariant status[..] == MarkedLost(s0, inds, st, k)
      {
        if !st[k] {
          status[inds[k]] := Lost;
        }
        k := k + 1;
      }
    }

    /** `points[inds[st == 1]] = moved[st == 1]`. */
    method MovePoints(inds: seq<nat>, moved: seq<Pixel>, st: seq<bool>)
      requires |moved| == |st| == |inds| && forall q :: 0 <= q < |inds| ==> inds[q] < points.Length
      modifies points
      ensures points[..] == MovedTo(old(points[..]), inds, moved, st, |inds|)
    {
      ghost var p0 := points[..];
      var k := 0;
      while k < |inds|
        invariant 0 <= k <= |inds|
        invariant points[..] == MovedTo(p0, inds, moved, st, k)
      {
        if st[k] {
          points[inds[k]] := moved[k];
        }
        k := k + 1;
      }
    }

    /** Lines 466-482: one clamped stereo factor per tracked feature. */
    method EmitFactors(i: nat, disp: DisparityMap) returns (graph: seq<Factor>)
      requires Valid() && Shaped(disp)
      ensures graph == Emission(i, points[..], status[..], disp)
    {
      graph := [];
      var j := 0;
      while j < points.Length
        invariant 0 <= j <= points.Length
        invariant graph == Emission(i, points[..j], status[..j], disp)
      {
        assert points[..j + 1][..j] == points[..j];
        assert status[..j + 1][..j] == status[..j];
        if status[j] == Lost {
          j := j + 1;
          continue;
        }
        var m := EmittedMeasurement(points[j], disp);
        graph := graph + [Stereo(m, X(i), L(j))];
        j := j + 1;
      }
      assert points[..j] == points[..];
      assert status[..j] == status[..];
    }

    /** Lines 415-489 up to the `continue` at line 493: predict the pose of
        frame i, track, and emit the frame's factors; ISAM2 then turns
        these into the next estimate.  Fails, changing nothing, where
        `result.atPose3(X(i-1))` raises, and where no feature is still
        tracked: `calcOpticalFlowPyrLK` rejects the empty `points_to_track`
        (line 437), which is how the script stops once every feature is lost. */
    method Frame(i: nat, result: map<Key, Value>, p1: seq<Pt>, st: seq<bool>, disp: DisparityMap)
      returns (ok: bool, graph: seq<Factor>, initial: map<Key, Value>)
      requires i >= 1 && Valid() && Shaped(disp) && |p1| == |st| == |IndsToTrack(status[..])|
      modifies points, status
      ensures Valid()
      ensures ok <==> GetPose(result, X(i - 1)).Some? && IndsToTrack(old(status[..])) != []
      ensures !ok ==> status[..] == old(status[..]) && points[..] == old(points[..])
      ensures ok ==>
        && initial == map[X(i) := PoseValue(PredictNextPose(GetPose(result, X(i - 1)).value))]
        && status[..] == TrackStatus(old(status[..]), st)
        && points[..] == TrackPoints(old(points[..]), old(status[..]), Truncated(p1), st)
        && graph == Emission(i, points[..], status[..], disp)
    {
      graph, initial := [], map[];
      var prev := GetPose(result, X(i - 1));
      if prev.None? {
        return false, graph, initial;
      }
      if IndsToTrack(status[..]) == [] {
        return false, graph, initial;
      }
      ok := true;
      initial := map[X(i) := PoseValue(PredictNextPose(prev.value))];
      Track(p1, st);
      graph := EmitFactors(i, disp);
    }

    /** `_find_new_points(left, points, status, disparity)` given the
        detector's corners. */
    method FindNewPoints(corners: seq<Pixel>, disp: DisparityMap) returns (r: Option<seq<Pixel>>)
      requires Valid() && Shaped(disp) && AllInImage(corners)
      ensures r == NewPoints(corners, disp, points[..], status[..])
    {
      if |corners| < 2 {
        return None;    // squeeze/astype leave no two-column array to index
      }
      var valid := ValidCorners(corners, disp);
      var good := GoodPoints(points[..], status[..]);
      if good == [] && valid != [] {
        return None;    // onp.min of the empty distance array raises
      }
      var newPoints: seq<Pixel> := [];
      for k := 0 to |valid|
        invariant newPoints == FarCorners(valid[..k], good)
      {
        assert valid[..k + 1][..k] == valid[..k];
        var c := valid[k];
        var nearest := Closest(good, c);
        ClosestDecides(good, c);
        if SqDist(good[nearest], c) > NewFeatureThreshold * NewFeatureThreshold {
          newPoints := newPoints + [c];
        }
      }
      assert valid[..|valid|] == valid;
      return Some(newPoints);
    }

    /** Lines 494-533, reached from no iteration because of the `continue`
        at line 493: on frames with `i % 10 == 0`, add up to five new
        corners as landmarks `len(points) + j`, observed from X(i), and
        append them to `points` with status 1.  Adds nothing, changing
        nothing, on other frames (lines 494-495) and where the script raises:
        no pose X(i) in the estimate, no new point found by the gate, or an
        empty `new_points`, which `onp.vstack` cannot stack under `points`. */
    method AddNewFeatures(i: nat, result: map<Key, Value>, corners: seq<Pixel>, disp: DisparityMap, calib: Calib)
      returns (ok: bool, graph: seq<Factor>, values: map<Key, Value>)
      requires Valid() && Shaped(disp) && calib.Valid() && AllInImage(corners)
      modifies this
      ensures Valid()
      ensures var found := NewPoints(corners, disp, old(points[..]), old(status[..]));
        ok <==> i % 10 == 0 && GetPose(result, X(i)).Some? && found.Some? && found.value != []
      ensures ok ==>
        var found := NewPoints(corners, disp, old(points[..]), old(status[..])).value;
        var added := FirstNewPoints(found);
        var base := old(points.Length);
        && (forall k :: 0 <= k < |added| ==> Usable(disp, added[k]))
        && fresh(points) && fresh(status)
        && points[..] == old(points[..]) + added
        && status[..] == old(status[..]) + seq(|added|, _ => Tracked)
        && graph == LandmarkFactors(i, base, added, disp)
        && values == LandmarkValues(base, added, disp, calib, true)
      ensures !ok ==> points == old(points) && status == old(status)
    {
      graph, values := [], map[];
      if i % 10 != 0 {
        return false, graph, values;
      }
      var pose := GetPose(result, X(i));    // cur_pose_smoothed, unused but it raises
      if pose.None? {
        return false, graph, values;
      }
      var found := FindNewPoints(corners, disp);
      if found.None? || found.value == [] {
        return false, graph, values;
      }
      NewPointsUsable(corners, disp, points[..], status[..]);
      var added := FirstNewPoints(found.value);
      var base := points.Length;
      graph := LandmarkFactors(i, base, added, disp);
      values := LandmarkValues(base, added, disp, calib, true);
      Extend(added);
      ok := true;
    }

    /** `points = onp.vstack((points, new_points))` and
        `status = onp.hstack((status, onp.ones(num_new_points)))`. */
    method Extend(added: seq<Pixel>)
      requires Valid()
      modifies this
      ensures Valid() && fresh(points) && fresh(status)
      ensures points[..] == old(points[..]) + added
      ensures status[..] == old(status[..]) + seq(|added|, _ => Tracked)
    {
      var ps := points[..] + added;
      var ss := status[..] + seq(|added|, _ => Tracked);
      points := new Pixel[|ps|](j requires 0 <= j < |ps| => ps[j]);
      status := new Status[|ss|](j requires 0 <= j < |ss| => ss[j]);
      assert points[..] == ps && status[..] == ss;
    }
  }

  /** The landmarks added by an extension are new: their indices start at
      the number of existing features and are pairwise different. */
  lemma ExtensionKeysFresh(i: nat, base: nat, added: seq<Pixel>, disp: DisparityMap)
    requires Shaped(disp) && AllInImage(added)
    ensures var g := LandmarkFactors(i, base, added, disp);
      && |g| == |added|
      && (forall k :: 0 <= k < |g| ==>
            (g[k].Stereo? && g[k].pose == X(i) && g[k].landmark.L? && base <= g[k].landmark.landmark < base + |added|))
      && (forall a, b :: 0 <= a < b < |g| ==> g[a].landmark != g[b].landmark)
  {
  }
}
