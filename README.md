# Stereo visual-odometry front ends, modelled in Dafny

This project models the two front ends of the `vo` repository. Both feed a
factor-graph optimizer from a sequence of rectified stereo pairs.

- **sift_fixed_lag.py** does independent detection and matching, then runs
  a fixed-lag smoother:
  - SIFT keypoints are detected in every frame, and duplicates at the same
    pixel are collapsed (`_detect_keypoints`).
  - Lowe's ratio test (0.7) keeps the unambiguous nearest-neighbour matches.
  - Two `onp.unique` passes leave at most one correspondence per new point
    and per old point.
  - Each surviving correspondence with disparity of at least 10 either
    extends the landmark its old point carried in the previous frame, or,
    on frames with `i % 10 == 1`, mints the next sequential landmark. Its
    position is triangulated from disparity and moved into the world by the
    predicted pose.
  - The pending factors, values and timestamps go to the smoother, and are
    then cleared.
  - The smoother's estimate is merged into a result that only ever gains or
    overwrites entries (`_merge`).
- **isam.py** does propagated tracking under ISAM2:
  - Corners with disparity above 10 become the first landmarks, observed
    from the first pose, which a `NonlinearEqualityPose3` pins at the
    identity.
  - Optical flow carries the tracked features from frame to frame. A
    feature the flow loses is marked lost and is never tracked again.
  - Every tracked feature yields one clamped stereo factor per frame.
  - A gate (`_find_new_points`) selects new corners farther than 30 pixels
    from every tracked feature. Up to five of them may extend the feature
    set.

Both scripts predict each pose with the same constant-velocity model: same
rotation, moved 2 units forward along the pose's own z axis.

Modules:

- `Graph` (graph.dfy): the shared vocabulary. It has keys `X(i)`/`L(j)`,
  factors, values, the calibration, depth and back-projection, the disparity
  map, the image bounds, pose prediction and `atPose3`.
- `NumpyUnique` (numpy_unique.dfy): `onp.unique(rows, axis=0,
  return_index=True)`. It returns first-occurrence indices, ordered by row.
- `SiftMatching` (sift_matching.dfy): the ratio test, the correspondences,
  the two unique passes and keypoint de-duplication.
- `Association` (association.dfy): one step of the association loop and the
  fold over all correspondences.
- `Accumulator` (accumulator.dfy): `_merge`.
- `FixedLag` (fixed_lag.dfy): the script's global state, held by the class
  `FrontEnd`, and one iteration of its main loop.
- `Isam` (isam.dfy): the feature arrays, held by the class `Tracker`. This
  module also covers tracking, emission, the initial set-up, the new-point
  gate and the extension.

Foreign calls are parameters of the model. These are the detector, FLANN,
the disparity computation, optical flow, the smoother and ISAM2. Pose
composition (`transformFrom`) is an uninterpreted term, so the model never
computes a rotation.

## Model

| member | source | states |
|---|---|---|
| NumpyUnique.Unique | sift_fixed_lag.py:485-488 | the indices returned are first occurrences, strictly increasing in row order, and every first occurrence is among them |
| NumpyUnique.UniqueCovers | sift_fixed_lag.py:485-496 | every input row is still represented after unique; only repeats are dropped |
| NumpyUnique.UniqueDistinct | sift_fixed_lag.py:485-496 | the rows unique picks are pairwise different, and so are their indices |
| SiftMatching.KnnPairs | sift_fixed_lag.py:474-477 | unpacking `for m, n in matches` succeeds exactly when every entry of the matcher's answer has two neighbours, and then yields entry k's two neighbours as pair k |
| SiftMatching.RatioTest | sift_fixed_lag.py:476-479 | the ratio-test loop fails exactly where the unpacking raises, and otherwise builds exactly GoodMatches of the unpacked pairs |
| SiftMatching.GoodMatchesExact | sift_fixed_lag.py:476-479 | the kept matches are the nearest matches of exactly the pairs with `m.distance < 0.7 * n.distance`, in input order |
| SiftMatching.GoodMatchesBounded | sift_fixed_lag.py:474-481 | kept matches index the keypoint lists the matcher was given |
| SiftMatching.Correspondences | sift_fixed_lag.py:480-481 | correspondence k joins `kp1[queryIdx]` to `kp2[trainIdx]` of good match k |
| SiftMatching.UniqueByDstSpec | sift_fixed_lag.py:485-488 | after the destination pass no two correspondences share a new point, the survivors are input correspondences, and every new point keeps one |
| SiftMatching.UniqueBySrcSpec | sift_fixed_lag.py:493-496 | after the source pass no two share an old point, the survivors are input correspondences, every old point keeps one, and distinct new points stay distinct |
| SiftMatching.DedupSpec | sift_fixed_lag.py:485-496 | after both passes new points and old points are each pairwise distinct, and only input correspondences survive |
| SiftMatching.MatchedCorrespondencesSpec | sift_fixed_lag.py:474-496 | each correspondence reaching association joins the two keypoints of a match that passed the ratio test, and no new or old point is shared |
| SiftMatching.MatchedInImage | sift_fixed_lag.py:533-537 | when the current keypoints lie in the image, so do the new points used to index the disparity map |
| SiftMatching.DetectKeypointsSpec | sift_fixed_lag.py:424-431 | detection fails exactly when there are no keypoints, where `des` is None and `des[inds]` raises; otherwise the keypoints kept have pairwise distinct positions, are detected keypoints, and every detected position survives |
| Accumulator.Merged | sift_fixed_lag.py:404-421 | the merge holds every key of both maps; keys of `b` take b's value, and other keys keep a's value |
| Accumulator.Merge | sift_fixed_lag.py:404-421 | the update-or-insert loop over b's keys computes Merged |
| Accumulator.MergeIdempotent | sift_fixed_lag.py:609 | merging the same estimate twice changes nothing |
| Accumulator.MergeSequence | sift_fixed_lag.py:605-609 | over two frames no key is forgotten, the later estimate wins, and untouched keys keep their value |
| Graph.PredictNextPose | sift_fixed_lag.py:364-373 | the predicted pose keeps the rotation and translates by `(0, 0, velocity)` in the pose's own frame |
| Graph.Depth | sift_fixed_lag.py:577 | the depth is positive and `z * d == fx * baseline` |
| Graph.BackProject | sift_fixed_lag.py:577-584 | the point has that depth, `x * fx == (uL - cx) * z` and `y * fy == (row - cy) * z`, for whatever row coordinate the caller passes |
| Graph.GetPose | sift_fixed_lag.py:400-401 | `atPose3` succeeds exactly when the key holds a pose, and then returns it |
| Association.Measurement | sift_fixed_lag.py:535-543 | the measurement is `(uL, uL - d, v)` at the new point |
| Association.Step | sift_fixed_lag.py:531-586 | one iteration, case by case: a low disparity changes nothing; a hit reuses the old landmark with one factor and no value; a miss off the cadence is dropped; a miss on the cadence takes the counter as the new id, bumps it, adds one factor and one value, and flags an existing entry |
| Association.StepSpec | sift_fixed_lag.py:531-586 | one iteration keeps every id below the counter and only grows the state |
| Association.AssociatePrefixSpec | sift_fixed_lag.py:531-586 | the first n iterations keep every id below the counter and only grow the state |
| Association.AssociateAllSpec | sift_fixed_lag.py:523-594 | ids stay below the counter; the values gained are exactly L(old counter) .. L(new counter - 1); no pending value is overwritten; new factors are appended on X(i); off the cadence nothing is minted |
| Association.TableKeysFromDsts | sift_fixed_lag.py:550-568 | every point in the current table comes from a processed correspondence |
| Association.NoConflict | sift_fixed_lag.py:562-564 | with distinct new points, the "new point already associated" branch is never reached |
| Association.HitSurvives | sift_fixed_lag.py:547-550 | a hit with enough disparity leaves its new point mapped to the old point's landmark at the end of the frame |
| FixedLag.FrontEnd.constructor | sift_fixed_lag.py:289-309 | the set-up holds one prior on X(0), its identity value and timestamp 0, no landmarks, and an empty table for frame 0; the first smoother update at line 346 is a separate UpdateSmoother call |
| FixedLag.FrontEnd.UpdateSmoother | sift_fixed_lag.py:327-342 | the smoother receives the pending increment, its estimate becomes `result`, and the three buffers are emptied |
| FixedLag.FrontEnd.Accumulate | sift_fixed_lag.py:609 | `final_result` becomes the merge of itself with `result` and loses no key |
| FixedLag.FrontEnd.BeginFrame | sift_fixed_lag.py:452-460 | the predicted pose of X(i) is inserted exactly when X(i-1) has a pose and X(i) is not yet pending; the timestamp t is then inserted unless X(i) already has one; otherwise nothing changes |
| FixedLag.FrontEnd.AssociateOne | sift_fixed_lag.py:532-586 | one pass of the loop body, with its `continue`, leaves the table, buffers, counter and conflict flag exactly as one Step of the model does |
| FixedLag.FrontEnd.AssociateLoop | sift_fixed_lag.py:531-586 | the loop over the correspondences, one iteration per Step, ends in exactly the state of the association fold |
| FixedLag.PairsBounded | sift_fixed_lag.py:474-477 | the unpacked pairs carry the matcher's keypoint indices, so they stay inside both keypoint lists |
| FixedLag.FrontEnd.MatchFrame | sift_fixed_lag.py:474-594 | matching and association succeed exactly when every matcher entry has two neighbours and frame i-1 has a table; then the buffers, counter and frame-i table are the association fold over the de-duplicated ratio-test correspondences; otherwise nothing changes; `kp1`, `result` and `final_result` are never touched |
| FixedLag.FrontEnd.AssociateFrame | sift_fixed_lag.py:523-594 | the buffers, counter and frame table become those of the association fold, or stay unchanged when frame i-1 has no table; pending values are kept; off the cadence nothing is minted; distinct new points never conflict |
| FixedLag.FrontEnd.EndFrame | sift_fixed_lag.py:599-609 | `kp1` becomes the current keypoints, the smoother receives the pending increment and its estimate becomes `result`; `_get_pose(result, X(i))` at line 606 succeeds exactly when the estimate holds a pose for X(i), and only then is the estimate merged into `final_result`, which the raise otherwise leaves as it was |
| FixedLag.FrontEnd.ProcessFrame | sift_fixed_lag.py:447-609 | one frame succeeds exactly when X(i-1) has a pose and X(i) is not yet pending (lines 455-459), every matcher entry has two neighbours (line 477), frame i-1 has a table (line 523) and the smoother's estimate holds X(i) (line 606). Once the association has run, the increment sent is the association fold over the de-duplicated ratio-test correspondences, started from the pending state with the predicted X(i) added; its timestamps are the pending ones with t for X(i) unless already present; the counter and the frame-i table are the fold's; the buffers are emptied, `kp1` advances and `result` is the estimate, which is merged into `final_result` only on success. A frame that stops earlier sends nothing and keeps factors, counter, tables, estimates and keypoints; when it stops after the predicted pose was inserted, that pose and its timestamp stay pending |
| Isam.IndsToTrackSpec | isam.py:434 | `argwhere(status == 1)` lists exactly the tracked features, in increasing order |
| Isam.RankIndex | isam.py:434-436 | tracked feature j is handed to the flow at the position equal to the number of tracked features before it |
| Isam.Trunc | isam.py:445 | `onp.int32` truncates toward zero: within one of the input, on its side of zero |
| Isam.Truncated | isam.py:445 | each tracker answer is truncated coordinate by coordinate |
| Isam.TrackStatus | isam.py:446-453 | a lost feature stays lost, and the k-th tracked feature stays tracked exactly when `st[k]` is 1 |
| Isam.TrackPoints | isam.py:446-455 | lost features keep their positions, and the k-th tracked feature moves to `p1[k]` exactly when `st[k]` is 1 |
| Isam.MarkedLostSpec | isam.py:453 | after k writes of `status[untracked_inds] = 0`, the first k tracked features answer st and the rest are still tracked |
| Isam.MarkedLostKeepsLost | isam.py:453 | the writes never change a lost feature |
| Isam.MovedToSpec | isam.py:454-455 | after k writes of `points[tracked_inds] = p1[st == 1]`, the first k tracked features sit at the answer where st is 1, and the rest have not moved |
| Isam.MovedToKeepsLost | isam.py:454-455 | the writes never move a lost feature |
| Isam.TrackStatusUnique | isam.py:446-453 | the tracking properties of the status determine it uniquely |
| Isam.TrackPointsUnique | isam.py:446-455 | the tracking properties of the points determine them uniquely |
| Isam.MarkedLostIsTrackStatus | isam.py:446-453 | the fancy-index write of the status equals the feature-by-feature walk |
| Isam.MovedToIsTrackPoints | isam.py:446-455 | the fancy-index write of the points equals the feature-by-feature walk |
| Isam.LostIsPermanent | isam.py:311-313 | a lost feature is never handed to the flow again, and tracking never revives one |
| Isam.ClipInt | isam.py:473-474 | `onp.clip`: below the range gives lo, above it gives hi, inside it gives the input |
| Isam.Clip | isam.py:478-479 | the same clamp for the real-valued right coordinate |
| Isam.EmittedMeasurement | isam.py:471-479 | for any feature, also one carried outside the image: uL and v are its coordinates clamped to the image, d is read at the clamped pixel, and uR is `uL - d` clamped; an in-image feature keeps its position |
| Isam.Emission | isam.py:466-482 | there is exactly one factor per tracked feature, in order; the k-th ties X(i) to the landmark of the k-th tracked feature |
| Isam.EmissionSpec | isam.py:466-482 | landmark j is measured in frame i exactly when feature j is tracked; all factors are on X(i) and inside the image |
| Isam.ValidCorners | isam.py:128-133 | `corners[disparity > 10]`: every corner kept lies in the image with disparity above 10 |
| Isam.ValidCornersOrdered | isam.py:131-133 | the filter keeps the corners in their order |
| Isam.ValidCornersSpec | isam.py:359-363 | the filter keeps exactly the corners with disparity above 10, each as often as it occurs and in order: an increasing list of positions picks them, and position j is on it exactly when corner j is usable |
| Isam.LandmarkPositionSpec | isam.py:162-175 | the landmark has depth `fx * baseline / d > 0` and back-projects x from uL and y from v (set-up) or from uR (extension) |
| Isam.LandmarkValues | isam.py:294-303 | the estimate holds exactly L(base) .. L(base + n - 1), each at its pixel's back-projection |
| Isam.InitialCornersSpec | isam.py:120-209 | the set-up fails exactly for fewer than two detections or when no detected corner has disparity above 10, where `onp.ptp` of the empty corner array raises; otherwise it keeps exactly the detected corners with disparity above 10, each as often as it occurs and in order |
| Isam.InitialFactorsSpec | isam.py:275-302 | when the set-up succeeds, the first factor pins X(0) at the identity; then comes one stereo factor per kept corner j, from X(0) to L(j), at that corner's pixel |
| Isam.InitialValuesSpec | isam.py:287-303 | when the set-up succeeds, the initial estimate holds the identity for X(0) and exactly L(0) .. L(n-1), each at its corner's camera-frame back-projection |
| Isam.GoodPointsSpec | isam.py:365 | `points[status == 1]` has one entry per tracked feature: the k-th is the position of the k-th tracked feature, and every tracked position is among them |
| Isam.GoodPointsFar | isam.py:365-373 | the good points are empty exactly when no feature is tracked, and a corner is far from every good point exactly when it is far from every tracked feature |
| Isam.Closest | isam.py:371-372 | `onp.min(dist)`: the index of a good point at that minimum, no farther than any other |
| Isam.ClosestDecides | isam.py:371-373 | comparing the minimum distance with 30 decides whether the corner is far from every good point |
| Isam.FarCorners | isam.py:369-375 | every corner appended is far from all good points |
| Isam.FarCornersOrdered | isam.py:369-375 | the loop keeps the valid corners in their order |
| Isam.FarCornersSpec | isam.py:369-375 | the loop keeps exactly the valid corners far from all good points, each as often as it occurs and in order, by an increasing list of positions |
| Isam.NewPointsFails | isam.py:355-372 | the gate fails exactly for fewer than two detections, or when no feature is tracked but some corner is valid and `onp.min` meets an empty array |
| Isam.NewPointsOrdered | isam.py:355-375 | when the gate succeeds its points are the valid corners in their order |
| Isam.PicksCompose | isam.py:359-375 | picking positions out of picked positions composes into one increasing pick of the detections |
| Isam.NewPointsSpec | isam.py:355-375 | when the gate succeeds it returns exactly the detected corners in the image with disparity above 10 and more than 30 px from every tracked feature, each as often as it occurs and in order, by an increasing list of positions in the detections |
| Isam.NewPointsUsable | isam.py:359-375 | every point the gate returns lies in the image with disparity above 10 |
| Isam.FirstNewPoints | isam.py:507 | `new_points[:5]` is a prefix of at most five points |
| Isam.ExtensionKeysFresh | isam.py:509-520 | the extension's factors are on X(i) and name pairwise distinct landmarks `len(points)` .. `len(points) + n - 1`, none of them existing |
| Isam.Tracker.constructor | isam.py:307-309 | `points` holds the kept corners and each status is 1 |
| Isam.Tracker.Track | isam.py:434-455 | the arrays become TrackStatus and TrackPoints of their old contents and the truncated flow answer |
| Isam.Tracker.MarkLost | isam.py:453 | the status array becomes MarkedLost of its old contents |
| Isam.Tracker.MovePoints | isam.py:455 | the points array becomes MovedTo of its old contents |
| Isam.Tracker.EmitFactors | isam.py:466-482 | the factor loop with its `continue` builds exactly Emission of the arrays |
| Isam.Tracker.Frame | isam.py:415-489 | it fails, changing nothing, exactly when X(i-1) has no pose or no feature is still tracked, where the flow call meets an empty point set; otherwise the initial estimate is the predicted X(i), the arrays are tracked, and the graph is the frame's emission |
| Isam.Tracker.FindNewPoints | isam.py:355-375 | fails exactly as NewPoints does, before its loop; otherwise the loop over valid corners computes NewPoints of the arrays |
| Isam.Tracker.AddNewFeatures | isam.py:494-533 | it adds nothing on frames with `i % 10 != 0`; on the others it succeeds exactly when X(i) has a pose and the gate returns a non-empty list; the first five new points then become landmarks `len(points) + j` with factors on X(i) and back-projected values, and are appended as tracked |
| Isam.Tracker.Extend | isam.py:532-533 | the arrays become the old contents followed by the new points, all with status 1 |

## Left out

- Image loading, plotting, printing, the timing file and the interactive
  `embed()` stops are left out: these are I/O.
- SIFT detection and description, FLANN matching, corner detection,
  semi-global block matching, optical flow and the optimizers are foreign
  calls. Their outputs are parameters of the model.
- Calibration parsing (`calib._load_calib`) is left out. The calibration is
  a parameter, required to have positive focal lengths and baseline.
- A failure of the fixed-lag smoother looks fatal, but the code
  (sift_fixed_lag.py:331-336) prints, drops into `embed()` and then goes on
  exactly as after a success. So the estimate is a parameter of
  FixedLag.FrontEnd.UpdateSmoother, and the smoother itself has no failure
  path. What can fail is the lookup of X(i) in that estimate at
  sift_fixed_lag.py:606: there the loop stops after `result` was replaced
  and before `_merge`, and FixedLag.FrontEnd.EndFrame returns `ok == false`
  in that state.
- `transformFrom` and the Pose3 algebra are uninterpreted terms. Reprojection
  accuracy and the optimizer's numerics are not modelled.
- Every float is modelled as an exact real, and every int as an unbounded
  integer. Rounding, and `onp.int32` overflow for coordinates beyond 2^31,
  are not modelled.
- The new-feature gate compares `onp.linalg.norm(...) > 30`. Isam.FarFrom
  compares the squared integer distance with 900 instead. This is the same
  test on exact arithmetic, but it ignores the rounding of the
  floating-point square root.
- The disparity map is indexed directly, with no bounds check. A
  coordinate past the far edge raises; a negative one wraps around to the
  other side of the image, and `int()` sends a coordinate in (-1, 0) to 0.
  Off-image lookups are not modelled: the model requires the points it
  looks up to lie in the image. Those are the SIFT keypoints in the
  fixed-lag script and the detected corners in isam.py, which the detectors
  return inside the image. Only the factor emission of isam.py, whose
  features the flow may carry outside, clamps before its lookup, and that is
  modelled for every position.
- The disparity threshold differs between the scripts. The fixed-lag
  script keeps `d >= 10`, because it skips only `d < 10`
  (sift_fixed_lag.py:540). isam.py keeps `d > 10` (isam.py:131, 361). Each
  module follows its script.
- Stereo back-projection would take y from v. The code uses uR instead in
  the fixed-lag minting (sift_fixed_lag.py:581) and in the isam.py
  extension (isam.py:527); the isam.py set-up uses v (isam.py:174). Each
  caller of Graph.BackProject passes what its code passes.
- Too few detections make both scripts raise, and the model returns `None`
  there. SiftMatching.DetectKeypoints fails on a frame with no keypoints,
  where `des` is None. Isam.InitialSetup and Isam.NewPoints fail on fewer
  than two corners: `goodFeaturesToTrack` returns None for none, and one
  corner squeezes to a one-dimensional array that `corners[:, 1]` cannot
  index. Isam.ValidCorners itself is the plain filter that runs after
  these checks.
- Isam.InitialSetup also fails when no corner has disparity above 10.
  The plot of the initial landmarks takes `onp.ptp(corners[:, 0])` of the
  empty array (isam.py:208-209), which raises.
- FLANN may answer fewer than two neighbours for a descriptor, and then
  `for m, n in matches` (sift_fixed_lag.py:477) raises. The matcher's
  answer is therefore a sequence of variable-length entries, and
  SiftMatching.RatioTest, FixedLag.FrontEnd.MatchFrame and
  FixedLag.FrontEnd.ProcessFrame fail on it.
- FixedLag.FrontEnd.constructor models the set-up of lines 289-309 only.
  The script's first `result = _update_smoother(...)` (sift_fixed_lag.py:346)
  is a separate FixedLag.FrontEnd.UpdateSmoother call, which a caller makes
  once before frame 1.
- FixedLag.FrontEnd.ProcessFrame takes the current frame's keypoint
  positions as already detected. A frame without keypoints fails in
  SiftMatching.DetectKeypoints at sift_fixed_lag.py:468, after
  FixedLag.FrontEnd.BeginFrame's insertions (lines 455-460), so the
  predicted pose and timestamp stay pending. ProcessFrame does not model
  that failure.
- `_find_new_points` in sift_fixed_lag.py (lines 376-386) has no body and is
  never called, so it is not modelled.
- The extension of isam.py (lines 494-537) follows the unconditional
  `continue` at line 493 and is unreachable. Isam.Tracker.AddNewFeatures
  models it as it would run without that `continue`: it adds nothing when
  `i % 10 != 0` (lines 494-495).
  - Its `isam.update` call is left out, like the other optimizer calls.
  - `_get_pose(result, i)` raises when X(i) is missing, so that is a
    failure of the method.
  - `onp.vstack` of the points with an empty `new_points` raises, so that
    is a failure too.
- isam.py raises inside `_find_new_points` when no feature is tracked but
  some corner is valid, because `onp.min` of an empty array raises.
  Isam.Tracker.FindNewPoints reports this as `None` before its loop, instead
  of raising inside the loop's first iteration. The outcome is the same.
- The script-level assertion `onp.testing.assert_allclose(corners,
  projected_features)` (isam.py:240) is a numeric check of the
  back-projection and is not modelled.
- Isam.Tracker.Track requires exactly one optical-flow answer per tracked
  feature. This is what `calcOpticalFlowPyrLK` returns for a non-empty
  point set. For an empty one (every feature lost) the call fails
  (isam.py:437); Isam.Tracker.Frame returns `ok == false` there, before
  calling Track, and Track itself does not model that failure.
- FixedLag.FrontEnd.ProcessFrame leaves out the final plotting loop over
  `final_result` (sift_fixed_lag.py:611-634).
