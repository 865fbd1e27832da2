/** The state sift_fixed_lag.py keeps across frames and the steps of its
    main loop: pose insertion, association, the hand-off to the fixed-lag
    smoother and the merge into the final result.  The smoother is an
    external oracle: the estimate it returns is a parameter. */
module FixedLag {
  import opened Graph
  import opened SiftMatching
  import opened Association
  import opened Accumulator

  /** What `_update_smoother` hands to `smoother.update`. */
  datatype Increment = Increment(factors: seq<Factor>, values: map<Key, Value>, timestamps: map<Key, real>)

  /** `new_timestamps.insert(_timestamp(k, t))`: the key-timestamp map keeps
      an entry that is already there. */
  function Stamped(ts: map<Key, real>, k: Key, t: real): map<Key, real>
  {
    if k in ts then ts else ts[k := t]
  }

  /** The pose of frame i can be predicted and inserted: the estimate has
      X(i-1) (`_get_pose` raises otherwise) and X(i) is not pending yet
      (`new_values.insert` raises otherwise). */
  predicate Begins(result: map<Key, Value>, newValues: map<Key, Value>, i: nat)
  {
    i >= 1 && GetPose(result, X(i - 1)).Some? && X(i) !in newValues
  }

  /** The matcher's answers index the keypoint lists, so do their unpacked
      nearest matches. */
  lemma PairsBounded(matches: seq<seq<DMatch>>, pairs: seq<KnnPair>, n1: nat, n2: nat)
    requires forall k, j :: 0 <= k < |matches| && 0 <= j < |matches[k]| ==>
      matches[k][j].queryIdx < n1 && matches[k][j].trainIdx < n2
    requires KnnPairs(matches) == Some(pairs)
    ensures forall k :: 0 <= k < |pairs| ==> pairs[k].m.queryIdx < n1 && pairs[k].m.trainIdx < n2
  {
    forall k | 0 <= k < |pairs|
      ensures pairs[k].m.queryIdx < n1 && pairs[k].m.trainIdx < n2
    {
      assert pairs[k].m == matches[k][0];
    }
  }

  class FrontEnd {
    /** The pending increment: `new_factors`, `new_values`, `new_timestamps`. */
    var newFactors: seq<Factor>
    var newValues: map<Key, Value>
    var newTimestamps: map<Key, real>
    /** The smoother's latest estimate, `result`. */
    var result: map<Key, Value>
    /** `final_result`, accumulated over all frames. */
    var finalResult: map<Key, Value>
    /** `num_landmarks`: the next landmark id to mint. */
    var numLandmarks: nat
    /** `frame_point2landmarks`: frame index -> new point -> landmark id. */
    var framePoint2Landmarks: map<nat, map<Pt, nat>>
    /** `kp1`: the previous frame's keypoint positions. */
    var kp1: seq<Pt>

    /** Every landmark id recorded anywhere is below the counter. */
    ghost predicate Valid()
      reads this
    {
      && LandmarksBelow(newFactors, numLandmarks)
      && LandmarkKeysBelow(newValues, numLandmarks)
      && forall f, p :: f in framePoint2Landmarks && p in framePoint2Landmarks[f] ==>
           framePoint2Landmarks[f][p] < numLandmarks
    }

    /** The set-up before the loop: the prior on the first pose, its value and
        timestamp, no landmarks, and an empty table for frame 0. */
    constructor (kp: seq<Pt>)
      ensures Valid()
      ensures newFactors == [PriorPose(X(0), IdentityPose)]
      ensures newValues == map[X(0) := PoseValue(IdentityPose)]
      ensures newTimestamps == map[X(0) := 0.0]
      ensures result == map[] && finalResult == map[]
      ensures numLandmarks == 0 && framePoint2Landmarks == map[0 := map[]] && kp1 == kp
    {
      newFactors := [PriorPose(X(0), IdentityPose)];
      newValues := map[X(0) := PoseValue(IdentityPose)];
      newTimestamps := map[X(0) := 0.0];
      result := map[];
      finalResult := map[];
      numLandmarks := 0;
      framePoint2Landmarks := map[0 := map[]];
      kp1 := kp;
    }

    /** `_update_smoother`: the pending increment goes to the smoother, whose
        estimate becomes `result`, and the three buffers are emptied.  A
        failing update only stops the script interactively, after which it
        continues the same way, so failure is not a separate path here. */
    method UpdateSmoother(estimate: map<Key, Value>) returns (sent: Increment)
      requires Valid()
      modifies this`newFactors, this`newValues, this`newTimestamps, this`result
      ensures Valid()
      ensures sent == Increment(old(newFactors), old(newValues), old(newTimestamps))
      ensures newFactors == [] && newValues == map[] && newTimestamps == map[]
      ensures result == estimate
    {
      sent := Increment(newFactors, newValues, newTimestamps);
      result := estimate;
      newTimestamps := map[];
      newValues := map[];
      newFactors := [];
    }

    /** `_merge(final_result, result)`. */
    method Accumulate()
      modifies this`finalResult
      ensures finalResult == Merged(old(finalResult), result)
      ensures old(finalResult).Keys <= finalResult.Keys
    {
      finalResult := Merge(finalResult, result);
    }

    /** Lines 452-460: predict frame i's pose from the estimate of frame i-1
        and add it with its timestamp.  Fails, changing nothing, where the
        script raises: no pose X(i-1) in the estimate, or X(i) already pending. */
    method BeginFrame(i: nat, t: real) returns (pose: Option<Pose>)
      requires i >= 1 && Valid()
      modifies this`newValues, this`newTimestamps
      ensures Valid()
      ensures pose.Some? <==> GetPose(result, X(i - 1)).Some? && X(i) !in old(newValues)
      ensures pose.Some? ==>
        && pose.value == PredictNextPose(GetPose(result, X(i - 1)).value)
        && newValues == old(newValues)[X(i) := PoseValue(pose.value)]
        && newTimestamps == Stamped(old(newTimestamps), X(i), t)
      ensures pose.None? ==> newValues == old(newValues) && newTimestamps == old(newTimestamps)
    {
      var previous := GetPose(result, X(i - 1));
      if previous.None? || X(i) in newValues {
        return None;
      }
      var estimate := PredictNextPose(previous.value);
      newValues := newValues[X(i) := PoseValue(estimate)];
      if X(i) !in newTimestamps {
        newTimestamps := newTimestamps[X(i) := t];
      }
      pose := Some(estimate);
    }

    /** Lines 532-586: one iteration of the association loop, for the
        correspondence c, with the frame's table so far in `current`; the
        early return is the loop's `continue`. */
    method AssociateOne(c: Corr, prev: map<Pt, nat>, i: nat, pose: Pose, disp: DisparityMap, calib: Calib,
                        current: map<Pt, nat>, conflict: bool)
      returns (current': map<Pt, nat>, conflict': bool)
      requires Shaped(disp) && InImage(c.dst) && calib.Valid()
      modifies this`newFactors, this`newValues, this`numLandmarks
      ensures Assoc(current', newFactors, newValues, numLandmarks, conflict')
           == Step(Assoc(current, old(newFactors), old(newValues), old(numLandmarks), conflict),
                   prev, i, pose, c, disp, calib)
    {
      ghost var before := Assoc(current, newFactors, newValues, numLandmarks, conflict);
      current', conflict' := current, conflict;
      var d := DisparityAt(disp, c.dst.y.Floor, c.dst.x.Floor);
      if d < MinDisparity {
        StepSkip(before, prev, i, pose, c, disp, calib);
        return;
      }
      var m := StereoPoint(c.dst.x, c.dst.x - d, c.dst.y);
      if c.src in prev {
        var id := prev[c.src];
        StepHit(before, prev, i, pose, c, disp, calib);
        current' := current[c.dst := id];
        newFactors := newFactors + [Stereo(m, X(i), L(id))];
      } else if i % 10 == 1 {
        if c.dst in current {
          conflict' := true;
        }
        var id := numLandmarks;
        StepMint(before, prev, i, pose, c, disp, calib);
        numLandmarks := numLandmarks + 1;
        current' := current[c.dst := id];
        newFactors := newFactors + [Stereo(m, X(i), L(id))];
        var view := BackProject(calib, m.uL, m.uR, d);
        newValues := newValues[L(id) := PointValue(TransformFrom(pose, view))];
      } else {
        StepSkip(before, prev, i, pose, c, disp, calib);
      }
    }

    /** Lines 531-586: the loop over the frame's correspondences, one Step
        each, against the previous frame's table `prev`. */
    method AssociateLoop(prev: map<Pt, nat>, i: nat, pose: Pose, cs: seq<Corr>, disp: DisparityMap, calib: Calib)
      returns (current: map<Pt, nat>, conflict: bool)
      requires Shaped(disp) && AllInImage(cs) && calib.Valid()
      modifies this`newFactors, this`newValues, this`numLandmarks
      ensures Assoc(current, newFactors, newValues, numLandmarks, conflict)
           == AssociateAll(Assoc(map[], old(newFactors), old(newValues), old(numLandmarks), false),
                           prev, i, pose, cs, disp, calib)
    {
      ghost var start := Assoc(map[], newFactors, newValues, numLandmarks, false);
      conflict := false;
      current := map[];
      var j := 0;
      while j < |cs|
        invariant 0 <= j <= |cs|
        invariant Assoc(current, newFactors, newValues, numLandmarks, conflict)
               == AssociatePrefix(start, prev, i, pose, cs, j, disp, calib)
      {
        PrefixStep(start, prev, i, pose, cs, j, disp, calib);
        current, conflict := AssociateOne(cs[j], prev, i, pose, disp, calib, current, conflict);
        j := j + 1;
      }
    }

    /** Lines 523-594: associate each correspondence with a landmark and store
        the frame's table.  `conflict` reports whether the "new point already
        associated" branch was reached.  Fails, changing nothing, when frame
        i-1 has no table. */
    method AssociateFrame(i: nat, pose: Pose, cs: seq<Corr>, disp: DisparityMap, calib: Calib)
      returns (ok: bool, conflict: bool)
      requires i >= 1 && Valid() && Shaped(disp) && AllInImage(cs) && calib.Valid()
      modifies this`newFactors, this`newValues, this`numLandmarks, this`framePoint2Landmarks
      ensures Valid()
      ensures ok == (i - 1 in old(framePoint2Landmarks))
      ensures ok ==>
        var r := AssociateAll(Assoc(map[], old(newFactors), old(newValues), old(numLandmarks), false),
                              old(framePoint2Landmarks)[i - 1], i, pose, cs, disp, calib);
        && newFactors == r.factors && newValues == r.values && numLandmarks == r.numLandmarks
        && framePoint2Landmarks == old(framePoint2Landmarks)[i := r.table]
        && conflict == r.conflict
      ensures !ok ==>
        && newFactors == old(newFactors) && newValues == old(newValues)
        && numLandmarks == old(numLandmarks) && framePoint2Landmarks == old(framePoint2Landmarks)
      ensures old(numLandmarks) <= numLandmarks
      ensures forall k :: k in old(newValues) ==> k in newValues && newValues[k] == old(newValues)[k]
      ensures !IsCadence(i) ==> numLandmarks == old(numLandmarks) && newValues == old(newValues)
      ensures DistinctDsts(cs) ==> !conflict
    {
      conflict := false;
      if i - 1 !in framePoint2Landmarks {
        return false, false;
      }
      ok := true;
      var prev := framePoint2Landmarks[i - 1];
      ghost var s0 := Assoc(map[], newFactors, newValues, numLandmarks, false);
      assert WellFormed(s0, prev);
      var current;
      current, conflict := AssociateLoop(prev, i, pose, cs, disp, calib);
      AssociateAllSpec(s0, prev, i, pose, cs, disp, calib);
      if DistinctDsts(cs) {
        NoConflict(s0, prev, i, pose, cs, disp, calib);
      }
      framePoint2Landmarks := framePoint2Landmarks[i := current];
    }

    /** Lines 474-594 for frame i with predicted pose `pose`: the ratio test
        over the matcher's answers, the two `unique` passes and the
        association.  Fails, changing nothing, where an answer does not
        unpack into two neighbours or frame i-1 has no table. */
    method MatchFrame(i: nat, pose: Pose, kp2: seq<Pt>, matches: seq<seq<DMatch>>, disp: DisparityMap, calib: Calib)
      returns (ok: bool)
      requires i >= 1 && Valid() && Shaped(disp) && calib.Valid()
      requires forall k, j :: 0 <= k < |matches| && 0 <= j < |matches[k]| ==>
        matches[k][j].queryIdx < |kp1| && matches[k][j].trainIdx < |kp2|
      requires forall k :: 0 <= k < |kp2| ==> InImage(kp2[k])
      modifies this`newFactors, this`newValues, this`numLandmarks, this`framePoint2Landmarks
      ensures Valid()
      ensures ok == (KnnPairs(matches).Some? && i - 1 in old(framePoint2Landmarks))
      ensures kp1 == old(kp1) && result == old(result) && finalResult == old(finalResult)
      ensures ok ==>
        var pairs := KnnPairs(matches).value;
        (PairsBounded(matches, pairs, |kp1|, |kp2|);
         var cs := MatchedCorrespondences(pairs, kp1, kp2);
         (MatchedInImage(pairs, kp1, kp2);
          var r := AssociateAll(Assoc(map[], old(newFactors), old(newValues), old(numLandmarks), false),
                                old(framePoint2Landmarks)[i - 1], i, pose, cs, disp, calib);
          && newFactors == r.factors && newValues == r.values && numLandmarks == r.numLandmarks
          && framePoint2Landmarks == old(framePoint2Landmarks)[i := r.table]))
      ensures !ok ==>
        && newFactors == old(newFactors) && newValues == old(newValues)
        && numLandmarks == old(numLandmarks) && framePoint2Landmarks == old(framePoint2Landmarks)
      ensures old(numLandmarks) <= numLandmarks
      ensures forall k :: k in old(newValues) ==> k in newValues && newValues[k] == old(newValues)[k]
      ensures !IsCadence(i) ==> numLandmarks == old(numLandmarks)
    {
      var pairs := KnnPairs(matches);
      if pairs.None? {
        return false;
      }
      PairsBounded(matches, pairs.value, |kp1|, |kp2|);
      var cs := MatchedCorrespondences(pairs.value, kp1, kp2);
      MatchedInImage(pairs.value, kp1, kp2);
      var conflict;
      ok, conflict := AssociateFrame(i, pose, cs, disp, calib);
    }

    /** Lines 599-609: the current keypoints become the previous ones, the
        pending increment goes to the smoother and its estimate is merged
        into the final result.  Printing the estimated pose of X(i) at line
        606 calls `_get_pose`, which raises, before the merge, when the
        estimate holds no pose X(i). */
    method EndFrame(i: nat, kp2: seq<Pt>, estimate: map<Key, Value>) returns (ok: bool, sent: Increment)
      requires Valid()
      modifies this`kp1, this`newFactors, this`newValues, this`newTimestamps, this`result, this`finalResult
      ensures Valid()
      ensures kp1 == kp2
      ensures sent == Increment(old(newFactors), old(newValues), old(newTimestamps))
      ensures newFactors == [] && newValues == map[] && newTimestamps == map[]
      ensures result == estimate
      ensures ok == GetPose(estimate, X(i)).Some?
      ensures ok ==> finalResult == Merged(old(finalResult), estimate)
      ensures !ok ==> finalResult == old(finalResult)
    {
      kp1 := kp2;
      sent := UpdateSmoother(estimate);
      if GetPose(result, X(i)).None? {
        return false, sent;
      }
      Accumulate();
      ok := true;
    }

    /** One iteration of the main loop (lines 447-609) for frame i at time t,
        given the current frame's keypoints, the matcher's k=2 answers, the
        disparity map and the smoother's estimate.  It raises, in this order,
        where `_get_pose` finds no X(i-1) or `insert` finds X(i) already
        pending (lines 455-459), where an answer does not unpack into two
        neighbours (line 477), where frame i-1 has no table (line 523), and
        where the estimate has no X(i) (line 606). */
    method ProcessFrame(i: nat, t: real, kp2: seq<Pt>, matches: seq<seq<DMatch>>,
                        disp: DisparityMap, calib: Calib, estimate: map<Key, Value>)
      returns (ok: bool, sent: Increment)
      requires i >= 1 && Valid() && Shaped(disp) && calib.Valid()
      requires forall k, j :: 0 <= k < |matches| && 0 <= j < |matches[k]| ==>
        matches[k][j].queryIdx < |kp1| && matches[k][j].trainIdx < |kp2|
      requires forall k :: 0 <= k < |kp2| ==> InImage(kp2[k])
      modifies this
      ensures Valid()
      ensures old(numLandmarks) <= numLandmarks
      ensures !IsCadence(i) ==> numLandmarks == old(numLandmarks)
      ensures ok <==> Begins(old(result), old(newValues), i) && KnnPairs(matches).Some?
                      && i - 1 in old(framePoint2Landmarks) && GetPose(estimate, X(i)).Some?
      // Once the pose, the matches and the previous table are there, the
      // increment is the pending state with the predicted pose of X(i) and
      // its timestamp added, followed by the association fold over the
      // de-duplicated correspondences of the ratio-test matches; it is sent
      // whether or not the final print raises.
      ensures Begins(old(result), old(newValues), i) && KnnPairs(matches).Some?
              && i - 1 in old(framePoint2Landmarks) ==>
        var p := PredictNextPose(GetPose(old(result), X(i - 1)).value);
        var pairs := KnnPairs(matches).value;
        (PairsBounded(matches, pairs, |old(kp1)|, |kp2|);
         var cs := MatchedCorrespondences(pairs, old(kp1), kp2);
         (MatchedInImage(pairs, old(kp1), kp2);
          var r := AssociateAll(Assoc(map[], old(newFactors), old(newValues)[X(i) := PoseValue(p)], old(numLandmarks), false),
                                old(framePoint2Landmarks)[i - 1], i, p, cs, disp, calib);
          && sent == Increment(r.factors, r.values, Stamped(old(newTimestamps), X(i), t))
          && numLandmarks == r.numLandmarks
          && framePoint2Landmarks == old(framePoint2Landmarks)[i := r.table]))
      ensures Begins(old(result), old(newValues), i) && KnnPairs(matches).Some?
              && i - 1 in old(framePoint2Landmarks) ==>
        && X(i) in sent.values
        && sent.values[X(i)] == PoseValue(PredictNextPose(GetPose(old(result), X(i - 1)).value))
        && LandmarksBelow(sent.factors, numLandmarks)
        && kp1 == kp2
        && newFactors == [] && newValues == map[] && newTimestamps == map[]
        && result == estimate
      // The estimate is merged only when the frame completes.
      ensures ok ==> finalResult == Merged(old(finalResult), estimate)
      ensures !ok ==> finalResult == old(finalResult)
      // A frame that fails before the smoother sends nothing and leaves the
      // landmarks, tables, estimate and keypoints alone; the predicted pose
      // and timestamp stay pending when only the matches or the table failed.
      ensures !(Begins(old(result), old(newValues), i) && KnnPairs(matches).Some?
                && i - 1 in old(framePoint2Landmarks)) ==>
        && sent == Increment([], map[], map[])
        && newFactors == old(newFactors) && numLandmarks == old(numLandmarks)
        && framePoint2Landmarks == old(framePoint2Landmarks)
        && result == old(result) && kp1 == old(kp1)
      ensures Begins(old(result), old(newValues), i)
              && !(KnnPairs(matches).Some? && i - 1 in old(framePoint2Landmarks)) ==>
        && newValues == old(newValues)[X(i) := PoseValue(PredictNextPose(GetPose(old(result), X(i - 1)).value))]
        && newTimestamps == Stamped(old(newTimestamps), X(i), t)
      ensures !Begins(old(result), old(newValues), i) ==>
        newValues == old(newValues) && newTimestamps == old(newTimestamps)
    {
      sent := Increment([], map[], map[]);
      var pose := BeginFrame(i, t);
      if pose.None? {
        return false, sent;
      }
      ghost var withPose := newValues;
      var associated := MatchFrame(i, pose.value, kp2, matches, disp, calib);
      if !associated {
        return false, sent;
      }
      assert X(i) in withPose && newValues[X(i)] == withPose[X(i)];
      ok, sent := EndFrame(i, kp2, estimate);
    }
  }
}
