/** Landmark association and minting of sift_fixed_lag.py (lines 523-594):
    each surviving correspondence either extends the landmark its old point
    was associated with in the previous frame, mints the next landmark on a
    cadence frame, or is dropped.  `Step` is one iteration of the loop and
    `AssociateAll` the whole loop. */
module Association {
  import opened Graph
  import opened SiftMatching

  /** The state the loop updates: the current frame's point -> landmark table,
      the pending factors and values, the landmark counter, and whether the
      "new point already in the table" branch (the script's interactive stop)
      was reached. */
  datatype Assoc = Assoc(
    table: map<Pt, nat>,
    factors: seq<Factor>,
    values: map<Key, Value>,
    numLandmarks: nat,
    conflict: bool)

  /** Below this disparity a correspondence is ignored (`if d < 10: continue`). */
  const MinDisparity: real := 10.0

  /** New landmarks are minted only on frames with `i % 10 == 1`. */
  predicate IsCadence(i: nat)
  {
    i % 10 == 1
  }

  /** `disparity[int(v), int(uL)]`; int() of a non-negative value is its floor. */
  function DisparityOf(disp: DisparityMap, p: Pt): real
    requires Shaped(disp) && InImage(p)
  {
    DisparityAt(disp, p.y.Floor, p.x.Floor)
  }

  /** The stereo measurement `StereoPoint2(uL, uR, v)` with `uR = uL - d`. */
  function Measurement(p: Pt, d: real): (m: StereoPoint)
    ensures m.uL == p.x && m.v == p.y && m.uL - m.uR == d
  {
    StereoPoint(p.x, p.x - d, p.y)
  }

  /** The initial world position of a landmark minted at `p` with disparity d:
      back-projected and moved into the world by the predicted pose. */
  function MintedValue(calib: Calib, pose: Pose, p: Pt, d: real): Value
    requires calib.Valid() && d >= MinDisparity
  {
    var m := Measurement(p, d);
    PointValue(TransformFrom(pose, BackProject(calib, m.uL, m.uR, d)))
  }

  /** Every landmark id the state mentions is below its counter, and so is
      every id of the previous frame's table. */
  predicate WellFormed(s: Assoc, prev: map<Pt, nat>)
  {
    && LandmarksBelow(s.factors, s.numLandmarks)
    && LandmarkKeysBelow(s.values, s.numLandmarks)
    && (forall p :: p in s.table ==> s.table[p] < s.numLandmarks)
    && (forall p :: p in prev ==> prev[p] < s.numLandmarks)
  }

  /** One loop iteration for correspondence c in frame i. */
  function Step(s: Assoc, prev: map<Pt, nat>, i: nat, pose: Pose, c: Corr,
                disp: DisparityMap, calib: Calib): (r: Assoc)
    requires Shaped(disp) && InImage(c.dst) && calib.Valid()
    // Low disparity: nothing changes.
    ensures DisparityOf(disp, c.dst) < MinDisparity ==> r == s
    // Hit: the new point takes the old point's landmark, one factor on X(i)
    // and that landmark is added, no value, the counter is unchanged.
    ensures DisparityOf(disp, c.dst) >= MinDisparity && c.src in prev ==>
      && r.table == s.table[c.dst := prev[c.src]]
      && r.factors == s.factors + [Stereo(Measurement(c.dst, DisparityOf(disp, c.dst)), X(i), L(prev[c.src]))]
      && r.values == s.values && r.numLandmarks == s.numLandmarks && r.conflict == s.conflict
    // Miss off the cadence: dropped.
    ensures DisparityOf(disp, c.dst) >= MinDisparity && c.src !in prev && !IsCadence(i) ==> r == s
    // Miss on the cadence: the old counter is the new id and the counter
    // grows by one; one factor and one value for L(id) are added.
    ensures DisparityOf(disp, c.dst) >= MinDisparity && c.src !in prev && IsCadence(i) ==>
      && r.numLandmarks == s.numLandmarks + 1
      && r.table == s.table[c.dst := s.numLandmarks]
      && r.factors == s.factors + [Stereo(Measurement(c.dst, DisparityOf(disp, c.dst)), X(i), L(s.numLandmarks))]
      && r.values == s.values[L(s.numLandmarks) := MintedValue(calib, pose, c.dst, DisparityOf(disp, c.dst))]
      && r.conflict == (s.conflict || c.dst in s.table)
  {
    var d := DisparityOf(disp, c.dst);
    if d < MinDisparity then s
    else
      var m := Measurement(c.dst, d);
      if c.src in prev then
        var id := prev[c.src];
        s.(table := s.table[c.dst := id], factors := s.factors + [Stereo(m, X(i), L(id))])
      else if !IsCadence(i) then s
      else
        var id := s.numLandmarks;
        Assoc(s.table[c.dst := id],
              s.factors + [Stereo(m, X(i), L(id))],
              s.values[L(id) := MintedValue(calib, pose, c.dst, d)],
              id + 1,
              s.conflict || c.dst in s.table)
  }

  /** The loop over the first n correspondences. */
  function AssociatePrefix(s0: Assoc, prev: map<Pt, nat>, i: nat, pose: Pose, cs: seq<Corr>, n: nat,
                           disp: DisparityMap, calib: Calib): Assoc
    requires n <= |cs| && Shaped(disp) && AllInImage(cs) && calib.Valid()
    decreases n
  {
    if n == 0 then s0
    else Step(AssociatePrefix(s0, prev, i, pose, cs, n - 1, disp, calib), prev, i, pose, cs[n - 1], disp, calib)
  }

  /** One more correspondence is one more Step. */
  lemma PrefixStep(s0: Assoc, prev: map<Pt, nat>, i: nat, pose: Pose, cs: seq<Corr>, n: nat,
                   disp: DisparityMap, calib: Calib)
    requires n < |cs| && Shaped(disp) && AllInImage(cs) && calib.Valid()
    ensures AssociatePrefix(s0, prev, i, pose, cs, n + 1, disp, calib)
         == Step(AssociatePrefix(s0, prev, i, pose, cs, n, disp, calib), prev, i, pose, cs[n], disp, calib)
  {
  }

  /** A correspondence whose disparity is too low, or a miss off the
      cadence, leaves the state as it is. */
  lemma StepSkip(s: Assoc, prev: map<Pt, nat>, i: nat, pose: Pose, c: Corr, disp: DisparityMap, calib: Calib)
    requires Shaped(disp) && InImage(c.dst) && calib.Valid()
    requires DisparityAt(disp, c.dst.y.Floor, c.dst.x.Floor) < MinDisparity
          || (c.src !in prev && !IsCadence(i))
    ensures Step(s, prev, i, pose, c, disp, calib) == s
  {
  }

  /** A hit in the previous table, written as the loop body computes it. */
  lemma StepHit(s: Assoc, prev: map<Pt, nat>, i: nat, pose: Pose, c: Corr, disp: DisparityMap, calib: Calib)
    requires Shaped(disp) && InImage(c.dst) && calib.Valid()
    requires DisparityAt(disp, c.dst.y.Floor, c.dst.x.Floor) >= MinDisparity && c.src in prev
    ensures var d := DisparityAt(disp, c.dst.y.Floor, c.dst.x.Floor);
      Step(s, prev, i, pose, c, disp, calib)
      == s.(table := s.table[c.dst := prev[c.src]],
            factors := s.factors + [Stereo(StereoPoint(c.dst.x, c.dst.x - d, c.dst.y), X(i), L(prev[c.src]))])
  {
  }

  /** A landmark minted on the cadence, written as the loop body computes it. */
  lemma StepMint(s: Assoc, prev: map<Pt, nat>, i: nat, pose: Pose, c: Corr, disp: DisparityMap, calib: Calib)
    requires Shaped(disp) && InImage(c.dst) && calib.Valid()
    requires DisparityAt(disp, c.dst.y.Floor, c.dst.x.Floor) >= MinDisparity && c.src !in prev && IsCadence(i)
    ensures var d := DisparityAt(disp, c.dst.y.Floor, c.dst.x.Floor);
      var m := StereoPoint(c.dst.x, c.dst.x - d, c.dst.y);
      Step(s, prev, i, pose, c, disp, calib)
      == Assoc(s.table[c.dst := s.numLandmarks],
               s.factors + [Stereo(m, X(i), L(s.numLandmarks))],
               s.values[L(s.numLandmarks) := PointValue(TransformFrom(pose, BackProject(calib, m.uL, m.uR, d)))],
               s.numLandmarks + 1,
               s.conflict || c.dst in s.table)
  {
  }

  /** The loop over all correspondences. */
  function AssociateAll(s0: Assoc, prev: map<Pt, nat>, i: nat, pose: Pose, cs: seq<Corr>,
                        disp: DisparityMap, calib: Calib): Assoc
    requires Shaped(disp) && AllInImage(cs) && calib.Valid()
  {
    AssociatePrefix(s0, prev, i, pose, cs, |cs|, disp, calib)
  }

  /** How the state may change during the loop of frame i: the counter never
      decreases; the values gained are exactly L(old counter) .. L(new
      counter - 1), so minted ids are sequential and never reused; no pending
      value is overwritten; the pending factors stay in front and each new
      one ties pose X(i) to a landmark; off the cadence nothing is minted. */
  predicate Grows(s: Assoc, r: Assoc, i: nat)
  {
    && s.numLandmarks <= r.numLandmarks
    && r.values.Keys == s.values.Keys + LandmarkRange(s.numLandmarks, r.numLandmarks)
    && (forall k :: k in s.values ==> r.values[k] == s.values[k])
    && |s.factors| <= |r.factors| && r.factors[..|s.factors|] == s.factors
    && (forall k :: |s.factors| <= k < |r.factors| ==> r.factors[k].Stereo? && r.factors[k].pose == X(i))
    && (!IsCadence(i) ==> r.numLandmarks == s.numLandmarks && r.values == s.values)
  }

  lemma GrowsTransitive(a: Assoc, b: Assoc, c: Assoc, i: nat)
    requires Grows(a, b, i) && Grows(b, c, i)
    ensures Grows(a, c, i)
  {
    assert c.factors[..|a.factors|] == b.factors[..|a.factors|];
    assert LandmarkRange(a.numLandmarks, c.numLandmarks)
        == LandmarkRange(a.numLandmarks, b.numLandmarks) + LandmarkRange(b.numLandmarks, c.numLandmarks);
  }

  /** One iteration keeps every id below the counter and changes the state
      only as `Grows` allows. */
  lemma StepSpec(s: Assoc, prev: map<Pt, nat>, i: nat, pose: Pose, c: Corr, disp: DisparityMap, calib: Calib)
    requires Shaped(disp) && InImage(c.dst) && calib.Valid()
    requires WellFormed(s, prev)
    ensures WellFormed(Step(s, prev, i, pose, c, disp, calib), prev)
    ensures Grows(s, Step(s, prev, i, pose, c, disp, calib), i)
  {
    var r := Step(s, prev, i, pose, c, disp, calib);
    assert r.factors[..|s.factors|] == s.factors;
    if r.numLandmarks == s.numLandmarks + 1 {
      assert L(s.numLandmarks) !in s.values;
      assert LandmarkRange(s.numLandmarks, r.numLandmarks) == {L(s.numLandmarks)};
    } else {
      assert LandmarkRange(s.numLandmarks, r.numLandmarks) == {};
    }
  }

  lemma GrowsReflexive(s: Assoc, i: nat)
    ensures Grows(s, s, i)
  {
    assert s.factors[..|s.factors|] == s.factors;
    assert LandmarkRange(s.numLandmarks, s.numLandmarks) == {};
  }

  /** The first n iterations keep every id below the counter and change the
      state only as `Grows` allows. */
  lemma {:induction false} AssociatePrefixSpec(s0: Assoc, prev: map<Pt, nat>, i: nat, pose: Pose, cs: seq<Corr>,
                                               n: nat, disp: DisparityMap, calib: Calib)
    requires n <= |cs| && Shaped(disp) && AllInImage(cs) && calib.Valid()
    requires WellFormed(s0, prev)
    ensures WellFormed(AssociatePrefix(s0, prev, i, pose, cs, n, disp, calib), prev)
    ensures Grows(s0, AssociatePrefix(s0, prev, i, pose, cs, n, disp, calib), i)
    decreases n
  {
    if n == 0 {
      GrowsReflexive(s0, i);
    } else {
      AssociatePrefixSpec(s0, prev, i, pose, cs, n - 1, disp, calib);
      var q := AssociatePrefix(s0, prev, i, pose, cs, n - 1, disp, calib);
      StepSpec(q, prev, i, pose, cs[n - 1], disp, calib);
      GrowsTransitive(s0, q, Step(q, prev, i, pose, cs[n - 1], disp, calib), i);
    }
  }

  /** The table's new points all come from the correspondences processed. */
  lemma {:induction false} TableKeysFromDsts(s0: Assoc, prev: map<Pt, nat>, i: nat, pose: Pose, cs: seq<Corr>,
                                             n: nat, disp: DisparityMap, calib: Calib)
    requires n <= |cs| && Shaped(disp) && AllInImage(cs) && calib.Valid()
    ensures forall p :: p in AssociatePrefix(s0, prev, i, pose, cs, n, disp, calib).table ==>
      p in s0.table || exists k :: 0 <= k < n && cs[k].dst == p
    decreases n
  {
    if n > 0 {
      TableKeysFromDsts(s0, prev, i, pose, cs, n - 1, disp, calib);
    }
  }

  /** With pairwise distinct new points and an empty current table, the
      "new point already has a landmark" branch is never reached. */
  lemma {:induction false} NoConflictPrefix(s0: Assoc, prev: map<Pt, nat>, i: nat, pose: Pose, cs: seq<Corr>,
                                            n: nat, disp: DisparityMap, calib: Calib)
    requires n <= |cs| && Shaped(disp) && AllInImage(cs) && calib.Valid()
    requires s0.table == map[] && !s0.conflict && DistinctDsts(cs)
    ensures !AssociatePrefix(s0, prev, i, pose, cs, n, disp, calib).conflict
    decreases n
  {
    if n > 0 {
      NoConflictPrefix(s0, prev, i, pose, cs, n - 1, disp, calib);
      TableKeysFromDsts(s0, prev, i, pose, cs, n - 1, disp, calib);
    }
  }

  /** The conflict branch is unreachable after the `unique` passes. */
  lemma NoConflict(s0: Assoc, prev: map<Pt, nat>, i: nat, pose: Pose, cs: seq<Corr>,
                   disp: DisparityMap, calib: Calib)
    requires Shaped(disp) && AllInImage(cs) && calib.Valid()
    requires s0.table == map[] && !s0.conflict && DistinctDsts(cs)
    ensures !AssociateAll(s0, prev, i, pose, cs, disp, calib).conflict
  {
    NoConflictPrefix(s0, prev, i, pose, cs, |cs|, disp, calib);
  }

  /** A correspondence whose old point had a landmark and whose disparity is
      high enough leaves its new point associated with that same landmark at
      the end of the frame, when the new points are distinct. */
  lemma {:induction false} HitSurvives(s0: Assoc, prev: map<Pt, nat>, i: nat, pose: Pose, cs: seq<Corr>,
                                       n: nat, k: nat, disp: DisparityMap, calib: Calib)
    requires n <= |cs| && Shaped(disp) && AllInImage(cs) && calib.Valid()
    requires DistinctDsts(cs) && k < n
    requires DisparityOf(disp, cs[k].dst) >= MinDisparity && cs[k].src in prev
    ensures var r := AssociatePrefix(s0, prev, i, pose, cs, n, disp, calib);
      cs[k].dst in r.table && r.table[cs[k].dst] == prev[cs[k].src]
    decreases n
  {
    if k < n - 1 {
      HitSurvives(s0, prev, i, pose, cs, n - 1, k, disp, calib);
      assert cs[n - 1].dst != cs[k].dst;
    }
  }

  /** The whole loop: ids below the counter, sequential minting, the cadence
      gate, and no conflict when the new points are distinct. */
  lemma AssociateAllSpec(s0: Assoc, prev: map<Pt, nat>, i: nat, pose: Pose, cs: seq<Corr>,
                         disp: DisparityMap, calib: Calib)
    requires Shaped(disp) && AllInImage(cs) && calib.Valid()
    requires WellFormed(s0, prev)
    ensures WellFormed(AssociateAll(s0, prev, i, pose, cs, disp, calib), prev)
    ensures Grows(s0, AssociateAll(s0, prev, i, pose, cs, disp, calib), i)
  {
    AssociatePrefixSpec(s0, prev, i, pose, cs, |cs|, disp, calib);
  }
}
