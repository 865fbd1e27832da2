/** Descriptor matching of sift_fixed_lag.py: Lowe's ratio test over the
    two nearest neighbours, the keypoint correspondences it yields, and the
    two `unique` passes that leave at most one correspondence per new point
    and per old point.  The keypoint detector and the FLANN matcher are
    external; their outputs are inputs here. */
module SiftMatching {
  import opened Graph
  import opened NumpyUnique

  /** A cv2.DMatch: query keypoint index (previous frame), train keypoint
      index (current frame), descriptor distance. */
  datatype DMatch = DMatch(queryIdx: nat, trainIdx: nat, distance: real)

  /** An entry of `flann.knnMatch(des1, des2, k=2)` unpacked by
      `for m, n in matches`: the nearest and the second-nearest match. */
  datatype KnnPair = KnnPair(m: DMatch, n: DMatch)

  /** A keypoint with its descriptor, as `_detect_keypoints` returns them. */
  datatype Keypoint = Keypoint(pt: Pt, descriptor: seq<real>)

  /** An old pixel (previous frame) matched to a new pixel (current frame). */
  datatype Corr = Corr(src: Pt, dst: Pt)

  const RatioThreshold: real := 0.7

  predicate PassesRatio(p: KnnPair)
  {
    p.m.distance < RatioThreshold * p.n.distance
  }

  /** `for m, n in matches`: each entry the matcher returns is a list of up
      to k = 2 neighbours, and the unpacking raises on an entry that does not
      hold exactly two (the train side has a single descriptor, say). */
  function KnnPairs(matches: seq<seq<DMatch>>): (r: Option<seq<KnnPair>>)
    ensures r.Some? <==> forall k :: 0 <= k < |matches| ==> |matches[k]| == 2
    ensures r.Some? ==>
      && |r.value| == |matches|
      && forall k :: 0 <= k < |matches| ==> r.value[k] == KnnPair(matches[k][0], matches[k][1])
    decreases |matches|
  {
    if matches == [] then Some([])
    else
      var n := |matches| - 1;
      var front := KnnPairs(matches[..n]);
      assert forall k :: 0 <= k < n ==> matches[..n][k] == matches[k];
      if front.None? || |matches[n]| != 2 then None
      else Some(front.value + [KnnPair(matches[n][0], matches[n][1])])
  }

  /** The nearest matches the ratio test keeps, in input order. */
  function GoodMatches(matches: seq<KnnPair>): seq<DMatch>
  {
    if matches == [] then []
    else
      var last := matches[|matches| - 1];
      GoodMatches(matches[..|matches| - 1]) + (if PassesRatio(last) then [last.m] else [])
  }

  /** Kept matches index the same keypoint lists as the matcher's output. */
  lemma {:induction false} GoodMatchesBounded(matches: seq<KnnPair>, n1: nat, n2: nat)
    requires forall k :: 0 <= k < |matches| ==> matches[k].m.queryIdx < n1 && matches[k].m.trainIdx < n2
    ensures forall k :: 0 <= k < |GoodMatches(matches)| ==>
      GoodMatches(matches)[k].queryIdx < n1 && GoodMatches(matches)[k].trainIdx < n2
  {
    if matches != [] {
      GoodMatchesBounded(matches[..|matches| - 1], n1, n2);
    }
  }

  /** The ratio-test loop, unpacking each entry and appending to `good`;
      None where the unpacking raises. */
  method RatioTest(matches: seq<seq<DMatch>>) returns (good: Option<seq<DMatch>>)
    ensures good.None? <==> KnnPairs(matches).None?
    ensures good.Some? ==> good.value == GoodMatches(KnnPairs(matches).value)
  {
    var kept: seq<DMatch> := [];
    var k := 0;
    while k < |matches|
      invariant 0 <= k <= |matches|
      invariant KnnPairs(matches[..k]).Some?
      invariant kept == GoodMatches(KnnPairs(matches[..k]).value)
    {
      if |matches[k]| != 2 {
        return None;
      }
      var m, n := matches[k][0], matches[k][1];
      assert matches[..k + 1][..k] == matches[..k];
      ghost var pairs := KnnPairs(matches[..k]).value;
      assert KnnPairs(matches[..k + 1]).value == pairs + [KnnPair(m, n)];
      assert (pairs + [KnnPair(m, n)])[..|pairs|] == pairs;
      if m.distance < RatioThreshold * n.distance {
        kept := kept + [m];
      }
      k := k + 1;
    }
    assert matches[..k] == matches;
    good := Some(kept);
  }

  /** The kept matches are exactly the nearest matches of the pairs that pass
      the ratio test, in input order: `idx` lists the positions they come
      from, strictly increasing, and every passing pair's position is in it. */
  lemma {:induction false} GoodMatchesExact(matches: seq<KnnPair>) returns (idx: seq<nat>)
    ensures |idx| == |GoodMatches(matches)|
    ensures forall a, b :: 0 <= a < b < |idx| ==> idx[a] < idx[b]
    ensures forall k :: 0 <= k < |idx| ==>
      idx[k] < |matches| && PassesRatio(matches[idx[k]]) && GoodMatches(matches)[k] == matches[idx[k]].m
    ensures forall j :: 0 <= j < |matches| && PassesRatio(matches[j]) ==> j in idx
  {
    if matches == [] {
      idx := [];
    } else {
      var n := |matches| - 1;
      var front := matches[..n];
      var idx0 := GoodMatchesExact(front);
      assert forall k :: 0 <= k < |idx0| ==> front[idx0[k]] == matches[idx0[k]];
      if PassesRatio(matches[n]) {
        assert GoodMatches(matches) == GoodMatches(front) + [matches[n].m];
        idx := idx0 + [n];
      } else {
        assert GoodMatches(matches) == GoodMatches(front);
        idx := idx0;
      }
      forall j | 0 <= j < |matches| && PassesRatio(matches[j]) ensures j in idx {
        if j < n {
          assert front[j] == matches[j];
          assert j in idx0;
        }
      }
    }
  }

  /** `src_pts`/`dst_pts`: the keypoint positions each good match joins. */
  function Correspondences(good: seq<DMatch>, kp1: seq<Pt>, kp2: seq<Pt>): (cs: seq<Corr>)
    requires forall k :: 0 <= k < |good| ==> good[k].queryIdx < |kp1| && good[k].trainIdx < |kp2|
    ensures |cs| == |good|
    ensures forall k :: 0 <= k < |good| ==>
      cs[k] == Corr(kp1[good[k].queryIdx], kp2[good[k].trainIdx])
  {
    seq(|good|, k requires 0 <= k < |good| => Corr(kp1[good[k].queryIdx], kp2[good[k].trainIdx]))
  }

  function Srcs(cs: seq<Corr>): (r: seq<Pt>)
    ensures |r| == |cs| && forall k :: 0 <= k < |cs| ==> r[k] == cs[k].src
  {
    seq(|cs|, k requires 0 <= k < |cs| => cs[k].src)
  }

  function Dsts(cs: seq<Corr>): (r: seq<Pt>)
    ensures |r| == |cs| && forall k :: 0 <= k < |cs| ==> r[k] == cs[k].dst
  {
    seq(|cs|, k requires 0 <= k < |cs| => cs[k].dst)
  }

  /** `src_pts[inds]`, `dst_pts[inds]` together. */
  function Pick(cs: seq<Corr>, inds: seq<nat>): (r: seq<Corr>)
    requires forall k :: 0 <= k < |inds| ==> inds[k] < |cs|
    ensures |r| == |inds| && forall k :: 0 <= k < |inds| ==> r[k] == cs[inds[k]]
  {
    seq(|inds|, k requires 0 <= k < |inds| => cs[inds[k]])
  }

  predicate AllInImage(cs: seq<Corr>)
  {
    forall k :: 0 <= k < |cs| ==> InImage(cs[k].dst)
  }

  predicate DistinctDsts(cs: seq<Corr>)
  {
    forall a, b :: 0 <= a < b < |cs| ==> cs[a].dst != cs[b].dst
  }

  predicate DistinctSrcs(cs: seq<Corr>)
  {
    forall a, b :: 0 <= a < b < |cs| ==> cs[a].src != cs[b].src
  }

  /** The first `unique` pass, on the destination points (lines 485-488). */
  function UniqueByDst(cs: seq<Corr>): seq<Corr>
  {
    Pick(cs, Unique(Dsts(cs)))
  }

  /** The second `unique` pass, on the source points (lines 493-496). */
  function UniqueBySrc(cs: seq<Corr>): seq<Corr>
  {
    Pick(cs, Unique(Srcs(cs)))
  }

  /** Both passes, in the order the script runs them. */
  function Dedup(cs: seq<Corr>): seq<Corr>
  {
    UniqueBySrc(UniqueByDst(cs))
  }

  /** After the destination pass no two correspondences share a new point,
      each survivor is an input correspondence, and every new point of the
      input still has a correspondence. */
  lemma UniqueByDstSpec(cs: seq<Corr>)
    ensures DistinctDsts(UniqueByDst(cs))
    ensures forall k :: 0 <= k < |UniqueByDst(cs)| ==> UniqueByDst(cs)[k] in cs
    ensures forall k :: 0 <= k < |cs| ==> cs[k].dst in Dsts(UniqueByDst(cs))
  {
    var inds := Unique(Dsts(cs));
    var r := UniqueByDst(cs);
    UniqueDistinct(Dsts(cs));
    forall k | 0 <= k < |cs| ensures cs[k].dst in Dsts(r) {
      UniqueCovers(Dsts(cs), k);
      var c :| 0 <= c < |inds| && Select(Dsts(cs), inds)[c] == cs[k].dst;
      assert Dsts(r)[c] == cs[k].dst;
    }
  }

  /** The source pass leaves no two correspondences sharing an old point,
      keeps only input correspondences, and picks distinct positions, so
      distinct new points stay distinct. */
  lemma UniqueBySrcSpec(cs: seq<Corr>)
    ensures DistinctSrcs(UniqueBySrc(cs))
    ensures forall k :: 0 <= k < |UniqueBySrc(cs)| ==> UniqueBySrc(cs)[k] in cs
    ensures forall k :: 0 <= k < |cs| ==> cs[k].src in Srcs(UniqueBySrc(cs))
    ensures DistinctDsts(cs) ==> DistinctDsts(UniqueBySrc(cs))
  {
    var inds := Unique(Srcs(cs));
    var r := UniqueBySrc(cs);
    UniqueDistinct(Srcs(cs));
    forall k | 0 <= k < |cs| ensures cs[k].src in Srcs(r) {
      UniqueCovers(Srcs(cs), k);
      var c :| 0 <= c < |inds| && Select(Srcs(cs), inds)[c] == cs[k].src;
      assert Srcs(r)[c] == cs[k].src;
    }
  }

  /** The two passes together: no shared new point, no shared old point, and
      every survivor is one of the correspondences of the good matches. */
  lemma DedupSpec(cs: seq<Corr>)
    ensures DistinctDsts(Dedup(cs)) && DistinctSrcs(Dedup(cs))
    ensures forall k :: 0 <= k < |Dedup(cs)| ==> Dedup(cs)[k] in cs
  {
    UniqueByDstSpec(cs);
    UniqueBySrcSpec(UniqueByDst(cs));
  }

  /** Lines 474-496 together: the ratio test, the correspondences of the kept
      matches and both `unique` passes. */
  function MatchedCorrespondences(matches: seq<KnnPair>, kp1: seq<Pt>, kp2: seq<Pt>): seq<Corr>
    requires forall k :: 0 <= k < |matches| ==>
      matches[k].m.queryIdx < |kp1| && matches[k].m.trainIdx < |kp2|
  {
    GoodMatchesBounded(matches, |kp1|, |kp2|);
    Dedup(Correspondences(GoodMatches(matches), kp1, kp2))
  }

  /** The correspondences reaching association share no new point and no old
      point, each joins the two keypoints of a match that passed the ratio
      test, and they lie in the image when the current keypoints do. */
  lemma MatchedCorrespondencesSpec(matches: seq<KnnPair>, kp1: seq<Pt>, kp2: seq<Pt>)
    requires forall k :: 0 <= k < |matches| ==>
      matches[k].m.queryIdx < |kp1| && matches[k].m.trainIdx < |kp2|
    ensures var cs := MatchedCorrespondences(matches, kp1, kp2);
      && DistinctDsts(cs) && DistinctSrcs(cs)
      && (forall k :: 0 <= k < |cs| ==>
            (exists j :: 0 <= j < |matches| && PassesRatio(matches[j])
               && cs[k] == Corr(kp1[matches[j].m.queryIdx], kp2[matches[j].m.trainIdx])))
  {
    GoodMatchesBounded(matches, |kp1|, |kp2|);
    var good := GoodMatches(matches);
    var idx := GoodMatchesExact(matches);
    var all := Correspondences(good, kp1, kp2);
    DedupSpec(all);
    var cs := Dedup(all);
    forall k | 0 <= k < |cs|
      ensures exists j :: 0 <= j < |matches| && PassesRatio(matches[j])
                && cs[k] == Corr(kp1[matches[j].m.queryIdx], kp2[matches[j].m.trainIdx])
    {
      var c :| 0 <= c < |all| && all[c] == cs[k];
      var j := idx[c];
      assert cs[k] == Corr(kp1[matches[j].m.queryIdx], kp2[matches[j].m.trainIdx]);
    }
  }

  /** The correspondences lie in the image when the current keypoints do. */
  lemma MatchedInImage(matches: seq<KnnPair>, kp1: seq<Pt>, kp2: seq<Pt>)
    requires forall k :: 0 <= k < |matches| ==>
      matches[k].m.queryIdx < |kp1| && matches[k].m.trainIdx < |kp2|
    requires forall k :: 0 <= k < |kp2| ==> InImage(kp2[k])
    ensures AllInImage(MatchedCorrespondences(matches, kp1, kp2))
  {
    GoodMatchesBounded(matches, |kp1|, |kp2|);
    var all := Correspondences(GoodMatches(matches), kp1, kp2);
    DedupSpec(all);
  }

  function KeypointPts(kps: seq<Keypoint>): (r: seq<Pt>)
    ensures |r| == |kps| && forall k :: 0 <= k < |kps| ==> r[k] == kps[k].pt
  {
    seq(|kps|, k requires 0 <= k < |kps| => kps[k].pt)
  }

  /** `_detect_keypoints`: keypoints at the same pixel are collapsed to the
      first one, the survivors ordered by position.  None where the script
      raises: with no keypoint, `detectAndCompute` returns no descriptor
      array and `des[inds]` fails. */
  function DetectKeypoints(detected: seq<Keypoint>): Option<seq<Keypoint>>
  {
    if detected == [] then None
    else
      var inds := Unique(KeypointPts(detected));
      Some(seq(|inds|, k requires 0 <= k < |inds| => detected[inds[k]]))
  }

  /** Detection fails exactly on an image without keypoints.  Otherwise
      collapsing duplicates leaves distinct positions, keeps only detected
      keypoints, and keeps every detected position. */
  lemma DetectKeypointsSpec(detected: seq<Keypoint>)
    ensures DetectKeypoints(detected).None? <==> detected == []
    ensures DetectKeypoints(detected).Some? ==>
      var r := DetectKeypoints(detected).value;
      && (forall a, b :: 0 <= a < b < |r| ==> r[a].pt != r[b].pt)
      && (forall k :: 0 <= k < |r| ==> r[k] in detected)
      && (forall k :: 0 <= k < |detected| ==> detected[k].pt in KeypointPts(r))
  {
    if detected != [] {
      var pts := KeypointPts(detected);
      var inds := Unique(pts);
      var r := DetectKeypoints(detected).value;
      UniqueDistinct(pts);
      forall k | 0 <= k < |detected| ensures detected[k].pt in KeypointPts(r) {
        UniqueCovers(pts, k);
        var c :| 0 <= c < |inds| && Select(pts, inds)[c] == detected[k].pt;
        assert KeypointPts(r)[c] == detected[k].pt;
      }
    }
  }
}
