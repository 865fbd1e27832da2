/** `onp.unique(rows, axis=0, return_index=True)`: the indices of the first
    occurrence of each distinct row, listed in increasing lexicographic order
    of the rows (numpy sorts stably when first indices are asked for, so the
    first occurrence of a run of equal rows is the one reported). */
module NumpyUnique {
  import opened Graph

  /** numpy's order on two-column rows: by x, then by y. */
  predicate RowLess(a: Pt, b: Pt)
  {
    a.x < b.x || (a.x == b.x && a.y < b.y)
  }

  predicate InRange(rows: seq<Pt>, inds: seq<nat>)
  {
    forall k :: 0 <= k < |inds| ==> inds[k] < |rows|
  }

  predicate StrictlySorted(rows: seq<Pt>, inds: seq<nat>)
    requires InRange(rows, inds)
  {
    forall a, b :: 0 <= a < b < |inds| ==> RowLess(rows[inds[a]], rows[inds[b]])
  }

  /** Row i does not occur earlier in `rows`. */
  predicate IsFirst(rows: seq<Pt>, i: nat)
    requires i < |rows|
  {
    rows[i] !in rows[..i]
  }

  /** `rows[inds]`. */
  function Select(rows: seq<Pt>, inds: seq<nat>): (r: seq<Pt>)
    requires InRange(rows, inds)
    ensures |r| == |inds|
    ensures forall k :: 0 <= k < |inds| ==> r[k] == rows[inds[k]]
  {
    seq(|inds|, k requires 0 <= k < |inds| => rows[inds[k]])
  }

  /** Insert index i into an index list sorted by row, keeping it sorted. */
  function Insert(rows: seq<Pt>, inds: seq<nat>, i: nat): (r: seq<nat>)
    requires InRange(rows, inds) && StrictlySorted(rows, inds) && i < |rows|
    requires forall k :: 0 <= k < |inds| ==> rows[inds[k]] != rows[i]
    ensures InRange(rows, r) && StrictlySorted(rows, r)
    ensures |r| == |inds| + 1
    ensures forall j :: j in r <==> j in inds || j == i
    decreases |inds|
  {
    if inds == [] || RowLess(rows[i], rows[inds[0]]) then [i] + inds
    else
      var rest := Insert(rows, inds[1..], i);
      assert forall b :: 0 <= b < |rest| ==> RowLess(rows[inds[0]], rows[rest[b]]) by {
        forall b | 0 <= b < |rest|
          ensures RowLess(rows[inds[0]], rows[rest[b]])
        {
          assert rest[b] in rest;
          if rest[b] != i {
            var c :| 0 <= c < |inds[1..]| && inds[1..][c] == rest[b];
            assert inds[c + 1] == rest[b];
          }
        }
      }
      [inds[0]] + rest
  }

  /** The unique indices of the prefix `rows[..n]`. */
  function UniquePrefix(rows: seq<Pt>, n: nat): (r: seq<nat>)
    requires n <= |rows|
    ensures InRange(rows, r) && StrictlySorted(rows, r)
    ensures forall k :: 0 <= k < |r| ==> r[k] < n && IsFirst(rows, r[k])
    ensures forall i :: 0 <= i < n && IsFirst(rows, i) ==> i in r
    decreases n
  {
    if n == 0 then []
    else
      var r := UniquePrefix(rows, n - 1);
      if rows[n - 1] in rows[..n - 1] then r
      else
        assert forall k :: 0 <= k < |r| ==> rows[r[k]] != rows[n - 1] by {
          forall k | 0 <= k < |r| ensures rows[r[k]] != rows[n - 1] {
            assert rows[..n - 1][r[k]] == rows[r[k]];
          }
        }
        var r' := Insert(rows, r, n - 1);
        assert forall k :: 0 <= k < |r'| ==> r'[k] < n && IsFirst(rows, r'[k]) by {
          forall k | 0 <= k < |r'| ensures r'[k] < n && IsFirst(rows, r'[k]) {
            assert r'[k] in r';
          }
        }
        r'
  }

  /** `_, inds = onp.unique(rows, axis=0, return_index=True)`. */
  function Unique(rows: seq<Pt>): (inds: seq<nat>)
    ensures InRange(rows, inds) && StrictlySorted(rows, inds)
    ensures forall k :: 0 <= k < |inds| ==> IsFirst(rows, inds[k])
    ensures forall i :: 0 <= i < |rows| && IsFirst(rows, i) ==> i in inds
  {
    UniquePrefix(rows, |rows|)
  }

  /** Row i's first occurrence. */
  lemma {:induction false} FirstIndexOf(rows: seq<Pt>, i: nat) returns (j: nat)
    requires i < |rows|
    ensures j <= i && rows[j] == rows[i] && IsFirst(rows, j)
    decreases i
  {
    if rows[i] !in rows[..i] {
      j := i;
    } else {
      var k :| 0 <= k < i && rows[..i][k] == rows[i];
      j := FirstIndexOf(rows, k);
    }
  }

  /** Each row of the input is represented in the unique rows: unique only
      drops repeats. */
  lemma UniqueCovers(rows: seq<Pt>, i: nat)
    requires i < |rows|
    ensures rows[i] in Select(rows, Unique(rows))
  {
    var inds := Unique(rows);
    var j := FirstIndexOf(rows, i);
    var k :| 0 <= k < |inds| && inds[k] == j;
    assert Select(rows, inds)[k] == rows[i];
  }

  /** The rows picked by unique are pairwise different, and so are their indices. */
  lemma UniqueDistinct(rows: seq<Pt>)
    ensures forall a, b :: 0 <= a < b < |Unique(rows)| ==>
      rows[Unique(rows)[a]] != rows[Unique(rows)[b]] && Unique(rows)[a] != Unique(rows)[b]
  {
    var inds := Unique(rows);
    forall a, b | 0 <= a < b < |inds|
      ensures rows[inds[a]] != rows[inds[b]] && inds[a] != inds[b]
    {
      assert RowLess(rows[inds[a]], rows[inds[b]]);
    }
  }
}
