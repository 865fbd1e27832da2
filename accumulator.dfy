/** `_merge(a, b)` of sift_fixed_lag.py: the fixed-lag smoother forgets
    variables that leave its window, so each step's estimate is folded into a
    result that only ever gains or overwrites entries. */
module Accumulator {
  import opened Graph

  /** What `a` holds after `_merge(a, b)`. */
  function Merged(a: map<Key, Value>, b: map<Key, Value>): (r: map<Key, Value>)
    ensures r.Keys == a.Keys + b.Keys
    ensures forall k :: k in b ==> r[k] == b[k]
    ensures forall k :: k in a && k !in b ==> r[k] == a[k]
  {
    a + b
  }

  /** The merge loop: every key of `b` is updated if `a` has it and inserted
      otherwise; no key is removed. */
  method Merge(a: map<Key, Value>, b: map<Key, Value>) returns (r: map<Key, Value>)
    ensures r == Merged(a, b)
  {
    r := a;
    var keys := b.Keys;
    while keys != {}
      invariant keys <= b.Keys
      invariant r.Keys == a.Keys + (b.Keys - keys)
      invariant forall k :: k in b && k !in keys ==> r[k] == b[k]
      invariant forall k :: k in a && (k !in b || k in keys) ==> r[k] == a[k]
      decreases keys
    {
      var k :| k in keys;
      var v := b[k];
      if k in r {
        r := r[k := v];   // a.update(k, v)
      } else {
        r := r[k := v];   // a.insert(k, v)
      }
      keys := keys - {k};
    }
    assert r.Keys == Merged(a, b).Keys;
  }

  /** Merging the same estimate a second time changes nothing. */
  lemma MergeIdempotent(a: map<Key, Value>, b: map<Key, Value>)
    ensures Merged(Merged(a, b), b) == Merged(a, b)
  {
    var once := Merged(a, b);
    var twice := Merged(once, b);
    assert twice.Keys == once.Keys;
    assert forall k :: k in twice ==> twice[k] == once[k];
  }

  /** Merging never forgets a key, and later estimates win: after merging
      b1 and then b2, a key of b2 holds b2's value, a key of b1 only holds
      b1's value, and any other key keeps its original value. */
  lemma MergeSequence(a: map<Key, Value>, b1: map<Key, Value>, b2: map<Key, Value>)
    ensures a.Keys <= Merged(Merged(a, b1), b2).Keys
    ensures forall k :: k in b2 ==> Merged(Merged(a, b1), b2)[k] == b2[k]
    ensures forall k :: k in b1 && k !in b2 ==> Merged(Merged(a, b1), b2)[k] == b1[k]
    ensures forall k :: k in a && k !in b1 && k !in b2 ==> Merged(Merged(a, b1), b2)[k] == a[k]
  {
  }
}
