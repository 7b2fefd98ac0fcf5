/** Order-preserving selection from a sequence, as JavaScript's Array.prototype.filter does it. */
module Seqs {

  /** The elements of `s` that satisfy `p`, in their original order. */
  function Filter<T>(p: T -> bool, s: seq<T>): (r: seq<T>)
    ensures |r| <= |s|
    ensures forall i :: 0 <= i < |r| ==> p(r[i])
    ensures forall x :: x in r ==> x in s
  {
    if s == [] then []
    else if p(s[0]) then [s[0]] + Filter(p, s[1..])
    else Filter(p, s[1..])
  }

  /** Adds one to every index (the positions of `s[1..]` seen from `s`). */
  function Shifted(idx: seq<nat>): (r: seq<nat>)
    ensures |r| == |idx|
    ensures forall k :: 0 <= k < |r| ==> r[k] == idx[k] + 1
  {
    seq(|idx|, k requires 0 <= k < |idx| => idx[k] + 1)
  }

  /** The positions of `s` whose element satisfies `p`, in increasing order. */
  function KeptIndices<T>(p: T -> bool, s: seq<T>): (idx: seq<nat>)
    ensures |idx| == |Filter(p, s)|
  {
    if s == [] then []
    else if p(s[0]) then [0] + Shifted(KeptIndices(p, s[1..]))
    else Shifted(KeptIndices(p, s[1..]))
  }

  /** Each kept position is in range and holds the matching element of the filtered result. */
  lemma {:induction false} KeptIndicesSelect<T>(p: T -> bool, s: seq<T>)
    ensures forall k :: 0 <= k < |KeptIndices(p, s)| ==>
      KeptIndices(p, s)[k] < |s| && Filter(p, s)[k] == s[KeptIndices(p, s)[k]]
  {
    if s != [] {
      var tail := s[1..];
      KeptIndicesSelect(p, tail);
      var inner := KeptIndices(p, tail);
      var idx := KeptIndices(p, s);
      var r := Filter(p, s);
      if p(s[0]) {
        assert idx == [0] + Shifted(inner);
        assert r == [s[0]] + Filter(p, tail);
        forall k | 0 < k < |idx| ensures idx[k] < |s| && r[k] == s[idx[k]] {
          assert idx[k] == inner[k - 1] + 1;
          assert r[k] == Filter(p, tail)[k - 1];
        }
      } else {
        forall k | 0 <= k < |idx| ensures idx[k] < |s| && r[k] == s[idx[k]] {
          assert idx[k] == inner[k] + 1;
        }
      }
    }
  }

  /** The kept positions are strictly increasing, so the filtered order is the original one. */
  lemma {:induction false} KeptIndicesIncreasing<T>(p: T -> bool, s: seq<T>)
    ensures forall k, l :: 0 <= k < l < |KeptIndices(p, s)| ==> KeptIndices(p, s)[k] < KeptIndices(p, s)[l]
  {
    if s != [] {
      KeptIndicesIncreasing(p, s[1..]);
      var inner := KeptIndices(p, s[1..]);
      var idx := KeptIndices(p, s);
      if p(s[0]) {
        forall k, l | 0 <= k < l < |idx| ensures idx[k] < idx[l] {
          assert idx[l] == inner[l - 1] + 1;
          if k > 0 {
            assert idx[k] == inner[k - 1] + 1;
          }
        }
      }
    }
  }

  /** A position is kept exactly when its element satisfies the predicate. */
  lemma {:induction false} KeptIndicesExact<T>(p: T -> bool, s: seq<T>)
    ensures forall j :: 0 <= j < |s| ==> (p(s[j]) <==> j in KeptIndices(p, s))
  {
    if s != [] {
      var tail := s[1..];
      KeptIndicesExact(p, tail);
      var inner := KeptIndices(p, tail);
      var rest := Shifted(inner);
      forall j | 1 <= j < |s| ensures p(s[j]) <==> j in rest {
        assert s[j] == tail[j - 1];
        if j in rest {
          var k :| 0 <= k < |rest| && rest[k] == j;
          assert inner[k] == j - 1;
        }
      }
      var idx := KeptIndices(p, s);
      if p(s[0]) {
        assert idx == [0] + rest;
        forall j | 0 <= j < |s| ensures p(s[j]) <==> j in idx {
          if j > 0 {
            assert j in rest <==> j in idx;
          }
        }
      } else {
        assert forall k :: 0 <= k < |rest| ==> rest[k] >= 1;
        assert 0 !in idx;
      }
    }
  }

  /**
   * Filter(p, s) is the subsequence of `s` at the positions KeptIndices(p, s): they are
   * strictly increasing, in range, and are exactly the positions whose element passes.
   */
  lemma FilterIsSubsequence<T>(p: T -> bool, s: seq<T>)
    ensures var idx := KeptIndices(p, s);
      && |idx| == |Filter(p, s)|
      && (forall k :: 0 <= k < |idx| ==> idx[k] < |s| && Filter(p, s)[k] == s[idx[k]])
      && (forall k, l :: 0 <= k < l < |idx| ==> idx[k] < idx[l])
      && (forall j :: 0 <= j < |s| ==> (p(s[j]) <==> j in idx))
  {
    KeptIndicesSelect(p, s);
    KeptIndicesIncreasing(p, s);
    KeptIndicesExact(p, s);
  }

  /** Filtering a sequence whose every element passes gives it back unchanged. */
  lemma {:induction false} FilterKeepsAll<T>(p: T -> bool, s: seq<T>)
    requires forall i :: 0 <= i < |s| ==> p(s[i])
    ensures Filter(p, s) == s
  {
    if s != [] {
      FilterKeepsAll(p, s[1..]);
    }
  }

  /** Filtering twice with the same predicate is filtering once. */
  lemma FilterIdempotent<T>(p: T -> bool, s: seq<T>)
    ensures Filter(p, Filter(p, s)) == Filter(p, s)
  {
    FilterKeepsAll(p, Filter(p, s));
  }

  /** When no element passes, nothing is kept. */
  lemma {:induction false} FilterDropsAll<T>(p: T -> bool, s: seq<T>)
    requires forall i :: 0 <= i < |s| ==> !p(s[i])
    ensures Filter(p, s) == []
  {
    if s != [] {
      FilterDropsAll(p, s[1..]);
    }
  }

  /** Filtering a concatenation filters each part. */
  lemma {:induction false} FilterConcat<T>(p: T -> bool, a: seq<T>, b: seq<T>)
    ensures Filter(p, a + b) == Filter(p, a) + Filter(p, b)
  {
    if a == [] {
      assert a + b == b;
    } else {
      assert (a + b)[0] == a[0];
      assert (a + b)[1..] == a[1..] + b;
      FilterConcat(p, a[1..], b);
    }
  }
}
