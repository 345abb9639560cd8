/**
 * Frame-synchronous aggregation (librosa/__init__.py, `feature_sync`): the
 * boundary frames are completed with 0 and T, sorted and made unique, and one
 * output column is aggregated from each segment [lb, ub) of consecutive
 * boundaries, with lb carried from one segment to the next.
 */
module FrameSync {
  import opened Base

  /** Insert x into a strictly increasing sequence, dropping it if present. */
  function Insert(x: int, r: seq<int>): (r': seq<int>)
    requires StrictlyIncreasing(r)
    ensures StrictlyIncreasing(r')
    ensures forall v :: v in r' <==> v == x || v in r
  {
    if r == [] then [x]
    else if x < r[0] then [x] + r
    else if x == r[0] then r
    else
      var rest := Insert(x, r[1..]);
      var out := [r[0]] + rest;
      assert r == [r[0]] + r[1..];
      assert forall k :: 0 <= k < |rest| ==> r[0] < rest[k] by {
        forall k | 0 <= k < |rest|
          ensures r[0] < rest[k]
        {
          assert rest[k] in rest;
        }
      }
      assert forall k :: 0 < k < |out| ==> out[k] == rest[k - 1];
      out
  }

  /** numpy.unique: the distinct values of s in increasing order. */
  function Unique(s: seq<int>): (r: seq<int>)
    ensures StrictlyIncreasing(r)
    ensures forall v :: v in r <==> v in s
  {
    if s == [] then [] else Insert(s[0], Unique(s[1..]))
  }

  /** A strictly increasing list holding lo and hi, with every value in [lo, hi], runs from lo to hi. */
  lemma Endpoints(B: seq<int>, lo: int, hi: int)
    requires StrictlyIncreasing(B) && lo in B && hi in B
    requires forall k :: 0 <= k < |B| ==> lo <= B[k] <= hi
    ensures |B| >= 1 && B[0] == lo && B[|B| - 1] == hi
  {
    var zl :| 0 <= zl < |B| && B[zl] == lo;
    var zh :| 0 <= zh < |B| && B[zh] == hi;
    assert B[0] <= B[zl] && B[zh] <= B[|B| - 1];
  }

  /**
   * numpy.unique(concatenate(([0], F, [T]))): with every boundary in [0, T],
   * a strictly increasing list from 0 to T whose values are 0, T and those of F.
   */
  function SyncBoundaries(F: seq<int>, T: nat): (B: seq<int>)
    requires forall k :: 0 <= k < |F| ==> 0 <= F[k] <= T
    ensures StrictlyIncreasing(B)
    ensures |B| >= 1 && B[0] == 0 && B[|B| - 1] == T
    ensures forall v :: v in B <==> v == 0 || v == T || v in F
  {
    var all := [0] + F + [T];
    assert forall v :: v in all <==> v == 0 || v == T || v in F;
    var B := Unique(all);
    assert forall k :: 0 <= k < |B| ==> 0 <= B[k] <= T by {
      forall k | 0 <= k < |B|
        ensures 0 <= B[k] <= T
      {
        assert B[k] in all;
      }
    }
    Endpoints(B, 0, T);
    B
  }

  /** A sample c below B[hi] and at or above B[0] falls in one of the first hi segments. */
  lemma {:induction false} FindSegment(B: seq<int>, c: int, hi: nat)
    requires 0 < hi < |B| && B[0] <= c < B[hi]
    ensures exists i :: 0 <= i < hi && InSegment(B, i, c)
  {
    if B[hi - 1] > c {
      FindSegment(B, c, hi - 1);
    } else {
      assert InSegment(B, hi - 1, c);
    }
  }

  /** Column c falls in segment i: B[i] <= c < B[i + 1]. */
  predicate InSegment(B: seq<int>, i: int, c: int) {
    0 <= i < |B| - 1 && B[i] <= c < B[i + 1]
  }

  /**
   * Every column c of [0, T) lies in exactly one segment, and segments are
   * non-empty: the output columns partition the input columns.
   */
  lemma SegmentOf(F: seq<int>, T: nat, c: int)
    requires forall k :: 0 <= k < |F| ==> 0 <= F[k] <= T
    requires 0 <= c < T
    ensures var B := SyncBoundaries(F, T);
      (exists i :: InSegment(B, i, c)) &&
      forall i, j :: InSegment(B, i, c) && InSegment(B, j, c) ==> i == j
  {
    var B := SyncBoundaries(F, T);
    FindSegment(B, c, |B| - 1);
  }

  /** The boundaries of the worked example: frames [3, 7] of a 10-column matrix give segments [0,3), [3,7), [7,10). */
  lemma SyncBoundariesExample()
    ensures SyncBoundaries([3, 7], 10) == [0, 3, 7, 10]
  {
    assert [0] + [3, 7] + [10] == [0, 3, 7, 10];
    assert Unique([]) == [];
    assert [10][1..] == [];
    assert Unique([10]) == Insert(10, []) == [10];
    assert [7, 10][1..] == [10];
    assert Unique([7, 10]) == Insert(7, [10]) == [7, 10];
    assert [3, 7, 10][1..] == [7, 10];
    assert Unique([3, 7, 10]) == Insert(3, [7, 10]) == [3, 7, 10];
    assert [0, 3, 7, 10][1..] == [3, 7, 10];
    assert Unique([0, 3, 7, 10]) == Insert(0, [3, 7, 10]) == [0, 3, 7, 10];
  }

  /** X[r, lb:ub] */
  function RowSlice(X: array2<real>, r: nat, lb: nat, ub: nat): (s: seq<real>)
    reads X
    requires r < X.Length0 && lb <= ub <= X.Length1
    ensures |s| == ub - lb
  {
    seq(ub - lb, c requires 0 <= c < ub - lb reads X => X[r, lb + c])
  }

  /**
   * feature_sync: Y has X's rows and one column per segment, and entry (r, i)
   * aggregates row r of X over the i-th segment.
   */
  method FeatureSync(X: array2<real>, F: seq<int>, agg: seq<real> -> real) returns (Y: array2<real>)
    requires forall k :: 0 <= k < |F| ==> 0 <= F[k] <= X.Length1
    ensures fresh(Y)
    ensures var B := SyncBoundaries(F, X.Length1);
      Y.Length0 == X.Length0 && Y.Length1 == |B| - 1 &&
      forall r, i :: 0 <= r < X.Length0 && 0 <= i < |B| - 1 ==>
        0 <= B[i] < B[i + 1] <= X.Length1 && Y[r, i] == agg(RowSlice(X, r, B[i], B[i + 1]))
  {
    var B := SyncBoundaries(F, X.Length1);
    Y := new real[X.Length0, |B| - 1]((_, _) => 0.0);
    var lb := B[0];
    for i := 0 to |B| - 1
      invariant lb == B[i]
      invariant forall r, i' :: 0 <= r < X.Length0 && 0 <= i' < i ==>
        0 <= B[i'] < B[i' + 1] <= X.Length1 && Y[r, i'] == agg(RowSlice(X, r, B[i'], B[i' + 1]))
    {
      var ub := B[i + 1];
      assert 0 <= lb < ub <= X.Length1 by {
        assert B[0] <= lb && ub <= B[|B| - 1];
      }
      forall r | 0 <= r < X.Length0 {
        Y[r, i] := agg(RowSlice(X, r, lb, ub));
      }
      lb := ub;
    }
  }

  /**
   * feature_sync with its default aggregator numpy.mean: entry (r, i) of the
   * new matrix is the sum of row r over the i-th segment divided by the
   * segment's (non-zero) length.
   */
  method FeatureSyncMean(X: array2<real>, F: seq<int>) returns (Y: array2<real>)
    requires forall k :: 0 <= k < |F| ==> 0 <= F[k] <= X.Length1
    ensures fresh(Y)
    ensures var B := SyncBoundaries(F, X.Length1);
      Y.Length0 == X.Length0 && Y.Length1 == |B| - 1 &&
      forall r, i :: 0 <= r < X.Length0 && 0 <= i < |B| - 1 ==>
        0 <= B[i] < B[i + 1] <= X.Length1 &&
        Y[r, i] == Sum(RowSlice(X, r, B[i], B[i + 1])) / ((B[i + 1] - B[i]) as real)
  {
    Y := FeatureSync(X, F, Mean);
  }
}
