/**
 * Bounded autocorrelation (librosa/__init__.py, `autocorrelate`): the full
 * convolution of x with x reversed, of which the second half (from index
 * len / 2, Python 2 integer division) is kept and optionally truncated to
 * max_size lags.  The convolution is stated exactly, as the sum it computes;
 * the FFT route scipy takes to it is not part of this model.
 */
module Autocorrelation {
  import opened Base

  function Reverse(x: seq<real>): (r: seq<real>)
    ensures |r| == |x| && forall j :: 0 <= j < |x| ==> r[j] == x[|x| - 1 - j]
  {
    seq(|x|, j requires 0 <= j < |x| => x[|x| - 1 - j])
  }

  /** Partial sum over j < i of a[j] * b[m - j], with b taken as 0 outside its range. */
  function ConvAt(a: seq<real>, b: seq<real>, m: int, i: nat): real
    requires i <= |a|
  {
    if i == 0 then 0.0
    else
      var j := i - 1;
      ConvAt(a, b, m, j) + (if 0 <= m - j < |b| then a[j] * b[m - j] else 0.0)
  }

  /** Full linear convolution: |a| + |b| - 1 values, none when either input is empty. */
  function FullConvolution(a: seq<real>, b: seq<real>): (c: seq<real>)
    ensures |a| > 0 && |b| > 0 ==> |c| == |a| + |b| - 1
    ensures |a| == 0 || |b| == 0 ==> c == []
  {
    if |a| == 0 || |b| == 0 then []
    else seq(|a| + |b| - 1, m requires 0 <= m < |a| + |b| - 1 => ConvAt(a, b, m, |a|))
  }

  /** Sum over j < m of x[j] * x[j + k]: the first m products at lag k. */
  function LagPrefix(x: seq<real>, k: nat, m: nat): real
    requires m + k <= |x|
  {
    if m == 0 then 0.0 else LagPrefix(x, k, m - 1) + x[m - 1] * x[m - 1 + k]
  }

  /** The autocorrelation at lag k: sum over j < n - k of x[j] * x[j + k]. */
  function LagSum(x: seq<real>, k: nat): real
    requires k <= |x|
  {
    LagPrefix(x, k, |x| - k)
  }

  /** Index n - 1 + k of x convolved with reverse(x) accumulates the lag-k products from j = k on. */
  lemma {:induction false} ConvAtPositiveLag(x: seq<real>, k: nat, i: nat)
    requires k < |x| && i <= |x|
    ensures ConvAt(x, Reverse(x), |x| - 1 + k, i) == if i <= k then 0.0 else LagPrefix(x, k, i - k)
  {
    if i > 0 {
      ConvAtPositiveLag(x, k, i - 1);
    }
  }

  /** Index n - 1 - k accumulates the same lag-k products, from j = 0 up to n - k. */
  lemma {:induction false} ConvAtNegativeLag(x: seq<real>, k: nat, i: nat)
    requires k < |x| && i <= |x|
    ensures ConvAt(x, Reverse(x), |x| - 1 - k, i) == LagPrefix(x, k, Min(i, |x| - k))
  {
    if i > 0 {
      ConvAtNegativeLag(x, k, i - 1);
    }
  }

  /**
   * The full convolution of x with its reverse is symmetric about index
   * n - 1 and holds lag k at n - 1 + k: the half that is dropped repeats the
   * half that is kept.
   */
  lemma FullAutocorrelation(x: seq<real>)
    requires |x| > 0
    ensures var c := FullConvolution(x, Reverse(x));
      |c| == 2 * |x| - 1 &&
      forall k :: 0 <= k < |x| ==> c[|x| - 1 + k] == LagSum(x, k) && c[|x| - 1 - k] == LagSum(x, k)
  {
    var n, rx := |x|, Reverse(x);
    var c := FullConvolution(x, rx);
    forall k | 0 <= k < n
      ensures c[n - 1 + k] == LagSum(x, k) && c[n - 1 - k] == LagSum(x, k)
    {
      assert c[n - 1 + k] == ConvAt(x, rx, n - 1 + k, n);
      ConvAtPositiveLag(x, k, n);
      assert c[n - 1 - k] == ConvAt(x, rx, n - 1 - k, n);
      ConvAtNegativeLag(x, k, n);
    }
  }

  /** The slice from len / 2 holds exactly lags 0 .. n - 1 (and is empty for an empty x). */
  lemma CausalHalf(x: seq<real>)
    ensures var full := FullConvolution(x, Reverse(x));
      |full[|full| / 2..]| == |x| &&
      forall k :: 0 <= k < |x| ==> full[|full| / 2..][k] == LagSum(x, k)
  {
    if |x| > 0 {
      FullAutocorrelation(x);
    }
  }

  /**
   * autocorrelate(x, max_size): one value per lag 0 .. n - 1, each the exact
   * lag sum, cut to the first max_size lags when max_size is given.
   */
  function Autocorrelate(x: seq<real>, maxSize: Option<nat>): (r: seq<real>)
    ensures |r| == if maxSize.Some? then Min(maxSize.value, |x|) else |x|
    ensures forall k :: 0 <= k < |r| ==> k < |x| && r[k] == LagSum(x, k)
  {
    var full := FullConvolution(x, Reverse(x));
    var half := full[|full| / 2..];
    CausalHalf(x);
    if maxSize.None? then half else half[..Min(maxSize.value, |half|)]
  }

  lemma {:induction false} SquaresNonNegative(x: seq<real>, m: nat)
    requires m <= |x|
    ensures LagPrefix(x, 0, m) >= 0.0
  {
    if m > 0 {
      SquaresNonNegative(x, m - 1);
      assert x[m - 1] * x[m - 1] >= 0.0;
    }
  }

  /** Lag 0 is the energy of x, the sum of its squares, and so never negative. */
  lemma LagZeroIsEnergy(x: seq<real>, maxSize: Option<nat>)
    requires |x| > 0 && (maxSize.None? || maxSize.value > 0)
    ensures Autocorrelate(x, maxSize)[0] == LagPrefix(x, 0, |x|) >= 0.0
  {
    SquaresNonNegative(x, |x|);
  }

  /** max_size only cuts: the bounded result is a prefix of the unbounded one. */
  lemma TruncationIsPrefix(x: seq<real>, maxSize: nat)
    ensures Autocorrelate(x, Some(maxSize)) == Autocorrelate(x, None)[..Min(maxSize, |x|)]
  {
    var a := Autocorrelate(x, Some(maxSize));
    var b := Autocorrelate(x, None);
    assert forall k :: 0 <= k < |a| ==> a[k] == b[k];
  }

  /** autocorrelate([1, 2, 3]) == [14, 8, 3]. */
  lemma AutocorrelateExample()
    ensures Autocorrelate([1.0, 2.0, 3.0], None) == [14.0, 8.0, 3.0]
  {
    var x := [1.0, 2.0, 3.0];
    var r := Autocorrelate(x, None);
    assert LagPrefix(x, 0, 3) == 14.0;
    assert LagPrefix(x, 1, 2) == 8.0;
    assert LagPrefix(x, 2, 1) == 3.0;
    assert r[0] == 14.0 && r[1] == 8.0 && r[2] == 3.0;
  }
}
