/**
 * Local maxima of a vector (librosa/__init__.py, `localmax`): x is compared
 * with itself shifted right (the first value repeated) and shifted left (the
 * last value repeated); a position fires when it is strictly above its left
 * neighbour and at least its right neighbour.  So the left edge never fires
 * and the right edge fires exactly when it rises above its predecessor.
 */
module LocalMaxima {
  import opened Base

  /** numpy.hstack([x[0], x[:-1]]): x delayed by one, the first value repeated. */
  function ShiftedRight(x: seq<real>): (s: seq<real>)
    requires |x| > 0
    ensures |s| == |x| && s[0] == x[0] && forall i :: 0 < i < |x| ==> s[i] == x[i - 1]
  {
    [x[0]] + x[..|x| - 1]
  }

  /** numpy.hstack([x[1:], x[-1]]): x advanced by one, the last value repeated. */
  function ShiftedLeft(x: seq<real>): (s: seq<real>)
    requires |x| > 0
    ensures |s| == |x| && s[|x| - 1] == x[|x| - 1] && forall i :: 0 <= i < |x| - 1 ==> s[i] == x[i + 1]
  {
    x[1..] + [x[|x| - 1]]
  }

  /**
   * localmax(x): an empty x fails on x[0]; otherwise one flag per position.
   * Position 0 never fires, an interior position fires iff it is strictly
   * above its left neighbour and at least its right one, and the last
   * position fires iff it is strictly above its left neighbour.
   */
  function LocalMax(x: seq<real>): (r: Result<seq<bool>>)
    ensures r.Err? <==> |x| == 0
    ensures r.Err? ==> r.error == EmptyInput
    ensures r.Ok? ==>
      |r.value| == |x| && !r.value[0] &&
      (forall i :: 0 < i < |x| - 1 ==> (r.value[i] <==> x[i - 1] < x[i] && x[i + 1] <= x[i])) &&
      (|x| >= 2 ==> (r.value[|x| - 1] <==> x[|x| - 2] < x[|x| - 1]))
  {
    if |x| == 0 then Err(EmptyInput)
    else
      var left := ShiftedRight(x);
      var right := ShiftedLeft(x);
      Ok(seq(|x|, i requires 0 <= i < |x| => x[i] > left[i] && x[i] >= right[i]))
  }

  /** Two neighbouring positions never both fire. */
  lemma NoAdjacentMaxima(x: seq<real>, i: nat)
    requires |x| > 0 && i + 1 < |x|
    ensures !(LocalMax(x).value[i] && LocalMax(x).value[i + 1])
  {
  }

  /**
   * The first occurrence of the largest value fires, unless it is at
   * position 0.
   */
  lemma FirstMaximumFires(x: seq<real>, m: nat)
    requires 0 < m < |x|
    requires forall j :: 0 <= j < |x| ==> x[j] <= x[m]
    requires forall j :: 0 <= j < m ==> x[j] < x[m]
    ensures LocalMax(x).value[m]
  {
  }

  /** localmax([1, 3, 2]) == [False, True, False]. */
  lemma LocalMaxExample()
    ensures LocalMax([1.0, 3.0, 2.0]) == Ok([false, true, false])
  {
    var r := LocalMax([1.0, 3.0, 2.0]).value;
    assert |r| == 3 && !r[0] && r[1] && !r[2];
    assert r == [false, true, false];
  }

  /** A constant vector fires nowhere, its right edge included. */
  lemma ConstantFiresNowhere(x: seq<real>)
    requires |x| > 0 && forall j :: 0 <= j < |x| ==> x[j] == x[0]
    ensures forall i :: 0 <= i < |x| ==> !LocalMax(x).value[i]
  {
  }
}
