/**
 * Window padding (librosa/__init__.py, `pad`): a window vector is written at
 * the front of a buffer filled with a constant and, when centred, rotated
 * right by floor((dPad - d) / 2) places.
 */
module Padding {
  import opened Base

  /** numpy.roll: element j of the result is q[(j - shift) mod |q|]. */
  function Roll(q: seq<real>, shift: int): (r: seq<real>)
    ensures |r| == |q|
  {
    if |q| == 0 then [] else seq(|q|, j requires 0 <= j < |q| => q[(j - shift) % |q|])
  }

  /** Where the window starts: floor((dPad - d) / 2) when centred, else 0. */
  function Offset(d: nat, dPad: nat, center: bool): nat
    requires d <= dPad
  {
    if center then (dPad - d) / 2 else 0
  }

  /** The intended layout: w occupies [s, s + |w|) and v fills the rest. */
  function Placed(w: seq<real>, dPad: nat, v: real, s: nat): (q: seq<real>)
    requires s + |w| <= dPad
  {
    seq(dPad, j requires 0 <= j < dPad => if s <= j < s + |w| then w[j - s] else v)
  }

  /** The value `pad(w, dPad, v, center)` returns, or the error it raises. */
  function PadSpec(w: seq<real>, dPad: int, v: real, center: bool): Result<seq<real>> {
    if |w| > dPad then Err(InsufficientPadSpace)
    else
      var s := Offset(|w|, dPad, center);
      Ok(Placed(w, dPad, v, s))
  }

  lemma ModWithin(a: int, n: int)
    requires 0 <= a < n
    ensures a % n == a
  {
  }

  lemma ModBelow(a: int, n: int)
    requires -n <= a < 0
    ensures a % n == a + n
  {
  }

  /** Rolling the front-filled buffer right by s never wraps w around the end. */
  lemma RollPlacesWindow(w: seq<real>, dPad: nat, v: real, s: nat)
    requires s + |w| <= dPad
    ensures Roll(w + Fill(v, dPad - |w|), s) == Placed(w, dPad, v, s)
  {
    var q := w + Fill(v, dPad - |w|);
    var r := Roll(q, s);
    var p := Placed(w, dPad, v, s);
    assert |r| == |p|;
    forall j | 0 <= j < dPad
      ensures r[j] == p[j]
    {
      if j < s {
        ModBelow(j - s, dPad);
        assert q[j - s + dPad] == v;
      } else {
        ModWithin(j - s, dPad);
      }
    }
  }

  /**
   * pad: fails exactly when the window does not fit; otherwise the result has
   * length dPad, holds w at [s, s + |w|) and v everywhere else.
   */
  method Pad(w: seq<real>, dPad: int, v: real, center: bool) returns (r: Result<seq<real>>)
    ensures r.Err? <==> |w| > dPad
    ensures r.Err? ==> r.error == InsufficientPadSpace
    ensures r.Ok? ==> |r.value| == dPad
    ensures r.Ok? ==> forall j :: 0 <= j < dPad ==>
      var s := Offset(|w|, dPad, center);
      r.value[j] == if s <= j < s + |w| then w[j - s] else v
    ensures r == PadSpec(w, dPad, v, center)
  {
    var d := |w|;
    if d > dPad {
      return Err(InsufficientPadSpace);
    }
    var q := new real[dPad](_ => v);
    forall k | 0 <= k < d {
      q[k] := w[k];
    }
    ghost var front := w + Fill(v, dPad - d);
    assert q[..] == front by {
      assert forall k :: 0 <= k < dPad ==> q[k] == front[k];
    }
    var s := Offset(d, dPad, center);
    if center {
      RollPlacesWindow(w, dPad, v, s);
      r := Ok(Roll(q[..], s));
    } else {
      assert q[..] == Placed(w, dPad, v, 0);
      r := Ok(q[..]);
    }
    assert r.value == Placed(w, dPad, v, s);
  }
}
