/**
 * Frame index to time conversion (librosa/__init__.py, `frames_to_time`):
 * frames * float(hop_length) / float(sr), on one frame number or elementwise
 * on a numpy vector of them.  With sr = 0 a plain Python number raises a
 * division by zero, while numpy divides a vector by 0.0 without raising and
 * yields +inf, -inf or NaN by the sign of each numerator.
 */
module FrameTime {
  import opened Base

  const DefaultSampleRate: int := 22050
  const DefaultHopLength: int := 64

  /** The time of one frame, in seconds: t * sr == frame * hop, or the division error. */
  function FramesToTime(frame: int, sr: int, hop: int): (r: Result<real>)
    ensures r.Err? <==> sr == 0
    ensures r.Err? ==> r.error == ZeroDivision
    ensures r.Ok? ==> r.value * (sr as real) == (frame as real) * (hop as real)
  {
    if sr == 0 then Err(ZeroDivision)
    else Ok((frame as real) * (hop as real) / (sr as real))
  }

  /** An IEEE double quotient: a finite value, or what a division by +0.0 produces. */
  datatype Seconds = Finite(value: real) | PosInf | NegInf | NaN

  /** num / +0.0 in IEEE arithmetic: infinite with the numerator's sign, NaN for 0 / 0. */
  function DivideByZero(num: real): Seconds {
    if num > 0.0 then PosInf else if num < 0.0 then NegInf else NaN
  }

  /**
   * The vector form: one entry per frame number.  Where sr != 0 each entry is
   * the scalar time; where sr = 0 numpy does not raise, and an entry is +inf,
   * -inf or NaN as frame * hop is positive, negative or zero.
   */
  function FramesToTimes(frames: seq<int>, sr: int, hop: int): (r: seq<Seconds>)
    ensures |r| == |frames|
    ensures sr != 0 ==> forall i :: 0 <= i < |frames| ==>
      r[i].Finite? && FramesToTime(frames[i], sr, hop) == Ok(r[i].value)
    ensures sr == 0 ==> forall i :: 0 <= i < |frames| ==>
      (r[i] == PosInf <==> frames[i] * hop > 0) &&
      (r[i] == NegInf <==> frames[i] * hop < 0) &&
      (r[i] == NaN <==> frames[i] * hop == 0)
  {
    seq(|frames|, i requires 0 <= i < |frames| =>
      if sr == 0 then DivideByZero((frames[i] as real) * (hop as real))
      else Finite(FramesToTime(frames[i], sr, hop).value))
  }

  /** Consecutive frames are hop / sr seconds apart. */
  lemma FrameSpacing(frame: int, sr: int, hop: int)
    requires sr != 0
    ensures FramesToTime(frame + 1, sr, hop).value - FramesToTime(frame, sr, hop).value == (hop as real) / (sr as real)
  {
    var s := sr as real;
    var t0 := FramesToTime(frame, sr, hop).value;
    var t1 := FramesToTime(frame + 1, sr, hop).value;
    assert (t1 - t0) * s == (hop as real);
  }

  /** With positive sr and hop, later frames map to strictly later times. */
  lemma FramesToTimeMonotone(f1: int, f2: int, sr: int, hop: int)
    requires sr > 0 && hop > 0 && f1 < f2
    ensures FramesToTime(f1, sr, hop).value < FramesToTime(f2, sr, hop).value
  {
    var s := sr as real;
    var t1 := FramesToTime(f1, sr, hop).value;
    var t2 := FramesToTime(f2, sr, hop).value;
    assert (t2 - t1) * s == ((f2 - f1) as real) * (hop as real);
  }

  /** With the default rate and hop, frame 0 is at 0 s and frame 11025 at 32 s. */
  lemma DefaultsExample()
    ensures FramesToTime(0, DefaultSampleRate, DefaultHopLength) == Ok(0.0)
    ensures FramesToTime(11025, DefaultSampleRate, DefaultHopLength) == Ok(32.0)
  {
  }
}
