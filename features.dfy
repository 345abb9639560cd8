/**
 * The spectral feature layer (librosa/__init__.py, `melspectrogram` and
 * `logamplitude`): the mel spectrogram as the product of the truncated
 * filterbank with the spectrum magnitudes, and the log-amplitude with its
 * fixed dB floor.  The complex magnitude and log10 are parameters.
 */
module SpectralFeatures {
  import opened Base
  import opened ShortTime
  import opened MelFilterbank

  /** Sum over k of a[k] * b[k], peeled from the end. */
  function Dot(a: seq<real>, b: seq<real>): real
    requires |a| == |b|
  {
    if a == [] then 0.0 else Dot(a[..|a| - 1], b[..|b| - 1]) + a[|a| - 1] * b[|b| - 1]
  }

  lemma {:induction false} DotNonNegative(a: seq<real>, b: seq<real>)
    requires |a| == |b|
    requires forall k :: 0 <= k < |a| ==> a[k] >= 0.0 && b[k] >= 0.0
    ensures Dot(a, b) >= 0.0
  {
    if a != [] {
      DotNonNegative(a[..|a| - 1], b[..|b| - 1]);
      assert a[|a| - 1] * b[|b| - 1] >= 0.0;
    }
  }

  /** numpy.abs of a stored column. */
  function Magnitudes(col: seq<Complex>, magnitude: Complex -> real): seq<real> {
    seq(|col|, k requires 0 <= k < |col| => magnitude(col[k]))
  }

  /** numpy.dot(M[:, :bins], numpy.abs(S)): entry (i, t) is row i of M against column t of |S|. */
  function MelProject(weights: seq<seq<real>>, cols: seq<seq<Complex>>, bins: nat, magnitude: Complex -> real): seq<seq<real>>
    requires forall i :: 0 <= i < |weights| ==> |weights[i]| >= bins
    requires forall t :: 0 <= t < |cols| ==> |cols[t]| == bins
  {
    seq(|weights|, i requires 0 <= i < |weights| =>
      seq(|cols|, t requires 0 <= t < |cols| => Dot(weights[i][..bins], Magnitudes(cols[t], magnitude))))
  }

  /**
   * melspectrogram(y, sr, windowLength, hop, melChannels, width): the STFT
   * with a Hann window as long as the FFT, the filterbank for windowLength
   * restricted to its first windowLength / 2 + 1 columns, and their product.
   * binfreqs are the band edges melfb derives from sr and melChannels.
   */
  function MelSpectrogram(y: seq<real>, sr: real, windowLength: nat, hop: nat, melChannels: nat, width: real,
                          binfreqs: seq<real>, hann: int -> seq<real>, fft: seq<real> -> seq<Complex>,
                          magnitude: Complex -> real): Result<seq<seq<real>>>
    requires LengthPreserving(fft)
    requires ValidEdges(binfreqs, melChannels) && width != 0.0
  {
    var S := StftSpec(y, windowLength, Some(windowLength), Some(hop), hann, fft);
    if S.Err? then Err(S.error)
    else
      var M := MelWeights(sr, windowLength, melChannels, width, binfreqs);
      StftOutcome(y, windowLength, Some(windowLength), Some(hop), hann, fft);
      Ok(MelProject(M, S.value, windowLength / 2 + 1, magnitude))
  }

  /**
   * The mel spectrogram has one row per mel band and one column per STFT
   * frame, and with non-negative magnitudes every entry is non-negative
   * (for either sign of width).
   */
  lemma MelSpectrogramShape(y: seq<real>, sr: real, windowLength: nat, hop: nat, melChannels: nat, width: real,
                            binfreqs: seq<real>, hann: int -> seq<real>, fft: seq<real> -> seq<Complex>,
                            magnitude: Complex -> real)
    requires LengthPreserving(fft)
    requires ValidEdges(binfreqs, melChannels) && width != 0.0
    requires forall z :: magnitude(z) >= 0.0
    ensures var r := MelSpectrogram(y, sr, windowLength, hop, melChannels, width, binfreqs, hann, fft, magnitude);
      r.Ok? ==>
        hop > 0 && |r.value| == melChannels &&
        forall i :: 0 <= i < melChannels ==>
          |r.value[i]| == NumFrames(|y|, windowLength, hop) &&
          forall t :: 0 <= t < |r.value[i]| ==> r.value[i][t] >= 0.0
  {
    var r := MelSpectrogram(y, sr, windowLength, hop, melChannels, width, binfreqs, hann, fft, magnitude);
    if r.Ok? {
      StftOutcome(y, windowLength, Some(windowLength), Some(hop), hann, fft);
      var S := StftSpec(y, windowLength, Some(windowLength), Some(hop), hann, fft).value;
      var M := MelWeights(sr, windowLength, melChannels, width, binfreqs);
      var bins := windowLength / 2 + 1;
      forall i, t | 0 <= i < melChannels && 0 <= t < |S|
        ensures r.value[i][t] >= 0.0
      {
        var row := M[i][..bins];
        forall k | 0 <= k < bins
          ensures row[k] >= 0.0
        {
          MelWeightNonNegative(binfreqs, melChannels, width, sr, windowLength, i, k);
        }
        DotNonNegative(row, Magnitudes(S[t], magnitude));
      }
    }
  }

  /** D[D < t] = t, for one entry. */
  function GainFloor(v: real, t: real): real {
    if v < t then t else v
  }

  /**
   * The floor is absolute: the result is at least t, values already at or
   * above t are kept, lower values become exactly t, and applying it twice is
   * the same as applying it once.
   */
  lemma GainFloorProperties(v: real, t: real)
    ensures GainFloor(v, t) >= t
    ensures v >= t ==> GainFloor(v, t) == v
    ensures v < t ==> GainFloor(v, t) == t
    ensures GainFloor(GainFloor(v, t), t) == GainFloor(v, t)
  {
  }

  /** The threshold step of logamplitude, in place; None disables it. */
  method ApplyGainFloor(D: array2<real>, gainThreshold: Option<real>)
    modifies D
    ensures gainThreshold.None? ==> forall i, j :: 0 <= i < D.Length0 && 0 <= j < D.Length1 ==> D[i, j] == old(D[i, j])
    ensures gainThreshold.Some? ==>
      forall i, j :: 0 <= i < D.Length0 && 0 <= j < D.Length1 ==> D[i, j] == GainFloor(old(D[i, j]), gainThreshold.value)
  {
    if gainThreshold.Some? {
      var t := gainThreshold.value;
      forall i, j | 0 <= i < D.Length0 && 0 <= j < D.Length1 && D[i, j] < t {
        D[i, j] := t;
      }
    }
  }

  /** 20 * log10(max(amin, |s|)), then the floor when it is enabled. */
  function LogAmplitudeAt(s: real, amin: real, gainThreshold: Option<real>, log10: real -> real): real {
    var db := 20.0 * log10(MaxReal(amin, AbsReal(s)));
    if gainThreshold.Some? then GainFloor(db, gainThreshold.value) else db
  }

  /** logamplitude: the dB matrix, computed into a fresh matrix and then floored in place. */
  method LogAmplitude(S: array2<real>, amin: real, gainThreshold: Option<real>, log10: real -> real)
    returns (D: array2<real>)
    ensures fresh(D)
    ensures D.Length0 == S.Length0 && D.Length1 == S.Length1
    ensures forall i, j :: 0 <= i < S.Length0 && 0 <= j < S.Length1 ==>
      D[i, j] == LogAmplitudeAt(S[i, j], amin, gainThreshold, log10)
    ensures gainThreshold.Some? ==>
      forall i, j :: 0 <= i < S.Length0 && 0 <= j < S.Length1 ==> D[i, j] >= gainThreshold.value
  {
    D := new real[S.Length0, S.Length1];
    forall i, j | 0 <= i < S.Length0 && 0 <= j < S.Length1 {
      D[i, j] := 20.0 * log10(MaxReal(amin, AbsReal(S[i, j])));
    }
    ApplyGainFloor(D, gainThreshold);
  }
}
