/**
 * Forward short-time Fourier transform (librosa/__init__.py, `stft`): the
 * default arguments, the frame grid, and the column-by-column fill of the
 * spectrum matrix.  The FFT itself is numpy's and is a parameter here; the
 * Hann window of a given length is scipy's and is a parameter too.
 */
module ShortTime {
  import opened Base
  import opened Padding

  /** numpy.fft.fft returns as many coefficients as it is given samples. */
  ghost predicate LengthPreserving(fft: seq<real> -> seq<Complex>) {
    forall u :: |fft(u)| == |u|
  }

  /** Rows of the spectrum matrix: the non-negative frequency bins. */
  function NumBins(nFft: nat): nat {
    1 + nFft / 2
  }

  /** Columns of the spectrum matrix, with Python 2's flooring integer division. */
  function NumFrames(n: nat, nFft: nat, hop: nat): int
    requires hop > 0
  {
    1 + (n - nFft) / hop
  }

  /** The analysis window: all ones for hannW = 0, else the Hann window centred in nFft samples. */
  function AnalysisWindow(nFft: nat, hannW: nat, hann: int -> seq<real>): (r: Result<seq<real>>)
    ensures r.Ok? ==> |r.value| == nFft
  {
    if hannW == 0 then Ok(Fill(1.0, nFft)) else PadSpec(hann(hannW), nFft, 0.0, true)
  }

  /** window * y[b : b + |window|], elementwise. */
  function Frame(y: seq<real>, window: seq<real>, b: nat): seq<real>
    requires b + |window| <= |y|
  {
    seq(|window|, k requires 0 <= k < |window| => window[k] * y[b + k])
  }

  /** A stored column: the conjugates of the first `bins` coefficients. */
  function SpectrumColumn(t: seq<Complex>, bins: nat): seq<Complex>
    requires bins <= |t|
  {
    seq(bins, j requires 0 <= j < bins => Conj(t[j]))
  }

  lemma DivisionBounds(a: int, h: int)
    requires h > 0
    ensures (a / h) * h <= a < (a / h) * h + h
  {
  }

  lemma MulMonotone(i: int, q: int, h: int)
    requires i <= q && h >= 0
    ensures i * h <= q * h
  {
    assert q * h - i * h == (q - i) * h;
  }

  /** Every frame of the grid lies inside the signal. */
  lemma FrameInBounds(n: nat, nFft: nat, hop: nat, i: nat)
    requires hop > 0 && i < NumFrames(n, nFft, hop)
    ensures i * hop + nFft <= n
  {
    var q := (n - nFft) / hop;
    DivisionBounds(n - nFft, hop);
    MulMonotone(i, q, hop);
  }

  /** Column i of the spectrum, computed from frame i alone. */
  function StftColumn(y: seq<real>, window: seq<real>, hop: nat, i: nat, fft: seq<real> -> seq<Complex>): seq<Complex>
    requires LengthPreserving(fft)
    requires hop > 0 && 0 < |window| && i < NumFrames(|y|, |window|, hop)
  {
    FrameInBounds(|y|, |window|, hop, i);
    SpectrumColumn(fft(Frame(y, window, i * hop)), NumBins(|window|))
  }

  /** The columns `stft(y, sr, nFft, hannW, hop)` returns, or the error it raises. */
  function StftSpec(y: seq<real>, nFft: nat, hannW: Option<nat>, hop: Option<nat>,
                    hann: int -> seq<real>, fft: seq<real> -> seq<Complex>): Result<seq<seq<Complex>>>
    requires LengthPreserving(fft)
  {
    var window := AnalysisWindow(nFft, hannW.GetOr(nFft), hann);
    if window.Err? then Err(window.error)
    else
      var h := hop.GetOr(nFft / 2);
      if h == 0 then Err(ZeroStep)
      else
        var frames := NumFrames(|y|, nFft, h);
        if frames < 0 then Err(NegativeDimension)
        else if frames > 0 && nFft == 0 then Err(EmptyTransform)
        else
          Ok(seq(frames, i requires 0 <= i < frames => StftColumn(y, window.value, h, i, fft)))
  }

  /** D holds `cols` column by column: D[j, i] == cols[i][j]. */
  ghost predicate HoldsColumns(D: array2<Complex>, cols: seq<seq<Complex>>)
    reads D
  {
    D.Length1 == |cols| &&
    forall i :: 0 <= i < |cols| ==>
      |cols[i]| == D.Length0 && forall j :: 0 <= j < D.Length0 ==> D[j, i] == cols[i][j]
  }

  /** stft: allocates the (bins x frames) matrix and fills it one frame at a time. */
  method Stft(y: seq<real>, nFft: nat, hannW: Option<nat>, hop: Option<nat>,
              hann: int -> seq<real>, fft: seq<real> -> seq<Complex>)
    returns (r: Result<array2<Complex>>)
    requires LengthPreserving(fft)
    ensures r.Ok? ==> fresh(r.value)
    ensures r.Err? <==> StftSpec(y, nFft, hannW, hop, hann, fft).Err?
    ensures r.Err? ==> r.error == StftSpec(y, nFft, hannW, hop, hann, fft).error
    ensures r.Ok? ==> r.value.Length0 == NumBins(nFft)
    ensures r.Ok? ==> HoldsColumns(r.value, StftSpec(y, nFft, hannW, hop, hann, fft).value)
  {
    var w := hannW.GetOr(nFft);
    ghost var spec := StftSpec(y, nFft, hannW, hop, hann, fft);
    var built := AnalysisWindow(nFft, w, hann);
    if built.Err? {
      return Err(built.error);
    }
    var window := built.value;
    var h := hop.GetOr(nFft / 2);
    if h == 0 {
      return Err(ZeroStep);
    }
    var bins := 1 + nFft / 2;
    var frames := 1 + (|y| - nFft) / h;
    if frames < 0 {
      return Err(NegativeDimension);
    }
    var D := new Complex[bins, frames];
    for i := 0 to frames
      invariant i > 0 ==> nFft > 0
      invariant forall i', j :: 0 <= i' < i && 0 <= j < bins ==> D[j, i'] == StftColumn(y, window, h, i', fft)[j]
    {
      var b := i * h;
      FrameInBounds(|y|, nFft, h, i);
      var u := Frame(y, window, b);
      if |u| == 0 {
        assert spec == Err(EmptyTransform);
        return Err(EmptyTransform);
      }
      var t := fft(u);
      assert SpectrumColumn(t, bins) == StftColumn(y, window, h, i, fft);
      forall j | 0 <= j < bins {
        D[j, i] := Conj(t[j]);
      }
    }
    ghost var cols := seq(frames, i requires 0 <= i < frames => StftColumn(y, window, h, i, fft));
    assert spec == Ok(cols);
    assert HoldsColumns(D, cols);
    return Ok(D);
  }

  /** With Python 2 floor division the frame count is non-negative exactly when n + hop >= nFft, and positive exactly when n >= nFft. */
  lemma FrameCountSign(n: nat, nFft: nat, hop: nat)
    requires hop > 0
    ensures NumFrames(n, nFft, hop) >= 0 <==> n + hop >= nFft
    ensures NumFrames(n, nFft, hop) >= 1 <==> n >= nFft
  {
    var q := (n - nFft) / hop;
    DivisionBounds(n - nFft, hop);
    if q >= -1 {
      MulMonotone(-1, q, hop);
    } else {
      MulMonotone(q, -2, hop);
    }
    if q >= 0 {
      MulMonotone(0, q, hop);
    } else {
      MulMonotone(q, -1, hop);
    }
  }

  /** The frames reach the end of the signal but for fewer than hop trailing samples. */
  lemma FrameGrid(n: nat, nFft: nat, hop: nat)
    requires hop > 0
    ensures var frames := NumFrames(n, nFft, hop);
      (frames - 1) * hop + nFft <= n < frames * hop + nFft
  {
    var q := (n - nFft) / hop;
    DivisionBounds(n - nFft, hop);
    assert (q + 1) * hop == q * hop + hop;
  }

  /**
   * stft succeeds exactly when the window fits, the hop is positive, the frame
   * count is not negative and the FFT size is positive; it then has
   * 1 + nFft/2 rows and 1 + floor((N - nFft)/hop) columns, at least one
   * exactly when N >= nFft.
   */
  lemma StftOutcome(y: seq<real>, nFft: nat, hannW: Option<nat>, hop: Option<nat>,
                    hann: int -> seq<real>, fft: seq<real> -> seq<Complex>)
    requires LengthPreserving(fft)
    ensures var w := hannW.GetOr(nFft);
      var h := hop.GetOr(nFft / 2);
      var r := StftSpec(y, nFft, hannW, hop, hann, fft);
      (r.Ok? <==> (w == 0 || |hann(w)| <= nFft) && h > 0 && |y| + h >= nFft && nFft > 0) &&
      (r.Ok? ==> h > 0 && |r.value| == NumFrames(|y|, nFft, h) &&
                 (|r.value| >= 1 <==> |y| >= nFft) &&
                 forall i :: 0 <= i < |r.value| ==> |r.value[i]| == NumBins(nFft))
  {
    var h := hop.GetOr(nFft / 2);
    if h > 0 {
      FrameCountSign(|y|, nFft, h);
    }
  }

  /** A Hann window wider than the FFT makes pad raise. */
  lemma HannWiderThanFft(y: seq<real>, nFft: nat, w: nat, hop: Option<nat>,
                         hann: int -> seq<real>, fft: seq<real> -> seq<Complex>)
    requires LengthPreserving(fft)
    requires |hann(w)| == w && w > nFft
    ensures StftSpec(y, nFft, Some(w), hop, hann, fft) == Err(InsufficientPadSpace)
  {
  }

  /** Column i is a function of window * y[i*hop : i*hop + nFft] alone. */
  lemma ColumnFromFrame(y: seq<real>, window: seq<real>, hop: nat, i: nat, fft: seq<real> -> seq<Complex>)
    requires LengthPreserving(fft)
    requires hop > 0 && 0 < |window| && i < NumFrames(|y|, |window|, hop)
    ensures i * hop + |window| <= |y| &&
      StftColumn(y, window, hop, i, fft) ==
        SpectrumColumn(fft(Frame(y[i * hop .. i * hop + |window|], window, 0)), NumBins(|window|))
  {
    FrameInBounds(|y|, |window|, hop, i);
    var b := i * hop;
    var slice := y[b .. b + |window|];
    var f, g := Frame(y, window, b), Frame(slice, window, 0);
    assert |f| == |g|;
    forall k | 0 <= k < |window|
      ensures f[k] == g[k]
    {
      assert slice[0 + k] == y[b + k];
    }
    assert f == g;
  }
}
