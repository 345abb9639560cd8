/**
 * Inverse short-time Fourier transform (librosa/__init__.py, `istft`): the
 * default arguments, the Hermitian extension of each stored column, and the
 * overlap-add of the windowed inverse transforms into a zero buffer.  The
 * real part of numpy's inverse FFT is a parameter.
 */
module InverseShortTime {
  import opened Base
  import opened Padding
  import opened ShortTime

  /** numpy.fft.ifft(...).real returns as many samples as it is given coefficients. */
  ghost predicate IfftLengthPreserving(ifft: seq<Complex> -> seq<real>) {
    forall z :: |ifft(z)| == |z|
  }

  /** ft[-2:0:-1]: the stored bins K-2 down to 1, as they are (empty when K < 2). */
  function MirrorTail(ft: seq<Complex>): seq<Complex> {
    if |ft| < 2 then [] else seq(|ft| - 2, m requires 0 <= m < |ft| - 2 => ft[|ft| - 2 - m])
  }

  /** concatenate((ft.conj(), ft[-2:0:-1])): the full spectrum rebuilt from a stored column. */
  function HermitianExtension(ft: seq<Complex>): seq<Complex> {
    seq(|ft|, j requires 0 <= j < |ft| => Conj(ft[j])) + MirrorTail(ft)
  }

  /** Length of the extension of a K-bin column. */
  function ExtensionLength(bins: nat): nat {
    if bins >= 2 then 2 * bins - 2 else bins
  }

  /**
   * The extension of a K-bin column has 2K - 2 entries (the default FFT size),
   * starts with the conjugated column, and is Hermitian on the interior bins.
   */
  lemma ExtensionShape(ft: seq<Complex>)
    ensures var e := HermitianExtension(ft);
      |e| == ExtensionLength(|ft|) &&
      (|ft| >= 2 ==> |e| == 2 * (|ft| - 1)) &&
      (forall j :: 0 <= j < |ft| ==> e[j] == Conj(ft[j])) &&
      forall j :: 1 <= j < |ft| - 1 ==> e[|e| - j] == Conj(e[j])
  {
    var e := HermitianExtension(ft);
    forall j | 1 <= j < |ft| - 1
      ensures e[|e| - j] == Conj(e[j])
    {
      assert e[|e| - j] == MirrorTail(ft)[|ft| - 2 - j];
    }
  }

  predicate Hermitian(t: seq<Complex>) {
    forall j :: 1 <= j < |t| ==> t[|t| - j] == Conj(t[j])
  }

  /**
   * Round trip with the forward transform: for an even FFT size L = 2K - 2 and
   * a Hermitian spectrum t (the FFT of a real frame), extending the stored
   * column conj(t[:K]) gives back t exactly.
   */
  lemma ExtensionInvertsStftColumn(t: seq<Complex>, bins: nat)
    requires bins >= 2 && |t| == 2 * bins - 2
    requires Hermitian(t)
    ensures HermitianExtension(SpectrumColumn(t, bins)) == t
  {
    var col := SpectrumColumn(t, bins);
    var e := HermitianExtension(col);
    assert |e| == |t|;
    forall j | 0 <= j < |t|
      ensures e[j] == t[j]
    {
      if j >= bins {
        var m := j - bins;
        assert e[j] == MirrorTail(col)[m];
        assert |t| - (bins - 2 - m) == j;
      }
    }
  }

  /** scipy.signal.hann(hannW) * 2.0 / 3 */
  function ScaledHann(h: seq<real>): seq<real> {
    seq(|h|, k requires 0 <= k < |h| => h[k] * 2.0 / 3.0)
  }

  /** The synthesis window: all ones for hannW = 0, else the 2/3-scaled Hann window centred in nFft. */
  function SynthesisWindow(nFft: int, hannW: int, hann: int -> seq<real>): (r: Result<seq<real>>)
    ensures r.Ok? ==> |r.value| == nFft
  {
    if hannW == 0 then
      if nFft < 0 then Err(NegativeDimension) else Ok(Fill(1.0, nFft))
    else PadSpec(ScaledHann(hann(hannW)), nFft, 0.0, true)
  }

  /** d[:, i] */
  function Column(d: array2<Complex>, i: nat): seq<Complex>
    reads d
    requires i < d.Length1
  {
    seq(d.Length0, j requires 0 <= j < d.Length0 reads d => d[j, i])
  }

  /** window * px, with numpy broadcasting a one-sample px across the window. */
  function Windowed(window: seq<real>, px: seq<real>): seq<real>
    requires |px| == |window| || |px| == 1
  {
    seq(|window|, k requires 0 <= k < |window| => window[k] * (if |px| == 1 then px[0] else px[k]))
  }

  /** The windowed inverse transform of column i, the frame added at offset i * hop. */
  function SynthesisFrame(d: array2<Complex>, i: nat, window: seq<real>, ifft: seq<Complex> -> seq<real>): seq<real>
    reads d
    requires IfftLengthPreserving(ifft)
    requires i < d.Length1
    requires ExtensionLength(d.Length0) == |window| || ExtensionLength(d.Length0) == 1
  {
    ExtensionShape(Column(d, i));
    Windowed(window, ifft(HermitianExtension(Column(d, i))))
  }

  /** The frames of every column, each |window| samples long. */
  function SynthesisFrames(d: array2<Complex>, window: seq<real>, ifft: seq<Complex> -> seq<real>): (frames: seq<seq<real>>)
    reads d
    requires IfftLengthPreserving(ifft)
    requires d.Length1 > 0 ==> ExtensionLength(d.Length0) == |window| || ExtensionLength(d.Length0) == 1
    ensures |frames| == d.Length1 && forall i :: 0 <= i < |frames| ==> |frames[i]| == |window|
  {
    seq(d.Length1, i requires 0 <= i < d.Length1 reads d => SynthesisFrame(d, i, window, ifft))
  }

  /** The sum, over the first m frames, of what frame i adds at sample j (frame i covers [i*hop, i*hop + |frame|)). */
  function Contribution(frames: seq<seq<real>>, hop: nat, width: nat, j: int, m: nat): real
    requires m <= |frames|
    requires forall i :: 0 <= i < |frames| ==> |frames[i]| == width
  {
    if m == 0 then 0.0
    else
      var b := (m - 1) * hop;
      Contribution(frames, hop, width, j, m - 1) + (if b <= j < b + width then frames[m - 1][j - b] else 0.0)
  }

  /** The first m frames overlap-added into `len` samples. */
  function PartialOverlapAdd(frames: seq<seq<real>>, hop: nat, width: nat, len: nat, m: nat): (x: seq<real>)
    requires m <= |frames|
    requires forall i :: 0 <= i < |frames| ==> |frames[i]| == width
  {
    seq(len, j requires 0 <= j < len => Contribution(frames, hop, width, j, m))
  }

  /** The overlap-added signal of `len` samples. */
  function OverlapAdd(frames: seq<seq<real>>, hop: nat, width: nat, len: nat): (x: seq<real>)
    requires forall i :: 0 <= i < |frames| ==> |frames[i]| == width
  {
    PartialOverlapAdd(frames, hop, width, len, |frames|)
  }

  /** The signal `istft(d, nFft, hannW, hop)` returns, or the error it raises. */
  function IstftSpec(d: array2<Complex>, nFft: Option<nat>, hannW: Option<nat>, hop: Option<nat>,
                     hann: int -> seq<real>, ifft: seq<Complex> -> seq<real>): Result<seq<real>>
    reads d
    requires IfftLengthPreserving(ifft)
  {
    var n, bins := d.Length1, d.Length0;
    var nf: int := if nFft.Some? then nFft.value else 2 * (bins - 1);
    var hw: int := if hannW.Some? then hannW.value else nf;
    var window := SynthesisWindow(nf, hw, hann);
    if window.Err? then Err(window.error)
    else
      var h := hop.GetOr(|window.value| / 2);
      var len := |window.value| + (n - 1) * h;
      if len < 0 then Err(NegativeDimension)
      else if h == 0 then Err(ZeroStep)
      else if n > 0 && ExtensionLength(bins) == 0 then Err(EmptyTransform)
      else if n > 0 && ExtensionLength(bins) != |window.value| && ExtensionLength(bins) != 1 then Err(ShapeMismatch)
      else
        Ok(OverlapAdd(SynthesisFrames(d, window.value, ifft), h, |window.value|, len))
  }

  /** x[b:b+|u|] = x[b:b+|u|] + u: only that slice changes. */
  method AccumulateFrame(x: array<real>, b: nat, u: seq<real>)
    requires b + |u| <= x.Length
    modifies x
    ensures forall k :: 0 <= k < |u| ==> x[b + k] == old(x[b + k]) + u[k]
    ensures forall j :: 0 <= j < x.Length && !(b <= j < b + |u|) ==> x[j] == old(x[j])
  {
    forall k | 0 <= k < |u| {
      x[b + k] := x[b + k] + u[k];
    }
  }

  /** The loop of istft: frame i is added at offset i * hop of the zero buffer x. */
  method OverlapAddColumns(x: array<real>, d: array2<Complex>, window: seq<real>, ifft: seq<Complex> -> seq<real>, h: nat)
    requires IfftLengthPreserving(ifft)
    requires d.Length1 > 0 ==> ExtensionLength(d.Length0) == |window| || ExtensionLength(d.Length0) == 1
    requires x.Length == |window| + (d.Length1 - 1) * h
    requires forall j :: 0 <= j < x.Length ==> x[j] == 0.0
    modifies x
    ensures x[..] == OverlapAdd(SynthesisFrames(d, window, ifft), h, |window|, x.Length)
  {
    var n, width := d.Length1, |window|;
    ghost var frames := SynthesisFrames(d, window, ifft);
    assert x[..] == PartialOverlapAdd(frames, h, width, x.Length, 0);
    for i := 0 to n
      invariant x[..] == PartialOverlapAdd(frames, h, width, x.Length, i)
    {
      var b := i * h;
      MulMonotone(i, n - 1, h);
      var u := SynthesisFrame(d, i, window, ifft);
      ghost var before := x[..];
      AccumulateFrame(x, b, u);
      AddFrameStep(before, x[..], frames, h, width, i);
    }
  }

  /** Adding frame i at offset i * hop to the sum of the first i frames gives the sum of the first i + 1. */
  lemma AddFrameStep(before: seq<real>, after: seq<real>, frames: seq<seq<real>>, hop: nat, width: nat, i: nat)
    requires i < |frames| && forall t :: 0 <= t < |frames| ==> |frames[t]| == width
    requires |after| == |before| && i * hop + width <= |before|
    requires before == PartialOverlapAdd(frames, hop, width, |before|, i)
    requires forall k :: 0 <= k < width ==> after[i * hop + k] == before[i * hop + k] + frames[i][k]
    requires forall j :: 0 <= j < |before| && !(i * hop <= j < i * hop + width) ==> after[j] == before[j]
    ensures after == PartialOverlapAdd(frames, hop, width, |before|, i + 1)
  {
    var b := i * hop;
    var next := PartialOverlapAdd(frames, hop, width, |before|, i + 1);
    forall j | 0 <= j < |after|
      ensures after[j] == next[j]
    {
      assert before[j] == Contribution(frames, hop, width, j, i);
      if b <= j < b + width {
        assert after[b + (j - b)] == before[b + (j - b)] + frames[i][j - b];
      }
    }
  }

  /** istft: allocates a zero buffer of nFft + (n - 1) * hop samples and overlap-adds every frame into it. */
  method Istft(d: array2<Complex>, nFft: Option<nat>, hannW: Option<nat>, hop: Option<nat>,
               hann: int -> seq<real>, ifft: seq<Complex> -> seq<real>)
    returns (r: Result<array<real>>)
    requires IfftLengthPreserving(ifft)
    ensures r.Ok? ==> fresh(r.value)
    ensures r.Err? <==> IstftSpec(d, nFft, hannW, hop, hann, ifft).Err?
    ensures r.Err? ==> r.error == IstftSpec(d, nFft, hannW, hop, hann, ifft).error
    ensures r.Ok? ==> r.value[..] == IstftSpec(d, nFft, hannW, hop, hann, ifft).value
  {
    ghost var spec := IstftSpec(d, nFft, hannW, hop, hann, ifft);
    var n, bins := d.Length1, d.Length0;
    var nf: int := if nFft.Some? then nFft.value else 2 * (bins - 1);
    var hw: int := if hannW.Some? then hannW.value else nf;
    var built := SynthesisWindow(nf, hw, hann);
    if built.Err? {
      return Err(built.error);
    }
    var window := built.value;
    var width := |window|;
    var h := hop.GetOr(width / 2);
    var len := width + (n - 1) * h;
    if len < 0 {
      return Err(NegativeDimension);
    }
    var x := new real[len](_ => 0.0);
    if h == 0 {
      return Err(ZeroStep);
    }
    // numpy raises these on the first frame, before anything is returned
    var extLen := ExtensionLength(bins);
    if n > 0 && extLen == 0 {
      return Err(EmptyTransform);
    }
    if n > 0 && extLen != width && extLen != 1 {
      return Err(ShapeMismatch);
    }
    OverlapAddColumns(x, d, window, ifft, h);
    return Ok(x);
  }

  /** The output buffer holds every frame: frame i ends at or before nFft + (n - 1) * hop. */
  lemma FramesFitBuffer(n: nat, width: nat, hop: nat, i: nat)
    requires i < n
    ensures i * hop + width <= width + (n - 1) * hop
  {
    MulMonotone(i, n - 1, hop);
  }

  /** A sample past the end of the first m frames receives nothing from them. */
  lemma {:induction false} ContributionPastFrames(frames: seq<seq<real>>, hop: nat, width: nat, j: int, m: nat)
    requires m <= |frames|
    requires forall i :: 0 <= i < |frames| ==> |frames[i]| == width
    requires m > 0 ==> j >= (m - 1) * hop + width
    ensures Contribution(frames, hop, width, j, m) == 0.0
  {
    if m > 1 {
      assert (m - 1) * hop == (m - 2) * hop + hop;
      ContributionPastFrames(frames, hop, width, j, m - 1);
    }
  }

  /** A sample before the start of frames m0..m-1 receives from the first m frames only what the first m0 give it. */
  lemma {:induction false} ContributionBeforeFrames(frames: seq<seq<real>>, hop: nat, width: nat, j: int, m0: nat, m: nat)
    requires m0 <= m <= |frames|
    requires forall i :: 0 <= i < |frames| ==> |frames[i]| == width
    requires j < m0 * hop
    ensures Contribution(frames, hop, width, j, m) == Contribution(frames, hop, width, j, m0)
  {
    if m > m0 {
      MulMonotone(m0, m - 1, hop);
      ContributionBeforeFrames(frames, hop, width, j, m0, m - 1);
    }
  }

  /**
   * Without overlap (hop >= nFft) the overlap-add is exact: sample i*hop + k of
   * the output is sample k of frame i.
   */
  lemma OverlapAddWithoutOverlap(frames: seq<seq<real>>, hop: nat, width: nat, len: nat, i: nat, k: nat)
    requires forall t :: 0 <= t < |frames| ==> |frames[t]| == width
    requires hop >= width && i < |frames| && k < width && i * hop + k < len
    ensures OverlapAdd(frames, hop, width, len)[i * hop + k] == frames[i][k]
  {
    var j := i * hop + k;
    if i > 0 {
      assert (i - 1) * hop + hop == i * hop;
    }
    ContributionPastFrames(frames, hop, width, j, i);
    assert (i + 1) * hop == i * hop + hop;
    ContributionBeforeFrames(frames, hop, width, j, i + 1, |frames|);
  }

  /** A one-column spectrum is synthesised to exactly its one windowed frame. */
  lemma OverlapAddOneFrame(frames: seq<seq<real>>, hop: nat, width: nat)
    requires |frames| == 1 && |frames[0]| == width
    ensures OverlapAdd(frames, hop, width, width) == frames[0]
  {
    var x := OverlapAdd(frames, hop, width, width);
    forall j | 0 <= j < width
      ensures x[j] == frames[0][j]
    {
      assert x[j] == Contribution(frames, hop, width, j, 1);
    }
  }

  /**
   * istft returns nFft + (n - 1) * hop samples, where nFft and hop are the
   * effective values (defaults 2(K - 1) and nFft / 2), and the output is the
   * sum of the windowed frames, frame i added at offset i * hop.
   */
  lemma IstftShape(d: array2<Complex>, nFft: Option<nat>, hannW: Option<nat>, hop: Option<nat>,
                   hann: int -> seq<real>, ifft: seq<Complex> -> seq<real>)
    requires IfftLengthPreserving(ifft)
    ensures var r := IstftSpec(d, nFft, hannW, hop, hann, ifft);
      var nf: int := if nFft.Some? then nFft.value else 2 * (d.Length0 - 1);
      var h: int := if hop.Some? then hop.value else nf / 2;
      r.Ok? ==>
        nf >= 0 && h > 0 && |r.value| == nf + (d.Length1 - 1) * h &&
        (d.Length1 > 0 ==> ExtensionLength(d.Length0) == nf || ExtensionLength(d.Length0) == 1)
  {
  }
}
