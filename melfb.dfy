/**
 * Mel filterbank construction (librosa/__init__.py, `melfb`) from given band
 * edge frequencies: one triangle per band over the non-negative FFT bins,
 * stretched by `width` about its centre, then each row scaled by
 * 2 / (upper - lower) of the unscaled edges.  The Hz <-> mel conversion that
 * produces the edges is not part of this model; the edges are an input.
 */
module MelFilterbank {
  import opened Base

  /** Edge frequencies for nfilts bands: nfilts + 2 strictly increasing values. */
  predicate ValidEdges(binfreqs: seq<real>, nfilts: nat) {
    |binfreqs| == nfilts + 2 && StrictlyIncreasingReals(binfreqs)
  }

  /** Centre frequency of FFT bin k: k / nfft * sr. */
  function BinFrequency(k: nat, nfft: nat, sr: real): real
    requires nfft > 0
  {
    (k as real) / (nfft as real) * sr
  }

  /** Band i's edges after scaling by width about the centre: freqs[1] + width * (freqs - freqs[1]). */
  function ScaledEdges(binfreqs: seq<real>, width: real, i: nat): (e: (real, real, real))
    requires i + 2 < |binfreqs|
  {
    var c := binfreqs[i + 1];
    (c + width * (binfreqs[i] - c), c, c + width * (binfreqs[i + 2] - c))
  }

  /** max(0, min(loslope, hislope)) at frequency f. */
  function Triangle(lower: real, centre: real, upper: real, f: real): real
    requires lower != centre && upper != centre
  {
    MaxReal(0.0, MinReal((f - lower) / (centre - lower), (upper - f) / (upper - centre)))
  }

  /** Slaney energy normalisation of row i, from the unscaled edges. */
  function Enorm(binfreqs: seq<real>, i: nat): real
    requires i + 2 < |binfreqs| && binfreqs[i] < binfreqs[i + 2]
  {
    2.0 / (binfreqs[i + 2] - binfreqs[i])
  }

  lemma ScaledEdgesOrdered(binfreqs: seq<real>, nfilts: nat, width: real, i: nat)
    requires ValidEdges(binfreqs, nfilts) && i < nfilts && width != 0.0
    ensures var (lower, centre, upper) := ScaledEdges(binfreqs, width, i);
      lower != centre && upper != centre &&
      (width > 0.0 ==> lower < centre < upper)
  {
    var b0, b1, b2 := binfreqs[i], binfreqs[i + 1], binfreqs[i + 2];
    assert b0 < b1 < b2;
    assert b1 - (b1 + width * (b0 - b1)) == width * (b1 - b0);
    assert (b1 + width * (b2 - b1)) - b1 == width * (b2 - b1);
  }

  /** wts[i, k] before the normalisation: the triangle below the Nyquist bin, 0 above it. */
  function RawWeight(binfreqs: seq<real>, nfilts: nat, width: real, sr: real, nfft: nat, i: nat, k: nat): real
    requires ValidEdges(binfreqs, nfilts) && i < nfilts && width != 0.0 && nfft > 0
  {
    if k < 1 + nfft / 2 then
      ScaledEdgesOrdered(binfreqs, nfilts, width, i);
      var (lower, centre, upper) := ScaledEdges(binfreqs, width, i);
      Triangle(lower, centre, upper, BinFrequency(k, nfft, sr))
    else 0.0
  }

  /** Entry (i, k) of the returned filterbank: diag(enorm) . wts. */
  function MelWeight(binfreqs: seq<real>, nfilts: nat, width: real, sr: real, nfft: nat, i: nat, k: nat): real
    requires ValidEdges(binfreqs, nfilts) && i < nfilts && width != 0.0 && nfft > 0
  {
    Enorm(binfreqs, i) * RawWeight(binfreqs, nfilts, width, sr, nfft, i, k)
  }

  /**
   * The matrix `melfb` returns, row by row.  For nfft = 0 each row is empty:
   * numpy broadcasts the one-value triangle into the empty slice and nothing
   * is written.
   */
  function MelWeights(sr: real, nfft: nat, nfilts: nat, width: real, binfreqs: seq<real>): (m: seq<seq<real>>)
    requires ValidEdges(binfreqs, nfilts) && width != 0.0
    ensures |m| == nfilts && forall i :: 0 <= i < nfilts ==> |m[i]| == nfft
  {
    seq(nfilts, i requires 0 <= i < nfilts =>
      seq(nfft, k requires 0 <= k < nfft => MelWeight(binfreqs, nfilts, width, sr, nfft, i, k)))
  }

  /**
   * melfb: zero weights, one row of triangles per band written over the
   * first 1 + nfft/2 columns, then every row scaled by its energy normalisation.
   */
  method Melfb(sr: real, nfft: nat, nfilts: nat, width: real, binfreqs: seq<real>) returns (r: array2<real>)
    requires ValidEdges(binfreqs, nfilts) && width != 0.0
    ensures fresh(r)
    ensures r.Length0 == nfilts && r.Length1 == nfft
    ensures forall i, k :: 0 <= i < nfilts && 0 <= k < nfft ==>
      r[i, k] == MelWeights(sr, nfft, nfilts, width, binfreqs)[i][k]
  {
    var wts := new real[nfilts, nfft]((_, _) => 0.0);
    // wts[i, :bins] is cut to the row's nfft columns; for nfft = 0 it is empty
    var bins := Min(1 + nfft / 2, nfft);
    for i := 0 to nfilts
      invariant forall i', k :: 0 <= i' < i && 0 <= k < nfft ==>
        wts[i', k] == RawWeight(binfreqs, nfilts, width, sr, nfft, i', k)
      invariant forall i', k :: i <= i' < nfilts && 0 <= k < nfft ==> wts[i', k] == 0.0
    {
      ScaledEdgesOrdered(binfreqs, nfilts, width, i);
      var (lower, centre, upper) := ScaledEdges(binfreqs, width, i);
      forall k | 0 <= k < bins {
        wts[i, k] := Triangle(lower, centre, upper, BinFrequency(k, nfft, sr));
      }
    }
    r := ScaleRows(wts, binfreqs, nfilts);
  }

  /** numpy.dot(numpy.diag(enorm), wts): a new matrix, row i of wts times enorm[i]. */
  method ScaleRows(wts: array2<real>, binfreqs: seq<real>, nfilts: nat) returns (scaled: array2<real>)
    requires ValidEdges(binfreqs, nfilts) && wts.Length0 == nfilts
    ensures fresh(scaled)
    ensures scaled.Length0 == nfilts && scaled.Length1 == wts.Length1
    ensures forall i, k :: 0 <= i < nfilts && 0 <= k < wts.Length1 ==>
      scaled[i, k] == Enorm(binfreqs, i) * wts[i, k]
  {
    scaled := new real[nfilts, wts.Length1];
    forall i, k | 0 <= i < nfilts && 0 <= k < wts.Length1 {
      scaled[i, k] := Enorm(binfreqs, i) * wts[i, k];
    }
  }

  /** A triangle never goes below 0 nor above its peak of 1. */
  lemma TriangleRange(lower: real, centre: real, upper: real, f: real)
    requires lower < centre < upper
    ensures 0.0 <= Triangle(lower, centre, upper, f) <= 1.0
  {
    var lo := (f - lower) / (centre - lower);
    var hi := (upper - f) / (upper - centre);
    if f <= centre {
      assert f - lower <= centre - lower;
      assert lo <= 1.0;
    } else {
      assert upper - f < upper - centre;
      assert hi <= 1.0;
    }
  }

  /** A triangle is positive strictly between its edges and 0 at or beyond them. */
  lemma TriangleSupport(lower: real, centre: real, upper: real, f: real)
    requires lower < centre < upper
    ensures Triangle(lower, centre, upper, f) > 0.0 <==> lower < f < upper
    ensures Triangle(lower, centre, upper, f) == 0.0 <==> f <= lower || f >= upper
  {
    var lo := (f - lower) / (centre - lower);
    var hi := (upper - f) / (upper - centre);
    assert lo > 0.0 <==> f > lower;
    assert hi > 0.0 <==> f < upper;
  }

  /** A triangle is exactly 1 at its centre. */
  lemma TrianglePeak(lower: real, centre: real, upper: real)
    requires lower < centre < upper
    ensures Triangle(lower, centre, upper, centre) == 1.0
  {
    assert (centre - lower) / (centre - lower) == 1.0;
    assert (upper - centre) / (upper - centre) == 1.0;
  }

  /** Every weight of the filterbank is non-negative, for either sign of width. */
  lemma MelWeightNonNegative(binfreqs: seq<real>, nfilts: nat, width: real, sr: real, nfft: nat, i: nat, k: nat)
    requires ValidEdges(binfreqs, nfilts) && i < nfilts && width != 0.0 && nfft > 0
    ensures MelWeight(binfreqs, nfilts, width, sr, nfft, i, k) >= 0.0
  {
    assert binfreqs[i] < binfreqs[i + 2];
    assert Enorm(binfreqs, i) > 0.0;
    assert RawWeight(binfreqs, nfilts, width, sr, nfft, i, k) >= 0.0;
  }

  /**
   * Row i of the filterbank: 0 in every column at or above 1 + nfft/2; below
   * it, positive exactly at the bins strictly between the width-scaled lower
   * and upper edges, never above 2 / (upper - lower) of the unscaled edges,
   * and equal to it at a bin whose frequency is the band centre.
   */
  lemma MelRow(binfreqs: seq<real>, nfilts: nat, width: real, sr: real, nfft: nat, i: nat, k: nat)
    requires ValidEdges(binfreqs, nfilts) && i < nfilts && width > 0.0 && nfft > 0
    ensures var w := MelWeight(binfreqs, nfilts, width, sr, nfft, i, k);
      var (lower, centre, upper) := ScaledEdges(binfreqs, width, i);
      var f := BinFrequency(k, nfft, sr);
      var peak := 2.0 / (binfreqs[i + 2] - binfreqs[i]);
      (k >= 1 + nfft / 2 ==> w == 0.0) &&
      (k < 1 + nfft / 2 ==>
        (w > 0.0 <==> lower < f < upper) &&
        (w == 0.0 <==> f <= lower || f >= upper) &&
        0.0 <= w <= peak &&
        (f == binfreqs[i + 1] ==> w == peak))
  {
    ScaledEdgesOrdered(binfreqs, nfilts, width, i);
    var (lower, centre, upper) := ScaledEdges(binfreqs, width, i);
    var f := BinFrequency(k, nfft, sr);
    assert binfreqs[i] < binfreqs[i + 2];
    var e := Enorm(binfreqs, i);
    assert e > 0.0;
    if k < 1 + nfft / 2 {
      var t := Triangle(lower, centre, upper, f);
      assert RawWeight(binfreqs, nfilts, width, sr, nfft, i, k) == t;
      TriangleRange(lower, centre, upper, f);
      TriangleSupport(lower, centre, upper, f);
      assert e * t <= e * 1.0;
      if f == centre {
        TrianglePeak(lower, centre, upper);
      }
    }
  }
}
