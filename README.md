# librosa core: a Dafny model

This project models the index, shape and clamping logic of the early librosa
audio analysis library (`librosa/__init__.py`):

- `pad`, which centres a window inside a constant buffer;
- the framing of the short-time Fourier transform `stft`;
- the Hermitian extension and overlap-add of the inverse transform `istft`;
- the triangle construction and energy normalisation of the mel filterbank `melfb`;
- its composition into `melspectrogram`;
- the absolute dB floor of `logamplitude`;
- the utilities `frames_to_time`, `feature_sync`, `autocorrelate` and `localmax`.

The numerical routines librosa calls out to are function parameters:

- numpy's `fft` and `ifft(...).real`, each constrained by a length contract;
- scipy's `hann`, `log10` and the complex magnitude, which are unconstrained.

The model takes the source's own form:

- **Allocate and fill.** These functions allocate arrays and fill them in loops
  or with slice assignments: `stft`, `istft`, `melfb`, `feature_sync`, and the
  in-place floor of `logamplitude`. They are Dafny methods over `array`/`array2`.
  A Python loop becomes a `for` loop with invariants, and a vectorised slice
  assignment becomes a `forall` statement. Each method is proved equal to a
  specification function (`StftSpec`, `IstftSpec`, `MelWeights`,
  `SyncBoundaries` with `agg`, `PadSpec`), and lemmas prove the documented
  properties about those functions.
- **Pure expressions.** `localmax`, `autocorrelate`, `frames_to_time` and
  `melspectrogram` are functions.

Every error the source raises, or that numpy raises underneath it, is a
`Result` error:
- a window longer than the target length;
- a negative array dimension;
- a zero hop;
- an FFT over no points;
- a broadcasting mismatch between istft's window and an inverse transform of another length;
- `x[0]` on an empty vector;
- a division by zero, which `frames_to_time` raises on a plain-number frame when sr = 0.

On a numpy vector of frames, `frames_to_time` with sr = 0 does not raise. Each entry
becomes +inf, -inf or NaN, and the model's vector form returns exactly those values.

Python 2 integer division is floor division. With the positive divisors that
reach it here, that is Dafny's `/`. So the frame count `1 + (N - nFft) / hop`
is 0 when N lies in [nFft - hop, nFft), with no error, and negative (an
allocation error) below that.

Two behaviours are modelled as the code has them, because they are easy to
misread:
- **`localmax` right edge.** The last position must be strictly above its
  predecessor (`x >= hstack([x[1:], x[-1]])` compares it only with itself),
  so a constant vector such as `[5, 5, 5]` fires nowhere.
- **`logamplitude` floor.** The floor is the absolute value `gain_threshold`,
  not an offset below the maximum.

Also as the code has them:
- **Conjugation in `istft`.** The Hermitian extension conjugates the stored
  half but not the mirrored tail `ft[-2:0:-1]`. Because `stft` stores
  conjugated coefficients, extending a stored column gives back the full
  spectrum exactly (`ExtensionInvertsStftColumn`).

## Model

| member | source | states |
|---|---|---|
| Padding.Pad | librosa/__init__.py:464-476 | raises exactly when len(w) > d_pad; otherwise the result has length d_pad, holds w at [s, s+len(w)) with s = floor((d_pad-len(w))/2) if centred else 0, and v everywhere else |
| Padding.RollPlacesWindow | librosa/__init__.py:470-474 | rolling the front-filled buffer right by s places w at [s, s+len(w)) with no wrap-around |
| ShortTime.Stft | librosa/__init__.py:92-124 | the matrix, filled column by column, is exactly the specified one: column i is the conjugated first 1+n_fft/2 FFT coefficients of window * y[i*hop : i*hop+n_fft]; it has 1+n_fft/2 rows even when there are no frames; the errors are those of `StftSpec` (pad, zero hop, negative frame count, FFT over zero points, in that order); the matrix is newly allocated |
| ShortTime.FrameInBounds | librosa/__init__.py:110-117 | every frame i < n_frames satisfies i*hop + n_fft <= len(y), so every slice lies inside y |
| ShortTime.FrameCountSign | librosa/__init__.py:110-113 | with floor division, n_frames >= 0 iff N + hop >= n_fft and n_frames >= 1 iff N >= n_fft |
| ShortTime.FrameGrid | librosa/__init__.py:110 | the last frame ends inside the signal and fewer than hop samples are left over after it |
| ShortTime.StftOutcome | librosa/__init__.py:94-121 | stft succeeds iff the window fits, the hop is positive, N + hop >= n_fft and n_fft > 0; then it has 1 + (N-n_fft)/hop columns of 1 + n_fft/2 bins, at least one iff N >= n_fft |
| ShortTime.HannWiderThanFft | librosa/__init__.py:98-101 | a hann_w greater than n_fft makes pad raise |
| ShortTime.ColumnFromFrame | librosa/__init__.py:116-121 | column i depends only on y[i*hop : i*hop+n_fft] and the window |
| InverseShortTime.ExtensionShape | librosa/__init__.py:172 | the extension of a K-bin column has 2K-2 entries, starts with the conjugated column and is Hermitian on the interior bins |
| InverseShortTime.ExtensionInvertsStftColumn | librosa/__init__.py:171-172 | the Hermitian extension istft builds from d[:, i], applied to the conjugated column stft stores at line 121 for a Hermitian spectrum of even length 2K-2 rebuilds that spectrum exactly |
| InverseShortTime.AccumulateFrame | librosa/__init__.py:176 | the slice update adds the frame to x[b, b+len) and changes nothing else |
| InverseShortTime.OverlapAddColumns | librosa/__init__.py:170-177 | starting from zeros, after the loop x[j] is the sum over frames i covering j of window[j-i*hop] * px_i[j-i*hop] |
| InverseShortTime.Istft | librosa/__init__.py:142-179 | the returned signal and the raised errors are those of `IstftSpec`, and the signal is a newly allocated array: the defaults 2(K-1), n_fft and n_fft/2, the 2/3-scaled window, a zero buffer of n_fft + (n-1)*hop samples, then overlap-add |
| InverseShortTime.FramesFitBuffer | librosa/__init__.py:167-176 | every frame slice [i*hop, i*hop+n_fft) lies inside the buffer of n_fft + (n-1)*hop samples |
| InverseShortTime.OverlapAddWithoutOverlap | librosa/__init__.py:170-176 | when hop >= n_fft, output sample i*hop+k is sample k of frame i |
| InverseShortTime.OverlapAddOneFrame | librosa/__init__.py:167-176 | a single column is synthesised to exactly its windowed frame |
| InverseShortTime.IstftShape | librosa/__init__.py:144-168 | on success the output has n_fft + (n-1)*hop samples, using the effective defaults, with a positive hop |
| MelFilterbank.Melfb | librosa/__init__.py:326-355 | the nfilts x nfft matrix has entry (i, k) = 2/(b[i+2]-b[i]) * max(0, min(loslope, hislope)) for k < 1+nfft/2 and 0 above; it never raises, and for nfft = 0 it is an nfilts x 0 matrix, numpy broadcasting the one-value triangle into the empty row; the matrix is newly allocated |
| MelFilterbank.ScaleRows | librosa/__init__.py:352-353 | numpy.dot(numpy.diag(enorm), wts) is a new matrix of wts's shape whose row i is row i of wts times 2/(b[i+2]-b[i]) |
| MelFilterbank.ScaledEdgesOrdered | librosa/__init__.py:337-340 | scaling the edges by width about the centre keeps them apart, and ordered for width > 0 |
| MelFilterbank.TriangleRange | librosa/__init__.py:343-347 | each triangle weight lies in [0, 1] |
| MelFilterbank.TriangleSupport | librosa/__init__.py:343-347 | a weight is positive iff the frequency lies strictly between the scaled edges, and 0 at or beyond them |
| MelFilterbank.TrianglePeak | librosa/__init__.py:343-347 | a bin at the centre gets weight 1 before normalisation |
| MelFilterbank.MelWeightNonNegative | librosa/__init__.py:343-353 | every filterbank weight is non-negative |
| MelFilterbank.MelRow | librosa/__init__.py:326-353 | row i is 0 at and above column 1+nfft/2; below it, it is positive exactly strictly inside the scaled band, never above 2/(b[i+2]-b[i]) (the unscaled edges), and reaches it at the centre frequency |
| SpectralFeatures.MelSpectrogramShape | librosa/__init__.py:375-385 | the mel spectrogram has mel_channels rows of 1 + (N-window_length)/hop entries, all non-negative, for either sign of width |
| SpectralFeatures.GainFloorProperties | librosa/__init__.py:402-404 | after the floor, a value is at least the threshold, values at or above it are unchanged, lower ones become the threshold, and the floor is idempotent |
| SpectralFeatures.ApplyGainFloor | librosa/__init__.py:402-404 | the masked assignment floors every entry in place; None leaves D untouched |
| SpectralFeatures.LogAmplitude | librosa/__init__.py:399-405 | a newly allocated matrix whose every entry is 20 log10(max(amin, abs(S))), floored when enabled, so every entry is at least gain_threshold; S is left untouched |
| FrameTime.FramesToTime | librosa/__init__.py:422 | raises exactly when sr = 0; otherwise time * sr = frame * hop |
| FrameTime.FramesToTimes | librosa/__init__.py:422 | the vector form converts each frame number independently: for sr != 0 each entry is the scalar time; for sr = 0 nothing raises, and each entry is +inf, -inf or NaN as frame * hop is positive, negative or zero |
| FrameTime.FrameSpacing | librosa/__init__.py:422 | consecutive frames are hop/sr seconds apart |
| FrameTime.FramesToTimeMonotone | librosa/__init__.py:422 | with positive sr and hop, later frames have strictly later times |
| FrameTime.DefaultsExample | librosa/__init__.py:410 | with the defaults sr = 22050 and hop = 64, frame 0 is at 0 s and frame 11025 at 32 s |
| FrameSync.Unique | librosa/__init__.py:441 | the result is strictly increasing and holds exactly the values of its input |
| FrameSync.SyncBoundaries | librosa/__init__.py:441 | with boundaries in [0, T], the list is strictly increasing from 0 to T and holds exactly 0, T and the given frames |
| FrameSync.SegmentOf | librosa/__init__.py:441-449 | every column c in [0, T) lies in exactly one segment [lb, ub), and segments are non-empty |
| FrameSync.SyncBoundariesExample | librosa/__init__.py:441 | boundaries [3, 7] of a 10-column matrix give [0, 3, 7, 10] |
| FrameSync.FeatureSync | librosa/__init__.py:441-452 | Y is a new matrix with X's rows and one column per segment, and Y[r, i] aggregates X[r, lb:ub] of the i-th segment |
| FrameSync.FeatureSyncMean | librosa/__init__.py:424-452 | with the default agg = numpy.mean, Y[r, i] is the sum of X[r, lb:ub] divided by the segment's non-zero length ub - lb |
| Autocorrelation.FullAutocorrelation | librosa/__init__.py:492 | x convolved with reverse(x) has 2n-1 values, holds lag k at n-1+k and is symmetric about n-1 |
| Autocorrelation.CausalHalf | librosa/__init__.py:494 | the slice from len/2 holds exactly lags 0 .. n-1 |
| Autocorrelation.Autocorrelate | librosa/__init__.py:492-497 | min(max_size, n) values (n without max_size), value k being sum over i < n-k of x[i]*x[i+k] |
| Autocorrelation.LagZeroIsEnergy | librosa/__init__.py:492-494 | lag 0 is the sum of squares, never negative |
| Autocorrelation.TruncationIsPrefix | librosa/__init__.py:495-497 | max_size only cuts the unbounded result to a prefix |
| Autocorrelation.AutocorrelateExample | librosa/__init__.py:492-496 | autocorrelate([1, 2, 3]) = [14, 8, 3] |
| LocalMaxima.LocalMax | librosa/__init__.py:505 | raises on an empty vector; otherwise same length, position 0 never fires, interior i fires iff x[i] > x[i-1] and x[i] >= x[i+1], and the last fires iff x[n-1] > x[n-2] |
| LocalMaxima.NoAdjacentMaxima | librosa/__init__.py:505 | two neighbouring positions never both fire |
| LocalMaxima.FirstMaximumFires | librosa/__init__.py:505 | the first occurrence of the largest value fires unless it is at position 0 |
| LocalMaxima.LocalMaxExample | librosa/__init__.py:505 | localmax([1, 3, 2]) = [False, True, False] |
| LocalMaxima.ConstantFiresNowhere | librosa/__init__.py:505 | a constant vector fires nowhere, its right edge included |

## Left out

- `load` and `resample`: audio file decoding and resampling are I/O and foreign calls.
- `hz_to_mel`, `mel_to_hz` and `hz_to_octs`: transcendental. `melfb` takes the band edges `binfreqs` as an input instead of deriving them from `sr`, `fmin`, `fmax` and `use_htk`.
- `dctfb` and `mfcc`: cosine bases, floating-point numerics.
- The numeric routines are function parameters: numpy's `fft` and `ifft` carry a length contract, while scipy's `hann`, `log10` and the complex magnitude carry none. `autocorrelate` is not given a convolution routine: it is stated with the exact lag sums that scipy's `fftconvolve` approximates.
- Floating point: every real is exact. Rounding is not modelled. NaN and infinities are modelled only where `frames_to_time` divides a vector by sr = 0; elsewhere they are not, and neither are the inf/NaN weights numpy produces without raising for `width = 0` or coincident edges.
- MelFilterbank.Melfb: requires strictly increasing edges and a non-zero width, which the mel conversion and a sensible width provide; numpy's NaN results outside that are not modelled.
- FrameSync.FeatureSync: requires every boundary frame to lie in [0, T]. Negative or too-large frames, which numpy's slicing would wrap or clip, are not modelled. `agg` is applied to each row on its own, as `numpy.mean(..., axis=1)` does.
- Hop lengths, FFT sizes, window sizes and `max_size` are non-negative integers. Negative values, which Python slicing and `xrange` would interpret, are not modelled.
- `autocorrelate` on an empty vector is modelled as returning an empty result.
- `frames_to_time` is modelled on integer frame numbers; the sampling rate and hop may be any integers.
- `stft`'s `sr` argument is unused by the code and does not appear in the model.
- `istft` indexes the inverse transform as a column (`px[:, 0]`), which holds when `d` is a numpy matrix. The model reads that column as the inverse transform of `d[:, i]`; a plain 2-D ndarray would raise IndexError on the first frame, and that failure is not modelled.
- `localmax` is modelled on one-dimensional vectors; the column-wise 2-D use and stereo signals are not.
- The example script `examples/hpss_beats.py` and the `beat`, `hpss` and `output` sub-modules are not part of this model.
