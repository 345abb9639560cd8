/**
 * Values shared by every stage of the spectral pipeline: the failures the
 * library raises, optional arguments, complex numbers and real sums.
 */
module Base {

  /** The exceptions the library (or numpy underneath it) raises. */
  datatype Error =
    | InsufficientPadSpace   // pad: the window is longer than the target length
    | NegativeDimension      // numpy allocation with a negative length
    | ZeroStep               // hop length 0: integer division or range step by zero
    | EmptyTransform         // FFT over zero points
    | ShapeMismatch          // numpy broadcasting failure between two vectors
    | EmptyInput             // x[0] on an empty vector
    | ZeroDivision           // float division by zero

  datatype Result<T> = Ok(value: T) | Err(error: Error)

  /** An optional keyword argument: None selects the documented default. */
  datatype Option<T> = None | Some(value: T) {
    function GetOr(default: T): T {
      match this
      case Some(v) => v
      case None => default
    }
  }

  /** A complex number as a pair of reals. */
  datatype Complex = Complex(re: real, im: real)

  function Conj(z: Complex): Complex {
    Complex(z.re, -z.im)
  }

  function Min(a: int, b: int): int {
    if a <= b then a else b
  }

  function MaxReal(a: real, b: real): real {
    if a >= b then a else b
  }

  function MinReal(a: real, b: real): real {
    if a <= b then a else b
  }

  function AbsReal(x: real): real {
    if x < 0.0 then -x else x
  }

  function Fill(v: real, n: nat): (s: seq<real>)
    ensures |s| == n && forall k :: 0 <= k < n ==> s[k] == v
  {
    seq(n, _ => v)
  }

  /** Left-to-right sum, peeled from the end so that loops can extend it. */
  function Sum(s: seq<real>): real {
    if s == [] then 0.0 else Sum(s[..|s| - 1]) + s[|s| - 1]
  }

  /** numpy.mean over a vector; only ever applied to a non-empty segment. */
  function Mean(s: seq<real>): real {
    if |s| == 0 then 0.0 else Sum(s) / (|s| as real)
  }

  predicate StrictlyIncreasing(s: seq<int>) {
    forall i, j :: 0 <= i < j < |s| ==> s[i] < s[j]
  }

  predicate StrictlyIncreasingReals(s: seq<real>) {
    forall i, j :: 0 <= i < j < |s| ==> s[i] < s[j]
  }
}
