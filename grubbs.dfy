/** Pieces shared by both ESD variants: the error outcomes the Python code can
    raise, and the arithmetic of Grubbs' critical value that does not depend
    on the Student-t quantile. The quantile and the square root are floating
    point library calls; the critical value itself stays an abstract function
    of (size, alpha) supplied by the caller. */
module Grubbs {

  datatype Option<T> = None | Some(value: T)

  /** The exceptions the modelled code can raise. */
  datatype Error =
    | EmptySeries       // np.argmax of an empty array raises ValueError
    | ZeroDivision      // alpha / (2 * size) with size == 0 raises ZeroDivisionError
    | TooManyAnomalies  // seasonal_esd's explicit ValueError guard
    | DecompositionFailed  // the seasonal decomposition rejects its input

  datatype Result<T> = Ok(value: T) | Err(error: Error)

  /** The critical value of Grubbs' test as a function of the active size and
      the significance level; its floating point internals are not modelled. */
  type Critical = (int, real) -> real

  function Abs(x: real): (r: real)
    ensures r >= 0.0 && (r == x || r == -x)
  {
    if x < 0.0 then -x else x
  }

  /** The probability handed to the Student-t quantile: 1 - alpha / (2 * size).
      For a significance level in (0, 1) it lies strictly between 1/2 and 1,
      so the quantile of the symmetric t-distribution is positive. */
  function TailProbability(size: int, alpha: real): (p: real)
    requires size != 0
    ensures 0.0 < alpha < 1.0 && size >= 1 ==> 0.5 < p < 1.0
  {
    var q := alpha / (2 * size) as real;
    assert 0.0 < alpha < 1.0 && size >= 1 ==> 0.0 < q < 0.5 by {
      if 0.0 < alpha < 1.0 && size >= 1 {
        var d := (2 * size) as real;
        assert d >= 2.0;
        assert q * d == alpha;
      }
    }
    1.0 - q
  }

  /** Degrees of freedom of the t-distribution for an active size. */
  function DegreesOfFreedom(size: int): (df: int)
    ensures df >= 1 <==> size >= 3
  {
    size - 2
  }

  /** The quantity under the square root of the denominator:
      size^2 - 2 * size + size * t^2. */
  function Radicand(size: int, t: real): (r: real)
    ensures size >= 3 ==> r > 0.0
    ensures r == (size as real) * ((size - 2) as real + t * t)
  {
    var m := size as real;
    assert m * m - 2.0 * m + m * (t * t) == m * ((size - 2) as real + t * t);
    if size >= 3 then
      assert m * (m - 2.0) >= 3.0 by {
        assert m >= 3.0;
        assert m - 2.0 >= 1.0;
      }
      assert m * (t * t) >= 0.0;
      m * m - 2.0 * m + m * (t * t)
    else
      m * m - 2.0 * m + m * (t * t)
  }

  /** calculate_critical_value: fails exactly when the size is zero (the first
      operation of the formula divides by 2 * size); otherwise the abstract
      critical value at that size. */
  function CriticalValue(size: int, alpha: real, critical: Critical): (r: Result<real>)
    ensures r.Err? <==> size == 0
    ensures r.Err? ==> r.error == ZeroDivision
    ensures r.Ok? ==> r.value == critical(size, alpha)
  {
    if size == 0 then Err(ZeroDivision) else Ok(critical(size, alpha))
  }

  function Min(a: int, b: int): (m: int)
    ensures m <= a && m <= b && (m == a || m == b)
  {
    if a <= b then a else b
  }

  /** Number of rounds of `for curr in range(max_anomalies)`: none for a
      bound of 0 or below, the bound itself otherwise. */
  function RoundCount(maxAnomalies: int): (r: nat)
    ensures maxAnomalies <= 0 ==> r == 0
    ensures maxAnomalies > 0 ==> r == maxAnomalies
  {
    if maxAnomalies < 0 then 0 else maxAnomalies
  }

  /** No index appears twice. */
  predicate Distinct(h: seq<nat>)
  {
    forall i, j :: 0 <= i < j < |h| ==> h[i] != h[j]
  }
}
