/**
 * `getRandomIntInclusive(min, max)` of benchmarks/bench.js: round `min` up and
 * `max` down, then return `Math.floor(Math.random() * (hi - lo + 1) + lo)`.
 * The bounds are JavaScript numbers, modelled as reals; the random float is
 * replaced by the integer `k == Math.floor(u * n)` it leads to, where
 * `n == hi - lo + 1` and `u` is the draw in [0, 1).
 */
module RandomInt {

  /** `Math.floor`: the greatest integer not above `x`. */
  function Floor(x: real): (f: int)
    ensures f as real <= x < f as real + 1.0
  {
    x.Floor
  }

  /** `Math.ceil`: the least integer not below `x`. */
  function Ceil(x: real): (c: int)
    ensures x <= c as real < x + 1.0
  {
    -((-x).Floor)
  }

  /** The number of integers `Math.random()` is scaled over: `hi - lo + 1`. */
  function Span(min: real, max: real): (n: int)
    ensures n > 0 <==> Ceil(min) <= Floor(max)
  {
    Floor(max) - Ceil(min) + 1
  }

  /**
   * The values `Math.floor(u * n)` takes for `0 <= u < 1`: 0 to n - 1 when
   * the range is non-empty, and n to 0 when `n <= 0` (the degenerate range,
   * for which the source guards nothing).
   */
  predicate IsDraw(n: int, k: int) {
    if n > 0 then 0 <= k < n else n <= k <= 0
  }

  lemma MulNonNegative(a: real, b: real)
    requires a >= 0.0 && b >= 0.0
    ensures a * b >= 0.0
  {
  }

  lemma MulPositive(a: real, b: real)
    requires a > 0.0 && b > 0.0
    ensures a * b > 0.0
  {
  }

  /** `Math.floor(u * n)` for a `Math.random()` value `u` is a draw for `n`. */
  lemma DrawOfUniform(n: int, u: real)
    requires 0.0 <= u < 1.0
    ensures IsDraw(n, Floor(u * n as real))
  {
    var p, m := u * n as real, n as real;
    if n > 0 {
      MulNonNegative(u, m);
      MulPositive(1.0 - u, m);
      assert m - p == (1.0 - u) * m;
    } else {
      MulNonNegative(u, -m);
      MulNonNegative(1.0 - u, -m);
      assert -p == u * -m;
      assert p - m == (1.0 - u) * -m;
    }
  }

  /** Dividing by `d` a number strictly between 0 and `d` gives a number in (0, 1). */
  lemma Quotient(a: real, d: real)
    requires 0.0 < a < d || d < a < 0.0
    ensures 0.0 < a / d < 1.0 && a / d * d == a
  {
    var q := a / d;
    assert q * d == a;
    if d > 0.0 && q >= 1.0 {
      assert (q - 1.0) * d == a - d;
      MulNonNegative(q - 1.0, d);
    } else if d < 0.0 && q >= 1.0 {
      assert (q - 1.0) * -d == d - a;
      MulNonNegative(q - 1.0, -d);
    }
  }

  /** A `Math.random()` value that yields the draw `k`: every draw is reachable. */
  function UniformOfDraw(n: int, k: int): (u: real)
    requires IsDraw(n, k)
    ensures 0.0 <= u < 1.0 && Floor(u * n as real) == k
  {
    if k == 0 then 0.0
    else
      Quotient(k as real + 0.5, n as real);
      (k as real + 0.5) / n as real
  }

  /** `getRandomIntInclusive(min, max)` for the draw `k`. */
  function GetRandomIntInclusive(min: real, max: real, k: int): (r: int)
    requires IsDraw(Span(min, max), k)
    ensures Ceil(min) <= Floor(max) ==> Ceil(min) <= r <= Floor(max)
    ensures Floor(max) < Ceil(min) ==> Floor(max) + 1 <= r <= Ceil(min)
  {
    Ceil(min) + k
  }

  /** Rounding leaves integers unchanged. */
  lemma RoundIntegral(m: int)
    ensures Ceil(m as real) == m && Floor(m as real) == m
  {
  }

  /** For integer bounds the result is `min + k`, inside [min, max]. */
  lemma IntegralBounds(min: int, max: int, k: int)
    requires min <= max && 0 <= k < max - min + 1
    ensures Span(min as real, max as real) == max - min + 1
    ensures GetRandomIntInclusive(min as real, max as real, k) == min + k
    ensures min <= GetRandomIntInclusive(min as real, max as real, k) <= max
  {
    RoundIntegral(min);
    RoundIntegral(max);
  }

  /** Every integer of [ceil(min), floor(max)] is the result of exactly one draw. */
  lemma EveryValueDrawn(min: real, max: real, v: int)
    requires Ceil(min) <= v <= Floor(max)
    ensures IsDraw(Span(min, max), v - Ceil(min))
    ensures GetRandomIntInclusive(min, max, v - Ceil(min)) == v
    ensures forall k :: IsDraw(Span(min, max), k) && GetRandomIntInclusive(min, max, k) == v ==> k == v - Ceil(min)
  {
  }
}
