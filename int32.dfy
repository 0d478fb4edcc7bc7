/**
 * The fixed-width integers of the Rust source. Arithmetic that would overflow
 * in the source (and panic in a debug build) is excluded by preconditions that
 * use these bounds; Rust's `%` on signed integers is `Rem`.
 */
module Int32 {

  const MIN_I32: int := -0x8000_0000
  const MAX_I32: int := 0x7FFF_FFFF
  const MAX_U32: int := 0xFFFF_FFFF

  type I32 = x: int | MIN_I32 <= x <= MAX_I32
  type Byte = b: int | 0 <= b < 0x100

  predicate IsI32(x: int) {
    MIN_I32 <= x <= MAX_I32
  }

  /**
   * Rust's remainder: it truncates toward zero, so the result takes the sign
   * of the dividend (Dafny's `%` is Euclidean and never negative).
   */
  function Rem(a: int, n: int): (r: int)
    requires n > 0
    ensures a >= 0 ==> 0 <= r < n
    ensures a < 0 ==> -n < r <= 0
    ensures (a - r) % n == 0
  {
    if a >= 0 then
      RemainderIsCongruent(a, n);
      a % n
    else
      RemainderIsCongruent(-a, n);
      -((-a) % n)
  }

  /** Taking away (or adding back) the remainder leaves a multiple of `n`. */
  lemma RemainderIsCongruent(m: int, n: int)
    requires n > 0 && m >= 0
    ensures (m - m % n) % n == 0 && (m % n - m) % n == 0
  {
    var q := m / n;
    assert m - m % n == q * n;
    assert m % n - m == (-q) * n;
    MultipleMod(q, n);
    MultipleMod(-q, n);
  }

  /** A multiple of `n` leaves no remainder. */
  lemma MultipleMod(k: int, n: int)
    requires n > 0
    ensures (k * n) % n == 0
  {
    DivModUnique(k * n, n, k, 0);
  }

  /** Euclidean division has a unique quotient and remainder. */
  lemma DivModUnique(a: int, n: int, q: int, r: int)
    requires n > 0 && 0 <= r < n && a == q * n + r
    ensures a / n == q && a % n == r
  {
    var q', r' := a / n, a % n;
    assert a == q' * n + r' && 0 <= r' < n;
    if q' < q {
      MulMonotone(q' + 1, q, n);
    } else if q < q' {
      MulMonotone(q + 1, q', n);
    }
  }

  lemma MulMonotone(a: int, b: int, n: int)
    requires a <= b && 0 <= n
    ensures a * n <= b * n
  {
    assert b * n - a * n == (b - a) * n;
  }
}
