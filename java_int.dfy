/**
 * Java's 32-bit `int` arithmetic, the truncating `/`, and the narrowing
 * cast to `byte`, stated over Dafny's unbounded integers.
 */
module JavaInt {
  const TWO_32: int := 0x1_0000_0000
  const MIN_INT: int := -0x8000_0000
  const MAX_INT: int := 0x7fff_ffff

  predicate InRange(x: int)
  {
    MIN_INT <= x <= MAX_INT
  }

  /** The `int` congruent to `x` modulo 2^32: what a 32-bit result keeps. */
  function Wrap(x: int): (r: int)
    ensures InRange(r)
    ensures (x - r) % TWO_32 == 0
    ensures InRange(x) ==> r == x
  {
    var m := x % TWO_32;
    if m > MAX_INT then m - TWO_32 else m
  }

  function Add(a: int, b: int): int { Wrap(a + b) }
  function Sub(a: int, b: int): int { Wrap(a - b) }
  function Mul(a: int, b: int): int { Wrap(a * b) }

  function Abs(a: int): nat { if a < 0 then -a else a }

  /**
   * Integer division rounding toward zero: the quotient of the magnitudes,
   * negated when the operands' signs differ.
   */
  function Quot(a: int, b: int): int
    requires b != 0
  {
    if (a < 0) == (b < 0) then Abs(a) / Abs(b) else -(Abs(a) / Abs(b))
  }

  /**
   * The remainder `a - Quot(a, b) * b` is smaller than the divisor in
   * magnitude and carries the sign of the dividend (section 15.17.2 of the
   * Java Language Specification).
   */
  lemma QuotRemainder(a: int, b: int)
    requires b != 0
    ensures var r := a - Quot(a, b) * b;
      Abs(r) < Abs(b) && (r == 0 || (r > 0 <==> a > 0))
  {
    var n: int, d: int := Abs(a), Abs(b);
    var m: int := n / d;
    var q := Quot(a, b);
    assert q == if (a < 0) == (b < 0) then m else -m;
    DivModOfNatural(n, d);
    ProductBySigns(a, b, m, d, q);
    var md, qb := m * d, q * b;
    RemainderBySigns(a, n, d, md, qb);
    assert a - Quot(a, b) * b == a - qb;
  }

  /** The remainder's bounds once the products are known; linear only. */
  lemma RemainderBySigns(a: int, n: int, d: int, md: int, qb: int)
    requires n == Abs(a) && 0 <= md && 0 <= n - md < d
    requires qb == if a < 0 then -md else md
    ensures Abs(a - qb) < d && (a - qb == 0 || (a - qb > 0 <==> a > 0))
  {
  }

  lemma ProductBySigns(a: int, b: int, m: int, d: int, q: int)
    requires d == Abs(b) && m >= 0 && q == (if (a < 0) == (b < 0) then m else -m)
    ensures m * d >= 0
    ensures q * b == if a < 0 then -(m * d) else m * d
  {
  }

  lemma DivModOfNatural(n: int, d: int)
    requires n >= 0 && d > 0
    ensures n / d >= 0 && 0 <= n - (n / d) * d < d
  {
  }

  /** Java's `a / b` on `int`; only `MIN_INT / -1` overflows, and wraps. */
  function Div(a: int, b: int): int
    requires b != 0
  {
    Wrap(Quot(a, b))
  }

  /** The narrowing cast `(byte) x`: the low eight bits, read as signed. */
  function ToByte(x: int): (r: int)
    ensures -128 <= r <= 127
    ensures (x - r) % 256 == 0
    ensures -128 <= x <= 127 ==> r == x
  {
    var m := x % 256;
    if m > 127 then m - 256 else m
  }

  /** On non-negative operands Java's division is Dafny's. */
  lemma QuotOfNonNegative(a: int, b: int)
    requires a >= 0 && b > 0
    ensures Quot(a, b) == a / b
  {
  }
}
