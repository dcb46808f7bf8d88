/** Facts about Euclidean division and remainder used by the checksum proofs. */
module Arith {

  lemma {:induction false} MulAtLeast(c: int, m: int)
    requires c >= 1 && m > 0
    ensures c * m >= m
    decreases c
  {
    if c > 1 {
      MulAtLeast(c - 1, m);
      assert c * m == (c - 1) * m + m;
    }
  }

  /** Quotient and remainder are the unique pair with x == d * m + r and 0 <= r < m. */
  lemma DivModUnique(x: int, m: int, d: int, r: int)
    requires m > 0 && x == d * m + r && 0 <= r < m
    ensures x % m == r && x / m == d
  {
    var d0, r0 := x / m, x % m;
    assert x == d0 * m + r0;
    if d > d0 {
      assert (d - d0) * m == d * m - d0 * m;
      MulAtLeast(d - d0, m);
      assert false;
    } else if d < d0 {
      assert (d0 - d) * m == d0 * m - d * m;
      MulAtLeast(d0 - d, m);
      assert false;
    }
  }

  /** Adding a multiple of the modulus does not change the remainder. */
  lemma ModAddMultiple(a: int, q: int, m: int)
    requires m > 0
    ensures (a + q * m) % m == a % m
  {
    assert a == (a / m) * m + a % m;
    assert a + q * m == (a / m + q) * m + a % m;
    DivModUnique(a + q * m, m, a / m + q, a % m);
  }

  /** Reducing an addend first does not change the remainder of a sum. */
  lemma ModOfSum(a: int, b: int, m: int)
    requires m > 0
    ensures (a % m + b) % m == (a + b) % m
  {
    assert a == (a / m) * m + a % m;
    ModAddMultiple(a % m + b, a / m, m);
  }

  /** Reducing modulo a multiple mn of m first does not change the remainder modulo m. */
  lemma ModOfMod(a: int, m: int, n: int, mn: int)
    requires m > 0 && n > 0 && mn == m * n
    ensures (a % mn) % m == a % m
  {
    var q := a / mn;
    assert a == q * mn + a % mn;
    assert q * mn == (q * n) * m;
    ModAddMultiple(a % mn, q * n, m);
  }

  /** Adding y to x reduced modulo mn, reducing again and then modulo m, is adding modulo m. */
  lemma ModOfSumMod(x: int, y: int, m: int, n: int, mn: int)
    requires m > 0 && n > 0 && mn == m * n
    ensures ((x % mn + y) % mn) % m == (x + y) % m
  {
    ModOfSum(x, y, mn);
    ModOfMod(x + y, m, n, mn);
  }

  /** Removing one multiple of m lowers the quotient by one and keeps the remainder. */
  lemma DivModStep(x: int, m: int)
    requires m > 0 && x >= m
    ensures x / m == (x - m) / m + 1 && x % m == (x - m) % m
  {
    var y := x - m;
    assert y == (y / m) * m + y % m;
    assert x == (y / m + 1) * m + y % m;
    DivModUnique(x, m, y / m + 1, y % m);
  }

  /** Shifting a two-part number: (h*q + l)*b + x == h*(q*b) + (l*b + x). */
  lemma ShiftParts(h: int, q: int, l: int, b: int, x: int)
    ensures (h * q + l) * b + x == h * (q * b) + (l * b + x)
  {
    assert (h * q + l) * b == h * q * b + l * b;
  }

  lemma ModSmall(a: int, m: int)
    requires 0 <= a < m
    ensures a % m == a
  {
    DivModUnique(a, m, 0, a);
  }

  /** Adding congruent numbers gives congruent sums. */
  lemma ModAddCong(a: int, b: int, c: int, e: int, m: int)
    requires m > 0 && a % m == b % m && c % m == e % m
    ensures (a + c) % m == (b + e) % m
  {
    ModOfSum(a, c, m);
    ModOfSum(c, a % m, m);
    ModOfSum(b, e, m);
    ModOfSum(e, b % m, m);
  }

  /** One more copy of a: a * (n - 1) + a == a * n. */
  lemma MulStep(a: int, n: int)
    ensures a * (n - 1) + a == a * n
  {
  }

  lemma MulAdd(a: int, x: int, y: int)
    ensures a * x + a * y == a * (x + y)
  {
  }

  /** Products of nonnegative numbers grow with each factor. */
  lemma MulMono(a: int, b: int, c: int, d: int)
    requires 0 <= a <= c && 0 <= b <= d
    ensures a * b <= c * d
  {
    assert a * b <= c * b;
    assert c * b <= c * d;
  }
}
