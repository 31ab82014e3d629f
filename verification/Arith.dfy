/** Division, powers of two and positional notation on unbounded naturals. */
module Arith {

  lemma DivModUnique(x: int, d: int, q: int, r: int)
    requires 0 <= r < d && x == q * d + r
    ensures x / d == q && x % d == r
  {
    var k := q - x / d;
    assert k * d == x % d - r;
    if k >= 1 {
      MulMono(1, k, d);
    } else if k <= -1 {
      MulMono(k, -1, d);
    }
  }

  lemma MulMono(a: int, b: int, c: nat)
    requires a <= b
    ensures a * c <= b * c
  {}

  lemma DivMono(x: int, y: int, d: nat)
    requires d > 0 && x <= y
    ensures x / d <= y / d
  {
    if y / d < x / d {
      MulMono(y / d + 1, x / d, d);
    }
  }

  /** The quotient lies between its two defining products. */
  lemma DivBounds(x: int, d: nat)
    requires d > 0
    ensures x / d * d <= x < x / d * d + d
  {}

  /** Peeling the last digit off a natural number. */
  lemma LastDigit(n: nat, b: nat)
    requires b > 1
    ensures n / b * b + n % b == n
    ensures 0 <= n / b && 0 <= n % b < b
    ensures n > 0 ==> n / b < n
  {
    if n > 0 {
      MulMono(2, b, n);
      DivBelow(n, b, n);
    }
  }

  /** A bound on the numerator is a bound on the quotient. */
  lemma DivBelow(x: int, d: nat, k: int)
    requires d > 0
    ensures x < k * d <==> x / d < k
    ensures k * d <= x <==> k <= x / d
  {
    DivBounds(x, d);
    if x / d < k {
      MulMono(x / d + 1, k, d);
    } else {
      MulMono(k, x / d, d);
    }
  }

  lemma DivLe(x: nat, d: nat)
    requires d > 0
    ensures 0 <= x / d <= x
  {
    MulMono(1, d, x);
    DivBelow(x, d, x + 1);
    assert (x + 1) * d == x * d + d;
  }

  lemma DivDiv(x: nat, a: nat, b: nat)
    requires a > 0 && b > 0
    ensures a * b > 0
    ensures x / (a * b) == x / a / b
  {
    var q := x / a / b;
    var r := (x / a % b) * a + x % a;
    assert x == q * (a * b) + r by {
      assert x == x / a * a + x % a;
      assert x / a == q * b + x / a % b;
      assert x / a * a == q * b * a + (x / a % b) * a;
      assert q * b * a == q * (a * b);
    }
    assert r < a * b by { MulMono(x / a % b, b - 1, a); }
    assert r >= 0;
    DivModUnique(x, a * b, q, r);
  }

  /** Adding a multiple of the divisor shifts the quotient. */
  lemma DivAddMultiple(x: int, k: int, d: nat)
    requires d > 0
    ensures (x + k * d) / d == x / d + k
    ensures (x + k * d) % d == x % d
  {
    assert x + k * d == (x / d + k) * d + x % d;
    DivModUnique(x + k * d, d, x / d + k, x % d);
  }

  function Pow2(n: nat): (p: nat)
    ensures p > 0
  {
    if n == 0 then 1 else 2 * Pow2(n - 1)
  }

  lemma {:induction false} Pow2Add(m: nat, n: nat)
    ensures Pow2(m + n) == Pow2(m) * Pow2(n)
  {
    if m > 0 {
      Pow2Add(m - 1, n);
    }
  }

  lemma {:induction false} Pow2Mono(m: nat, n: nat)
    requires m <= n
    ensures Pow2(m) <= Pow2(n)
  {
    if m < n {
      Pow2Mono(m, n - 1);
    }
  }

  lemma Pow2Values()
    ensures Pow2(32) == 0x1_0000_0000
    ensures Pow2(64) == 0x1_0000_0000_0000_0000
    ensures Pow2(128) == 0x1_0000_0000_0000_0000_0000_0000_0000_0000
  {
    Pow2Byte();
    hide Pow2;
    Pow2Add(8, 8);
    Pow2Add(16, 16);
    Pow2Add(32, 32);
    Pow2Add(64, 64);
  }

  lemma Pow2Byte()
    ensures Pow2(8) == 0x100
  {}

  function Pow(b: nat, n: nat): nat {
    if n == 0 then 1 else b * Pow(b, n - 1)
  }

  lemma {:induction false} PowPositive(b: nat, n: nat)
    requires b > 0
    ensures Pow(b, n) > 0
  {
    if n > 0 {
      PowPositive(b, n - 1);
    }
  }

  lemma {:induction false} PowAdd(b: nat, m: nat, n: nat)
    ensures Pow(b, m + n) == Pow(b, m) * Pow(b, n)
  {
    if m > 0 {
      PowAdd(b, m - 1, n);
      assert b * (Pow(b, m - 1) * Pow(b, n)) == b * Pow(b, m - 1) * Pow(b, n);
    }
  }
}
