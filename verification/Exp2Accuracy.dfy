/**
 How close the exponential is to the true power of two.  No table takes part in the
 statements: a value is compared with a power by raising it, over the reals.
 */
module Exp2Accuracy {
  import opened Arith
  import opened Exp2
  import opened Prelude
  import opened Wide

  const TWO_64: real := 18446744073709551616.0
  const TWO_65: real := 36893488147419103232.0
  const TWO_72: real := 4722366482869645213696.0

  // ------------------------------------------------------------------
  // Powers over the reals
  // ------------------------------------------------------------------

  /** x multiplied n times. */
  function Raise(x: real, n: nat): real {
    if n == 0 then 1.0 else x * Raise(x, n - 1)
  }

  lemma {:induction false} RaisePositive(x: real, n: nat)
    requires x > 0.0
    ensures Raise(x, n) > 0.0
  {
    if n > 0 {
      RaisePositive(x, n - 1);
      TimesPositive(x, Raise(x, n - 1));
    }
  }

  lemma TimesPositive(x: real, y: real)
    requires x > 0.0 && y > 0.0
    ensures x * y > 0.0
  {}

  lemma TimesMono(a: real, b: real, c: real, d: real)
    requires 0.0 <= a <= b && 0.0 <= c <= d
    ensures 0.0 <= a * c <= b * d
  {
    assert b * d - a * c == (b - a) * d + a * (d - c);
    assert (b - a) * d >= 0.0 && a * (d - c) >= 0.0 && a * c >= 0.0;
  }

  lemma {:induction false} RaiseMono(x: real, y: real, n: nat)
    requires 0.0 <= x <= y
    ensures 0.0 <= Raise(x, n) <= Raise(y, n)
  {
    if n > 0 {
      RaiseMono(x, y, n - 1);
      TimesMono(x, y, Raise(x, n - 1), Raise(y, n - 1));
    }
  }

  lemma {:induction false} RaiseStrict(x: real, y: real, n: nat)
    requires 0.0 < x < y && n > 0
    ensures Raise(x, n) < Raise(y, n)
  {
    RaiseMono(x, y, n - 1);
    RaisePositive(x, n - 1);
    var a, b := Raise(x, n - 1), Raise(y, n - 1);
    TimesMono(y, y, a, b);
    TimesPositive(y - x, a);
    assert (y - x) * a == y * a - x * a;
  }

  lemma {:induction false} RaiseAdd(x: real, m: nat, n: nat)
    ensures Raise(x, m + n) == Raise(x, m) * Raise(x, n)
  {
    if m > 0 {
      RaiseAdd(x, m - 1, n);
      Associate(x, Raise(x, m - 1), Raise(x, n));
    }
  }

  lemma Associate(x: real, y: real, z: real)
    ensures x * (y * z) == x * y * z
  {}

  lemma {:induction false} RaiseTimes(x: real, y: real, n: nat)
    ensures Raise(x * y, n) == Raise(x, n) * Raise(y, n)
  {
    if n > 0 {
      RaiseTimes(x, y, n - 1);
      Exchange(x, y, Raise(x, n - 1), Raise(y, n - 1));
    }
  }

  lemma Exchange(a: real, b: real, c: real, d: real)
    ensures a * b * (c * d) == a * c * (b * d)
  {
    Associate(a * b, c, d);
    Associate(a, b, c);
    Associate(a, c, b);
    Associate(a * c, b, d);
    assert b * c == c * b;
  }

  lemma {:induction false} RaiseOne(n: nat)
    ensures Raise(1.0, n) == 1.0
  {
    if n > 0 {
      RaiseOne(n - 1);
    }
  }

  lemma {:induction false} RaiseRaise(x: real, m: nat, n: nat)
    ensures Raise(Raise(x, m), n) == Raise(x, m * n)
  {
    if n > 0 {
      RaiseRaise(x, m, n - 1);
      assert m * n == m + m * (n - 1);
      RaiseAdd(x, m, m * (n - 1));
    }
  }

  /** Squaring first halves the exponent. */
  lemma RaiseSquare(x: real, n: nat)
    ensures Raise(x, 2 * n) == Raise(x * x, n)
  {
    RaiseTimes(x, x, n);
    RaiseAdd(x, n, n);
  }

  // ------------------------------------------------------------------
  // The factors
  // ------------------------------------------------------------------

  /** The 2^(i + 1)-th root of two from below, in units of 2^-72. */
  function Root(i: nat): nat
    requires i < 64
  {
    match i
    case 0 => 0x16A09E667F3BCC908B2
    case 1 => 0x1306FE0A31B7152DE8C
    case 2 => 0x1172B83C7D517ADCDF7
    case 3 => 0x10B5586CF9890F6298B
    case 4 => 0x1059B0D31585743AE7C
    case 5 => 0x102C9A3E778060EE6F7
    case 6 => 0x10163DA9FB33356D84A
    case 7 => 0x100B1AFA5ABCBED6129
    case 8 => 0x10058C86DA1C09EA1FE
    case 9 => 0x1002C605E2E8CEC506C
    case 10 => 0x100162F3904051FA128
    case 11 => 0x1000B175EFFDC76BA38
    case 12 => 0x100058BA01FB9F96D6C
    case 13 => 0x10002C5CC37DA9491D0
    case 14 => 0x1000162E525EE054753
    case 15 => 0x10000B17255775C0405
    case 16 => 0x1000058B91B5BC9AE2E
    case 17 => 0x100002C5C89D5EC6CA4
    case 18 => 0x10000162E43F4F83105
    case 19 => 0x100000B1721BCFC99D9
    case 20 => 0x10000058B90CF1E6D97
    case 21 => 0x1000002C5C863B73F00
    case 22 => 0x100000162E430E5A18E
    case 23 => 0x1000000B1721835514A
    case 24 => 0x100000058B90C0B48C5
    case 25 => 0x10000002C5C8601CC6A
    case 26 => 0x1000000162E42FFF037
    case 27 => 0x10000000B17217FBA9C
    case 28 => 0x1000000058B90BFCDEE
    case 29 => 0x100000002C5C85FE31F
    case 30 => 0x10000000162E42FF099
    case 31 => 0x100000000B17217F80F
    case 32 => 0x10000000058B90BFBF8
    case 33 => 0x1000000002C5C85FDF8
    case 34 => 0x100000000162E42FEFB
    case 35 => 0x1000000000B17217F7D
    case 36 => 0x100000000058B90BFBE
    case 37 => 0x10000000002C5C85FDE
    case 38 => 0x1000000000162E42FEE
    case 39 => 0x10000000000B17217F6
    case 40 => 0x1000000000058B90BFA
    case 41 => 0x100000000002C5C85FC
    case 42 => 0x10000000000162E42FD
    case 43 => 0x100000000000B17217E
    case 44 => 0x10000000000058B90BE
    case 45 => 0x1000000000002C5C85E
    case 46 => 0x100000000000162E42E
    case 47 => 0x1000000000000B17216
    case 48 => 0x100000000000058B90A
    case 49 => 0x10000000000002C5C84
    case 50 => 0x1000000000000162E41
    case 51 => 0x10000000000000B1720
    case 52 => 0x1000000000000058B8F
    case 53 => 0x100000000000002C5C7
    case 54 => 0x10000000000000162E3
    case 55 => 0x100000000000000B171
    case 56 => 0x10000000000000058B8
    case 57 => 0x1000000000000002C5B
    case 58 => 0x100000000000000162D
    case 59 => 0x1000000000000000B16
    case 60 => 0x100000000000000058A
    case 61 => 0x10000000000000002C4
    case 62 => 0x1000000000000000161
    case _ => 0x10000000000000000B0
  }

  lemma RootStart()
    ensures Root(0) * Root(0) < 0x2_0000_0000_0000_0000_0000_0000_0000_0000_0000
    ensures 0x2_0000_0000_0000_0000_0000_0000_0000_0000_0000 < (Root(0) + 2) * (Root(0) + 2)
  {}

  /** Each is the root of the one before it, up to two units. */
  lemma RootStep(i: nat)
    requires 0 < i < 64
    ensures Root(i) * Root(i) <= Root(i - 1) * 0x100_0000_0000_0000_0000
    ensures (Root(i - 1) + 2) * 0x100_0000_0000_0000_0000 <= (Root(i) + 2) * (Root(i) + 2)
  {
    hide Root;
    RootDown(i);
    RootUp(i);
  }

  lemma RootDown(i: nat)
    requires 0 < i < 64
    ensures Root(i) * Root(i) <= Root(i - 1) * 0x100_0000_0000_0000_0000
  {}

  lemma RootUp(i: nat)
    requires 0 < i < 64
    ensures (Root(i - 1) + 2) * 0x100_0000_0000_0000_0000 <= (Root(i) + 2) * (Root(i) + 2)
  {}

  /** And lies within half a unit of the factor. */
  lemma RootNear(i: nat)
    requires i < 64
    ensures 0 < (2 * Factor(i) - 1) * 0x80 <= Root(i)
    ensures Root(i) + 2 <= (2 * Factor(i) + 1) * 0x80
  {}

  /** A natural number in units of 2^-72. */
  function Fraction(n: nat): real {
    n as real / TWO_72
  }

  lemma FractionSquare(a: nat, b: nat)
    ensures a * a <= b * 0x100_0000_0000_0000_0000 ==> Fraction(a) * Fraction(a) <= Fraction(b)
    ensures b * 0x100_0000_0000_0000_0000 <= a * a ==> Fraction(b) <= Fraction(a) * Fraction(a)
  {
    assert Fraction(a) * Fraction(a) == (a * a) as real / (TWO_72 * TWO_72);
    assert Fraction(b) == (b * 0x100_0000_0000_0000_0000) as real / (TWO_72 * TWO_72);
  }

  lemma Doubled(i: nat)
    ensures Pow2(i + 1) == 2 * Pow2(i)
  {}

  lemma FirstPower(n: nat)
    requires n * n < 0x2_0000_0000_0000_0000_0000_0000_0000_0000_0000 < (n + 2) * (n + 2)
    ensures Raise(Fraction(n), Pow2(1)) < 2.0 < Raise(Fraction(n + 2), Pow2(1))
  {
    FirstBelow(n);
    FirstAbove(n + 2);
  }

  lemma FirstBelow(n: nat)
    requires n * n < 0x2_0000_0000_0000_0000_0000_0000_0000_0000_0000
    ensures Raise(Fraction(n), Pow2(1)) < 2.0
  {
    hide Raise, Pow2;
    StartSquare(n);
    RaiseTwice(Fraction(n));
  }

  lemma FirstAbove(n: nat)
    requires 0x2_0000_0000_0000_0000_0000_0000_0000_0000_0000 < n * n
    ensures 2.0 < Raise(Fraction(n), Pow2(1))
  {
    hide Raise, Pow2;
    StartSquare(n);
    RaiseTwice(Fraction(n));
  }

  /** Raised to its power a root stays below two, and two units more exceed it. */
  lemma {:induction false} RootPower(i: nat)
    requires i < 64
    ensures Raise(Fraction(Root(i)), Pow2(i + 1)) < 2.0 < Raise(Fraction(Root(i) + 2), Pow2(i + 1))
  {
    hide Root, Fraction, Raise, Pow2;
    if i == 0 {
      RootStart();
      FirstPower(Root(0));
    } else {
      RootPower(i - 1);
      Doubled(i);
      NextRoot(i, Pow2(i));
    }
  }

  lemma NextRoot(i: nat, n: nat)
    requires 0 < i < 64
    ensures Raise(Fraction(Root(i)), 2 * n) <= Raise(Fraction(Root(i - 1)), n)
    ensures Raise(Fraction(Root(i - 1) + 2), n) <= Raise(Fraction(Root(i) + 2), 2 * n)
  {
    hide Root, Fraction, Raise;
    RootStep(i);
    var x, y, x', y' := Root(i), Root(i) + 2, Root(i - 1), Root(i - 1) + 2;
    FractionSquare(x, x');
    FractionSquare(y, y');
    FractionPositive(x);
    FractionPositive(y);
    FractionPositive(x');
    FractionPositive(y');
    RaiseHalf(Fraction(x), Fraction(x'), n);
    RaiseHalf(Fraction(y), Fraction(y'), n);
  }

  lemma RaiseHalf(x: real, y: real, n: nat)
    requires 0.0 <= x && 0.0 <= y
    ensures x * x <= y ==> Raise(x, 2 * n) <= Raise(y, n)
    ensures y <= x * x ==> Raise(y, n) <= Raise(x, 2 * n)
  {
    hide Raise;
    RaiseSquare(x, n);
    TimesMono(0.0, x, 0.0, x);
    if x * x <= y {
      RaiseMono(x * x, y, n);
    }
    if y <= x * x {
      RaiseMono(y, x * x, n);
    }
  }

  lemma FractionPositive(n: nat)
    ensures Fraction(n) >= 0.0
  {}

  lemma RaiseTwice(x: real)
    ensures Raise(x, Pow2(1)) == x * x
  {
    assert Pow2(1) == 2 * Pow2(0) == 2;
    assert Raise(x, 2) == x * Raise(x, 1) && Raise(x, 1) == x * Raise(x, 0) && Raise(x, 0) == 1.0;
  }

  lemma StartSquare(n: nat)
    ensures n * n < 0x2_0000_0000_0000_0000_0000_0000_0000_0000_0000 ==> Fraction(n) * Fraction(n) < 2.0
    ensures 0x2_0000_0000_0000_0000_0000_0000_0000_0000_0000 < n * n ==> 2.0 < Fraction(n) * Fraction(n)
  {
    assert Fraction(n) * Fraction(n) == (n * n) as real / (TWO_72 * TWO_72);
  }

  /** Half a unit below and above a factor of the chain, as a number. */
  function Below(f: nat): real {
    (2.0 * f as real - 1.0) / TWO_65
  }

  function Above(f: nat): real {
    (2.0 * f as real + 1.0) / TWO_65
  }

  lemma NearFraction(f: nat, n: nat)
    requires f > 0
    ensures (2 * f - 1) * 0x80 <= n ==> 0.0 < Below(f) <= Fraction(n)
    ensures n <= (2 * f + 1) * 0x80 ==> Fraction(n) <= Above(f)
  {
    assert Below(f) == ((2 * f - 1) * 0x80) as real / TWO_72;
    assert Above(f) == ((2 * f + 1) * 0x80) as real / TWO_72;
  }

  /** Each factor is the integer nearest to 2^64 times the 2^(i + 1)-th root of two: half
      a unit less, raised to the power 2^(i + 1), is below two, and half a unit more is
      above. */
  lemma FactorNearest(i: nat)
    requires i < 64
    ensures Raise((2.0 * Factor(i) as real - 1.0) / 36893488147419103232.0, Pow2(i + 1)) < 2.0
    ensures Raise((2.0 * Factor(i) as real + 1.0) / 36893488147419103232.0, Pow2(i + 1)) > 2.0
  {
    hide Root, Factor, Fraction, Raise;
    RootPower(i);
    RootNear(i);
    FactorsSpread(i);
    NearFraction(Factor(i), Root(i));
    NearFraction(Factor(i), Root(i) + 2);
    FractionPositive(Root(i) + 2);
    RaiseMono(Below(Factor(i)), Fraction(Root(i)), Pow2(i + 1));
    RaiseMono(Fraction(Root(i) + 2), Above(Factor(i)), Pow2(i + 1));
  }

  // ------------------------------------------------------------------
  // The chain
  // ------------------------------------------------------------------

  /** To the power 2^64 the factor of bit 63 - i is two to the weight of its bit. */
  lemma FactorPower(i: nat)
    requires i < 64
    ensures Raise(Below(Factor(i)), Pow2(64)) <= Raise(2.0, Pow2(63 - i)) <= Raise(Above(Factor(i)), Pow2(64))
  {
    hide Factor, Raise, Pow2;
    FactorNearest(i);
    FactorsSpread(i);
    BelowPositive(Factor(i));
    Pow2Add(i + 1, 63 - i);
    var n, p := Pow2(i + 1), Pow2(63 - i);
    var x, y := Below(Factor(i)), Above(Factor(i));
    RaiseRaise(x, n, p);
    RaiseRaise(y, n, p);
    RaiseMono(x, x, n);
    RaiseMono(Raise(x, n), 2.0, p);
    RaiseMono(2.0, Raise(y, n), p);
  }

  lemma BelowPositive(f: nat)
    requires f > 0
    ensures 0.0 < Below(f) < Above(f)
  {}

  /** What the rounding of n factors may have added, and taken away. */
  function Shrunk(n: nat): real {
    1.0 - n as real / TWO_64
  }

  function Grown(n: nat): real {
    1.0 + 2.0 * n as real / TWO_64
  }

  lemma ShrunkStep(n: nat)
    requires 0 < n <= 64
    ensures 0.0 < Shrunk(n) <= Shrunk(n - 1) * Shrunk(1) && Shrunk(n) <= Shrunk(n - 1) && 0.0 < Shrunk(1)
  {
    var k, d := (n - 1) as real / TWO_64, 1.0 / TWO_64;
    assert Shrunk(n - 1) * Shrunk(1) == 1.0 - k - d + k * d;
    assert k >= 0.0 && d > 0.0 && k * d >= 0.0;
  }

  lemma GrownStep(n: nat)
    requires 0 < n <= 64
    ensures 0.0 <= Grown(n - 1) * Widened() <= Grown(n) && 1.0 <= Grown(n - 1) <= Grown(n)
  {
    var k, d := 2.0 * (n - 1) as real / TWO_64, 1.0 / TWO_64;
    assert Grown(n - 1) * (1.0 + d) == 1.0 + k + d + k * d;
    assert k <= 1.0 && k * d <= d by {
      TimesMono(k, 1.0, d, d);
    }
  }

  /** A value less what n roundings may have added, and with what they took away. */
  function Under(c: nat, n: nat): real {
    c as real * Shrunk(n)
  }

  function Over(c: nat, n: nat): real {
    c as real * Grown(n)
  }

  lemma UnderStep(c: nat, n: nat)
    requires 0 < n <= 64
    ensures 0.0 <= Under(c, n) <= Under(c, n - 1) * Shrunk(1) && Under(c, n) <= Under(c, n - 1)
    ensures Under(c, 0) == c as real && 0.0 < Shrunk(1)
  {
    hide Shrunk;
    ShrunkStep(n);
    Unrounded();
    var x := c as real;
    TimesMono(x, x, Shrunk(n), Shrunk(n - 1));
    TimesMono(x, x, Shrunk(n), Shrunk(n - 1) * Shrunk(1));
    Associate(x, Shrunk(n - 1), Shrunk(1));
  }

  lemma OverStep(c: nat, n: nat)
    requires 0 < n <= 64
    ensures 0.0 <= Over(c, n - 1) * Widened() <= Over(c, n) && 0.0 <= Over(c, n - 1) <= Over(c, n)
    ensures Over(c, 0) == c as real
  {
    hide Grown;
    GrownStep(n);
    Unrounded();
    var x := c as real;
    TimesMono(x, x, Grown(n - 1), Grown(n));
    TimesMono(x, x, Grown(n - 1) * Widened(), Grown(n));
    Associate(x, Grown(n - 1), Widened());
    TimesMono(0.0, Over(c, n - 1), 0.0, Widened());
  }

  function Widened(): real {
    1.0 + 1.0 / TWO_64
  }

  lemma Unrounded()
    ensures Shrunk(0) == 1.0 == Grown(0) && Widened() > 0.0
  {}

  /** One step is no more than the factor from below, up to its rounding. */
  lemma StepBelow(r: nat, f: nat)
    requires B64 <= f
    ensures 0.0 <= Step(r, f) as real * Shrunk(1) <= r as real * Below(f)
  {
    StepParts(r, f);
    var s, x, g := Step(r, f) as real, r as real, f as real;
    assert s * TWO_64 <= x * g;
    StepBelowReal(s, x, g);
  }

  lemma StepBelowReal(s: real, x: real, g: real)
    requires 0.0 <= s && 0.0 <= x && s * TWO_64 <= x * g && TWO_64 <= g
    ensures 0.0 <= s * (1.0 - 1.0 / TWO_64) <= x * ((2.0 * g - 1.0) / TWO_65)
  {
    var d := 1.0 / TWO_64;
    assert s <= x * g / TWO_64;
    TimesMono(s, x * g / TWO_64, 1.0 - d, 1.0 - d);
    TimesMono(x, x, 1.0, g * d);
    assert x * g / TWO_64 * (1.0 - d) == (x * g - x * (g * d)) / TWO_64;
    assert x * ((2.0 * g - 1.0) / TWO_65) == (x * g - x / 2.0) / TWO_64;
  }

  lemma StepAbove(r: nat, f: nat)
    requires B64 <= f <= 2 * B64 && B128 <= r
    ensures 0.0 <= r as real * Above(f) <= Step(r, f) as real * Widened()
  {
    StepParts(r, f);
    var s, x, g := Step(r, f) as real, r as real, f as real;
    assert x * g < s * TWO_64 + TWO_64;
    StepAboveReal(s, x, g);
  }

  lemma StepAboveReal(s: real, x: real, g: real)
    requires TWO_64 * TWO_64 <= x && x * g < s * TWO_64 + TWO_64 && TWO_64 <= g <= 2.0 * TWO_64
    ensures 0.0 <= x * ((2.0 * g + 1.0) / TWO_65) <= s * (1.0 + 1.0 / TWO_64)
  {
    var d := 1.0 / TWO_64;
    var low := x * g / TWO_64 - 1.0;
    assert x * ((2.0 * g + 1.0) / TWO_65) == x * g / TWO_64 + x * d / 2.0;
    TimesMono(x, x, TWO_64, g);
    TimesMono(low, s, 1.0 + d, 1.0 + d);
    assert low * (1.0 + d) == x * g / TWO_64 + x * g / TWO_64 * d - 1.0 - d;
    assert x * g / TWO_64 * d >= x * d;
    assert x * d >= TWO_64;
  }

  /** The chain, one bit at a time. */
  lemma ChainBit(i: nat, r: nat, a: nat)
    requires i < 64 && a < Pow2(64 - i)
    ensures var fs, w := Exp2Factors(), Pow2(63 - i);
            Chain(fs, i, r, a)
            == if a >= w then Chain(fs, i + 1, Step(r, Factor(i)), a - w) else Chain(fs, i + 1, r, a)
    ensures a < Pow2(63 - i) || a - Pow2(63 - i) < Pow2(63 - i)
  {
    hide Step, Factor;
    Doubled(63 - i);
  }

  /** c, less what n roundings may have added, is at most r times 2^(a / 2^64). */
  ghost predicate AtMost(c: nat, n: nat, r: nat, a: nat, p: nat) {
    Raise(Under(c, n), p) <= Raise(r as real, p) * Raise(2.0, a)
  }

  /** With what they took away it is at least that. */
  ghost predicate AtLeast(c: nat, n: nat, r: nat, a: nat, p: nat) {
    Raise(r as real, p) * Raise(2.0, a) <= Raise(Over(c, n), p)
  }

  lemma NoRounding(c: nat, p: nat)
    ensures AtMost(c, 0, c, 0, p) && AtLeast(c, 0, c, 0, p)
  {
    hide Under, Over;
    UnderStep(c, 1);
    OverStep(c, 1);
  }

  lemma ClearBit(c: nat, n: nat, r: nat, a: nat, p: nat)
    requires 0 < n <= 64
    ensures AtMost(c, n - 1, r, a, p) ==> AtMost(c, n, r, a, p)
    ensures AtLeast(c, n - 1, r, a, p) ==> AtLeast(c, n, r, a, p)
  {
    hide Under, Over, Shrunk, Widened, Raise;
    UnderStep(c, n);
    OverStep(c, n);
    RaiseMono(Under(c, n), Under(c, n - 1), p);
    RaiseMono(Over(c, n - 1), Over(c, n), p);
  }

  lemma SetBitAtMost(c: nat, n: nat, r: nat, a: nat, i: nat, p: nat)
    requires 0 < n <= 64 && i < 64 && p == Pow2(64) && AtMost(c, n - 1, Step(r, Factor(i)), a, p)
    ensures AtMost(c, n, r, Pow2(63 - i) + a, p)
  {
    hide Factor, Shrunk, Step, Pow2, Below, Under, Raise;
    var f := Factor(i);
    UnderStep(c, n);
    FactorsSpread(i);
    StepBelow(r, f);
    FactorPower(i);
    BelowPositive(f);
    BelowLink(Under(c, n), Under(c, n - 1), Shrunk(1), Step(r, f) as real, r as real, Below(f), Pow2(63 - i), a, p);
  }

  lemma SetBitAtLeast(c: nat, n: nat, r: nat, a: nat, i: nat, p: nat)
    requires 0 < n <= 64 && i < 64 && B128 <= r && p == Pow2(64)
    requires AtLeast(c, n - 1, Step(r, Factor(i)), a, p)
    ensures AtLeast(c, n, r, Pow2(63 - i) + a, p)
  {
    hide Factor, Widened, Step, Pow2, Above, Over, Raise;
    var f := Factor(i);
    OverStep(c, n);
    FactorsSpread(i);
    FactorSmall(i);
    StepAbove(r, f);
    FactorPower(i);
    AbovePositive(f);
    Unrounded();
    AboveLink(Over(c, n), Over(c, n - 1), Widened(), Step(r, f) as real, r as real, Above(f), Pow2(63 - i), a, p);
  }

  /** The chain stays within its roundings of the true power. */
  lemma {:induction false} ChainNear(i: nat, r: nat, a: nat, p: nat)
    requires i <= 64 && a < Pow2(64 - i) && B128 <= r && p == Pow2(64)
    ensures AtMost(Chain(Exp2Factors(), i, r, a), 64 - i, r, a, p)
    ensures AtLeast(Chain(Exp2Factors(), i, r, a), 64 - i, r, a, p)
    decreases 64 - i
  {
    hide AtMost, AtLeast, Factor, Exp2Factors, Step, Chain, Pow2;
    if i == 64 {
      LastBit(r, a);
      NoRounding(r, p);
    } else {
      var c, w := Chain(Exp2Factors(), i, r, a), Pow2(63 - i);
      ChainBit(i, r, a);
      if a < w {
        ChainNear(i + 1, r, a, p);
        ClearBit(c, 64 - i, r, a, p);
      } else {
        FactorsSpread(i);
        StepBounds(r, Factor(i));
        ChainNear(i + 1, Step(r, Factor(i)), a - w, p);
        SetBitAtMost(c, 64 - i, r, a - w, i, p);
        SetBitAtLeast(c, 64 - i, r, a - w, i, p);
      }
    }
  }

  lemma LastBit(r: nat, a: nat)
    requires a < Pow2(0)
    ensures a == 0 && Chain(Exp2Factors(), 64, r, a) == r
  {
    hide Factor;
  }

  lemma BelowLink(z: real, c: real, d: real, s: real, r: real, x: real, w: nat, b: nat, p: nat)
    requires 0.0 <= z <= c * d && 0.0 <= s * d <= r * x && 0.0 <= d && 0.0 <= r
    requires Raise(c, p) <= Raise(s, p) * Raise(2.0, b)
    requires 0.0 <= x && Raise(x, p) <= Raise(2.0, w)
    ensures Raise(z, p) <= Raise(r, p) * Raise(2.0, w + b)
  {
    hide Raise;
    RaiseMono(z, c * d, p);
    RaiseTimes(c, d, p);
    RaisePair(s, d, r, x, p);
    RaisePositive(2.0, b);
    RaiseMono(0.0, d, p);
    RaiseMono(0.0, r, p);
    RaiseAdd(2.0, w, b);
    LinkAlgebra(Raise(z, p), Raise(c, p), Raise(d, p), Raise(s, p), Raise(2.0, b), Raise(r, p), Raise(x, p),
                Raise(2.0, w));
  }

  lemma RaisePair(s: real, d: real, r: real, x: real, p: nat)
    requires 0.0 <= s * d <= r * x
    ensures Raise(s, p) * Raise(d, p) <= Raise(r, p) * Raise(x, p)
  {
    hide Raise;
    RaiseTimes(s, d, p);
    RaiseTimes(r, x, p);
    RaiseMono(s * d, r * x, p);
  }

  lemma LinkAlgebra(z: real, c: real, d: real, s: real, two: real, r: real, x: real, w: real)
    requires z <= c * d && c <= s * two && s * d <= r * x && x <= w
    requires 0.0 <= d && 0.0 <= two && 0.0 <= r
    ensures z <= r * (w * two)
  {
    ScaleLeq(c, s * two, d);
    Swap(s, two, d);
    ScaleLeq(s * d, r * x, two);
    ScaleLeq(x, w, r);
    assert r * x == x * r && r * w == w * r;
    ScaleLeq(r * x, r * w, two);
    Associate(r, w, two);
  }

  lemma FactorSmall(i: nat)
    requires i < 64
    ensures Factor(i) <= 2 * B64
  {}

  lemma AbovePositive(f: nat)
    ensures 0.0 < Above(f)
  {}

  lemma AboveLink(z: real, c: real, d: real, s: real, r: real, x: real, w: nat, b: nat, p: nat)
    requires 0.0 <= c * d <= z && 0.0 <= r * x <= s * d && 0.0 <= d && 0.0 <= r
    requires Raise(s, p) * Raise(2.0, b) <= Raise(c, p)
    requires 0.0 <= x && Raise(2.0, w) <= Raise(x, p)
    ensures Raise(r, p) * Raise(2.0, w + b) <= Raise(z, p)
  {
    hide Raise;
    RaiseMono(c * d, z, p);
    RaiseTimes(c, d, p);
    RaisePair(r, x, s, d, p);
    RaisePositive(2.0, b);
    RaiseMono(0.0, d, p);
    RaiseMono(0.0, r, p);
    RaiseAdd(2.0, w, b);
    JoinAlgebra(Raise(z, p), Raise(c, p), Raise(d, p), Raise(s, p), Raise(2.0, b), Raise(r, p), Raise(x, p),
                Raise(2.0, w));
  }

  lemma JoinAlgebra(z: real, c: real, d: real, s: real, two: real, r: real, x: real, w: real)
    requires c * d <= z && s * two <= c && r * x <= s * d && w <= x
    requires 0.0 <= d && 0.0 <= two && 0.0 <= r
    ensures r * (w * two) <= z
  {
    ScaleLeq(s * two, c, d);
    Swap(s, two, d);
    ScaleLeq(r * x, s * d, two);
    ScaleLeq(w, x, r);
    assert r * x == x * r && r * w == w * r;
    ScaleLeq(r * w, r * x, two);
    Associate(r, w, two);
  }

  lemma ScaleLeq(a: real, b: real, k: real)
    requires a <= b && 0.0 <= k
    ensures a * k <= b * k
  {
    assert (b - a) * k >= 0.0;
  }

  lemma Swap(x: real, y: real, z: real)
    ensures x * y * z == x * z * y
  {}

  // ------------------------------------------------------------------
  // The results
  // ------------------------------------------------------------------

  const ETHER: real := 1000000000000000000.0

  /** Whole powers of two, exactly. */
  lemma {:induction false} WholePower(q: nat)
    ensures Raise(2.0, q) == Pow2(q) as real && Raise(2.0, q) > 0.0
  {
    if q > 0 {
      WholePower(q - 1);
    }
  }

  lemma CancelLeq(x: real, y: real, k: real)
    requires k > 0.0 && x * k <= y * k
    ensures x <= y
  {
    Distribute(x, y, k);
    if x > y {
      TimesPositive(x - y, k);
    }
  }

  lemma Distribute(x: real, y: real, k: real)
    ensures (x - y) * k == x * k - y * k
  {}

  /** A value v with v / 1e18 about c / 2^(191 - q), raised. */
  lemma ScaleBelow(y: real, u: real, q: nat, a: nat, p: nat)
    requires 0.0 <= y * Raise(2.0, 191) <= u * Raise(2.0, q)
    requires Raise(u, p) <= Raise(Raise(2.0, 191), p) * Raise(2.0, a)
    ensures Raise(y, p) <= Raise(2.0, q * p + a)
  {
    hide Raise;
    var k, h := Raise(2.0, 191), Raise(2.0, q);
    RaiseMono(y * k, u * h, p);
    RaiseTimes(y, k, p);
    RaiseTimes(u, h, p);
    RaisePositive(2.0, 191);
    RaisePositive(2.0, q);
    RaisePositive(k, p);
    RaisePositive(h, p);
    RaiseRaise(2.0, q, p);
    RaiseAdd(2.0, q * p, a);
    BelowAlgebra(Raise(y, p), Raise(k, p), Raise(u, p), Raise(h, p), Raise(2.0, a));
  }

  lemma BelowAlgebra(y: real, k: real, u: real, h: real, a: real)
    requires y * k <= u * h && u <= k * a && 0.0 < k && 0.0 < h
    ensures y <= h * a
  {
    ScaleLeq(u, k * a, h);
    Swap(k, a, h);
    assert k * h * a == h * a * k;
    CancelLeq(y, h * a, k);
  }

  lemma ScaleAbove(z: real, u: real, q: nat, a: nat, p: nat)
    requires 0.0 <= u * Raise(2.0, q) <= z * Raise(2.0, 191)
    requires Raise(Raise(2.0, 191), p) * Raise(2.0, a) <= Raise(u, p)
    ensures Raise(2.0, q * p + a) <= Raise(z, p)
  {
    hide Raise;
    var k, h := Raise(2.0, 191), Raise(2.0, q);
    RaiseMono(u * h, z * k, p);
    RaiseTimes(z, k, p);
    RaiseTimes(u, h, p);
    RaisePositive(2.0, 191);
    RaisePositive(2.0, q);
    RaisePositive(k, p);
    RaisePositive(h, p);
    RaiseRaise(2.0, q, p);
    RaiseAdd(2.0, q * p, a);
    AboveAlgebra(Raise(z, p), Raise(k, p), Raise(u, p), Raise(h, p), Raise(2.0, a));
  }

  lemma AboveAlgebra(z: real, k: real, u: real, h: real, a: real)
    requires u * h <= z * k && k * a <= u && 0.0 < k && 0.0 < h
    ensures h * a <= z
  {
    ScaleLeq(k * a, u, h);
    Swap(k, a, h);
    assert k * h * a == h * a * k;
    CancelLeq(h * a, z, k);
  }

  /** The scaled chain is a floor. */
  lemma ScaledFloor(c: nat, q: nat, v: nat)
    requires q < 192 && v == ScaleDown(c, Pow2(191 - q))
    ensures v as real * Raise(2.0, 191) <= c as real * Raise(2.0, q) * ETHER
    ensures c as real * Raise(2.0, q) * ETHER <= (v as real + 1.0) * Raise(2.0, 191)
  {
    hide Pow2, Raise;
    var d, h := Pow2(191 - q), Pow2(q);
    Pow2Add(191 - q, q);
    WholePower(191);
    WholePower(q);
    FloorParts(c, d, h, v);
    AsReals(v, d * h, c, h);
    AsReals(v + 1, d * h, c, h);
  }

  lemma FloorParts(c: nat, d: nat, h: nat, v: nat)
    requires d > 0 && v == ScaleDown(c, d)
    ensures v * (d * h) <= c * h * ONE_ETHER <= (v + 1) * (d * h)
  {
    DivBounds(c * ONE_ETHER, d);
    MulMono(v * d, c * ONE_ETHER, h);
    MulMono(c * ONE_ETHER, (v + 1) * d, h);
    assert v * d * h == v * (d * h);
    assert (v + 1) * d * h == (v + 1) * (d * h);
    assert c * ONE_ETHER * h == c * h * ONE_ETHER;
  }

  lemma AsReals(v: nat, k: nat, c: nat, h: nat)
    ensures v * k <= c * h * ONE_ETHER ==> v as real * k as real <= c as real * h as real * ETHER
    ensures c * h * ONE_ETHER <= v * k ==> c as real * h as real * ETHER <= v as real * k as real
  {
    assert (v * k) as real == v as real * k as real;
    assert (c * h) as real == c as real * h as real;
    assert (c * h * ONE_ETHER) as real == (c * h) as real * ETHER;
  }

  /** Less what 64 roundings may have added. */
  function Less(v: nat): real {
    v as real / ETHER * Shrunk(64)
  }

  /** With the last rounding, and what 64 roundings took away. */
  function More(v: nat): real {
    (v as real + 1.0) / ETHER * Grown(64)
  }

  lemma FloorBelow(v: nat, k: real, c: nat, h: real)
    requires 0.0 < k && v as real * k <= c as real * h * ETHER
    ensures 0.0 <= Less(v) * k <= Under(c, 64) * h
  {
    var m, x := Shrunk(64), c as real;
    assert m > 0.0;
    ScaleLeq(v as real * k, x * h * ETHER, m / ETHER);
    assert v as real * k * (m / ETHER) == Less(v) * k;
    assert x * h * ETHER * (m / ETHER) == x * m * h;
    TimesMono(0.0, v as real / ETHER, 0.0, m);
    TimesMono(0.0, Less(v), 0.0, k);
  }

  lemma FloorAbove(v: nat, k: real, c: nat, h: real)
    requires 0.0 < k && 0.0 < h && c as real * h * ETHER <= (v as real + 1.0) * k
    ensures 0.0 <= Over(c, 64) * h <= More(v) * k
  {
    var m, x := Grown(64), c as real;
    assert m > 0.0;
    ScaleLeq(x * h * ETHER, (v as real + 1.0) * k, m / ETHER);
    assert (v as real + 1.0) * k * (m / ETHER) == More(v) * k;
    assert x * h * ETHER * (m / ETHER) == x * m * h;
    TimesMono(0.0, x, 0.0, m);
    TimesMono(0.0, Over(c, 64), 0.0, h);
  }

  /** To the power 2^64 the result is 2^x, up to its roundings. */
  lemma FixedNear(x: U128, v: nat)
    requires x < B64 * 0x1_0000_0000 && Exp2Spec(x) == Some(v)
    ensures Raise(Less(v), Pow2(64)) <= Raise(2.0, x) <= Raise(More(v), Pow2(64))
  {
    hide Chain, Exp2Factors, Factor, Raise, Pow2, Less, More, Under, Over, ScaleDown;
    Pow2Values();
    DivBelow(x, B64, 0x1_0000_0000);
    var q, a, p := x / B64, x % B64, Pow2(64);
    var c := Chain(Exp2Factors(), 0, P191, a);
    ChainNear(0, P191, a, p);
    P191IsPow2();
    WholePower(191);
    assert v == ScaleDown(c, Pow2(191 - q));
    ScaledFloor(c, q, v);
    RaisePositive(2.0, q);
    FloorBelow(v, Raise(2.0, 191), c, Raise(2.0, q));
    FloorAbove(v, Raise(2.0, 191), c, Raise(2.0, q));
    assert q * p + a == x;
    ScaleBelow(Less(v), Under(c, 64), q, a, p);
    ScaleAbove(More(v), Over(c, 64), q, a, p);
  }

  /** The fixed-point exponential gives 1e18 times 2^(x / 2^64), up to one unit and a part
      of 2^57. */
  lemma Exp2FixedNear(x: U128)
    requires x < 0x1_0000_0000_0000_0000_0000_0000 && Exp2Spec(x).Some?
    ensures var v := Exp2Spec(x).value as real / 1000000000000000000.0;
            Raise(v * (1.0 - 1.0 / 144115188075855872.0), 0x1_0000_0000_0000_0000) <= Raise(2.0, x)
    ensures var v := (Exp2Spec(x).value as real + 1.0) / 1000000000000000000.0;
            Raise(2.0, x) <= Raise(v * (1.0 + 1.0 / 144115188075855872.0), 0x1_0000_0000_0000_0000)
  {
    hide Raise, Pow2, Exp2Spec;
    var v := Exp2Spec(x).value;
    Pow2Values();
    FixedNear(x, v);
    var y := v as real / 1000000000000000000.0 * (1.0 - 1.0 / 144115188075855872.0);
    Margins(v);
    RaiseMono(y, Less(v), 0x1_0000_0000_0000_0000);
  }

  lemma Margins(v: nat)
    ensures 0.0 <= v as real / 1000000000000000000.0 * (1.0 - 1.0 / 144115188075855872.0) <= Less(v)
    ensures More(v) == (v as real + 1.0) / 1000000000000000000.0 * (1.0 + 1.0 / 144115188075855872.0)
  {
    assert Grown(64) == 1.0 + 1.0 / 144115188075855872.0;
    assert 0.0 <= 1.0 - 1.0 / 144115188075855872.0 <= Shrunk(64);
    var w := v as real / 1000000000000000000.0;
    TimesMono(w, w, 1.0 - 1.0 / 144115188075855872.0, Shrunk(64));
  }

  // ------------------------------------------------------------------
  // Arguments at 1e18 scale
  // ------------------------------------------------------------------

  lemma RaiseTwoMono(m: nat, n: nat)
    requires m <= n
    ensures Raise(2.0, m) <= Raise(2.0, n)
  {
    WholePower(m);
    WholePower(n);
    Pow2Mono(m, n);
  }

  /** Raising to one more power and taking it off again. */
  lemma Unraise(x: real, y: real, n: nat)
    requires 0.0 <= x && 0.0 < y && n > 0 && Raise(x, n) <= Raise(y, n)
    ensures x <= y
  {
    hide Raise;
    if x > y {
      RaiseStrict(y, x, n);
    }
  }

  lemma SwapPowers(x: real, m: nat, n: nat)
    ensures Raise(Raise(x, m), n) == Raise(Raise(x, n), m)
  {
    hide Raise;
    RaiseRaise(x, m, n);
    RaiseRaise(x, n, m);
    assert m * n == n * m;
  }

  /** The same power of two in two ways of raising it. */
  lemma TwoRaised(a: nat, e: nat, m: nat)
    requires m == a * e
    ensures Raise(Raise(2.0, a), e) == Raise(2.0, m)
  {
    hide Raise;
    RaiseRaise(2.0, a, e);
  }

  lemma RescaleBelow(y: real, x: nat, a: nat, e: nat, p: nat)
    requires 0.0 <= y && Raise(y, p) <= Raise(2.0, a) && a * e <= x * p && 0 < p
    ensures Raise(y, e) <= Raise(2.0, x)
  {
    hide Raise;
    RaisedBelow(y, x, a, e, p, a * e, x * p);
  }

  lemma RaisedBelow(y: real, x: nat, a: nat, e: nat, p: nat, m: nat, n: nat)
    requires 0.0 <= y && Raise(y, p) <= Raise(2.0, a) && m == a * e && n == x * p && m <= n && 0 < p
    ensures Raise(y, e) <= Raise(2.0, x)
  {
    hide Raise;
    RaiseMono(0.0, y, p);
    RaiseMono(Raise(y, p), Raise(2.0, a), e);
    SwapPowers(y, p, e);
    TwoRaised(a, e, m);
    TwoRaised(x, p, n);
    RaiseTwoMono(m, n);
    RaiseMono(0.0, y, e);
    RaisePositive(2.0, x);
    Unraise(Raise(y, e), Raise(2.0, x), p);
  }

  lemma RescaleAbove(z: real, x: nat, a: nat, e: nat, p: nat)
    requires 0.0 < z && Raise(2.0, a) <= Raise(z, p) && x * p <= a * e && 0 < p
    ensures Raise(2.0, x) <= Raise(z, e)
  {
    hide Raise;
    RaisedAbove(z, x, a, e, p, a * e, x * p);
  }

  lemma RaisedAbove(z: real, x: nat, a: nat, e: nat, p: nat, m: nat, n: nat)
    requires 0.0 < z && Raise(2.0, a) <= Raise(z, p) && m == a * e && n == x * p && n <= m && 0 < p
    ensures Raise(2.0, x) <= Raise(z, e)
  {
    hide Raise;
    RaiseMono(0.0, 2.0, a);
    RaiseMono(Raise(2.0, a), Raise(z, p), e);
    SwapPowers(z, p, e);
    TwoRaised(a, e, m);
    TwoRaised(x, p, n);
    RaiseTwoMono(n, m);
    RaisePositive(z, e);
    RaiseMono(0.0, 2.0, x);
    Unraise(Raise(2.0, x), Raise(z, e), p);
  }

  /** The last factor makes up for the fraction that the argument loses. */
  lemma LastFactor(z: real, h: real, a: nat, p: nat)
    requires 0.0 <= z && h == Above(Factor(63)) && p == Pow2(64) && Raise(2.0, a) <= Raise(z, p)
    ensures Raise(2.0, a + 1) <= Raise(z * h, p)
  {
    hide Raise, Factor, Above, Pow2;
    FactorPower(63);
    UnitWeight();
    RaiseTimes(z, h, p);
    RaiseAdd(2.0, a, 1);
    RaiseMono(0.0, 2.0, a);
    RaiseMono(0.0, 2.0, 1);
    TimesMono(Raise(2.0, a), Raise(z, p), Raise(2.0, 1), Raise(h, p));
  }

  lemma UnitWeight()
    ensures Pow2(63 - 63) == 1
  {}

  lemma LastMargin(v: nat)
    ensures 0.0 < More(v) * Above(Factor(63))
         <= (v as real + 1.0) / 1000000000000000000.0 * (1.0 + 1.0 / 72057594037927936.0)
  {
    var w := (v as real + 1.0) / 1000000000000000000.0;
    var g, h := 1.0 + 1.0 / 144115188075855872.0, Above(Factor(63));
    assert Grown(64) == g;
    assert h == 1.0 + 3.0 / 36893488147419103232.0;
    assert 0.0 < g * h <= 1.0 + 1.0 / 72057594037927936.0;
    Associate(w, g, h);
    TimesMono(w, w, g * h, 1.0 + 1.0 / 72057594037927936.0);
    TimesPositive(w, g * h);
  }

  /** exp2 gives 1e18 times 2^(x / 1e18), up to one unit and a part of 2^56: to the power
      1e18 the quotients on either side of that margin enclose 2^x. */
  lemma Exp2UdNear(x: U128)
    requires x < 0x1_0000_0000_0000_0000
    ensures Exp2UdSpec(x).Some?
    ensures var v := Exp2UdSpec(x).value as real / 1000000000000000000.0;
            Raise(v * (1.0 - 1.0 / 72057594037927936.0), 1_000_000_000_000_000_000) <= Raise(2.0, x)
    ensures var v := (Exp2UdSpec(x).value as real + 1.0) / 1000000000000000000.0;
            Raise(2.0, x) <= Raise(v * (1.0 + 1.0 / 72057594037927936.0), 1_000_000_000_000_000_000)
  {
    hide Raise, Pow2, Exp2Spec, Factor, Above, Less, More;
    UdDefined(x);
    var v, a, e, p := Exp2UdSpec(x).value, Fixed(x), 1_000_000_000_000_000_000, Pow2(64);
    Pow2Values();
    FixedArgument(x);
    FixedNear(a, v);
    LessMargin(v);
    RescaleBelow(Less(v), x, a, e, p);
    RaiseMono(v as real / 1000000000000000000.0 * (1.0 - 1.0 / 72057594037927936.0), Less(v), e);
    MorePositive(v);
    var h := Above(Factor(63));
    LastFactor(More(v), h, a, p);
    LastMargin(v);
    RescaleAbove(More(v) * h, x, a + 1, e, p);
    RaiseMono(More(v) * h,
              (v as real + 1.0) / 1000000000000000000.0 * (1.0 + 1.0 / 72057594037927936.0), e);
  }

  lemma LessMargin(v: nat)
    ensures 0.0 <= v as real / 1000000000000000000.0 * (1.0 - 1.0 / 72057594037927936.0) <= Less(v)
  {
    var w := v as real / 1000000000000000000.0;
    assert 0.0 <= 1.0 - 1.0 / 72057594037927936.0 <= Shrunk(64);
    TimesMono(w, w, 1.0 - 1.0 / 72057594037927936.0, Shrunk(64));
  }

  lemma MorePositive(v: nat)
    ensures 0.0 < More(v)
  {
    assert Grown(64) > 0.0;
    TimesPositive((v as real + 1.0) / ETHER, Grown(64));
  }

  lemma FixedArgument(x: U128)
    requires x < B64
    ensures Fixed(x) < B64 * 0x1_0000_0000 && Exp2UdSpec(x) == Exp2Spec(Fixed(x))
    ensures Fixed(x) * ONE_ETHER <= x * B64 <= (Fixed(x) + 1) * ONE_ETHER
  {
    hide Exp2Spec;
    DivModUnique(x * B64, B128, 0, x * B64);
    DivModUnique(x * B64, B64, x, 0);
    DivLe(x * B64, ONE_ETHER);
    DivBounds(x * B64, ONE_ETHER);
    DivBelow(x * B64, ONE_ETHER, B64 * 0x1_0000_0000);
  }

  // ------------------------------------------------------------------
  // log2(e)
  // ------------------------------------------------------------------

  /** The first n terms of ln 2 = 1 / (1 * 2) + 1 / (2 * 4) + 1 / (3 * 8) + ... */
  function LnTwo(n: nat): real {
    if n == 0 then 0.0 else LnTwo(n - 1) + 1.0 / (n * Pow2(n)) as real
  }

  const TWO_80: real := 1208925819614629174706176.0

  /** The same in units of 2^-80, each term rounded down. */
  function Floors(n: nat): nat {
    if n == 0 then 0 else Floors(n - 1) + 0x1_0000_0000_0000_0000_0000 / (n * Pow2(n))
  }

  lemma FloorTerm(d: nat)
    requires d > 0
    ensures var f := 0x1_0000_0000_0000_0000_0000 / d;
            f as real / TWO_80 <= 1.0 / d as real <= (f + 1) as real / TWO_80
  {
    var f := 0x1_0000_0000_0000_0000_0000 / d;
    DivBounds(0x1_0000_0000_0000_0000_0000, d);
    assert (f * d) as real == f as real * d as real;
    assert ((f + 1) * d) as real == (f + 1) as real * d as real;
    QuotientBounds(f as real, (f + 1) as real, d as real);
  }

  lemma QuotientBounds(f: real, g: real, d: real)
    requires d > 0.0 && f * d <= TWO_80 <= g * d
    ensures f / TWO_80 <= 1.0 / d <= g / TWO_80
  {
    var x := 1.0 / d;
    assert x * d == 1.0 && x > 0.0;
    ScaleLeq(f * d, TWO_80, x / TWO_80);
    ScaleLeq(TWO_80, g * d, x / TWO_80);
    assert f * d * (x / TWO_80) == f / TWO_80 * (x * d);
    assert g * d * (x / TWO_80) == g / TWO_80 * (x * d);
    assert TWO_80 * (x / TWO_80) == x;
  }

  lemma {:induction false} FloorsNear(n: nat)
    ensures Floors(n) as real / TWO_80 <= LnTwo(n) <= (Floors(n) + n) as real / TWO_80
  {
    if n > 0 {
      FloorsNear(n - 1);
      TermPositive(n);
      FloorTerm(n * Pow2(n));
    }
  }

  lemma TermPositive(n: nat)
    requires n > 0
    ensures n * Pow2(n) > 0
  {}

  lemma TwoMore(n: nat, p: nat, s: nat)
    requires Floors(n) == s && Pow2(n) == p
    ensures p > 0 && Pow2(n + 2) == 4 * p
    ensures Floors(n + 2) == s + 0x1_0000_0000_0000_0000_0000 / ((n + 1) * (2 * p))
                               + 0x1_0000_0000_0000_0000_0000 / ((n + 2) * (4 * p))
  {
    assert Pow2(n + 1) == 2 * p && Pow2(n + 2) == 2 * Pow2(n + 1);
    assert Floors(n + 1) == s + 0x1_0000_0000_0000_0000_0000 / ((n + 1) * Pow2(n + 1));
  }

  lemma Floors8()
    ensures Pow2(8) == 0x100 && Floors(8) == 837483586412628783141759
  {
    hide Floors, Pow2;
    NoTerms();
    TwoMore(0, 0x1, 0);
    TwoMore(2, 0x4, 755578637259143234191360);
    TwoMore(4, 0x10, 824840012341231363992234);
    TwoMore(6, 0x40, 835544043035735893143277);
  }

  lemma Floors16()
    ensures Pow2(16) == 0x10000 && Floors(16) == 837962493010640157264666
  {
    hide Floors, Pow2;
    Floors8();
    TwoMore(8, 0x100, 837483586412628783141759);
    TwoMore(10, 0x400, 837863999268193282339528);
    TwoMore(12, 0x1000, 837942258182445383467595);
    TwoMore(14, 0x4000, 837958880523259055810808);
  }

  lemma Floors24()
    ensures Pow2(24) == 0x1000000 && Floors(24) == 837963520593119096998011
  {
    hide Floors, Pow2;
    Floors16();
    TwoMore(16, 0x10000, 837962493010640157264666);
    TwoMore(18, 0x40000, 837963291766715244361263);
    TwoMore(20, 0x100000, 837963470772948854371713);
    TwoMore(22, 0x400000, 837963511324841602989165);
  }

  lemma Floors32()
    ensures Pow2(32) == 0x100000000 && Floors(32) == 837963523363709310394165
  {
    hide Floors, Pow2;
    Floors24();
    TwoMore(24, 0x1000000, 837963520593119096998011);
    TwoMore(26, 0x4000000, 837963522727132458890491);
    TwoMore(28, 0x10000000, 837963523221575275122965);
    TwoMore(30, 0x40000000, 837963523336753541455141);
  }

  lemma Floors40()
    ensures Pow2(40) == 0x10000000000 && Floors(40) == 837963523371975034635800
  {
    hide Floors, Pow2;
    Floors32();
    TwoMore(32, 0x100000000, 837963523363709310394165);
    TwoMore(34, 0x400000000, 837963523370043751714969);
    TwoMore(36, 0x1000000000, 837963523371537691323502);
    TwoMore(38, 0x4000000000, 837963523371891161633426);
  }

  lemma Floors48()
    ensures Pow2(48) == 0x1000000000000 && Floors(48) == 837963523372001155355485
  {
    hide Floors, Pow2;
    Floors40();
    TwoMore(40, 0x10000000000, 837963523371975034635800);
    TwoMore(42, 0x40000000000, 837963523371994988026257);
    TwoMore(44, 0x100000000000, 837963523371999746087277);
    TwoMore(46, 0x400000000000, 837963523372000883112435);
  }

  lemma Floors56()
    ensures Pow2(56) == 0x100000000000000 && Floors(56) == 837963523372001241030455
  {
    hide Floors, Pow2;
    Floors48();
    TwoMore(48, 0x1000000000000, 837963523372001155355485);
    TwoMore(50, 0x4000000000000, 837963523372001220656517);
    TwoMore(52, 0x10000000000000, 837963523372001236345617);
    TwoMore(54, 0x40000000000000, 837963523372001240120782);
  }

  lemma Floors64()
    ensures Pow2(64) == 0x10000000000000000 && Floors(64) == 837963523372001241318884
  {
    hide Floors, Pow2;
    Floors56();
    TwoMore(56, 0x100000000000000, 837963523372001241030455);
    TwoMore(58, 0x400000000000000, 837963523372001241249938);
    TwoMore(60, 0x1000000000000000, 837963523372001241302958);
    TwoMore(62, 0x4000000000000000, 837963523372001241315780);
  }

  lemma NoTerms()
    ensures Pow2(0) == 1 && Floors(0) == 0
  {}

  /** The terms from n on add less than their last would with the one behind it. */
  lemma {:induction false} LnTwoTail(n: nat)
    requires n >= 64
    ensures LnTwo(64) <= LnTwo(n) <= LnTwo(64) + 1.0 / TWO_64 / 64.0 - 1.0 / (64 * Pow2(n)) as real
  {
    hide Pow2;
    Pow2Values();
    if n == 64 {
      assert (64 * Pow2(64)) as real == 64.0 * TWO_64;
    } else {
      LnTwoTail(n - 1);
      Doubled(n - 1);
      TailTerm(n, Pow2(n - 1));
    }
  }

  lemma TailTerm(n: nat, p: nat)
    requires n >= 64 && p > 0
    ensures 0.0 <= 1.0 / (n * (2 * p)) as real <= 1.0 / (64 * p) as real - 1.0 / (64 * (2 * p)) as real
  {
    var q := (2 * p) as real;
    assert (64 * p) as real == 32.0 * q && (64 * (2 * p)) as real == 64.0 * q;
    assert (n * (2 * p)) as real == n as real * q;
    assert 1.0 / (32.0 * q) - 1.0 / (64.0 * q) == 1.0 / (64.0 * q);
    TimesMono(64.0, n as real, q, q);
    InverseMono(64.0 * q, n as real * q);
  }

  lemma InverseMono(x: real, y: real)
    requires 0.0 < x <= y
    ensures 0.0 < 1.0 / y <= 1.0 / x
  {}

  /** LOG2_E is the integer nearest to 1e18 / ln 2: times ln 2 it differs from 1e18 by less
      than half of ln 2, whatever number of terms from 64 on stands for ln 2. */
  lemma LogNearest(n: nat)
    requires n >= 64
    ensures var gap := LOG2_E as real * LnTwo(n) - 1000000000000000000.0;
            -LnTwo(n) < 2.0 * gap < LnTwo(n)
  {
    hide LnTwo, Floors, Pow2;
    LnTwoTail(n);
    Floors64();
    FloorsNear(64);
    InversePositive(64 * Pow2(n));
    var a := 837963523372001241318884.0 / TWO_80;
    assert a <= LnTwo(n) <= a + 64.0 / TWO_80 + 1.0 / TWO_64 / 64.0;
    LogBounds(LnTwo(n));
  }

  lemma InversePositive(n: nat)
    requires n > 0
    ensures 1.0 / n as real > 0.0
  {}

  lemma LogBounds(x: real)
    requires 837963523372001241318884.0 / TWO_80 <= x
    requires x <= 837963523372001241318884.0 / TWO_80 + 64.0 / TWO_80 + 1.0 / TWO_64 / 64.0
    ensures -x < 2.0 * (LOG2_E as real * x - 1000000000000000000.0) < x
  {}
}
