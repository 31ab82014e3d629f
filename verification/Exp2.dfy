/**
 The base-two exponential of the rate replay: 64 magic factors in 192.64
 fixed point, one per fraction bit, each applied as multiply then shift by 64.

 The range results need no case analysis over bit patterns.  Every chain is
 bounded by the product of the factors still to come, and one table of those
 tail products (rounded up) bounds every suffix of every chain.  The same table
 shows how far the rounding of the factors can make the chain run backwards:
 between neighbouring fractions, and never between fractions two units apart.
 */
module Exp2 {
  import opened Arith
  import opened Prelude
  import opened Wide

  const ONE_ETHER: U128 := 1_000_000_000_000_000_000
  /** log2(e), 1e18 scale. */
  const LOG2_E: U128 := 1_442_695_040_888_963_407
  const P80: nat := 0x1_0000_0000_0000_0000_0000
  const P191: nat := 0x8000_0000_0000_0000_0000_0000_0000_0000_0000_0000_0000_0000
  const P192: nat := 0x1_0000_0000_0000_0000_0000_0000_0000_0000_0000_0000_0000_0000

  /** The factor of fraction bit 63 - i. */
  function Factor(i: nat): U128
    requires i < 64
  {
    match i
    case 0 => 0x16A09E667F3BCC909
    case 1 => 0x1306FE0A31B7152DF
    case 2 => 0x1172B83C7D517ADCE
    case 3 => 0x10B5586CF9890F62A
    case 4 => 0x1059B0D31585743AE
    case 5 => 0x102C9A3E778060EE7
    case 6 => 0x10163DA9FB33356D8
    case 7 => 0x100B1AFA5ABCBED61
    case 8 => 0x10058C86DA1C09EA2
    case 9 => 0x1002C605E2E8CEC50
    case 10 => 0x100162F3904051FA1
    case 11 => 0x1000B175EFFDC76BA
    case 12 => 0x100058BA01FB9F96D
    case 13 => 0x10002C5CC37DA9492
    case 14 => 0x1000162E525EE0547
    case 15 => 0x10000B17255775C04
    case 16 => 0x1000058B91B5BC9AE
    case 17 => 0x100002C5C89D5EC6D
    case 18 => 0x10000162E43F4F831
    case 19 => 0x100000B1721BCFC9A
    case 20 => 0x10000058B90CF1E6E
    case 21 => 0x1000002C5C863B73F
    case 22 => 0x100000162E430E5A2
    case 23 => 0x1000000B172183551
    case 24 => 0x100000058B90C0B49
    case 25 => 0x10000002C5C8601CC
    case 26 => 0x1000000162E42FFF0
    case 27 => 0x10000000B17217FBB
    case 28 => 0x1000000058B90BFCE
    case 29 => 0x100000002C5C85FE3
    case 30 => 0x10000000162E42FF1
    case 31 => 0x100000000B17217F8
    case 32 => 0x10000000058B90BFC
    case 33 => 0x1000000002C5C85FE
    case 34 => 0x100000000162E42FF
    case 35 => 0x1000000000B17217F
    case 36 => 0x100000000058B90C0
    case 37 => 0x10000000002C5C860
    case 38 => 0x1000000000162E430
    case 39 => 0x10000000000B17218
    case 40 => 0x1000000000058B90C
    case 41 => 0x100000000002C5C86
    case 42 => 0x10000000000162E43
    case 43 => 0x100000000000B1721
    case 44 => 0x10000000000058B91
    case 45 => 0x1000000000002C5C8
    case 46 => 0x100000000000162E4
    case 47 => 0x1000000000000B172
    case 48 => 0x100000000000058B9
    case 49 => 0x10000000000002C5D
    case 50 => 0x1000000000000162E
    case 51 => 0x10000000000000B17
    case 52 => 0x1000000000000058C
    case 53 => 0x100000000000002C6
    case 54 => 0x10000000000000163
    case 55 => 0x100000000000000B1
    case 56 => 0x10000000000000059
    case 57 => 0x1000000000000002C
    case 58 => 0x10000000000000016
    case 59 => 0x1000000000000000B
    case 60 => 0x10000000000000006
    case 61 => 0x10000000000000003
    case 62 => 0x10000000000000001
    case _ => 0x10000000000000001
  }

  /** An upper bound on the product of the factors from i on, in units of 2^-80. */
  function Tail(i: nat): nat
    requires i <= 64
  {
    match i
    case 0 => 0x1FFFFFFFFFFFFFFFDF003
    case 1 => 0x16A09E667F3BCC906F09E
    case 2 => 0x1306FE0A31B7152DC9FFF
    case 3 => 0x1172B83C7D517ADCC2B28
    case 4 => 0x10B5586CF9890F6275E0C
    case 5 => 0x1059B0D31585743ACD714
    case 6 => 0x102C9A3E778060EE54EDE
    case 7 => 0x10163DA9FB33356D6EE2C
    case 8 => 0x100B1AFA5ABCBED5FF80C
    case 9 => 0x10058C86DA1C09EA0CCFE
    case 10 => 0x1002C605E2E8CEC4FA85C
    case 11 => 0x100162F3904051FA08CC4
    case 12 => 0x1000B175EFFDC76B9D5D4
    case 13 => 0x100058BA01FB9F96D764C
    case 14 => 0x10002C5CC37DA9491AACF
    case 15 => 0x1000162E525EE054782C1
    case 16 => 0x10000B17255775C043AAC
    case 17 => 0x1000058B91B5BC9AE926E
    case 18 => 0x100002C5C89D5EC6CAD2F
    case 19 => 0x10000162E43F4F8311473
    case 20 => 0x100000B1721BCFC99C256
    case 21 => 0x10000058B90CF1E6D1851
    case 22 => 0x1000002C5C863B73E8320
    case 23 => 0x100000162E430E5A0A07D
    case 24 => 0x1000000B172183550A829
    case 25 => 0x100000058B90C0B47EA1E
    case 26 => 0x10000002C5C8601CBFA9C
    case 27 => 0x1000000162E42FFEFFEBB
    case 28 => 0x10000000B17217FB9FFC2
    case 29 => 0x1000000058B90BFCD4003
    case 30 => 0x100000002C5C85FE29013
    case 31 => 0x10000000162E42FEFA417
    case 32 => 0x100000000B17217F72918
    case 33 => 0x10000000058B90BFB0A58
    case 34 => 0x1000000002C5C85FD02A8
    case 35 => 0x100000000162E42FE00BC
    case 36 => 0x1000000000B17217F0041
    case 37 => 0x100000000058B90BF0022
    case 38 => 0x10000000002C5C85F001A
    case 39 => 0x1000000000162E42F0018
    case 40 => 0x10000000000B172170017
    case 41 => 0x1000000000058B90B0016
    case 42 => 0x100000000002C5C850015
    case 43 => 0x10000000000162E420014
    case 44 => 0x100000000000B17210013
    case 45 => 0x10000000000058B900012
    case 46 => 0x1000000000002C5C80011
    case 47 => 0x100000000000162E40010
    case 48 => 0x1000000000000B172000F
    case 49 => 0x100000000000058B9000E
    case 50 => 0x10000000000002C5C000D
    case 51 => 0x1000000000000162E000C
    case 52 => 0x10000000000000B17000B
    case 53 => 0x1000000000000058B000A
    case 54 => 0x100000000000002C50009
    case 55 => 0x100000000000001620008
    case 56 => 0x100000000000000B10007
    case 57 => 0x100000000000000580006
    case 58 => 0x1000000000000002C0005
    case 59 => 0x100000000000000160004
    case 60 => 0x1000000000000000B0003
    case 61 => 0x100000000000000050002
    case 62 => 0x100000000000000020001
    case 63 => 0x100000000000000010000
    case _ => 0x100000000000000000000
  }

  /** The factor table, highest fraction bit first. */
  function Exp2Factors(): (fs: seq<nat>)
    ensures |fs| == 64 && forall i :: 0 <= i < 64 ==> fs[i] == Factor(i)
  {
    seq(64, i requires 0 <= i < 64 => Factor(i))
  }

  function Tails(): (ts: seq<nat>)
    ensures |ts| == 65 && forall i :: 0 <= i < 65 ==> ts[i] == Tail(i)
  {
    seq(65, i requires 0 <= i < 65 => Tail(i))
  }

  // ------------------------------------------------------------------
  // The chain
  // ------------------------------------------------------------------

  /** Multiply by a factor and shift right by 64. */
  function Step(r: nat, f: nat): nat {
    r * f / B64
  }

  /** The factors fs[i..] applied to r for the set bits of the fraction `a`,
      whose highest bit has weight 2^(|fs| - 1 - i). */
  function Chain(fs: seq<nat>, i: nat, r: nat, a: nat): nat
    requires i <= |fs|
    decreases |fs| - i
  {
    if i == |fs| then r
    else if a >= Pow2(|fs| - 1 - i) then Chain(fs, i + 1, Step(r, fs[i]), a - Pow2(|fs| - 1 - i))
    else Chain(fs, i + 1, r, a)
  }

  /** ts bounds the tail products of fs, and no factor lowers a value. */
  ghost predicate Certified(fs: seq<nat>, ts: seq<nat>) {
    && |ts| == |fs| + 1
    && ts[|fs|] == P80
    && (forall i :: 0 <= i < |fs| ==> B64 <= fs[i] && ts[i + 1] * fs[i] <= ts[i] * B64)
  }

  /** Every factor exceeds one, and falls short of the tail after it by at most
      one unit. */
  ghost predicate Spread(fs: seq<nat>, ts: seq<nat>) {
    && Certified(fs, ts)
    && (forall i :: 0 <= i < |fs| ==> ts[i + 1] <= (fs[i] + 1) * 0x1_0000)
    && (forall i :: 0 <= i < |fs| ==> B64 + 1 <= fs[i])
  }

  lemma FactorsCertified(i: nat)
    requires i < 64
    ensures Tail(i + 1) * Factor(i) <= Tail(i) * B64
  {}

  lemma FactorsSpread(i: nat)
    requires i < 64
    ensures B64 + 1 <= Factor(i)
    ensures Tail(i + 1) <= (Factor(i) + 1) * 0x1_0000
  {}

  lemma TableSpread()
    ensures Spread(Exp2Factors(), Tails())
  {
    hide Factor, Tail, Exp2Factors, Tails;
    LastTail();
    forall i | 0 <= i < 64
      ensures B64 + 1 <= Exp2Factors()[i] && Tails()[i + 1] * Exp2Factors()[i] <= Tails()[i] * B64
      ensures Tails()[i + 1] <= (Exp2Factors()[i] + 1) * 0x1_0000
    {
      FactorsCertified(i);
      FactorsSpread(i);
    }
  }

  lemma LastTail()
    ensures Tail(64) == P80 && Tail(0) < 2 * P80
  {}

  lemma StepBounds(r: nat, f: nat)
    requires B64 <= f
    ensures r <= Step(r, f)
    ensures Step(r, f) * B64 <= r * f
  {
    MulMono(B64, f, r);
    DivBelow(r * f, B64, r);
    DivBounds(r * f, B64);
  }

  lemma StepMono(r: nat, s: nat, f: nat, g: nat)
    requires r <= s && f <= g
    ensures Step(r, f) <= Step(s, g)
  {
    MulMono(r, s, f);
    MulMono(f, g, s);
    DivMono(r * f, s * g, B64);
  }

  /** A step never raises value times remaining tail. */
  lemma StepUnderTail(r: nat, f: nat, t: nat, t': nat)
    requires B64 <= f && t' * f <= t * B64
    ensures Step(r, f) * t' <= r * t
    ensures r * t' <= r * t
  {
    StepBounds(r, f);
    MulMono(Step(r, f) * B64, r * f, t');
    MulMono(t' * f, t * B64, r);
    assert r * f * t' == t' * f * r;
    assert Step(r, f) * B64 * t' == B64 * (Step(r, f) * t');
    assert t * B64 * r == B64 * (r * t);
    MulMono(B64, f, t');
    MulMono(t', t, r);
  }

  lemma {:induction false} ChainUpper(fs: seq<nat>, ts: seq<nat>, i: nat, r: nat, a: nat)
    requires Certified(fs, ts) && i <= |fs|
    ensures Chain(fs, i, r, a) * P80 <= r * ts[i]
    decreases |fs| - i
  {
    if i < |fs| {
      StepUnderTail(r, fs[i], ts[i], ts[i + 1]);
      if a >= Pow2(|fs| - 1 - i) {
        ChainUpper(fs, ts, i + 1, Step(r, fs[i]), a - Pow2(|fs| - 1 - i));
      } else {
        ChainUpper(fs, ts, i + 1, r, a);
      }
    }
  }

  lemma {:induction false} ChainLower(fs: seq<nat>, i: nat, r: nat, a: nat)
    requires (forall k :: 0 <= k < |fs| ==> B64 <= fs[k]) && i <= |fs|
    ensures r <= Chain(fs, i, r, a)
    decreases |fs| - i
  {
    if i < |fs| {
      StepBounds(r, fs[i]);
      if a >= Pow2(|fs| - 1 - i) {
        ChainLower(fs, i + 1, Step(r, fs[i]), a - Pow2(|fs| - 1 - i));
      } else {
        ChainLower(fs, i + 1, r, a);
      }
    }
  }

  /** The chain over the factor table stays in [2^191, 2^192) for every
      fraction. */
  lemma ChainRange(a: nat)
    ensures P191 <= Chain(Exp2Factors(), 0, P191, a) < P192
  {
    hide Chain, Factor, Tail, Exp2Factors, Tails;
    TableSpread();
    LastTail();
    ChainLower(Exp2Factors(), 0, P191, a);
    ChainUpper(Exp2Factors(), Tails(), 0, P191, a);
    assert Tails()[0] == Tail(0);
  }

  /** Clear high bits leave the chain where it is. */
  lemma {:induction false} ChainSkip(fs: seq<nat>, i: nat, j: nat, r: nat, a: nat)
    requires i <= j <= |fs| && a < Pow2(|fs| - j)
    ensures Chain(fs, i, r, a) == Chain(fs, j, r, a)
    decreases j - i
  {
    if i < j {
      Pow2Mono(|fs| - j, |fs| - 1 - i);
      ChainSkip(fs, i + 1, j, r, a);
    }
  }

  lemma ChainZero(fs: seq<nat>, r: nat)
    ensures Chain(fs, 0, r, 0) == r
  {
    ChainSkip(fs, 0, |fs|, r, 0);
  }

  // ------------------------------------------------------------------
  // The chain is monotone across gaps of two units
  // ------------------------------------------------------------------

  /** A fraction below all ones misses a factor, and that factor's unit of slack. */
  lemma {:induction false} ChainMissing(fs: seq<nat>, ts: seq<nat>, i: nat, r: nat, a: nat)
    requires Spread(fs, ts) && i <= |fs| && a + 2 <= Pow2(|fs| - i)
    ensures Chain(fs, i, r, a) * P80 * (B64 + 1) <= r * ts[i] * B64
    decreases |fs| - i
  {
    var p := Pow2(|fs| - 1 - i);
    if a >= p {
      ChainMissing(fs, ts, i + 1, Step(r, fs[i]), a - p);
      StepUnderTail(r, fs[i], ts[i], ts[i + 1]);
      MulMono(Step(r, fs[i]) * ts[i + 1], r * ts[i], B64);
    } else {
      ChainUpper(fs, ts, i + 1, r, a);
      MissingHere(Chain(fs, i + 1, r, a) * P80, r, fs[i], ts[i], ts[i + 1]);
    }
  }

  lemma MissingHere(c: nat, r: nat, f: nat, t: nat, t': nat)
    requires c <= r * t' && t' * f <= t * B64 && B64 + 1 <= f
    ensures c * (B64 + 1) <= r * t * B64
  {
    MulMono(c, r * t', B64 + 1);
    MulMono(B64 + 1, f, t');
    MulMono(t' * (B64 + 1), t * B64, r);
    assert r * t' * (B64 + 1) == t' * (B64 + 1) * r;
    assert r * t * B64 == t * B64 * r;
  }

  /** A fraction above zero applies a factor. */
  lemma {:induction false} ChainPresent(fs: seq<nat>, ts: seq<nat>, i: nat, r: nat, b: nat)
    requires Spread(fs, ts) && i <= |fs| && 1 <= b < Pow2(|fs| - i)
    ensures Step(r, B64 + 1) <= Chain(fs, i, r, b)
    decreases |fs| - i
  {
    var p := Pow2(|fs| - 1 - i);
    if b >= p {
      StepMono(r, r, B64 + 1, fs[i]);
      ChainLower(fs, i + 1, Step(r, fs[i]), b - p);
    } else {
      ChainPresent(fs, ts, i + 1, r, b);
    }
  }

  /** Where two fractions part, the one with the clear bit ends no higher,
      provided they are two units apart. */
  lemma PartingBit(fs: seq<nat>, ts: seq<nat>, i: nat, r: nat, a: nat, b: nat)
    requires Spread(fs, ts) && i < |fs| && r >= B64 * (B64 + 3)
    requires a < Pow2(|fs| - 1 - i) && b < Pow2(|fs| - 1 - i)
    requires a + 2 <= Pow2(|fs| - 1 - i) + b
    ensures Chain(fs, i + 1, r, a) <= Chain(fs, i + 1, Step(r, fs[i]), b)
  {
    hide Chain, Pow2, Step;
    var f, t := fs[i], ts[i + 1];
    var x, s := Chain(fs, i + 1, r, a), Step(r, f);
    StepBounds(r, f);
    StepParts(r, f);
    TailUnits(r, t, f);
    if a + 2 <= Pow2(|fs| - 1 - i) {
      ChainMissing(fs, ts, i + 1, r, a);
      ChainLower(fs, i + 1, s, b);
      MissingWins(x, r, f, s, t);
    } else {
      ChainPresent(fs, ts, i + 1, s, b);
      ChainUpper(fs, ts, i + 1, r, a);
      PresentWins(x, r, f, s, t);
    }
  }

  lemma StepParts(r: nat, f: nat)
    ensures Step(r, f) * B64 <= r * f < Step(r, f) * B64 + B64
  {
    DivBounds(r * f, B64);
  }

  lemma TailUnits(r: nat, t: nat, f: nat)
    requires t <= (f + 1) * 0x1_0000
    ensures r * t <= (r * f + r) * 0x1_0000
  {
    MulMono(t, (f + 1) * 0x1_0000, r);
    assert (f + 1) * 0x1_0000 * r == (r * f + r) * 0x1_0000;
  }

  lemma MissingWins(x: nat, r: nat, f: nat, s: nat, t: nat)
    requires x * P80 * (B64 + 1) <= r * t * B64
    requires r * t <= (r * f + r) * 0x1_0000
    requires r * f < s * B64 + B64 && r <= s
    ensures x <= s
  {
    var y := r * t;
    assert x * P80 * (B64 + 1) == x * (B64 + 1) * P80;
    assert x * (B64 + 1) <= r * f + r;
  }

  lemma PresentWins(x: nat, r: nat, f: nat, s: nat, t: nat)
    requires x * P80 <= r * t && B64 + 1 <= f
    requires r * t <= (r * f + r) * 0x1_0000
    requires s * B64 <= r * f < s * B64 + B64 && B64 * (B64 + 3) <= r
    ensures x <= Step(s, B64 + 1)
  {
    assert x * B64 <= r * f + r;
    MulMono(B64 + 1, f, r);
    assert r * (B64 + 1) < s * B64 + B64;
    assert r * B64 + B64 * (B64 + 3) < s * B64 + B64;
    assert r + B64 + 2 < s;
    assert x * B64 <= s * (B64 + 1);
    DivBelow(s * (B64 + 1), B64, x);
  }

  lemma {:induction false} ChainMonotone(fs: seq<nat>, ts: seq<nat>, i: nat, r: nat, a: nat, b: nat)
    requires Spread(fs, ts) && i <= |fs| && r >= B64 * (B64 + 3)
    requires a + 2 <= b < Pow2(|fs| - i)
    ensures Chain(fs, i, r, a) <= Chain(fs, i, r, b)
    decreases |fs| - i
  {
    assert i < |fs|;
    var p := Pow2(|fs| - 1 - i);
    if a >= p {
      StepBounds(r, fs[i]);
      ChainMonotone(fs, ts, i + 1, Step(r, fs[i]), a - p, b - p);
    } else if b < p {
      ChainMonotone(fs, ts, i + 1, r, a, b);
    } else {
      PartingBit(fs, ts, i, r, a, b - p);
    }
  }

  // ------------------------------------------------------------------
  // exp2 in 192.64 fixed point
  // ------------------------------------------------------------------

  /** `x & (1 << k) != 0`. */
  predicate Bit(x: nat, k: nat) {
    x / Pow2(k) % 2 == 1
  }

  function Fit(v: nat): Option<U128> {
    if v < B128 then Some(v) else None
  }

  /** 2^(integer + frac / 2^64) at 1e18 scale, by the chain. */
  function Scaled(integer: nat, frac: nat): nat
    requires integer < 192
  {
    ScaleDown(Chain(Exp2Factors(), 0, P191, frac), Pow2(191 - integer))
  }

  function ScaleDown(c: nat, d: nat): nat
    requires d > 0
  {
    c * ONE_ETHER / d
  }

  /** What the fixed-point exponential computes: the integer part is the low 32
      bits of x >> 64. */
  function Exp2Spec(x: U128): Option<U128> {
    var integer := x / B64 % 0x1_0000_0000;
    if integer >= 192 then None else Fit(Scaled(integer, x % B64))
  }

  lemma LowBit(x: nat, k: nat)
    ensures x % Pow2(k + 1) == x % Pow2(k) + if Bit(x, k) then Pow2(k) else 0
  {
    var p, hi := Pow2(k), x / Pow2(k + 1);
    DivDiv(x, p, 2);
    var bit := x / p % 2;
    LowBitAlgebra(x, p, hi, bit);
  }

  lemma LowBitAlgebra(x: nat, p: nat, hi: nat, bit: nat)
    requires p > 0 && bit < 2 && x / p == 2 * hi + bit
    ensures x % (2 * p) == x % p + bit * p
  {
    assert x == x / p * p + x % p;
    assert (2 * hi + bit) * p == hi * (2 * p) + bit * p;
    DivModUnique(x, 2 * p, hi, x % p + bit * p);
  }

  lemma StartValue()
    ensures Value([0, 0, 0x8000_0000_0000_0000, 0]) == P191
  {
    var s: seq<U64> := [0, 0, 0x8000_0000_0000_0000, 0];
    ValueSplit(s, 2);
    assert s[..2] == [0, 0] && s[2..] == [0x8000_0000_0000_0000, 0];
    TwoLimbs(0, 0);
    TwoLimbs(0x8000_0000_0000_0000, 0);
    PowB64Values();
  }

  /** A chain value one set bit before the end still multiplies within 256 bits. */
  lemma NextStep(fs: seq<nat>, ts: seq<nat>, x: nat, i: nat, v: nat)
    requires Certified(fs, ts) && |fs| == 64 && i < 64
    requires Chain(fs, i, v, x % Pow2(64 - i)) < P192
    ensures Bit(x, 63 - i) ==> v * fs[i] < B256
    ensures Chain(fs, i, v, x % Pow2(64 - i))
         == Chain(fs, i + 1, if Bit(x, 63 - i) then Step(v, fs[i]) else v, x % Pow2(63 - i))
  {
    LowBit(x, 63 - i);
    if Bit(x, 63 - i) {
      ChainLower(fs, i + 1, Step(v, fs[i]), x % Pow2(63 - i));
      DivBelow(v * fs[i], B64, P192);
    }
  }

  lemma TableStep(x: nat, i: nat, v: nat)
    requires i < 64 && Chain(Exp2Factors(), i, v, x % Pow2(64 - i)) < P192
    ensures Bit(x, 63 - i) ==> v * Exp2Factors()[i] < B256
    ensures Chain(Exp2Factors(), i, v, x % Pow2(64 - i))
         == Chain(Exp2Factors(), i + 1, if Bit(x, 63 - i) then Step(v, Exp2Factors()[i]) else v, x % Pow2(63 - i))
  {
    hide Chain, Factor, Tail, Exp2Factors, Tails, Bit, Step, Pow2;
    TableSpread();
    NextStep(Exp2Factors(), Tails(), x, i, v);
  }

  lemma ChainEnd(fs: seq<nat>, r: nat, a: nat)
    ensures Chain(fs, |fs|, r, a) == r
  {}

  method Exp2Fixed(x: U128) returns (r: Option<U128>)
    ensures r == Exp2Spec(x)
  {
    hide Chain, Factor, Exp2Factors;
    var integer := x / B64 % 0x1_0000_0000;
    if integer >= 192 {
      return None;
    }
    var result: seq<U64> := [0, 0, 0x8000_0000_0000_0000, 0];
    StartValue();
    Pow2Values();
    ChainRange(x % B64);
    ghost var end := Chain(Exp2Factors(), 0, P191, x % B64);
    for i := 0 to 64
      invariant |result| == 4
      invariant Chain(Exp2Factors(), i, Value(result), x % Pow2(64 - i)) == end
    {
      TableStep(x, i, Value(result));
      if Bit(x, 63 - i) {
        var product := MulU256U128(result, Exp2Factors()[i]);
        if product == None {
          return None;
        }
        result := ShrU256(product.value, 64);
      }
    }
    ChainEnd(Exp2Factors(), Value(result), x % Pow2(0));
    var scaled := MulU256U128(result, ONE_ETHER);
    if scaled == None {
      return None;
    }
    result := ShrU256(scaled.value, 191 - integer);
    r := ToU128(result);
  }

  // ------------------------------------------------------------------
  // Range
  // ------------------------------------------------------------------

  /** The scaled result lies in [2^q, 2^(q+1)) at 1e18 scale, and is exactly
      2^q when the fraction is zero. */
  lemma ScaledRange(q: nat, frac: nat)
    requires q < 192
    ensures Pow2(q) * ONE_ETHER <= Scaled(q, frac) < Pow2(q + 1) * ONE_ETHER
    ensures frac == 0 ==> Scaled(q, frac) == Pow2(q) * ONE_ETHER
  {
    assert Pow2(q + 1) == 2 * Pow2(q);
    hide Chain, Exp2Factors, Factor, Pow2;
    ChainRange(frac);
    P191IsPow2();
    Pow2Add(q, 191 - q);
    ScaledAlgebra(Chain(Exp2Factors(), 0, P191, frac), Pow2(q), Pow2(191 - q));
    if frac == 0 {
      ChainZero(Exp2Factors(), P191);
      ScaledExact(Pow2(q), Pow2(191 - q));
    }
  }

  lemma P191IsPow2()
    ensures Pow2(191) == P191
  {
    Pow2Values();
    Pow2Add(128, 63);
    assert Pow2(64) == 2 * Pow2(63);
  }

  lemma ScaledExact(p: nat, d: nat)
    requires d > 0 && p * d == P191
    ensures P191 * ONE_ETHER / d == p * ONE_ETHER
  {
    assert P191 * ONE_ETHER == p * ONE_ETHER * d;
    DivModUnique(P191 * ONE_ETHER, d, p * ONE_ETHER, 0);
  }

  lemma ScaledAlgebra(c: nat, p: nat, d: nat)
    requires d > 0 && p * d == P191 <= c < P192
    ensures p * ONE_ETHER <= c * ONE_ETHER / d < 2 * p * ONE_ETHER
  {
    assert p * ONE_ETHER * d == P191 * ONE_ETHER;
    assert 2 * p * ONE_ETHER * d == P192 * ONE_ETHER;
    DivBelow(c * ONE_ETHER, d, p * ONE_ETHER);
    DivBelow(c * ONE_ETHER, d, 2 * p * ONE_ETHER);
  }

  lemma SpecAt(x: U128, q: nat, frac: nat)
    requires x == q * B64 + frac && frac < B64 && q < 192
    ensures Exp2Spec(x) == Fit(Scaled(q, frac))
  {
    hide Scaled;
    DivModUnique(x, B64, q, frac);
  }

  /** The truncation of the integer part to 32 bits makes the fixed-point form
      periodic in 2^96. */
  lemma Exp2FixedPeriodic(x: U128)
    ensures Exp2Spec(x) == Exp2Spec(x % (B64 * 0x1_0000_0000))
  {
    Periodic(x, B64, 0x1_0000_0000);
  }

  lemma FitRange(q: nat, v: nat)
    requires Pow2(q) * ONE_ETHER <= v < Pow2(q + 1) * ONE_ETHER
    ensures q < 68 ==> v < B128
    ensures q >= 69 ==> v >= B128
  {
    Powers68();
    if q < 68 {
      Pow2Mono(q + 1, 68);
      MulMono(Pow2(q + 1), Pow2(68), ONE_ETHER);
    } else if q >= 69 {
      Pow2Mono(69, q);
      MulMono(Pow2(69), Pow2(q), ONE_ETHER);
    }
  }

  lemma Powers68()
    ensures Pow2(68) == 16 * B64 && Pow2(69) == 32 * B64
  {
    Pow2Values();
    Pow2Add(64, 4);
    Pow2Add(64, 5);
    assert Pow2(4) == 16 && Pow2(5) == 32;
  }

  lemma Periodic(x: nat, b: nat, m: nat)
    requires b > 0 && m > 0
    ensures b * m > 0
    ensures x % (b * m) % b == x % b
    ensures x % (b * m) / b % m == x / b % m
  {
    DivDiv(x, b, m);
    var h, y := x / (b * m), x % (b * m);
    assert x == h * (b * m) + y;
    assert h * (b * m) == h * m * b;
    DivAddMultiple(y, h * m, b);
    DivAddMultiple(y / b, h, m);
  }

  // ------------------------------------------------------------------
  // UD60x18 exp2
  // ------------------------------------------------------------------

  /** The 1e18-scaled exponential: shift left by 64 (losing the high bits),
      give up when bits were lost, divide. */
  function Exp2UdSpec(x: U128): Option<U128> {
    var shifted := x * B64 % B128;
    if shifted / B64 != x then None else Exp2Spec(shifted / ONE_ETHER)
  }

  /** The fixed-point input of a 1e18-scaled x. */
  function Fixed(x: nat): nat {
    x * B64 / ONE_ETHER
  }

  lemma FixedParts(x: nat)
    requires x < B64
    ensures Fixed(x) / B64 == x / ONE_ETHER <= 18
    ensures x % ONE_ETHER == 0 ==> Fixed(x) % B64 == 0
  {
    DivDiv(x * B64, ONE_ETHER, B64);
    DivDiv(x * B64, B64, ONE_ETHER);
    DivModUnique(x * B64, B64, x, 0);
    DivMono(x, B64, ONE_ETHER);
    if x % ONE_ETHER == 0 {
      WholeArgument(x, x / ONE_ETHER);
    }
  }

  lemma WholeArgument(x: nat, k: nat)
    requires x == k * ONE_ETHER
    ensures Fixed(x) == k * B64
  {
    assert x * B64 == (k * B64) * ONE_ETHER;
    DivModUnique(x * B64, ONE_ETHER, k * B64, 0);
  }

  /** Below 2^64 the scaled form is the chain at (x / 1e18, the fraction of
      x * 2^64 / 1e18); from 2^64 on it is None. */
  lemma UdUnfold(x: U128)
    ensures x >= B64 ==> Exp2UdSpec(x) == None
    ensures x < B64 ==> x / ONE_ETHER <= 18
    ensures x < B64 ==> Exp2UdSpec(x) == Fit(Scaled(x / ONE_ETHER, Fixed(x) % B64))
  {
    if x < B64 {
      FixedParts(x);
      DivModUnique(x * B64, B128, 0, x * B64);
      DivModUnique(x * B64, B64, x, 0);
      DivLe(x * B64, ONE_ETHER);
      SpecAt(Fixed(x), x / ONE_ETHER, Fixed(x) % B64);
    } else {
      assert x * B64 % B128 < B128;
      DivBelow(x * B64 % B128, B64, B64);
    }
  }

  /** exp2 answers exactly below 2^64, within a factor of two of 2^q where q is
      the whole part of its argument, and exactly there for whole arguments. */
  lemma Exp2UdRange(x: U128)
    ensures Exp2UdSpec(x).Some? <==> x < B64
    ensures x < B64 ==>
      var q := x / ONE_ETHER;
      Pow2(q) * ONE_ETHER <= Exp2UdSpec(x).value < Pow2(q + 1) * ONE_ETHER
    ensures x < B64 && x % ONE_ETHER == 0 ==> Exp2UdSpec(x).value == Pow2(x / ONE_ETHER) * ONE_ETHER
  {
    UdUnfold(x);
    if x < B64 {
      var q := x / ONE_ETHER;
      FixedParts(x);
      ScaledRange(q, Fixed(x) % B64);
      FitRange(q, Scaled(q, Fixed(x) % B64));
    }
  }

  /** An answer exactly below 2^64, within a factor of two of the power of the whole
      part and never below one; the caller's shift loses no bit there. */
  method Exp2Ud(x: U128) returns (r: Option<U128>)
    ensures r == Exp2UdSpec(x)
    ensures r.Some? <==> x < B64
    ensures r.Some? ==> Pow2(x / ONE_ETHER) * ONE_ETHER <= r.value < Pow2(x / ONE_ETHER + 1) * ONE_ETHER
  {
    hide Exp2Spec;
    Exp2UdRange(x);
    var shifted: U128 := x * B64 % B128;
    if shifted / B64 != x {
      return None;
    }
    r := Exp2Fixed(shifted / ONE_ETHER);
  }

  lemma PowersApart(q: nat, p: nat)
    requires q < p
    ensures Pow2(q + 1) * ONE_ETHER <= Pow2(p) * ONE_ETHER
  {
    hide Pow2;
    Pow2Mono(q + 1, p);
    MulMono(Pow2(q + 1), Pow2(p), ONE_ETHER);
  }

  lemma UdDefined(x: U128)
    ensures Exp2UdSpec(x).Some? <==> x < B64
  {
    hide Exp2UdSpec;
    Exp2UdRange(x);
  }

  lemma WholePartsApart(x: U128, y: U128)
    requires x < B64 && y < B64 && x / ONE_ETHER < y / ONE_ETHER
    requires Exp2UdSpec(x).Some? && Exp2UdSpec(y).Some?
    ensures Exp2UdSpec(x).value <= Exp2UdSpec(y).value
  {
    hide Exp2UdSpec, Pow2;
    Exp2UdRange(x);
    Exp2UdRange(y);
    PowersApart(x / ONE_ETHER, y / ONE_ETHER);
  }

  /** exp2 never decreases: a larger argument never gives a smaller result,
      despite the rounding of the factors. */
  lemma Exp2UdMonotone(x: U128, y: U128)
    requires x <= y < B64
    ensures Exp2UdSpec(x).Some? && Exp2UdSpec(y).Some?
    ensures Exp2UdSpec(x).value <= Exp2UdSpec(y).value
  {
    hide Exp2UdSpec;
    DivMono(x, y, ONE_ETHER);
    UdDefined(x);
    UdDefined(y);
    if x / ONE_ETHER < y / ONE_ETHER {
      WholePartsApart(x, y);
    } else if x < y {
      SameWholePart(x, y);
    }
  }

  lemma SameWholePart(x: U128, y: U128)
    requires x < y < B64 && x / ONE_ETHER == y / ONE_ETHER
    requires Exp2UdSpec(x).Some? && Exp2UdSpec(y).Some?
    ensures Exp2UdSpec(x).value <= Exp2UdSpec(y).value
  {
    UdUnfold(x);
    UdUnfold(y);
    FixedParts(x);
    FixedParts(y);
    Spacing(x, y);
    FractionMonotone(Fixed(x) % B64, Fixed(y) % B64);
    ScaledMono(x / ONE_ETHER, Fixed(x) % B64, Fixed(y) % B64);
  }

  /** Fractions two units apart never come out in the wrong order. */
  lemma FractionMonotone(a: nat, b: nat)
    requires a + 2 <= b < B64
    ensures Chain(Exp2Factors(), 0, P191, a) <= Chain(Exp2Factors(), 0, P191, b)
  {
    hide Chain, Factor, Tail, Exp2Factors, Tails, Pow2;
    Pow2Values();
    TableSpread();
    ChainMonotone(Exp2Factors(), Tails(), 0, P191, a, b);
  }

  lemma ScaledMono(q: nat, a: nat, b: nat)
    requires q < 192
    requires Chain(Exp2Factors(), 0, P191, a) <= Chain(Exp2Factors(), 0, P191, b)
    ensures Scaled(q, a) <= Scaled(q, b)
  {
    var c, d := Chain(Exp2Factors(), 0, P191, a), Chain(Exp2Factors(), 0, P191, b);
    MulMono(c, d, ONE_ETHER);
    DivMono(c * ONE_ETHER, d * ONE_ETHER, Pow2(191 - q));
  }

  /** Distinct 1e18-scaled arguments with one whole part give fractions at
      least 18 units apart. */
  lemma Spacing(x: nat, y: nat)
    requires x < y && Fixed(x) / B64 == Fixed(y) / B64
    ensures Fixed(x) % B64 + 18 <= Fixed(y) % B64
  {
    DivAddMultiple(x * B64, 18, ONE_ETHER);
    assert x * B64 + 18 * ONE_ETHER <= y * B64;
    DivMono(x * B64 + 18 * ONE_ETHER, y * B64, ONE_ETHER);
  }
}
