/**
 The wide unsigned arithmetic the replay rests on: 256-bit values as four
 little-endian 64-bit limbs, and exact multiply-then-divide for 128-bit
 operands.  Machine words are naturals with a bound; every operator that
 truncates in the Rust code truncates here.
 */
module Wide {
  import opened Arith
  import opened Prelude

  const B64: nat := 0x1_0000_0000_0000_0000
  const B127: nat := 0x8000_0000_0000_0000_0000_0000_0000_0000
  const B128: nat := 0x1_0000_0000_0000_0000_0000_0000_0000_0000
  const B256: nat := 0x1_0000_0000_0000_0000_0000_0000_0000_0000_0000_0000_0000_0000_0000_0000_0000_0000

  type U64 = x: int | 0 <= x < B64
  type U128 = x: int | 0 <= x < B128

  // ------------------------------------------------------------------
  // Little-endian limbs
  // ------------------------------------------------------------------

  /** The number a little-endian limb sequence denotes. */
  function Value(limbs: seq<U64>): nat {
    if limbs == [] then 0 else limbs[0] + B64 * Value(limbs[1..])
  }

  lemma Hoist(first: int, low: int, p: int, high: int)
    ensures first + B64 * (low + p * high) == first + B64 * low + B64 * p * high
  {}

  lemma {:induction false} ValueSplit(s: seq<U64>, k: nat)
    requires k <= |s|
    ensures Value(s) == Value(s[..k]) + Pow(B64, k) * Value(s[k..])
  {
    if k > 0 {
      ValueSplit(s[1..], k - 1);
      assert s[..k][1..] == s[1..][..k - 1];
      assert s[1..][k - 1..] == s[k..];
      Hoist(s[0], Value(s[1..][..k - 1]), Pow(B64, k - 1), Value(s[k..]));
    } else {
      assert s[0..] == s;
    }
  }

  lemma {:induction false} ValueBound(s: seq<U64>)
    ensures Value(s) < Pow(B64, |s|)
  {
    if s != [] {
      ValueBound(s[1..]);
    }
  }

  lemma ValueOne(v: U64)
    ensures Value([v]) == v
  {
    assert Value([v][1..]) == 0;
  }

  lemma {:induction false} ValueSnoc(s: seq<U64>, v: U64)
    ensures Value(s + [v]) == Value(s) + v * Pow(B64, |s|)
  {
    if s == [] {
      ValueOne(v);
      assert s + [v] == [v];
    } else {
      ValueSnoc(s[1..], v);
      assert (s + [v])[1..] == s[1..] + [v];
      MulSwap(v, Pow(B64, |s| - 1));
    }
  }

  lemma MulSwap(v: int, p: int)
    ensures B64 * (v * p) == v * (B64 * p)
  {}

  lemma ValueUpdate(s: seq<U64>, k: nat, v: U64)
    requires k < |s|
    ensures Value(s[k := v]) == Value(s) + (v - s[k]) * Pow(B64, k)
  {
    var t := s[k := v];
    ValueSplit(s, k);
    ValueSplit(t, k);
    assert t[..k] == s[..k] && t[k..][1..] == s[k..][1..];
    var p, w := Pow(B64, k), B64 * Value(s[k..][1..]);
    assert p * (v + w) - p * (s[k] + w) == (v - s[k]) * p;
  }

  lemma {:induction false} ValueZero(s: seq<U64>)
    requires forall k :: 0 <= k < |s| ==> s[k] == 0
    ensures Value(s) == 0
  {
    if s != [] {
      ValueZero(s[1..]);
    }
  }

  lemma PowB64Values()
    ensures Pow(B64, 2) == B128 && Pow(B64, 4) == B256
  {
    assert Pow(B64, 1) == B64;
    assert Pow(B64, 2) == B64 * B64;
    assert Pow(B64, 3) == B64 * Pow(B64, 2);
  }

  // ------------------------------------------------------------------
  // 256-bit multiply
  // ------------------------------------------------------------------

  /** One multiply-and-carry step of the schoolbook product, in naturals. */
  lemma MulStep(v: int, o: int, carry: int, x: int, cur: int, lo: int, hi: int, p: int)
    requires cur == x + o + carry && cur == hi * B64 + lo
    ensures v + (lo - o) * p + hi * (B64 * p) == v + carry * p + x * p
  {
    assert hi * (B64 * p) == hi * B64 * p;
    assert (lo - o) * p + hi * B64 * p == (lo - o + hi * B64) * p;
    assert (carry + x) * p == carry * p + x * p;
  }

  /** A product of two limbs plus two limbs still fits in 128 bits. */
  lemma LimbProductFits(x: U64, y: U64)
    ensures x * y + 2 * (B64 - 1) < B128
  {
    MulMono(x, B64 - 1, y);
    MulMono(y, B64 - 1, B64 - 1);
  }

  /** One row of the schoolbook product: a[i] * b added at limb i. */
  method AddRow(out: array<U64>, ai: U64, bLimbs: seq<U64>, i: nat)
    requires out.Length == 6 && |bLimbs| == 2 && i < 4
    requires forall k :: i + 2 <= k < 6 ==> out[k] == 0
    modifies out
    ensures forall k :: i + 3 <= k < 6 ==> out[k] == 0
    ensures Value(out[..]) == Value(old(out[..])) + ai * Value(bLimbs) * Pow(B64, i)
  {
    ghost var start := Value(out[..]);
    var carry: U128 := 0;
    for j := 0 to 2
      invariant carry < B64
      invariant forall k :: i + 2 <= k < 6 ==> out[k] == 0
      invariant Value(out[..]) + carry * Pow(B64, i + j) == start + ai * Value(bLimbs[..j]) * Pow(B64, i)
    {
      LimbProductFits(ai, bLimbs[j]);
      var cur: U128 := ai * bLimbs[j] + out[i + j] + carry;
      StoreStep(out[..], i + j, cur, carry, ai * bLimbs[j]);
      RowExtend(ai, bLimbs, i, j);
      out[i + j] := cur % B64;
      carry := cur / B64;
    }
    assert bLimbs[..2] == bLimbs;
    var k := i + 2;
    while carry > 0
      invariant carry < B64
      invariant if carry > 0 then k == i + 2 else i + 2 <= k <= i + 3
      invariant forall m :: i + 2 <= m < 6 && (carry > 0 || i + 3 <= m) ==> out[m] == 0
      invariant Value(out[..]) + carry * Pow(B64, k) == start + ai * Value(bLimbs) * Pow(B64, i)
    {
      var cur: U128 := out[k] + carry;
      StoreStep(out[..], k, cur, carry, 0);
      out[k] := cur % B64;
      carry := cur / B64;
      k := k + 1;
    }
  }

  /** Storing the low limb of `cur` and carrying the high one keeps the sum. */
  lemma StoreStep(s: seq<U64>, k: nat, cur: U128, carry: U128, x: int)
    requires k < |s| && cur == x + s[k] + carry
    ensures Value(s[k := cur % B64]) + cur / B64 * Pow(B64, k + 1) == Value(s) + carry * Pow(B64, k) + x * Pow(B64, k)
  {
    ValueUpdate(s, k, cur % B64);
    MulStep(Value(s), s[k], carry, x, cur, cur % B64, cur / B64, Pow(B64, k));
  }

  lemma {:induction false} RowExtend(ai: U64, bLimbs: seq<U64>, i: nat, j: nat)
    requires j < |bLimbs|
    ensures ai * Value(bLimbs[..j + 1]) * Pow(B64, i)
         == ai * Value(bLimbs[..j]) * Pow(B64, i) + ai * bLimbs[j] * Pow(B64, i + j)
  {
    assert bLimbs[..j + 1] == bLimbs[..j] + [bLimbs[j]];
    ValueSnoc(bLimbs[..j], bLimbs[j]);
    PowAdd(B64, i, j);
    RowAlgebra(ai, Value(bLimbs[..j]), bLimbs[j], Pow(B64, j), Pow(B64, i));
  }

  lemma RowAlgebra(ai: int, u: int, v: int, p: int, q: int)
    ensures ai * (u + v * p) * q == ai * u * q + ai * v * (q * p)
  {
    assert ai * (u + v * p) == ai * u + ai * (v * p);
    assert ai * (v * p) * q == ai * v * (q * p);
  }

  lemma RowDone(v: int, ai: int, p: int, b: int)
    ensures (v + ai * p) * b == v * b + ai * b * p
  {
    assert (v + ai * p) * b == v * b + ai * p * b;
  }

  lemma TwoLimbs(lo: U64, hi: U64)
    ensures Value([lo, hi]) == lo + B64 * hi
  {
    assert [lo, hi][1..] == [hi];
    ValueOne(hi);
  }

  lemma TopLimbs(out: seq<U64>)
    requires |out| == 6
    ensures Value(out) == Value(out[..4]) + B256 * (out[4] + B64 * out[5])
    ensures Value(out[..4]) < B256
  {
    ValueSplit(out, 4);
    assert out[4..] == [out[4], out[5]];
    TwoLimbs(out[4], out[5]);
    PowB64Values();
    ValueBound(out[..4]);
  }

  /** The exact product, or None exactly when it does not fit in 256 bits.  No
      index leaves the six limbs and no intermediate leaves 128 bits. */
  method MulU256U128(a: seq<U64>, b: U128) returns (r: Option<seq<U64>>)
    requires |a| == 4
    ensures r.Some? <==> Value(a) * b < B256
    ensures r.Some? ==> |r.value| == 4 && Value(r.value) == Value(a) * b
  {
    var bLimbs: seq<U64> := [b % B64, b / B64];
    TwoLimbs(b % B64, b / B64);
    var out := new U64[6](_ => 0);
    ValueZero(out[..]);
    for i := 0 to 4
      invariant forall k :: i + 2 <= k < 6 ==> out[k] == 0
      invariant Value(out[..]) == Value(a[..i]) * b
    {
      AddRow(out, a[i], bLimbs, i);
      assert a[..i + 1] == a[..i] + [a[i]];
      ValueSnoc(a[..i], a[i]);
      RowDone(Value(a[..i]), a[i], Pow(B64, i), b);
    }
    assert a[..4] == a;
    TopLimbs(out[..]);
    assert out[..][..4] == out[..4];
    if out[4] != 0 || out[5] != 0 {
      return None;
    }
    return Some(out[..4]);
  }

  // ------------------------------------------------------------------
  // 256-bit shift right
  // ------------------------------------------------------------------

  /** Bitwise or, on naturals of any width. */
  function BitOr(x: nat, y: nat): nat {
    if x == 0 && y == 0 then 0
    else (if x % 2 == 1 || y % 2 == 1 then 1 else 0) + 2 * BitOr(x / 2, y / 2)
  }

  /** Or is addition when the operands share no bit. */
  lemma {:induction false} OrDisjoint(x: nat, y: nat, k: nat)
    requires x < Pow2(k)
    ensures BitOr(x, y * Pow2(k)) == x + y * Pow2(k)
    decreases k, y
  {
    if k > 0 {
      var p := Pow2(k - 1);
      assert y * Pow2(k) == 2 * (y * p);
      OrDisjoint(x / 2, y, k - 1);
    } else if y > 0 {
      OrDisjoint(0, y / 2, 0);
    }
  }

  /** A word of b = p * q values, split at p. */
  lemma ShlAlgebra(v: nat, p: nat, q: nat, b: nat)
    requires p > 0 && q > 0 && p * q == b
    ensures v * q % b == v % p * q
  {
    assert v == v / p * p + v % p;
    assert v * q == v / p * (p * q) + v % p * q;
    assert (v % p) * q < p * q by { MulMono(v % p + 1, p, q); }
    DivModUnique(v * q, b, v / p, v % p * q);
  }

  lemma ShrFits(lo: nat, hi: nat, p: nat, q: nat, b: nat)
    requires p > 0 && q > 0 && p * q == b && lo < b
    ensures lo / p < q
    ensures lo / p + hi % p * q < b
  {
    DivBelow(lo, p, q);
    MulMono(hi % p + 1, p, q);
  }

  /** 64 bits split at `bits`. */
  lemma SplitWord(bits: nat)
    requires bits < 64
    ensures Pow2(bits) * Pow2(64 - bits) == B64
  {
    Pow2Values();
    Pow2Add(bits, 64 - bits);
  }

  /** `v >> n` on a 64-bit word. */
  function Shr64(v: U64, n: nat): U64 {
    DivLe(v, Pow2(n));
    v / Pow2(n)
  }

  /** `v << n` on a 64-bit word: the bits shifted out are lost. */
  function Shl64(v: U64, n: nat): U64 {
    v * Pow2(n) % B64
  }

  lemma NothingIn(hi: nat, p: nat, q: nat)
    requires p == 1 || (p > 0 && hi == 0)
    ensures hi % p * q == 0
  {}

  /** One output limb of a shift by fewer than 64 bits: shifting left by the
      complement keeps only the low bits of the next limb, and the or of the
      two parts is their sum. */
  lemma ShrLimbParts(lo: U64, hi: U64, bits: nat)
    requires bits < 64
    ensures BitOr(Shr64(lo, bits), Shl64(hi, 64 - bits)) == ShrLimb(lo, hi, bits) < B64
    ensures bits == 0 || hi == 0 ==> ShrLimb(lo, hi, bits) == Shr64(lo, bits)
  {
    assert bits == 0 ==> Pow2(bits) == 1;
    hide Pow2, BitOr;
    SplitWord(bits);
    var p, q := Pow2(bits), Pow2(64 - bits);
    ShlAlgebra(hi, p, q, B64);
    ShrFits(lo, hi, p, q, B64);
    OrDisjoint(lo / p, hi % p, 64 - bits);
    if bits == 0 || hi == 0 {
      NothingIn(hi, p, q);
    }
  }

  function ShrLimb(lo: U64, hi: U64, bits: nat): nat
    requires bits < 64
  {
    DivLe(lo, Pow2(bits));
    MulMono(0, hi % Pow2(bits), Pow2(64 - bits));
    lo / Pow2(bits) + hi % Pow2(bits) * Pow2(64 - bits)
  }

  function ShrLimbs(s: seq<U64>, bits: nat): (t: seq<U64>)
    requires bits < 64
    ensures |t| == |s|
  {
    if s == [] then []
    else
      ShrLimbParts(s[0], NextLimb(s), bits);
      [ShrLimb(s[0], NextLimb(s), bits)] + ShrLimbs(s[1..], bits)
  }

  function NextLimb(s: seq<U64>): U64 {
    if |s| > 1 then s[1] else 0
  }

  lemma {:induction false} ShrLimbsValue(s: seq<U64>, bits: nat)
    requires bits < 64
    ensures Value(ShrLimbs(s, bits)) == Value(s) / Pow2(bits)
  {
    hide Pow2, ShrLimb;
    if s != [] {
      ShrLimbsValue(s[1..], bits);
      ShrLimbParts(s[0], NextLimb(s), bits);
      assert ShrLimbs(s, bits)[1..] == ShrLimbs(s[1..], bits);
      ShrCons(s[0], s[1..], bits);
    }
  }

  lemma ShrCons(x: U64, rest: seq<U64>, bits: nat)
    requires bits < 64
    ensures (x + B64 * Value(rest)) / Pow2(bits)
         == ShrLimb(x, NextLimb([x] + rest), bits) + B64 * (Value(rest) / Pow2(bits))
  {
    SplitWord(bits);
    LowBits(rest, Pow2(bits), Pow2(64 - bits));
    ShrAlgebra(x, Value(rest), Pow2(bits), Pow2(64 - bits), B64);
  }

  /** The low bits of a number are the low bits of its first limb. */
  lemma LowBits(s: seq<U64>, p: nat, q: nat)
    requires p > 0 && p * q == B64
    ensures Value(s) % p == (if s == [] then 0 else s[0]) % p
  {
    if s != [] {
      var v := Value(s[1..]);
      assert B64 * v == (q * v) * p;
      DivAddMultiple(s[0], q * v, p);
    }
  }

  lemma ShrAlgebra(x: nat, rest: nat, p: nat, q: nat, b: nat)
    requires p > 0 && p * q == b
    ensures (x + b * rest) / p == x / p + rest % p * q + b * (rest / p)
  {
    var k := rest * q;
    assert b * rest == k * p;
    DivAddMultiple(x, k, p);
    assert rest == rest / p * p + rest % p;
    assert k == rest / p * (p * q) + rest % p * q;
  }

  /** floor(a / 2^n), for every shift count. */
  method ShrU256(a: seq<U64>, n: nat) returns (r: seq<U64>)
    requires |a| == 4
    ensures |r| == 4 && Value(r) == Value(a) / Pow2(n)
  {
    var out := new U64[4](_ => 0);
    var limb := n / 64;
    var bits := n % 64;
    ghost var kept := Kept(a, limb);
    for i := 0 to 4
      invariant forall k :: 0 <= k < 4 ==> out[k] == if k < i && k < |kept| then ShrLimbs(kept, bits)[k] else 0
    {
      var src := i + limb;
      if src >= 4 {
        break;
      }
      ShrLimbsAt(kept, bits, i);
      assert kept[i..] == a[src..];
      ShrLimbParts(a[src], NextLimb(a[src..]), bits);
      var v := Shr64(a[src], bits);
      if bits > 0 && src + 1 < 4 {
        v := BitOr(v, Shl64(a[src + 1], 64 - bits));
      }
      out[i] := v;
    }
    r := out[..];
    ShrResult(a, limb, bits, r);
  }

  function Kept(a: seq<U64>, limb: nat): seq<U64> {
    if limb < |a| then a[limb..] else []
  }

  lemma ShrResult(a: seq<U64>, limb: nat, bits: nat, r: seq<U64>)
    requires bits < 64 && |r| == |a|
    requires forall k :: 0 <= k < |r| ==>
      r[k] == if k < |Kept(a, limb)| then ShrLimbs(Kept(a, limb), bits)[k] else 0
    ensures Value(r) == Value(a) / Pow2(64 * limb + bits)
  {
    var kept := Kept(a, limb);
    ShrLimbsValue(kept, bits);
    ValueSplit(r, |kept|);
    assert r[..|kept|] == ShrLimbs(kept, bits);
    ValueZero(r[|kept|..]);
    ShrWholeLimbs(a, limb);
    Pow2Add(64 * limb, bits);
    DivDiv(Value(a), Pow2(64 * limb), Pow2(bits));
  }

  lemma {:induction false} ShrLimbsAt(s: seq<U64>, bits: nat, i: nat)
    requires bits < 64 && i < |s|
    ensures ShrLimbs(s, bits)[i] == ShrLimb(s[i], NextLimb(s[i..]), bits)
  {
    if i > 0 {
      ShrLimbsAt(s[1..], bits, i - 1);
      assert s[1..][i - 1..] == s[i..];
    }
  }

  /** Dropping whole limbs is division by the matching power of two. */
  lemma ShrWholeLimbs(a: seq<U64>, limb: nat)
    ensures Value(Kept(a, limb)) == Value(a) / Pow2(64 * limb)
  {
    PowB64IsPow2(limb);
    if limb < |a| {
      ValueSplit(a, limb);
      ValueBound(a[..limb]);
      HighPart(Value(a), Value(a[..limb]), Value(a[limb..]), Pow(B64, limb));
    } else {
      ValueBound(a);
      PowB64IsPow2(|a|);
      Pow2Mono(64 * |a|, 64 * limb);
      HighPart(Value(a), Value(a), 0, Pow(B64, limb));
    }
  }

  lemma HighPart(v: nat, lo: nat, hi: nat, p: nat)
    requires v == lo + p * hi && lo < p
    ensures v / p == hi
  {
    DivModUnique(v, p, hi, lo);
  }

  lemma {:induction false} PowB64IsPow2(n: nat)
    ensures Pow(B64, n) == Pow2(64 * n)
  {
    if n > 0 {
      PowB64IsPow2(n - 1);
      Pow2Values();
      Pow2Add(64, 64 * (n - 1));
    }
  }

  /** The value, exactly when it is below 2^128. */
  function ToU128(a: seq<U64>): (r: Option<U128>)
    requires |a| == 4
    ensures r == if Value(a) < B128 then Some(Value(a)) else None
  {
    ValueSplit(a, 2);
    TwoLimbs(a[0], a[1]);
    TwoLimbs(a[2], a[3]);
    PowB64Values();
    assert a[..2] == [a[0], a[1]] && a[2..] == [a[2], a[3]];
    if a[2] != 0 || a[3] != 0 then None else Some(BitOr128(a[0], a[1]))
  }

  /** `lo | (hi << 64)`. */
  function BitOr128(lo: U64, hi: U64): (v: U128)
    ensures v == lo + B64 * hi
  {
    Pow2Values();
    OrDisjoint(lo, hi, 64);
    BitOr(lo, hi * B64)
  }

  // ------------------------------------------------------------------
  // Multiply, then divide
  // ------------------------------------------------------------------

  /** floor(n / d): None when d is zero or the quotient exceeds 128 bits. */
  function DivSpec(n: nat, d: nat): Option<U128> {
    if d == 0 || n / d >= B128 then None else Some(n / d)
  }

  /** floor(a * b / c), under the same two exceptions. */
  function MulDivSpec(a: nat, b: nat, c: nat): Option<U128> {
    DivSpec(a * b, c)
  }

  /** The 256-bit product as (high, low), from four half-width products. */
  method MulFull(a: U128, b: U128) returns (high: U128, low: U128)
    ensures high * B128 + low == a * b
  {
    var aLo, aHi := a % B64, a / B64;
    var bLo, bHi := b % B64, b / B64;
    LimbProductFits(aLo, bLo);
    LimbProductFits(aLo, bHi);
    LimbProductFits(aHi, bLo);
    LimbProductFits(aHi, bHi);
    var loLo: U128 := aLo * bLo;
    var loHi: U128 := aLo * bHi;
    var hiLo: U128 := aHi * bLo;
    var hiHi: U128 := aHi * bHi;
    FourProducts(aLo, aHi, bLo, bHi);
    CombineCross(loLo, loHi + hiLo, hiHi);
    var mid: U128 := (loHi + hiLo) % B128;
    var carryA: U128 := if loHi + hiLo >= B128 then B64 else 0;
    var shifted: U128 := mid * B64 % B128;
    low := (loLo + shifted) % B128;
    var carryB := if loLo + shifted >= B128 then 1 else 0;
    HighFits(a, b, hiHi + mid / B64 + carryA + carryB, low);
    high := hiHi + mid / B64 + carryA + carryB;
  }

  /** Folding the cross terms in, with the two carries, loses nothing. */
  lemma CombineCross(loLo: U128, cross: nat, hiHi: U128)
    requires cross < 2 * B128
    ensures
      var mid := cross % B128;
      var carryA := if cross >= B128 then B64 else 0;
      var shifted := mid * B64 % B128;
      var carryB := if loLo + shifted >= B128 then 1 else 0;
      (hiHi + mid / B64 + carryA + carryB) * B128 + (loLo + shifted) % B128
        == loLo + B64 * cross + B128 * hiHi
  {
    var mid := cross % B128;
    DivModUnique(mid * B64, B128, mid / B64, mid % B64 * B64);
  }

  lemma FourProducts(aLo: nat, aHi: nat, bLo: nat, bHi: nat)
    ensures (aLo + B64 * aHi) * (bLo + B64 * bHi)
         == aLo * bLo + B64 * (aLo * bHi + aHi * bLo) + B128 * (aHi * bHi)
  {
    var b := bLo + B64 * bHi;
    assert (aLo + B64 * aHi) * b == aLo * b + B64 * (aHi * b);
    assert aLo * b == aLo * bLo + B64 * (aLo * bHi);
    assert aHi * b == aHi * bLo + B64 * (aHi * bHi);
  }

  lemma HighFits(a: U128, b: U128, h: int, low: U128)
    requires h * B128 + low == a * b
    ensures 0 <= h < B128
  {
    MulMono(a, B128 - 1, b);
    MulMono(b, B128 - 1, B128 - 1);
    assert 0 <= a * b;
  }

  /** Bit `bit` of the pair (hi, lo). */
  function BitAt(hi: U128, lo: U128, bit: nat): nat {
    if bit >= 128 then hi / Pow2(bit - 128) % 2 else lo / Pow2(bit) % 2
  }

  lemma BitOfPair(hi: U128, lo: U128, bit: nat)
    requires bit < 256
    ensures (hi * B128 + lo) / Pow2(bit) % 2 == BitAt(hi, lo, bit)
  {
    Pow2Values();
    if bit >= 128 {
      Pow2Add(128, bit - 128);
      DivDiv(hi * B128 + lo, B128, Pow2(bit - 128));
      DivModUnique(hi * B128 + lo, B128, hi, lo);
    } else {
      var p, q := Pow2(bit), Pow2(127 - bit);
      Pow2Add(bit, 128 - bit);
      assert Pow2(128 - bit) == 2 * q;
      BitBelow(hi, lo, p, q);
    }
  }

  lemma BitBelow(hi: nat, lo: nat, p: nat, q: nat)
    requires p > 0 && p * (2 * q) == B128
    ensures (hi * B128 + lo) / p % 2 == lo / p % 2
  {
    assert hi * B128 == hi * (2 * q) * p;
    DivAddMultiple(lo, hi * (2 * q), p);
    assert hi * (2 * q) == hi * q * 2;
    DivAddMultiple(lo / p, hi * q, 2);
  }

  /** The next bit doubles the prefix. */
  lemma PrefixStep(n: nat, bit: nat)
    ensures n / Pow2(bit) == 2 * (n / Pow2(bit + 1)) + n / Pow2(bit) % 2
  {
    DivDiv(n, Pow2(bit), 2);
  }

  /** The remainder doubled, with the next bit below: its 129th bit is lost. */
  function Doubled(remainder: U128, current: nat): nat {
    remainder * 2 % B128 + current
  }

  /** The lost bit and the wrapping subtraction together are exact. */
  lemma DoubledExact(remainder: U128, current: nat, divisor: U128)
    requires remainder < divisor && current < 2
    ensures
      if remainder / B127 == 1 || Doubled(remainder, current) >= divisor
      then (Doubled(remainder, current) - divisor) % B128 == 2 * remainder + current - divisor
           && 0 <= 2 * remainder + current - divisor < divisor
      else Doubled(remainder, current) == 2 * remainder + current < divisor
  {}

  lemma PrefixAlgebra(prefix: nat, q: nat, remainder: int, current: int, divisor: nat)
    requires prefix == q * divisor + remainder
    ensures 2 * prefix + current == 2 * q * divisor + (2 * remainder + current)
    ensures 2 * prefix + current == (2 * q + 1) * divisor + (2 * remainder + current - divisor)
  {
    assert 2 * (q * divisor) == 2 * q * divisor;
    assert (2 * q + 1) * divisor == 2 * q * divisor + divisor;
  }

  /** The division has consumed every bit of n from `bit` up: the quotient so
      far is q, already in place, and it cannot yet exceed 128 bits. */
  ghost predicate Divided(n: nat, bit: nat, divisor: U128, q: nat, remainder: nat, quotient: nat) {
    && remainder < divisor
    && n / Pow2(bit) == q * divisor + remainder
    && (bit >= 128 ==> q == 0)
    && quotient == q * Pow2(bit)
  }

  lemma SubtractStep(n: nat, bit: nat, divisor: U128, q: nat, remainder: U128, quotient: U128)
    requires Divided(n, bit + 1, divisor, q, remainder, quotient)
    requires remainder / B127 == 1 || Doubled(remainder, n / Pow2(bit) % 2) >= divisor
    ensures var left := (Doubled(remainder, n / Pow2(bit) % 2) - divisor) % B128;
            if bit >= 128 then n / divisor >= B128
            else BitOr(Pow2(bit), quotient) < B128
                 && Divided(n, bit, divisor, 2 * q + 1, left, BitOr(Pow2(bit), quotient))
  {
    hide Pow2, BitOr;
    var current := n / Pow2(bit) % 2;
    PrefixStep(n, bit);
    DoubledExact(remainder, current, divisor);
    PrefixAlgebra(n / Pow2(bit + 1), q, remainder, current, divisor);
    if bit >= 128 {
      TooLarge(n, bit, divisor, 2 * remainder + current - divisor);
    } else {
      QuotientFits(q, bit, quotient);
    }
  }

  lemma KeepStep(n: nat, bit: nat, divisor: U128, q: nat, remainder: U128, quotient: U128)
    requires Divided(n, bit + 1, divisor, q, remainder, quotient)
    requires remainder / B127 != 1 && Doubled(remainder, n / Pow2(bit) % 2) < divisor
    ensures Divided(n, bit, divisor, 2 * q, Doubled(remainder, n / Pow2(bit) % 2), quotient)
  {
    hide Pow2, Doubled;
    var current := n / Pow2(bit) % 2;
    PrefixStep(n, bit);
    DoubledExact(remainder, current, divisor);
    PrefixAlgebra(n / Pow2(bit + 1), q, remainder, current, divisor);
    ZeroQuotient(q, bit);
  }

  /** Binary long division of (hi, lo) by the divisor. */
  method Div256(hi: U128, lo: U128, divisor: U128) returns (r: Option<U128>)
    ensures r == DivSpec(hi * B128 + lo, divisor)
  {
    hide Pow2, BitOr, BitAt, Divided, Doubled;
    if divisor == 0 {
      return None;
    }
    if hi == 0 {
      DivLe(lo, divisor);
      return Some(lo / divisor);
    }
    ghost var n := hi * B128 + lo;
    ghost var q: nat := 0;
    var quotient: U128 := 0;
    var remainder: U128 := 0;
    DivisionStart(hi, lo, divisor);
    for bit := 256 downto 0
      invariant Divided(n, bit, divisor, q, remainder, quotient)
    {
      BitOfPair(hi, lo, bit);
      var current := BitAt(hi, lo, bit);
      var overflowed := remainder / B127 == 1;
      var doubled := Doubled(remainder, current);
      if overflowed || doubled >= divisor {
        SubtractStep(n, bit, divisor, q, remainder, quotient);
        remainder := (doubled - divisor) % B128;
        if bit >= 128 {
          return None;
        }
        quotient := BitOr(Pow2(bit), quotient);
        q := 2 * q + 1;
      } else {
        KeepStep(n, bit, divisor, q, remainder, quotient);
        remainder := doubled;
        q := 2 * q;
      }
    }
    DivisionDone(n, divisor, q, remainder, quotient);
    r := Some(quotient);
  }

  lemma DivisionStart(hi: U128, lo: U128, divisor: U128)
    requires divisor > 0
    ensures Divided(hi * B128 + lo, 256, divisor, 0, 0, 0)
  {
    Pow2Values();
    Pow2Add(128, 128);
    DivModUnique(hi * B128 + lo, Pow2(256), 0, hi * B128 + lo);
  }

  lemma DivisionDone(n: nat, divisor: U128, q: nat, remainder: nat, quotient: U128)
    requires Divided(n, 0, divisor, q, remainder, quotient)
    ensures DivSpec(n, divisor) == Some(quotient)
  {
    assert Pow2(0) == 1;
    DivModUnique(n, divisor, q, remainder);
  }

  lemma ZeroQuotient(q: nat, bit: nat)
    ensures 2 * q * Pow2(bit) == q * Pow2(bit + 1)
  {}

  lemma TooLarge(n: nat, bit: nat, divisor: nat, remainder: nat)
    requires bit >= 128 && divisor > 0 && n / Pow2(bit) == 1 * divisor + remainder
    ensures n / divisor >= B128
  {
    Pow2Values();
    Pow2Mono(128, bit);
    DivBelow(n, Pow2(bit), divisor);
    MulMono(B128, Pow2(bit), divisor);
    DivBelow(n, divisor, B128);
  }

  /** Setting a fresh low bit adds it and stays inside 128 bits. */
  lemma QuotientFits(q: nat, bit: nat, quotient: U128)
    requires bit < 128 && quotient == q * Pow2(bit + 1)
    ensures BitOr(Pow2(bit), quotient) == (2 * q + 1) * Pow2(bit) < B128
  {
    OrDisjoint(Pow2(bit), q, bit + 1);
    Pow2Values();
    Pow2Add(bit + 1, 127 - bit);
    EvenBelow(q, Pow2(bit), Pow2(127 - bit));
  }

  lemma EvenBelow(q: nat, p: nat, t: nat)
    requires p > 0 && 2 * p * t == B128 && q * (2 * p) < B128
    ensures p + q * (2 * p) == (2 * q + 1) * p < B128
  {
    if q >= t {
      MulMono(t, q, 2 * p);
    }
    MulMono(2 * q + 1, 2 * t - 1, p);
    assert (2 * t - 1) * p == 2 * p * t - p;
  }

  /** floor(a * b / c), exactly. */
  method MulDivFloor(a: U128, b: U128, c: U128) returns (r: Option<U128>)
    ensures r == MulDivSpec(a, b, c)
  {
    var hi, lo := MulFull(a, b);
    r := Div256(hi, lo, c);
  }
}
