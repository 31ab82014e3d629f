/**
 The sfrxUSD share price from its stored anchor: continuous compounding through
 the replayed exponential, then the assets and conversion built on it.
 */
module Pricing {
  import opened Arith
  import opened Prelude
  import opened Wide
  import opened Exp2

  /** exp(x) as exp2(x * log2(e)). */
  function ExpUdSpec(x: U128): Option<U128> {
    match MulDivSpec(x, LOG2_E, ONE_ETHER)
    case None => None
    case Some(y) => Exp2UdSpec(y)
  }

  /** Where the exponential has a value, and that it never falls below one. */
  lemma ExpUdRange(x: U128)
    ensures ExpUdSpec(x).Some? <==> x * LOG2_E < B64 * ONE_ETHER
    ensures ExpUdSpec(x).Some? ==> ONE_ETHER <= ExpUdSpec(x).value
  {
    hide Exp2UdSpec;
    DivBelow(x * LOG2_E, ONE_ETHER, B64);
    DivBelow(x * LOG2_E, ONE_ETHER, B128);
    if x * LOG2_E < B64 * ONE_ETHER {
      var y := x * LOG2_E / ONE_ETHER;
      Exp2UdRange(y);
      Pow2Positive(y / ONE_ETHER);
    } else if x * LOG2_E / ONE_ETHER < B128 {
      Exp2UdRange(x * LOG2_E / ONE_ETHER);
    }
  }

  lemma Pow2Positive(n: nat)
    ensures ONE_ETHER <= Pow2(n) * ONE_ETHER
  {
    MulMono(1, Pow2(n), ONE_ETHER);
  }

  method ExpUd(x: U128) returns (r: Option<U128>)
    ensures r == ExpUdSpec(x)
    ensures r.Some? <==> x * LOG2_E < B64 * ONE_ETHER
    ensures r.Some? ==> ONE_ETHER <= r.value
  {
    hide Exp2UdSpec;
    ExpUdRange(x);
    var y := MulDivFloor(x, LOG2_E, ONE_ETHER);
    if y == None {
      return None;
    }
    r := Exp2Ud(y.value);
  }

  /** `a.checked_mul(b)`. */
  function CheckedMul(a: nat, b: nat): Option<U128> {
    if a * b < B128 then Some(a * b) else None
  }

  /** pricePerShare at `now` from the stored anchor. */
  function PriceSpec(stored: U128, inc: U128, lastSync: U64, now: U64): Option<U128> {
    if now < lastSync then None
    else match CheckedMul(inc, now - lastSync)
      case None => None
      case Some(x) =>
        match ExpUdSpec(x)
        case None => None
        case Some(factor) => MulDivSpec(stored, factor, ONE_ETHER)
  }

  lemma ProductMonotone(a: nat, b: nat, a': nat, b': nat)
    requires a <= a' && b <= b'
    ensures a * b <= a' * b'
  {
    MulMono(a, a', b);
    MulMono(b, b', a');
  }

  /** A quotient that fits keeps fitting, and does not grow, when the factors
      above it shrink. */
  lemma MulDivMonotone(a: nat, b: nat, a': nat, b': nat, d: nat)
    requires a <= a' && b <= b' && MulDivSpec(a', b', d).Some?
    ensures MulDivSpec(a, b, d).Some? && MulDivSpec(a, b, d).value <= MulDivSpec(a', b', d).value
  {
    ProductMonotone(a, b, a', b');
    DivMono(a * b, a' * b', d);
  }

  lemma ExpUdMonotone(x: U128, y: U128)
    requires x <= y && ExpUdSpec(y).Some?
    ensures ExpUdSpec(x).Some? && ExpUdSpec(x).value <= ExpUdSpec(y).value
  {
    MulDivMonotone(x, LOG2_E, y, LOG2_E, ONE_ETHER);
    var u, v := MulDivSpec(x, LOG2_E, ONE_ETHER).value, MulDivSpec(y, LOG2_E, ONE_ETHER).value;
    Exp2UdRange(u);
    Exp2UdRange(v);
    Exp2UdMonotone(u, v);
  }

  lemma ExpUdZero()
    ensures ExpUdSpec(0) == Some(ONE_ETHER)
  {
    Exp2UdRange(0);
    assert Pow2(0) == 1;
  }

  /** The replayed price is monotone in the anchor, the rate and the time since
      the anchor: if the larger reading is representable so is the smaller, and
      it is no higher. */
  lemma PriceMonotone(stored: U128, inc: U128, lastSync: U64, now: U64,
                      stored': U128, inc': U128, lastSync': U64, now': U64)
    requires stored <= stored' && inc <= inc'
    requires lastSync <= now && now - lastSync <= now' - lastSync'
    requires PriceSpec(stored', inc', lastSync', now').Some?
    ensures PriceSpec(stored, inc, lastSync, now).Some?
    ensures PriceSpec(stored, inc, lastSync, now).value <= PriceSpec(stored', inc', lastSync', now').value
  {
    ProductMonotone(inc, now - lastSync, inc', now' - lastSync');
    var x, x' := CheckedMul(inc, now - lastSync).value, CheckedMul(inc', now' - lastSync').value;
    ExpUdMonotone(x, x');
    var f, f' := ExpUdSpec(x).value, ExpUdSpec(x').value;
    MulDivMonotone(stored, f, stored', f', ONE_ETHER);
  }

  /** At the anchor the price is the stored price, and no later price is below
      it. */
  lemma PriceFromAnchor(stored: U128, inc: U128, lastSync: U64, now: U64)
    ensures PriceSpec(stored, inc, lastSync, lastSync) == Some(stored)
    ensures PriceSpec(stored, inc, lastSync, now).Some? ==> stored <= PriceSpec(stored, inc, lastSync, now).value
  {
    ExpUdZero();
    assert CheckedMul(inc, 0) == Some(0);
    DivModUnique(stored * ONE_ETHER, ONE_ETHER, stored, 0);
    if PriceSpec(stored, inc, lastSync, now).Some? {
      PriceMonotone(stored, inc, lastSync, lastSync, stored, inc, lastSync, now);
    }
  }

  /** The price, never below its anchor; none when time runs backwards or when rate
      times time is too large for the exponential. */
  method PricePerShare(stored: U128, inc: U128, lastSync: U64, now: U64) returns (r: Option<U128>)
    ensures r == PriceSpec(stored, inc, lastSync, now)
    ensures r.Some? ==> lastSync <= now && inc * (now - lastSync) * LOG2_E < B64 * ONE_ETHER
    ensures r.Some? ==> stored <= r.value
  {
    hide ExpUdSpec, MulDivSpec;
    PriceFromAnchor(stored, inc, lastSync, now);
    if now < lastSync {
      return None;
    }
    var x := CheckedMul(inc, now - lastSync);
    if x == None {
      return None;
    }
    var factor := ExpUd(x.value);
    if factor == None {
      return None;
    }
    r := MulDivFloor(stored, factor.value, ONE_ETHER);
  }

  /** totalAssets = pricePerShare * totalSupply / 1e18. */
  function TotalAssets(price: U128, supply: U128): Option<U128> {
    MulDivSpec(price, supply, ONE_ETHER)
  }

  /** convertToAssets(1e18): 1e18 shares themselves when nothing is minted. */
  function ConvertToAssets(assets: U128, supply: U128): Option<U128> {
    if supply == 0 then Some(ONE_ETHER) else MulDivSpec(ONE_ETHER, assets, supply)
  }

  /** Converting one share back from the total assets never overstates the price
      and understates it by less than 1e18 / supply + 1. */
  lemma ConversionLoss(price: U128, supply: U128)
    requires supply > 0 && TotalAssets(price, supply).Some?
    ensures ConvertToAssets(TotalAssets(price, supply).value, supply).Some?
    ensures var c := ConvertToAssets(TotalAssets(price, supply).value, supply).value;
            c <= price && (price - c) * supply < 1_000_000_000_000_000_000 + supply
    ensures ConvertToAssets(TotalAssets(price, supply).value, 0) == Some(1_000_000_000_000_000_000)
  {
    var n := price * supply;
    var a := n / ONE_ETHER;
    var c := ONE_ETHER * a / supply;
    DivBounds(n, ONE_ETHER);
    DivBounds(ONE_ETHER * a, supply);
    DivBelow(ONE_ETHER * a, supply, price + 1);
    assert (price + 1) * supply == n + supply;
    assert (price - c) * supply == n - c * supply;
  }
}
