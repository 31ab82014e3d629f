/**
 Decoding of a 256-bit return word to decimal text, by repeated long division
 over eight 32-bit limbs, and the hex codec.
 */
module Abi {
  import opened Arith
  import opened Prelude
  import opened Digits
  import opened Text
  import opened Wide

  type Byte = x: int | 0 <= x < 256
  const B32: nat := 0x1_0000_0000
  type U32 = x: int | 0 <= x < B32

  // ------------------------------------------------------------------
  // word_to_decimal
  // ------------------------------------------------------------------

  /** Four big-endian bytes as one limb. */
  function FromBeBytes(w: seq<Byte>): (v: U32)
    requires |w| == 4
    ensures v == Be(256, w)
  {
    BeBound(256, w);
    assert Pow(256, 4) == B32;
    Be(256, w)
  }

  /** Regrouping bytes four at a time keeps the value. */
  lemma {:induction false} Regroup(word: seq<Byte>, limbs: seq<U32>)
    requires |word| == 4 * |limbs|
    requires forall k :: 0 <= k < |limbs| ==> limbs[k] == Be(256, word[4 * k..4 * k + 4])
    ensures Be(B32, limbs) == Be(256, word)
  {
    if limbs != [] {
      var n := |limbs| - 1;
      var w, l := word[..4 * n], limbs[..n];
      forall k | 0 <= k < |l|
        ensures l[k] == Be(256, w[4 * k..4 * k + 4])
      {
        assert w[4 * k..4 * k + 4] == word[4 * k..4 * k + 4];
      }
      Regroup(w, l);
      assert word == w + word[4 * n..4 * n + 4];
      BeConcat(256, w, word[4 * n..4 * n + 4]);
      assert Pow(256, 4) == B32;
    }
  }

  /** One long division of the limbs by ten, in place. */
  method DivideByTen(limbs: array<U32>) returns (remainder: nat)
    modifies limbs
    ensures remainder < 10
    ensures Be(B32, old(limbs[..])) == 10 * Be(B32, limbs[..]) + remainder
  {
    hide BitOr, Pow2;
    remainder := 0;
    ghost var before: seq<U32> := limbs[..];
    for i := 0 to limbs.Length
      invariant remainder < 10
      invariant limbs[i..] == before[i..]
      invariant Be(B32, before[..i]) == 10 * Be(B32, limbs[..i]) + remainder
    {
      Pow2Values();
      OrDisjoint(limbs[i], remainder, 32);
      var current := BitOr(limbs[i], remainder * B32);
      ghost var done := limbs[..i];
      assert before[..i + 1] == before[..i] + [limbs[i]];
      BeSnoc(B32, before[..i], limbs[i]);
      limbs[i] := current / 10;
      remainder := current % 10;
      assert limbs[..i + 1] == done + [limbs[i]];
      BeSnoc(B32, done, limbs[i]);
      assert limbs[i + 1..] == before[i + 1..];
    }
    assert before[..limbs.Length] == before && limbs[..limbs.Length] == limbs[..];
  }

  predicate AllZero(s: seq<nat>) {
    forall i :: 0 <= i < |s| ==> s[i] == 0
  }

  lemma {:induction false} NonZero(s: seq<nat>)
    ensures AllZero(s) <==> Be(B32, s) == 0
  {
    if s != [] {
      NonZero(s[..|s| - 1]);
      MulMono(0, Be(B32, s[..|s| - 1]), B32);
    }
  }

  /** The digits of n, with the last one taken off. */
  lemma DigitsStep(n: nat, q: nat, d: nat)
    requires n == 10 * q + d && d < 10 && n > 0
    ensures DecChars(Minimal(10, n)) == DecChars(Minimal(10, q)) + [DecChar(d)]
  {
    DivModUnique(n, 10, q, d);
    assert Minimal(10, n) == Minimal(10, q) + [d];
  }

  /** The canonical decimal of a big-endian 256-bit word. */
  method WordToDecimal(word: seq<Byte>) returns (text: string)
    requires |word| == 32
    ensures text == Decimal(Be(256, word))
  {
    hide Be;
    var limbs := new U32[8](_ => 0);
    for i := 0 to 8
      invariant forall k :: 0 <= k < i ==> limbs[k] == Be(256, word[4 * k..4 * k + 4])
    {
      limbs[i] := FromBeBytes(word[4 * i..4 * i + 4]);
    }
    Regroup(word, limbs[..]);
    ghost var value := Be(256, word);
    var digits := "";
    NonZero(limbs[..]);
    while !AllZero(limbs[..])
      invariant AllZero(limbs[..]) <==> Be(B32, limbs[..]) == 0
      invariant DecChars(Minimal(10, value)) == DecChars(Minimal(10, Be(B32, limbs[..]))) + Reverse(digits)
      decreases Be(B32, limbs[..])
    {
      ghost var n := Be(B32, limbs[..]);
      var remainder := DivideByTen(limbs);
      DigitsStep(n, Be(B32, limbs[..]), remainder);
      ReverseSnoc(digits, DecChar(remainder));
      digits := digits + [DecChar(remainder)];
      NonZero(limbs[..]);
    }
    if digits == "" {
      return "0";
    }
    text := Reverse(digits);
  }

  // ------------------------------------------------------------------
  // word_to_signed_decimal
  // ------------------------------------------------------------------

  /** The two's complement value of a word. */
  function Signed(word: seq<Byte>): int {
    if Be(256, word) < Pow(256, |word|) / 2 then Be(256, word) else Be(256, word) - Pow(256, |word|)
  }

  /** The canonical text of an integer: a minus sign before the magnitude of a
      negative one, and never before zero. */
  function SignedText(z: int): string {
    if z < 0 then "-" + Decimal(-z) else Decimal(z)
  }

  lemma SignedTextInjective(y: int, z: int)
    requires SignedText(y) == SignedText(z)
    ensures y == z
  {
    DecimalCanonical(if y < 0 then -y else y);
    DecimalCanonical(if z < 0 then -z else z);
    if y < 0 && z < 0 {
      assert SignedText(y)[1..] == Decimal(-y) && SignedText(z)[1..] == Decimal(-z);
    }
  }

  lemma NeverMinusZero(z: int)
    ensures SignedText(z) != "-0"
  {
    DecimalCanonical(if z < 0 then -z else z);
    BeOne(10, 0);
    assert DecDigits("0") == [0];
    if z < 0 {
      assert SignedText(z)[1..] == Decimal(-z) && "-0"[1..] == "0";
    }
  }

  /** Complementing every byte reflects the value. */
  lemma {:induction false} Complement(s: seq<Byte>, t: seq<Byte>)
    requires |s| == |t| && forall k :: 0 <= k < |s| ==> t[k] == 255 - s[k]
    ensures Be(256, t) == Pow(256, |s|) - 1 - Be(256, s)
  {
    if s != [] {
      Complement(s[..|s| - 1], t[..|t| - 1]);
    }
  }

  /** Adds one to a big-endian number in place, carrying from the end. */
  method Increment(bytes: array<Byte>)
    requires Be(256, bytes[..]) + 1 < Pow(256, bytes.Length)
    modifies bytes
    ensures Be(256, bytes[..]) == old(Be(256, bytes[..])) + 1
  {
    ghost var before: seq<Byte> := bytes[..];
    for i := bytes.Length downto 0
      invariant bytes[..i] == before[..i]
      invariant forall k :: i <= k < bytes.Length ==> before[k] == 255 && bytes[k] == 0
    {
      ghost var tail: seq<Byte> := before[i..];
      var overflowed := bytes[i] == 255;
      bytes[i] := (bytes[i] as int + 1) % 256;
      if !overflowed {
        Carried(before, bytes[..], i);
        return;
      }
    }
    AllOnes(before);
  }

  lemma {:induction false} AllOnes(s: seq<Byte>)
    requires forall k :: 0 <= k < |s| ==> s[k] == 255
    ensures Be(256, s) == Pow(256, |s|) - 1
  {
    BeZeros(256, seq(|s|, _ => 0));
    Complement(seq(|s|, _ => 0), s);
  }

  /** A run of 0xff turned to zero under one byte raised by one. */
  lemma Carried(s: seq<Byte>, t: seq<Byte>, i: nat)
    requires i < |s| == |t| && s[..i] == t[..i] && t[i] as int == s[i] as int + 1
    requires forall k :: i < k < |s| ==> s[k] == 255 && t[k] == 0
    ensures Be(256, t) == Be(256, s) + 1
  {
    AllOnes(s[i + 1..]);
    BeZeros(256, t[i + 1..]);
    SplitAt(s, i);
    SplitAt(t, i);
    CarryAlgebra(Be(256, s[..i]) * 256 + s[i], Pow(256, |s[i + 1..]|));
  }

  lemma CarryAlgebra(h: int, n: int)
    ensures (h + 1) * n == h * n + n
  {}

  lemma SplitAt(s: seq<nat>, i: nat)
    requires i < |s|
    ensures Be(256, s) == (Be(256, s[..i]) * 256 + s[i]) * Pow(256, |s[i + 1..]|) + Be(256, s[i + 1..])
  {
    var u, v := s[..i] + [s[i]], s[i + 1..];
    assert s == u + v;
    BeConcat(256, u, v);
    BeSnoc(256, s[..i], s[i]);
  }

  /** The sign bit is the half the value lies in. */
  lemma SignBit(word: seq<Byte>)
    requires word != []
    ensures word[0] / 128 % 2 == 1 <==> Be(256, word) >= Pow(256, |word|) / 2
  {
    var p := Pow(256, |word| - 1);
    BeConcat(256, [word[0]], word[1..]);
    assert [word[0]] + word[1..] == word;
    BeOne(256, word[0]);
    BeBound(256, word[1..]);
    if word[0] >= 128 {
      MulMono(128, word[0], p);
    } else {
      MulMono(word[0] + 1, 128, p);
    }
  }

  lemma EvenPower(n: nat)
    requires n > 0
    ensures Pow(256, n) / 2 * 2 == Pow(256, n) > 1
  {
    PowPositive(256, n - 1);
  }

  /** The magnitude of a negative word, by complement and increment. */
  lemma NegatedMagnitude(word: seq<Byte>, negated: seq<Byte>)
    requires word != [] && word[0] / 128 % 2 == 1
    requires |negated| == |word| && forall k :: 0 <= k < |word| ==> negated[k] == 255 - word[k]
    ensures 0 < Be(256, negated) + 1 < Pow(256, |word|)
    ensures "-" + Decimal(Be(256, negated) + 1) == SignedText(Signed(word))
  {
    hide Be, Pow, Decimal;
    SignBit(word);
    Complement(word, negated);
    BeBound(256, word);
    EvenPower(|word|);
  }

  lemma NonNegativeWord(word: seq<Byte>)
    requires word != [] && word[0] / 128 % 2 == 0
    ensures Decimal(Be(256, word)) == SignedText(Signed(word))
  {
    SignBit(word);
  }

  /** The text of the two's complement value, the minimum included. */
  method WordToSignedDecimal(word: seq<Byte>) returns (text: string)
    requires |word| == 32
    ensures text == SignedText(Signed(word))
  {
    if word[0] / 128 % 2 == 0 {
      NonNegativeWord(word);
      text := WordToDecimal(word);
      return;
    }
    var negated := new Byte[|word|](_ => 0);
    for index := 0 to |word|
      invariant forall k :: 0 <= k < index ==> negated[k] == 255 - word[k]
    {
      negated[index] := 255 - word[index];
    }
    NegatedMagnitude(word, negated[..]);
    Increment(negated);
    var magnitude := WordToDecimal(negated[..]);
    text := "-" + magnitude;
  }

  // ------------------------------------------------------------------
  // hex_encode, hex_decode
  // ------------------------------------------------------------------

  /** Two lowercase hex characters per byte. */
  function HexText(bytes: seq<Byte>): (s: string)
    ensures |s| == 2 * |bytes|
  {
    if bytes == [] then ""
    else
      var b := bytes[|bytes| - 1];
      HexText(bytes[..|bytes| - 1]) + [HexChar(b / 16), HexChar(b % 16)]
  }

  method HexEncode(bytes: seq<Byte>) returns (out: string)
    ensures out == HexText(bytes)
  {
    out := "";
    for i := 0 to |bytes|
      invariant out == HexText(bytes[..i])
    {
      assert bytes[..i + 1][..i] == bytes[..i];
      out := out + [HexChar(bytes[i] / 16)];
      out := out + [HexChar(bytes[i] % 16)];
    }
    assert bytes[..|bytes|] == bytes;
  }

  predicate IsHex(s: string) {
    forall i :: 0 <= i < |s| ==> HexVal(s[i]).Some?
  }

  /** The bytes of an even run of hex digits. */
  function HexBytes(s: string): (bytes: seq<Byte>)
    requires IsHex(s) && |s| % 2 == 0
  {
    if s == "" then []
    else
      var n := |s|;
      HexBytes(s[..n - 2]) + [HexVal(s[n - 2]).value * 16 + HexVal(s[n - 1]).value]
  }

  /** The bytes, exactly when what follows an optional 0x is an even run of hex
      digits in either case. */
  method HexDecode(input: string) returns (r: Option<seq<Byte>>)
    ensures r == if IsHex(Body(input)) && |Body(input)| % 2 == 0 then Some(HexBytes(Body(input))) else None
  {
    var body := Body(input);
    if |body| % 2 != 0 {
      return None;
    }
    var out: seq<Byte> := [];
    var i := 0;
    while i < |body|
      invariant 0 <= i <= |body| && i % 2 == 0
      invariant IsHex(body[..i]) && out == HexBytes(body[..i])
    {
      var hi := HexVal(body[i]);
      var lo := HexVal(body[i + 1]);
      if hi == None || lo == None {
        return None;
      }
      assert body[..i + 2][..i] == body[..i];
      out := out + [hi.value * 16 + lo.value];
      i := i + 2;
    }
    assert body[..|body|] == body;
    r := Some(out);
  }

  lemma HexTextSnoc(bytes: seq<Byte>, b: Byte)
    ensures HexText(bytes + [b]) == HexText(bytes) + [HexChar(b / 16), HexChar(b % 16)]
  {
    assert (bytes + [b])[..|bytes|] == bytes;
  }

  lemma HexBytesSnoc(s: string, hi: char, lo: char)
    requires IsHex(s) && |s| % 2 == 0 && HexVal(hi).Some? && HexVal(lo).Some?
    ensures IsHex(s + [hi, lo]) && |s + [hi, lo]| % 2 == 0
    ensures HexBytes(s + [hi, lo]) == HexBytes(s) + [HexVal(hi).value * 16 + HexVal(lo).value]
  {
    assert (s + [hi, lo])[..|s|] == s;
  }

  /** Decoding inverts encoding. */
  lemma {:induction false} HexRoundTrip(bytes: seq<Byte>)
    ensures IsHex(HexText(bytes)) && HexBytes(HexText(bytes)) == bytes
  {
    hide HexVal, HexChar, HexText, HexBytes;
    if bytes == [] {
      HexEmpty();
    } else {
      var init, b := bytes[..|bytes| - 1], bytes[|bytes| - 1];
      HexRoundTrip(init);
      assert bytes == init + [b];
      HexTextSnoc(init, b);
      HexByte(b);
      HexBytesSnoc(HexText(init), HexChar(b / 16), HexChar(b % 16));
    }
  }

  lemma HexEmpty()
    ensures HexText([]) == "" && HexBytes("") == []
  {}

  lemma HexByte(b: Byte)
    ensures HexVal(HexChar(b / 16)) == Some(b / 16) && HexVal(HexChar(b % 16)) == Some(b % 16)
    ensures b / 16 * 16 + b % 16 == b
  {
    HexValChar(b / 16);
    HexValChar(b % 16);
  }

  /** An encoded text carries no 0x of its own, and loses one put before it. */
  lemma HexBody(bytes: seq<Byte>)
    ensures Body(HexText(bytes)) == Body("0x" + HexText(bytes)) == HexText(bytes)
  {
    HexRoundTrip(bytes);
    assert |bytes| > 0 ==> HexVal(HexText(bytes)[1]).Some?;
  }

  /** Encoding inverts decoding up to letter case. */
  lemma {:induction false} HexCanonical(s: string)
    requires IsHex(s) && |s| % 2 == 0
    ensures HexText(HexBytes(s)) == Lower(s)
  {
    if s != "" {
      var init, hi, lo := s[..|s| - 2], s[|s| - 2], s[|s| - 1];
      HexCanonical(init);
      assert s == init + [hi, lo];
      HexBytesSnoc(init, hi, lo);
      HexPair(HexBytes(init), hi, lo);
      LowerConcat(init, [hi, lo]);
    }
  }

  lemma HexPair(bytes: seq<Byte>, hi: char, lo: char)
    requires HexVal(hi).Some? && HexVal(lo).Some?
    ensures HexText(bytes + [HexVal(hi).value * 16 + HexVal(lo).value]) == HexText(bytes) + Lower([hi, lo])
  {
    var h, l := HexVal(hi).value, HexVal(lo).value;
    HexTextSnoc(bytes, h * 16 + l);
    DivModUnique(h * 16 + l, 16, h, l);
    assert Lower([hi, lo]) == [HexChar(h), HexChar(l)];
  }
}
