/**
 Byte strings: every string of the model is ASCII, one char per byte, so byte
 offsets and character offsets agree.
 */
module Text {
  import opened Prelude
  import opened Digits

  function LowerChar(c: char): char {
    if 'A' <= c <= 'Z' then (c as int + 32) as char else c
  }

  /** ASCII lowercase. */
  function Lower(s: string): (t: string)
    ensures |t| == |s|
  {
    seq(|s|, i requires 0 <= i < |s| => LowerChar(s[i]))
  }

  lemma LowerConcat(s: string, t: string)
    ensures Lower(s + t) == Lower(s) + Lower(t)
  {}

  /** `s.get(a..b)`. */
  function Slice(s: string, a: nat, b: nat): Option<string> {
    if a <= b <= |s| then Some(s[a..b]) else None
  }

  /** `s.strip_prefix("0x").unwrap_or(s)`. */
  function Body(s: string): string {
    if "0x" <= s then s[2..] else s
  }

  function DecChar(d: nat): char
    requires d < 10
  {
    ('0' as int + d) as char
  }

  /** The ASCII digits of a decimal digit sequence. */
  function DecChars(ds: seq<nat>): (s: string)
    requires Digital(10, ds)
    ensures |s| == |ds|
  {
    seq(|ds|, i requires 0 <= i < |ds| => DecChar(ds[i]))
  }

  function Reverse(s: string): (t: string)
    ensures |t| == |s|
  {
    seq(|s|, i requires 0 <= i < |s| => s[|s| - 1 - i])
  }

  lemma ReverseSnoc(s: string, c: char)
    ensures Reverse(s + [c]) == [c] + Reverse(s)
  {}

  // ------------------------------------------------------------------
  // Parts
  // ------------------------------------------------------------------

  predicate PartAt(s: string, i: nat, part: string) {
    i + |part| <= |s| && s[i..i + |part|] == part
  }

  predicate Contains(s: string, part: string) {
    exists i: nat :: i <= |s| && PartAt(s, i, part)
  }

  predicate Lacks(s: string, c: char) {
    forall i :: 0 <= i < |s| ==> s[i] != c
  }

  lemma Behind(before: string, tail: string, from: nat, to: nat)
    requires from <= to <= |tail|
    ensures (before + tail)[|before| + from..|before| + to] == tail[from..to]
  {}

  lemma InFront(front: string, after: string, from: nat, to: nat)
    requires from <= to <= |front|
    ensures (front + after)[from..to] == front[from..to]
  {}

  /** Words one after the other. */
  function Joined(words: seq<string>): string {
    if words == [] then "" else words[0] + Joined(words[1..])
  }

  lemma {:induction false} JoinedAt(words: seq<string>, i: nat)
    requires forall k :: 0 <= k < |words| ==> |words[k]| == 64
    ensures |Joined(words)| == 64 * |words|
    ensures i < |words| ==> Joined(words)[64 * i..64 * i + 64] == words[i]
  {
    if words != [] {
      var rest := words[1..];
      JoinedAt(rest, if i > 0 then i - 1 else 0);
      if 0 < i < |words| {
        Behind(words[0], Joined(rest), 64 * (i - 1), 64 * (i - 1) + 64);
      }
    }
  }

  // ------------------------------------------------------------------
  // String order
  // ------------------------------------------------------------------

  /** Byte-wise lexicographic order. */
  predicate LexLeq(s: string, t: string) {
    s == "" || (t != "" && (s[0] < t[0] || (s[0] == t[0] && LexLeq(s[1..], t[1..]))))
  }

  lemma {:induction false} LexTotal(s: string, t: string)
    ensures LexLeq(s, t) || LexLeq(t, s)
    ensures LexLeq(s, t) && LexLeq(t, s) ==> s == t
  {
    if s != "" && t != "" {
      LexTotal(s[1..], t[1..]);
      assert s == [s[0]] + s[1..] && t == [t[0]] + t[1..];
    }
  }

  lemma {:induction false} LexTransitive(s: string, t: string, u: string)
    requires LexLeq(s, t) && LexLeq(t, u)
    ensures LexLeq(s, u)
  {
    if s != "" && s[0] == t[0] == u[0] {
      LexTransitive(s[1..], t[1..], u[1..]);
    }
  }

  lemma {:induction false} LexSelf(s: string)
    ensures LexLeq(s, s)
  {
    if s != "" {
      LexSelf(s[1..]);
    }
  }

  // ------------------------------------------------------------------
  // Decimal
  // ------------------------------------------------------------------

  /** The canonical decimal of n. */
  function Decimal(n: nat): string {
    if n == 0 then "0" else DecChars(Minimal(10, n))
  }

  predicate IsDecChar(c: char) {
    '0' <= c <= '9'
  }

  /** Nonempty, digits only, and no leading zero but for "0" itself. */
  predicate Canonical(s: string) {
    && s != ""
    && (forall i :: 0 <= i < |s| ==> IsDecChar(s[i]))
    && (s[0] == '0' ==> s == "0")
  }

  function DecVal(c: char): (d: nat)
    requires IsDecChar(c)
    ensures d < 10 && DecChar(d) == c
  {
    c as int - '0' as int
  }

  function DecDigits(s: string): (ds: seq<nat>)
    requires forall i :: 0 <= i < |s| ==> IsDecChar(s[i])
    ensures |ds| == |s| && Digital(10, ds)
  {
    seq(|s|, i requires 0 <= i < |s| => DecVal(s[i]))
  }

  /** The number a digit string denotes. */
  function DecValue(s: string): nat
    requires forall i :: 0 <= i < |s| ==> IsDecChar(s[i])
  {
    Be(10, DecDigits(s))
  }

  /** Decimal gives the canonical text of its argument. */
  lemma DecimalCanonical(n: nat)
    ensures Canonical(Decimal(n)) && DecValue(Decimal(n)) == n
  {
    if n == 0 {
      BeOne(10, 0);
      assert DecDigits("0") == [0];
    } else {
      MinimalValue(10, n);
      assert DecDigits(Decimal(n)) == Minimal(10, n);
    }
  }

  /** And it is the only canonical text of that number. */
  lemma DecimalUnique(s: string)
    requires Canonical(s)
    ensures Decimal(DecValue(s)) == s
  {
    var ds := DecDigits(s);
    if s == "0" {
      BeOne(10, 0);
      assert ds == [0];
    } else {
      MinimalUnique(10, ds);
      BeLeading(10, ds);
      Arith.PowPositive(10, |ds| - 1);
    }
  }

  lemma DecimalInjective(m: nat, n: nat)
    requires Decimal(m) == Decimal(n)
    ensures m == n
  {
    DecimalCanonical(m);
    DecimalCanonical(n);
  }

  // ------------------------------------------------------------------
  // Hex
  // ------------------------------------------------------------------

  function HexChar(d: nat): char
    requires d < 16
  {
    if d < 10 then ('0' as int + d) as char else ('a' as int + d - 10) as char
  }

  /** `to_digit(16)`. */
  function HexVal(c: char): (v: Option<nat>)
    ensures v.Some? ==> v.value < 16 && HexChar(v.value) == LowerChar(c)
    ensures v.Some? <==> exists d :: 0 <= d < 16 && HexChar(d) == LowerChar(c)
  {
    if '0' <= c <= '9' then Some(c as int - '0' as int)
    else if 'a' <= c <= 'f' then Some(c as int - 'a' as int + 10)
    else if 'A' <= c <= 'F' then
      assert HexChar(c as int - 'A' as int + 10) == LowerChar(c);
      Some(c as int - 'A' as int + 10)
    else None
  }

  lemma HexValChar(d: nat)
    requires d < 16
    ensures HexVal(HexChar(d)) == Some(d)
  {}

  // ------------------------------------------------------------------
  // Hex numbers
  // ------------------------------------------------------------------

  /** The digit values of a hex string, or None at the first other character. */
  function HexDigits(s: string): (ds: Option<seq<nat>>)
    ensures ds.Some? ==> |ds.value| == |s| && Digital(16, ds.value)
  {
    if s == "" then Some([])
    else
      var init :- HexDigits(s[..|s| - 1]);
      var last :- HexVal(s[|s| - 1]);
      Some(init + [last])
  }

  /** `usize::from_str_radix(s, 16)` on a 64-bit machine: an optional plus sign,
      at least one digit, and a value below 2^64. */
  function HexNat(s: string): Option<nat> {
    var digits := if "+" <= s then s[1..] else s;
    var ds :- HexDigits(digits);
    if ds == [] || Be(16, ds) >= 0x1_0000_0000_0000_0000 then None else Some(Be(16, ds))
  }

  /** A 256-bit word in 64 lowercase hex characters. */
  function Word(n: nat): (s: string)
    ensures |s| == 64
  {
    HexChars(Digits.Fixed(16, n, 64))
  }

  function HexChars(ds: seq<nat>): (s: string)
    requires Digital(16, ds)
    ensures |s| == |ds|
  {
    seq(|ds|, i requires 0 <= i < |ds| => HexChar(ds[i]))
  }

  lemma {:induction false} HexCharsDigits(ds: seq<nat>)
    requires Digital(16, ds)
    ensures HexDigits(HexChars(ds)) == Some(ds)
  {
    if ds != [] {
      var n := |ds| - 1;
      HexCharsDigits(ds[..n]);
      assert HexChars(ds)[..n] == HexChars(ds[..n]);
      HexValChar(ds[n]);
      assert ds == ds[..n] + [ds[n]];
    }
  }

  /** Reading a word back gives the number, when it is a machine number. */
  lemma HexNatWord(n: nat)
    requires n < 0x1_0000_0000_0000_0000
    ensures HexNat(Word(n)) == Some(n)
  {
    var ds := Digits.Fixed(16, n, 64);
    HexCharsDigits(ds);
    SixteenPowers();
    FixedValue(16, n, 64);
    assert Word(n)[0] != '+';
  }

  lemma SixteenPowers()
    ensures Arith.Pow(16, 64) > 0x1_0000_0000_0000_0000
  {
    assert Arith.Pow(16, 8) == 0x1_0000_0000;
    Arith.PowAdd(16, 8, 8);
    Arith.PowAdd(16, 16, 48);
    Arith.PowPositive(16, 47);
    assert Arith.Pow(16, 48) >= 16;
    Arith.MulMono(16, Arith.Pow(16, 48), Arith.Pow(16, 16));
  }
}
