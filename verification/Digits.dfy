/** Big-endian positional notation in any base. */
module Digits {
  import opened Arith

  /** The number a big-endian digit sequence denotes. */
  function Be(b: nat, s: seq<nat>): nat {
    if s == [] then 0 else Be(b, s[..|s| - 1]) * b + s[|s| - 1]
  }

  /** Every digit is below the base. */
  predicate Digital(b: nat, s: seq<nat>) {
    forall i :: 0 <= i < |s| ==> s[i] < b
  }

  /** The minimal digits of n: none for zero, no leading zero otherwise. */
  function Minimal(b: nat, n: nat): (s: seq<nat>)
    requires b > 1
    ensures Digital(b, s)
    ensures s != [] ==> s[0] != 0
    decreases n
  {
    if n == 0 then []
    else
      LastDigit(n, b);
      Minimal(b, n / b) + [n % b]
  }

  lemma BeSnoc(b: nat, s: seq<nat>, d: nat)
    ensures Be(b, s + [d]) == Be(b, s) * b + d
  {
    assert (s + [d])[..|s|] == s;
  }

  lemma BeOne(b: nat, d: nat)
    ensures Be(b, [d]) == d
  {
    BeSnoc(b, [], d);
    assert [] + [d] == [d];
  }

  lemma {:induction false} BeConcat(b: nat, s: seq<nat>, t: seq<nat>)
    ensures Be(b, s + t) == Be(b, s) * Pow(b, |t|) + Be(b, t)
  {
    if t == [] {
      assert s + t == s;
    } else {
      var u, d := t[..|t| - 1], t[|t| - 1];
      BeConcat(b, s, u);
      assert s + t == (s + u) + [d];
      BeSnoc(b, s + u, d);
      ConcatAlgebra(Be(b, s), Pow(b, |u|), Be(b, u), b, d);
    }
  }

  lemma ConcatAlgebra(x: int, p: int, y: int, b: int, d: int)
    ensures (x * p + y) * b + d == x * (b * p) + (y * b + d)
  {
    assert (x * p + y) * b == x * p * b + y * b;
  }

  lemma {:induction false} BeBound(b: nat, s: seq<nat>)
    requires b > 0 && Digital(b, s)
    ensures Be(b, s) < Pow(b, |s|)
  {
    if s != [] {
      var u := s[..|s| - 1];
      BeBound(b, u);
      BoundStep(Be(b, u), Pow(b, |u|), b, s[|s| - 1]);
    }
  }

  lemma BoundStep(x: nat, p: nat, b: nat, d: nat)
    requires x < p && d < b
    ensures x * b + d < b * p
  {
    MulMono(x + 1, p, b);
  }

  lemma {:induction false} BeZeros(b: nat, s: seq<nat>)
    requires forall i :: 0 <= i < |s| ==> s[i] == 0
    ensures Be(b, s) == 0
  {
    if s != [] {
      BeZeros(b, s[..|s| - 1]);
    }
  }

  /** A nonzero leading digit makes the number as large as its length says. */
  lemma BeLeading(b: nat, s: seq<nat>)
    requires b > 0 && s != [] && s[0] != 0
    ensures Be(b, s) >= Pow(b, |s| - 1)
  {
    BeConcat(b, [s[0]], s[1..]);
    assert [s[0]] + s[1..] == s;
    BeOne(b, s[0]);
    MulMono(1, s[0], Pow(b, |s| - 1));
  }

  lemma {:induction false} MinimalValue(b: nat, n: nat)
    requires b > 1
    ensures Be(b, Minimal(b, n)) == n
    decreases n
  {
    if n != 0 {
      LastDigit(n, b);
      MinimalValue(b, n / b);
      BeSnoc(b, Minimal(b, n / b), n % b);
    }
  }

  /** A digit sequence without a leading zero is the minimal form of its value. */
  lemma {:induction false} MinimalUnique(b: nat, s: seq<nat>)
    requires b > 1 && Digital(b, s) && (s != [] ==> s[0] != 0)
    ensures Minimal(b, Be(b, s)) == s
  {
    if s != [] {
      var u, d := s[..|s| - 1], s[|s| - 1];
      MinimalUnique(b, u);
      BeLeading(b, s);
      PowPositive(b, |s| - 1);
      DivModUnique(Be(b, s), b, Be(b, u), d);
    }
  }

  /** Digit sequences of one length are told apart by their value. */
  lemma {:induction false} BeInjective(b: nat, s: seq<nat>, t: seq<nat>)
    requires b > 0 && Digital(b, s) && Digital(b, t) && |s| == |t| && Be(b, s) == Be(b, t)
    ensures s == t
  {
    if s != [] {
      var u, v := s[..|s| - 1], t[..|t| - 1];
      var x := Be(b, s);
      DivModUnique(x, b, Be(b, u), s[|s| - 1]);
      DivModUnique(x, b, Be(b, v), t[|t| - 1]);
      BeInjective(b, u, v);
      assert s == u + [s[|s| - 1]] && t == v + [t[|t| - 1]];
    }
  }

  /** n in exactly `width` digits, when it fits. */
  function Fixed(b: nat, n: nat, width: nat): (s: seq<nat>)
    requires b > 1
    ensures |s| == width && Digital(b, s)
  {
    LastDigit(n, b);
    if width == 0 then [] else Fixed(b, n / b, width - 1) + [n % b]
  }

  lemma {:induction false} FixedValue(b: nat, n: nat, width: nat)
    requires b > 1 && n < Pow(b, width)
    ensures Be(b, Fixed(b, n, width)) == n
  {
    if width > 0 {
      LastDigit(n, b);
      DivBelow(n, b, Pow(b, width - 1));
      FixedValue(b, n / b, width - 1);
      BeSnoc(b, Fixed(b, n / b, width - 1), n % b);
    }
  }
}
