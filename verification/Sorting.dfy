/** A stable sort by a total preorder, and when its result is unique. */
module Sorting {

  ghost predicate TotalPreorder<T(!new)>(leq: (T, T) -> bool) {
    && (forall x, y :: leq(x, y) || leq(y, x))
    && (forall x, y, z :: leq(x, y) && leq(y, z) ==> leq(x, z))
  }

  predicate Sorted<T>(s: seq<T>, leq: (T, T) -> bool) {
    forall i, j :: 0 <= i < j < |s| ==> leq(s[i], s[j])
  }

  /** x placed after the last element it does not precede. */
  function Insert<T>(s: seq<T>, x: T, leq: (T, T) -> bool): (t: seq<T>)
    ensures multiset(t) == multiset(s) + multiset{x}
  {
    if s == [] || leq(s[|s| - 1], x) then s + [x]
    else
      var n := |s| - 1;
      assert s == s[..n] + [s[n]];
      Insert(s[..n], x, leq) + [s[n]]
  }

  function Sort<T>(s: seq<T>, leq: (T, T) -> bool): (t: seq<T>)
    ensures multiset(t) == multiset(s) && |t| == |s|
  {
    if s == [] then []
    else
      assert s == s[..|s| - 1] + [s[|s| - 1]];
      var t := Insert(Sort(s[..|s| - 1], leq), s[|s| - 1], leq);
      assert |t| == |multiset(t)| && |s| == |multiset(s)|;
      t
  }

  lemma {:induction false} InsertSorted<T(!new)>(s: seq<T>, x: T, leq: (T, T) -> bool)
    requires TotalPreorder(leq) && Sorted(s, leq)
    ensures Sorted(Insert(s, x, leq), leq)
  {
    if s == [] || leq(s[|s| - 1], x) {
    } else {
      var n := |s| - 1;
      InsertSorted(s[..n], x, leq);
      forall y | y in Insert(s[..n], x, leq)
        ensures leq(y, s[n])
      {
        InsertAdds(s[..n], x, leq, y);
      }
    }
  }

  lemma InsertAdds<T>(s: seq<T>, x: T, leq: (T, T) -> bool, y: T)
    requires y in Insert(s, x, leq)
    ensures y in s || y == x
  {
    assert y in multiset(Insert(s, x, leq));
    assert y in multiset(s) + multiset{x};
  }

  lemma {:induction false} SortSorted<T(!new)>(s: seq<T>, leq: (T, T) -> bool)
    requires TotalPreorder(leq)
    ensures Sorted(Sort(s, leq), leq)
  {
    if s != [] {
      SortSorted(s[..|s| - 1], leq);
      InsertSorted(Sort(s[..|s| - 1], leq), s[|s| - 1], leq);
    }
  }

  /** No two elements of s tie. */
  ghost predicate Untied<T(!new)>(s: multiset<T>, leq: (T, T) -> bool) {
    forall x, y :: x in s && y in s && leq(x, y) && leq(y, x) ==> x == y
  }

  /** The last element of a sorted sequence bounds every element. */
  lemma LastBounds<T(!new)>(s: seq<T>, leq: (T, T) -> bool, x: T)
    requires TotalPreorder(leq) && Sorted(s, leq) && x in multiset(s)
    ensures s != [] && leq(x, s[|s| - 1])
  {
    var i :| 0 <= i < |s| && s[i] == x;
  }

  lemma SameLast<T(!new)>(s: seq<T>, t: seq<T>, leq: (T, T) -> bool)
    requires Sorted(s, leq) && Sorted(t, leq) && TotalPreorder(leq) && s != []
    requires multiset(s) == multiset(t) && Untied(multiset(s), leq)
    ensures |s| == |t| && s[|s| - 1] == t[|s| - 1]
  {
    assert |s| == |multiset(s)| == |multiset(t)| == |t|;
    var n := |s| - 1;
    assert s[n] in multiset(t) && t[n] in multiset(s);
    LastBounds(t, leq, s[n]);
    LastBounds(s, leq, t[n]);
  }

  lemma Prefixes<T>(s: seq<T>, t: seq<T>)
    requires multiset(s) == multiset(t) && s != [] && |s| == |t| && s[|s| - 1] == t[|s| - 1]
    ensures multiset(s[..|s| - 1]) == multiset(t[..|s| - 1]) <= multiset(s)
  {
    var n := |s| - 1;
    assert s == s[..n] + [s[n]] && t == t[..n] + [t[n]];
    assert multiset(s[..n]) == multiset(s) - multiset{s[n]};
    assert multiset(t[..n]) == multiset(t) - multiset{t[n]};
  }

  lemma SortedPrefix<T>(s: seq<T>, leq: (T, T) -> bool)
    requires Sorted(s, leq) && s != []
    ensures Sorted(s[..|s| - 1], leq)
  {}

  lemma UntiedPart<T(!new)>(m: multiset<T>, part: multiset<T>, leq: (T, T) -> bool)
    requires Untied(m, leq) && part <= m
    ensures Untied(part, leq)
  {}

  lemma {:induction false} SortedUnique<T(!new)>(s: seq<T>, t: seq<T>, leq: (T, T) -> bool)
    requires Sorted(s, leq) && Sorted(t, leq) && TotalPreorder(leq)
    requires multiset(s) == multiset(t) && Untied(multiset(s), leq)
    ensures s == t
  {
    hide Sorted, Untied, TotalPreorder;
    if s != [] {
      var n := |s| - 1;
      SameLast(s, t, leq);
      Prefixes(s, t);
      SortedPrefix(s, leq);
      SortedPrefix(t, leq);
      UntiedPart(multiset(s), multiset(s[..n]), leq);
      SortedUnique(s[..n], t[..n], leq);
      assert s == s[..n] + [s[n]] && t == t[..n] + [t[n]];
    } else {
      assert |t| == |multiset(t)| == |multiset(s)| == 0;
    }
  }

  /** Without ties the order of the input does not matter. */
  lemma SortOrderFree<T(!new)>(s: seq<T>, t: seq<T>, leq: (T, T) -> bool)
    requires TotalPreorder(leq) && multiset(s) == multiset(t) && Untied(multiset(s), leq)
    ensures Sort(s, leq) == Sort(t, leq)
  {
    SortSorted(s, leq);
    SortSorted(t, leq);
    SortedUnique(Sort(s, leq), Sort(t, leq), leq);
  }

  // ------------------------------------------------------------------
  // Stability
  // ------------------------------------------------------------------

  predicate Tie<T>(x: T, y: T, leq: (T, T) -> bool) {
    leq(x, y) && leq(y, x)
  }

  /** The elements of s that tie with x, in order. */
  function Ties<T>(s: seq<T>, x: T, leq: (T, T) -> bool): seq<T> {
    if s == [] then []
    else
      var init, last := Ties(s[..|s| - 1], x, leq), s[|s| - 1];
      if Tie(x, last, leq) then init + [last] else init
  }

  lemma {:induction false} TiesConcat<T>(s: seq<T>, t: seq<T>, x: T, leq: (T, T) -> bool)
    ensures Ties(s + t, x, leq) == Ties(s, x, leq) + Ties(t, x, leq)
  {
    if t == [] {
      assert s + t == s;
    } else {
      var n := |t| - 1;
      TiesConcat(s, t[..n], x, leq);
      assert (s + t)[..|s + t| - 1] == s + t[..n];
    }
  }

  lemma TiesOne<T>(y: T, x: T, leq: (T, T) -> bool)
    ensures Ties([y], x, leq) == if Tie(x, y, leq) then [y] else []
  {
    assert [y][..0] == [];
  }

  /** An element goes behind those it ties with. */
  lemma {:induction false} InsertStable<T(!new)>(s: seq<T>, y: T, x: T, leq: (T, T) -> bool)
    requires TotalPreorder(leq)
    ensures Ties(Insert(s, y, leq), x, leq) == Ties(s, x, leq) + Ties([y], x, leq)
  {
    hide Ties, Tie, TotalPreorder;
    if s == [] || leq(s[|s| - 1], y) {
      TiesConcat(s, [y], x, leq);
    } else {
      var n := |s| - 1;
      var last := s[n];
      InsertStable(s[..n], y, x, leq);
      TiesConcat(Insert(s[..n], y, leq), [last], x, leq);
      TiesConcat(s[..n], [last], x, leq);
      assert s == s[..n] + [last];
      NotBoth(last, y, x, leq);
    }
  }

  /** Two elements out of order do not both tie with a third. */
  lemma NotBoth<T(!new)>(a: T, b: T, x: T, leq: (T, T) -> bool)
    requires TotalPreorder(leq) && !leq(a, b)
    ensures Ties([a], x, leq) == [] || Ties([b], x, leq) == []
  {
    hide Ties;
    TiesOne(a, x, leq);
    TiesOne(b, x, leq);
  }

  /** Elements that tie keep their order. */
  lemma {:induction false} SortStable<T(!new)>(s: seq<T>, x: T, leq: (T, T) -> bool)
    requires TotalPreorder(leq)
    ensures Ties(Sort(s, leq), x, leq) == Ties(s, x, leq)
  {
    hide Ties, Tie, TotalPreorder;
    if s != [] {
      var n := |s| - 1;
      SortStable(s[..n], x, leq);
      InsertStable(Sort(s[..n], leq), s[n], x, leq);
      TiesConcat(s[..n], [s[n]], x, leq);
      assert s == s[..n] + [s[n]];
    }
  }

  /** The last of the ties of a sorted sequence's last element is that element. */
  lemma LastTie<T(!new)>(s: seq<T>, x: T, leq: (T, T) -> bool)
    requires s != [] && Tie(x, s[|s| - 1], leq)
    ensures Ties(s, x, leq) != [] && Ties(s, x, leq)[|Ties(s, x, leq)| - 1] == s[|s| - 1]
  {}

  /** A sorted sequence is its elements and the order of those that tie. */
  lemma {:induction false} SortedByTies<T(!new)>(s: seq<T>, t: seq<T>, leq: (T, T) -> bool)
    requires TotalPreorder(leq) && Sorted(s, leq) && Sorted(t, leq) && multiset(s) == multiset(t)
    requires forall x :: Ties(s, x, leq) == Ties(t, x, leq)
    ensures s == t
  {
    hide TotalPreorder, Sorted, Ties;
    assert |s| == |multiset(s)| == |multiset(t)| == |t|;
    if s != [] {
      var n := |s| - 1;
      LastsTie(s, t, leq);
      LastTie(s, s[n], leq);
      LastTie(t, s[n], leq);
      assert Ties(s, s[n], leq) == Ties(t, s[n], leq);
      Prefixes(s, t);
      SortedPrefix(s, leq);
      SortedPrefix(t, leq);
      forall x
        ensures Ties(s[..n], x, leq) == Ties(t[..n], x, leq)
      {
        PrefixTies(s, t, x, leq);
      }
      SortedByTies(s[..n], t[..n], leq);
      assert s == s[..n] + [s[n]] && t == t[..n] + [t[n]];
    }
  }

  lemma LastsTie<T(!new)>(s: seq<T>, t: seq<T>, leq: (T, T) -> bool)
    requires TotalPreorder(leq) && Sorted(s, leq) && Sorted(t, leq) && multiset(s) == multiset(t)
    requires s != [] && |t| == |s|
    ensures Tie(s[|s| - 1], t[|t| - 1], leq) && Tie(s[|s| - 1], s[|s| - 1], leq)
  {
    var n := |s| - 1;
    assert s[n] in multiset(t) && t[n] in multiset(s);
    LastBounds(t, leq, s[n]);
    LastBounds(s, leq, t[n]);
  }

  lemma PrefixTies<T>(s: seq<T>, t: seq<T>, x: T, leq: (T, T) -> bool)
    requires s != [] && |t| == |s| && s[|s| - 1] == t[|t| - 1] && Ties(s, x, leq) == Ties(t, x, leq)
    ensures Ties(s[..|s| - 1], x, leq) == Ties(t[..|t| - 1], x, leq)
  {
    var n := |s| - 1;
    var a, b := Ties(s[..n], x, leq), Ties(t[..n], x, leq);
    if Tie(x, s[n], leq) {
      assert a == (a + [s[n]])[..|a + [s[n]]| - 1];
      assert b == (b + [s[n]])[..|b + [s[n]]| - 1];
    }
  }

  /** So a stable sort depends on its elements and the order of those that tie only. */
  lemma SortByTies<T(!new)>(s: seq<T>, t: seq<T>, leq: (T, T) -> bool)
    requires TotalPreorder(leq) && multiset(s) == multiset(t)
    requires forall x :: Ties(s, x, leq) == Ties(t, x, leq)
    ensures Sort(s, leq) == Sort(t, leq)
  {
    hide TotalPreorder, Sorted, Ties, Sort;
    SortSorted(s, leq);
    SortSorted(t, leq);
    forall x
      ensures Ties(Sort(s, leq), x, leq) == Ties(Sort(t, leq), x, leq)
    {
      SortStable(s, x, leq);
      SortStable(t, x, leq);
    }
    SortedByTies(Sort(s, leq), Sort(t, leq), leq);
  }

  /** Without ties of different elements their order is free. */
  lemma TiesOrderFree<T(!new)>(s: seq<T>, t: seq<T>, x: T, leq: (T, T) -> bool)
    requires TotalPreorder(leq) && multiset(s) == multiset(t) && Untied(multiset(s), leq)
    ensures Ties(s, x, leq) == Ties(t, x, leq)
  {
    hide TotalPreorder, Ties, Sort, Untied;
    SortOrderFree(s, t, leq);
    SortStable(s, x, leq);
    SortStable(t, x, leq);
  }

  // ------------------------------------------------------------------
  // Orders of a list
  // ------------------------------------------------------------------

  lemma SameRows<T(!new)>(rows: seq<T>, rows': seq<T>)
    requires multiset(rows) == multiset(rows')
    ensures forall r :: r in rows <==> r in rows'
  {
    forall r
      ensures r in rows <==> r in rows'
    {
      assert r in rows <==> r in multiset(rows);
      assert r in rows' <==> r in multiset(rows');
    }
  }

  /** The rows but the one at i. */
  function Without<S>(rows: seq<S>, i: nat): seq<S>
    requires i < |rows|
  {
    rows[..i] + rows[i + 1..]
  }

  lemma WithoutRow<S>(rows: seq<S>, i: nat)
    requires i < |rows|
    ensures multiset(rows) == multiset{rows[i]} + multiset(Without(rows, i))
    ensures multiset(Without(rows, i)) == multiset(rows) - multiset{rows[i]}
  {
    assert rows == rows[..i] + ([rows[i]] + rows[i + 1..]);
  }

  /** One row moved to the front. */
  function Fronted<T>(rows: seq<T>, i: nat): seq<T>
    requires i < |rows|
  {
    [rows[i]] + Without(rows, i)
  }

  lemma FrontedRows<T>(rows: seq<T>, i: nat)
    requires i < |rows|
    ensures multiset(Fronted(rows, i)) == multiset(rows)
    ensures |Fronted(rows, i)| == |rows| && Fronted(rows, i)[0] == rows[i]
    ensures i > 0 ==> Fronted(rows, i)[1] == rows[0]
  {
    assert rows == rows[..i] + ([rows[i]] + rows[i + 1..]);
  }

  /** The rows with two of them at the front. */
  lemma TwoInFront<T(!new)>(rows: seq<T>, a: T, b: T) returns (rows': seq<T>)
    requires a in rows && b in rows && a != b
    ensures multiset(rows') == multiset(rows) && [a, b] <= rows'
  {
    hide Fronted;
    var i :| 0 <= i < |rows| && rows[i] == b;
    var f := Fronted(rows, i);
    FrontedRows(rows, i);
    assert a in f by {
      SameRows(rows, f);
    }
    var j :| 0 <= j < |f| && f[j] == a;
    FrontedRows(f, j);
    rows' := Fronted(f, j);
  }
}
