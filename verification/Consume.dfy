/** How the consumer joins the rows of feeds.json by address. */
module Consume {
  import opened Prelude
  import opened Sorting
  import opened Text

  // ------------------------------------------------------------------
  // join_rows
  // ------------------------------------------------------------------

  /** A row of feeds.json: the three ranked fields and the rest. */
  datatype FeedRow = FeedRow(address: string, target: string, block: nat, rest: string)

  /** Does a outrank b: a greater block, then the midas target, then the smaller
      target name. */
  predicate Outranks(a: FeedRow, b: FeedRow) {
    || a.block > b.block
    || (a.block == b.block && a.target == "midas" && b.target != "midas")
    || (a.block == b.block && (a.target == "midas" <==> b.target == "midas") && !LexLeq(b.target, a.target))
  }

  lemma OutranksOrder(a: FeedRow, b: FeedRow, c: FeedRow)
    ensures !Outranks(a, a)
    ensures Outranks(a, b) ==> !Outranks(b, a)
    ensures Outranks(a, b) && Outranks(b, c) ==> Outranks(a, c)
    ensures !Outranks(b, a) && !Outranks(c, b) ==> !Outranks(c, a)
    ensures !Outranks(a, b) && !Outranks(b, a) ==> a.block == b.block && a.target == b.target
  {
    LexSelf(a.target);
    LexTotal(a.target, b.target);
    LexTotal(b.target, c.target);
    LexTotal(a.target, c.target);
    if LexLeq(a.target, b.target) && LexLeq(b.target, c.target) {
      LexTransitive(a.target, b.target, c.target);
    }
    if LexLeq(c.target, b.target) && LexLeq(b.target, a.target) {
      LexTransitive(c.target, b.target, a.target);
    }
    if LexLeq(c.target, a.target) && LexLeq(a.target, b.target) {
      LexTransitive(c.target, a.target, b.target);
    }
    if LexLeq(b.target, c.target) && LexLeq(c.target, a.target) {
      LexTransitive(b.target, c.target, a.target);
    }
  }

  predicate SameAddress(a: FeedRow, b: FeedRow) {
    Lower(a.address) == Lower(b.address)
  }

  /** The i-th row is the first of the greatest rank at its address. */
  predicate Winner(rows: seq<FeedRow>, i: nat)
    requires i < |rows|
  {
    && (forall j :: 0 <= j < |rows| && SameAddress(rows[j], rows[i]) ==> !Outranks(rows[j], rows[i]))
    && (forall j :: 0 <= j < i && SameAddress(rows[j], rows[i]) ==> Outranks(rows[i], rows[j]))
  }

  ghost predicate WonBy(rows: seq<FeedRow>, key: string, row: FeedRow) {
    exists i :: 0 <= i < |rows| && rows[i] == row && Lower(rows[i].address) == key && Winner(rows, i)
  }

  /** Every address has its winner, and nothing else is kept. */
  ghost predicate Joined(rows: seq<FeedRow>, best: map<string, FeedRow>) {
    && (forall i :: 0 <= i < |rows| ==> Lower(rows[i].address) in best)
    && (forall key :: key in best ==> WonBy(rows, key, best[key]))
  }

  /** The rows kept so far, with one more row. */
  function JoinOne(best: map<string, FeedRow>, row: FeedRow): map<string, FeedRow> {
    var key := Lower(row.address);
    if key !in best || Outranks(row, best[key]) then best[key := row] else best
  }

  function JoinSpec(rows: seq<FeedRow>): (best: map<string, FeedRow>)
    ensures Joined(rows, best)
  {
    if rows == [] then map[]
    else
      var init, last := rows[..|rows| - 1], rows[|rows| - 1];
      assert rows == init + [last];
      JoinStep(init, JoinSpec(init), last);
      JoinOne(JoinSpec(init), last)
  }

  /** No row before i has its address, its block and its target. */
  predicate FirstAlike(rows: seq<FeedRow>, i: nat)
    requires i < |rows|
  {
    forall j :: 0 <= j < i && Lower(rows[j].address) == Lower(rows[i].address)
      ==> rows[j].block != rows[i].block || rows[j].target != rows[i].target
  }

  /** The row kept of an address is one of its rows of the greatest block; of these one of
      the midas target, when there is one, or else one of the first target by name; and
      of the rows that share block and target the first. */
  ghost predicate KeepsBest(rows: seq<FeedRow>, key: string, kept: FeedRow) {
    && (exists i :: 0 <= i < |rows| && rows[i] == kept && Lower(kept.address) == key && FirstAlike(rows, i))
    && forall row :: row in rows && Lower(row.address) == key
         ==> && row.block <= kept.block
             && (row.block == kept.block && row.target == "midas" ==> kept.target == "midas")
             && (row.block == kept.block && kept.target != "midas" ==> LexLeq(kept.target, row.target))
  }

  lemma JoinedKeepsBest(rows: seq<FeedRow>, best: map<string, FeedRow>, key: string)
    requires Joined(rows, best) && key in best
    ensures KeepsBest(rows, key, best[key])
  {
    hide Lower, LexLeq;
    var kept := best[key];
    assert WonBy(rows, key, kept);
    var i :| 0 <= i < |rows| && rows[i] == kept && Lower(rows[i].address) == key && Winner(rows, i);
    forall j | 0 <= j < i && Lower(rows[j].address) == key
      ensures rows[j].block != kept.block || rows[j].target != kept.target
    {
      assert SameAddress(rows[j], rows[i]) && Outranks(rows[i], rows[j]);
      LexSelf(kept.target);
    }
    forall row | row in rows && Lower(row.address) == key
      ensures row.block <= kept.block
      ensures row.block == kept.block && row.target == "midas" ==> kept.target == "midas"
      ensures row.block == kept.block && kept.target != "midas" ==> LexLeq(kept.target, row.target)
    {
      var j :| 0 <= j < |rows| && rows[j] == row;
      assert SameAddress(rows[j], rows[i]) && !Outranks(rows[j], rows[i]);
      LexTotal(kept.target, row.target);
    }
  }

  method JoinRows(rows: seq<FeedRow>) returns (best: map<string, FeedRow>)
    ensures best == JoinSpec(rows)
    ensures forall key :: key in best <==> exists r :: r in rows && Lower(r.address) == key
    ensures forall key :: key in best ==> KeepsBest(rows, key, best[key])
  {
    hide Outranks, Lower, Joined, KeepsBest, JoinOne;
    best := map[];
    for n := 0 to |rows|
      invariant best == JoinSpec(rows[..n])
    {
      var row := rows[n];
      var key := Lower(row.address);
      JoinNext(rows, n);
      if key !in best || Outranks(row, best[key]) {
        best := best[key := row];
      }
    }
    assert rows[..|rows|] == rows;
    KeysOfJoin(rows, best);
    forall key | key in best
      ensures KeepsBest(rows, key, best[key])
    {
      JoinedKeepsBest(rows, best, key);
    }
  }

  lemma JoinNext(rows: seq<FeedRow>, n: nat)
    requires n < |rows|
    ensures var best, row := JoinSpec(rows[..n]), rows[n];
            JoinSpec(rows[..n + 1]) == if Lower(row.address) !in best || Outranks(row, best[Lower(row.address)])
                                       then best[Lower(row.address) := row] else best
  {
    hide Outranks, Lower, Joined;
    assert rows[..n + 1][..n] == rows[..n];
  }

  lemma JoinStep(rows: seq<FeedRow>, best: map<string, FeedRow>, row: FeedRow)
    requires Joined(rows, best)
    ensures Joined(rows + [row], JoinOne(best, row))
  {
    hide Outranks, Lower, Winner;
    var key := Lower(row.address);
    var best' := JoinOne(best, row);
    forall k | k in best'
      ensures WonBy(rows + [row], k, best'[k])
    {
      if k == key && (key !in best || Outranks(row, best[key])) {
        NewWinner(rows, best, row);
      } else {
        var i :| 0 <= i < |rows| && rows[i] == best[k] && Lower(rows[i].address) == k && Winner(rows, i);
        StillWinner(rows, i, row);
        assert (rows + [row])[i] == best'[k];
      }
    }
    forall i | 0 <= i < |rows + [row]|
      ensures Lower((rows + [row])[i].address) in best'
    {
      assert i < |rows| ==> (rows + [row])[i] == rows[i];
    }
  }

  lemma StillWinner(rows: seq<FeedRow>, i: nat, row: FeedRow)
    requires i < |rows| && Winner(rows, i)
    requires Lower(row.address) == Lower(rows[i].address) ==> !Outranks(row, rows[i])
    ensures Winner(rows + [row], i)
  {
    hide Outranks, Lower;
  }

  lemma NewWinner(rows: seq<FeedRow>, best: map<string, FeedRow>, row: FeedRow)
    requires Joined(rows, best)
    requires Lower(row.address) !in best || Outranks(row, best[Lower(row.address)])
    ensures Winner(rows + [row], |rows|)
    ensures WonBy(rows + [row], Lower(row.address), row)
  {
    hide Outranks, Lower;
    var key := Lower(row.address);
    OutranksOrder(row, row, row);
    forall j | 0 <= j < |rows| && SameAddress(rows[j], row)
      ensures Outranks(row, rows[j]) && !Outranks(rows[j], row)
    {
      var w := best[key];
      assert WonBy(rows, key, w);
      OutranksOrder(row, w, rows[j]);
      OutranksOrder(row, rows[j], w);
      OutranksOrder(w, rows[j], row);
      OutranksOrder(rows[j], w, row);
    }
    assert (rows + [row])[|rows|] == row;
  }

  /** No row at its address outranks it. */
  ghost predicate Top(rows: seq<FeedRow>, a: FeedRow) {
    a in rows && forall b :: b in rows && SameAddress(a, b) ==> !Outranks(b, a)
  }

  /** Each address has one row of greatest rank; ties below it do not matter. */
  ghost predicate TopsAgree(rows: seq<FeedRow>) {
    forall a, b :: Top(rows, a) && Top(rows, b) && SameAddress(a, b) ==> a == b
  }

  /** The result is the same for every order of the rows. */
  ghost predicate JoinsAlike(rows: seq<FeedRow>) {
    forall rows' :: multiset(rows') == multiset(rows) ==> JoinSpec(rows') == JoinSpec(rows)
  }

  lemma WinnerIsTop(rows: seq<FeedRow>, key: string, row: FeedRow)
    requires WonBy(rows, key, row)
    ensures Top(rows, row) && Lower(row.address) == key
  {
    hide Outranks, Lower;
  }

  lemma TopIgnoresOrder(rows: seq<FeedRow>, rows': seq<FeedRow>, a: FeedRow)
    requires Top(rows, a) && forall r :: r in rows <==> r in rows'
    ensures Top(rows', a)
  {
    hide Outranks, Lower;
  }

  /** Where each address has one top row, the result depends on nothing but which
      rows there are: neither on their order nor on repetition. */
  lemma JoinOrderFree(rows: seq<FeedRow>, rows': seq<FeedRow>)
    requires TopsAgree(rows) && forall r :: r in rows <==> r in rows'
    ensures JoinSpec(rows') == JoinSpec(rows)
  {
    hide Outranks, Lower, Top, WonBy, JoinSpec;
    var best, best' := JoinSpec(rows), JoinSpec(rows');
    KeysOfJoin(rows, best);
    KeysOfJoin(rows', best');
    forall key | key in best && key in best'
      ensures best'[key] == best[key]
    {
      WinnerIsTop(rows, key, best[key]);
      WinnerIsTop(rows', key, best'[key]);
      TopIgnoresOrder(rows', rows, best'[key]);
      assert SameAddress(best[key], best'[key]);
    }
    assert best.Keys == best'.Keys;
  }

  lemma KeysOfJoin(rows: seq<FeedRow>, best: map<string, FeedRow>)
    requires Joined(rows, best)
    ensures forall key :: key in best <==> exists r :: r in rows && Lower(r.address) == key
  {
    hide Outranks, Lower, Winner;
    forall key | key in best
      ensures exists r :: r in rows && Lower(r.address) == key
    {
      assert WonBy(rows, key, best[key]);
      assert best[key] in rows;
    }
  }

  /** A top row at the front stays, whatever ties with it. */
  lemma FrontWins(rows: seq<FeedRow>, best: map<string, FeedRow>)
    requires rows != [] && Top(rows, rows[0]) && Joined(rows, best)
    ensures Lower(rows[0].address) in best && best[Lower(rows[0].address)] == rows[0]
  {
    hide Outranks, Lower;
    var key := Lower(rows[0].address);
    assert WonBy(rows, key, best[key]);
    var i :| 0 <= i < |rows| && rows[i] == best[key] && Lower(rows[i].address) == key && Winner(rows, i);
    assert SameAddress(rows[0], rows[i]);
  }

  /** Where it has two, the order decides between them. */
  lemma TiedTops(rows: seq<FeedRow>, a: FeedRow, b: FeedRow)
    requires Top(rows, a) && Top(rows, b) && SameAddress(a, b) && JoinsAlike(rows)
    ensures a == b
  {
    hide Outranks, Lower, JoinSpec;
    var i :| 0 <= i < |rows| && rows[i] == a;
    var j :| 0 <= j < |rows| && rows[j] == b;
    FrontedTop(rows, i);
    FrontedTop(rows, j);
  }

  lemma FrontedTop(rows: seq<FeedRow>, i: nat)
    requires i < |rows| && Top(rows, rows[i]) && JoinsAlike(rows)
    ensures var key := Lower(rows[i].address);
            key in JoinSpec(rows) && JoinSpec(rows)[key] == rows[i]
  {
    hide Outranks, Lower, JoinSpec, Top;
    var front := Fronted(rows, i);
    FrontedRows(rows, i);
    SameRows(rows, front);
    TopIgnoresOrder(rows, front, rows[i]);
    FrontWins(front, JoinSpec(front));
  }

  /** The order of the rows does not matter exactly when each address has one row of
      greatest rank. */
  lemma JoinOrderFreeIff(rows: seq<FeedRow>)
    ensures JoinsAlike(rows) <==> TopsAgree(rows)
  {
    hide Outranks, Lower, Top, JoinSpec;
    if TopsAgree(rows) {
      forall rows' | multiset(rows') == multiset(rows)
        ensures JoinSpec(rows') == JoinSpec(rows)
      {
        SameRows(rows, rows');
        JoinOrderFree(rows, rows');
      }
    }
    if JoinsAlike(rows) {
      forall a, b | Top(rows, a) && Top(rows, b) && SameAddress(a, b)
        ensures a == b
      {
        TiedTops(rows, a, b);
      }
    }
  }
}
