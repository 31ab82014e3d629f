/**
 When a window does not depend on the order in which the endpoint returned its
 lists.
 */
module WindowOrder {
  import opened Prelude
  import opened Sorting
  import opened Text
  import opened Window

  // ------------------------------------------------------------------
  // One list of rows
  // ------------------------------------------------------------------

  /** The rows of two lists give the same: no window, or the same lists. */
  ghost predicate SameLists<T(!new)>(items: seq<Item<T>>, items': seq<Item<T>>, leq: (T, T) -> bool) {
    && (AllDated(items) <==> AllDated(items'))
    && forall lists, lists' :: Windowed(items, leq, lists) && Windowed(items', leq, lists') ==> lists == lists'
  }

  /** The same for every order of the rows. */
  ghost predicate ListedAlike<S(!new), T(!new)>(rows: seq<S>, item: S -> Item<T>, leq: (T, T) -> bool) {
    forall rows' :: multiset(rows') == multiset(rows) ==> SameLists(ItemsOf(rows, item), ItemsOf(rows', item), leq)
  }

  predicate Clashing<T>(a: Item<T>, b: Item<T>, leq: (T, T) -> bool) {
    a.feed == b.feed && a.row.Some? && b.row.Some? && Tie(a.row.value, b.row.value, leq)
  }

  /** Rows of a feed that tie are equal in all that is copied of them. */
  ghost predicate RowsUntied<S(!new), T>(rows: seq<S>, item: S -> Item<T>, leq: (T, T) -> bool) {
    forall a, b :: a in rows && b in rows && Clashing(item(a), item(b), leq) ==> item(a).row == item(b).row
  }

  function GroupSpec<T>(items: seq<Item<T>>): (lists: map<string, seq<T>>)
    requires AllDated(items)
    ensures Grouped(items, lists)
  {
    if items == [] then
      GroupNone<T>();
      map[]
    else
      var init, last := items[..|items| - 1], items[|items| - 1];
      GroupStep(init, GroupSpec(init), last);
      assert items == init + [last];
      Added(GroupSpec(init), last.feed, last.row.value)
  }

  /** Rows that all have a block have their lists. */
  lemma ItemLists<T>(items: seq<Item<T>>, leq: (T, T) -> bool) returns (lists: map<string, seq<T>>)
    requires AllDated(items)
    ensures Windowed(items, leq, lists)
  {
    hide Grouped, Windowed;
    SortedLists(items, GroupSpec(items), leq);
    lists := SortLists(GroupSpec(items), leq);
  }

  lemma {:induction false} ListedConcat<T>(a: seq<Item<T>>, b: seq<Item<T>>, feed: string)
    ensures Listed(a + b, feed) == Listed(a, feed) + Listed(b, feed)
  {
    if b == [] {
      assert a + b == a;
    } else {
      var n := |b| - 1;
      ListedConcat(a, b[..n], feed);
      assert (a + b)[..|a + b| - 1] == a + b[..n];
    }
  }

  /** Rows of a feed that tie are listed in the order of the endpoint. */
  lemma TieKeepsOrder<T(!new)>(items: seq<Item<T>>, leq: (T, T) -> bool, lists: map<string, seq<T>>, feed: string,
                               x: T)
    requires TotalPreorder(leq) && Windowed(items, leq, lists) && feed in lists
    ensures Ties(lists[feed], x, leq) == Ties(Listed(items, feed), x, leq)
  {
    hide Listed, HasFeed, TotalPreorder, Ties;
    assert WindowedAt(items, leq, lists, feed);
    SortStable(Listed(items, feed), x, leq);
  }

  lemma {:induction false} ListedCount<T>(items: seq<Item<T>>, feed: string, x: T)
    ensures multiset(Listed(items, feed))[x] == multiset(items)[Item(feed, Some(x))]
  {
    if items != [] {
      var n := |items| - 1;
      ListedCount(items[..n], feed, x);
      assert items == items[..n] + [items[n]];
    }
  }

  /** In another order a feed has the same rows. */
  lemma ListedPermuted<T(!new)>(items: seq<Item<T>>, items': seq<Item<T>>, feed: string)
    requires multiset(items') == multiset(items)
    ensures multiset(Listed(items', feed)) == multiset(Listed(items, feed))
    ensures HasFeed(items', feed) <==> HasFeed(items, feed)
  {
    forall x
      ensures multiset(Listed(items', feed))[x] == multiset(Listed(items, feed))[x]
    {
      ListedCount(items, feed, x);
      ListedCount(items', feed, x);
    }
    SameRows(items, items');
    if i :| 0 <= i < |items| && items[i].feed == feed {
      assert items[i] in items';
    }
    if i :| 0 <= i < |items'| && items'[i].feed == feed {
      assert items'[i] in items;
    }
  }

  lemma ItemsWithout<S, T>(rows: seq<S>, i: nat, item: S -> Item<T>)
    requires i < |rows|
    ensures Without(ItemsOf(rows, item), i) == ItemsOf(Without(rows, i), item)
  {}

  lemma {:induction false} ItemsPermuted<S(!new), T>(rows: seq<S>, rows': seq<S>, item: S -> Item<T>)
    requires multiset(rows') == multiset(rows)
    ensures multiset(ItemsOf(rows', item)) == multiset(ItemsOf(rows, item))
    decreases |rows|
  {
    hide ItemsOf, Without;
    if rows == [] {
      assert |rows'| == |multiset(rows')| == 0;
    } else {
      SameRows(rows, rows');
      assert rows[0] in rows';
      var i :| 0 <= i < |rows'| && rows'[i] == rows[0];
      WithoutRow(rows, 0);
      WithoutRow(rows', i);
      WithoutLess(rows, 0);
      ItemsPermuted(Without(rows, 0), Without(rows', i), item);
      ItemsWithout(rows, 0, item);
      ItemsWithout(rows', i, item);
      WithoutRow(ItemsOf(rows, item), 0);
      WithoutRow(ItemsOf(rows', item), i);
      ItemAt(rows, 0, item);
      ItemAt(rows', i, item);
    }
  }

  lemma WithoutLess<S>(rows: seq<S>, i: nat)
    requires i < |rows|
    ensures |Without(rows, i)| == |rows| - 1
  {}

  lemma ItemAt<S, T>(rows: seq<S>, i: nat, item: S -> Item<T>)
    requires i < |rows|
    ensures ItemsOf(rows, item)[i] == item(rows[i])
  {}

  lemma DatedPermuted<T(!new)>(items: seq<Item<T>>, items': seq<Item<T>>)
    requires multiset(items') == multiset(items)
    ensures AllDated(items') <==> AllDated(items)
  {
    SameRows(items, items');
    if AllDated(items) {
      forall i | 0 <= i < |items'|
        ensures items'[i].row.Some?
      {
        assert items'[i] in items;
      }
    }
    if AllDated(items') {
      forall i | 0 <= i < |items|
        ensures items[i].row.Some?
      {
        assert items[i] in items';
      }
    }
  }

  lemma RowsDatedAlike<S(!new), T(!new)>(rows: seq<S>, rows': seq<S>, item: S -> Item<T>)
    requires multiset(rows') == multiset(rows)
    ensures AllDated(ItemsOf(rows', item)) <==> AllDated(ItemsOf(rows, item))
  {
    hide AllDated, ItemsOf;
    ItemsPermuted(rows, rows', item);
    DatedPermuted(ItemsOf(rows, item), ItemsOf(rows', item));
  }

  lemma UntiedListed<S(!new), T(!new)>(rows: seq<S>, item: S -> Item<T>, leq: (T, T) -> bool, feed: string)
    requires RowsUntied(rows, item, leq)
    ensures Untied(multiset(Listed(ItemsOf(rows, item), feed)), leq)
  {
    hide Listed;
    var items := ItemsOf(rows, item);
    var listed := Listed(items, feed);
    forall x, y | x in multiset(listed) && y in multiset(listed) && leq(x, y) && leq(y, x)
      ensures x == y
    {
      ListedExact(items, feed, x);
      ListedExact(items, feed, y);
      var i :| 0 <= i < |items| && items[i] == Item(feed, Some(x));
      var j :| 0 <= j < |items| && items[j] == Item(feed, Some(y));
      assert Clashing(item(rows[i]), item(rows[j]), leq) && rows[i] in rows && rows[j] in rows;
    }
  }

  /** Without ties of different rows every order gives the same lists. */
  lemma UntiedAlike<S(!new), T(!new)>(rows: seq<S>, rows': seq<S>, item: S -> Item<T>, leq: (T, T) -> bool)
    requires TotalPreorder(leq) && RowsUntied(rows, item, leq) && multiset(rows') == multiset(rows)
    ensures SameLists(ItemsOf(rows, item), ItemsOf(rows', item), leq)
  {
    hide TotalPreorder, RowsUntied, Listed, HasFeed, AllDated, Untied, Sort, ItemsOf;
    var items, items' := ItemsOf(rows, item), ItemsOf(rows', item);
    ItemsPermuted(rows, rows', item);
    DatedPermuted(items, items');
    forall lists, lists' | Windowed(items, leq, lists) && Windowed(items', leq, lists')
      ensures lists == lists'
    {
      forall feed
        ensures feed in lists <==> feed in lists'
        ensures feed in lists ==> lists[feed] == lists'[feed]
      {
        assert WindowedAt(items, leq, lists, feed) && WindowedAt(items', leq, lists', feed);
        ListedPermuted(items, items', feed);
        UntiedListed(rows, item, leq, feed);
        SortOrderFree(Listed(items, feed), Listed(items', feed), leq);
      }
    }
  }

  /** Two rows in front that tie are the first of their ties. */
  lemma FrontTies<T(!new)>(items: seq<Item<T>>, leq: (T, T) -> bool, lists: map<string, seq<T>>, x: T)
    requires TotalPreorder(leq) && Windowed(items, leq, lists)
    requires |items| >= 2 && items[0].feed == items[1].feed && items[0].row.Some? && items[1].row.Some?
    requires Tie(x, items[0].row.value, leq) && Tie(x, items[1].row.value, leq)
    ensures items[0].feed in lists
    ensures [items[0].row.value, items[1].row.value] <= Ties(lists[items[0].feed], x, leq)
  {
    hide TotalPreorder, Ties, Listed, AllDated, Tie, Sort;
    var feed, a, b := items[0].feed, items[0].row.value, items[1].row.value;
    assert WindowedAt(items, leq, lists, feed);
    TieKeepsOrder(items, leq, lists, feed, x);
    assert items == items[..2] + items[2..];
    ListedConcat(items[..2], items[2..], feed);
    PairListed(items[..2]);
    TiesConcat([a, b], Listed(items[2..], feed), x, leq);
    TiesConcat([a], [b], x, leq);
    assert [a, b] == [a] + [b];
    TiesOne(a, x, leq);
    TiesOne(b, x, leq);
  }

  lemma PairListed<T>(items: seq<Item<T>>)
    requires |items| == 2 && items[0].feed == items[1].feed && items[0].row.Some? && items[1].row.Some?
    ensures Listed(items, items[0].feed) == [items[0].row.value, items[1].row.value]
  {
    assert items[..1][..0] == [];
    assert Listed(items[..1], items[0].feed) == [items[0].row.value];
  }

  /** The lists of the rows in another order. */
  lemma AlikeItems<S(!new), T(!new)>(rows: seq<S>, rows': seq<S>, item: S -> Item<T>, leq: (T, T) -> bool,
                                     lists: map<string, seq<T>>)
    requires ListedAlike(rows, item, leq) && multiset(rows') == multiset(rows)
    requires Windowed(ItemsOf(rows, item), leq, lists)
    ensures Windowed(ItemsOf(rows', item), leq, lists)
  {
    hide AllDated, WindowedAt, ItemsOf;
    assert SameLists(ItemsOf(rows, item), ItemsOf(rows', item), leq);
    var lists' := ItemLists(ItemsOf(rows', item), leq);
  }

  /** Rows that tie are listed in either order, and so are equal. */
  lemma AlikeRowsUntied<S(!new), T(!new)>(rows: seq<S>, item: S -> Item<T>, leq: (T, T) -> bool, a: S, b: S)
    requires TotalPreorder(leq) && ListedAlike(rows, item, leq) && AllDated(ItemsOf(rows, item))
    requires a in rows && b in rows && Clashing(item(a), item(b), leq)
    ensures item(a).row == item(b).row
  {
    hide ListedAlike, Windowed, Ties, AllDated;
    if a != b {
      var rows1 := TwoInFront(rows, a, b);
      var rows2 := TwoInFront(rows, b, a);
      var lists := ItemLists(ItemsOf(rows, item), leq);
      AlikeItems(rows, rows1, item, leq, lists);
      AlikeItems(rows, rows2, item, leq, lists);
      var x, y := item(a).row.value, item(b).row.value;
      FrontTies(ItemsOf(rows1, item), leq, lists, x);
      FrontTies(ItemsOf(rows2, item), leq, lists, x);
      var ties := Ties(lists[item(a).feed], x, leq);
      assert ties[0] == [x, y][0] && ties[0] == [y, x][0];
    }
  }

  /** The order of a list does not matter exactly when some row has no block, or the
      rows of a feed that tie are equal. */
  lemma ListOrderFreeIff<S(!new), T(!new)>(rows: seq<S>, item: S -> Item<T>, leq: (T, T) -> bool)
    requires TotalPreorder(leq)
    ensures ListedAlike(rows, item, leq) <==> !AllDated(ItemsOf(rows, item)) || RowsUntied(rows, item, leq)
  {
    hide TotalPreorder, AllDated, Windowed, ItemsOf, Clashing;
    if !AllDated(ItemsOf(rows, item)) {
      forall rows' | multiset(rows') == multiset(rows)
        ensures SameLists(ItemsOf(rows, item), ItemsOf(rows', item), leq)
      {
        RowsDatedAlike(rows, rows', item);
        NoLists(ItemsOf(rows, item), leq);
      }
    } else if RowsUntied(rows, item, leq) {
      forall rows' | multiset(rows') == multiset(rows)
        ensures SameLists(ItemsOf(rows, item), ItemsOf(rows', item), leq)
      {
        UntiedAlike(rows, rows', item, leq);
      }
    } else if ListedAlike(rows, item, leq) {
      forall a, b | a in rows && b in rows && Clashing(item(a), item(b), leq)
        ensures item(a).row == item(b).row
      {
        AlikeRowsUntied(rows, item, leq, a, b);
      }
    }
  }

  lemma NoLists<T>(items: seq<Item<T>>, leq: (T, T) -> bool)
    requires !AllDated(items)
    ensures forall lists :: !Windowed(items, leq, lists)
  {}

  // ------------------------------------------------------------------
  // The unchecked rounds
  // ------------------------------------------------------------------

  /** Every kept row has a block, so that there is a window. */
  ghost predicate Opens(kept: seq<RawRound>) {
    AllDated(RoundItems(kept))
  }

  /** Two lists of kept rows give the same outcome: no window, or the same one. */
  ghost predicate SameOutcome(kept: seq<RawRound>, kept': seq<RawRound>) {
    && (Opens(kept) <==> Opens(kept'))
    && forall lists, lists' :: ListsOf(kept, lists) && ListsOf(kept', lists') ==> lists == lists'
  }

  /** The outcome is the same for every order in which the endpoint may return the
      over-bound rows, and the unchecked ones. */
  ghost predicate ReadsAlike(head: seq<RawRound>, tail: seq<RawRound>) {
    forall head', tail' :: multiset(head') == multiset(head) && multiset(tail') == multiset(tail)
                             ==> SameOutcome(Firsts(head + tail), Firsts(head' + tail'))
  }

  /** The rows whose key the first list does not have (`unseen`), or has. */
  function Rest(head: seq<RawRound>, tail: seq<RawRound>, unseen: bool): (rest: seq<RawRound>)
    ensures forall r :: r in rest <==> r in tail && HasKey(head, KeyOf(r)) != unseen
  {
    if tail == [] then []
    else
      var init, last := Rest(head, tail[..|tail| - 1], unseen), tail[|tail| - 1];
      assert tail == tail[..|tail| - 1] + [last];
      if HasKey(head, KeyOf(last)) != unseen then init + [last] else init
  }

  function Unseen(head: seq<RawRound>, tail: seq<RawRound>): seq<RawRound> {
    Rest(head, tail, true)
  }

  /** Rows with one key agree on feed and round. */
  ghost predicate KeysAgree(rows: seq<RawRound>) {
    forall a, b :: a in rows && b in rows && KeyOf(a) == KeyOf(b) ==> RoundItem(a) == RoundItem(b)
  }

  /** Two different rounds of a feed differ in block or round id. */
  ghost predicate RoundsUntied(rows: seq<RawRound>) {
    RowsUntied(rows, RoundItem, RoundLeq)
  }

  predicate Clash(a: RawRound, b: RawRound) {
    Clashing(RoundItem(a), RoundItem(b), RoundLeq)
  }

  /** Every row has a block. */
  predicate RowsDated(rows: seq<RawRound>) {
    forall i :: 0 <= i < |rows| ==> RoundOf(rows[i]).Some?
  }

  ghost predicate Settled(rows: seq<RawRound>) {
    RowsDated(rows) && KeysAgree(rows) && RoundsUntied(rows)
  }

  /** No row with this one's key has a block. */
  ghost predicate NeverDated(rows: seq<RawRound>, r: RawRound) {
    r in rows && forall b :: b in rows && KeyOf(b) == KeyOf(r) ==> RoundOf(b) == None
  }

  ghost predicate Hopeless(rows: seq<RawRound>) {
    exists r :: NeverDated(rows, r)
  }

  lemma OpensIff(kept: seq<RawRound>)
    ensures Opens(kept) <==> forall k :: k in kept ==> RoundOf(k).Some?
  {
    hide RoundOf, FeedOf;
    if Opens(kept) {
      forall k | k in kept
        ensures RoundOf(k).Some?
      {
        var i :| 0 <= i < |kept| && kept[i] == k;
        assert RoundItems(kept)[i] == RoundItem(k);
      }
    }
    if forall k :: k in kept ==> RoundOf(k).Some? {
      assert forall i :: 0 <= i < |kept| ==> kept[i] in kept && RoundItems(kept)[i] == RoundItem(kept[i]);
    }
  }

  lemma ListsOpen(kept: seq<RawRound>, lists: map<string, seq<Round>>)
    requires ListsOf(kept, lists)
    ensures Opens(kept)
  {}

  /** Kept rows that open have their lists. */
  lemma SomeLists(kept: seq<RawRound>) returns (lists: map<string, seq<Round>>)
    requires Opens(kept)
    ensures ListsOf(kept, lists)
  {
    lists := ItemLists(RoundItems(kept), RoundLeq);
  }

  // ------------------------------------------------------------------
  // The two lists apart
  // ------------------------------------------------------------------

  lemma HasKeyConcat(a: seq<RawRound>, b: seq<RawRound>, key: (string, string))
    ensures HasKey(a + b, key) <==> HasKey(a, key) || HasKey(b, key)
  {
    hide KeyOf;
    if i :| 0 <= i < |a + b| && KeyOf((a + b)[i]) == key {
      assert if i < |a| then a[i] == (a + b)[i] else b[i - |a|] == (a + b)[i];
    }
    if i :| 0 <= i < |a| && KeyOf(a[i]) == key {
      assert (a + b)[i] == a[i];
    }
    if i :| 0 <= i < |b| && KeyOf(b[i]) == key {
      assert (a + b)[|a| + i] == b[i];
    }
  }

  lemma FirstsSnoc(rows: seq<RawRound>, last: RawRound)
    ensures Firsts(rows + [last]) == if HasKey(rows, KeyOf(last)) then Firsts(rows) else Firsts(rows) + [last]
  {
    hide HasKey, KeyOf;
    assert (rows + [last])[..|rows|] == rows;
    KeysKept(rows, KeyOf(last));
  }

  lemma UnseenSnoc(head: seq<RawRound>, tail: seq<RawRound>, last: RawRound)
    ensures Unseen(head, tail + [last])
         == if HasKey(head, KeyOf(last)) then Unseen(head, tail) else Unseen(head, tail) + [last]
  {
    hide HasKey, KeyOf;
    assert (tail + [last])[..|tail|] == tail;
  }

  /** Dropping the keys of the first list does not hide any other key. */
  lemma UnseenKeys(head: seq<RawRound>, tail: seq<RawRound>, key: (string, string))
    ensures HasKey(head + tail, key) <==> HasKey(head, key) || HasKey(Unseen(head, tail), key)
  {
    hide KeyOf, Rest;
    HasKeyConcat(head, tail, key);
    if i :| 0 <= i < |tail| && KeyOf(tail[i]) == key && !HasKey(head, key) {
      assert tail[i] in tail;
      var j :| 0 <= j < |Unseen(head, tail)| && Unseen(head, tail)[j] == tail[i];
    }
    if i :| 0 <= i < |Unseen(head, tail)| && KeyOf(Unseen(head, tail)[i]) == key {
      assert Unseen(head, tail)[i] in Unseen(head, tail);
      var j :| 0 <= j < |tail| && tail[j] == Unseen(head, tail)[i];
    }
  }

  /** The merged rows keep what each list keeps, the second one without the keys of
      the first. */
  lemma {:induction false} FirstsSplit(head: seq<RawRound>, tail: seq<RawRound>)
    ensures Firsts(head + tail) == Firsts(head) + Firsts(Unseen(head, tail))
  {
    hide KeyOf, HasKey, Firsts, Unseen, Rest;
    if tail == [] {
      NothingUnseen(head);
      assert head + tail == head;
    } else {
      var n := |tail| - 1;
      var init, last := tail[..n], tail[n];
      FirstsSplit(head, init);
      assert tail == init + [last] && head + tail == head + init + [last];
      UnseenSnoc(head, init, last);
      UnseenKeys(head, init, KeyOf(last));
      FirstsSnoc(head + init, last);
      FirstsSnoc(Unseen(head, init), last);
    }
  }

  lemma NothingUnseen(head: seq<RawRound>)
    ensures Firsts(Unseen(head, [])) == []
  {}

  /** What remains of a list, counted. */
  lemma {:induction false} RestCount(head: seq<RawRound>, tail: seq<RawRound>, unseen: bool, r: RawRound)
    ensures multiset(Rest(head, tail, unseen))[r] == if HasKey(head, KeyOf(r)) != unseen then multiset(tail)[r] else 0
  {
    hide KeyOf, HasKey;
    if tail != [] {
      var n := |tail| - 1;
      RestCount(head, tail[..n], unseen, r);
      assert tail == tail[..n] + [tail[n]];
    }
  }

  lemma UnseenPermuted(head: seq<RawRound>, tail: seq<RawRound>, head': seq<RawRound>, tail': seq<RawRound>)
    requires multiset(head') == multiset(head) && multiset(tail') == multiset(tail)
    ensures multiset(Unseen(head', tail')) == multiset(Unseen(head, tail))
  {
    hide KeyOf, Rest;
    SameRows(head, head');
    forall r
      ensures multiset(Unseen(head', tail'))[r] == multiset(Unseen(head, tail))[r]
    {
      RestCount(head, tail, true, r);
      RestCount(head', tail', true, r);
      SameKeys(head, head', KeyOf(r));
    }
  }

  lemma SameKeys(rows: seq<RawRound>, rows': seq<RawRound>, key: (string, string))
    requires forall r :: r in rows <==> r in rows'
    ensures HasKey(rows, key) <==> HasKey(rows', key)
  {
    hide KeyOf;
    if i :| 0 <= i < |rows| && KeyOf(rows[i]) == key {
      var r := rows[i];
      assert r in rows;
      var j :| 0 <= j < |rows'| && rows'[j] == r;
    }
    if i :| 0 <= i < |rows'| && KeyOf(rows'[i]) == key {
      var r := rows'[i];
      assert r in rows';
      var j :| 0 <= j < |rows| && rows[j] == r;
    }
  }

  lemma {:induction false} UnseenSame(head: seq<RawRound>, head': seq<RawRound>, tail: seq<RawRound>)
    requires forall r :: r in head <==> r in head'
    ensures Unseen(head', tail) == Unseen(head, tail)
  {
    hide KeyOf, HasKey;
    if tail != [] {
      UnseenSame(head, head', tail[..|tail| - 1]);
      SameKeys(head, head', KeyOf(tail[|tail| - 1]));
    }
  }

  lemma {:induction false} RestAll(head: seq<RawRound>, tail: seq<RawRound>, unseen: bool)
    requires forall r :: r in tail ==> HasKey(head, KeyOf(r)) != unseen
    ensures Rest(head, tail, unseen) == tail && Rest(head, tail, !unseen) == []
  {
    hide KeyOf, HasKey;
    if tail != [] {
      var n := |tail| - 1;
      RestAll(head, tail[..n], unseen);
      assert tail == tail[..n] + [tail[n]] && tail[n] in tail;
    }
  }

  lemma RestNothing(head: seq<RawRound>, unseen: bool)
    ensures Rest(head, [], unseen) == []
  {}

  lemma RestSnoc(head: seq<RawRound>, tail: seq<RawRound>, last: RawRound, unseen: bool)
    ensures Rest(head, tail + [last], unseen)
         == Rest(head, tail, unseen) + if HasKey(head, KeyOf(last)) != unseen then [last] else []
  {
    hide HasKey, KeyOf;
    assert (tail + [last])[..|tail|] == tail;
  }

  lemma {:induction false} RestConcat(head: seq<RawRound>, a: seq<RawRound>, b: seq<RawRound>, unseen: bool)
    ensures Rest(head, a + b, unseen) == Rest(head, a, unseen) + Rest(head, b, unseen)
  {
    hide Rest, HasKey, KeyOf;
    if b == [] {
      RestNothing(head, unseen);
      assert a + b == a;
    } else {
      var n := |b| - 1;
      RestConcat(head, a, b[..n], unseen);
      RestSnoc(head, b[..n], b[n], unseen);
      RestSnoc(head, a + b[..n], b[n], unseen);
      assert b == b[..n] + [b[n]] && a + b == a + b[..n] + [b[n]];
      var last := if HasKey(head, KeyOf(b[n])) != unseen then [b[n]] else [];
      Regroup(Rest(head, a, unseen), Rest(head, b[..n], unseen), last);
    }
  }

  lemma Regroup(a: seq<RawRound>, b: seq<RawRound>, c: seq<RawRound>)
    ensures a + b + c == a + (b + c)
  {}

  /** Any order of the remaining rows comes from some order of the list. */
  lemma UnseenOrders(head: seq<RawRound>, tail: seq<RawRound>, unseen: seq<RawRound>) returns (tail': seq<RawRound>)
    requires multiset(unseen) == multiset(Unseen(head, tail))
    ensures multiset(tail') == multiset(tail) && Unseen(head, tail') == unseen
  {
    hide KeyOf, HasKey;
    var stale := Rest(head, tail, false);
    tail' := unseen + stale;
    SameRows(unseen, Unseen(head, tail));
    RestConcat(head, unseen, stale, true);
    RestAll(head, unseen, true);
    RestAll(head, stale, false);
    forall r
      ensures multiset(tail')[r] == multiset(tail)[r]
    {
      RestCount(head, tail, true, r);
      RestCount(head, tail, false, r);
    }
  }

  // ------------------------------------------------------------------
  // The order is free under the condition
  // ------------------------------------------------------------------

  predicate NoRepeat<T(==)>(s: seq<T>) {
    forall i, j :: 0 <= i < j < |s| ==> s[i] != s[j]
  }

  lemma {:induction false} OnceEach<T>(s: seq<T>, x: T)
    requires NoRepeat(s)
    ensures multiset(s)[x] == if x in s then 1 else 0
  {
    if s != [] {
      var init, last := s[..|s| - 1], s[|s| - 1];
      OnceEach(init, x);
      assert s == init + [last];
      assert last !in init;
    }
  }

  lemma SameElements<T(!new)>(s: seq<T>, t: seq<T>)
    requires NoRepeat(s) && NoRepeat(t) && forall x :: x in s <==> x in t
    ensures multiset(s) == multiset(t)
  {
    forall x
      ensures multiset(s)[x] == multiset(t)[x]
    {
      OnceEach(s, x);
      OnceEach(t, x);
    }
  }

  /** Rows with distinct keys become distinct rounds. */
  lemma {:induction false} ListedOnce(kept: seq<RawRound>, feed: string)
    requires KeysDistinct(kept)
    ensures NoRepeat(Listed(RoundItems(kept), feed))
  {
    hide KeyOf, RoundOf, FeedOf;
    if kept != [] {
      var n := |kept| - 1;
      var init, last := kept[..n], kept[n];
      ListedOnce(init, feed);
      assert RoundItems(kept)[..n] == RoundItems(init);
      if FeedOf(last) == feed && RoundOf(last).Some? {
        NewRound(kept, feed);
      }
    }
  }

  lemma NewRound(kept: seq<RawRound>, feed: string)
    requires KeysDistinct(kept) && kept != [] && RoundOf(kept[|kept| - 1]).Some?
    ensures RoundOf(kept[|kept| - 1]).value !in Listed(RoundItems(kept[..|kept| - 1]), feed)
  {
    hide KeyOf, RoundOf, FeedOf, RoundItems, Listed;
    var init, last := kept[..|kept| - 1], kept[|kept| - 1];
    var x := RoundOf(last).value;
    ListedExact(RoundItems(init), feed, x);
    ItemIn(init, feed, x);
    RoundKeeps(last);
    forall r | r in init
      ensures RoundOf(r) != Some(x)
    {
      var i :| 0 <= i < |init| && init[i] == r;
      assert kept[i] == r;
      RoundKeeps(r);
    }
  }

  /** When rows with one key agree, a feed lists the rounds of all its rows. */
  lemma ListedAll(rows: seq<RawRound>, feed: string, x: Round)
    requires KeysAgree(rows)
    ensures x in Listed(RoundItems(Firsts(rows)), feed)
        <==> exists r :: r in rows && RoundItem(r) == Item(feed, Some(x))
  {
    hide KeyOf, RoundOf, FeedOf, RoundItems, Listed, Firsts;
    ListedExact(RoundItems(Firsts(rows)), feed, x);
    ItemIn(Firsts(rows), feed, x);
    if r :| r in rows && RoundItem(r) == Item(feed, Some(x)) {
      var k := KeptOf(rows, r);
      assert RoundItem(k) == RoundItem(r);
    }
    if r :| r in Firsts(rows) && FeedOf(r) == feed && RoundOf(r) == Some(x) {
      assert RoundItem(r) == Item(feed, Some(x));
    }
  }

  lemma {:induction false} FeedHasRows<T>(items: seq<Item<T>>, feed: string)
    requires AllDated(items)
    ensures HasFeed(items, feed) <==> Listed(items, feed) != []
  {
    if items != [] {
      var init := items[..|items| - 1];
      FeedHasRows(init, feed);
      FeedStep(init, items[|items| - 1], feed);
      assert items == init + [items[|items| - 1]];
    }
  }

  /** The rounds that the kept rows of a feed become. */
  function Rounds(kept: seq<RawRound>, feed: string): seq<Round> {
    Listed(RoundItems(kept), feed)
  }

  lemma ListedSame(rows: seq<RawRound>, rows': seq<RawRound>, feed: string)
    requires KeysAgree(rows) && KeysAgree(rows') && forall r :: r in rows <==> r in rows'
    ensures multiset(Rounds(Firsts(rows), feed)) == multiset(Rounds(Firsts(rows'), feed))
  {
    hide KeyOf, RoundOf, FeedOf, RoundItems, Listed, Firsts, KeysAgree, NoRepeat;
    FirstsOnce(rows);
    FirstsOnce(rows');
    ListedOnce(Firsts(rows), feed);
    ListedOnce(Firsts(rows'), feed);
    forall x
      ensures x in Rounds(Firsts(rows), feed) <==> x in Rounds(Firsts(rows'), feed)
    {
      ListedAll(rows, feed, x);
      ListedAll(rows', feed, x);
    }
    SameElements(Rounds(Firsts(rows), feed), Rounds(Firsts(rows'), feed));
  }

  lemma ListedUntied(rows: seq<RawRound>, feed: string)
    requires RoundsUntied(rows)
    ensures Untied(multiset(Rounds(Firsts(rows), feed)), RoundLeq)
  {
    hide RoundItem, Listed, Firsts, RoundLeq, Clashing, Untied;
    UntiedListed(Firsts(rows), RoundItem, RoundLeq, feed);
  }

  /** A feed's rounds of one list, up to order, and its ties. */
  lemma PartSame(rows: seq<RawRound>, rows': seq<RawRound>, feed: string, x: Round)
    requires KeysAgree(rows) && RoundsUntied(rows) && forall r :: r in rows <==> r in rows'
    ensures multiset(Rounds(Firsts(rows), feed)) == multiset(Rounds(Firsts(rows'), feed))
    ensures Ties(Rounds(Firsts(rows), feed), x, RoundLeq) == Ties(Rounds(Firsts(rows'), feed), x, RoundLeq)
  {
    hide Firsts, Rounds, RoundLeq, KeysAgree, TotalPreorder, Untied, Ties, RoundsUntied;
    KeysAgreeToo(rows, rows');
    RoundOrder();
    ListedSame(rows, rows', feed);
    ListedUntied(rows, feed);
    TiesOrderFree(Rounds(Firsts(rows), feed), Rounds(Firsts(rows'), feed), x, RoundLeq);
  }

  lemma KeysAgreeToo(rows: seq<RawRound>, rows': seq<RawRound>)
    requires KeysAgree(rows) && forall r :: r in rows <==> r in rows'
    ensures KeysAgree(rows')
  {
    hide KeyOf, RoundOf, FeedOf;
  }

  lemma RoundsConcat(a: seq<RawRound>, b: seq<RawRound>, feed: string)
    ensures Rounds(a + b, feed) == Rounds(a, feed) + Rounds(b, feed)
  {
    assert RoundItems(a + b) == RoundItems(a) + RoundItems(b);
    ListedConcat(RoundItems(a), RoundItems(b), feed);
  }

  /** The rows one list keeps after those of the other, and the same rows in another
      order: each feed's sorted list is the same. */
  lemma SortedSame(head: seq<RawRound>, unseen: seq<RawRound>, head': seq<RawRound>, unseen': seq<RawRound>,
                   feed: string)
    requires KeysAgree(head) && RoundsUntied(head) && forall r :: r in head <==> r in head'
    requires KeysAgree(unseen) && RoundsUntied(unseen) && forall r :: r in unseen <==> r in unseen'
    ensures var a, b := Rounds(Firsts(head) + Firsts(unseen), feed), Rounds(Firsts(head') + Firsts(unseen'), feed);
            Sort(a, RoundLeq) == Sort(b, RoundLeq) && (a == [] <==> b == [])
  {
    hide Firsts, Rounds, RoundLeq, KeysAgree, Sort, TotalPreorder, Ties, RoundsUntied;
    RoundsConcat(Firsts(head), Firsts(unseen), feed);
    RoundsConcat(Firsts(head'), Firsts(unseen'), feed);
    var a, b := Rounds(Firsts(head) + Firsts(unseen), feed), Rounds(Firsts(head') + Firsts(unseen'), feed);
    forall x
      ensures Ties(a, x, RoundLeq) == Ties(b, x, RoundLeq) && multiset(a) == multiset(b)
    {
      PartSame(head, head', feed, x);
      PartSame(unseen, unseen', feed, x);
      TiesConcat(Rounds(Firsts(head), feed), Rounds(Firsts(unseen), feed), x, RoundLeq);
      TiesConcat(Rounds(Firsts(head'), feed), Rounds(Firsts(unseen'), feed), x, RoundLeq);
    }
    assert multiset(a) == multiset(b) by {
      var x := Round("", 0, "", "");
      assert Ties(a, x, RoundLeq) == Ties(b, x, RoundLeq);
    }
    RoundOrder();
    SortByTies(a, b, RoundLeq);
    assert |a| == |multiset(a)| == |multiset(b)| == |b|;
  }

  lemma FeedListed(kept: seq<RawRound>, lists: map<string, seq<Round>>, feed: string)
    requires ListsOf(kept, lists)
    ensures feed in lists <==> Rounds(kept, feed) != []
    ensures feed in lists ==> lists[feed] == Sort(Rounds(kept, feed), RoundLeq)
  {
    hide RoundItems, Listed, HasFeed, AllDated, RoundLeq, Sort;
    assert WindowedAt(RoundItems(kept), RoundLeq, lists, feed);
    FeedHasRows(RoundItems(kept), feed);
  }

  /** A window depends on nothing but which over-bound rows and which remaining rows
      there are, neither on their order nor on repetition, when in each of the two
      rows with one key agree and no two rounds of a feed tie. */
  lemma WindowOrderFree(head: seq<RawRound>, tail: seq<RawRound>, head': seq<RawRound>, tail': seq<RawRound>,
                        lists: map<string, seq<Round>>, lists': map<string, seq<Round>>)
    requires IsWindow(head + tail, lists) && IsWindow(head' + tail', lists')
    requires KeysAgree(head) && RoundsUntied(head) && forall r :: r in head <==> r in head'
    requires KeysAgree(Unseen(head, tail)) && RoundsUntied(Unseen(head, tail))
    requires forall r :: r in Unseen(head, tail) <==> r in Unseen(head', tail')
    ensures lists == lists'
  {
    hide Firsts, Rounds, RoundLeq, KeysAgree, Sort, RoundsUntied, ListsOf, Unseen;
    FirstsSplit(head, tail);
    FirstsSplit(head', tail');
    forall feed
      ensures feed in lists <==> feed in lists'
      ensures feed in lists ==> lists[feed] == lists'[feed]
    {
      FeedListed(Firsts(head + tail), lists, feed);
      FeedListed(Firsts(head' + tail'), lists', feed);
      SortedSame(head, Unseen(head, tail), head', Unseen(head', tail'), feed);
    }
  }

  // ------------------------------------------------------------------
  // And under no other
  // ------------------------------------------------------------------

  /** The outcome is the same for every order of these rows, between kept rows that
      stay as they are. */
  ghost predicate Alike(before: seq<RawRound>, rows: seq<RawRound>, after: seq<RawRound>) {
    forall rows' :: multiset(rows') == multiset(rows)
                      ==> SameOutcome(before + Firsts(rows) + after, before + Firsts(rows') + after)
  }

  /** Reading alike is reading each of the two lists alike. */
  lemma AlikeSplit(head: seq<RawRound>, tail: seq<RawRound>)
    requires ReadsAlike(head, tail)
    ensures Alike([], head, Firsts(Unseen(head, tail))) && Alike(Firsts(head), Unseen(head, tail), [])
  {
    hide Firsts, Unseen, SameOutcome;
    FirstsSplit(head, tail);
    forall head' | multiset(head') == multiset(head)
      ensures SameOutcome([] + Firsts(head) + Firsts(Unseen(head, tail)),
                          [] + Firsts(head') + Firsts(Unseen(head, tail)))
    {
      SameRows(head, head');
      FirstsSplit(head', tail);
      UnseenSame(head, head', tail);
      assert SameOutcome(Firsts(head + tail), Firsts(head' + tail));
      NoneBefore(Firsts(head));
      NoneBefore(Firsts(head'));
    }
    forall unseen | multiset(unseen) == multiset(Unseen(head, tail))
      ensures SameOutcome(Firsts(head) + Firsts(Unseen(head, tail)) + [], Firsts(head) + Firsts(unseen) + [])
    {
      var tail' := UnseenOrders(head, tail, unseen);
      FirstsSplit(head, tail');
      assert SameOutcome(Firsts(head + tail), Firsts(head + tail'));
      NoneAfter(Firsts(head) + Firsts(Unseen(head, tail)));
      NoneAfter(Firsts(head) + Firsts(unseen));
    }
  }

  lemma NoneBefore(s: seq<RawRound>)
    ensures [] + s == s
  {}

  lemma NoneAfter(s: seq<RawRound>)
    ensures s + [] == s
  {}

  /** The row at the front is kept. */
  lemma FrontKept(rows: seq<RawRound>)
    requires rows != []
    ensures rows[0] in Firsts(rows)
  {
    hide KeyOf;
    assert Firsts([rows[0]]) == [rows[0]] by {
      assert [rows[0]][..0] == [];
    }
    FirstsGrow([rows[0]], rows);
    assert Firsts(rows)[0] == rows[0];
  }

  /** The rows with a block before those without. */
  function DatedFirst(rows: seq<RawRound>): seq<RawRound> {
    Part(rows, true) + Part(rows, false)
  }

  function Part(rows: seq<RawRound>, dated: bool): (part: seq<RawRound>)
    ensures forall r :: r in part <==> r in rows && RoundOf(r).Some? == dated
  {
    if rows == [] then []
    else
      var init, last := Part(rows[..|rows| - 1], dated), rows[|rows| - 1];
      assert rows == rows[..|rows| - 1] + [last];
      if RoundOf(last).Some? == dated then init + [last] else init
  }

  lemma {:induction false} PartsTogether(rows: seq<RawRound>)
    ensures multiset(Part(rows, true)) + multiset(Part(rows, false)) == multiset(rows)
  {
    hide RoundOf;
    if rows != [] {
      PartsTogether(rows[..|rows| - 1]);
      assert rows == rows[..|rows| - 1] + [rows[|rows| - 1]];
    }
  }

  /** With a dated row for each key, the dated rows first keep dated rows only. */
  lemma DatedFirstOpens(rows: seq<RawRound>)
    requires !Hopeless(rows)
    ensures multiset(DatedFirst(rows)) == multiset(rows)
    ensures forall k :: k in Firsts(DatedFirst(rows)) ==> RoundOf(k).Some?
  {
    hide KeyOf, RoundOf, Firsts;
    var head, tail := Part(rows, true), Part(rows, false);
    PartsTogether(rows);
    FirstsSplit(head, tail);
    forall r | r in tail
      ensures HasKey(head, KeyOf(r))
    {
      assert !NeverDated(rows, r);
      var b :| b in rows && KeyOf(b) == KeyOf(r) && RoundOf(b) != None;
      assert b in head;
      var i :| 0 <= i < |head| && head[i] == b;
    }
    assert forall r :: r !in Unseen(head, tail);
  }

  /** The lists of the rows in another order. */
  lemma AlikeLists(before: seq<RawRound>, rows: seq<RawRound>, after: seq<RawRound>, rows': seq<RawRound>,
                   lists: map<string, seq<Round>>)
    requires Alike(before, rows, after) && multiset(rows') == multiset(rows)
    requires ListsOf(before + Firsts(rows) + after, lists)
    ensures ListsOf(before + Firsts(rows') + after, lists)
  {
    hide ListsOf, Opens, Firsts;
    ListsOpen(before + Firsts(rows) + after, lists);
    assert SameOutcome(before + Firsts(rows) + after, before + Firsts(rows') + after);
    var lists' := SomeLists(before + Firsts(rows') + after);
  }

  /** Kept rows of distinct keys around the rows. */
  ghost predicate Apart(before: seq<RawRound>, rows: seq<RawRound>, after: seq<RawRound>) {
    forall r, k :: r in rows && (k in before || k in after) ==> KeyOf(k) != KeyOf(r)
  }

  /** Where rows with one key disagree, the order decides which one is kept. */
  lemma AlikeAgree(before: seq<RawRound>, rows: seq<RawRound>, after: seq<RawRound>, lists: map<string, seq<Round>>,
                   i: nat, j: nat)
    requires Alike(before, rows, after) && Apart(before, rows, after) && ListsOf(before + Firsts(rows) + after, lists)
    requires i < |rows| && j < |rows| && KeyOf(rows[i]) == KeyOf(rows[j])
    ensures RoundItem(rows[i]) == RoundItem(rows[j])
  {
    hide KeyOf, RoundOf, FeedOf, Firsts, ListsOf, Alike;
    var a, b := rows[i], rows[j];
    var front, front' := Fronted(rows, i), Fronted(rows, j);
    FrontedRows(rows, i);
    FrontedRows(rows, j);
    AlikeLists(before, rows, after, front, lists);
    AlikeLists(before, rows, after, front', lists);
    FrontKept(front);
    FrontKept(front');
    var kept, kept' := before + Firsts(front) + after, before + Firsts(front') + after;
    assert a in kept;
    KeptDated(kept, lists, a);
    var x := RoundOf(a).value;
    WindowExact(kept, lists, FeedOf(a), x);
    WindowExact(kept', lists, FeedOf(a), x);
    var r :| r in kept' && FeedOf(r) == FeedOf(a) && RoundOf(r) == Some(x);
    RoundKeeps(r);
    RoundKeeps(a);
    assert r in Firsts(front');
    FirstsOnce(front');
    SameKeySameRow(Firsts(front'), r, b);
  }

  /** So two kept rounds that tie are next to each other among their ties. */
  lemma PairKeepsOrder(before: seq<RawRound>, a: RawRound, b: RawRound, rest: seq<RawRound>,
                       lists: map<string, seq<Round>>)
    requires ListsOf(before + [a, b] + rest, lists) && Clash(a, b)
    ensures FeedOf(a) in lists
    ensures var x := RoundOf(a).value;
            Ties(Rounds(before, FeedOf(a)), x, RoundLeq) + [x, RoundOf(b).value]
              <= Ties(lists[FeedOf(a)], x, RoundLeq)
  {
    hide RoundOf, FeedOf, RoundLeq, Rounds, Ties, Sort, ListsOf, TotalPreorder;
    var feed, x, y := FeedOf(a), RoundOf(a).value, RoundOf(b).value;
    var kept := before + [a, b] + rest;
    FeedListed(kept, lists, feed);
    RoundsConcat(before + [a, b], rest, feed);
    RoundsConcat(before, [a, b], feed);
    PairRounds(a, b);
    RoundOrder();
    SortStable(Rounds(kept, feed), x, RoundLeq);
    TiesConcat(Rounds(before, feed) + [x, y], Rounds(rest, feed), x, RoundLeq);
    TiesConcat(Rounds(before, feed), [x, y], x, RoundLeq);
    PairTies(x, y);
  }

  lemma PairKept(a: RawRound, b: RawRound)
    requires KeyOf(a) != KeyOf(b)
    ensures Firsts([a, b]) == [a, b]
  {
    hide KeyOf;
    assert [a, b][..1] == [a] && [a][..0] == [] && [a][0] == a;
    assert Firsts([a]) == [a];
  }

  lemma PairRounds(a: RawRound, b: RawRound)
    requires FeedOf(a) == FeedOf(b) && RoundOf(a).Some? && RoundOf(b).Some?
    ensures Rounds([a, b], FeedOf(a)) == [RoundOf(a).value, RoundOf(b).value]
  {
    hide RoundOf, FeedOf;
    var items := RoundItems([a, b]);
    assert items[..1] == [RoundItem(a)] && items[..1][..0] == [];
    assert Listed(items[..1], FeedOf(a)) == [RoundOf(a).value];
  }

  lemma PairTies(x: Round, y: Round)
    requires Tie(x, y, RoundLeq)
    ensures Ties([x, y], x, RoundLeq) == [x, y]
  {
    LexSelf(x.roundId);
    assert [x, y][..1] == [x] && [x][..0] == [];
    assert Ties([x], x, RoundLeq) == [x];
  }

  /** The ties after those before, when the two rows come first. */
  lemma TiesInFront(before: seq<RawRound>, rows: seq<RawRound>, after: seq<RawRound>, lists: map<string, seq<Round>>,
                    a: RawRound, b: RawRound)
    requires Alike(before, rows, after) && ListsOf(before + Firsts(rows) + after, lists)
    requires a in rows && b in rows && KeyOf(a) != KeyOf(b) && Clash(a, b)
    ensures FeedOf(a) in lists
    ensures var x := RoundOf(a).value;
            Ties(Rounds(before, FeedOf(a)), x, RoundLeq) + [x, RoundOf(b).value]
              <= Ties(lists[FeedOf(a)], x, RoundLeq)
  {
    hide KeyOf, RoundOf, FeedOf, ListsOf, Alike, RoundLeq, Ties, Rounds, Firsts, Clash;
    var rows' := TwoInFront(rows, a, b);
    AlikeLists(before, rows, after, rows', lists);
    PairKept(a, b);
    FirstsGrow([a, b], rows');
    var rest := Firsts(rows')[2..];
    assert Firsts(rows') == [a, b] + rest;
    assert before + Firsts(rows') + after == before + [a, b] + (rest + after);
    PairKeepsOrder(before, a, b, rest + after, lists);
  }

  lemma AlikeUntied(before: seq<RawRound>, rows: seq<RawRound>, after: seq<RawRound>, lists: map<string, seq<Round>>,
                    a: RawRound, b: RawRound)
    requires Alike(before, rows, after) && ListsOf(before + Firsts(rows) + after, lists)
    requires KeysAgree(rows) && a in rows && b in rows && Clash(a, b)
    ensures RoundOf(a) == RoundOf(b)
  {
    hide KeyOf, RoundOf, FeedOf, ListsOf, Alike, RoundLeq, Ties, Rounds;
    if KeyOf(a) == KeyOf(b) {
      assert RoundItem(a) == RoundItem(b);
    } else {
      assert Clash(b, a);
      TiesInFront(before, rows, after, lists, a, b);
      TiesInFront(before, rows, after, lists, b, a);
      var x, y, feed := RoundOf(a).value, RoundOf(b).value, FeedOf(a);
      RoundOrder();
      TiesAlike(lists[feed], x, y);
      TiesAlike(Rounds(before, feed), x, y);
      var first, all := Ties(Rounds(before, feed), x, RoundLeq), Ties(lists[feed], x, RoundLeq);
      assert all[|first|] == (first + [x, y])[|first|] == x;
      assert all[|first|] == (first + [y, x])[|first|] == y;
    }
  }

  /** Elements that tie have the same ties. */
  lemma {:induction false} TiesAlike(s: seq<Round>, x: Round, y: Round)
    requires TotalPreorder(RoundLeq) && Tie(x, y, RoundLeq)
    ensures Ties(s, x, RoundLeq) == Ties(s, y, RoundLeq)
  {
    hide RoundLeq;
    if s != [] {
      TiesAlike(s[..|s| - 1], x, y);
    }
  }

  lemma AlikeSettled(before: seq<RawRound>, rows: seq<RawRound>, after: seq<RawRound>)
    requires Alike(before, rows, after) && Apart(before, rows, after) && Opens(before + Firsts(rows) + after)
    requires RowsDated(rows)
    ensures Settled(rows)
  {
    hide KeyOf, RoundOf, FeedOf, Firsts, ListsOf, Alike, Opens, Apart, RoundLeq, Tie;
    var lists := SomeLists(before + Firsts(rows) + after);
    forall a, b | a in rows && b in rows && KeyOf(a) == KeyOf(b)
      ensures RoundItem(a) == RoundItem(b)
    {
      var i :| 0 <= i < |rows| && rows[i] == a;
      var j :| 0 <= j < |rows| && rows[j] == b;
      AlikeAgree(before, rows, after, lists, i, j);
    }
    forall a, b | a in rows && b in rows && Clash(a, b)
      ensures RoundOf(a) == RoundOf(b)
    {
      AlikeUntied(before, rows, after, lists, a, b);
    }
  }

  /** Firsts of the two lists have different keys. */
  lemma ListsApart(head: seq<RawRound>, tail: seq<RawRound>)
    ensures Apart([], head, Firsts(Unseen(head, tail)))
    ensures Apart(Firsts(head), Unseen(head, tail), [])
  {
    hide KeyOf, Rest, Firsts;
    forall r, k | r in head && k in Firsts(Unseen(head, tail))
      ensures KeyOf(k) != KeyOf(r)
    {
      assert k in Unseen(head, tail);
      var i :| 0 <= i < |head| && head[i] == r;
    }
    forall r, k | r in Unseen(head, tail) && k in Firsts(head)
      ensures KeyOf(k) != KeyOf(r)
    {
      var i :| 0 <= i < |head| && head[i] == k;
    }
  }

  /** Whether there is a window does not depend on the order. */
  ghost predicate OpensAlike(head: seq<RawRound>, tail: seq<RawRound>) {
    forall head', tail' :: multiset(head') == multiset(head) && multiset(tail') == multiset(tail)
                             ==> (Opens(Firsts(head + tail)) <==> Opens(Firsts(head' + tail')))
  }

  /** Unless a key has no row with a block, some order of the lists gives a window. */
  lemma AlikeOpens(head: seq<RawRound>, tail: seq<RawRound>)
    requires OpensAlike(head, tail) && !Hopeless(head) && !Hopeless(Unseen(head, tail))
    ensures Opens(Firsts(head) + Firsts(Unseen(head, tail)))
  {
    hide KeyOf, RoundOf, Firsts, Rest, Opens, Hopeless, DatedFirst, Unseen;
    DatedFirstOpens(head);
    DatedFirstOpens(Unseen(head, tail));
    var head' := DatedFirst(head);
    var tail' := UnseenOrders(head, tail, DatedFirst(Unseen(head, tail)));
    SameRows(head, head');
    UnseenSame(head, head', tail');
    FirstsSplit(head, tail);
    FirstsSplit(head', tail');
    OpensIff(Firsts(head') + Firsts(DatedFirst(Unseen(head, tail))));
    assert Opens(Firsts(head + tail)) <==> Opens(Firsts(head' + tail'));
  }

  /** And if every order does, every row that can come first has a block. */
  lemma AlikeDated(head: seq<RawRound>, tail: seq<RawRound>)
    requires OpensAlike(head, tail) && Opens(Firsts(head + tail))
    ensures RowsDated(head) && RowsDated(Unseen(head, tail))
  {
    hide KeyOf, RoundOf, Firsts, Rest, Opens, Fronted;
    var unseen := Unseen(head, tail);
    forall i | 0 <= i < |head|
      ensures RoundOf(head[i]).Some?
    {
      var front := Fronted(head, i);
      FrontedRows(head, i);
      FrontKept(front);
      FirstsSplit(front, tail);
      assert Opens(Firsts(head + tail)) <==> Opens(Firsts(front + tail));
      OpensIff(Firsts(front + tail));
      assert head[i] in Firsts(front + tail);
    }
    forall i | 0 <= i < |unseen|
      ensures RoundOf(unseen[i]).Some?
    {
      var front := Fronted(unseen, i);
      FrontedRows(unseen, i);
      FrontKept(front);
      var tail' := UnseenOrders(head, tail, front);
      FirstsSplit(head, tail');
      assert Opens(Firsts(head + tail)) <==> Opens(Firsts(head + tail'));
      OpensIff(Firsts(head + tail'));
      assert unseen[i] in Firsts(head + tail');
    }
  }

  lemma ReadsOpenAlike(head: seq<RawRound>, tail: seq<RawRound>)
    requires ReadsAlike(head, tail)
    ensures OpensAlike(head, tail)
  {
    hide Firsts, Opens, ListsOf;
    forall head', tail' | multiset(head') == multiset(head) && multiset(tail') == multiset(tail)
      ensures Opens(Firsts(head + tail)) <==> Opens(Firsts(head' + tail'))
    {
      assert SameOutcome(Firsts(head + tail), Firsts(head' + tail'));
    }
  }

  lemma AlikeConditions(head: seq<RawRound>, tail: seq<RawRound>)
    requires ReadsAlike(head, tail) && !Hopeless(head) && !Hopeless(Unseen(head, tail))
    ensures Settled(head) && Settled(Unseen(head, tail))
  {
    hide Firsts, Unseen, Opens, OpensAlike, Hopeless, Settled, Alike, Apart, ReadsAlike, RowsDated;
    ReadsOpenAlike(head, tail);
    AlikeOpens(head, tail);
    FirstsSplit(head, tail);
    AlikeDated(head, tail);
    AlikeSplit(head, tail);
    ListsApart(head, tail);
    NoneBefore(Firsts(head));
    NoneAfter(Firsts(head) + Firsts(Unseen(head, tail)));
    AlikeSettled([], head, Firsts(Unseen(head, tail)));
    AlikeSettled(Firsts(head), Unseen(head, tail), []);
  }

  lemma HopelessKept(rows: seq<RawRound>, rows': seq<RawRound>)
    requires Hopeless(rows) && multiset(rows') == multiset(rows)
    ensures exists k :: k in Firsts(rows') && RoundOf(k) == None
  {
    hide KeyOf, RoundOf, Firsts;
    SameRows(rows, rows');
    var r :| NeverDated(rows, r);
    var k := KeptOf(rows', r);
  }

  lemma HopelessClosed(head: seq<RawRound>, tail: seq<RawRound>, head': seq<RawRound>, tail': seq<RawRound>)
    requires Hopeless(head) || Hopeless(Unseen(head, tail))
    requires multiset(head') == multiset(head) && multiset(tail') == multiset(tail)
    ensures !Opens(Firsts(head' + tail'))
  {
    hide RoundOf, Firsts, Unseen, Opens, Hopeless;
    UnseenPermuted(head, tail, head', tail');
    FirstsSplit(head', tail');
    OpensIff(Firsts(head' + tail'));
    if Hopeless(head) {
      HopelessKept(head, head');
    } else {
      HopelessKept(Unseen(head, tail), Unseen(head', tail'));
    }
  }

  lemma ClosedAlike(kept: seq<RawRound>, kept': seq<RawRound>)
    requires !Opens(kept) && !Opens(kept')
    ensures SameOutcome(kept, kept')
  {}

  lemma DatedOpens(head: seq<RawRound>, tail: seq<RawRound>)
    requires RowsDated(head) && RowsDated(Unseen(head, tail))
    ensures Opens(Firsts(head + tail))
  {
    hide RoundOf, Firsts, Unseen, Opens;
    FirstsSplit(head, tail);
    OpensIff(Firsts(head + tail));
    forall k | k in Firsts(head + tail)
      ensures RoundOf(k).Some?
    {
      assert k in head || k in Unseen(head, tail);
    }
  }

  lemma DatedToo(rows: seq<RawRound>, rows': seq<RawRound>)
    requires RowsDated(rows) && multiset(rows') == multiset(rows)
    ensures RowsDated(rows')
  {
    hide RoundOf;
    SameRows(rows, rows');
    forall i | 0 <= i < |rows'|
      ensures RoundOf(rows'[i]).Some?
    {
      assert rows'[i] in rows;
    }
  }

  lemma SettledToo(rows: seq<RawRound>, rows': seq<RawRound>)
    requires Settled(rows) && multiset(rows') == multiset(rows)
    ensures Settled(rows')
  {
    hide KeyOf, RoundOf, FeedOf, RowsDated, RoundLeq;
    SameRows(rows, rows');
    DatedToo(rows, rows');
  }

  lemma SettledAlike(head: seq<RawRound>, tail: seq<RawRound>, head': seq<RawRound>, tail': seq<RawRound>)
    requires Settled(head) && Settled(Unseen(head, tail))
    requires multiset(head') == multiset(head) && multiset(tail') == multiset(tail)
    ensures SameOutcome(Firsts(head + tail), Firsts(head' + tail'))
  {
    hide RoundOf, Firsts, Unseen, Opens, KeysAgree, RoundsUntied, RowsDated, ListsOf;
    UnseenPermuted(head, tail, head', tail');
    SettledToo(head, head');
    SettledToo(Unseen(head, tail), Unseen(head', tail'));
    DatedOpens(head, tail);
    DatedOpens(head', tail');
    SameRows(head, head');
    SameRows(Unseen(head, tail), Unseen(head', tail'));
    forall lists, lists' | ListsOf(Firsts(head + tail), lists) && ListsOf(Firsts(head' + tail'), lists')
      ensures lists == lists'
    {
      WindowOrderFree(head, tail, head', tail', lists, lists');
    }
  }

  /** The outcome does not depend on the order in which the endpoint returned the two
      lists exactly when some key has no row with a block, so that there is never a
      window, or in each list (the second without the keys of the first) every row has
      a block, rows with one key agree, and no two rounds of a feed tie. */
  lemma WindowOrderFreeIff(head: seq<RawRound>, tail: seq<RawRound>)
    ensures var unseen := Unseen(head, tail);
            ReadsAlike(head, tail) <==> Hopeless(head) || Hopeless(unseen) || (Settled(head) && Settled(unseen))
  {
    hide Firsts, Unseen, Opens, Hopeless, Settled, SameOutcome;
    if Hopeless(head) || Hopeless(Unseen(head, tail)) {
      forall head', tail' | multiset(head') == multiset(head) && multiset(tail') == multiset(tail)
        ensures SameOutcome(Firsts(head + tail), Firsts(head' + tail'))
      {
        HopelessClosed(head, tail, head, tail);
        HopelessClosed(head, tail, head', tail');
        ClosedAlike(Firsts(head + tail), Firsts(head' + tail'));
      }
    } else if Settled(head) && Settled(Unseen(head, tail)) {
      forall head', tail' | multiset(head') == multiset(head) && multiset(tail') == multiset(tail)
        ensures SameOutcome(Firsts(head + tail), Firsts(head' + tail'))
      {
        SettledAlike(head, tail, head', tail');
      }
    } else if ReadsAlike(head, tail) {
      AlikeConditions(head, tail);
    }
  }

  // ------------------------------------------------------------------
  // The whole window
  // ------------------------------------------------------------------

  /** The same list in another order. */
  ghost predicate Reordered<S(!new)>(rows: Option<seq<S>>, rows': Option<seq<S>>) {
    (rows.Some? <==> rows'.Some?) && (rows.Some? ==> multiset(rows'.value) == multiset(rows.value))
  }

  ghost predicate ReorderedData(data: WindowData, data': WindowData) {
    && Reordered(data.overBound, data'.overBound) && Reordered(data.unchecked, data'.unchecked)
    && Reordered(data.unknown, data'.unknown)
    && Reordered(data.boundChanges, data'.boundChanges) && Reordered(data.rateChanges, data'.rateChanges)
  }

  /** What is read is the same for every order of each of the five lists. */
  ghost predicate ParsesAlike(data: WindowData) {
    forall data', r, r' :: ReorderedData(data, data') && Parsed(data, r) && Parsed(data', r') ==> r == r'
  }

  function Head(data: WindowData): seq<RawRound> {
    if data.overBound.Some? then data.overBound.value else []
  }

  function Tail(data: WindowData): seq<RawRound> {
    if data.unchecked.Some? then data.unchecked.value else []
  }

  ghost predicate OptionUntied<S(!new), T>(rows: Option<seq<S>>, item: S -> Item<T>, leq: (T, T) -> bool) {
    rows.Some? && RowsUntied(rows.value, item, leq)
  }

  /** In none of the three other lists do two different rows of a feed tie. */
  ghost predicate OthersUntied(data: WindowData) {
    && OptionUntied(data.unknown, UnknownItem, RoundLeq)
    && OptionUntied(data.boundChanges, ChangeItem, ChangeLeq) && OptionUntied(data.rateChanges, ChangeItem, ChangeLeq)
  }

  /** Every window has something that is read from it. */
  lemma SomeParse(data: WindowData) returns (r: Result<Findings, WindowError>)
    ensures Parsed(data, r)
  {
    hide AllDated, Windowed, Firsts, RoundItems, ItemsOf;
    var flaw := WindowFlaw(data);
    if flaw.Some? {
      return Err(flaw.value);
    }
    var unchecked := ItemLists(RoundItems(Firsts(Merged(data.overBound.value, data.unchecked))), RoundLeq);
    var unknown := ItemLists(ItemsOf(data.unknown.value, UnknownItem), RoundLeq);
    var bounds := ItemLists(ItemsOf(data.boundChanges.value, ChangeItem), ChangeLeq);
    var rates := ItemLists(ItemsOf(data.rateChanges.value, ChangeItem), ChangeLeq);
    r := Ok(Findings(unchecked, unknown, bounds, rates));
  }

  lemma FlawReordered<S(!new), T(!new)>(name: string, rows: Option<seq<S>>, rows': Option<seq<S>>, item: S -> Item<T>)
    requires Reordered(rows, rows')
    ensures Flaw(name, ItemsIn(rows', item)) == Flaw(name, ItemsIn(rows, item))
  {
    hide AllDated, ItemsOf;
    if rows.Some? {
      RowsDatedAlike(rows.value, rows'.value, item);
    }
  }

  lemma LaterFlawReordered(data: WindowData, data': WindowData)
    requires ReorderedData(data, data')
    ensures LaterFlaw(data') == LaterFlaw(data)
  {
    hide Flaw, ItemsIn, Reordered;
    FlawReordered("unknown", data.unknown, data'.unknown, UnknownItem);
    FlawReordered("boundChanges", data.boundChanges, data'.boundChanges, ChangeItem);
    FlawReordered("rateChanges", data.rateChanges, data'.rateChanges, ChangeItem);
  }

  lemma HeadsReordered(data: WindowData, data': WindowData)
    requires ReorderedData(data, data')
    ensures multiset(Head(data')) == multiset(Head(data)) && multiset(Tail(data')) == multiset(Tail(data))
  {}

  /** The first flaw of a window: in the over-bound and unchecked rows, or later. */
  lemma FlawIs(data: WindowData)
    requires data.overBound.Some?
    ensures WindowFlaw(data)
         == if Opens(Firsts(Head(data) + Tail(data))) then LaterFlaw(data) else Some(NoBlock("overBound"))
    ensures Merged(data.overBound.value, data.unchecked) == Head(data) + Tail(data)
  {
    hide Firsts, RoundItems, AllDated, LaterFlaw;
  }

  // The order is free.

  lemma OthersSame<S(!new), T(!new)>(rows: Option<seq<S>>, rows': Option<seq<S>>, item: S -> Item<T>,
                                     leq: (T, T) -> bool, lists: map<string, seq<T>>, lists': map<string, seq<T>>)
    requires TotalPreorder(leq) && Reordered(rows, rows') && OptionUntied(rows, item, leq)
    requires Windowed(ItemsOf(rows.value, item), leq, lists) && Windowed(ItemsOf(rows'.value, item), leq, lists')
    ensures lists == lists'
  {
    hide TotalPreorder, RowsUntied, Windowed, ItemsOf;
    UntiedAlike(rows.value, rows'.value, item, leq);
  }

  lemma SettledParse(data: WindowData, data': WindowData, r: Result<Findings, WindowError>,
                     r': Result<Findings, WindowError>)
    requires ReorderedData(data, data') && Parsed(data, r) && Parsed(data', r')
    requires data.overBound.Some? && LaterFlaw(data) == None
    requires Settled(Head(data)) && Settled(Unseen(Head(data), Tail(data))) && OthersUntied(data)
    ensures r == r'
  {
    hide Firsts, Unseen, Opens, RowsDated, KeysAgree, RoundsUntied, Windowed, TotalPreorder, LaterFlaw, WindowFlaw,
         Reordered, RowsUntied, ItemsOf, RoundItems, RoundLeq, ChangeLeq;
    LaterFlawReordered(data, data');
    assert data'.overBound.Some? by {
      HeadsThere(data, data');
    }
    HeadsReordered(data, data');
    FlawIs(data);
    FlawIs(data');
    SettledAlike(Head(data), Tail(data), Head(data'), Tail(data'));
    DatedOpens(Head(data), Tail(data));
    assert ListsOf(Firsts(Head(data) + Tail(data)), r.value.unchecked);
    assert ListsOf(Firsts(Head(data') + Tail(data')), r'.value.unchecked);
    RoundOrder();
    ChangeOrder();
    OthersSame(data.unknown, data'.unknown, UnknownItem, RoundLeq, r.value.unknown, r'.value.unknown);
    var found, found' := r.value, r'.value;
    OthersSame(data.boundChanges, data'.boundChanges, ChangeItem, ChangeLeq, found.boundChanges, found'.boundChanges);
    OthersSame(data.rateChanges, data'.rateChanges, ChangeItem, ChangeLeq, found.rateChanges, found'.rateChanges);
  }

  lemma HeadsThere(data: WindowData, data': WindowData)
    requires ReorderedData(data, data')
    ensures data'.overBound.Some? <==> data.overBound.Some?
  {}

  /** Where there is never a window, the first flaw is the same in every order. */
  lemma ClosedParse(data: WindowData, data': WindowData, r: Result<Findings, WindowError>,
                    r': Result<Findings, WindowError>)
    requires ReorderedData(data, data') && Parsed(data, r) && Parsed(data', r') && data.overBound.Some?
    requires || Hopeless(Head(data)) || Hopeless(Unseen(Head(data), Tail(data)))
             || (LaterFlaw(data).Some? && RowsDated(Head(data)) && RowsDated(Unseen(Head(data), Tail(data))))
    ensures r == r'
  {
    hide Firsts, Unseen, Opens, Hopeless, RowsDated, Windowed, LaterFlaw, WindowFlaw, ItemsOf, RoundItems;
    LaterFlawReordered(data, data');
    HeadsReordered(data, data');
    FlawIs(data);
    FlawIs(data');
    var head, tail, head', tail' := Head(data), Tail(data), Head(data'), Tail(data');
    if Hopeless(head) || Hopeless(Unseen(head, tail)) {
      HopelessClosed(head, tail, head, tail);
      HopelessClosed(head, tail, head', tail');
    } else {
      DatedOpens(head, tail);
      UnseenPermuted(head, tail, head', tail');
      DatedToo(head, head');
      DatedToo(Unseen(head, tail), Unseen(head', tail'));
      DatedOpens(head', tail');
    }
  }

  // And under no other condition.

  lemma WithRounds(data: WindowData, head: seq<RawRound>, tail: seq<RawRound>) returns (data': WindowData)
    requires data.overBound.Some? && multiset(head) == multiset(Head(data)) && multiset(tail) == multiset(Tail(data))
    ensures ReorderedData(data, data') && Head(data') == head && Tail(data') == tail
    ensures data' == data.(overBound := data'.overBound, unchecked := data'.unchecked)
  {
    data' := data.(overBound := Some(head), unchecked := if data.unchecked.Some? then Some(tail) else None);
    if data.unchecked == None {
      assert |tail| == |multiset(tail)| == 0;
    }
  }

  lemma ParsedOpensAlike(data: WindowData)
    requires ParsesAlike(data) && data.overBound.Some?
    ensures OpensAlike(Head(data), Tail(data))
  {
    hide Firsts, Opens, Windowed, LaterFlaw, WindowFlaw, ReorderedData, ItemsOf, RoundItems;
    var head, tail := Head(data), Tail(data);
    forall head', tail' | multiset(head') == multiset(head) && multiset(tail') == multiset(tail)
      ensures Opens(Firsts(head + tail)) <==> Opens(Firsts(head' + tail'))
    {
      var data' := WithRounds(data, head', tail');
      HeadsThere(data, data');
      FlawIs(data);
      FlawIs(data');
      LaterFlawReordered(data, data');
      LaterName(data);
      var r := SomeParse(data);
      var r' := SomeParse(data');
      assert r == r';
    }
  }

  lemma LaterName(data: WindowData)
    ensures LaterFlaw(data) != Some(NoBlock("overBound"))
  {
    hide AllDated, ItemsOf;
    assert "unknown" != "overBound" && "boundChanges" != "overBound" && "rateChanges" != "overBound";
  }

  lemma ParsedReadsAlike(data: WindowData)
    requires ParsesAlike(data) && WindowFlaw(data) == None
    ensures ReadsAlike(Head(data), Tail(data))
  {
    hide Firsts, Opens, Windowed, LaterFlaw, WindowFlaw, ReorderedData, ItemsOf, RoundItems, ParsesAlike;
    FlawThere(data);
    ParsedOpensAlike(data);
    var head, tail := Head(data), Tail(data);
    forall head', tail' | multiset(head') == multiset(head) && multiset(tail') == multiset(tail)
      ensures SameOutcome(Firsts(head + tail), Firsts(head' + tail'))
    {
      forall lists, lists' | ListsOf(Firsts(head + tail), lists) && ListsOf(Firsts(head' + tail'), lists')
        ensures lists == lists'
      {
        SameUnchecked(data, head', tail', lists, lists');
      }
    }
  }

  lemma FlawThere(data: WindowData)
    requires WindowFlaw(data) == None
    ensures data.overBound.Some? && data.unknown.Some? && data.boundChanges.Some? && data.rateChanges.Some?
    ensures AllDated(ItemsOf(data.unknown.value, UnknownItem))
    ensures AllDated(ItemsOf(data.boundChanges.value, ChangeItem))
    ensures AllDated(ItemsOf(data.rateChanges.value, ChangeItem))
    ensures LaterFlaw(data) == None
  {
    hide AllDated, ItemsOf, RoundItems;
  }

  lemma SameUnchecked(data: WindowData, head: seq<RawRound>, tail: seq<RawRound>, lists: map<string, seq<Round>>,
                      lists': map<string, seq<Round>>)
    requires ParsesAlike(data) && WindowFlaw(data) == None
    requires multiset(head) == multiset(Head(data)) && multiset(tail) == multiset(Tail(data))
    requires ListsOf(Firsts(Head(data) + Tail(data)), lists) && ListsOf(Firsts(head + tail), lists')
    ensures lists == lists'
  {
    hide Firsts, Opens, Windowed, LaterFlaw, WindowFlaw, ReorderedData, ItemsOf, RoundItems, RoundLeq, ChangeLeq;
    FlawThere(data);
    var data' := WithRounds(data, head, tail);
    HeadsThere(data, data');
    FlawIs(data);
    FlawIs(data');
    LaterFlawReordered(data, data');
    ListsOpen(Firsts(head + tail), lists');
    var r := SomeParse(data);
    var q, q' := Ok(r.value.(unchecked := lists)), Ok(r.value.(unchecked := lists'));
    assert Parsed(data, q) && Parsed(data', q');
    assert q == q';
  }

  lemma UnknownAlike(data: WindowData)
    requires ParsesAlike(data) && WindowFlaw(data) == None
    ensures data.unknown.Some? && ListedAlike(data.unknown.value, UnknownItem, RoundLeq)
  {
    hide Firsts, Windowed, ItemsOf, RoundItems, AllDated, RoundLeq, ChangeLeq, WindowFlaw, ReorderedData;
    FlawThere(data);
    var r := SomeParse(data);
    var items := ItemsOf(data.unknown.value, UnknownItem);
    forall rows | multiset(rows) == multiset(data.unknown.value)
      ensures SameLists(items, ItemsOf(rows, UnknownItem), RoundLeq)
    {
      RowsDatedAlike(data.unknown.value, rows, UnknownItem);
      forall lists, lists' | Windowed(items, RoundLeq, lists) && Windowed(ItemsOf(rows, UnknownItem), RoundLeq, lists')
        ensures lists == lists'
      {
        var data' := data.(unknown := Some(rows));
        SameFlaw(data, data');
        var q, q' := Ok(r.value.(unknown := lists)), Ok(r.value.(unknown := lists'));
        assert Parsed(data, q) && Parsed(data', q');
        assert q == q';
      }
    }
  }

  lemma BoundsAlike(data: WindowData)
    requires ParsesAlike(data) && WindowFlaw(data) == None
    ensures data.boundChanges.Some? && ListedAlike(data.boundChanges.value, ChangeItem, ChangeLeq)
  {
    hide Firsts, Windowed, ItemsOf, RoundItems, AllDated, RoundLeq, ChangeLeq, WindowFlaw, ReorderedData;
    FlawThere(data);
    var r := SomeParse(data);
    var items := ItemsOf(data.boundChanges.value, ChangeItem);
    forall rows | multiset(rows) == multiset(data.boundChanges.value)
      ensures SameLists(items, ItemsOf(rows, ChangeItem), ChangeLeq)
    {
      RowsDatedAlike(data.boundChanges.value, rows, ChangeItem);
      forall lists, lists' | Windowed(items, ChangeLeq, lists) && Windowed(ItemsOf(rows, ChangeItem), ChangeLeq, lists')
        ensures lists == lists'
      {
        var data' := data.(boundChanges := Some(rows));
        SameFlaw(data, data');
        var q, q' := Ok(r.value.(boundChanges := lists)), Ok(r.value.(boundChanges := lists'));
        assert Parsed(data, q) && Parsed(data', q');
        assert q == q';
      }
    }
  }

  lemma RatesAlike(data: WindowData)
    requires ParsesAlike(data) && WindowFlaw(data) == None
    ensures data.rateChanges.Some? && ListedAlike(data.rateChanges.value, ChangeItem, ChangeLeq)
  {
    hide Firsts, Windowed, ItemsOf, RoundItems, AllDated, RoundLeq, ChangeLeq, WindowFlaw, ReorderedData;
    FlawThere(data);
    var r := SomeParse(data);
    var items := ItemsOf(data.rateChanges.value, ChangeItem);
    forall rows | multiset(rows) == multiset(data.rateChanges.value)
      ensures SameLists(items, ItemsOf(rows, ChangeItem), ChangeLeq)
    {
      RowsDatedAlike(data.rateChanges.value, rows, ChangeItem);
      forall lists, lists' | Windowed(items, ChangeLeq, lists) && Windowed(ItemsOf(rows, ChangeItem), ChangeLeq, lists')
        ensures lists == lists'
      {
        var data' := data.(rateChanges := Some(rows));
        SameFlaw(data, data');
        var q, q' := Ok(r.value.(rateChanges := lists)), Ok(r.value.(rateChanges := lists'));
        assert Parsed(data, q) && Parsed(data', q');
        assert q == q';
      }
    }
  }

  /** Another order of the later lists has the same flaw. */
  lemma SameFlaw(data: WindowData, data': WindowData)
    requires data'.overBound == data.overBound && data'.unchecked == data.unchecked
    requires Reordered(data.unknown, data'.unknown)
    requires Reordered(data.boundChanges, data'.boundChanges) && Reordered(data.rateChanges, data'.rateChanges)
    ensures ReorderedData(data, data') && WindowFlaw(data') == WindowFlaw(data)
  {
    hide LaterFlaw, Flaw;
    LaterFlawReordered(data, data');
  }

  /** What is read of a window does not depend on the order in which the endpoint
      returned its five lists exactly when there is never a window, for one and the same
      reason, or in every list the rows that could change places are alike. */
  lemma ParseOrderFreeIff(data: WindowData)
    ensures var head, unseen := Head(data), Unseen(Head(data), Tail(data));
            ParsesAlike(data)
            <==> || data.overBound == None
                 || Hopeless(head) || Hopeless(unseen)
                 || (LaterFlaw(data).Some? && RowsDated(head) && RowsDated(unseen))
                 || (LaterFlaw(data) == None && Settled(head) && Settled(unseen) && OthersUntied(data))
  {
    hide Firsts, Unseen, Opens, Hopeless, Settled, LaterFlaw, WindowFlaw, ReorderedData, RowsDated, OthersUntied,
         Parsed;
    var head, tail := Head(data), Tail(data);
    var unseen := Unseen(head, tail);
    if data.overBound == None {
      forall data', r, r' | ReorderedData(data, data') && Parsed(data, r) && Parsed(data', r')
        ensures r == r'
      {
        MissingParse(data, data', r, r');
      }
    } else if || Hopeless(head) || Hopeless(unseen)
              || (LaterFlaw(data).Some? && RowsDated(head) && RowsDated(unseen)) {
      forall data', r, r' | ReorderedData(data, data') && Parsed(data, r) && Parsed(data', r')
        ensures r == r'
      {
        ClosedParse(data, data', r, r');
      }
    } else if LaterFlaw(data) == None && Settled(head) && Settled(unseen) && OthersUntied(data) {
      forall data', r, r' | ReorderedData(data, data') && Parsed(data, r) && Parsed(data', r')
        ensures r == r'
      {
        SettledParse(data, data', r, r');
      }
    } else if ParsesAlike(data) {
      ParsedConditions(data);
    }
  }

  lemma MissingParse(data: WindowData, data': WindowData, r: Result<Findings, WindowError>,
                     r': Result<Findings, WindowError>)
    requires ReorderedData(data, data') && Parsed(data, r) && Parsed(data', r') && data.overBound == None
    ensures r == r'
  {
    hide Windowed, LaterFlaw;
    HeadsThere(data, data');
  }

  lemma ParsedConditions(data: WindowData)
    requires ParsesAlike(data) && data.overBound.Some?
    requires !Hopeless(Head(data)) && !Hopeless(Unseen(Head(data), Tail(data)))
    ensures RowsDated(Head(data)) && RowsDated(Unseen(Head(data), Tail(data)))
    ensures LaterFlaw(data) == None
        ==> Settled(Head(data)) && Settled(Unseen(Head(data), Tail(data))) && OthersUntied(data)
  {
    hide Firsts, Unseen, Opens, Hopeless, Settled, LaterFlaw, WindowFlaw, ParsesAlike, RowsDated, OpensAlike,
         RowsUntied, AllDated, ItemsOf, TotalPreorder, ReadsAlike, ListedAlike;
    var head, tail := Head(data), Tail(data);
    ParsedOpensAlike(data);
    AlikeOpens(head, tail);
    FirstsSplit(head, tail);
    AlikeDated(head, tail);
    if LaterFlaw(data) == None {
      FlawIs(data);
      ParsedReadsAlike(data);
      AlikeConditions(head, tail);
      UnknownAlike(data);
      BoundsAlike(data);
      RatesAlike(data);
      FlawThere(data);
      RoundOrder();
      ChangeOrder();
      ListOrderFreeIff(data.unknown.value, UnknownItem, RoundLeq);
      ListOrderFreeIff(data.boundChanges.value, ChangeItem, ChangeLeq);
      ListOrderFreeIff(data.rateChanges.value, ChangeItem, ChangeLeq);
    }
  }

  // ------------------------------------------------------------------
  // Two changes in one transaction
  // ------------------------------------------------------------------

  function TiedChange(rest: string): RawChange {
    RawChange(Some("0xt"), Some("0xf"), Some(5), rest)
  }

  lemma TiedChanges(a: string, b: string, lists: map<string, seq<Change>>)
    requires Windowed(ItemsOf([TiedChange(a), TiedChange(b)], ChangeItem), ChangeLeq, lists)
    ensures "0xf" in lists && lists["0xf"] == [Change(5, "0xt", a), Change(5, "0xt", b)]
  {
    hide LexLeq, Lower, Sort, Listed, Windowed, ChangeLeq;
    var x, y := Change(5, "0xt", a), Change(5, "0xt", b);
    var items := ItemsOf([TiedChange(a), TiedChange(b)], ChangeItem);
    LowerFeed();
    PairListed(items);
    TiedInOrder(x, y);
    TwoInOrder(x, y, ChangeLeq);
    WindowedFeed(items, ChangeLeq, lists, "0xf");
  }

  lemma LowerFeed()
    ensures Lower("0xf") == "0xf"
  {}

  lemma TiedInOrder(x: Change, y: Change)
    requires x.block == y.block && x.tx == y.tx
    ensures ChangeLeq(x, y)
  {
    LexSelf(x.tx);
  }

  lemma TwoInOrder<T>(x: T, y: T, leq: (T, T) -> bool)
    requires leq(x, y)
    ensures Sort([x, y], leq) == [x, y]
  {
    assert [x, y][..1] == [x] && [x][..0] == [];
    assert Sort([x], leq) == [x];
  }

  lemma WindowedFeed<T>(items: seq<Item<T>>, leq: (T, T) -> bool, lists: map<string, seq<T>>, feed: string)
    requires Windowed(items, leq, lists) && items != [] && items[0].feed == feed
    ensures feed in lists && lists[feed] == Sort(Listed(items, feed), leq)
  {
    assert WindowedAt(items, leq, lists, feed);
  }

  /** A window with two bound changes and nothing else. */
  function ChangesOnly(a: RawChange, b: RawChange): WindowData {
    WindowData(Some([]), None, Some([]), Some([a, b]), Some([]))
  }

  lemma ChangesOpen(a: string, b: string)
    ensures WindowFlaw(ChangesOnly(TiedChange(a), TiedChange(b))) == None
  {
    var items := ItemsOf([TiedChange(a), TiedChange(b)], ChangeItem);
    assert AllDated(items);
    assert Firsts(Merged([], None)) == [];
    assert RoundItems([]) == [] && AllDated(RoundItems([]));
  }

  /** Two bound changes of one feed in one transaction are listed as they came, so that
      two orders of them are read as two windows. */
  lemma ChangesKeepOrder(r: Result<Findings, WindowError>, r': Result<Findings, WindowError>)
    requires Parsed(ChangesOnly(TiedChange("1"), TiedChange("2")), r)
    requires Parsed(ChangesOnly(TiedChange("2"), TiedChange("1")), r')
    ensures r.Ok? && "0xf" in r.value.boundChanges
    ensures r.value.boundChanges["0xf"] == [Change(5, "0xt", "1"), Change(5, "0xt", "2")]
    ensures r'.Ok? && "0xf" in r'.value.boundChanges
    ensures r'.value.boundChanges["0xf"] == [Change(5, "0xt", "2"), Change(5, "0xt", "1")]
  {
    hide Windowed, WindowFlaw;
    ChangesOpen("1", "2");
    ChangesOpen("2", "1");
    TiedChanges("1", "2", r.value.boundChanges);
    TiedChanges("2", "1", r'.value.boundChanges);
  }
}
