/** How the consumer merges a window of findings into one list for each feed. */
module Window {
  import opened Prelude
  import opened Sorting
  import opened Text

  // ------------------------------------------------------------------
  // Rows
  // ------------------------------------------------------------------

  /** The fields of a round as JSON gives them; a block is an i64, and `rest` stands
      for the fields that are only copied. */
  datatype RawRound = RawRound(
    tx: Option<string>, roundId: Option<string>, feedId: Option<string>, block: Option<int>, rest: string)

  datatype Round = Round(roundId: string, block: nat, tx: string, rest: string)

  /** A change of a bound or a rate. */
  datatype RawChange = RawChange(tx: Option<string>, feedId: Option<string>, block: Option<int>, rest: string)

  datatype Change = Change(block: nat, tx: string, rest: string)

  /** A row as its feed and what it becomes: nothing when it has no block. */
  datatype Item<+T> = Item(feed: string, row: Option<T>)

  /** Transaction and round id; the feed is not part of it. */
  function KeyOf(r: RawRound): (string, string) {
    (Lower(OrEmpty(r.tx)), OrEmpty(r.roundId))
  }

  function FeedOf(r: RawRound): string {
    Lower(OrEmpty(r.feedId))
  }

  function RoundOf(r: RawRound): Option<Round> {
    match r.block
    case Some(block) => Some(Round(OrEmpty(r.roundId), AsU64(block), OrEmpty(r.tx), r.rest))
    case None => None
  }

  function RoundItem(r: RawRound): Item<Round> {
    Item(FeedOf(r), RoundOf(r))
  }

  /** Of an unknown round no other field is copied. */
  function UnknownItem(r: RawRound): Item<Round> {
    RoundItem(r.(rest := ""))
  }

  function ChangeItem(c: RawChange): Item<Change> {
    Item(Lower(OrEmpty(c.feedId)),
         match c.block
         case Some(block) => Some(Change(AsU64(block), OrEmpty(c.tx), c.rest))
         case None => None)
  }

  function ItemsOf<S, T>(rows: seq<S>, item: S -> Item<T>): (items: seq<Item<T>>)
    ensures |items| == |rows|
  {
    seq(|rows|, i requires 0 <= i < |rows| => item(rows[i]))
  }

  function RoundItems(rows: seq<RawRound>): (items: seq<Item<Round>>)
    ensures |items| == |rows|
    ensures forall i :: 0 <= i < |rows| ==> items[i] == RoundItem(rows[i])
  {
    ItemsOf(rows, RoundItem)
  }

  predicate RoundLeq(a: Round, b: Round) {
    a.block < b.block || (a.block == b.block && LexLeq(a.roundId, b.roundId))
  }

  predicate ChangeLeq(a: Change, b: Change) {
    a.block < b.block || (a.block == b.block && LexLeq(a.tx, b.tx))
  }

  // ------------------------------------------------------------------
  // Grouping by feed
  // ------------------------------------------------------------------

  predicate AllDated<T>(items: seq<Item<T>>) {
    forall i :: 0 <= i < |items| ==> items[i].row.Some?
  }

  predicate HasFeed<T>(items: seq<Item<T>>, feed: string) {
    exists i :: 0 <= i < |items| && items[i].feed == feed
  }

  /** What the rows of one feed become, in order. */
  function Listed<T>(items: seq<Item<T>>, feed: string): seq<T> {
    if items == [] then []
    else
      var init, last := Listed(items[..|items| - 1], feed), items[|items| - 1];
      if last.feed == feed && last.row.Some? then init + [last.row.value] else init
  }

  /** Each feed that has a row has the list of its rows. */
  ghost predicate Grouped<T>(items: seq<Item<T>>, lists: map<string, seq<T>>) {
    forall feed :: GroupedAt(items, lists, feed)
  }

  ghost predicate GroupedAt<T>(items: seq<Item<T>>, lists: map<string, seq<T>>, feed: string) {
    && (feed in lists <==> HasFeed(items, feed))
    && (feed in lists ==> lists[feed] == Listed(items, feed))
  }

  /** The lists with one more row: `entry(feed).or_default().push(row)`. */
  function Added<T>(lists: map<string, seq<T>>, feed: string, row: T): map<string, seq<T>> {
    lists[feed := (if feed in lists then lists[feed] else []) + [row]]
  }

  lemma GroupNone<T>()
    ensures Grouped<T>([], map[]) && AllDated<T>([])
  {}

  lemma GroupStep<T>(items: seq<Item<T>>, lists: map<string, seq<T>>, item: Item<T>)
    requires Grouped(items, lists) && item.row.Some?
    ensures Grouped(items + [item], Added(lists, item.feed, item.row.value))
  {
    var more := items + [item];
    assert more[..|items|] == items && more[|items|] == item;
    forall feed
      ensures GroupedAt(more, Added(lists, item.feed, item.row.value), feed)
    {
      assert GroupedAt(items, lists, feed);
      FeedStep(items, item, feed);
      if !HasFeed(items, feed) {
        NoFeedNoRows(items, feed);
      }
    }
  }

  lemma {:induction false} NoFeedNoRows<T>(items: seq<Item<T>>, feed: string)
    requires !HasFeed(items, feed)
    ensures Listed(items, feed) == []
  {
    if items != [] {
      NoFeedNoRows(items[..|items| - 1], feed);
    }
  }

  lemma FeedStep<T>(items: seq<Item<T>>, item: Item<T>, feed: string)
    ensures HasFeed(items + [item], feed) <==> HasFeed(items, feed) || feed == item.feed
  {
    var more := items + [item];
    assert more[|items|] == item;
    assert forall i :: 0 <= i < |items| ==> more[i] == items[i];
  }

  /** Groups the rows of a list, or stops at one without a block. */
  method GroupRows<T>(items: seq<Item<T>>) returns (lists: Option<map<string, seq<T>>>)
    ensures lists.Some? <==> AllDated(items)
    ensures lists.Some? ==> Grouped(items, lists.value)
  {
    hide Grouped, Added;
    var out: map<string, seq<T>> := map[];
    GroupNone<T>();
    for i := 0 to |items|
      invariant AllDated(items[..i]) && Grouped(items[..i], out)
    {
      if items[i].row == None {
        return None;
      }
      GroupStep(items[..i], out, items[i]);
      assert items[..i + 1] == items[..i] + [items[i]];
      out := Added(out, items[i].feed, items[i].row.value);
    }
    assert items[..|items|] == items;
    lists := Some(out);
  }

  /** Every list sorted. */
  function SortLists<T>(lists: map<string, seq<T>>, leq: (T, T) -> bool): (sorted: map<string, seq<T>>)
    ensures forall feed :: feed in sorted <==> feed in lists
    ensures forall feed :: feed in lists ==> sorted[feed] == Sort(lists[feed], leq)
  {
    map feed | feed in lists :: Sort(lists[feed], leq)
  }

  /** The sorted lists of the feeds, when every row has a block. */
  ghost predicate Windowed<T>(items: seq<Item<T>>, leq: (T, T) -> bool, lists: map<string, seq<T>>) {
    AllDated(items) && forall feed :: WindowedAt(items, leq, lists, feed)
  }

  ghost predicate WindowedAt<T>(items: seq<Item<T>>, leq: (T, T) -> bool, lists: map<string, seq<T>>, feed: string) {
    && (feed in lists <==> HasFeed(items, feed))
    && (feed in lists ==> lists[feed] == Sort(Listed(items, feed), leq))
  }

  lemma SortedLists<T>(items: seq<Item<T>>, lists: map<string, seq<T>>, leq: (T, T) -> bool)
    requires AllDated(items) && Grouped(items, lists)
    ensures Windowed(items, leq, SortLists(lists, leq))
  {
    hide AllDated, HasFeed, Listed, SortLists, Sort;
    forall feed
      ensures WindowedAt(items, leq, SortLists(lists, leq), feed)
    {
      assert GroupedAt(items, lists, feed);
    }
  }

  // ------------------------------------------------------------------
  // Duplicates
  // ------------------------------------------------------------------

  predicate HasKey(rows: seq<RawRound>, key: (string, string)) {
    exists i :: 0 <= i < |rows| && KeyOf(rows[i]) == key
  }

  /** The first row of each key, in order. */
  function Firsts(rows: seq<RawRound>): (kept: seq<RawRound>)
    ensures forall r :: r in kept ==> r in rows
    ensures forall r :: r in rows ==> HasKey(kept, KeyOf(r))
  {
    if rows == [] then []
    else
      var kept, last := Firsts(rows[..|rows| - 1]), rows[|rows| - 1];
      assert rows == rows[..|rows| - 1] + [last];
      if HasKey(kept, KeyOf(last)) then kept
      else
        assert (kept + [last])[|kept|] == last;
        assert forall i :: 0 <= i < |kept| ==> (kept + [last])[i] == kept[i];
        kept + [last]
  }

  lemma FirstsStep(rows: seq<RawRound>, i: nat)
    requires i < |rows|
    ensures Firsts(rows[..i + 1])
         == if HasKey(Firsts(rows[..i]), KeyOf(rows[i])) then Firsts(rows[..i]) else Firsts(rows[..i]) + [rows[i]]
    ensures !HasKey(Firsts(rows[..i]), KeyOf(rows[i]))
         ==> forall key ::
               HasKey(Firsts(rows[..i + 1]), key) <==> HasKey(Firsts(rows[..i]), key) || key == KeyOf(rows[i])
  {
    assert rows[..i + 1][..i] == rows[..i];
    HasKeySnoc(Firsts(rows[..i]), rows[i]);
  }

  lemma HasKeySnoc(kept: seq<RawRound>, last: RawRound)
    ensures forall key :: HasKey(kept + [last], key) <==> HasKey(kept, key) || key == KeyOf(last)
  {
    hide KeyOf;
    forall key
      ensures HasKey(kept + [last], key) <==> HasKey(kept, key) || key == KeyOf(last)
    {
      var more := kept + [last];
      assert more[|kept|] == last;
      assert forall i :: 0 <= i < |kept| ==> more[i] == kept[i];
    }
  }

  /** Kept rows stay kept as more rows come. */
  lemma {:induction false} FirstsGrow(part: seq<RawRound>, rows: seq<RawRound>)
    requires part <= rows
    ensures Firsts(part) <= Firsts(rows)
    decreases |rows| - |part|
  {
    hide Firsts, HasKey, KeyOf;
    if |part| < |rows| {
      FirstsStep(rows, |part|);
      assert rows[..|part|] == part;
      FirstsGrow(rows[..|part| + 1], rows);
    } else {
      assert part == rows;
    }
  }

  lemma NothingKept(rows: seq<RawRound>)
    ensures Firsts(rows[..0]) == [] && RoundItems([]) == [] && forall key :: !HasKey([], key)
  {}

  lemma ItemsSnoc(kept: seq<RawRound>, r: RawRound)
    ensures RoundItems(kept + [r]) == RoundItems(kept) + [RoundItem(r)]
  {}

  /** Merges rows, the first of each key only, and groups them. */
  method GroupFirsts(rows: seq<RawRound>) returns (lists: Option<map<string, seq<Round>>>)
    ensures lists.Some? <==> AllDated(RoundItems(Firsts(rows)))
    ensures lists.Some? ==> Grouped(RoundItems(Firsts(rows)), lists.value)
  {
    hide Firsts, Grouped, HasKey, KeyOf, RoundItems, RoundItem, Added, AllDated;
    var seen: set<(string, string)> := {};
    var out: map<string, seq<Round>> := map[];
    NothingKept(rows);
    GroupNone<Round>();
    for i := 0 to |rows|
      invariant forall key :: key in seen <==> HasKey(Firsts(rows[..i]), key)
      invariant AllDated(RoundItems(Firsts(rows[..i]))) && Grouped(RoundItems(Firsts(rows[..i])), out)
    {
      FirstsStep(rows, i);
      if KeyOf(rows[i]) in seen {
        continue;
      }
      seen := seen + {KeyOf(rows[i])};
      var item := RoundItem(rows[i]);
      ItemsSnoc(Firsts(rows[..i]), rows[i]);
      DatedSnoc(RoundItems(Firsts(rows[..i])), item);
      if item.row == None {
        FirstsGrow(rows[..i + 1], rows);
        UndatedPart(Firsts(rows[..i + 1]), Firsts(rows));
        return None;
      }
      GroupStep(RoundItems(Firsts(rows[..i])), out, item);
      out := Added(out, item.feed, item.row.value);
    }
    assert rows[..|rows|] == rows;
    lists := Some(out);
  }

  lemma DatedSnoc<T>(items: seq<Item<T>>, item: Item<T>)
    ensures AllDated(items + [item]) <==> AllDated(items) && item.row.Some?
  {
    assert (items + [item])[|items|] == item;
    assert forall i :: 0 <= i < |items| ==> (items + [item])[i] == items[i];
  }

  lemma UndatedPart(part: seq<RawRound>, kept: seq<RawRound>)
    requires part <= kept && !AllDated(RoundItems(part))
    ensures !AllDated(RoundItems(kept))
  {
    hide RoundItem;
    var i :| 0 <= i < |part| && RoundItems(part)[i].row == None;
    assert RoundItems(kept)[i].row == None;
  }

  // ------------------------------------------------------------------
  // parse_window
  // ------------------------------------------------------------------

  /** The five lists as the endpoint returned them; a list may be missing. */
  datatype WindowData = WindowData(
    overBound: Option<seq<RawRound>>, unchecked: Option<seq<RawRound>>, unknown: Option<seq<RawRound>>,
    boundChanges: Option<seq<RawChange>>, rateChanges: Option<seq<RawChange>>)

  datatype Findings = Findings(
    unchecked: map<string, seq<Round>>, unknown: map<string, seq<Round>>,
    boundChanges: map<string, seq<Change>>, rateChanges: map<string, seq<Change>>)

  datatype WindowError = Missing(list: string) | NoBlock(list: string)

  /** The over-bound rows first, then the unchecked ones. */
  function Merged(overBound: seq<RawRound>, unchecked: Option<seq<RawRound>>): seq<RawRound> {
    overBound + if unchecked.Some? then unchecked.value else []
  }

  /** The first thing wrong with a list. */
  function Flaw<T>(name: string, items: Option<seq<Item<T>>>): Option<WindowError> {
    match items
    case None => Some(Missing(name))
    case Some(xs) => if AllDated(xs) then None else Some(NoBlock(name))
  }

  function OrElse(first: Option<WindowError>, second: Option<WindowError>): Option<WindowError> {
    if first.Some? then first else second
  }

  function ItemsIn<S, T>(rows: Option<seq<S>>, item: S -> Item<T>): Option<seq<Item<T>>> {
    match rows case Some(rs) => Some(ItemsOf(rs, item)) case None => None
  }

  /** The rows that become unchecked rounds. */
  function UncheckedIn(data: WindowData): Option<seq<Item<Round>>> {
    match data.overBound case Some(rs) => Some(RoundItems(Firsts(Merged(rs, data.unchecked)))) case None => None
  }

  /** The first thing wrong with the lists after the unchecked rounds. */
  function LaterFlaw(data: WindowData): Option<WindowError> {
    OrElse(Flaw("unknown", ItemsIn(data.unknown, UnknownItem)),
           OrElse(Flaw("boundChanges", ItemsIn(data.boundChanges, ChangeItem)),
                  Flaw("rateChanges", ItemsIn(data.rateChanges, ChangeItem))))
  }

  /** The first thing wrong with a window: its lists are read in this order, and only
      `unchecked` may be missing. */
  function WindowFlaw(data: WindowData): Option<WindowError> {
    OrElse(Flaw("overBound", UncheckedIn(data)), LaterFlaw(data))
  }

  /** What reading a window gives: the first thing wrong with it, or its lists. */
  ghost predicate Parsed(data: WindowData, r: Result<Findings, WindowError>) {
    && (if WindowFlaw(data).Some? then r == Err(WindowFlaw(data).value) else r.Ok?)
    && (r.Ok? ==>
          && data.overBound.Some? && data.unknown.Some? && data.boundChanges.Some? && data.rateChanges.Some?
          && Windowed(RoundItems(Firsts(Merged(data.overBound.value, data.unchecked))), RoundLeq, r.value.unchecked)
          && Windowed(ItemsOf(data.unknown.value, UnknownItem), RoundLeq, r.value.unknown)
          && Windowed(ItemsOf(data.boundChanges.value, ChangeItem), ChangeLeq, r.value.boundChanges)
          && Windowed(ItemsOf(data.rateChanges.value, ChangeItem), ChangeLeq, r.value.rateChanges))
  }

  /** The four lists of a window for each feed, or the first thing wrong with them. */
  method ParseWindow(data: WindowData) returns (r: Result<Findings, WindowError>)
    ensures Parsed(data, r)
  {
    hide Grouped, Windowed, Firsts, RoundItems, ItemsOf, AllDated, SortLists, RoundLeq, ChangeLeq;
    if data.overBound == None {
      return Err(Missing("overBound"));
    }
    var rounds := GroupFirsts(Merged(data.overBound.value, data.unchecked));
    if rounds == None {
      return Err(NoBlock("overBound"));
    }
    if data.unknown == None {
      return Err(Missing("unknown"));
    }
    var others := GroupRows(ItemsOf(data.unknown.value, UnknownItem));
    if others == None {
      return Err(NoBlock("unknown"));
    }
    if data.boundChanges == None {
      return Err(Missing("boundChanges"));
    }
    var bounds := GroupRows(ItemsOf(data.boundChanges.value, ChangeItem));
    if bounds == None {
      return Err(NoBlock("boundChanges"));
    }
    if data.rateChanges == None {
      return Err(Missing("rateChanges"));
    }
    var rates := GroupRows(ItemsOf(data.rateChanges.value, ChangeItem));
    if rates == None {
      return Err(NoBlock("rateChanges"));
    }
    SortedLists(RoundItems(Firsts(Merged(data.overBound.value, data.unchecked))), rounds.value, RoundLeq);
    SortedLists(ItemsOf(data.unknown.value, UnknownItem), others.value, RoundLeq);
    SortedLists(ItemsOf(data.boundChanges.value, ChangeItem), bounds.value, ChangeLeq);
    SortedLists(ItemsOf(data.rateChanges.value, ChangeItem), rates.value, ChangeLeq);
    r := Ok(Findings(SortLists(rounds.value, RoundLeq), SortLists(others.value, RoundLeq),
                     SortLists(bounds.value, ChangeLeq), SortLists(rates.value, ChangeLeq)));
  }

  // ------------------------------------------------------------------
  // What a window keeps
  // ------------------------------------------------------------------

  /** The lists of the kept rows, by feed. */
  ghost predicate ListsOf(kept: seq<RawRound>, lists: map<string, seq<Round>>) {
    Windowed(RoundItems(kept), RoundLeq, lists)
  }

  /** The unchecked rounds of a window. */
  ghost predicate IsWindow(rows: seq<RawRound>, lists: map<string, seq<Round>>) {
    ListsOf(Firsts(rows), lists)
  }

  ghost predicate KeysDistinct(kept: seq<RawRound>) {
    forall i, j :: 0 <= i < j < |kept| ==> KeyOf(kept[i]) != KeyOf(kept[j])
  }

  /** Each key is kept once. */
  lemma {:induction false} FirstsOnce(rows: seq<RawRound>)
    ensures KeysDistinct(Firsts(rows))
  {
    hide KeyOf;
    if rows != [] {
      FirstsOnce(rows[..|rows| - 1]);
    }
  }

  lemma SameKeySameRow(kept: seq<RawRound>, a: RawRound, b: RawRound)
    requires KeysDistinct(kept) && a in kept && b in kept && KeyOf(a) == KeyOf(b)
    ensures a == b
  {
    hide KeyOf;
    var i :| 0 <= i < |kept| && kept[i] == a;
    var j :| 0 <= j < |kept| && kept[j] == b;
  }

  lemma KeptOf(rows: seq<RawRound>, r: RawRound) returns (k: RawRound)
    requires r in rows
    ensures k in Firsts(rows) && k in rows && KeyOf(k) == KeyOf(r)
  {
    hide Firsts, KeyOf;
    assert HasKey(Firsts(rows), KeyOf(r));
    k :| k in Firsts(rows) && KeyOf(k) == KeyOf(r);
  }

  /** Of the merged rows each key is kept once, and a key of an over-bound row by an
      over-bound row: the one that the over-bound rows alone would keep. */
  lemma OverBoundFirst(overBound: seq<RawRound>, unchecked: Option<seq<RawRound>>, r: RawRound)
    requires r in Firsts(Merged(overBound, unchecked)) && HasKey(overBound, KeyOf(r))
    ensures r in Firsts(overBound) && r in overBound
  {
    hide Firsts, KeyOf;
    var rows := Merged(overBound, unchecked);
    FirstsGrow(overBound, rows);
    FirstsOnce(rows);
    var o :| o in overBound && KeyOf(o) == KeyOf(r);
    var k := KeptOf(overBound, o);
    assert k in Firsts(rows);
    SameKeySameRow(Firsts(rows), k, r);
  }

  /** A list holds what the rows of its feed become, and nothing else. */
  lemma {:induction false} ListedExact<T(!new)>(items: seq<Item<T>>, feed: string, x: T)
    ensures x in Listed(items, feed) <==> Item(feed, Some(x)) in items
  {
    if items != [] {
      var init, last := items[..|items| - 1], items[|items| - 1];
      ListedExact(init, feed, x);
      assert items == init + [last];
    }
  }

  lemma WindowHas<T(!new)>(items: seq<Item<T>>, leq: (T, T) -> bool, lists: map<string, seq<T>>, feed: string, x: T)
    requires Windowed(items, leq, lists)
    ensures feed in lists && x in lists[feed] <==> Item(feed, Some(x)) in items
  {
    hide Listed, HasFeed;
    assert WindowedAt(items, leq, lists, feed);
    ListedExact(items, feed, x);
    var listed := Listed(items, feed);
    assert x in listed <==> x in multiset(listed);
    if feed in lists {
      assert x in lists[feed] <==> x in multiset(lists[feed]);
    } else {
      NoFeedNoRows(items, feed);
    }
  }

  lemma ItemIn(kept: seq<RawRound>, feed: string, round: Round)
    ensures Item(feed, Some(round)) in RoundItems(kept)
        <==> exists r :: r in kept && FeedOf(r) == feed && RoundOf(r) == Some(round)
  {
    hide FeedOf, RoundOf;
    if Item(feed, Some(round)) in RoundItems(kept) {
      var i :| 0 <= i < |kept| && RoundItems(kept)[i] == Item(feed, Some(round));
      assert kept[i] in kept;
    }
    if r :| r in kept && FeedOf(r) == feed && RoundOf(r) == Some(round) {
      var i :| 0 <= i < |kept| && kept[i] == r;
      assert RoundItems(kept)[i] == Item(feed, Some(round));
    }
  }

  /** A feed lists exactly the rounds of its kept rows. */
  lemma WindowExact(kept: seq<RawRound>, lists: map<string, seq<Round>>, feed: string, round: Round)
    requires ListsOf(kept, lists)
    ensures feed in lists && round in lists[feed]
        <==> exists r :: r in kept && FeedOf(r) == feed && RoundOf(r) == Some(round)
  {
    hide FeedOf, RoundOf, RoundLeq, RoundItems, Windowed;
    WindowHas(RoundItems(kept), RoundLeq, lists, feed, round);
    ItemIn(kept, feed, round);
  }

  /** The feed of a row lists a round of the row's transaction and round id. */
  ghost predicate InWindow(lists: map<string, seq<Round>>, r: RawRound) {
    FeedOf(r) in lists && exists round :: round in lists[FeedOf(r)] && RoundKey(round) == KeyOf(r)
  }

  function RoundKey(round: Round): (string, string) {
    (Lower(round.tx), round.roundId)
  }

  lemma RoundKeeps(r: RawRound)
    ensures RoundOf(r).Some? ==> RoundKey(RoundOf(r).value) == KeyOf(r)
  {}

  lemma KeptDated(kept: seq<RawRound>, lists: map<string, seq<Round>>, k: RawRound)
    requires ListsOf(kept, lists) && k in kept
    ensures RoundOf(k).Some?
  {
    hide RoundOf, FeedOf;
    var i :| 0 <= i < |kept| && kept[i] == k;
    assert RoundItems(kept)[i] == RoundItem(k);
  }

  lemma InWindowKept(rows: seq<RawRound>, lists: map<string, seq<Round>>, r: RawRound)
    requires IsWindow(rows, lists)
    ensures InWindow(lists, r) <==> exists k :: k in Firsts(rows) && KeyOf(k) == KeyOf(r) && FeedOf(k) == FeedOf(r)
  {
    hide Firsts, KeyOf, FeedOf, RoundOf, RoundKey, ListsOf;
    if InWindow(lists, r) {
      var round :| round in lists[FeedOf(r)] && RoundKey(round) == KeyOf(r);
      WindowExact(Firsts(rows), lists, FeedOf(r), round);
      var k :| k in Firsts(rows) && FeedOf(k) == FeedOf(r) && RoundOf(k) == Some(round);
      RoundKeeps(k);
    }
    if k :| k in Firsts(rows) && KeyOf(k) == KeyOf(r) && FeedOf(k) == FeedOf(r) {
      KeptDated(Firsts(rows), lists, k);
      WindowExact(Firsts(rows), lists, FeedOf(r), RoundOf(k).value);
      RoundKeeps(k);
    }
  }

  /** No two feeds of the rows share a transaction and round id. */
  ghost predicate FeedsApart(rows: seq<RawRound>) {
    forall a, b :: a in rows && b in rows && KeyOf(a) == KeyOf(b) ==> FeedOf(a) == FeedOf(b)
  }

  /** Every row is listed under its feed exactly when no two feeds share a
      transaction and round id. */
  lemma WindowComplete(rows: seq<RawRound>, lists: map<string, seq<Round>>)
    requires IsWindow(rows, lists)
    ensures (forall r :: r in rows ==> InWindow(lists, r)) <==> FeedsApart(rows)
  {
    hide Firsts, KeyOf, FeedOf, IsWindow, InWindow;
    if FeedsApart(rows) {
      forall r | r in rows
        ensures InWindow(lists, r)
      {
        var k := KeptOf(rows, r);
        InWindowKept(rows, lists, r);
      }
    }
    if forall r :: r in rows ==> InWindow(lists, r) {
      forall a, b | a in rows && b in rows && KeyOf(a) == KeyOf(b)
        ensures FeedOf(a) == FeedOf(b)
      {
        var k := KeptOf(rows, a);
        if FeedOf(a) != FeedOf(k) {
          SharedKeyLoses(rows, lists, k, a);
        }
        if FeedOf(b) != FeedOf(k) {
          SharedKeyLoses(rows, lists, k, b);
        }
      }
    }
  }

  /** A row whose key is kept by a row of another feed is in no list. */
  lemma SharedKeyLoses(rows: seq<RawRound>, lists: map<string, seq<Round>>, k: RawRound, r: RawRound)
    requires IsWindow(rows, lists) && k in Firsts(rows) && KeyOf(k) == KeyOf(r) && FeedOf(k) != FeedOf(r)
    ensures !InWindow(lists, r)
  {
    hide Firsts, KeyOf, FeedOf, IsWindow, InWindow;
    InWindowKept(rows, lists, r);
    FirstsOnce(rows);
    if InWindow(lists, r) {
      var l :| l in Firsts(rows) && KeyOf(l) == KeyOf(r) && FeedOf(l) == FeedOf(r);
      SameKeySameRow(Firsts(rows), k, l);
    }
  }

  // ------------------------------------------------------------------
  // What is read of a row
  // ------------------------------------------------------------------

  /** The same transaction, in any letter case, and the same round id; the feed takes no
      part. */
  predicate SameRound(a: RawRound, b: RawRound) {
    && Lower(OrEmpty(a.tx)) == Lower(OrEmpty(b.tx))
    && OrEmpty(a.roundId) == OrEmpty(b.roundId)
  }

  /** No row before row i is of the same transaction and round id. */
  predicate FirstOfRound(rows: seq<RawRound>, i: nat)
    requires i < |rows|
  {
    forall j :: 0 <= j < i ==> !SameRound(rows[j], rows[i])
  }

  /** An i64 as the u64 of the same bits. */
  predicate Rereads(block: int, n: nat) {
    && (0 <= block < 0x8000_0000_0000_0000 ==> n == block)
    && (-0x8000_0000_0000_0000 <= block < 0 ==> n == block + 0x1_0000_0000_0000_0000)
  }

  /** The row is this round of the feed. */
  predicate ReadsRound(r: RawRound, feed: string, x: Round) {
    && feed == Lower(OrEmpty(r.feedId)) && x.roundId == OrEmpty(r.roundId) && x.tx == OrEmpty(r.tx)
    && x.rest == r.rest && r.block.Some? && x.block == AsU64(r.block.value)
  }

  predicate ReadsChange(c: RawChange, feed: string, x: Change) {
    && feed == Lower(OrEmpty(c.feedId)) && x.tx == OrEmpty(c.tx) && x.rest == c.rest
    && c.block.Some? && x.block == AsU64(c.block.value)
  }

  lemma BlocksReread(block: int)
    ensures Rereads(block, AsU64(block))
  {}

  lemma {:induction false} FirstsAre(rows: seq<RawRound>, r: RawRound)
    ensures r in Firsts(rows) <==> exists i :: 0 <= i < |rows| && rows[i] == r && FirstOfRound(rows, i)
  {
    hide HasKey, KeyOf, SameRound;
    if rows != [] {
      var n := |rows| - 1;
      var init := rows[..n];
      FirstsAre(init, r);
      assert rows == init + [rows[n]];
      assert forall i :: 0 <= i < n ==> init[i] == rows[i] && (FirstOfRound(init, i) <==> FirstOfRound(rows, i));
      FirstOrSeen(rows);
    }
  }

  lemma FirstOrSeen(rows: seq<RawRound>)
    requires rows != []
    ensures var n := |rows| - 1;
            FirstOfRound(rows, n) <==> !HasKey(Firsts(rows[..n]), KeyOf(rows[n]))
  {
    hide Firsts;
    var n := |rows| - 1;
    KeysKept(rows[..n], KeyOf(rows[n]));
    assert forall j :: 0 <= j < n ==> (SameRound(rows[j], rows[n]) <==> KeyOf(rows[..n][j]) == KeyOf(rows[n]));
  }

  lemma KeysKept(rows: seq<RawRound>, key: (string, string))
    ensures HasKey(Firsts(rows), key) <==> HasKey(rows, key)
  {
    hide KeyOf, Firsts;
    if i :| 0 <= i < |rows| && KeyOf(rows[i]) == key {
      assert rows[i] in rows;
    }
    if i :| 0 <= i < |Firsts(rows)| && KeyOf(Firsts(rows)[i]) == key {
      var r := Firsts(rows)[i];
      assert r in Firsts(rows);
      var j :| 0 <= j < |rows| && rows[j] == r;
    }
  }

  /** A feed's unchecked rounds are exactly the first rows of their transaction and round
      id, among the over-bound rows and then the others, that have the feed's id. */
  lemma UncheckedExact(data: WindowData, r: Result<Findings, WindowError>, feed: string, x: Round)
    requires Parsed(data, r) && r.Ok?
    ensures var rows := Merged(data.overBound.value, data.unchecked);
            feed in r.value.unchecked && x in r.value.unchecked[feed]
            <==> exists i :: 0 <= i < |rows| && FirstOfRound(rows, i) && ReadsRound(rows[i], feed, x)
  {
    hide Firsts, RoundItems, Windowed, FirstOfRound;
    var rows := Merged(data.overBound.value, data.unchecked);
    WindowExact(Firsts(rows), r.value.unchecked, feed, x);
    assert forall k: RawRound :: FeedOf(k) == feed && RoundOf(k) == Some(x) <==> ReadsRound(k, feed, x);
    if k :| k in Firsts(rows) && FeedOf(k) == feed && RoundOf(k) == Some(x) {
      FirstsAre(rows, k);
    }
    if i :| 0 <= i < |rows| && FirstOfRound(rows, i) && ReadsRound(rows[i], feed, x) {
      FirstsAre(rows, rows[i]);
    }
  }

  /** A feed's unknown rounds are exactly the rows with its id, without their other fields;
      its bound changes and rate changes exactly the rows with its id. */
  lemma OthersExact(data: WindowData, r: Result<Findings, WindowError>, feed: string, x: Round, c: Change)
    requires Parsed(data, r) && r.Ok?
    ensures feed in r.value.unknown && x in r.value.unknown[feed]
        <==> exists i :: 0 <= i < |data.unknown.value| && ReadsRound(data.unknown.value[i].(rest := ""), feed, x)
    ensures feed in r.value.boundChanges && c in r.value.boundChanges[feed]
        <==> exists i :: 0 <= i < |data.boundChanges.value| && ReadsChange(data.boundChanges.value[i], feed, c)
    ensures feed in r.value.rateChanges && c in r.value.rateChanges[feed]
        <==> exists i :: 0 <= i < |data.rateChanges.value| && ReadsChange(data.rateChanges.value[i], feed, c)
  {
    hide Windowed, Firsts, RoundItems, Lower;
    var found := r.value;
    WindowHas(ItemsOf(data.unknown.value, UnknownItem), RoundLeq, found.unknown, feed, x);
    WindowHas(ItemsOf(data.boundChanges.value, ChangeItem), ChangeLeq, found.boundChanges, feed, c);
    WindowHas(ItemsOf(data.rateChanges.value, ChangeItem), ChangeLeq, found.rateChanges, feed, c);
    ItemAmong(data.unknown.value, UnknownItem, Item(feed, Some(x)));
    ItemAmong(data.boundChanges.value, ChangeItem, Item(feed, Some(c)));
    ItemAmong(data.rateChanges.value, ChangeItem, Item(feed, Some(c)));
    assert forall k: RawRound :: UnknownItem(k) == Item(feed, Some(x)) <==> ReadsRound(k.(rest := ""), feed, x);
    assert forall k: RawChange :: ChangeItem(k) == Item(feed, Some(c)) <==> ReadsChange(k, feed, c);
  }

  lemma ItemAmong<S, T(!new)>(rows: seq<S>, item: S -> Item<T>, wanted: Item<T>)
    ensures wanted in ItemsOf(rows, item) <==> exists i :: 0 <= i < |rows| && item(rows[i]) == wanted
  {
    if i :| 0 <= i < |rows| && item(rows[i]) == wanted {
      assert ItemsOf(rows, item)[i] == wanted;
    }
  }

  // ------------------------------------------------------------------
  // Order
  // ------------------------------------------------------------------

  lemma RoundOrder()
    ensures TotalPreorder(RoundLeq)
  {
    hide LexLeq;
    forall x, y
      ensures RoundLeq(x, y) || RoundLeq(y, x)
    {
      LexTotal(x.roundId, y.roundId);
    }
    forall x, y, z | RoundLeq(x, y) && RoundLeq(y, z)
      ensures RoundLeq(x, z)
    {
      if x.block == y.block == z.block {
        LexTransitive(x.roundId, y.roundId, z.roundId);
      }
    }
  }

  lemma ChangeOrder()
    ensures TotalPreorder(ChangeLeq)
  {
    hide LexLeq;
    forall x, y
      ensures ChangeLeq(x, y) || ChangeLeq(y, x)
    {
      LexTotal(x.tx, y.tx);
    }
    forall x, y, z | ChangeLeq(x, y) && ChangeLeq(y, z)
      ensures ChangeLeq(x, z)
    {
      if x.block == y.block == z.block {
        LexTransitive(x.tx, y.tx, z.tx);
      }
    }
  }

  /** Each feed's list is in order. */
  lemma WindowSorted<T(!new)>(items: seq<Item<T>>, leq: (T, T) -> bool, lists: map<string, seq<T>>, feed: string)
    requires TotalPreorder(leq) && Windowed(items, leq, lists) && feed in lists
    ensures Sorted(lists[feed], leq)
  {
    hide HasFeed, AllDated, Listed, TotalPreorder, Sorted;
    assert WindowedAt(items, leq, lists, feed);
    SortSorted(Listed(items, feed), leq);
  }

  /** In an opened window the rounds of a feed rise by block and then by round id, its
      changes by block and then by transaction. */
  lemma WindowRises(data: WindowData, r: Result<Findings, WindowError>, feed: string)
    requires Parsed(data, r) && r.Ok?
    ensures feed in r.value.unchecked ==> RoundsRise(r.value.unchecked[feed])
    ensures feed in r.value.unknown ==> RoundsRise(r.value.unknown[feed])
    ensures feed in r.value.boundChanges ==> ChangesRise(r.value.boundChanges[feed])
    ensures feed in r.value.rateChanges ==> ChangesRise(r.value.rateChanges[feed])
  {
    hide Windowed, TotalPreorder, LexLeq;
    RoundOrder();
    ChangeOrder();
    if feed in r.value.unchecked {
      WindowSorted(RoundItems(Firsts(Merged(data.overBound.value, data.unchecked))), RoundLeq, r.value.unchecked, feed);
    }
    if feed in r.value.unknown {
      WindowSorted(ItemsOf(data.unknown.value, UnknownItem), RoundLeq, r.value.unknown, feed);
    }
    if feed in r.value.boundChanges {
      WindowSorted(ItemsOf(data.boundChanges.value, ChangeItem), ChangeLeq, r.value.boundChanges, feed);
    }
    if feed in r.value.rateChanges {
      WindowSorted(ItemsOf(data.rateChanges.value, ChangeItem), ChangeLeq, r.value.rateChanges, feed);
    }
  }

  predicate RoundsRise(rounds: seq<Round>) {
    forall i, j :: 0 <= i < j < |rounds|
      ==> && rounds[i].block <= rounds[j].block
          && (rounds[i].block == rounds[j].block ==> LexLeq(rounds[i].roundId, rounds[j].roundId))
  }

  predicate ChangesRise(changes: seq<Change>) {
    forall i, j :: 0 <= i < j < |changes|
      ==> && changes[i].block <= changes[j].block
          && (changes[i].block == changes[j].block ==> LexLeq(changes[i].tx, changes[j].tx))
  }
}
