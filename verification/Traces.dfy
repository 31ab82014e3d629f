/**
 The two trace formats a node may answer with: a flat list in call order with
 trace addresses, and a tree of calls.  The setter calls to a target and the
 deepest call to a feed are read from either.
 */
module Traces {
  import opened Prelude
  import opened Text
  import opened Calldata

  /** The fields of a traced call, each of which may be missing. */
  datatype Action = Action(to: Option<string>, input: Option<string>, from: Option<string>)

  datatype Item = Item(action: Option<Action>, traceAddress: Option<seq<nat>>)

  datatype CallNode = CallNode(action: Action, calls: seq<CallNode>)

  datatype Trace = Flat(items: seq<Item>) | Tree(root: CallNode)

  /** A posting call found in a trace: selector, calldata, caller. */
  datatype ResolvedCall = ResolvedCall(selector: string, input: string, from: string)

  const NO_ACTION: Action := Action(None, None, None)

  // ------------------------------------------------------------------
  // Setter calls
  // ------------------------------------------------------------------

  /** The call, when it goes to the target and is a setter keyed to the feed. */
  function Considered(action: Action, target: string, isSetter: string -> bool): seq<ResolvedCall> {
    if action.to == None || action.input == None
       || Lower(action.to.value) != target || !isSetter(action.input.value) then []
    else [ResolvedCall(SelectorOf(action.input.value), action.input.value, Lower(OrEmpty(action.from)))]
  }

  function FlatSetters(items: seq<Item>, target: string, isSetter: string -> bool): seq<ResolvedCall> {
    if items == [] then []
    else
      FlatSetters(items[..|items| - 1], target, isSetter)
      + Considered(ActionOf(items[|items| - 1]), target, isSetter)
  }

  /** A missing action reads as one without fields. */
  function ActionOf(item: Item): Action {
    if item.action.Some? then item.action.value else NO_ACTION
  }

  function TreeSetters(node: CallNode, target: string, isSetter: string -> bool): seq<ResolvedCall>
    decreases node, 0
  {
    Considered(node.action, target, isSetter) + ForestSetters(node.calls, target, isSetter)
  }

  function ForestSetters(nodes: seq<CallNode>, target: string, isSetter: string -> bool): seq<ResolvedCall>
    decreases nodes, 1
  {
    if nodes == [] then []
    else
      ForestSetters(nodes[..|nodes| - 1], target, isSetter) + TreeSetters(nodes[|nodes| - 1], target, isSetter)
  }

  function SettersSpec(trace: Trace, target: string, isSetter: string -> bool): seq<ResolvedCall> {
    match trace
    case Flat(items) => FlatSetters(items, Lower(target), isSetter)
    case Tree(root) => TreeSetters(root, Lower(target), isSetter)
  }

  predicate Increasing(ks: seq<nat>) {
    forall i, j :: 0 <= i < j < |ks| ==> ks[i] < ks[j]
  }

  /** The item is a call to the target, in any letter case, with calldata. */
  predicate IsCallTo(item: Item, target: string) {
    && item.action.Some? && item.action.value.to.Some? && item.action.value.input.Some?
    && Lower(item.action.value.to.value) == Lower(target)
  }

  predicate Passes(item: Item, target: string, isSetter: string -> bool) {
    IsCallTo(item, target) && isSetter(item.action.value.input.value)
  }

  /** The call as it is reported: the first ten characters of its calldata in lowercase,
      its calldata, its caller in lowercase. */
  predicate CallsWith(item: Item, target: string, c: ResolvedCall) {
    && IsCallTo(item, target) && c.input == item.action.value.input.value
    && Reports(item.action.value, c)
  }

  predicate Reports(action: Action, c: ResolvedCall) {
    && action.input == Some(c.input)
    && c.selector == (if |c.input| >= 10 then Lower(c.input[..10]) else "")
    && c.from == (if action.from.Some? then Lower(action.from.value) else "")
  }

  /** The setter calls of a list are exactly its calls to the target that pass the test,
      in order: `ks` are their places. */
  lemma {:induction false} SettersExact(items: seq<Item>, target: string, isSetter: string -> bool)
    returns (ks: seq<nat>)
    ensures Increasing(ks) && |SettersSpec(Flat(items), target, isSetter)| == |ks|
    ensures forall j :: 0 <= j < |ks| ==>
      && ks[j] < |items| && CallsWith(items[ks[j]], target, SettersSpec(Flat(items), target, isSetter)[j])
    ensures forall k :: 0 <= k < |items| ==>
      (k in ks <==> Passes(items[k], target, isSetter))
  {
    hide SelectorOf, Lower, CallsWith, Passes, Considered;
    ks := [];
    if items != [] {
      var n := |items| - 1;
      var init := items[..n];
      var before := SettersExact(init, target, isSetter);
      LastSetter(items[n], target, isSetter);
      ks := before + if Considered(ActionOf(items[n]), Lower(target), isSetter) == [] then [] else [n];
      forall k | 0 <= k < |items|
        ensures k in ks <==> Passes(items[k], target, isSetter)
      {
        if k < n {
          assert init[k] == items[k];
        } else {
          assert n !in before;
        }
      }
    }
  }

  lemma LastSetter(item: Item, target: string, isSetter: string -> bool)
    ensures var out := Considered(ActionOf(item), Lower(target), isSetter);
            && |out| <= 1 && (out != [] <==> Passes(item, target, isSetter))
            && (out != [] ==> CallsWith(item, target, out[0]))
  {}

  /** The tree walk, appending to the calls found so far. */
  method WalkSetters(node: CallNode, target: string, isSetter: string -> bool, found: seq<ResolvedCall>)
    returns (out: seq<ResolvedCall>)
    ensures out == found + TreeSetters(node, target, isSetter)
    decreases node
  {
    hide Considered;
    out := found + Considered(node.action, target, isSetter);
    ghost var start := out;
    for i := 0 to |node.calls|
      invariant out == start + ForestSetters(node.calls[..i], target, isSetter)
    {
      assert node.calls[..i + 1][..i] == node.calls[..i];
      out := WalkSetters(node.calls[i], target, isSetter, out);
    }
    assert node.calls[..|node.calls|] == node.calls;
  }

  method SetterCallsTo(trace: Trace, target: string, isSetter: string -> bool) returns (out: seq<ResolvedCall>)
    ensures out == SettersSpec(trace, target, isSetter)
  {
    hide Considered;
    var lowered := Lower(target);
    match trace
    case Flat(items) =>
      out := [];
      for i := 0 to |items|
        invariant out == FlatSetters(items[..i], lowered, isSetter)
      {
        assert items[..i + 1][..i] == items[..i];
        out := out + Considered(ActionOf(items[i]), lowered, isSetter);
      }
      assert items[..|items|] == items;
    case Tree(root) =>
      out := WalkSetters(root, lowered, isSetter, []);
  }

  // ------------------------------------------------------------------
  // The deepest call
  // ------------------------------------------------------------------

  /** A call that matched the feed, and its depth. */
  datatype Match = Match(depth: nat, action: Action)

  function Better(best: Option<Match>, next: Match): Option<Match> {
    if best == None || next.depth > best.value.depth then Some(next) else best
  }

  predicate FlatMatches(item: Item, feed: string) {
    item.action.Some? && Lower(OrEmpty(item.action.value.to)) == feed
  }

  function FlatDepth(item: Item): nat {
    if item.traceAddress.Some? then |item.traceAddress.value| else 0
  }

  /** The best match among the items, folded in order. */
  function FlatBest(items: seq<Item>, feed: string): Option<Match> {
    if items == [] then None
    else
      var last := items[|items| - 1];
      var best := FlatBest(items[..|items| - 1], feed);
      if FlatMatches(last, feed) then Better(best, Match(FlatDepth(last), ActionOf(last))) else best
  }

  predicate TreeMatches(node: CallNode, feed: string) {
    node.action.to.Some? && Lower(node.action.to.value) == feed
  }

  function TreeBest(node: CallNode, feed: string, depth: nat, best: Option<Match>): Option<Match>
    decreases node, 0
  {
    ForestBest(node.calls, feed, depth + 1,
               if TreeMatches(node, feed) then Better(best, Match(depth, node.action)) else best)
  }

  function ForestBest(nodes: seq<CallNode>, feed: string, depth: nat, best: Option<Match>): Option<Match>
    decreases nodes, 1
  {
    if nodes == [] then best
    else TreeBest(nodes[|nodes| - 1], feed, depth, ForestBest(nodes[..|nodes| - 1], feed, depth, best))
  }

  /** The call behind a match, when it has calldata. */
  function Resolved(best: Option<Match>): Option<ResolvedCall> {
    var m :- best;
    var input :- m.action.input;
    Some(ResolvedCall(SelectorOf(input), input, Lower(OrEmpty(m.action.from))))
  }

  predicate AllActions(items: seq<Item>) {
    forall i :: 0 <= i < |items| ==> items[i].action.Some?
  }

  function DeepestSpec(trace: Trace, feed: string): Option<ResolvedCall> {
    match trace
    case Flat(items) => if AllActions(items) then Resolved(FlatBest(items, Lower(feed))) else None
    case Tree(root) => Resolved(TreeBest(root, Lower(feed), 0, None))
  }

  method WalkDeepest(node: CallNode, feed: string, depth: nat, before: Option<Match>) returns (best: Option<Match>)
    ensures best == TreeBest(node, feed, depth, before)
    decreases node
  {
    best := before;
    if TreeMatches(node, feed) && (best == None || depth > best.value.depth) {
      best := Some(Match(depth, node.action));
    }
    ghost var start := best;
    for i := 0 to |node.calls|
      invariant best == ForestBest(node.calls[..i], feed, depth + 1, start)
    {
      assert node.calls[..i + 1][..i] == node.calls[..i];
      best := WalkDeepest(node.calls[i], feed, depth + 1, best);
    }
    assert node.calls[..|node.calls|] == node.calls;
  }

  method DeepestCallTo(trace: Trace, feed: string) returns (r: Option<ResolvedCall>)
    ensures r == DeepestSpec(trace, feed)
  {
    var lowered := Lower(feed);
    match trace
    case Flat(items) =>
      var best: Option<Match> := None;
      for i := 0 to |items|
        invariant AllActions(items[..i]) && best == FlatBest(items[..i], lowered)
      {
        var item := items[i];
        assert items[..i + 1][..i] == items[..i];
        if item.action == None {
          return None;
        }
        if Lower(OrEmpty(item.action.value.to)) == lowered {
          var depth := FlatDepth(item);
          if best == None || depth > best.value.depth {
            best := Some(Match(depth, item.action.value));
          }
        }
      }
      assert items[..|items|] == items;
      r := Resolved(best);
    case Tree(root) =>
      var best := WalkDeepest(root, lowered, 0, None);
      r := Resolved(best);
  }

  /** Item k matches, none matches deeper, and none as deep comes before it. */
  predicate FirstDeepest(items: seq<Item>, feed: string, k: nat) {
    && k < |items| && FlatMatches(items[k], feed)
    && (forall i :: 0 <= i < |items| && FlatMatches(items[i], feed) ==>
          if i < k then FlatDepth(items[i]) < FlatDepth(items[k]) else FlatDepth(items[i]) <= FlatDepth(items[k]))
  }

  /** A list has a best match exactly when something in it matches, and that
      match is the first among the equally deepest. */
  lemma {:induction false} BestIsFirstDeepest(items: seq<Item>, feed: string) returns (k: nat)
    ensures FlatBest(items, feed) == None <==> forall i :: 0 <= i < |items| ==> !FlatMatches(items[i], feed)
    ensures FlatBest(items, feed).Some? ==> FirstDeepest(items, feed, k)
    ensures FlatBest(items, feed).Some? ==>
      FlatBest(items, feed).value == Match(FlatDepth(items[k]), ActionOf(items[k]))
  {
    hide FlatMatches, FlatDepth, ActionOf;
    k := 0;
    if items != [] {
      var n := |items| - 1;
      var init := items[..n];
      k := BestIsFirstDeepest(init, feed);
      assert forall i :: 0 <= i < n ==> init[i] == items[i];
      if FlatMatches(items[n], feed) && (FlatBest(init, feed) == None || FlatDepth(items[n]) > FlatDepth(items[k])) {
        k := n;
      }
    }
  }

  /** The item is a call to the feed, in any letter case; a call without an address counts
      as one to the empty address. */
  predicate ReachesFeed(item: Item, feed: string) {
    && item.action.Some?
    && Lower(feed) == (if item.action.value.to.Some? then Lower(item.action.value.to.value) else "")
  }

  /** Where an item is in the tree of calls: the length of its address, 0 without one. */
  predicate AtDepth(item: Item, depth: nat) {
    match item.traceAddress
    case Some(path) => depth == |path|
    case None => depth == 0
  }

  /** Item k is the first of the deepest calls to the feed. */
  ghost predicate DeepestAt(items: seq<Item>, feed: string, k: nat) {
    && k < |items| && ReachesFeed(items[k], feed)
    && forall i, d, e :: 0 <= i < |items| && ReachesFeed(items[i], feed) && AtDepth(items[i], d) && AtDepth(items[k], e)
         ==> d < e || (d == e && k <= i)
  }

  /** The deepest call of a list is reported exactly when every item has an action, some
      item is a call to the feed, and the first of the deepest has calldata. */
  lemma DeepestExact(items: seq<Item>, feed: string) returns (k: nat)
    ensures DeepestSpec(Flat(items), feed).Some?
        <==> && (forall i :: 0 <= i < |items| ==> items[i].action.Some?)
             && DeepestAt(items, feed, k) && items[k].action.value.input.Some?
    ensures (exists i :: 0 <= i < |items| && ReachesFeed(items[i], feed)) ==> DeepestAt(items, feed, k)
    ensures DeepestSpec(Flat(items), feed).Some?
        ==> Reports(items[k].action.value, DeepestSpec(Flat(items), feed).value)
  {
    hide Lower, SelectorOf;
    LowerNothing();
    k := BestIsFirstDeepest(items, Lower(feed));
    assert forall i :: 0 <= i < |items| ==> (FlatMatches(items[i], Lower(feed)) <==> ReachesFeed(items[i], feed));
    assert forall i :: 0 <= i < |items| ==> AtDepth(items[i], FlatDepth(items[i]));
    if FlatBest(items, Lower(feed)).Some? {
      assert DeepestAt(items, feed, k);
      if items[k].action.value.input.Some? {
        CallReported(items[k].action.value);
      }
    }
  }

  lemma LowerNothing()
    ensures Lower("") == ""
  {}

  lemma CallReported(action: Action)
    requires action.input.Some?
    ensures var input := action.input.value;
            Reports(action, ResolvedCall(SelectorOf(input), input, Lower(OrEmpty(action.from))))
  {}

  // ------------------------------------------------------------------
  // The formats agree
  // ------------------------------------------------------------------

  /** The flat list of a call tree: preorder, each call with its path. */
  function Flatten(node: CallNode, path: seq<nat>): seq<Item>
    decreases node, 0
  {
    [Item(Some(node.action), Some(path))] + FlattenForest(node.calls, path)
  }

  function FlattenForest(nodes: seq<CallNode>, path: seq<nat>): seq<Item>
    decreases nodes, 1
  {
    if nodes == [] then []
    else FlattenForest(nodes[..|nodes| - 1], path) + Flatten(nodes[|nodes| - 1], path + [|nodes| - 1])
  }

  lemma {:induction false} FlatSettersConcat(s: seq<Item>, t: seq<Item>, target: string, isSetter: string -> bool)
    ensures FlatSetters(s + t, target, isSetter) == FlatSetters(s, target, isSetter) + FlatSetters(t, target, isSetter)
  {
    hide Considered, ActionOf;
    if t == [] {
      assert s + t == s;
    } else {
      var n := |t| - 1;
      FlatSettersConcat(s, t[..n], target, isSetter);
      assert (s + t)[..|s + t| - 1] == s + t[..n];
    }
  }

  lemma {:induction false} SettersOfTree(node: CallNode, path: seq<nat>, target: string, isSetter: string -> bool)
    ensures FlatSetters(Flatten(node, path), target, isSetter) == TreeSetters(node, target, isSetter)
    decreases node, 0
  {
    var head := [Item(Some(node.action), Some(path))];
    FlatSettersConcat(head, FlattenForest(node.calls, path), target, isSetter);
    assert head[..0] == [];
    SettersOfForest(node.calls, path, target, isSetter);
  }

  lemma {:induction false} SettersOfForest(nodes: seq<CallNode>, path: seq<nat>, target: string,
                                           isSetter: string -> bool)
    ensures FlatSetters(FlattenForest(nodes, path), target, isSetter) == ForestSetters(nodes, target, isSetter)
    decreases nodes, 1
  {
    hide Considered, ActionOf, TreeSetters, Flatten;
    if nodes != [] {
      var n := |nodes| - 1;
      SettersOfForest(nodes[..n], path, target, isSetter);
      SettersOfTree(nodes[n], path + [n], target, isSetter);
      FlatSettersConcat(FlattenForest(nodes[..n], path), Flatten(nodes[n], path + [n]), target, isSetter);
    }
  }

  /** Both formats of one call tree give the same setter calls, in order. */
  lemma SettersAgree(root: CallNode, target: string, isSetter: string -> bool)
    ensures SettersSpec(Flat(Flatten(root, [])), target, isSetter) == SettersSpec(Tree(root), target, isSetter)
  {
    SettersOfTree(root, [], Lower(target), isSetter);
  }

  /** The fold continued from a best so far. */
  function FlatBestFrom(best: Option<Match>, items: seq<Item>, feed: string): Option<Match> {
    if items == [] then best
    else
      var last := items[|items| - 1];
      var b := FlatBestFrom(best, items[..|items| - 1], feed);
      if FlatMatches(last, feed) then Better(b, Match(FlatDepth(last), ActionOf(last))) else b
  }

  lemma {:induction false} FlatBestIsFrom(items: seq<Item>, feed: string)
    ensures FlatBest(items, feed) == FlatBestFrom(None, items, feed)
  {
    if items != [] {
      FlatBestIsFrom(items[..|items| - 1], feed);
    }
  }

  lemma {:induction false} FlatBestConcat(best: Option<Match>, s: seq<Item>, t: seq<Item>, feed: string)
    ensures FlatBestFrom(best, s + t, feed) == FlatBestFrom(FlatBestFrom(best, s, feed), t, feed)
  {
    hide FlatMatches, Better, FlatDepth;
    if t == [] {
      assert s + t == s;
    } else {
      var n := |t| - 1;
      FlatBestConcat(best, s, t[..n], feed);
      assert (s + t)[..|s + t| - 1] == s + t[..n];
    }
  }

  lemma {:induction false} BestOfTree(node: CallNode, path: seq<nat>, feed: string, best: Option<Match>)
    requires feed != ""
    ensures FlatBestFrom(best, Flatten(node, path), feed) == TreeBest(node, feed, |path|, best)
    ensures AllActions(Flatten(node, path))
    decreases node, 0
  {
    var head := [Item(Some(node.action), Some(path))];
    FlatBestConcat(best, head, FlattenForest(node.calls, path), feed);
    assert head[..0] == [];
    BestOfForest(node.calls, path, feed, FlatBestFrom(best, head, feed));
  }

  lemma {:induction false} BestOfForest(nodes: seq<CallNode>, path: seq<nat>, feed: string, best: Option<Match>)
    requires feed != ""
    ensures FlatBestFrom(best, FlattenForest(nodes, path), feed) == ForestBest(nodes, feed, |path| + 1, best)
    ensures AllActions(FlattenForest(nodes, path))
    decreases nodes, 1
  {
    hide FlatMatches, TreeMatches, Better, FlatDepth, TreeBest, Flatten;
    if nodes != [] {
      var n := |nodes| - 1;
      BestOfForest(nodes[..n], path, feed, best);
      BestOfTree(nodes[n], path + [n], feed, ForestBest(nodes[..n], feed, |path| + 1, best));
      FlatBestConcat(best, FlattenForest(nodes[..n], path), Flatten(nodes[n], path + [n]), feed);
    }
  }

  /** Both formats give the same deepest call for every call tree exactly when
      the feed is not the empty string: a call without a `to` counts as a call
      to the empty address in the flat format only. */
  lemma DeepestAgreeIff(feed: string)
    ensures feed != "" <==>
      forall root: CallNode :: DeepestSpec(Flat(Flatten(root, [])), feed) == DeepestSpec(Tree(root), feed)
  {
    if feed != "" {
      forall root: CallNode
        ensures DeepestSpec(Flat(Flatten(root, [])), feed) == DeepestSpec(Tree(root), feed)
      {
        FlatBestIsFrom(Flatten(root, []), Lower(feed));
        BestOfTree(root, [], Lower(feed), None);
      }
    } else {
      var root := CallNode(Action(None, Some(""), None), []);
      var items := Flatten(root, []);
      assert Lower(feed) == "";
      assert items == [Item(Some(root.action), Some([]))] && items[..0] == [];
      assert FlatMatches(items[0], Lower(feed)) && FlatBest(items[..0], Lower(feed)) == None;
      assert FlatBest(items, Lower(feed)) == Some(Match(0, root.action));
      assert DeepestSpec(Flat(items), feed).Some?;
      assert DeepestSpec(Tree(root), feed) == None;
    }
  }
}
