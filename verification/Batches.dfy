/**
 Batches as their senders build them, and the calls of them that attribution counts:
 what a call is counted for is said of the selector and the words it was built from.
 */
module Batches {
  import opened Prelude
  import opened Text
  import opened Abi
  import opened Calldata
  import opened SafeChain
  import opened Traces
  import opened Attribution

  /** Calldata as it is built: a selector, argument words, and less than a word more. */
  datatype Built = Built(selector: string, words: seq<string>, rest: string) {
    predicate Valid() {
      && |selector| == 8 && |rest| < 64 && |rest| % 2 == 0
      && forall i :: 0 <= i < |words| ==> |words[i]| == 64 && IsHex(words[i])
    }

    function Data(): string {
      selector + Joined(words) + rest
    }
  }

  lemma BuiltSelector(c: Built)
    requires c.Valid()
    ensures SelectorOf("0x" + c.Data()) == Lower("0x" + c.selector)
  {
    assert ("0x" + c.Data())[..10] == "0x" + c.selector;
  }

  /** The argument words are those it was built from, in lowercase. */
  lemma BuiltWord(c: Built, i: nat)
    requires c.Valid()
    ensures ArgumentWord("0x" + c.Data(), i) == if i < |c.words| then Some(Lower(c.words[i])) else None
  {
    hide Lower, HexText, HexBytes, IsHex, Joined;
    var body, args := c.Data(), Joined(c.words) + c.rest;
    assert Body("0x" + body) == body && body == c.selector + args && body[8..] == args;
    JoinedAt(c.words, i);
    if i < |c.words| {
      InFront(Joined(c.words), c.rest, 64 * i, 64 * i + 64);
      WordText(c.words[i]);
    }
  }

  lemma WordText(word: string)
    requires IsHex(word) && |word| == 64
    ensures HexText(HexBytes(word)) == Lower(word)
  {
    HexCanonical(word);
  }

  /** Its leading words are the feed's topics, in any letter case. */
  predicate StartsWith(words: seq<string>, topics: seq<string>) {
    |topics| <= |words| && forall i :: 0 <= i < |topics| ==> Lower(words[i]) == Lower(Body(topics[i]))
  }

  lemma BuiltKeyed(c: Built, topics: seq<string>)
    requires c.Valid()
    ensures IsKeyed("0x" + c.Data(), topics) <==> StartsWith(c.words, topics)
  {
    hide ArgumentWord, Lower, Body;
    forall i: nat
      ensures ArgumentWord("0x" + c.Data(), i) == if i < |c.words| then Some(Lower(c.words[i])) else None
    {
      BuiltWord(c, i);
    }
    assert ArgumentWord("0x" + c.Data(), |c.words|) == None;
  }

  /** The call sets the feed: its selector is a setter's, and its leading words are the
      feed's topics. */
  predicate Sets(m: Mechanism, topics: seq<string>, c: Built) {
    Lower("0x" + c.selector) in m.setters && StartsWith(c.words, topics)
  }

  lemma BuiltSets(m: Mechanism, topics: seq<string>, c: Built)
    requires c.Valid()
    ensures IsSetter(m, "0x" + c.Data()) <==> Lower("0x" + c.selector) in m.setters
    ensures IsSetter(m, "0x" + c.Data()) && IsKeyed("0x" + c.Data(), topics) <==> Sets(m, topics, c)
  {
    BuiltSelector(c);
    BuiltKeyed(c, topics);
    assert Lower(Lower("0x" + c.selector)) == Lower("0x" + c.selector);
  }

  /** No call sets two feeds, unless the topics of one begin with those of the other. */
  lemma FeedsApart(m: Mechanism, c: Built, topics: seq<string>, others: seq<string>)
    requires Sets(m, topics, c) && Sets(m, others, c)
    ensures forall i :: 0 <= i < |topics| && i < |others| ==> Lower(Body(topics[i])) == Lower(Body(others[i]))
  {}

  // ------------------------------------------------------------------
  // A batch sent to a relay
  // ------------------------------------------------------------------

  predicate AllValid(calls: seq<Built>) {
    forall i :: 0 <= i < |calls| ==> calls[i].Valid()
  }

  /** The calldata of the calls that set the feed, in order. */
  function Setting(m: Mechanism, topics: seq<string>, calls: seq<Built>): seq<string> {
    if calls == [] then []
    else
      var n := |calls| - 1;
      Setting(m, topics, calls[..n]) + if Sets(m, topics, calls[n]) then ["0x" + calls[n].Data()] else []
  }

  function Datas(calls: seq<Built>): (datas: seq<string>)
    ensures |datas| == |calls| && forall i :: 0 <= i < |calls| ==> datas[i] == calls[i].Data()
  {
    seq(|calls|, i requires 0 <= i < |calls| => calls[i].Data())
  }

  lemma {:induction false} SetterCallsSnoc(m: Mechanism, topics: seq<string>, calls: seq<string>, last: string)
    ensures SetterCalls(m, topics, calls + [last])
         == SetterCalls(m, topics, calls) + if IsSetter(m, last) && IsKeyed(last, topics) then [last] else []
  {
    hide IsSetter, IsKeyed, SetterCalls;
    SetterCallsCons(m, topics, last, []);
    NoCalls(m, topics, "");
    if calls == [] {
      assert [] + [last] == [last] + [];
    } else {
      var rest := calls[1..];
      SetterCallsSnoc(m, topics, rest, last);
      SetterCallsCons(m, topics, calls[0], rest);
      SetterCallsCons(m, topics, calls[0], rest + [last]);
      assert calls == [calls[0]] + rest && calls + [last] == [calls[0]] + (rest + [last]);
    }
  }

  lemma SetterCallsCons(m: Mechanism, topics: seq<string>, first: string, rest: seq<string>)
    ensures SetterCalls(m, topics, [first] + rest)
         == (if IsSetter(m, first) && IsKeyed(first, topics) then [first] else []) + SetterCalls(m, topics, rest)
  {
    hide IsSetter, IsKeyed;
    assert ([first] + rest)[1..] == rest;
  }

  lemma {:induction false} SettersAreSetting(m: Mechanism, topics: seq<string>, calls: seq<Built>)
    requires AllValid(calls)
    ensures SetterCalls(m, topics, Prefixed(Datas(calls))) == Setting(m, topics, calls)
  {
    hide IsSetter, IsKeyed, Sets;
    if calls != [] {
      var n := |calls| - 1;
      SettersAreSetting(m, topics, calls[..n]);
      BuiltSets(m, topics, calls[n]);
      SetterCallsSnoc(m, topics, Prefixed(Datas(calls[..n])), "0x" + calls[n].Data());
      assert Prefixed(Datas(calls)) == Prefixed(Datas(calls[..n])) + ["0x" + calls[n].Data()];
    }
  }

  /** The call goes to the r-th relay and to none before it. */
  predicate GoesTo(m: Mechanism, r: nat, to: string, selector: string) {
    && r < |m.relays|
    && Lower(m.relays[r].address) == Lower(to) && Lower(m.relays[r].selector) == selector
    && forall i :: 0 <= i < r ==> Lower(m.relays[i].address) != Lower(to) || Lower(m.relays[i].selector) != selector
  }

  lemma {:induction false} RelayFound(relays: seq<Relay>, r: nat, to: string, selector: string)
    requires r < |relays| && Lower(relays[r].address) == Lower(to) && Lower(relays[r].selector) == Lower(selector)
    requires forall i :: 0 <= i < r
               ==> Lower(relays[i].address) != Lower(to) || Lower(relays[i].selector) != Lower(selector)
    ensures FindRelay(relays, to, selector) == Some(relays[r])
  {
    hide Lower;
    if r > 0 {
      assert forall i :: 0 <= i < r - 1 ==> relays[1..][i] == relays[i + 1];
      RelayFound(relays[1..], r - 1, to, selector);
    }
  }

  lemma LowerTwice(s: string)
    ensures Lower(Lower(s)) == Lower(s)
  {}

  /** Of a bytes[] batch, in any layout, a relay's calls that count for a feed are exactly
      those built with a setter's selector and the feed's topics, in order. */
  lemma BytesRelay(m: Mechanism, feed: Feed, r: nat, to: string, input: string, selector: string, args: string,
                   base: nat, calls: seq<Built>)
    requires GoesTo(m, r, to, selector) && !m.relays[r].aggregate
    requires IsCall(input, selector, args) && HoldsOffset(args, m.relays[r].word, base)
    requires AllValid(calls) && WholeBytes(Datas(calls)) && HoldsArray(args, base, BytesBlobs(Datas(calls)))
    ensures RelayBatch(m, feed, to, input) == Some((m.relays[r], Setting(m, feed.topics, calls)))
  {
    hide SetterCalls, Setting, BytesArraySpec, Datas, Prefixed, HoldsArray, HoldsOffset, Lower, SelectorOf, FindRelay;
    CallParts(input, selector, args);
    LowerTwice(m.relays[r].selector);
    RelayFound(m.relays, r, to, selector);
    BytesArrayInverts(input, selector, args, m.relays[r].word, base, Datas(calls));
    SettersAreSetting(m, feed.topics, calls);
  }

  /** A call of an aggregate batch: the target it is for, and how it was built. */
  datatype Aimed = Aimed(pad: string, target: string, allowFailure: string, call: Built) {
    predicate Valid() {
      call.Valid() && Relayed().Valid()
    }

    function Relayed(): RelayedCall {
      RelayedCall(pad, target, allowFailure, call.Data())
    }
  }

  function Relayed(calls: seq<Aimed>): (relayed: seq<RelayedCall>)
    ensures |relayed| == |calls| && forall i :: 0 <= i < |calls| ==> relayed[i] == calls[i].Relayed()
  {
    seq(|calls|, i requires 0 <= i < |calls| => calls[i].Relayed())
  }

  /** The calldata of the calls for an address that set the feed, in order. */
  function SettingAt(m: Mechanism, topics: seq<string>, address: string, calls: seq<Aimed>): seq<string> {
    if calls == [] then []
    else
      var n := |calls| - 1;
      SettingAt(m, topics, address, calls[..n])
      + if Lower("0x" + calls[n].target) == Lower(address) && Sets(m, topics, calls[n].call)
        then ["0x" + calls[n].call.Data()] else []
  }

  lemma {:induction false} CallsToSnoc(calls: seq<Call>, last: Call, address: string)
    ensures CallsTo(calls + [last], address)
         == CallsTo(calls, address) + if Lower(last.to) == Lower(address) then [last.data] else []
  {
    hide Lower;
    if calls == [] {
      assert [last][1..] == [];
    } else {
      CallsToSnoc(calls[1..], last, address);
      assert (calls + [last])[1..] == calls[1..] + [last];
    }
  }

  lemma {:induction false} AimedSetting(m: Mechanism, topics: seq<string>, address: string, calls: seq<Aimed>)
    requires forall i :: 0 <= i < |calls| ==> calls[i].Valid()
    ensures SetterCalls(m, topics, CallsTo(DecodedCalls(Relayed(calls)), Lower(address)))
         == SettingAt(m, topics, address, calls)
  {
    hide IsSetter, IsKeyed, Sets, SetterCalls, CallsTo, Lower;
    if calls == [] {
      NoCalls(m, topics, Lower(address));
      assert DecodedCalls(Relayed(calls)) == [];
    } else {
      var n := |calls| - 1;
      var init, last := DecodedCalls(Relayed(calls[..n])), calls[n].Relayed().Decoded();
      AimedSetting(m, topics, address, calls[..n]);
      assert DecodedCalls(Relayed(calls)) == init + [last];
      CallsToSnoc(init, last, Lower(address));
      LowerTwice(address);
      LowerTwice("0x" + calls[n].target);
      BuiltSets(m, topics, calls[n].call);
      SetterCallsSnoc(m, topics, CallsTo(init, Lower(address)), last.data);
      assert CallsTo(init, Lower(address)) + [] == CallsTo(init, Lower(address));
    }
  }

  lemma NoCalls(m: Mechanism, topics: seq<string>, address: string)
    ensures CallsTo([], address) == [] && SetterCalls(m, topics, []) == []
  {}

  /** Of an aggregate batch they have to be for the feed as well. */
  lemma AggregateRelay(m: Mechanism, feed: Feed, r: nat, to: string, input: string, selector: string, args: string,
                       base: nat, calls: seq<Aimed>)
    requires GoesTo(m, r, to, selector) && m.relays[r].aggregate
    requires IsCall(input, selector, args) && HoldsOffset(args, m.relays[r].word, base)
    requires forall i :: 0 <= i < |calls| ==> calls[i].Valid()
    requires HoldsArray(args, base, TupleBlobs(Relayed(calls)))
    ensures RelayBatch(m, feed, to, input) == Some((m.relays[r], SettingAt(m, feed.topics, feed.address, calls)))
  {
    hide SetterCalls, SettingAt, Aggregate3Spec, Relayed, CallsTo, HoldsArray, HoldsOffset, Lower, SelectorOf,
         FindRelay, DecodedCalls;
    CallParts(input, selector, args);
    LowerTwice(m.relays[r].selector);
    RelayFound(m.relays, r, to, selector);
    assert forall i :: 0 <= i < |calls| ==> Relayed(calls)[i].Valid();
    Aggregate3Inverts(input, selector, args, m.relays[r].word, base, Relayed(calls));
    AimedSetting(m, feed.topics, feed.address, calls);
  }

  /** So the rounds of a transaction sent to a relay, as many as its batch has calls that
      set the feed, are attributed to exactly these calls, in order. */
  lemma RelayedRounds(m: Mechanism, feed: Feed, listed: map<string, Attribution>, txs: map<string, Tx>,
                      traces: map<string, seq<Trace>>, events: seq<Event>, hash: string, r: nat, selector: string,
                      args: string, base: nat, calls: seq<Built>)
    requires hash in txs && GoesTo(m, r, Lower(txs[hash].to), selector) && !m.relays[r].aggregate
    requires selector != "0x6a761202" && selector != "0x8d80ff0a"
    requires IsCall(txs[hash].input, selector, args) && HoldsOffset(args, m.relays[r].word, base)
    requires AllValid(calls) && WholeBytes(Datas(calls)) && HoldsArray(args, base, BytesBlobs(Datas(calls)))
    requires |RoundsOfTx(m, listed, events, |events|, hash)| == |Setting(m, feed.topics, calls)|
    ensures PostedCalls(m, feed, listed, txs, traces, events, hash) == AllSome(Setting(m, feed.topics, calls))
  {
    hide PostedCalls, RoundsOfTx, RelayBatch, Setting, Datas, HoldsArray, HoldsOffset, Lower, SelectorOf, GoesTo;
    CallParts(txs[hash].input, selector, args);
    BytesRelay(m, feed, r, Lower(txs[hash].to), txs[hash].input, selector, args, base, calls);
    RelayPairsOff(m, feed, listed, txs, traces, events, hash);
  }

  // ------------------------------------------------------------------
  // A batch sent to a MultiSend contract
  // ------------------------------------------------------------------

  /** One entry of a batch, and how its calldata was built. */
  datatype Sent = Sent(entry: Entry, call: Built) {
    predicate Valid() {
      entry.Valid() && call.Valid() && entry.data == call.Data()
    }

    function To(): string {
      Lower("0x" + entry.to)
    }
  }

  /** What an entry of a batch is: a call; a Safe's execution of a call; or a Safe's
      execution of a batch. */
  datatype Planned =
    | Plain(sent: Sent)
    | BySafe(entry: Entry, args: string, at: nat, target: string, call: Built)
    | BySafeBatch(entry: Entry, args: string, at: nat, target: string, inner: string, innerArgs: string,
                  innerAt: nat, nested: seq<Sent>, fragment: string)
  {
    function Outer(): Entry {
      match this
      case Plain(sent) => sent.entry
      case BySafe(entry, _, _, _, _) => entry
      case BySafeBatch(entry, _, _, _, _, _, _, _, _) => entry
    }

    predicate Valid() {
      match this
      case Plain(sent) => sent.Valid() && Lower("0x" + sent.call.selector) != "0x6a761202"
      case BySafe(entry, args, at, target, call) =>
        && entry.Valid() && call.Valid() && IsExec("0x" + entry.data, args, at, target, call.Data())
        && Lower("0x" + call.selector) != "0x8d80ff0a"
      case BySafeBatch(entry, args, at, target, inner, innerArgs, innerAt, nested, fragment) =>
        && entry.Valid() && IsExec("0x" + entry.data, args, at, target, inner)
        && IsCall("0x" + inner, MULTI_SEND, innerArgs) && HoldsOffset(innerArgs, 0, innerAt)
        && (forall i :: 0 <= i < |nested| ==> nested[i].Valid())
        && |fragment| < 170 && HoldsBytes(innerArgs, innerAt, Pack(Entries(nested)) + fragment)
    }
  }

  function Entries(sent: seq<Sent>): (entries: seq<Entry>)
    ensures |entries| == |sent| && forall i :: 0 <= i < |sent| ==> entries[i] == sent[i].entry
  {
    seq(|sent|, i requires 0 <= i < |sent| => sent[i].entry)
  }

  predicate IsSetting(m: Mechanism, c: Built) {
    Lower("0x" + c.selector) in m.setters
  }

  /** The calls to the feed with a setter's selector, all by one chain of callers. */
  function SentTo(m: Mechanism, feed: string, sent: seq<Sent>, chain: seq<string>): seq<Candidate> {
    if sent == [] then []
    else
      var n := |sent| - 1;
      SentTo(m, feed, sent[..n], chain)
      + if sent[n].To() == feed && IsSetting(m, sent[n].call) then [Candidate("0x" + sent[n].entry.data, chain)] else []
  }

  /** What an entry contributes: its setter calls to the feed, each with the sender, the
      MultiSend contract, the Safe and the batch it went through. */
  function Contributes(m: Mechanism, tx: Tx, feed: string, plan: Planned): seq<Candidate> {
    var outer := [Lower(tx.from), Lower(tx.to)];
    match plan
    case Plain(sent) => SentTo(m, feed, [sent], outer + [feed])
    case BySafe(entry, _, _, target, call) =>
      if Lower("0x" + target) == feed && IsSetting(m, call)
      then [Candidate("0x" + call.Data(), outer + [Lower("0x" + entry.to), feed])] else []
    case BySafeBatch(entry, _, _, target, _, _, _, nested, _) =>
      SentTo(m, feed, nested, outer + [Lower("0x" + entry.to), Lower("0x" + target), feed])
  }

  /** The Safe and MultiSend selectors set nothing themselves. */
  predicate PlainSetters(m: Mechanism) {
    "0x6a761202" !in m.setters && "0x8d80ff0a" !in m.setters
  }

  lemma SentOne(m: Mechanism, feed: string, sent: Sent, chain: seq<string>)
    ensures SentTo(m, feed, [sent], chain)
         == if sent.To() == feed && IsSetting(m, sent.call) then [Candidate("0x" + sent.entry.data, chain)] else []
  {
    assert [sent][..0] == [] && SentTo(m, feed, [], chain) == [];
  }

  lemma {:induction false} NestedSnoc(m: Mechanism, feed: string, calls: seq<Call>, last: Call, chain: seq<string>)
    ensures NestedCandidates(m, feed, calls + [last], chain)
         == NestedCandidates(m, feed, calls, chain)
            + if last.to == feed && IsSetter(m, last.data) then [Candidate(last.data, chain)] else []
  {
    hide IsSetter;
    if calls == [] {
      assert [last][1..] == [];
    } else {
      NestedSnoc(m, feed, calls[1..], last, chain);
      assert (calls + [last])[1..] == calls[1..] + [last];
    }
  }

  lemma {:induction false} NestedSent(m: Mechanism, feed: string, sent: seq<Sent>, chain: seq<string>)
    requires forall i :: 0 <= i < |sent| ==> sent[i].Valid()
    ensures NestedCandidates(m, feed, DecodedEntries(Entries(sent)), chain) == SentTo(m, feed, sent, chain)
  {
    hide IsSetter, Lower;
    if sent != [] {
      var n := |sent| - 1;
      var init, last := DecodedEntries(Entries(sent[..n])), sent[n].entry.Decoded();
      NestedSent(m, feed, sent[..n], chain);
      assert DecodedEntries(Entries(sent)) == init + [last];
      NestedSnoc(m, feed, init, last, chain);
      BuiltSets(m, [], sent[n].call);
    }
  }

  lemma OtherSelector(input: string)
    ensures SelectorOf(input) != "0x6a761202" ==> DecodeSafe(input) == None
    ensures SelectorOf(input) != "0x8d80ff0a" ==> MultiSendSpec(input) == None
  {}

  /** An entry contributes exactly what its sender put into it. */
  lemma EntryContributes(m: Mechanism, tx: Tx, feed: string, plan: Planned)
    requires PlainSetters(m) && plan.Valid()
    ensures EntryCandidates(m, tx, feed, plan.Outer().Decoded()) == Contributes(m, tx, feed, plan)
  {
    hide Lower, SelectorOf, NestedCandidates, SentTo, DecodeSafe, MultiSendSpec, IsExec, HoldsBytes, HoldsOffset, Pack;
    match plan {
      case Plain(sent) =>
        BuiltSets(m, [], sent.call);
        BuiltSelector(sent.call);
        OtherSelector("0x" + sent.entry.data);
        SentOne(m, feed, sent, [Lower(tx.from), Lower(tx.to)] + [feed]);
      case BySafe(entry, args, at, target, call) =>
        ExecDecodes(m, "0x" + entry.data, args, at, target, call.Data());
        BuiltSets(m, [], call);
        BuiltSelector(call);
        OtherSelector("0x" + call.Data());
      case BySafeBatch(entry, args, at, target, inner, innerArgs, innerAt, nested, fragment) =>
        ExecDecodes(m, "0x" + entry.data, args, at, target, inner);
        BatchDecodes(m, "0x" + inner, innerArgs, innerAt, Entries(nested), fragment);
        var outer := [Lower(tx.from), Lower(tx.to)];
        NestedSent(m, feed, nested, outer + [Lower("0x" + entry.to), Lower("0x" + target), feed]);
    }
  }

  lemma ExecDecodes(m: Mechanism, input: string, args: string, at: nat, target: string, inner: string)
    requires PlainSetters(m) && IsExec(input, args, at, target, inner)
    ensures !IsSetter(m, input) && DecodeSafe(input) == Some(Call(Lower("0x" + target), "0x" + inner))
  {
    SafeInverts(input, args, at, target, inner);
    CallParts(input, EXEC_TRANSACTION, args);
    LowerTwice(input[..10]);
  }

  lemma BatchDecodes(m: Mechanism, input: string, args: string, at: nat, entries: seq<Entry>, fragment: string)
    requires PlainSetters(m) && IsCall(input, MULTI_SEND, args) && HoldsOffset(args, 0, at)
    requires forall i :: 0 <= i < |entries| ==> entries[i].Valid()
    requires |fragment| < 170 && HoldsBytes(args, at, Pack(entries) + fragment)
    ensures !IsSetter(m, input) && MultiSendSpec(input) == Some(DecodedEntries(entries))
  {
    MultiSendInverts(input, args, at, entries, fragment);
    CallParts(input, MULTI_SEND, args);
    LowerTwice(input[..10]);
  }

  function Outers(plans: seq<Planned>): (entries: seq<Entry>)
    ensures |entries| == |plans| && forall i :: 0 <= i < |plans| ==> entries[i] == plans[i].Outer()
  {
    seq(|plans|, i requires 0 <= i < |plans| => plans[i].Outer())
  }

  /** The contributions of the entries, in order. */
  function AllContribute(m: Mechanism, tx: Tx, feed: string, plans: seq<Planned>): seq<Candidate> {
    if plans == [] then []
    else
      var n := |plans| - 1;
      AllContribute(m, tx, feed, plans[..n]) + Contributes(m, tx, feed, plans[n])
  }

  lemma {:induction false} BatchSnoc(m: Mechanism, tx: Tx, feed: string, entries: seq<Call>, last: Call)
    ensures BatchCandidates(m, tx, feed, entries + [last])
         == BatchCandidates(m, tx, feed, entries) + EntryCandidates(m, tx, feed, last)
  {
    hide EntryCandidates;
    if entries == [] {
      assert [last][1..] == [];
    } else {
      BatchSnoc(m, tx, feed, entries[1..], last);
      assert (entries + [last])[1..] == entries[1..] + [last];
    }
  }

  lemma {:induction false} PlansContribute(m: Mechanism, tx: Tx, feed: string, plans: seq<Planned>)
    requires PlainSetters(m) && forall i :: 0 <= i < |plans| ==> plans[i].Valid()
    ensures BatchCandidates(m, tx, feed, DecodedEntries(Outers(plans))) == AllContribute(m, tx, feed, plans)
  {
    hide EntryCandidates, Contributes, PlainSetters, DecodedEntries, Outers;
    NoPlans();
    if plans != [] {
      var n := |plans| - 1;
      var init, last := DecodedEntries(Outers(plans[..n])), plans[n].Outer().Decoded();
      PlansContribute(m, tx, feed, plans[..n]);
      PlansSnoc(plans);
      BatchSnoc(m, tx, feed, init, last);
      EntryContributes(m, tx, feed, plans[n]);
    }
  }

  lemma NoPlans()
    ensures DecodedEntries(Outers([])) == []
  {}

  lemma PlansSnoc(plans: seq<Planned>)
    requires plans != []
    ensures var n := |plans| - 1;
            DecodedEntries(Outers(plans)) == DecodedEntries(Outers(plans[..n])) + [plans[n].Outer().Decoded()]
  {}

  /** The candidates of a batch sent to a MultiSend contract, in any layout, are exactly
      the setter calls to the feed that its sender put into it, in order. */
  lemma PlannedBatch(m: Mechanism, tx: Tx, feed: string, args: string, at: nat, plans: seq<Planned>, fragment: string)
    requires PlainSetters(m) && IsCall(tx.input, MULTI_SEND, args) && HoldsOffset(args, 0, at)
    requires forall i :: 0 <= i < |plans| ==> plans[i].Valid() && plans[i].Outer().Valid()
    requires |fragment| < 170 && HoldsBytes(args, at, Pack(Outers(plans)) + fragment)
    ensures OuterBatch(m, tx, feed) == Some(AllContribute(m, tx, feed, plans))
  {
    hide BatchCandidates, AllContribute, PlainSetters, IsCall, HoldsBytes, HoldsOffset, MultiSendSpec;
    MultiSendInverts(tx.input, args, at, Outers(plans), fragment);
    PlansContribute(m, tx, feed, plans);
  }

  // ------------------------------------------------------------------
  // The calls of a trace
  // ------------------------------------------------------------------

  /** The setter calls that a flat trace shows of a feed are exactly its calls to the
      feed's log address whose calldata sets the feed, in order: `ks` are their places. */
  lemma TracedSetters(m: Mechanism, feed: Feed, items: seq<Item>) returns (ks: seq<nat>)
    ensures Increasing(ks) && |TraceBatch(m, feed, Flat(items))| == |ks|
    ensures forall j :: 0 <= j < |ks| ==>
      && ks[j] < |items| && CallsWith(items[ks[j]], feed.logAddress, TraceBatch(m, feed, Flat(items))[j])
    ensures forall k :: 0 <= k < |items| ==>
      (k in ks <==> && IsCallTo(items[k], feed.logAddress)
                    && IsSetter(m, items[k].action.value.input.value)
                    && IsKeyed(items[k].action.value.input.value, feed.topics))
  {
    hide IsSetter, IsKeyed, Lower, SelectorOf, CallsWith, IsCallTo;
    var isSetter := (calldata: string) => IsSetter(m, calldata) && IsKeyed(calldata, feed.topics);
    LowerTwice(feed.logAddress);
    ks := SettersExact(items, feed.logAddress, isSetter);
  }

  // ------------------------------------------------------------------
  // A whole attribution, route by route
  // ------------------------------------------------------------------

  /** A call to the feed under one to six Safes: the round has the feed's call, every Safe
      on the way and no batch index, whatever its position. */
  lemma RouteSafe(m: Mechanism, feed: Feed, tx: Tx, traces: seq<Trace>, position: nat, layers: seq<Layer>, call: Built)
    requires 1 <= |layers| <= 6 && Nested(layers, "0x" + call.Data()) && call.Valid()
    requires Lower("0x" + call.selector) != "0x6a761202" && tx.input == layers[0].input
    requires Lower("0x" + layers[|layers| - 1].target) == Lower(feed.address)
    ensures PostedBy(m, feed, tx, traces, position)
         == Attribution(ViaSafe, Lower("0x" + call.selector), Some("0x" + call.Data()), Lower(tx.from),
                        [Lower(tx.from), Lower(tx.to)] + Targets(layers)[..|layers| - 1] + [Lower(feed.address)], None)
  {
    hide Lower, UnwrapSpec, Nested, SelectorOf, Targets, RelayCall, TraceCall, SafeBatch;
    BuiltSelector(call);
    UnwrapInverts(tx.from, tx.to, layers, "0x" + call.Data());
  }

  /** The calldata of every call to an address, in order. */
  function AllTo(address: string, sent: seq<Sent>): seq<string> {
    if sent == [] then []
    else
      var n := |sent| - 1;
      AllTo(address, sent[..n]) + if sent[n].To() == address then ["0x" + sent[n].entry.data] else []
  }

  lemma {:induction false} ExactSnoc(calls: seq<Call>, last: Call, address: string)
    ensures ExactCallsTo(calls + [last], address)
         == ExactCallsTo(calls, address) + if last.to == address then [last.data] else []
  {
    if calls == [] {
      assert [last][1..] == [];
    } else {
      ExactSnoc(calls[1..], last, address);
      assert (calls + [last])[1..] == calls[1..] + [last];
    }
  }

  lemma {:induction false} ExactSent(sent: seq<Sent>, address: string)
    ensures ExactCallsTo(DecodedEntries(Entries(sent)), address) == AllTo(address, sent)
  {
    hide Lower;
    if sent != [] {
      var n := |sent| - 1;
      var init, last := DecodedEntries(Entries(sent[..n])), sent[n].entry.Decoded();
      ExactSent(sent[..n], address);
      assert DecodedEntries(Entries(sent)) == init + [last];
      ExactSnoc(init, last, address);
    }
  }

  /** The calls that a Safe's batch makes to the feed, whatever their selectors, in any
      layout of the batch. */
  lemma SafeBatchIs(feed: string, inner: string, args: string, at: nat, sent: seq<Sent>, fragment: string)
    requires IsCall(inner, MULTI_SEND, args) && HoldsOffset(args, 0, at)
    requires forall i :: 0 <= i < |sent| ==> sent[i].Valid()
    requires |fragment| < 170 && HoldsBytes(args, at, Pack(Entries(sent)) + fragment)
    ensures SafeBatch(feed, inner) == Some(AllTo(feed, sent))
  {
    hide IsCall, HoldsOffset, HoldsBytes, MultiSendSpec, ExactCallsTo, AllTo, Pack;
    MultiSendInverts(inner, args, at, Entries(sent), fragment);
    ExactSent(sent, feed);
  }

  /** A batch under one to six Safes, sent to no relay: the round at a position has the
      call to the feed at that position, and the batch joins the Safes in its chain. */
  lemma RouteSafeBatch(m: Mechanism, feed: Feed, tx: Tx, traces: seq<Trace>, position: nat, layers: seq<Layer>,
                       inner: string, args: string, at: nat, sent: seq<Sent>, fragment: string)
    requires 1 <= |layers| <= 6 && Nested(layers, inner) && tx.input == layers[0].input
    requires IsCall(inner, MULTI_SEND, args) && HoldsOffset(args, 0, at)
    requires forall i :: 0 <= i < |sent| ==> sent[i].Valid()
    requires |fragment| < 170 && HoldsBytes(args, at, Pack(Entries(sent)) + fragment)
    requires var target := layers[|layers| - 1].Target();
             && target != Lower(feed.address)
             && forall r :: 0 <= r < |m.relays| ==> Lower(m.relays[r].address) != Lower(target)
    requires position < |AllTo(Lower(feed.address), sent)|
    ensures var calldata := AllTo(Lower(feed.address), sent)[position];
            PostedBy(m, feed, tx, traces, position)
            == Attribution(ViaSafe, SelectorOf(calldata), Some(calldata), Lower(tx.from),
                           [Lower(tx.from), Lower(tx.to)] + Targets(layers)[..|layers| - 1]
                           + [layers[|layers| - 1].Target(), Lower(feed.address)], Some(position))
  {
    hide Lower, UnwrapSpec, Nested, SelectorOf, Targets, TraceCall, SafeBatch, IsCall, HoldsOffset, HoldsBytes, AllTo,
         Pack, FindRelay;
    SafeBatchIs(Lower(feed.address), inner, args, at, sent, fragment);
    CallParts(inner, MULTI_SEND, args);
    UnwrapInverts(tx.from, tx.to, layers, inner);
    NoRelay(m.relays, layers[|layers| - 1].Target(), SelectorOf(inner));
  }

  /** A relay's batch under one to six Safes: the round at a position has the call at that
      position, and the relay joins the Safes in its chain. */
  lemma RouteSafeRelay(m: Mechanism, feed: Feed, tx: Tx, traces: seq<Trace>, position: nat, layers: seq<Layer>,
                       inner: string, relay: Relay, calls: seq<string>)
    requires 1 <= |layers| <= 6 && Nested(layers, inner) && tx.input == layers[0].input && !IsExecCall(inner)
    requires layers[|layers| - 1].Target() != Lower(feed.address)
    requires RelayBatch(m, feed, layers[|layers| - 1].Target(), inner) == Some((relay, calls)) && position < |calls|
    ensures PostedBy(m, feed, tx, traces, position)
         == Attribution(ViaSafe, SelectorOf(calls[position]), Some(calls[position]), Lower(tx.from),
                        [Lower(tx.from), Lower(tx.to)] + Targets(layers)[..|layers| - 1]
                        + [Lower(relay.address), Lower(feed.address)], Some(position))
  {
    hide Lower, UnwrapSpec, Nested, SelectorOf, Targets, TraceCall, SafeBatch, RelayBatch;
    UnwrapInverts(tx.from, tx.to, layers, inner);
  }

  lemma {:induction false} NoRelay(relays: seq<Relay>, to: string, selector: string)
    requires forall r :: 0 <= r < |relays| ==> Lower(relays[r].address) != Lower(to)
    ensures FindRelay(relays, to, selector) == None
  {
    hide Lower;
    if relays != [] {
      NoRelay(relays[1..], to, selector);
    }
  }

  /** A batch sent straight to a MultiSend contract: the round at a position has the
      candidate at that position. */
  lemma RouteOuterBatch(m: Mechanism, feed: Feed, tx: Tx, traces: seq<Trace>, position: nat, cs: seq<Candidate>)
    requires OuterBatch(m, tx, Lower(feed.address)) == Some(cs) && position < |cs|
    ensures PostedBy(m, feed, tx, traces, position)
         == Attribution(ViaSafe, SelectorOf(cs[position].calldata), Some(cs[position].calldata), Lower(tx.from),
                        cs[position].chain, Some(position))
  {
    hide Lower, BatchCandidates, RelayCall, TraceCall, Unwrap;
    assert SelectorOf(tx.input) == MULTI_SEND;
  }

  /** A batch sent straight to a relay: the round at a position has the call at that
      position, by the sender's address, the relay and the feed. */
  lemma RouteRelay(m: Mechanism, feed: Feed, tx: Tx, traces: seq<Trace>, position: nat, relay: Relay,
                   calls: seq<string>)
    requires SelectorOf(tx.input) != "0x6a761202" && SelectorOf(tx.input) != "0x8d80ff0a"
    requires RelayBatch(m, feed, Lower(tx.to), tx.input) == Some((relay, calls)) && position < |calls|
    ensures PostedBy(m, feed, tx, traces, position)
         == Attribution(ViaRelay, SelectorOf(calls[position]), Some(calls[position]), Lower(tx.from),
                        [Lower(tx.to), Lower(relay.address), Lower(feed.address)], Some(position))
  {
    hide Lower, SelectorOf, RelayBatch, TraceCall;
    OtherSelector(tx.input);
  }

  /** A trace gives nothing for a position: it has setter calls, but not that many, or none
      and no call to the log address either. */
  predicate Silent(m: Mechanism, feed: Feed, trace: Trace, position: nat) {
    var calls := TraceBatch(m, feed, trace);
    |calls| <= position && (|calls| > 0 || DeepestSpec(trace, feed.logAddress) == None)
  }

  /** The first trace that is not silent is read: its setter call at the position, or the
      deepest call when it has no setter call. */
  lemma {:induction false} RouteTrace(m: Mechanism, feed: Feed, traces: seq<Trace>, position: nat, t: nat)
    requires t < |traces| && forall i :: 0 <= i < t ==> Silent(m, feed, traces[i], position)
    ensures var calls := TraceBatch(m, feed, traces[t]);
            && (position < |calls| ==> TraceCall(m, feed, traces, position) == Some(calls[position]))
            && (|calls| == 0 && DeepestSpec(traces[t], feed.logAddress).Some?
                ==> TraceCall(m, feed, traces, position) == DeepestSpec(traces[t], feed.logAddress))
  {
    hide TraceBatch;
    DeepestLower(traces[0], feed.logAddress);
    if t > 0 {
      assert Silent(m, feed, traces[0], position);
      assert forall i :: 0 <= i < t - 1 ==> traces[1..][i] == traces[i + 1];
      RouteTrace(m, feed, traces[1..], position, t - 1);
    }
  }

  /** And when all are silent, nothing is. */
  lemma {:induction false} AllSilent(m: Mechanism, feed: Feed, traces: seq<Trace>, position: nat)
    requires forall i :: 0 <= i < |traces| ==> Silent(m, feed, traces[i], position)
    ensures TraceCall(m, feed, traces, position) == None
  {
    hide TraceBatch;
    if traces != [] {
      DeepestLower(traces[0], feed.logAddress);
      assert Silent(m, feed, traces[0], position);
      AllSilent(m, feed, traces[1..], position);
    }
  }

  lemma DeepestLower(trace: Trace, feed: string)
    ensures DeepestSpec(trace, Lower(feed)) == DeepestSpec(trace, feed)
  {
    hide Lower;
    LowerTwice(feed);
  }

  /** Where the calldata routes give nothing, the round has the traced call, its caller and
      no batch index, or nothing. */
  lemma RouteRest(m: Mechanism, feed: Feed, tx: Tx, traces: seq<Trace>, position: nat)
    requires SelectorOf(tx.input) != "0x6a761202" && SelectorOf(tx.input) != "0x8d80ff0a"
    requires RelayBatch(m, feed, Lower(tx.to), tx.input) == None
    ensures PostedBy(m, feed, tx, traces, position) ==
      match TraceCall(m, feed, traces, position)
      case Some(c) => Attribution(ViaTrace, c.selector, Some(c.input), Lower(tx.from), [c.from], None)
      case None => Attribution(Unattributed, SelectorOf(tx.input), None, Lower(tx.from), [], None)
  {
    hide Lower, SelectorOf, RelayBatch, TraceCall;
    OtherSelector(tx.input);
  }

  /** A round whose event names its poster is attributed to it, where the family says so;
      one whose transaction is listed as an external call to that call. */
  lemma RouteOutside(m: Mechanism, feed: Feed, listed: map<string, Attribution>, txs: map<string, Tx>,
                     traces: map<string, seq<Trace>>, events: seq<Event>, k: nat)
    requires k < |events|
    ensures var fromEvent := m.eventAttribution && events[k].poster.Some? && m.firstSetter.Some?;
            var a := AttributionOf(m, feed, listed, txs, traces, events, k);
            && (fromEvent
                ==> a == Some(Attribution(ViaEvent, m.firstSetter.value, None, events[k].poster.value, [], None)))
            && (!fromEvent && events[k].hash in listed ==> a == Some(listed[events[k].hash]))
            && (!fromEvent && events[k].hash !in listed ==> (a == None <==> events[k].hash !in txs))
  {
    hide PostedBy;
  }
}
