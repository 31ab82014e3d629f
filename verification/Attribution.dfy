/**
 Attribution of rounds to the calls that posted them: the k-th matching call of
 a transaction posted its k-th round.
 */
module Attribution {
  import opened Prelude
  import opened Text
  import opened Abi
  import opened Calldata
  import opened SafeChain
  import opened Traces

  /** A configured relay: its address, the batch selector, the head word of the
      array argument, and whether it takes (address,bool,bytes) tuples. */
  datatype Relay = Relay(address: string, selector: string, word: nat, aggregate: bool)

  /** What the attribution reads of a family's mechanism. */
  datatype Mechanism = Mechanism(
    setters: set<string>, relays: seq<Relay>, eventAttribution: bool, firstSetter: Option<string>)

  /** The feed: its address, the contract its rounds come from, its topics. */
  datatype Feed = Feed(address: string, logAddress: string, topics: seq<string>)

  datatype Event = Event(hash: string, poster: Option<string>)

  datatype Tx = Tx(from: string, to: string, input: string)

  datatype Via = ViaEvent | ViaExternal | ViaSafe | ViaRelay | ViaTrace | Unattributed

  /** The posting call of a round; the posted value, the flag and the path are
      functions of its calldata. */
  datatype Attribution = Attribution(
    via: Via, selector: string, calldata: Option<string>, sender: string,
    chain: seq<string>, batchIndex: Option<nat>)

  // ------------------------------------------------------------------
  // Matching calls
  // ------------------------------------------------------------------

  predicate IsSetter(m: Mechanism, calldata: string) {
    Lower(SelectorOf(calldata)) in m.setters
  }

  /** Argument word `index` as lowercase hex, when it is there and is hex. */
  function ArgumentWord(calldata: string, index: nat): Option<string> {
    var body := Body(calldata);
    var slice :- Slice(if |body| < 8 then "" else body[8..], index * 64, (index + 1) * 64);
    if IsHex(slice) then Some(HexText(HexBytes(slice))) else None
  }

  /** The leading argument words equal the feed's topics. */
  predicate IsKeyed(calldata: string, topics: seq<string>) {
    forall i :: 0 <= i < |topics| ==> ArgumentWord(calldata, i) == Some(Lower(Body(topics[i])))
  }

  /** The calls that set the feed, in order. */
  function SetterCalls(m: Mechanism, topics: seq<string>, calls: seq<string>): seq<string> {
    if calls == [] then []
    else
      (if IsSetter(m, calls[0]) && IsKeyed(calls[0], topics) then [calls[0]] else [])
      + SetterCalls(m, topics, calls[1..])
  }

  /** The calldata of the calls to one address, in order. */
  function CallsTo(calls: seq<Call>, address: string): seq<string> {
    if calls == [] then []
    else (if Lower(calls[0].to) == Lower(address) then [calls[0].data] else []) + CallsTo(calls[1..], address)
  }

  function FindRelay(relays: seq<Relay>, to: string, selector: string): Option<Relay> {
    if relays == [] then None
    else if Lower(relays[0].address) == Lower(to) && Lower(relays[0].selector) == Lower(selector) then Some(relays[0])
    else FindRelay(relays[1..], to, selector)
  }

  /** The setter calls a relayed batch makes to the feed, in order. */
  function RelayBatch(m: Mechanism, feed: Feed, to: string, input: string): Option<(Relay, seq<string>)> {
    var relay :- FindRelay(m.relays, to, SelectorOf(input));
    if relay.aggregate then
      var tuples :- Aggregate3Spec(input, relay.word);
      Some((relay, SetterCalls(m, feed.topics, CallsTo(tuples, Lower(feed.address)))))
    else
      var calls :- BytesArraySpec(input, relay.word);
      Some((relay, SetterCalls(m, feed.topics, calls)))
  }

  /** The k-th of them, with the relay's address. */
  function RelayCall(m: Mechanism, feed: Feed, to: string, input: string, position: nat): Option<(string, string)> {
    var (relay, calls) :- RelayBatch(m, feed, to, input);
    if position < |calls| then Some((calls[position], Lower(relay.address))) else None
  }

  /** A candidate of a batch: its calldata and the callers it went through. */
  datatype Candidate = Candidate(calldata: string, chain: seq<string>)

  /** The setter calls to the feed in a nested batch a Safe executes. */
  function NestedCandidates(m: Mechanism, feed: string, calls: seq<Call>, chain: seq<string>): seq<Candidate> {
    if calls == [] then []
    else
      (if calls[0].to == feed && IsSetter(m, calls[0].data) then [Candidate(calls[0].data, chain)] else [])
      + NestedCandidates(m, feed, calls[1..], chain)
  }

  /** What one entry of an outer batch contributes: a direct setter call, a Safe
      execution of one, or the setter calls of a batch the Safe executes. */
  function EntryCandidates(m: Mechanism, tx: Tx, feed: string, entry: Call): seq<Candidate> {
    var outer := [Lower(tx.from), Lower(tx.to)];
    if entry.to == feed && IsSetter(m, entry.data) then [Candidate(entry.data, outer + [feed])]
    else match DecodeSafe(entry.data)
      case None => []
      case Some(inner) =>
        if inner.to == feed && IsSetter(m, inner.data) then [Candidate(inner.data, outer + [entry.to, feed])]
        else match MultiSendSpec(inner.data)
          case None => []
          case Some(nested) => NestedCandidates(m, feed, nested, outer + [entry.to, inner.to, feed])
  }

  function BatchCandidates(m: Mechanism, tx: Tx, feed: string, entries: seq<Call>): seq<Candidate> {
    if entries == [] then []
    else EntryCandidates(m, tx, feed, entries[0]) + BatchCandidates(m, tx, feed, entries[1..])
  }

  /** The candidates of a transaction sent straight to a MultiSend contract. */
  function OuterBatch(m: Mechanism, tx: Tx, feed: string): Option<seq<Candidate>> {
    var entries :- MultiSendSpec(tx.input);
    Some(BatchCandidates(m, tx, feed, entries))
  }

  /** The calls to the feed in the MultiSend batch a Safe executes. */
  function SafeBatch(feed: string, inner: string): Option<seq<string>> {
    var entries :- MultiSendSpec(inner);
    Some(ExactCallsTo(entries, feed))
  }

  function ExactCallsTo(calls: seq<Call>, address: string): seq<string> {
    if calls == [] then []
    else (if calls[0].to == address then [calls[0].data] else []) + ExactCallsTo(calls[1..], address)
  }

  /** A routed call: calldata, chain, and its index when it came from a batch. */
  datatype Routed = Routed(calldata: string, chain: seq<string>, batchIndex: Option<nat>)

  /** The call a Safe execution makes to the feed: directly, through a relay, or
      as the k-th call to the feed of a batch. */
  function ThroughSafe(m: Mechanism, feed: Feed, tx: Tx, position: nat): Option<Routed> {
    var u :- UnwrapSpec(tx.from, tx.to, tx.input);
    var address := Lower(feed.address);
    if u.target == address then Some(Routed(u.calldata, u.chain + [address], None))
    else match RelayCall(m, feed, u.target, u.calldata, position)
      case Some((calldata, relay)) => Some(Routed(calldata, u.chain + [relay, address], Some(position)))
      case None =>
        var calls :- SafeBatch(address, u.calldata);
        if position < |calls| then Some(Routed(calls[position], u.chain + [u.target, address], Some(position)))
        else None
  }

  function ThroughOuterBatch(m: Mechanism, feed: Feed, tx: Tx, position: nat): Option<Routed> {
    var candidates :- OuterBatch(m, tx, Lower(feed.address));
    if position < |candidates| then
      Some(Routed(candidates[position].calldata, candidates[position].chain, Some(position)))
    else None
  }

  function SafeRouted(m: Mechanism, feed: Feed, tx: Tx, position: nat): Option<Routed> {
    match ThroughSafe(m, feed, tx, position)
    case Some(routed) => Some(routed)
    case None => ThroughOuterBatch(m, feed, tx, position)
  }

  /** The setter calls to the feed a trace shows, in order. */
  function TraceBatch(m: Mechanism, feed: Feed, trace: Trace): seq<ResolvedCall> {
    SettersSpec(trace, Lower(feed.logAddress),
                (calldata: string) => IsSetter(m, calldata) && IsKeyed(calldata, feed.topics))
  }

  /** The k-th setter call a trace shows, else the deepest call when it shows no
      setter call at all; the next trace otherwise. */
  function TraceCall(m: Mechanism, feed: Feed, traces: seq<Trace>, position: nat): Option<ResolvedCall> {
    if traces == [] then None
    else
      var calls := TraceBatch(m, feed, traces[0]);
      if position < |calls| then Some(calls[position])
      else if calls == [] && DeepestSpec(traces[0], Lower(feed.logAddress)).Some? then
        DeepestSpec(traces[0], Lower(feed.logAddress))
      else TraceCall(m, feed, traces[1..], position)
  }

  // ------------------------------------------------------------------
  // One round
  // ------------------------------------------------------------------

  predicate FromEvent(m: Mechanism, event: Event) {
    m.eventAttribution && event.poster.Some? && m.firstSetter.Some?
  }

  /** A round resolved through its transaction rather than its event or an
      external call listed by the explorer. */
  predicate Resolved(m: Mechanism, listed: map<string, Attribution>, event: Event) {
    !FromEvent(m, event) && event.hash !in listed
  }

  /** The posting call of a round that is the position-th of its transaction. */
  function PostedBy(m: Mechanism, feed: Feed, tx: Tx, traces: seq<Trace>, position: nat): Attribution {
    var sender := Lower(tx.from);
    match SafeRouted(m, feed, tx, position)
    case Some(r) => Attribution(ViaSafe, SelectorOf(r.calldata), Some(r.calldata), sender, r.chain, r.batchIndex)
    case None =>
      match RelayCall(m, feed, Lower(tx.to), tx.input, position)
      case Some((calldata, relay)) =>
        Attribution(ViaRelay, SelectorOf(calldata), Some(calldata), sender,
                    [Lower(tx.to), relay, Lower(feed.address)], Some(position))
      case None =>
        match TraceCall(m, feed, traces, position)
        case Some(c) => Attribution(ViaTrace, c.selector, Some(c.input), sender, [c.from], None)
        case None => Attribution(Unattributed, SelectorOf(tx.input), None, sender, [], None)
  }

  function Get(seen: map<string, nat>, hash: string): nat {
    if hash in seen then seen[hash] else 0
  }

  /** The count before the current round, read after it was advanced. */
  function SeenBefore(seen: map<string, nat>, hash: string): nat {
    var count := if hash in seen then seen[hash] else 1;
    if count > 0 then count - 1 else 0
  }

  /** How many earlier rounds of the same transaction were resolved. */
  function Position(m: Mechanism, listed: map<string, Attribution>, events: seq<Event>, k: nat, hash: string): nat
    requires k <= |events|
  {
    if k == 0 then 0
    else
      Position(m, listed, events, k - 1, hash)
      + if events[k - 1].hash == hash && Resolved(m, listed, events[k - 1]) then 1 else 0
  }

  function TracesOf(traces: map<string, seq<Trace>>, hash: string): seq<Trace> {
    if hash in traces then traces[hash] else []
  }

  /** The attribution of round k. */
  function AttributionOf(m: Mechanism, feed: Feed, listed: map<string, Attribution>, txs: map<string, Tx>,
                         traces: map<string, seq<Trace>>, events: seq<Event>, k: nat): Option<Attribution>
    requires k < |events|
  {
    var event := events[k];
    if FromEvent(m, event) then
      Some(Attribution(ViaEvent, m.firstSetter.value, None, event.poster.value, [], None))
    else if event.hash in listed then Some(listed[event.hash])
    else if event.hash !in txs then None
    else Some(PostedBy(m, feed, txs[event.hash], TracesOf(traces, event.hash),
                       Position(m, listed, events, k, event.hash)))
  }

  /** The attribution loop.  The calldata routes read the transaction's counter
      before it advances, the later routes after; a transaction that cannot be
      read ends the run. */
  method Attribute(m: Mechanism, feed: Feed, listed: map<string, Attribution>, txs: map<string, Tx>,
                   traces: map<string, seq<Trace>>, events: seq<Event>) returns (r: Result<seq<Attribution>, string>)
    ensures r.Ok? <==> forall k :: 0 <= k < |events| ==> AttributionOf(m, feed, listed, txs, traces, events, k).Some?
    ensures r.Ok? ==> |r.value| == |events|
    ensures r.Ok? ==>
      forall k :: 0 <= k < |events| ==> AttributionOf(m, feed, listed, txs, traces, events, k) == Some(r.value[k])
  {
    hide SafeRouted, RelayCall, TraceCall, Lower, SelectorOf;
    var seen: map<string, nat> := map[];
    var rounds := [];
    for k := 0 to |events|
      invariant |rounds| == k
      invariant forall i :: 0 <= i < k ==> AttributionOf(m, feed, listed, txs, traces, events, i) == Some(rounds[i])
      invariant forall hash :: Get(seen, hash) == Position(m, listed, events, k, hash)
    {
      var event := events[k];
      if FromEvent(m, event) {
        rounds := rounds + [Attribution(ViaEvent, m.firstSetter.value, None, event.poster.value, [], None)];
      } else if event.hash in listed {
        rounds := rounds + [listed[event.hash]];
      } else {
        if event.hash !in txs {
          assert AttributionOf(m, feed, listed, txs, traces, events, k) == None;
          return Err("transaction not readable");
        }
        var tx := txs[event.hash];
        var position := Get(seen, event.hash);
        var routed := SafeRouted(m, feed, tx, position);
        seen := seen[event.hash := position + 1];
        var before := SeenBefore(seen, event.hash);
        var attribution: Attribution;
        if routed.Some? {
          attribution := Attribution(ViaSafe, SelectorOf(routed.value.calldata), Some(routed.value.calldata),
                                     Lower(tx.from), routed.value.chain, routed.value.batchIndex);
        } else {
          var relayed := RelayCall(m, feed, Lower(tx.to), tx.input, before);
          if relayed.Some? {
            var (calldata, relay) := relayed.value;
            attribution := Attribution(ViaRelay, SelectorOf(calldata), Some(calldata), Lower(tx.from),
                                       [Lower(tx.to), relay, Lower(feed.address)], Some(before));
          } else {
            var traced := TraceCall(m, feed, TracesOf(traces, event.hash), before);
            attribution :=
              if traced.Some? then
                Attribution(ViaTrace, traced.value.selector, Some(traced.value.input), Lower(tx.from),
                            [traced.value.from], None)
              else Attribution(Unattributed, SelectorOf(tx.input), None, Lower(tx.from), [], None);
          }
        }
        rounds := rounds + [attribution];
      }
    }
    r := Ok(rounds);
  }

  // ------------------------------------------------------------------
  // Positions
  // ------------------------------------------------------------------

  /** The resolved rounds of a transaction among the first k, in event order. */
  function RoundsOfTx(m: Mechanism, listed: map<string, Attribution>, events: seq<Event>, k: nat,
                      hash: string): (ks: seq<nat>)
    requires k <= |events|
    ensures forall j :: 0 <= j < |ks| ==> ks[j] < k && events[ks[j]].hash == hash && Resolved(m, listed, events[ks[j]])
    ensures |ks| == Position(m, listed, events, k, hash)
  {
    if k == 0 then []
    else
      RoundsOfTx(m, listed, events, k - 1, hash)
      + if events[k - 1].hash == hash && Resolved(m, listed, events[k - 1]) then [k - 1] else []
  }

  /** The j-th resolved round of a transaction uses position j... */
  lemma {:induction false} PositionOfRound(m: Mechanism, listed: map<string, Attribution>, events: seq<Event>,
                                           k: nat, hash: string, j: nat)
    requires k <= |events| && j < Position(m, listed, events, k, hash)
    ensures Position(m, listed, events, RoundsOfTx(m, listed, events, k, hash)[j], hash) == j
  {
    hide Resolved;
    if j < Position(m, listed, events, k - 1, hash) {
      PositionOfRound(m, listed, events, k - 1, hash, j);
    }
  }

  /** ...and the round that uses position j is the j-th: the positions of its n
      resolved rounds are 0, 1, ..., n - 1, each once. */
  lemma {:induction false} RoundAtPosition(m: Mechanism, listed: map<string, Attribution>, events: seq<Event>,
                                           k: nat, hash: string, i: nat)
    requires i < k <= |events| && events[i].hash == hash && Resolved(m, listed, events[i])
    ensures Position(m, listed, events, i, hash) < Position(m, listed, events, k, hash)
    ensures RoundsOfTx(m, listed, events, k, hash)[Position(m, listed, events, i, hash)] == i
  {
    hide Resolved;
    if i < k - 1 {
      RoundAtPosition(m, listed, events, k - 1, hash, i);
    }
  }

  /** The calldata attributed to the resolved rounds of a transaction. */
  function PostedCalls(m: Mechanism, feed: Feed, listed: map<string, Attribution>, txs: map<string, Tx>,
                       traces: map<string, seq<Trace>>, events: seq<Event>, hash: string): (calls: seq<Option<string>>)
    requires hash in txs
    ensures |calls| == |RoundsOfTx(m, listed, events, |events|, hash)|
  {
    var ks := RoundsOfTx(m, listed, events, |events|, hash);
    seq(|ks|, j requires 0 <= j < |ks| =>
      var a := AttributionOf(m, feed, listed, txs, traces, events, ks[j]);
      if a.Some? then a.value.calldata else None)
  }

  function AllSome(calls: seq<string>): seq<Option<string>> {
    seq(|calls|, j requires 0 <= j < |calls| => Some(calls[j]))
  }

  /** Whenever position j is posted by the j-th call of a batch, and there are
      as many calls as rounds, rounds and calls pair off one to one in order. */
  lemma PairOff(m: Mechanism, feed: Feed, listed: map<string, Attribution>, txs: map<string, Tx>,
                traces: map<string, seq<Trace>>, events: seq<Event>, hash: string, batch: seq<string>)
    requires hash in txs && |RoundsOfTx(m, listed, events, |events|, hash)| == |batch|
    requires forall j :: 0 <= j < |batch| ==>
      PostedBy(m, feed, txs[hash], TracesOf(traces, hash), j).calldata == Some(batch[j])
    ensures PostedCalls(m, feed, listed, txs, traces, events, hash) == AllSome(batch)
  {
    hide PostedBy;
    var ks := RoundsOfTx(m, listed, events, |events|, hash);
    forall j | 0 <= j < |ks|
      ensures PostedCalls(m, feed, listed, txs, traces, events, hash)[j] == Some(batch[j])
    {
      PositionOfRound(m, listed, events, |events|, hash, j);
    }
  }

  /** A batch sent straight to a relay: its setter calls to the feed, in order,
      are the calls attributed to the transaction's rounds. */
  lemma RelayPairsOff(m: Mechanism, feed: Feed, listed: map<string, Attribution>, txs: map<string, Tx>,
                      traces: map<string, seq<Trace>>, events: seq<Event>, hash: string)
    requires hash in txs
    requires SelectorOf(txs[hash].input) != EXEC_TRANSACTION && SelectorOf(txs[hash].input) != MULTI_SEND
    requires RelayBatch(m, feed, Lower(txs[hash].to), txs[hash].input).Some?
    requires |RoundsOfTx(m, listed, events, |events|, hash)|
          == |RelayBatch(m, feed, Lower(txs[hash].to), txs[hash].input).value.1|
    ensures PostedCalls(m, feed, listed, txs, traces, events, hash)
         == AllSome(RelayBatch(m, feed, Lower(txs[hash].to), txs[hash].input).value.1)
  {
    hide RelayBatch, PostedCalls, TraceCall, Lower;
    var tx := txs[hash];
    var batch := RelayBatch(m, feed, Lower(tx.to), tx.input).value.1;
    forall j | 0 <= j < |batch|
      ensures PostedBy(m, feed, tx, TracesOf(traces, hash), j).calldata == Some(batch[j])
    {
      assert SafeRouted(m, feed, tx, j) == None;
    }
    PairOff(m, feed, listed, txs, traces, events, hash, batch);
  }

  function Calldatas(candidates: seq<Candidate>): seq<string> {
    seq(|candidates|, j requires 0 <= j < |candidates| => candidates[j].calldata)
  }

  /** A batch sent straight to a MultiSend contract. */
  lemma OuterBatchPairsOff(m: Mechanism, feed: Feed, listed: map<string, Attribution>, txs: map<string, Tx>,
                           traces: map<string, seq<Trace>>, events: seq<Event>, hash: string)
    requires hash in txs && OuterBatch(m, txs[hash], Lower(feed.address)).Some?
    requires |RoundsOfTx(m, listed, events, |events|, hash)| == |OuterBatch(m, txs[hash], Lower(feed.address)).value|
    ensures PostedCalls(m, feed, listed, txs, traces, events, hash)
         == AllSome(Calldatas(OuterBatch(m, txs[hash], Lower(feed.address)).value))
  {
    hide PostedCalls, TraceCall, Lower, BatchCandidates, RelayCall;
    var tx := txs[hash];
    assert SelectorOf(tx.input) == MULTI_SEND;
    var batch := Calldatas(OuterBatch(m, tx, Lower(feed.address)).value);
    forall j | 0 <= j < |batch|
      ensures PostedBy(m, feed, tx, TracesOf(traces, hash), j).calldata == Some(batch[j])
    {
      assert ThroughSafe(m, feed, tx, j) == None;
    }
    PairOff(m, feed, listed, txs, traces, events, hash, batch);
  }

  /** A MultiSend batch a Safe executes: its calls to the feed, whatever their
      selector. */
  lemma SafeBatchPairsOff(m: Mechanism, feed: Feed, listed: map<string, Attribution>, txs: map<string, Tx>,
                          traces: map<string, seq<Trace>>, events: seq<Event>, hash: string, u: Unwrapped)
    requires hash in txs && UnwrapSpec(txs[hash].from, txs[hash].to, txs[hash].input) == Some(u)
    requires u.target != Lower(feed.address) && RelayBatch(m, feed, u.target, u.calldata) == None
    requires SafeBatch(Lower(feed.address), u.calldata).Some?
    requires |RoundsOfTx(m, listed, events, |events|, hash)| == |SafeBatch(Lower(feed.address), u.calldata).value|
    ensures PostedCalls(m, feed, listed, txs, traces, events, hash)
         == AllSome(SafeBatch(Lower(feed.address), u.calldata).value)
  {
    hide PostedCalls, TraceCall, Lower, UnwrapSpec, SafeBatch, RelayBatch;
    var tx := txs[hash];
    var batch := SafeBatch(Lower(feed.address), u.calldata).value;
    forall j | 0 <= j < |batch|
      ensures PostedBy(m, feed, tx, TracesOf(traces, hash), j).calldata == Some(batch[j])
    {
      assert RelayCall(m, feed, u.target, u.calldata, j) == None;
    }
    PairOff(m, feed, listed, txs, traces, events, hash, batch);
  }

  /** The setter calls among calls, in order. */
  function SettersOf(m: Mechanism, calls: seq<string>): (setters: seq<string>)
    ensures |setters| <= |calls|
  {
    if calls == [] then []
    else (if IsSetter(m, calls[0]) then [calls[0]] else []) + SettersOf(m, calls[1..])
  }

  /** No call that is no setter comes before a setter. */
  predicate SettersFirst(m: Mechanism, calls: seq<string>) {
    forall i, j :: 0 <= i < j < |calls| && IsSetter(m, calls[j]) ==> IsSetter(m, calls[i])
  }

  lemma {:induction false} SettersAre(m: Mechanism, calls: seq<string>, i: nat)
    ensures i < |SettersOf(m, calls)| ==> IsSetter(m, SettersOf(m, calls)[i])
    ensures SettersOf(m, calls) == [] <==> forall j :: 0 <= j < |calls| ==> !IsSetter(m, calls[j])
  {
    hide IsSetter;
    if calls != [] {
      SettersAre(m, calls[1..], if IsSetter(m, calls[0]) && i > 0 then i - 1 else i);
    }
  }

  /** The setter calls are the first calls exactly when no other call is before one. */
  lemma {:induction false} SettersPrefix(m: Mechanism, calls: seq<string>)
    ensures SettersOf(m, calls) == calls[..|SettersOf(m, calls)|] <==> SettersFirst(m, calls)
  {
    hide IsSetter;
    if calls != [] {
      var rest := calls[1..];
      var n := |SettersOf(m, rest)|;
      SettersPrefix(m, rest);
      SettersAre(m, calls, 0);
      if IsSetter(m, calls[0]) {
        assert calls[..n + 1] == [calls[0]] + rest[..n];
        assert calls[..n + 1][1..] == rest[..n] && ([calls[0]] + SettersOf(m, rest))[1..] == SettersOf(m, rest);
        assert SettersFirst(m, calls) <==> SettersFirst(m, rest) by {
          assert forall j :: 0 <= j < |rest| ==> rest[j] == calls[j + 1];
        }
      } else if n > 0 {
        SettersAre(m, calls, 0);
        assert SettersOf(m, calls)[0] != calls[..n][0];
      }
    }
  }

  /** So where a transaction's rounds are as many as the setter calls of such a batch,
      they are attributed to its setter calls exactly when no other call to the feed
      comes before one of them. */
  lemma SafeBatchSetters(m: Mechanism, feed: Feed, listed: map<string, Attribution>, txs: map<string, Tx>,
                         traces: map<string, seq<Trace>>, events: seq<Event>, hash: string, u: Unwrapped)
    requires hash in txs && UnwrapSpec(txs[hash].from, txs[hash].to, txs[hash].input) == Some(u)
    requires u.target != Lower(feed.address) && RelayBatch(m, feed, u.target, u.calldata) == None
    requires SafeBatch(Lower(feed.address), u.calldata).Some?
    requires |RoundsOfTx(m, listed, events, |events|, hash)|
          == |SettersOf(m, SafeBatch(Lower(feed.address), u.calldata).value)|
    ensures var calls := SafeBatch(Lower(feed.address), u.calldata).value;
            PostedCalls(m, feed, listed, txs, traces, events, hash) == AllSome(SettersOf(m, calls))
            <==> SettersFirst(m, calls)
  {
    hide PostedCalls, TraceCall, Lower, UnwrapSpec, SafeBatch, RelayBatch, SettersOf, SettersFirst;
    var tx := txs[hash];
    var calls := SafeBatch(Lower(feed.address), u.calldata).value;
    var setters := SettersOf(m, calls);
    forall j | 0 <= j < |setters|
      ensures PostedBy(m, feed, tx, TracesOf(traces, hash), j).calldata == Some(calls[..|setters|][j])
    {
      assert RelayCall(m, feed, u.target, u.calldata, j) == None;
    }
    PairOff(m, feed, listed, txs, traces, events, hash, calls[..|setters|]);
    SettersPrefix(m, calls);
    SameCalls(setters, calls[..|setters|]);
  }

  lemma SameCalls(a: seq<string>, b: seq<string>)
    ensures AllSome(a) == AllSome(b) <==> a == b
  {
    if AllSome(a) == AllSome(b) {
      assert |a| == |AllSome(a)| == |b|;
      assert forall j :: 0 <= j < |a| ==> AllSome(a)[j] == Some(a[j]) && AllSome(b)[j] == Some(b[j]);
    }
  }

  /** One other call to the feed before its setter call: the round is attributed to
      the other call. */
  lemma OtherCallTakesRound(m: Mechanism, feed: Feed, listed: map<string, Attribution>, txs: map<string, Tx>,
                            traces: map<string, seq<Trace>>, events: seq<Event>, hash: string, u: Unwrapped,
                            other: string, setter: string)
    requires hash in txs && UnwrapSpec(txs[hash].from, txs[hash].to, txs[hash].input) == Some(u)
    requires u.target != Lower(feed.address) && RelayBatch(m, feed, u.target, u.calldata) == None
    requires SafeBatch(Lower(feed.address), u.calldata) == Some([other, setter])
    requires !IsSetter(m, other) && IsSetter(m, setter)
    requires |RoundsOfTx(m, listed, events, |events|, hash)| == 1
    ensures PostedCalls(m, feed, listed, txs, traces, events, hash) == [Some(other)]
  {
    hide PostedCalls, TraceCall, Lower, UnwrapSpec, SafeBatch, RelayBatch, IsSetter;
    assert RelayCall(m, feed, u.target, u.calldata, 0) == None;
    PairOff(m, feed, listed, txs, traces, events, hash, [other]);
    assert AllSome([other]) == [Some(other)];
  }

  function Inputs(calls: seq<ResolvedCall>): seq<string> {
    seq(|calls|, j requires 0 <= j < |calls| => calls[j].input)
  }

  /** The setter calls of a trace, when the calldata routes give nothing. */
  lemma TracePairsOff(m: Mechanism, feed: Feed, listed: map<string, Attribution>, txs: map<string, Tx>,
                      traces: map<string, seq<Trace>>, events: seq<Event>, hash: string)
    requires hash in txs && hash in traces && traces[hash] != []
    requires forall j: nat :: SafeRouted(m, feed, txs[hash], j) == None
    requires forall j: nat :: RelayCall(m, feed, Lower(txs[hash].to), txs[hash].input, j) == None
    requires |RoundsOfTx(m, listed, events, |events|, hash)| == |TraceBatch(m, feed, traces[hash][0])|
    ensures PostedCalls(m, feed, listed, txs, traces, events, hash)
         == AllSome(Inputs(TraceBatch(m, feed, traces[hash][0])))
  {
    hide PostedCalls, SafeRouted, RelayCall, Lower, TraceBatch;
    PairOff(m, feed, listed, txs, traces, events, hash, Inputs(TraceBatch(m, feed, traces[hash][0])));
  }
}
