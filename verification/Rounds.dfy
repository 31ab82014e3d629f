/**
 Rounds of a custom event layout: the primary event's logs in chain order, each
 joined with the next log of a second event of the same transaction.
 */
module Rounds {
  import opened Prelude
  import opened Text
  import opened Abi
  import Digits
  import opened Sorting

  /** One log row; a field the explorer did not give is missing. */
  datatype Row = Row(
    block: Option<nat>, logIndex: Option<nat>, hash: Option<string>, time: Option<nat>,
    topics: seq<Option<string>>, data: Option<string>)

  /** Where a value sits: an indexed topic, or else a word of the data. */
  datatype Field = Field(topic: Option<nat>, word: Option<nat>) {
    function Read(row: Row): Option<int> {
      if topic.Some? then
        var text :- At(row.topics, topic.value);
        Int128At(text, 0)
      else
        var data :- row.data;
        var index :- word;
        Int128At(data, index)
    }

    function ReadAddress(row: Row): Option<string> {
      if topic.Some? then
        var text :- At(row.topics, topic.value);
        Some(AddressOfTopic(text))
      else
        var data :- row.data;
        var index :- word;
        var slice :- Slice(Body(data), index * 64, (index + 1) * 64);
        Some(AddressOfTopic("0x" + slice))
    }
  }

  function At(topics: seq<Option<string>>, i: nat): Option<string> {
    if i < |topics| then topics[i] else None
  }

  /** The two's complement word at an index of hex text, when it is a signed
      128-bit number. */
  function Int128At(text: string, index: nat): Option<int> {
    var slice :- Slice(Body(text), index * 64, (index + 1) * 64);
    if !IsHex(slice) then None
    else
      var v := Signed(HexBytes(slice));
      if -0x8000_0000_0000_0000_0000_0000_0000_0000 <= v < 0x8000_0000_0000_0000_0000_0000_0000_0000
      then Some(v) else None
  }

  /** The last forty characters of a topic. */
  function AddressOfTopic(topic: string): string {
    var body := Body(topic);
    Lower("0x" + body[if |body| > 40 then |body| - 40 else 0..])
  }

  /** A number in a word of the data, or in a topic, is read when it is a signed 128-bit
      number, and not otherwise. */
  lemma ReadsNumber(row: Row, words: seq<string>, i: nat, k: nat, bytes: seq<Byte>)
    requires |bytes| == 32 && forall j :: 0 <= j < |words| ==> |words[j]| == 64
    ensures row.data == Some("0x" + Joined(words)) && i < |words| && words[i] == HexText(bytes)
        ==> Field(None, Some(i)).Read(row) == Within128(Signed(bytes))
    ensures k < |row.topics| && row.topics[k] == Some("0x" + HexText(bytes))
        ==> Field(Some(k), Some(i)).Read(row) == Within128(Signed(bytes))
  {
    hide HexText, HexBytes, Joined, Signed, IsHex;
    JoinedAt(words, i);
    HexRoundTrip(bytes);
    HexBody(bytes);
    assert Body("0x" + Joined(words)) == Joined(words);
    assert HexText(bytes)[0..64] == HexText(bytes);
  }

  function Within128(v: int): Option<int> {
    if v >= -170141183460469231731687303715884105728 && v <= 170141183460469231731687303715884105727 then Some(v)
    else None
  }

  /** Nothing is read of a word or a topic that is not there. */
  lemma ReadsNothing(row: Row, words: seq<string>, i: nat, k: nat)
    requires forall j :: 0 <= j < |words| ==> |words[j]| == 64
    ensures row.data == Some("0x" + Joined(words)) && i >= |words| ==> Field(None, Some(i)).Read(row) == None
    ensures k >= |row.topics| || row.topics[k] == None ==> Field(Some(k), Some(i)).Read(row) == None
  {
    hide Joined;
    JoinedAt(words, i);
    assert Body("0x" + Joined(words)) == Joined(words);
  }

  /** An address in a word of the data, or in a topic, is its last forty characters. */
  lemma ReadsAddress(row: Row, words: seq<string>, i: nat, k: nat, pad: string, address: string)
    requires |pad| == 24 && |address| == 40 && forall j :: 0 <= j < |words| ==> |words[j]| == 64
    ensures row.data == Some("0x" + Joined(words)) && i < |words| && words[i] == pad + address
        ==> Field(None, Some(i)).ReadAddress(row) == Some(Lower("0x" + address))
    ensures k < |row.topics| && row.topics[k] == Some("0x" + (pad + address))
        ==> Field(Some(k), Some(i)).ReadAddress(row) == Some(Lower("0x" + address))
  {
    hide Joined, Lower;
    JoinedAt(words, i);
    assert Body("0x" + Joined(words)) == Joined(words);
    assert Body("0x" + (pad + address)) == pad + address && (pad + address)[24..] == address;
  }

  datatype AnswerSpec = FromField(field: Field) | FromJoin(field: Field)
  datatype IdSpec = IdField(field: Field) | Sequence
  datatype TimeSpec = TimeField(field: Field) | BlockTime

  datatype Layout = Layout(
    roundId: IdSpec, answer: AnswerSpec, timestamp: TimeSpec,
    fields: map<string, Field>, poster: Option<AnswerSpec>)

  datatype RoundEvent = RoundEvent(
    roundId: nat, answer: int, timestamp: nat, block: nat, logIndex: nat, hash: string,
    fields: map<string, int>, poster: Option<string>)

  // ------------------------------------------------------------------
  // Chain order
  // ------------------------------------------------------------------

  /** Missing sorts before present. */
  function OptionKey(o: Option<nat>): nat {
    if o.Some? then o.value + 1 else 0
  }

  predicate Precedes(a: Row, b: Row) {
    || OptionKey(a.block) < OptionKey(b.block)
    || (OptionKey(a.block) == OptionKey(b.block) && OptionKey(a.logIndex) <= OptionKey(b.logIndex))
  }

  function InChainOrder(rows: seq<Row>): seq<Row> {
    Sort(rows, Precedes)
  }

  /** No two different rows share block and log index. */
  predicate DistinctKeys(rows: seq<Row>) {
    forall i, j :: 0 <= i < j < |rows| ==> rows[i].block != rows[j].block || rows[i].logIndex != rows[j].logIndex
  }

  lemma ChainOrderFree(rows: seq<Row>, rows': seq<Row>)
    requires DistinctKeys(rows) && multiset(rows) == multiset(rows')
    ensures InChainOrder(rows) == InChainOrder(rows')
  {
    forall x, y | x in multiset(rows) && y in multiset(rows) && Precedes(x, y) && Precedes(y, x)
      ensures x == y
    {
      var i :| 0 <= i < |rows| && rows[i] == x;
      var j :| 0 <= j < |rows| && rows[j] == y;
      assert x.block == y.block && x.logIndex == y.logIndex;
    }
    SortOrderFree(rows, rows', Precedes);
  }

  // ------------------------------------------------------------------
  // The join queues
  // ------------------------------------------------------------------

  type Queues = map<string, seq<Row>>

  function Push(queues: Queues, row: Row): Queues {
    match row.hash
    case None => queues
    case Some(hash) => queues[Lower(hash) := Queue(queues, Lower(hash)) + [row]]
  }

  function Queue(queues: Queues, hash: string): seq<Row> {
    if hash in queues then queues[hash] else []
  }

  function Front(queues: Queues, hash: string): Option<Row> {
    if Queue(queues, hash) == [] then None else Some(Queue(queues, hash)[0])
  }

  function Pop(queues: Queues, hash: string): Queues {
    if Queue(queues, hash) == [] then queues else queues[hash := queues[hash][1..]]
  }

  function QueuesOf(rows: seq<Row>): Queues {
    if rows == [] then map[] else Push(QueuesOf(rows[..|rows| - 1]), rows[|rows| - 1])
  }

  predicate HasHash(row: Row, hash: string) {
    row.hash.Some? && Lower(row.hash.value) == hash
  }

  /** The rows of one transaction, in order. */
  function OfTransaction(rows: seq<Row>, hash: string): seq<Row> {
    if rows == [] then []
    else
      OfTransaction(rows[..|rows| - 1], hash)
      + if HasHash(rows[|rows| - 1], hash) then [rows[|rows| - 1]] else []
  }

  lemma {:induction false} QueueIsTransaction(rows: seq<Row>, hash: string)
    ensures Queue(QueuesOf(rows), hash) == OfTransaction(rows, hash)
  {
    if rows != [] {
      QueueIsTransaction(rows[..|rows| - 1], hash);
    }
  }

  // ------------------------------------------------------------------
  // Decoding
  // ------------------------------------------------------------------

  /** What one row leaves: its round, the queues, and how many join rows of its
      transaction it took. */
  datatype Step = Step(event: Option<RoundEvent>, queues: Queues, taken: nat)

  /** The answer of a row, when the join row in line for it is this one. */
  function AnswerFrom(row: Row, layout: Layout, next: Option<Row>): Option<int> {
    match layout.answer
    case FromField(field) => field.Read(row)
    case FromJoin(field) =>
      var joined :- next;
      field.Read(joined)
  }

  function AnswerOf(row: Row, layout: Layout, queues: Queues, hash: string): Option<int> {
    AnswerFrom(row, layout, Front(queues, hash))
  }

  function AfterAnswer(layout: Layout, queues: Queues, hash: string): Queues {
    if layout.answer.FromJoin? then Pop(queues, hash) else queues
  }

  function RoundIdOf(row: Row, layout: Layout, first: nat, index: nat): Option<nat> {
    match layout.roundId
    case IdField(field) =>
      var v :- field.Read(row);
      Some(AsU64(v))
    case Sequence => Some(first + index + 1)
  }

  function TimeOf(row: Row, layout: Layout): Option<nat> {
    match layout.timestamp
    case TimeField(field) =>
      var v :- field.Read(row);
      Some(AsU64(v))
    case BlockTime => row.time
  }

  function FieldsOf(row: Row, layout: Layout): map<string, int> {
    map name | name in layout.fields && layout.fields[name].Read(row).Some? :: layout.fields[name].Read(row).value
  }

  function PosterOf(row: Row, layout: Layout, queues: Queues, hash: string): Option<string> {
    match layout.poster
    case None => None
    case Some(FromField(field)) => field.ReadAddress(row)
    case Some(FromJoin(field)) =>
      var joined :- Front(queues, hash);
      field.ReadAddress(joined)
  }

  predicate PosterJoins(layout: Layout) {
    layout.poster.Some? && layout.poster.value.FromJoin?
  }

  function AfterPoster(layout: Layout, queues: Queues, hash: string): Queues {
    if PosterJoins(layout) then Pop(queues, hash) else queues
  }

  /** One row decoded: it takes a join row for its answer before anything can
      disqualify it, and one for its poster only when nothing does. */
  function StepRow(row: Row, layout: Layout, first: nat, index: nat, queues: Queues): Step {
    match row.hash
    case None => Step(None, queues, 0)
    case Some(raw) =>
      var hash := Lower(raw);
      var answer := AnswerOf(row, layout, queues, hash);
      var queues1 := AfterAnswer(layout, queues, hash);
      var taken := if layout.answer.FromJoin? then 1 else 0;
      var roundId := RoundIdOf(row, layout, first, index);
      var time := TimeOf(row, layout);
      if answer == None || roundId == None || time == None || row.block == None then Step(None, queues1, taken)
      else Step(
        Some(RoundEvent(roundId.value, answer.value, time.value, row.block.value,
                        if row.logIndex.Some? then row.logIndex.value else 0, hash,
                        FieldsOf(row, layout), PosterOf(row, layout, queues1, hash))),
        AfterPoster(layout, queues1, hash),
        taken + if PosterJoins(layout) then 1 else 0)
  }

  /** The queues before row k. */
  function QueuesAt(rows: seq<Row>, layout: Layout, first: nat, start: Queues, k: nat): Queues
    requires k <= |rows|
    decreases k, 0
  {
    if k == 0 then start else StepAt(rows, layout, first, start, k - 1).queues
  }

  function StepAt(rows: seq<Row>, layout: Layout, first: nat, start: Queues, k: nat): Step
    requires k < |rows|
    decreases k, 1
  {
    StepRow(rows[k], layout, first, k, QueuesAt(rows, layout, first, start, k))
  }

  /** The rounds of the first k rows. */
  function RoundsOf(rows: seq<Row>, layout: Layout, first: nat, start: Queues, k: nat): seq<RoundEvent>
    requires k <= |rows|
  {
    if k == 0 then []
    else
      var event := StepAt(rows, layout, first, start, k - 1).event;
      RoundsOf(rows, layout, first, start, k - 1) + if event.Some? then [event.value] else []
  }

  function DecodeSpec(rows: seq<Row>, joinRows: seq<Row>, layout: Layout, first: nat): seq<RoundEvent> {
    var sorted := InChainOrder(rows);
    RoundsOf(sorted, layout, first, QueuesOf(InChainOrder(joinRows)), |sorted|)
  }

  method DecodeCustomRounds(rows: seq<Row>, joinRows: seq<Row>, layout: Layout, first: nat)
    returns (out: seq<RoundEvent>)
    ensures out == DecodeSpec(rows, joinRows, layout, first)
  {
    hide Sort, Precedes, Lower, Pop, Front, StepAt, QueuesAt, RoundsOf, AnswerOf, AfterAnswer, RoundIdOf, TimeOf,
         FieldsOf, PosterOf, AfterPoster;
    var sorted := InChainOrder(rows);
    var joinSorted := InChainOrder(joinRows);
    var joined: Queues := map[];
    for i := 0 to |joinSorted|
      invariant joined == QueuesOf(joinSorted[..i])
    {
      assert joinSorted[..i + 1][..i] == joinSorted[..i];
      joined := Push(joined, joinSorted[i]);
    }
    assert joinSorted[..|joinSorted|] == joinSorted;
    ghost var start := joined;
    out := [];
    RunStart(sorted, layout, first, start);
    for index := 0 to |sorted|
      invariant joined == QueuesAt(sorted, layout, first, start, index)
      invariant out == RoundsOf(sorted, layout, first, start, index)
    {
      var row := sorted[index];
      RunStep(sorted, layout, first, start, index);
      if row.hash == None {
        continue;
      }
      var hash := Lower(row.hash.value);
      var answer := AnswerOf(row, layout, joined, hash);
      ghost var before := joined;
      joined := AfterAnswer(layout, joined, hash);
      if answer == None {
        continue;
      }
      var roundId := RoundIdOf(row, layout, first, index);
      if roundId == None {
        continue;
      }
      var time := TimeOf(row, layout);
      if time == None {
        continue;
      }
      if row.block == None {
        continue;
      }
      var fields := FieldsOf(row, layout);
      var poster := PosterOf(row, layout, joined, hash);
      joined := AfterPoster(layout, joined, hash);
      out := out + [RoundEvent(roundId.value, answer.value, time.value, row.block.value,
                               if row.logIndex.Some? then row.logIndex.value else 0, hash, fields, poster)];
    }
  }

  lemma RunStart(rows: seq<Row>, layout: Layout, first: nat, start: Queues)
    ensures QueuesAt(rows, layout, first, start, 0) == start && RoundsOf(rows, layout, first, start, 0) == []
  {}

  lemma RunStep(rows: seq<Row>, layout: Layout, first: nat, start: Queues, k: nat)
    requires k < |rows|
    ensures var step := StepRow(rows[k], layout, first, k, QueuesAt(rows, layout, first, start, k));
            && QueuesAt(rows, layout, first, start, k + 1) == step.queues
            && RoundsOf(rows, layout, first, start, k + 1)
               == RoundsOf(rows, layout, first, start, k) + if step.event.Some? then [step.event.value] else []
  {}

  // ------------------------------------------------------------------
  // Order independence
  // ------------------------------------------------------------------

  /** The decoded rounds do not depend on the order of the fetched rows. */
  lemma DecodeOrderFree(rows: seq<Row>, rows': seq<Row>, joinRows: seq<Row>, joinRows': seq<Row>, layout: Layout,
                        first: nat)
    requires DistinctKeys(rows) && multiset(rows) == multiset(rows')
    requires DistinctKeys(joinRows) && multiset(joinRows) == multiset(joinRows')
    ensures DecodeSpec(rows, joinRows, layout, first) == DecodeSpec(rows', joinRows', layout, first)
  {
    ChainOrderFree(rows, rows');
    ChainOrderFree(joinRows, joinRows');
  }

  // ------------------------------------------------------------------
  // Chain order
  // ------------------------------------------------------------------

  /** a is not behind b on the chain: an earlier block, or the same block and no later
      log; a missing number counts as the earliest. */
  predicate NotBehind(a: Row, b: Row) {
    || (a.block == None && b.block.Some?)
    || (a.block.Some? && b.block.Some? && a.block.value < b.block.value)
    || (a.block == b.block
        && (a.logIndex == None || (b.logIndex.Some? && a.logIndex.value <= b.logIndex.value)))
  }

  predicate ChainOrdered(rows: seq<Row>) {
    forall i, j :: 0 <= i < j < |rows| ==> NotBehind(rows[i], rows[j])
  }

  lemma InOrder(rows: seq<Row>)
    ensures ChainOrdered(InChainOrder(rows)) && multiset(InChainOrder(rows)) == multiset(rows)
  {
    SortSorted(rows, Precedes);
    assert forall a, b :: Precedes(a, b) ==> NotBehind(a, b);
  }

  /** An event is not behind a row. */
  predicate EventBefore(e: RoundEvent, row: Row) {
    row.block.Some?
    && (e.block < row.block.value
        || (e.block == row.block.value && e.logIndex <= if row.logIndex.Some? then row.logIndex.value else 0))
  }

  predicate EventsOrdered(out: seq<RoundEvent>) {
    forall i, j :: 0 <= i < j < |out|
      ==> out[i].block < out[j].block || (out[i].block == out[j].block && out[i].logIndex <= out[j].logIndex)
  }

  /** An event stands where its row does. */
  lemma EventPlace(rows: seq<Row>, layout: Layout, first: nat, start: Queues, k: nat)
    requires k < |rows|
    ensures var event := StepAt(rows, layout, first, start, k).event;
            event.Some? ==> && rows[k].block == Some(event.value.block)
                            && event.value.logIndex == if rows[k].logIndex.Some? then rows[k].logIndex.value else 0
  {
    hide AnswerOf, RoundIdOf, TimeOf, FieldsOf, PosterOf, Lower, QueuesAt, Pop;
  }

  /** A field's number as a u64. */
  predicate ReadsU64(field: Field, row: Row, n: nat) {
    field.Read(row).Some? && n < 0x1_0000_0000_0000_0000 && n == field.Read(row).value % 0x1_0000_0000_0000_0000
  }

  /** Where every part of an event comes from; a joined answer or poster is said below. */
  lemma EventReads(rows: seq<Row>, layout: Layout, first: nat, start: Queues, k: nat)
    requires k < |rows| && StepAt(rows, layout, first, start, k).event.Some?
    ensures var e, row := StepAt(rows, layout, first, start, k).event.value, rows[k];
            && row.hash.Some? && e.hash == Lower(row.hash.value)
            && (match layout.roundId
                case IdField(field) => ReadsU64(field, row, e.roundId)
                case Sequence => e.roundId == first + k + 1)
            && (match layout.timestamp
                case TimeField(field) => ReadsU64(field, row, e.timestamp)
                case BlockTime => row.time == Some(e.timestamp))
            && (layout.answer.FromField? ==> layout.answer.field.Read(row) == Some(e.answer))
            && (layout.poster == None ==> e.poster == None)
            && (layout.poster.Some? && layout.poster.value.FromField?
                ==> e.poster == layout.poster.value.field.ReadAddress(row))
            && (forall name :: name in e.fields <==> name in layout.fields && layout.fields[name].Read(row).Some?)
            && (forall name :: name in e.fields ==> layout.fields[name].Read(row) == Some(e.fields[name]))
  {
    hide Lower, QueuesAt, Pop, Field.Read, Field.ReadAddress, Front;
  }

  /** A row is decoded exactly when it has a hash, an answer, an id, a time and a block. */
  lemma DecodedIff(rows: seq<Row>, layout: Layout, first: nat, start: Queues, k: nat)
    requires k < |rows|
    ensures var row := rows[k];
            StepAt(rows, layout, first, start, k).event.Some?
            <==> && row.hash.Some? && row.block.Some?
                 && AnswerOf(row, layout, QueuesAt(rows, layout, first, start, k), Lower(row.hash.value)).Some?
                 && (layout.roundId.IdField? ==> layout.roundId.field.Read(row).Some?)
                 && (if layout.timestamp.BlockTime? then row.time.Some? else layout.timestamp.field.Read(row).Some?)
  {
    hide AnswerOf, PosterOf, Lower, QueuesAt, Pop, Field.Read, FieldsOf;
  }

  lemma {:induction false} EventsInOrder(rows: seq<Row>, layout: Layout, first: nat, start: Queues, k: nat)
    requires k <= |rows| && ChainOrdered(rows)
    ensures EventsOrdered(RoundsOf(rows, layout, first, start, k))
    ensures forall i, m :: 0 <= i < |RoundsOf(rows, layout, first, start, k)| && k <= m < |rows|
              ==> EventBefore(RoundsOf(rows, layout, first, start, k)[i], rows[m])
  {
    hide StepAt;
    if k > 0 {
      EventsInOrder(rows, layout, first, start, k - 1);
      EventPlace(rows, layout, first, start, k - 1);
      assert forall m :: k <= m < |rows| ==> NotBehind(rows[k - 1], rows[m]);
    }
  }

  /** The rounds come out in the order of the chain, whatever the order of the rows. */
  lemma DecodedInOrder(rows: seq<Row>, joinRows: seq<Row>, layout: Layout, first: nat)
    ensures var out := DecodeSpec(rows, joinRows, layout, first);
            forall i, j :: 0 <= i < j < |out|
              ==> out[i].block < out[j].block || (out[i].block == out[j].block && out[i].logIndex <= out[j].logIndex)
  {
    hide InChainOrder, RoundsOf, QueuesOf;
    InOrder(rows);
    var sorted := InChainOrder(rows);
    EventsInOrder(sorted, layout, first, QueuesOf(InChainOrder(joinRows)), |sorted|);
  }

  /** With sequence ids a round of a later block has a greater id. */
  lemma LaterBlockGreaterId(rows: seq<Row>, joinRows: seq<Row>, layout: Layout, first: nat)
    requires layout.roundId.Sequence?
    ensures var out := DecodeSpec(rows, joinRows, layout, first);
            forall i, j :: 0 <= i < |out| && 0 <= j < |out| && out[i].block < out[j].block
              ==> first < out[i].roundId < out[j].roundId
  {
    hide InChainOrder, RoundsOf, QueuesOf;
    DecodedInOrder(rows, joinRows, layout, first);
    var sorted := InChainOrder(rows);
    SequenceIdsRise(sorted, layout, first, QueuesOf(InChainOrder(joinRows)), |sorted|);
  }

  lemma {:induction false} JoinCount(rows: seq<Row>, hash: string, r: Row)
    ensures multiset(OfTransaction(rows, hash))[r] == if HasHash(r, hash) then multiset(rows)[r] else 0
  {
    hide HasHash;
    if rows != [] {
      var n := |rows| - 1;
      JoinCount(rows[..n], hash, r);
      assert rows == rows[..n] + [rows[n]];
    }
  }

  lemma {:induction false} JoinsInOrder(rows: seq<Row>, hash: string)
    requires ChainOrdered(rows)
    ensures ChainOrdered(OfTransaction(rows, hash))
  {
    hide HasHash, NotBehind;
    if rows != [] {
      var n := |rows| - 1;
      JoinsInOrder(rows[..n], hash);
      var init := OfTransaction(rows[..n], hash);
      forall i | 0 <= i < |init|
        ensures NotBehind(init[i], rows[n])
      {
        TransactionRows(rows[..n], hash, init[i]);
      }
    }
  }

  /** The queue of a transaction starts with its join rows, each of them once, the order
      of the chain, whatever the order in which they came. */
  lemma QueuesInOrder(joinRows: seq<Row>, hash: string)
    ensures ChainOrdered(Queue(QueuesOf(InChainOrder(joinRows)), hash))
    ensures forall r :: multiset(Queue(QueuesOf(InChainOrder(joinRows)), hash))[r]
                     == if HasHash(r, hash) then multiset(joinRows)[r] else 0
  {
    hide InChainOrder, QueuesOf, OfTransaction, HasHash, NotBehind;
    InOrder(joinRows);
    QueueIsTransaction(InChainOrder(joinRows), hash);
    JoinsInOrder(InChainOrder(joinRows), hash);
    forall r
      ensures multiset(OfTransaction(InChainOrder(joinRows), hash))[r]
           == if HasHash(r, hash) then multiset(joinRows)[r] else 0
    {
      JoinCount(InChainOrder(joinRows), hash, r);
    }
  }

  // ------------------------------------------------------------------
  // Which join row goes to which round
  // ------------------------------------------------------------------

  /** How many join rows of a transaction the first k rows took. */
  function TakenBefore(rows: seq<Row>, layout: Layout, first: nat, start: Queues, k: nat, hash: string): nat
    requires k <= |rows|
  {
    if k == 0 then 0
    else
      TakenBefore(rows, layout, first, start, k - 1, hash)
      + if HasHash(rows[k - 1], hash) then StepAt(rows, layout, first, start, k - 1).taken else 0
  }

  function Drop(s: seq<Row>, n: nat): seq<Row> {
    if n <= |s| then s[n..] else []
  }

  lemma PopDrops(queues: Queues, hash: string, other: string, s: seq<Row>, n: nat)
    requires Queue(queues, other) == Drop(s, n)
    ensures Queue(Pop(queues, hash), other) == Drop(s, if other == hash then n + 1 else n)
  {}

  /** The queue of a transaction is its join rows less those already taken:
      they are taken in chain order, none twice and none skipped. */
  lemma {:induction false} QueueAfter(rows: seq<Row>, layout: Layout, first: nat, start: Queues, k: nat, hash: string)
    requires k <= |rows|
    ensures Queue(QueuesAt(rows, layout, first, start, k), hash)
         == Drop(Queue(start, hash), TakenBefore(rows, layout, first, start, k, hash))
  {
    hide Queue, Drop, Pop, Lower, AnswerOf, RoundIdOf, TimeOf, FieldsOf, PosterOf;
    if k == 0 {
      DropNothing(Queue(start, hash));
    } else {
      QueueAfter(rows, layout, first, start, k - 1, hash);
      var row, queues := rows[k - 1], QueuesAt(rows, layout, first, start, k - 1);
      var n := TakenBefore(rows, layout, first, start, k - 1, hash);
      if row.hash.Some? {
        var h := Lower(row.hash.value);
        PopDrops(queues, h, hash, Queue(start, hash), n);
        var queues1 := AfterAnswer(layout, queues, h);
        var n1 := if layout.answer.FromJoin? && h == hash then n + 1 else n;
        assert Queue(queues1, hash) == Drop(Queue(start, hash), n1);
        PopDrops(queues1, h, hash, Queue(start, hash), n1);
      }
    }
  }

  lemma DropNothing(s: seq<Row>)
    ensures Drop(s, 0) == s
  {}

  /** The join row next in line for row k, if there is one. */
  function NextJoin(rows: seq<Row>, joinRows: seq<Row>, layout: Layout, first: nat, k: nat, hash: string): Option<Row>
    requires k < |rows|
  {
    Front(QueuesAt(rows, layout, first, QueuesOf(joinRows), k), hash)
  }

  function Nth(s: seq<Row>, n: nat): Option<Row> {
    if n < |s| then Some(s[n]) else None
  }

  lemma NextJoinIsNth(rows: seq<Row>, joinRows: seq<Row>, layout: Layout, first: nat, k: nat, hash: string)
    requires k < |rows|
    ensures NextJoin(rows, joinRows, layout, first, k, hash)
         == Nth(OfTransaction(joinRows, hash), TakenBefore(rows, layout, first, QueuesOf(joinRows), k, hash))
  {
    QueueIsTransaction(joinRows, hash);
    QueueAfter(rows, layout, first, QueuesOf(joinRows), k, hash);
  }

  /** How many of the first k rows belong to a transaction. */
  function CountBefore(rows: seq<Row>, k: nat, hash: string): nat
    requires k <= |rows|
  {
    if k == 0 then 0 else CountBefore(rows, k - 1, hash) + if HasHash(rows[k - 1], hash) then 1 else 0
  }

  /** A row that nothing disqualifies, when the join row in line for it is this one. */
  predicate Complete(rows: seq<Row>, layout: Layout, first: nat, k: nat, next: Option<Row>)
    requires k < |rows|
  {
    && AnswerFrom(rows[k], layout, next).Some? && RoundIdOf(rows[k], layout, first, k).Some?
    && TimeOf(rows[k], layout).Some? && rows[k].block.Some?
  }

  /** The place of the next event of a transaction among the join rows of it: each event
      before it takes one for a joined answer, and another one for a joined poster when
      it is complete. */
  function Place(rows: seq<Row>, joins: seq<Row>, layout: Layout, first: nat, k: nat, hash: string): nat
    requires k <= |rows|
  {
    if k == 0 then 0
    else
      var place := Place(rows, joins, layout, first, k - 1, hash);
      if !HasHash(rows[k - 1], hash) then place
      else
        place + (if layout.answer.FromJoin? then 1 else 0)
        + if PosterJoins(layout) && Complete(rows, layout, first, k - 1, Nth(joins, place)) then 1 else 0
  }

  /** How many of the first k rows are complete events of a transaction. */
  function CompleteBefore(rows: seq<Row>, joins: seq<Row>, layout: Layout, first: nat, k: nat, hash: string): nat
    requires k <= |rows|
  {
    if k == 0 then 0
    else
      var next := Nth(joins, Place(rows, joins, layout, first, k - 1, hash));
      CompleteBefore(rows, joins, layout, first, k - 1, hash)
      + if HasHash(rows[k - 1], hash) && Complete(rows, layout, first, k - 1, next) then 1 else 0
  }

  lemma {:induction false} PlaceCounts(rows: seq<Row>, joins: seq<Row>, layout: Layout, first: nat, k: nat,
                                       hash: string)
    requires k <= |rows|
    ensures Place(rows, joins, layout, first, k, hash)
         == (if layout.answer.FromJoin? then CountBefore(rows, k, hash) else 0)
            + if PosterJoins(layout) then CompleteBefore(rows, joins, layout, first, k, hash) else 0
  {
    hide HasHash, Complete, Nth;
    if k > 0 {
      PlaceCounts(rows, joins, layout, first, k - 1, hash);
    }
  }

  /** What one event takes. */
  lemma StepTakes(rows: seq<Row>, joinRows: seq<Row>, layout: Layout, first: nat, k: nat)
    requires k < |rows| && rows[k].hash.Some?
    ensures var step := StepAt(rows, layout, first, QueuesOf(joinRows), k);
            var next := NextJoin(rows, joinRows, layout, first, k, Lower(rows[k].hash.value));
            && (step.event.Some? <==> Complete(rows, layout, first, k, next))
            && (step.event.Some? ==> AnswerFrom(rows[k], layout, next) == Some(step.event.value.answer))
            && step.taken == (if layout.answer.FromJoin? then 1 else 0)
                             + if PosterJoins(layout) && step.event.Some? then 1 else 0
  {
    hide Front, Pop, Lower, RoundIdOf, TimeOf, FieldsOf, PosterOf, QueuesOf, QueuesAt, AnswerFrom;
  }

  lemma {:induction false} TakenIsPlace(rows: seq<Row>, joinRows: seq<Row>, layout: Layout, first: nat, k: nat,
                                        hash: string)
    requires k <= |rows|
    ensures TakenBefore(rows, layout, first, QueuesOf(joinRows), k, hash)
         == Place(rows, OfTransaction(joinRows, hash), layout, first, k, hash)
  {
    hide StepAt, NextJoin, Lower, QueuesOf, OfTransaction, Complete, Nth;
    if k > 0 {
      TakenIsPlace(rows, joinRows, layout, first, k - 1, hash);
      NextJoinIsNth(rows, joinRows, layout, first, k - 1, hash);
      if rows[k - 1].hash.Some? {
        StepTakes(rows, joinRows, layout, first, k - 1);
      }
    }
  }

  /** The join row in line for an event is the one at its place; whether it is decoded,
      and its answer, hang on that row. */
  lemma JoinsByPlace(rows: seq<Row>, joinRows: seq<Row>, layout: Layout, first: nat, k: nat)
    requires k < |rows| && rows[k].hash.Some?
    ensures var hash := Lower(rows[k].hash.value);
            var joins := OfTransaction(joinRows, hash);
            var next := Nth(joins, Place(rows, joins, layout, first, k, hash));
            var event := StepAt(rows, layout, first, QueuesOf(joinRows), k).event;
            && NextJoin(rows, joinRows, layout, first, k, hash) == next
            && (event.Some? <==> Complete(rows, layout, first, k, next))
            && (event.Some? ==> AnswerFrom(rows[k], layout, next) == Some(event.value.answer))
  {
    hide StepAt, NextJoin, Lower, QueuesOf, OfTransaction, Complete, Nth, AnswerFrom, Place, TakenBefore;
    var hash := Lower(rows[k].hash.value);
    StepTakes(rows, joinRows, layout, first, k);
    NextJoinIsNth(rows, joinRows, layout, first, k, hash);
    TakenIsPlace(rows, joinRows, layout, first, k, hash);
  }

  /** With a joined answer an event answers with the join row whose place counts the
      events before it, each complete one twice when the poster is joined too. */
  lemma AnswerJoinsByPosition(rows: seq<Row>, joinRows: seq<Row>, layout: Layout, first: nat, k: nat)
    requires k < |rows| && rows[k].hash.Some? && layout.answer.FromJoin?
    ensures var hash := Lower(rows[k].hash.value);
            var joins := OfTransaction(joinRows, hash);
            var twice := if PosterJoins(layout) then CompleteBefore(rows, joins, layout, first, k, hash) else 0;
            var next := Nth(joins, CountBefore(rows, k, hash) + twice);
            var event := StepAt(rows, layout, first, QueuesOf(joinRows), k).event;
            && NextJoin(rows, joinRows, layout, first, k, hash) == next
            && (event.Some? ==> next.Some? && layout.answer.field.Read(next.value) == Some(event.value.answer))
  {
    hide StepAt, NextJoin, OfTransaction, QueuesOf, Lower, Place, CompleteBefore, CountBefore, Complete;
    var hash := Lower(rows[k].hash.value);
    JoinsByPlace(rows, joinRows, layout, first, k);
    PlaceCounts(rows, OfTransaction(joinRows, hash), layout, first, k, hash);
  }

  /** With a joined poster a decoded event takes its poster from the join row whose place
      counts the complete events before it; with a joined answer too, every event before
      it and its own answer as well. */
  lemma PosterJoinsByCompleteness(rows: seq<Row>, joinRows: seq<Row>, layout: Layout, first: nat, k: nat)
    requires k < |rows| && rows[k].hash.Some? && PosterJoins(layout)
    ensures var hash := Lower(rows[k].hash.value);
            var joins := OfTransaction(joinRows, hash);
            var answers := if layout.answer.FromJoin? then CountBefore(rows, k, hash) + 1 else 0;
            var joined := Nth(joins, answers + CompleteBefore(rows, joins, layout, first, k, hash));
            var event := StepAt(rows, layout, first, QueuesOf(joinRows), k).event;
            event.Some? ==>
              event.value.poster == if joined == None then None else layout.poster.value.field.ReadAddress(joined.value)
  {
    hide OfTransaction, QueuesOf, Lower, Place, CompleteBefore, CountBefore, AnswerOf, RoundIdOf, TimeOf, FieldsOf;
    var hash := Lower(rows[k].hash.value);
    QueueIsTransaction(joinRows, hash);
    QueueAfter(rows, layout, first, QueuesOf(joinRows), k, hash);
    TakenIsPlace(rows, joinRows, layout, first, k, hash);
    PlaceCounts(rows, OfTransaction(joinRows, hash), layout, first, k, hash);
  }

  /** Every earlier event of the transaction is complete, when answers are not joined. */
  predicate EarlierComplete(rows: seq<Row>, layout: Layout, first: nat, k: nat, hash: string)
    requires k <= |rows|
  {
    forall i :: 0 <= i < k && HasHash(rows[i], hash) ==> Complete(rows, layout, first, i, None)
  }

  lemma {:induction false} CompleteCount(rows: seq<Row>, joins: seq<Row>, layout: Layout, first: nat, k: nat,
                                         hash: string)
    requires k <= |rows| && layout.answer.FromField?
    ensures CompleteBefore(rows, joins, layout, first, k, hash) <= CountBefore(rows, k, hash)
    ensures CompleteBefore(rows, joins, layout, first, k, hash) == CountBefore(rows, k, hash)
        <==> EarlierComplete(rows, layout, first, k, hash)
  {
    hide HasHash, Complete, Nth, Place;
    if k > 0 {
      CompleteCount(rows, joins, layout, first, k - 1, hash);
      OwnAnswer(rows, layout, first, k - 1, Nth(joins, Place(rows, joins, layout, first, k - 1, hash)));
      assert EarlierComplete(rows, layout, first, k, hash)
        <==> EarlierComplete(rows, layout, first, k - 1, hash)
             && (HasHash(rows[k - 1], hash) ==> Complete(rows, layout, first, k - 1, None));
    }
  }

  lemma OwnAnswer(rows: seq<Row>, layout: Layout, first: nat, k: nat, next: Option<Row>)
    requires k < |rows| && layout.answer.FromField?
    ensures Complete(rows, layout, first, k, next) == Complete(rows, layout, first, k, None)
  {}

  /** No earlier event of the transaction would be complete with the join row of its own
      position. */
  predicate NoneComplete(rows: seq<Row>, joins: seq<Row>, layout: Layout, first: nat, k: nat, hash: string)
    requires k <= |rows|
  {
    forall i :: 0 <= i < k && HasHash(rows[i], hash)
      ==> !Complete(rows, layout, first, i, Nth(joins, CountBefore(rows, i, hash)))
  }

  lemma {:induction false} NoneCompleteIff(rows: seq<Row>, joins: seq<Row>, layout: Layout, first: nat, k: nat,
                                           hash: string)
    requires k <= |rows| && layout.answer.FromJoin?
    ensures CompleteBefore(rows, joins, layout, first, k, hash) == 0
        <==> NoneComplete(rows, joins, layout, first, k, hash)
  {
    hide HasHash, Complete, Nth, CountBefore, Place;
    if k > 0 {
      NoneCompleteIff(rows, joins, layout, first, k - 1, hash);
      PlaceCounts(rows, joins, layout, first, k - 1, hash);
      assert NoneComplete(rows, joins, layout, first, k, hash)
        <==> NoneComplete(rows, joins, layout, first, k - 1, hash)
             && (HasHash(rows[k - 1], hash)
                 ==> !Complete(rows, layout, first, k - 1, Nth(joins, CountBefore(rows, k - 1, hash))));
    }
  }

  lemma {:induction false} TransactionRows(rows: seq<Row>, hash: string, row: Row)
    requires row in OfTransaction(rows, hash)
    ensures row in rows
  {
    hide HasHash;
    if row != rows[|rows| - 1] {
      TransactionRows(rows[..|rows| - 1], hash, row);
    }
  }

  lemma {:induction false} TransactionRowsDistinct(rows: seq<Row>, hash: string)
    requires DistinctKeys(rows)
    ensures DistinctKeys(OfTransaction(rows, hash))
  {
    hide HasHash;
    if rows != [] {
      var n := |rows| - 1;
      TransactionRowsDistinct(rows[..n], hash);
      var init := OfTransaction(rows[..n], hash);
      forall i | 0 <= i < |init|
        ensures init[i].block != rows[n].block || init[i].logIndex != rows[n].logIndex
      {
        TransactionRows(rows[..n], hash, init[i]);
      }
    }
  }

  lemma SameNth(joins: seq<Row>, m: nat, n: nat)
    requires DistinctKeys(joins)
    ensures Nth(joins, m) == Nth(joins, n) <==> m == n || (|joins| <= m && |joins| <= n)
  {}

  /** With a joined answer, an event is offered the join row of its own position exactly
      when the poster is not joined too, or no earlier event of the transaction is
      complete with the row of its position, or there is no row at that position. */
  lemma AnswerPositionIff(rows: seq<Row>, joinRows: seq<Row>, layout: Layout, first: nat, k: nat)
    requires k < |rows| && rows[k].hash.Some? && layout.answer.FromJoin?
    requires DistinctKeys(joinRows)
    ensures var hash := Lower(rows[k].hash.value);
            var joins := OfTransaction(joinRows, hash);
            NextJoin(rows, joinRows, layout, first, k, hash) == Nth(joins, CountBefore(rows, k, hash))
            <==> || !PosterJoins(layout) || NoneComplete(rows, joins, layout, first, k, hash)
                 || |joins| <= CountBefore(rows, k, hash)
  {
    hide StepAt, NextJoin, OfTransaction, QueuesOf, Lower, NoneComplete, CompleteBefore, CountBefore, Complete, Nth;
    var hash := Lower(rows[k].hash.value);
    var joins := OfTransaction(joinRows, hash);
    AnswerJoinsByPosition(rows, joinRows, layout, first, k);
    NoneCompleteIff(rows, joins, layout, first, k, hash);
    TransactionRowsDistinct(joinRows, hash);
    var count := CountBefore(rows, k, hash);
    SameNth(joins, count + CompleteBefore(rows, joins, layout, first, k, hash), count);
  }

  /** When only the poster is joined, an event is offered the join row of its own
      position exactly when every earlier event of the transaction is complete, or no
      join row is left for it. */
  lemma PosterPositionIff(rows: seq<Row>, joinRows: seq<Row>, layout: Layout, first: nat, k: nat)
    requires k < |rows| && rows[k].hash.Some? && layout.answer.FromField? && PosterJoins(layout)
    requires DistinctKeys(joinRows)
    ensures var hash := Lower(rows[k].hash.value);
            var joins := OfTransaction(joinRows, hash);
            NextJoin(rows, joinRows, layout, first, k, hash) == Nth(joins, CountBefore(rows, k, hash))
            <==> EarlierComplete(rows, layout, first, k, hash)
                 || |joins| <= CompleteBefore(rows, joins, layout, first, k, hash)
  {
    hide StepAt, NextJoin, OfTransaction, QueuesOf, Lower, EarlierComplete, Place, CompleteBefore, CountBefore,
         Complete, Nth;
    var hash := Lower(rows[k].hash.value);
    var joins := OfTransaction(joinRows, hash);
    JoinsByPlace(rows, joinRows, layout, first, k);
    PlaceCounts(rows, joins, layout, first, k, hash);
    CompleteCount(rows, joins, layout, first, k, hash);
    TransactionRowsDistinct(joinRows, hash);
    SameNth(joins, CompleteBefore(rows, joins, layout, first, k, hash), CountBefore(rows, k, hash));
  }

  // ------------------------------------------------------------------
  // A poster matched one event early
  // ------------------------------------------------------------------

  /** Answers in the data, posters joined. */
  const JOINED: Layout :=
    Layout(Sequence, FromField(Field(None, Some(0))), BlockTime, map[], Some(FromJoin(Field(Some(0), None))))

  function EventRow(index: nat, data: Option<string>): Row {
    Row(Some(1), Some(index), Some("0xt"), Some(5), [], data)
  }

  function PosterRow(index: nat, poster: string): Row {
    Row(Some(1), Some(index), Some("0xt"), Some(5), [Some(poster)], None)
  }

  lemma ZeroAnswer()
    ensures Int128At(HexText(seq(32, i => 0)), 0) == Some(0)
  {
    var bytes: seq<Byte> := seq(32, i => 0);
    HexRoundTrip(bytes);
    HexBody(bytes);
    Digits.BeZeros(256, bytes);
    assert HexText(bytes)[0..64] == HexText(bytes);
  }

  lemma ShortAddresses()
    ensures AddressOfTopic("0xa") == "0xa" && AddressOfTopic("0xb") == "0xb"
  {
    assert "0xa"[2..][0..] == "a" && "0xb"[2..][0..] == "b";
    assert Lower("0x" + "a") == "0xa" && Lower("0x" + "b") == "0xb";
  }

  lemma PairInOrder(a: Row, b: Row)
    requires Precedes(a, b)
    ensures InChainOrder([a, b]) == [a, b]
  {
    hide Precedes;
    assert [a, b][..1] == [a] && [a][..0] == [];
    assert Sort([a], Precedes) == [a];
  }

  /** Two events and their two posters, the first event without an answer: the second
      event, whose own poster is 0xb, is decoded with the first one's, 0xa. */
  lemma PosterOneEarly()
    ensures var rows := [EventRow(0, None), EventRow(2, Some(HexText(seq(32, i => 0))))];
            var joinRows := [PosterRow(1, "0xa"), PosterRow(3, "0xb")];
            var out := DecodeSpec(rows, joinRows, JOINED, 0);
            && JOINED.poster.value.field.ReadAddress(joinRows[1]) == Some("0xb")
            && |out| == 1 && out[0].logIndex == 2 && out[0].poster == Some("0xa")
  {
    hide Int128At, AddressOfTopic, Lower, HexText, InChainOrder;
    ZeroAnswer();
    ShortAddresses();
    var rows := [EventRow(0, None), EventRow(2, Some(HexText(seq(32, i => 0))))];
    var joinRows := [PosterRow(1, "0xa"), PosterRow(3, "0xb")];
    PairInOrder(rows[0], rows[1]);
    PairInOrder(joinRows[0], joinRows[1]);
    var start := QueuesOf(joinRows);
    assert joinRows[..1][..0] == [] && joinRows[..1] == [joinRows[0]];
    var hash := Lower("0xt");
    assert Queue(start, hash) == joinRows by {
      assert Queue(QueuesOf(joinRows[..1]), hash) == [joinRows[0]];
    }
    RunStart(rows, JOINED, 0, start);
    RunStep(rows, JOINED, 0, start, 0);
    RunStep(rows, JOINED, 0, start, 1);
  }

  // ------------------------------------------------------------------
  // Answers and posters joined
  // ------------------------------------------------------------------

  const BOTH_JOINED: Layout :=
    Layout(Sequence, FromJoin(Field(None, Some(0))), BlockTime, map[], Some(FromJoin(Field(Some(0), None))))

  function JoinRow(index: nat, poster: string): Row {
    Row(Some(1), Some(index), Some("0xt"), Some(5), [Some(poster)], Some(HexText(seq(32, i => 0))))
  }

  /** Two events, each with one join row that has its answer and its poster: the first
      event takes both rows, and the second one is not decoded. */
  lemma FirstTakesBoth()
    ensures var rows := [EventRow(0, None), EventRow(2, None)];
            var joinRows := [JoinRow(1, "0xa"), JoinRow(3, "0xb")];
            var out := DecodeSpec(rows, joinRows, BOTH_JOINED, 0);
            && BOTH_JOINED.answer.field.Read(joinRows[1]) == Some(0)
            && |out| == 1 && out[0].logIndex == 0 && out[0].poster == Some("0xb")
  {
    hide Int128At, AddressOfTopic, Lower, HexText, InChainOrder;
    ZeroAnswer();
    ShortAddresses();
    var rows := [EventRow(0, None), EventRow(2, None)];
    var joinRows := [JoinRow(1, "0xa"), JoinRow(3, "0xb")];
    PairInOrder(rows[0], rows[1]);
    PairInOrder(joinRows[0], joinRows[1]);
    var start := QueuesOf(joinRows);
    assert joinRows[..1][..0] == [] && joinRows[..1] == [joinRows[0]];
    var hash := Lower("0xt");
    assert Queue(start, hash) == joinRows by {
      assert Queue(QueuesOf(joinRows[..1]), hash) == [joinRows[0]];
    }
    RunStart(rows, BOTH_JOINED, 0, start);
    RunStep(rows, BOTH_JOINED, 0, start, 0);
    RunStep(rows, BOTH_JOINED, 0, start, 1);
  }

  // ------------------------------------------------------------------
  // Sequence ids
  // ------------------------------------------------------------------

  /** Sequence round ids count rows, skipped ones included, so they rise
      strictly in chain order and start after the constructor's rounds. */
  lemma {:induction false} SequenceIdsRise(rows: seq<Row>, layout: Layout, first: nat, start: Queues, k: nat)
    requires k <= |rows| && layout.roundId.Sequence?
    ensures IdsRise(RoundsOf(rows, layout, first, start, k), first, k)
  {
    hide AnswerOf, TimeOf, FieldsOf, PosterOf, Lower, QueuesAt, Pop, IdsRise;
    NoIds(first);
    if k > 0 {
      SequenceIdsRise(rows, layout, first, start, k - 1);
      var event := StepAt(rows, layout, first, start, k - 1).event;
      assert event.Some? ==> event.value.roundId == first + k;
      IdsRiseSnoc(RoundsOf(rows, layout, first, start, k - 1), event, first, k);
    }
  }

  lemma NoIds(first: nat)
    ensures IdsRise([], first, 0)
  {}

  predicate IdsRise(out: seq<RoundEvent>, first: nat, k: nat) {
    && (forall i :: 0 <= i < |out| ==> first < out[i].roundId <= first + k)
    && (forall i, j :: 0 <= i < j < |out| ==> out[i].roundId < out[j].roundId)
  }

  lemma IdsRiseSnoc(init: seq<RoundEvent>, event: Option<RoundEvent>, first: nat, k: nat)
    requires k > 0 && IdsRise(init, first, k - 1)
    requires event.Some? ==> event.value.roundId == first + k
    ensures IdsRise(init + if event.Some? then [event.value] else [], first, k)
  {}
}
