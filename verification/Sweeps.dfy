/**
 The two log sweeps: halving against an explorer that truncates silently at a
 row cap, and windowed reads from a node that refuses ranges it finds too broad.
 */
module Sweeps {
  import opened Prelude
  import Arith

  const CAP: nat := 1000
  const U64_MAX: nat := 0xFFFF_FFFF_FFFF_FFFF

  /** The rows of the blocks from `from` to `to`, both included, in order. */
  function RowsIn<R>(chain: nat -> seq<R>, from: nat, to: nat): seq<R>
    decreases 1 + to - from
  {
    if from > to then [] else chain(from) + RowsIn(chain, from + 1, to)
  }

  lemma {:induction false} RowsSplit<R>(chain: nat -> seq<R>, from: nat, mid: nat, to: nat)
    requires from <= mid + 1 <= to + 1
    ensures RowsIn(chain, from, to) == RowsIn(chain, from, mid) + RowsIn(chain, mid + 1, to)
    decreases mid + 1 - from
  {
    if from <= mid {
      RowsSplit(chain, from + 1, mid, to);
    }
  }

  lemma RowsNothing<R>(chain: nat -> seq<R>, to: nat)
    ensures RowsIn(chain, to + 1, to) == []
  {}

  // ------------------------------------------------------------------
  // The explorer sweep
  // ------------------------------------------------------------------

  /** What the explorer returns for a range: the first CAP rows, unmarked. */
  function Answer<R>(chain: nat -> seq<R>, from: nat, to: nat): seq<R> {
    FirstRows(RowsIn(chain, from, to))
  }

  function FirstRows<R>(rows: seq<R>): seq<R> {
    if |rows| < CAP then rows else rows[..CAP]
  }

  /** The explorer: a read either fails or answers from the chain. */
  class Explorer<R(0)> {
    const chain: nat -> seq<R>

    constructor (chain: nat -> seq<R>)
      ensures this.chain == chain
    {
      this.chain := chain;
    }

    method Read(from: nat, to: nat) returns (r: Result<seq<R>, string>)
      ensures r.Ok? ==> r.value == Answer(chain, from, to)
    {
      var fails: bool := *;
      r := if fails then Err("read failed") else Ok(Answer(chain, from, to));
    }
  }

  /** One response of a sweep as the bundle records it. */
  datatype Entry = Entry(from: nat, to: nat, rows: nat, capped: bool)

  /** What a sweep leaves in the bundle: every response, and one finding per
      block that alone reaches the cap. */
  class Evidence {
    var entries: seq<Entry>
    var findings: seq<nat>

    constructor ()
      ensures entries == [] && findings == []
    {
      entries, findings := [], [];
    }
  }

  /** Every row but those past the cap within one block. */
  function Kept<R>(chain: nat -> seq<R>, from: nat, to: nat): seq<R>
    decreases 1 + to - from
  {
    if from > to then [] else FirstRows(chain(from)) + Kept(chain, from + 1, to)
  }

  /** The blocks that alone reach the cap, in order. */
  function CappedBlocks<R>(chain: nat -> seq<R>, from: nat, to: nat): seq<nat>
    decreases 1 + to - from
  {
    if from > to then []
    else (if |chain(from)| >= CAP then [from] else []) + CappedBlocks(chain, from + 1, to)
  }

  lemma {:induction false} KeptSplit<R>(chain: nat -> seq<R>, from: nat, mid: nat, to: nat)
    requires from <= mid + 1 <= to + 1
    ensures Kept(chain, from, to) == Kept(chain, from, mid) + Kept(chain, mid + 1, to)
    decreases mid + 1 - from
  {
    hide FirstRows;
    if from <= mid {
      KeptSplit(chain, from + 1, mid, to);
    }
  }

  lemma {:induction false} CappedSplit<R>(chain: nat -> seq<R>, from: nat, mid: nat, to: nat)
    requires from <= mid + 1 <= to + 1
    ensures CappedBlocks(chain, from, to) == CappedBlocks(chain, from, mid) + CappedBlocks(chain, mid + 1, to)
    decreases mid + 1 - from
  {
    if from <= mid {
      CappedSplit(chain, from + 1, mid, to);
    }
  }

  /** A range under the cap has no block at the cap, and loses nothing. */
  lemma {:induction false} UnderCap<R>(chain: nat -> seq<R>, from: nat, to: nat)
    requires |RowsIn(chain, from, to)| < CAP
    ensures Kept(chain, from, to) == RowsIn(chain, from, to) && CappedBlocks(chain, from, to) == []
    decreases 1 + to - from
  {
    if from <= to {
      UnderCap(chain, from + 1, to);
    }
  }

  /** A range that cannot be halved and sits at the cap is one capped block. */
  lemma CappedBlock<R>(chain: nat -> seq<R>, from: nat, to: nat)
    requires from >= to && |RowsIn(chain, from, to)| >= CAP
    ensures Kept(chain, from, to) == Answer(chain, from, to) && CappedBlocks(chain, from, to) == [from]
  {
    assert RowsIn(chain, from, to) == chain(from) + RowsIn(chain, from + 1, to) == chain(from);
  }

  /** The responses a sweep records: the whole range, and when it sits at the cap those of
      its halves. */
  function Responses<R>(chain: nat -> seq<R>, from: nat, to: nat): seq<Entry>
    decreases if from <= to then to - from else 0
  {
    var rows := |Answer(chain, from, to)|;
    var mid := from + (to - from) / 2;
    [Entry(from, to, rows, rows >= CAP)]
    + if rows < CAP || from >= to then [] else Responses(chain, from, mid) + Responses(chain, mid + 1, to)
  }

  /** Halves any range whose answer sits at the cap, down to single blocks. */
  method Sweep<R(0)>(source: Explorer<R>, evidence: Evidence, from: nat, to: nat) returns (r: Result<seq<R>, string>)
    modifies evidence
    ensures r.Ok? ==> r.value == Kept(source.chain, from, to)
    ensures r.Ok? ==> evidence.findings == old(evidence.findings) + CappedBlocks(source.chain, from, to)
    ensures r.Ok? ==> evidence.entries == old(evidence.entries) + Responses(source.chain, from, to)
    ensures old(evidence.entries) <= evidence.entries
    decreases if from <= to then to - from else 0
  {
    hide RowsIn, Kept, CappedBlocks, Responses;
    ResponsesStep(source.chain, from, to);
    var fetched := source.Read(from, to);
    if fetched.Err? {
      return fetched;
    }
    var rows := fetched.value;
    var capped := |rows| >= CAP;
    evidence.entries := evidence.entries + [Entry(from, to, |rows|, capped)];
    if !capped {
      UnderCap(source.chain, from, to);
      return Ok(rows);
    }
    if from >= to {
      CappedBlock(source.chain, from, to);
      evidence.findings := evidence.findings + [from];
      return Ok(rows);
    }
    var mid := from + (to - from) / 2;
    KeptSplit(source.chain, from, mid, to);
    CappedSplit(source.chain, from, mid, to);
    var lower := Sweep(source, evidence, from, mid);
    if lower.Err? {
      return lower;
    }
    var upper := Sweep(source, evidence, mid + 1, to);
    if upper.Err? {
      return upper;
    }
    r := Ok(lower.value + upper.value);
  }

  lemma ResponsesStep<R>(chain: nat -> seq<R>, from: nat, to: nat)
    ensures var rows, mid := |Answer(chain, from, to)|, from + (to - from) / 2;
            Responses(chain, from, to)
            == [Entry(from, to, rows, rows >= CAP)]
               + if rows < CAP || from >= to then [] else Responses(chain, from, mid) + Responses(chain, mid + 1, to)
  {}

  /** Some response that lost no row, or that is of this block alone, has the block. */
  ghost predicate Answered(entries: seq<Entry>, b: nat) {
    exists e :: e in entries && e.from <= b <= e.to && (!e.capped || e.from == e.to)
  }

  /** What a recorded response says: at most 1000 rows, and marked when they are 1000. */
  predicate Says<R>(chain: nat -> seq<R>, e: Entry) {
    && (e.capped <==> e.rows == 1000)
    && e.rows == if |RowsIn(chain, e.from, e.to)| < 1000 then |RowsIn(chain, e.from, e.to)| else 1000
  }

  /** Every response of a sweep is recorded with the rows it gave. */
  lemma {:induction false} ResponsesTrue<R>(chain: nat -> seq<R>, from: nat, to: nat)
    requires from <= to
    ensures forall e :: e in Responses(chain, from, to) ==> from <= e.from <= e.to <= to && Says(chain, e)
    decreases 1 + to - from
  {
    hide Says, Responses, Answer;
    var rows, mid := |Answer(chain, from, to)|, from + (to - from) / 2;
    ResponsesStep(chain, from, to);
    WholeSays(chain, from, to);
    if rows >= CAP && from < to {
      ResponsesTrue(chain, from, mid);
      ResponsesTrue(chain, mid + 1, to);
    }
  }

  lemma WholeSays<R>(chain: nat -> seq<R>, from: nat, to: nat)
    ensures var rows := |Answer(chain, from, to)|;
            Says(chain, Entry(from, to, rows, rows >= CAP))
  {
    hide RowsIn;
  }

  /** And no block of the range is left without an answer. */
  lemma {:induction false} ResponsesCover<R>(chain: nat -> seq<R>, from: nat, to: nat, b: nat)
    requires from <= b <= to
    ensures Answered(Responses(chain, from, to), b)
    decreases 1 + to - from
  {
    hide Responses, Answer;
    var rows, mid := |Answer(chain, from, to)|, from + (to - from) / 2;
    ResponsesStep(chain, from, to);
    if rows < CAP || from >= to {
      assert Entry(from, to, rows, rows >= CAP) in Responses(chain, from, to);
    } else if b <= mid {
      ResponsesCover(chain, from, mid, b);
    } else {
      ResponsesCover(chain, mid + 1, to, b);
    }
  }

  /** The findings name exactly the blocks of the range that reach the cap. */
  lemma {:induction false} FindingsExact<R>(chain: nat -> seq<R>, from: nat, to: nat, b: nat)
    ensures b in CappedBlocks(chain, from, to) <==> from <= b <= to && |chain(b)| >= 1000
    decreases 1 + to - from
  {
    if from <= to {
      FindingsExact(chain, from + 1, to, b);
    }
  }

  lemma {:induction false} KeptLength<R>(chain: nat -> seq<R>, from: nat, to: nat)
    ensures |Kept(chain, from, to)| <= |RowsIn(chain, from, to)|
    decreases 1 + to - from
  {
    if from <= to {
      KeptLength(chain, from + 1, to);
    }
  }

  /** A sweep is complete exactly when no block exceeds the cap; a sweep without
      a finding is complete. */
  lemma {:induction false} CompleteIff<R>(chain: nat -> seq<R>, from: nat, to: nat)
    ensures Kept(chain, from, to) == RowsIn(chain, from, to)
        <==> forall b :: from <= b <= to ==> |chain(b)| <= 1000
    ensures CappedBlocks(chain, from, to) == [] ==> Kept(chain, from, to) == RowsIn(chain, from, to)
    decreases 1 + to - from
  {
    if from <= to {
      CompleteIff(chain, from + 1, to);
      KeptLength(chain, from + 1, to);
      var first, rest := FirstRows(chain(from)), Kept(chain, from + 1, to);
      if first + rest == chain(from) + RowsIn(chain, from + 1, to) {
        assert |first| == |chain(from)|;
        assert rest == (first + rest)[|first|..];
        assert RowsIn(chain, from + 1, to) == (chain(from) + RowsIn(chain, from + 1, to))[|first|..];
      }
    }
  }

  // ------------------------------------------------------------------
  // The node sweep
  // ------------------------------------------------------------------

  datatype Reply<+R> = Rows(rows: seq<R>) | TooBroad | Failed

  datatype Window = Window(from: nat, to: nat)

  /** How a node treats each range. */
  type Node<R> = (nat, nat) -> Reply<R>

  /** The windows a sweep of one range ends up reading, or None when it fails. */
  function Leaves<R>(node: Node<R>, from: nat, to: nat): Option<seq<Window>>
    decreases if from <= to then to - from else 0
  {
    match node(from, to)
    case Rows(_) => Some([Window(from, to)])
    case TooBroad =>
      if from >= to then None
      else
        var mid := from + (to - from) / 2;
        var lower :- Leaves(node, from, mid);
        var upper :- Leaves(node, mid + 1, to);
        Some(lower + upper)
    case Failed => None
  }

  /** The rows the node gave for a list of windows. */
  function Gathered<R>(node: Node<R>, windows: seq<Window>): seq<R> {
    if windows == [] then []
    else
      var w := windows[|windows| - 1];
      Gathered(node, windows[..|windows| - 1]) + match node(w.from, w.to) { case Rows(rows) => rows case _ => [] }
  }

  lemma {:induction false} GatheredConcat<R>(node: Node<R>, ws: seq<Window>, vs: seq<Window>)
    ensures Gathered(node, ws + vs) == Gathered(node, ws) + Gathered(node, vs)
  {
    if vs == [] {
      assert ws + vs == ws;
    } else {
      GatheredConcat(node, ws, vs[..|vs| - 1]);
      assert (ws + vs)[..|ws + vs| - 1] == ws + vs[..|vs| - 1];
    }
  }

  lemma GatheredNothing<R>(node: Node<R>)
    ensures Gathered(node, []) == []
  {}

  lemma GatheredOne<R>(node: Node<R>, w: Window)
    requires node(w.from, w.to).Rows?
    ensures Gathered(node, [w]) == node(w.from, w.to).rows
  {
    assert [w][..0] == [];
  }

  /** The windows read so far. */
  class Reads {
    var windows: seq<Window>

    constructor ()
      ensures windows == []
    {
      windows := [];
    }
  }

  /** One range, halved when the node refuses it as too broad. */
  method SweepRpcLogs<R>(node: Node<R>, log: Reads, from: nat, to: nat) returns (r: Result<seq<R>, string>)
    requires from <= to
    modifies log
    ensures r.Ok? <==> Leaves(node, from, to).Some?
    ensures r.Ok? ==> log.windows == old(log.windows) + Leaves(node, from, to).value
                      && r.value == Gathered(node, Leaves(node, from, to).value)
    decreases 1 + to - from
  {
    hide Gathered;
    match node(from, to)
    case Rows(rows) =>
      GatheredOne(node, Window(from, to));
      log.windows := log.windows + [Window(from, to)];
      r := Ok(rows);
    case TooBroad =>
      if from >= to {
        return Err("range refused");
      }
      var mid := from + (to - from) / 2;
      var lower := SweepRpcLogs(node, log, from, mid);
      if lower.Err? {
        return lower;
      }
      var upper := SweepRpcLogs(node, log, mid + 1, to);
      if upper.Err? {
        return upper;
      }
      GatheredConcat(node, Leaves(node, from, mid).value, Leaves(node, mid + 1, to).value);
      r := Ok(lower.value + upper.value);
    case Failed =>
      r := Err("read failed");
  }

  /** The windows cover [from, to] in order, each block once. */
  predicate Tiles(windows: seq<Window>, from: nat, to: nat) {
    if windows == [] then from == to + 1
    else
      && windows[0].from == from <= windows[0].to <= to
      && Tiles(windows[1..], windows[0].to + 1, to)
  }

  lemma {:induction false} TilesConcat(ws: seq<Window>, vs: seq<Window>, from: nat, mid: nat, to: nat)
    requires Tiles(ws, from, mid) && Tiles(vs, mid + 1, to) && mid <= to
    ensures Tiles(ws + vs, from, to)
  {
    if ws == [] {
      assert ws + vs == vs;
    } else {
      TilesConcat(ws[1..], vs, ws[0].to + 1, mid, to);
      assert (ws + vs)[1..] == ws[1..] + vs;
    }
  }

  lemma TilesWhole(from: nat, to: nat)
    requires from <= to
    ensures Tiles([Window(from, to)], from, to)
  {
    assert [Window(from, to)][1..] == [];
  }

  /** Whatever the node refuses, the windows it answered tile the range. */
  lemma {:induction false} LeavesTile<R>(node: Node<R>, from: nat, to: nat)
    requires from <= to && Leaves(node, from, to).Some?
    ensures Tiles(Leaves(node, from, to).value, from, to)
    ensures forall w :: w in Leaves(node, from, to).value ==> node(w.from, w.to).Rows?
    decreases 1 + to - from
  {
    hide Tiles;
    TilesWhole(from, to);
    if node(from, to).TooBroad? {
      var mid := from + (to - from) / 2;
      LeavesTile(node, from, mid);
      LeavesTile(node, mid + 1, to);
      TilesConcat(Leaves(node, from, mid).value, Leaves(node, mid + 1, to).value, from, mid, to);
    }
  }

  /** Narrowing always ends well when single blocks are never refused. */
  lemma {:induction false} LeavesExist<R>(node: Node<R>, from: nat, to: nat)
    requires from <= to
    requires forall a: nat, b: nat :: from <= a <= b <= to ==> !node(a, b).Failed?
    requires forall a: nat :: from <= a <= to ==> node(a, a).Rows?
    ensures Leaves(node, from, to).Some?
    decreases 1 + to - from
  {
    if node(from, to).TooBroad? {
      var mid := from + (to - from) / 2;
      LeavesExist(node, from, mid);
      LeavesExist(node, mid + 1, to);
    }
  }

  /** A node that tells the truth about the ranges it answers. */
  ghost predicate Truthful<R(!new)>(node: Node<R>, chain: nat -> seq<R>) {
    forall a: nat, b: nat :: node(a, b).Rows? ==> node(a, b).rows == RowsIn(chain, a, b)
  }

  /** Windows that tile a range gather exactly its rows. */
  lemma {:induction false} TilesGather<R(!new)>(node: Node<R>, chain: nat -> seq<R>, ws: seq<Window>, from: nat,
                                                to: nat)
    requires Truthful(node, chain) && Tiles(ws, from, to)
    requires forall w :: w in ws ==> node(w.from, w.to).Rows?
    ensures Gathered(node, ws) == RowsIn(chain, from, to)
    decreases |ws|
  {
    hide RowsIn;
    RowsNothing(chain, to);
    if ws != [] {
      var w := ws[0];
      TilesGather(node, chain, ws[1..], w.to + 1, to);
      assert ws == [w] + ws[1..];
      GatheredConcat(node, [w], ws[1..]);
      GatheredOne(node, w);
      RowsSplit(chain, from, w.to, to);
    }
  }

  datatype SweepError = ReadFailed | Overflow

  /** The last block of the chunk that starts at `from`. */
  function ChunkEnd(from: nat, step: nat, last: nat): nat
    requires step > 0
  {
    var end := if from + (step - 1) > U64_MAX then U64_MAX else from + (step - 1);
    if end < last then end else last
  }

  /** The windows a sweep of all chunks ends up reading, or None when it fails. */
  function SweepWindows<R>(node: Node<R>, from: nat, step: nat, last: nat): Option<seq<Window>>
    requires step > 0 && last < U64_MAX
    decreases 1 + last - from
  {
    if from > last then Some([])
    else
      var end := ChunkEnd(from, step, last);
      var leaves :- Leaves(node, from, end);
      var rest :- SweepWindows(node, end + 1, step, last);
      Some(leaves + rest)
  }

  function Prepend(windows: seq<Window>, rest: Option<seq<Window>>): Option<seq<Window>> {
    match rest case Some(ws) => Some(windows + ws) case None => None
  }

  lemma NextChunk<R>(node: Node<R>, from: nat, step: nat, last: nat, windows: seq<Window>)
    requires step > 0 && from <= last < U64_MAX
    ensures var end := ChunkEnd(from, step, last);
            Prepend(windows, SweepWindows(node, from, step, last))
            == match Leaves(node, from, end)
               case Some(leaves) => Prepend(windows + leaves, SweepWindows(node, end + 1, step, last))
               case None => None
  {
    hide Leaves;
    var end := ChunkEnd(from, step, last);
    var leaves, rest := Leaves(node, from, end), SweepWindows(node, end + 1, step, last);
    if leaves.Some? && rest.Some? {
      assert windows + (leaves.value + rest.value) == windows + leaves.value + rest.value;
    }
  }

  lemma NoMoreChunks<R>(node: Node<R>, from: nat, step: nat, last: nat, windows: seq<Window>)
    requires step > 0 && last < U64_MAX && from > last
    ensures Prepend(windows, SweepWindows(node, from, step, last)) == Some(windows)
  {
    assert windows + [] == windows;
  }

  lemma PrependNothing(rest: Option<seq<Window>>)
    ensures Prepend([], rest) == rest
  {
    assert rest.Some? ==> [] + rest.value == rest.value;
  }

  /** Windows of `chunk` blocks (0 read as 1) from the start block to the last block.
      The step past the last block overflows when that block is the largest block
      number there is. */
  method SweepLogs<R>(node: Node<R>, log: Reads, start: nat, chunk: nat, last: nat)
    returns (r: Result<seq<R>, SweepError>, ghost windows: seq<Window>)
    requires start <= U64_MAX && last <= U64_MAX && chunk <= U64_MAX
    modifies log
    ensures r.Ok? ==> log.windows == old(log.windows) + windows && r.value == Gathered(node, windows)
    ensures r.Ok? ==> forall w :: w in windows ==> node(w.from, w.to).Rows?
    ensures r.Ok? ==> if start <= last then Tiles(windows, start, last) else windows == []
    ensures last < U64_MAX
        ==> SweepWindows(node, start, if chunk > 1 then chunk else 1, last) == if r.Ok? then Some(windows) else None
    ensures r == Err(Overflow) ==> last == 0xFFFF_FFFF_FFFF_FFFF
    ensures last == 0xFFFF_FFFF_FFFF_FFFF ==> r.Err?
  {
    hide Leaves, Gathered, Tiles, SweepWindows, Prepend;
    var rows := [];
    GatheredNothing(node);
    var from := start;
    var step := if chunk > 1 then chunk else 1;
    windows := [];
    if last < U64_MAX {
      PrependNothing(SweepWindows(node, start, step, last));
    }
    while from <= last
      invariant start <= from <= U64_MAX
      invariant log.windows == old(log.windows) + windows && rows == Gathered(node, windows)
      invariant forall w :: w in windows ==> node(w.from, w.to).Rows?
      invariant if from == start then windows == [] else from <= last + 1 && Tiles(windows, start, from - 1)
      invariant last < U64_MAX
            ==> Prepend(windows, SweepWindows(node, from, step, last)) == SweepWindows(node, start, step, last)
      decreases last + 1 - from
    {
      var end := ChunkEnd(from, step, last);
      if last < U64_MAX {
        NextChunk(node, from, step, last, windows);
      }
      var part := SweepRpcLogs(node, log, from, end);
      if part.Err? {
        return Err(ReadFailed), windows;
      }
      ghost var leaves := Leaves(node, from, end).value;
      LeavesTile(node, from, end);
      if from > start {
        TilesConcat(windows, leaves, start, from - 1, end);
      } else {
        assert windows + leaves == leaves;
      }
      GatheredConcat(node, windows, leaves);
      windows := windows + leaves;
      rows := rows + part.value;
      if end == U64_MAX {
        return Err(Overflow), windows;
      }
      from := end + 1;
    }
    if last < U64_MAX {
      NoMoreChunks(node, from, step, last, windows);
    }
    r := Ok(rows);
  }

  /** How many chunks of `step` blocks there are. */
  function Chunks(from: nat, step: nat, last: nat): nat
    requires step > 0 && from <= last
  {
    (last - from) / step + 1
  }

  /** Chunk i: step blocks, or what is left of them. */
  function ChunkAt(from: nat, step: nat, last: nat, i: nat): Window
    requires step > 0
  {
    Window(from + i * step, if last < from + i * step + step - 1 then last else from + i * step + step - 1)
  }

  function AllChunks(from: nat, step: nat, last: nat): (ws: seq<Window>)
    requires step > 0 && from <= last
    ensures |ws| == Chunks(from, step, last)
    ensures forall i :: 0 <= i < |ws| ==> ws[i] == ChunkAt(from, step, last, i)
  {
    seq(Chunks(from, step, last), i requires 0 <= i => ChunkAt(from, step, last, i))
  }

  /** A node that answers every range is read in chunks of `step` blocks, one after the
      other. */
  lemma {:induction false} ChunksRead<R>(node: Node<R>, from: nat, step: nat, last: nat)
    requires step > 0 && from <= last < U64_MAX && forall a: nat, b: nat :: node(a, b).Rows?
    ensures SweepWindows(node, from, step, last) == Some(AllChunks(from, step, last))
    decreases last - from
  {
    hide SweepWindows, AllChunks, ChunkEnd;
    var end := ChunkEnd(from, step, last);
    ChunkInside(from, step, last);
    FirstChunk(node, from, step, last);
    if end == last {
      OneChunk(from, step, last);
      NoChunks(node, end + 1, step, last);
      assert [Window(from, end)] + [] == [Window(from, end)];
    } else {
      MoreChunks(from, step, last);
      ChunksRead(node, end + 1, step, last);
    }
  }

  lemma ChunkInside(from: nat, step: nat, last: nat)
    requires step > 0 && from <= last < U64_MAX
    ensures from <= ChunkEnd(from, step, last) <= last
  {}

  lemma NoChunks<R>(node: Node<R>, from: nat, step: nat, last: nat)
    requires step > 0 && last < U64_MAX && from > last
    ensures SweepWindows(node, from, step, last) == Some([])
  {}

  lemma FirstChunk<R>(node: Node<R>, from: nat, step: nat, last: nat)
    requires step > 0 && from <= last < U64_MAX && forall a: nat, b: nat :: node(a, b).Rows?
    ensures var end := ChunkEnd(from, step, last);
            var rest := SweepWindows(node, end + 1, step, last);
            SweepWindows(node, from, step, last) == match rest
                                                    case Some(ws) => Some([Window(from, end)] + ws)
                                                    case None => None
  {}

  lemma OneChunk(from: nat, step: nat, last: nat)
    requires step > 0 && from <= last < U64_MAX && ChunkEnd(from, step, last) == last
    ensures AllChunks(from, step, last) == [Window(from, last)]
  {
    DivSmall(last - from, step);
    assert ChunkAt(from, step, last, 0) == Window(from, last);
  }

  lemma DivSmall(x: nat, d: nat)
    requires x < d
    ensures x / d == 0
  {}

  lemma MoreChunks(from: nat, step: nat, last: nat)
    requires step > 0 && from <= last < U64_MAX && ChunkEnd(from, step, last) != last
    ensures ChunkEnd(from, step, last) == from + step - 1 < last
    ensures AllChunks(from, step, last)
         == [Window(from, ChunkEnd(from, step, last))] + AllChunks(from + step, step, last)
  {
    hide AllChunks, ChunkAt;
    var x := last - from - step;
    Arith.DivAddMultiple(x, 1, step);
    var all, rest := AllChunks(from, step, last), AllChunks(from + step, step, last);
    ChunkZero(from, step, last);
    forall i | 0 <= i < |rest|
      ensures rest[i] == all[i + 1]
    {
      NextChunkAt(from, step, last, i);
    }
    assert all == [all[0]] + rest;
  }

  lemma ChunkZero(from: nat, step: nat, last: nat)
    requires step > 0 && from + step - 1 < last
    ensures ChunkAt(from, step, last, 0) == Window(from, from + step - 1)
  {}

  lemma NextChunkAt(from: nat, step: nat, last: nat, i: nat)
    requires step > 0
    ensures ChunkAt(from + step, step, last, i) == ChunkAt(from, step, last, i + 1)
  {
    assert from + step + i * step == from + (i + 1) * step;
  }

  // ------------------------------------------------------------------
  // Replay of the node sweep
  // ------------------------------------------------------------------

  /** A bundle answers the windows it holds and misses every other; it never
      asks for narrowing. */
  function Held<R>(node: Node<R>, held: set<Window>): Node<R> {
    (from: nat, to: nat) => if Window(from, to) in held && node(from, to).Rows? then node(from, to) else Failed
  }

  lemma {:induction false} LeavesInside<R>(node: Node<R>, from: nat, to: nat, w: Window)
    requires Leaves(node, from, to).Some? && from <= to && w in Leaves(node, from, to).value
    ensures from <= w.from <= w.to <= to
    decreases 1 + to - from
  {
    if node(from, to).TooBroad? {
      var mid := from + (to - from) / 2;
      var lower, upper := Leaves(node, from, mid).value, Leaves(node, mid + 1, to).value;
      if w in lower {
        LeavesInside(node, from, mid, w);
      } else {
        LeavesInside(node, mid + 1, to, w);
      }
    }
  }

  /** A range is one of the windows it is read in exactly when it was answered at once. */
  lemma WholeWindow<R>(node: Node<R>, from: nat, to: nat)
    requires from <= to && Leaves(node, from, to).Some?
    ensures Window(from, to) in Leaves(node, from, to).value <==> node(from, to).Rows?
  {
    if node(from, to).TooBroad? && Window(from, to) in Leaves(node, from, to).value {
      var mid := from + (to - from) / 2;
      if Window(from, to) in Leaves(node, from, mid).value {
        LeavesInside(node, from, mid, Window(from, to));
      } else {
        LeavesInside(node, mid + 1, to, Window(from, to));
      }
    }
  }

  /** Every chunk was answered at once. */
  predicate AtOnce<R>(node: Node<R>, from: nat, step: nat, last: nat)
    requires step > 0 && last < U64_MAX
    decreases 1 + last - from
  {
    from > last
    || (node(from, ChunkEnd(from, step, last)).Rows? && AtOnce(node, ChunkEnd(from, step, last) + 1, step, last))
  }

  lemma {:induction false} WindowsInside<R>(node: Node<R>, from: nat, step: nat, last: nat, w: Window)
    requires step > 0 && last < U64_MAX
    requires SweepWindows(node, from, step, last).Some? && w in SweepWindows(node, from, step, last).value
    ensures from <= w.from
    decreases 1 + last - from
  {
    if from <= last {
      var end := ChunkEnd(from, step, last);
      if w in Leaves(node, from, end).value {
        LeavesInside(node, from, end, w);
      } else {
        WindowsInside(node, end + 1, step, last, w);
      }
    }
  }

  /** What a bundle holds of the chunks from `from` on is what they were read in. */
  ghost predicate HoldsFrom<R>(node: Node<R>, held: set<Window>, from: nat, step: nat, last: nat)
    requires step > 0 && last < U64_MAX && SweepWindows(node, from, step, last).Some?
  {
    var windows := SweepWindows(node, from, step, last).value;
    (forall w :: w in windows ==> w in held) && forall w :: w in held && w.from >= from ==> w in windows
  }

  /** So do the chunks after the first one. */
  lemma HoldsNext<R>(node: Node<R>, held: set<Window>, from: nat, step: nat, last: nat)
    requires step > 0 && from <= last < U64_MAX && SweepWindows(node, from, step, last).Some?
    requires HoldsFrom(node, held, from, step, last)
    ensures HoldsFrom(node, held, ChunkEnd(from, step, last) + 1, step, last)
  {
    hide Leaves;
    var end := ChunkEnd(from, step, last);
    var rest := SweepWindows(node, end + 1, step, last).value;
    forall w | w in held && w.from >= end + 1
      ensures w in rest
    {
      if w in Leaves(node, from, end).value {
        LeavesInside(node, from, end, w);
      }
    }
  }

  /** One chunk from the bundle: it is there exactly when it was answered at once. */
  lemma HeldChunk<R>(node: Node<R>, held: set<Window>, from: nat, step: nat, last: nat)
    requires step > 0 && from <= last < U64_MAX && SweepWindows(node, from, step, last).Some?
    requires HoldsFrom(node, held, from, step, last)
    ensures var end := ChunkEnd(from, step, last);
            Leaves(Held(node, held), from, end).Some? <==> node(from, end).Rows?
  {
    var end := ChunkEnd(from, step, last);
    WholeWindow(node, from, end);
    if Window(from, end) in held && Window(from, end) !in Leaves(node, from, end).value {
      WindowsInside(node, end + 1, step, last, Window(from, end));
    }
  }

  lemma {:induction false} ReplayedFrom<R>(node: Node<R>, held: set<Window>, from: nat, step: nat, last: nat)
    requires step > 0 && last < U64_MAX && SweepWindows(node, from, step, last).Some?
    requires HoldsFrom(node, held, from, step, last)
    ensures SweepWindows(Held(node, held), from, step, last).Some? <==> AtOnce(node, from, step, last)
    decreases 1 + last - from
  {
    hide Leaves, HoldsFrom, Held;
    if from <= last {
      HoldsNext(node, held, from, step, last);
      HeldChunk(node, held, from, step, last);
      ReplayedFrom(node, held, ChunkEnd(from, step, last) + 1, step, last);
    }
  }

  /** A refusal is not recorded, so a sweep replays from the windows it recorded exactly
      when the node answered every chunk at once. */
  lemma ReplayedSweep<R>(node: Node<R>, from: nat, step: nat, last: nat)
    requires step > 0 && last < U64_MAX && SweepWindows(node, from, step, last).Some?
    ensures var held := set w | w in SweepWindows(node, from, step, last).value;
            SweepWindows(Held(node, held), from, step, last).Some? <==> AtOnce(node, from, step, last)
  {
    hide Leaves, SweepWindows, AtOnce;
    var held := set w | w in SweepWindows(node, from, step, last).value;
    ReplayedFrom(node, held, from, step, last);
  }
}
