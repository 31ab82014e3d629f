/**
 The calldata decoders of the posting path: a Safe's execTransaction, the packed
 batch of a MultiSend, and the two dynamic arrays a relay takes.  Each is given
 next to the encoding it undoes (Contract ABI Specification, section "Formal
 Specification of the Encoding"), and shown to undo it.
 */
module Calldata {
  import opened Prelude
  import opened Text

  const EXEC_TRANSACTION: string := "0x6a761202"
  const MULTI_SEND: string := "0x8d80ff0a"

  /** No string is longer than half the address space. */
  const MAX_LEN: nat := 0x8000_0000_0000_0000

  /** A decoded call: the address it goes to and its calldata. */
  datatype Call = Call(to: string, data: string)

  function SelectorOf(input: string): string {
    if |input| < 10 then "" else Lower(input[..10])
  }

  /** The argument words of a call: what follows the four selector bytes. */
  function Args(input: string): Option<string> {
    if |Body(input)| < 8 then None else Some(Body(input)[8..])
  }

  /** The number in the 64 hex characters at `at`. */
  function NatAt(args: string, at: nat): Option<nat> {
    var word :- Slice(args, at, at + 64);
    HexNat(word)
  }

  /** The length-prefixed bytes at `at`, as hex. */
  function BytesAt(args: string, at: nat): Option<string> {
    var length :- NatAt(args, at);
    Slice(args, at + 64, at + 64 + length * 2)
  }

  // ------------------------------------------------------------------
  // execTransaction
  // ------------------------------------------------------------------

  /** Head word 0 is the target, head word 2 the offset of the data. */
  function DecodeSafe(input: string): Option<Call> {
    if SelectorOf(input) != EXEC_TRANSACTION then None
    else
      var args :- Args(input);
      var target :- Slice(args, 0, 64);
      var offset :- NatAt(args, 128);
      var data :- BytesAt(args, offset * 2);
      Some(Call(Lower("0x" + target[24..]), "0x" + data))
  }

  // ------------------------------------------------------------------
  // multiSend
  // ------------------------------------------------------------------

  /** The entry at a cursor: one operation byte, the address, the value, the
      length, the data. */
  function EntryAt(packed: string, cursor: nat): Option<Call> {
    var to :- Slice(packed, cursor + 2, cursor + 42);
    var word :- Slice(packed, cursor + 106, cursor + 170);
    var length :- HexNat(word);
    var data :- Slice(packed, cursor + 170, cursor + 170 + length * 2);
    Some(Call(Lower("0x" + to), "0x" + data))
  }

  /** The entries from a cursor on; fewer than 170 trailing characters are
      ignored. */
  function Unpack(packed: string, cursor: nat): Option<seq<Call>>
    decreases |packed| - cursor
  {
    if cursor + 2 + 40 + 64 + 64 > |packed| then Some([])
    else
      var entry :- EntryAt(packed, cursor);
      var rest :- Unpack(packed, cursor + 168 + |entry.data|);
      Some([entry] + rest)
  }

  /** The bytes argument of a multiSend call. */
  function PackedArgument(input: string): Option<string> {
    if SelectorOf(input) != MULTI_SEND then None
    else
      var args :- Args(input);
      var offset :- NatAt(args, 0);
      BytesAt(args, offset * 2)
  }

  function MultiSendSpec(input: string): Option<seq<Call>> {
    var packed :- PackedArgument(input);
    Unpack(packed, 0)
  }

  function Prepend(calls: seq<Call>, rest: Option<seq<Call>>): Option<seq<Call>> {
    var r :- rest;
    Some(calls + r)
  }

  lemma PrependNext(out: seq<Call>, entry: Call, rest: Option<seq<Call>>)
    ensures Prepend(out, Prepend([entry], rest)) == Prepend(out + [entry], rest)
    ensures Prepend([], rest) == rest
    ensures Prepend(out, Some([])) == Some(out)
  {
    assert out + [] == out;
    if rest.Some? {
      assert out + ([entry] + rest.value) == out + [entry] + rest.value;
      assert [] + rest.value == rest.value;
    }
  }

  method DecodeMultiSend(input: string) returns (r: Option<seq<Call>>)
    ensures r == MultiSendSpec(input)
  {
    hide PackedArgument, EntryAt;
    var packed :- PackedArgument(input);
    var out := [];
    var cursor := 0;
    PrependNext([], Call("", ""), Unpack(packed, 0));
    while cursor + 2 + 40 + 64 + 64 <= |packed|
      invariant Unpack(packed, 0) == Prepend(out, Unpack(packed, cursor))
      decreases |packed| - cursor
    {
      var entry :- EntryAt(packed, cursor);
      PrependNext(out, entry, Unpack(packed, cursor + 168 + |entry.data|));
      out := out + [entry];
      cursor := cursor + 168 + |entry.data|;
    }
    PrependNext(out, Call("", ""), None);
    r := Some(out);
  }

  /** One entry of a batch, as packed by the caller. */
  datatype Entry = Entry(operation: string, to: string, value: string, data: string) {
    /** One operation byte, a 20-byte address, a word, and whole data bytes. */
    predicate Valid() {
      |operation| == 2 && |to| == 40 && |value| == 64 && |data| % 2 == 0 && |data| < MAX_LEN
    }

    function Packed(): string {
      operation + to + value + Word(|data| / 2) + data
    }

    function Decoded(): Call {
      Call(Lower("0x" + to), "0x" + data)
    }
  }

  function Pack(entries: seq<Entry>): string {
    if entries == [] then "" else entries[0].Packed() + Pack(entries[1..])
  }

  function DecodedEntries(entries: seq<Entry>): seq<Call> {
    seq(|entries|, i requires 0 <= i < |entries| => entries[i].Decoded())
  }

  lemma PackedParts(before: string, op: string, to: string, value: string, length: string, data: string, rest: string)
    requires |op| == 2 && |to| == 40 && |value| == 64 && |length| == 64
    ensures var p := before + (op + to + value + length + data) + rest;
            var c := |before|;
            && p[c + 2..c + 42] == to && p[c + 106..c + 170] == length
            && p[c + 170..c + 170 + |data|] == data
  {}

  lemma UnpackEntry(before: string, e: Entry, rest: string)
    requires e.Valid()
    ensures EntryAt(before + e.Packed() + rest, |before|) == Some(e.Decoded())
  {
    PackedParts(before, e.operation, e.to, e.value, Word(|e.data| / 2), e.data, rest);
    HexNatWord(|e.data| / 2);
  }

  /** Unpacking undoes packing, whatever short fragment trails the batch. */
  lemma {:induction false} UnpackPack(before: string, entries: seq<Entry>, fragment: string)
    requires forall i :: 0 <= i < |entries| ==> entries[i].Valid()
    requires |fragment| < 170
    ensures Unpack(before + Pack(entries) + fragment, |before|) == Some(DecodedEntries(entries))
    decreases entries
  {
    hide EntryAt;
    if entries != [] {
      var e := entries[0];
      var packed := before + Pack(entries) + fragment;
      var rest := Pack(entries[1..]) + fragment;
      assert packed == before + e.Packed() + rest;
      UnpackEntry(before, e, rest);
      assert packed == (before + e.Packed()) + Pack(entries[1..]) + fragment;
      UnpackPack(before + e.Packed(), entries[1..], fragment);
      assert DecodedEntries(entries) == [e.Decoded()] + DecodedEntries(entries[1..]);
    }
  }

  // ------------------------------------------------------------------
  // Layouts
  // ------------------------------------------------------------------

  /** `args` holds the length-prefixed bytes `data` at `at`. */
  predicate HoldsBytes(args: string, at: nat, data: string) {
    && at + 64 + |data| <= |args| < MAX_LEN
    && |data| % 2 == 0
    && args[at..at + 64] == Word(|data| / 2)
    && args[at + 64..at + 64 + |data|] == data
  }

  /** Head word `word` of `args` holds the offset of what lies at `at`. */
  predicate HoldsOffset(args: string, word: nat, at: nat) {
    && 64 * word + 64 <= |args| < MAX_LEN
    && at % 2 == 0 && at <= |args|
    && args[64 * word..64 * word + 64] == Word(at / 2)
  }

  lemma ReadsBytes(args: string, at: nat, data: string)
    requires HoldsBytes(args, at, data)
    ensures BytesAt(args, at) == Some(data)
  {
    HexNatWord(|data| / 2);
  }

  lemma ReadsOffset(args: string, word: nat, at: nat)
    requires HoldsOffset(args, word, at)
    ensures NatAt(args, 64 * word) == Some(at / 2)
  {
    HexNatWord(at / 2);
  }

  /** A call with the given four selector bytes. */
  predicate IsCall(input: string, selector: string, args: string) {
    && |selector| == 10 && "0x" <= input && |input| == 10 + |args|
    && Lower(input[..10]) == selector && input[10..] == args
  }

  lemma CallParts(input: string, selector: string, args: string)
    requires IsCall(input, selector, args)
    ensures SelectorOf(input) == selector && Args(input) == Some(args)
  {
    assert Body(input)[8..] == args;
  }

  lemma MultiSendReads(input: string, args: string, at: nat, packed: string)
    requires IsCall(input, MULTI_SEND, args) && HoldsOffset(args, 0, at) && HoldsBytes(args, at, packed)
    ensures MultiSendSpec(input) == Unpack(packed, 0)
  {
    hide HexNat, Word, Unpack;
    CallParts(input, MULTI_SEND, args);
    ReadsOffset(args, 0, at);
    ReadsBytes(args, at, packed);
  }

  /** A multiSend call in any layout decodes to exactly the batch it carries. */
  lemma MultiSendInverts(input: string, args: string, at: nat, entries: seq<Entry>, fragment: string)
    requires IsCall(input, MULTI_SEND, args) && HoldsOffset(args, 0, at)
    requires forall i :: 0 <= i < |entries| ==> entries[i].Valid()
    requires |fragment| < 170 && HoldsBytes(args, at, Pack(entries) + fragment)
    ensures MultiSendSpec(input) == Some(DecodedEntries(entries))
  {
    hide *;
    UnpackPack("", entries, fragment);
    assert "" + Pack(entries) + fragment == Pack(entries) + fragment;
    MultiSendReads(input, args, at, Pack(entries) + fragment);
  }

  /** An execTransaction call to `target` with calldata `inner`, in any layout. */
  predicate IsExec(input: string, args: string, at: nat, target: string, inner: string) {
    && IsCall(input, EXEC_TRANSACTION, args)
    && 64 <= |args| && args[24..64] == target
    && HoldsOffset(args, 2, at) && HoldsBytes(args, at, inner)
  }

  lemma SafeInverts(input: string, args: string, at: nat, target: string, inner: string)
    requires IsExec(input, args, at, target, inner)
    ensures DecodeSafe(input) == Some(Call(Lower("0x" + target), "0x" + inner))
  {
    CallParts(input, EXEC_TRANSACTION, args);
    ReadsOffset(args, 2, at);
    ReadsBytes(args, at, inner);
    assert args[0..64][24..] == args[24..64];
  }

  /** Only calls of execTransaction and multiSend are read as such. */
  lemma OnlySelectors(input: string)
    ensures DecodeSafe(input).Some? ==> |input| >= 10 && Lower(input[..10]) == "0x6a761202"
    ensures MultiSendSpec(input).Some? ==> |input| >= 10 && Lower(input[..10]) == "0x8d80ff0a"
  {
    hide HexNat, Unpack;
  }

  // ------------------------------------------------------------------
  // Canonical calls
  // ------------------------------------------------------------------

  /** multiSend(bytes) in the canonical layout. */
  function EncodeMultiSend(entries: seq<Entry>): string {
    "0x8d80ff0a" + (Word(32) + (Word(|Pack(entries)| / 2) + Pack(entries)))
  }

  lemma {:induction false} PackEven(entries: seq<Entry>)
    requires forall i :: 0 <= i < |entries| ==> entries[i].Valid()
    ensures |Pack(entries)| % 2 == 0
  {
    hide Word;
    if entries != [] {
      PackEven(entries[1..]);
      PackedEven(entries[0]);
    }
  }

  lemma PackedEven(e: Entry)
    requires e.Valid()
    ensures |e.Packed()| % 2 == 0
  {
    assert |e.Packed()| == 170 + |e.data|;
  }

  /** An encoded batch decodes to its entries. */
  lemma MultiSendRoundTrip(entries: seq<Entry>)
    requires forall i :: 0 <= i < |entries| ==> entries[i].Valid()
    requires |Pack(entries)| + 128 < MAX_LEN
    ensures MultiSendSpec(EncodeMultiSend(entries)) == Some(DecodedEntries(entries))
  {
    hide Word, Pack, MultiSendSpec, DecodedEntries;
    PackEven(entries);
    var packed := Pack(entries);
    var args := Word(32) + (Word(|packed| / 2) + packed);
    assert EncodeMultiSend(entries)[..10] == "0x8d80ff0a" && EncodeMultiSend(entries)[10..] == args;
    LowerSelectors();
    assert args[0..64] == Word(32) && args[64..128] == Word(|packed| / 2) && args[128..128 + |packed|] == packed;
    HoldsIn(args, 0, 64);
    assert packed + "" == packed;
    MultiSendInverts(EncodeMultiSend(entries), args, 64, entries, "");
  }

  lemma HoldsIn(args: string, word: nat, at: nat)
    requires 64 * word + 64 <= |args| < MAX_LEN && at % 2 == 0 && at <= |args|
    requires args[64 * word..64 * word + 64] == Word(at / 2)
    ensures HoldsOffset(args, word, at)
  {}

  lemma LowerSelectors()
    ensures Lower("0x8d80ff0a") == "0x8d80ff0a" && Lower("0x6a761202") == "0x6a761202"
  {}

  /** execTransaction with its ten head words, of which the third is the offset of the
      data. */
  function EncodeExec(target: string, value: string, middle: string, data: string): string {
    "0x6a761202" + (Word(0)[..24] + target + value + (Word(320) + (middle + (Word(|data| / 2) + data))))
  }

  /** An encoded execution decodes to its target and data. */
  lemma ExecRoundTrip(target: string, value: string, middle: string, data: string)
    requires |target| == 40 && |value| == 64 && |middle| == 7 * 64
    requires |data| % 2 == 0 && |data| + 704 < MAX_LEN
    ensures DecodeSafe(EncodeExec(target, value, middle, data)) == Some(Call(Lower("0x" + target), "0x" + data))
  {
    hide Word, DecodeSafe, Lower;
    var head := Word(0)[..24] + target + value;
    var args := head + (Word(320) + (middle + (Word(|data| / 2) + data)));
    var input := EncodeExec(target, value, middle, data);
    assert input[..10] == "0x6a761202" && input[10..] == args;
    LowerSelectors();
    assert |head| == 128 && args[24..64] == target && args[128..192] == Word(320);
    assert args[640..704] == Word(|data| / 2) && args[704..704 + |data|] == data;
    HoldsIn(args, 2, 640);
    SafeInverts(input, args, 640, target, data);
  }

  // ------------------------------------------------------------------
  // Dynamic arrays
  // ------------------------------------------------------------------

  function Concat(blobs: seq<string>): string {
    if blobs == [] then "" else Concat(blobs[..|blobs| - 1]) + blobs[|blobs| - 1]
  }

  /** The offset of each element, in bytes from the end of the length word. */
  function Heads(blobs: seq<string>, n: nat, k: nat): (s: string)
    requires k <= |blobs|
    ensures |s| == 64 * k
  {
    if k == 0 then ""
    else Heads(blobs, n, k - 1) + Word(32 * n + |Concat(blobs[..k - 1])| / 2)
  }

  /** An array of dynamic elements: its length, the offsets, the elements. */
  function EncodeArray(blobs: seq<string>): string {
    Word(|blobs|) + Heads(blobs, |blobs|, |blobs|) + Concat(blobs)
  }

  lemma {:induction false} HeadOf(blobs: seq<string>, n: nat, k: nat, i: nat)
    requires i < k <= |blobs|
    ensures Heads(blobs, n, k)[64 * i..64 * i + 64] == Word(32 * n + |Concat(blobs[..i])| / 2)
  {
    if i < k - 1 {
      HeadOf(blobs, n, k - 1, i);
      assert Heads(blobs, n, k)[64 * i..64 * i + 64] == Heads(blobs, n, k - 1)[64 * i..64 * i + 64];
    }
  }

  lemma {:induction false} ElementOf(blobs: seq<string>, i: nat)
    requires i < |blobs|
    requires forall k :: 0 <= k < |blobs| ==> |blobs[k]| % 2 == 0
    ensures |Concat(blobs[..i])| % 2 == 0
    ensures |Concat(blobs[..i])| + |blobs[i]| <= |Concat(blobs)|
    ensures Concat(blobs)[|Concat(blobs[..i])|..|Concat(blobs[..i])| + |blobs[i]|] == blobs[i]
  {
    var n := |blobs| - 1;
    var init := blobs[..n];
    if i < n {
      ElementOf(init, i);
      assert init[..i] == blobs[..i];
      var a := |Concat(blobs[..i])|;
      assert Concat(blobs)[a..a + |blobs[i]|] == Concat(init)[a..a + |blobs[i]|];
    } else {
      ConcatEven(init);
    }
  }

  lemma {:induction false} ConcatEven(blobs: seq<string>)
    requires forall k :: 0 <= k < |blobs| ==> |blobs[k]| % 2 == 0
    ensures |Concat(blobs)| % 2 == 0
  {
    if blobs != [] {
      ConcatEven(blobs[..|blobs| - 1]);
    }
  }

  /** `args` holds the encoded array at `base`. */
  predicate HoldsArray(args: string, base: nat, blobs: seq<string>) {
    && base + |EncodeArray(blobs)| <= |args| < MAX_LEN
    && args[base..base + |EncodeArray(blobs)|] == EncodeArray(blobs)
    && (forall k :: 0 <= k < |blobs| ==> |blobs[k]| % 2 == 0)
  }

  /** The offset of element i, in bytes from the end of the length word. */
  function ElementOffset(blobs: seq<string>, i: nat): nat
    requires i < |blobs|
  {
    32 * |blobs| + |Concat(blobs[..i])| / 2
  }

  /** Where element i of an array at `base` starts. */
  function ElementStart(base: nat, blobs: seq<string>, i: nat): nat
    requires i < |blobs|
  {
    base + 64 + ElementOffset(blobs, i) * 2
  }

  /** Element i of an encoded array, inside the encoding itself. */
  lemma ArrayParts(blobs: seq<string>, i: nat)
    requires i < |blobs| && forall k :: 0 <= k < |blobs| ==> |blobs[k]| % 2 == 0
    ensures var enc := EncodeArray(blobs);
            var s := ElementStart(0, blobs, i);
            && enc[..64] == Word(|blobs|)
            && enc[64 + i * 64..128 + i * 64] == Word(ElementOffset(blobs, i))
            && s + |blobs[i]| <= |enc|
            && enc[s..s + |blobs[i]|] == blobs[i]
  {
    hide Word, Heads, Concat;
    var n, a := |blobs|, |Concat(blobs[..i])|;
    var heads, tail := Heads(blobs, n, n), Concat(blobs);
    HeadOf(blobs, n, n, i);
    ElementOf(blobs, i);
    var enc := Word(n) + heads + tail;
    assert enc == Word(n) + (heads + tail);
    Behind(Word(n), heads + tail, 64 * i, 64 * i + 64);
    InFront(heads, tail, 64 * i, 64 * i + 64);
    Behind(Word(n) + heads, tail, a, a + |blobs[i]|);
  }

  lemma Within(args: string, base: nat, enc: string, from: nat, to: nat)
    requires base + |enc| <= |args| && args[base..base + |enc|] == enc && from <= to <= |enc|
    ensures args[base + from..base + to] == enc[from..to]
  {
    forall k | from <= k < to
      ensures args[base + k] == enc[k]
    {
      assert args[base..base + |enc|][k] == enc[k];
    }
    assert args[base + from..base + to] == enc[from..to];
  }

  lemma ReadsArray(args: string, base: nat, blobs: seq<string>, i: nat)
    requires HoldsArray(args, base, blobs) && i < |blobs|
    ensures NatAt(args, base + 64 + i * 64) == Some(ElementOffset(blobs, i))
    ensures ElementStart(base, blobs, i) + |blobs[i]| <= |args|
    ensures args[ElementStart(base, blobs, i)..ElementStart(base, blobs, i) + |blobs[i]|] == blobs[i]
  {
    hide HexNat, Word, Heads, Concat;
    var enc, s := EncodeArray(blobs), ElementStart(0, blobs, i);
    ArrayParts(blobs, i);
    Within(args, base, enc, 64 + i * 64, 128 + i * 64);
    Within(args, base, enc, s, s + |blobs[i]|);
    HexNatWord(ElementOffset(blobs, i));
  }

  lemma ReadsCount(args: string, base: nat, blobs: seq<string>)
    requires HoldsArray(args, base, blobs)
    ensures NatAt(args, base) == Some(|blobs|)
  {
    var enc := EncodeArray(blobs);
    Within(args, base, enc, 0, 64);
    assert enc[0..64] == Word(|blobs|);
    HexNatWord(|blobs|);
  }

  /** An array argument: the argument words, where the array lies, its length. */
  datatype ArrayHead = ArrayHead(args: string, base: nat, count: nat)

  /** The array whose offset is in head word `word`. */
  function ArrayArgument(input: string, word: nat): Option<ArrayHead> {
    var args :- Args(input);
    var offset :- NatAt(args, word * 64);
    var count :- NatAt(args, offset * 2);
    Some(ArrayHead(args, offset * 2, count))
  }

  lemma ReadsArgument(input: string, selector: string, args: string, word: nat, base: nat, blobs: seq<string>)
    requires IsCall(input, selector, args) && HoldsOffset(args, word, base) && HoldsArray(args, base, blobs)
    ensures ArrayArgument(input, word) == Some(ArrayHead(args, base, |blobs|))
  {
    hide IsCall, Args, HoldsArray, NatAt, EncodeArray, SelectorOf;
    CallParts(input, selector, args);
    ReadsOffset(args, word, base);
    ReadsCount(args, base, blobs);
  }

  /** All the values, or None when one is missing. */
  function Collect<T>(xs: seq<Option<T>>): Option<seq<T>> {
    if forall i :: 0 <= i < |xs| ==> xs[i].Some?
    then Some(seq(|xs|, i requires 0 <= i < |xs| => xs[i].value))
    else None
  }

  lemma CollectIs<T>(xs: seq<Option<T>>, out: seq<T>)
    requires |out| == |xs| && forall i :: 0 <= i < |xs| ==> xs[i] == Some(out[i])
    ensures Collect(xs) == Some(out)
  {
    assert Collect(xs).value == out;
  }

  // ------------------------------------------------------------------
  // bytes[]
  // ------------------------------------------------------------------

  /** Element `index` of a bytes[] at `base`. */
  function BytesElement(args: string, base: nat, index: nat): Option<string> {
    var offset :- NatAt(args, base + 64 + index * 64);
    var data :- BytesAt(args, base + 64 + offset * 2);
    Some("0x" + data)
  }

  function BytesElements(args: string, base: nat, count: nat): (xs: seq<Option<string>>)
    ensures |xs| == count && forall i :: 0 <= i < count ==> xs[i] == BytesElement(args, base, i)
  {
    seq(count, i requires 0 <= i < count => BytesElement(args, base, i))
  }

  function BytesArraySpec(input: string, word: nat): Option<seq<string>> {
    var head :- ArrayArgument(input, word);
    Collect(BytesElements(head.args, head.base, head.count))
  }

  method DecodeBytesArray(input: string, word: nat) returns (r: Option<seq<string>>)
    ensures r == BytesArraySpec(input, word)
  {
    hide ArrayArgument, BytesElement;
    var head :- ArrayArgument(input, word);
    ghost var xs := BytesElements(head.args, head.base, head.count);
    var out := [];
    for index := 0 to head.count
      invariant |out| == index && forall i :: 0 <= i < index ==> xs[i] == Some(out[i])
    {
      var element := BytesElement(head.args, head.base, index);
      if element == None {
        return None;
      }
      out := out + [element.value];
    }
    CollectIs(xs, out);
    r := Some(out);
  }

  /** Zero padding of hex data to whole words. */
  function Padding(data: string): string {
    seq((64 - |data| % 64) % 64, _ => '0')
  }

  /** The encoding of one bytes value. */
  function EncodeBytes(data: string): string {
    Word(|data| / 2) + data + Padding(data)
  }

  /** A value is padded with fewer than 64 zeros, to whole words. */
  lemma PaddedWhole(data: string)
    ensures |EncodeBytes(data)| % 64 == 0 && |Padding(data)| < 64
    ensures forall i :: 0 <= i < |Padding(data)| ==> Padding(data)[i] == '0'
  {
    hide Word;
    assert |EncodeBytes(data)| == 64 + |data| + |Padding(data)|;
  }

  function BytesBlobs(elements: seq<string>): (blobs: seq<string>)
    ensures |blobs| == |elements|
  {
    seq(|elements|, i requires 0 <= i < |elements| => EncodeBytes(elements[i]))
  }

  function Prefixed(elements: seq<string>): seq<string> {
    seq(|elements|, i requires 0 <= i < |elements| => "0x" + elements[i])
  }

  predicate WholeBytes(elements: seq<string>) {
    forall i :: 0 <= i < |elements| ==> |elements[i]| % 2 == 0
  }

  lemma BytesElementInverts(args: string, base: nat, elements: seq<string>, i: nat)
    requires HoldsArray(args, base, BytesBlobs(elements)) && WholeBytes(elements) && i < |elements|
    ensures BytesElement(args, base, i) == Some("0x" + elements[i])
  {
    hide HexNat, Word;
    var blobs, d := BytesBlobs(elements), elements[i];
    ReadsArray(args, base, blobs, i);
    var s := ElementStart(base, blobs, i);
    Within(args, s, blobs[i], 0, 64);
    Within(args, s, blobs[i], 64, 64 + |d|);
    ReadsBytes(args, s, d);
  }

  /** A bytes[] argument at any head word decodes to exactly its elements. */
  lemma BytesArrayInverts(input: string, selector: string, args: string, word: nat, base: nat, elements: seq<string>)
    requires IsCall(input, selector, args) && HoldsOffset(args, word, base)
    requires HoldsArray(args, base, BytesBlobs(elements)) && WholeBytes(elements)
    ensures BytesArraySpec(input, word) == Some(Prefixed(elements))
  {
    ReadsArgument(input, selector, args, word, base, BytesBlobs(elements));
    var xs := BytesElements(args, base, |elements|);
    forall i | 0 <= i < |elements|
      ensures xs[i] == Some(Prefixed(elements)[i])
    {
      BytesElementInverts(args, base, elements, i);
    }
    CollectIs(xs, Prefixed(elements));
  }

  // ------------------------------------------------------------------
  // (address,bool,bytes)[]
  // ------------------------------------------------------------------

  /** The (target, allowFailure, bytes) tuple at `start`. */
  function TupleAt(args: string, start: nat): Option<Call> {
    var target :- Slice(args, start + 24, start + 64);
    var dataOffset :- NatAt(args, start + 128);
    var data :- BytesAt(args, start + dataOffset * 2);
    Some(Call(Lower("0x" + target), "0x" + data))
  }

  /** Element `index` of an array of such tuples. */
  function TupleElement(args: string, base: nat, index: nat): Option<Call> {
    var offset :- NatAt(args, base + 64 + index * 64);
    TupleAt(args, base + 64 + offset * 2)
  }

  function TupleElements(args: string, base: nat, count: nat): (xs: seq<Option<Call>>)
    ensures |xs| == count && forall i :: 0 <= i < count ==> xs[i] == TupleElement(args, base, i)
  {
    seq(count, i requires 0 <= i < count => TupleElement(args, base, i))
  }

  function Aggregate3Spec(input: string, word: nat): Option<seq<Call>> {
    var head :- ArrayArgument(input, word);
    Collect(TupleElements(head.args, head.base, head.count))
  }

  method DecodeAggregate3(input: string, word: nat) returns (r: Option<seq<Call>>)
    ensures r == Aggregate3Spec(input, word)
  {
    hide ArrayArgument, TupleElement;
    var head :- ArrayArgument(input, word);
    ghost var xs := TupleElements(head.args, head.base, head.count);
    var out := [];
    for index := 0 to head.count
      invariant |out| == index && forall i :: 0 <= i < index ==> xs[i] == Some(out[i])
    {
      var element := TupleElement(head.args, head.base, index);
      if element == None {
        return None;
      }
      out := out + [element.value];
    }
    CollectIs(xs, out);
    r := Some(out);
  }

  /** One call of a relayed batch: a 20-byte target, the flag word, the data. */
  datatype RelayedCall = RelayedCall(pad: string, target: string, allowFailure: string, data: string) {
    predicate Valid() {
      |pad| == 24 && |target| == 40 && |allowFailure| == 64 && |data| % 2 == 0
    }

    function Encoded(): string {
      pad + target + allowFailure + Word(96) + EncodeBytes(data)
    }

    function Decoded(): Call {
      Call(Lower("0x" + target), "0x" + data)
    }
  }

  function TupleBlobs(calls: seq<RelayedCall>): (blobs: seq<string>)
    ensures |blobs| == |calls|
  {
    seq(|calls|, i requires 0 <= i < |calls| => calls[i].Encoded())
  }

  function DecodedCalls(calls: seq<RelayedCall>): seq<Call> {
    seq(|calls|, i requires 0 <= i < |calls| => calls[i].Decoded())
  }

  lemma TupleParts(c: RelayedCall)
    requires c.Valid()
    ensures var blob := c.Encoded();
            && blob[24..64] == c.target && blob[128..192] == Word(96)
            && blob[192..256] == Word(|c.data| / 2) && blob[256..256 + |c.data|] == c.data
  {
    hide Word, Padding;
    var length, padding := Word(|c.data| / 2), Padding(c.data);
    var blob := c.pad + c.target + c.allowFailure + Word(96) + (length + c.data + padding);
    assert blob[192..256] == (length + c.data + padding)[0..64];
    assert blob[256..256 + |c.data|] == (length + c.data + padding)[64..64 + |c.data|];
  }

  lemma ReadsTuple(args: string, s: nat, c: RelayedCall)
    requires c.Valid() && s + |c.Encoded()| <= |args| < MAX_LEN
    requires args[s..s + |c.Encoded()|] == c.Encoded()
    ensures TupleAt(args, s) == Some(c.Decoded())
  {
    hide HexNat, Word, HexDigits;
    var blob := c.Encoded();
    TupleParts(c);
    Within(args, s, blob, 24, 64);
    Within(args, s, blob, 128, 192);
    Within(args, s, blob, 192, 256);
    Within(args, s, blob, 256, 256 + |c.data|);
    HexNatWord(96);
    ReadsBytes(args, s + 192, c.data);
  }

  lemma TupleElementInverts(args: string, base: nat, calls: seq<RelayedCall>, i: nat)
    requires HoldsArray(args, base, TupleBlobs(calls)) && i < |calls|
    requires forall k :: 0 <= k < |calls| ==> calls[k].Valid()
    ensures TupleElement(args, base, i) == Some(calls[i].Decoded())
  {
    hide HexNat, Word, HexDigits;
    ReadsArray(args, base, TupleBlobs(calls), i);
    ReadsTuple(args, ElementStart(base, TupleBlobs(calls), i), calls[i]);
  }

  /** An aggregate3 argument at any head word decodes to exactly its calls. */
  lemma Aggregate3Inverts(input: string, selector: string, args: string, word: nat, base: nat, calls: seq<RelayedCall>)
    requires IsCall(input, selector, args) && HoldsOffset(args, word, base)
    requires HoldsArray(args, base, TupleBlobs(calls))
    requires forall i :: 0 <= i < |calls| ==> calls[i].Valid()
    ensures Aggregate3Spec(input, word) == Some(DecodedCalls(calls))
  {
    ReadsArgument(input, selector, args, word, base, TupleBlobs(calls));
    var xs := TupleElements(args, base, |calls|);
    forall i | 0 <= i < |calls|
      ensures xs[i] == Some(DecodedCalls(calls)[i])
    {
      TupleElementInverts(args, base, calls, i);
    }
    CollectIs(xs, DecodedCalls(calls));
  }
}
