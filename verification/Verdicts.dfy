/**
 What a body has to say for each verdict, in terms of its fields: the laws of the
 classification, none of which is stated through it.
 */
module Verdicts {
  import opened Classify
  import opened Keys
  import opened Prelude
  import opened Text

  // ------------------------------------------------------------------
  // Words in any letter case
  // ------------------------------------------------------------------

  /** The same letter, where d is no capital. */
  predicate SameLetter(c: char, d: char) {
    c == d || ('A' <= c <= 'Z' && d as int == c as int + 32)
  }

  predicate SaysAt(message: string, word: string, i: nat) {
    i + |word| <= |message| && forall k :: 0 <= k < |word| ==> SameLetter(message[i + k], word[k])
  }

  /** The message has the word somewhere in it, in any letter case. */
  predicate Says(message: Option<string>, word: string) {
    message.Some? && exists i: nat :: i <= |message.value| && SaysAt(message.value, word, i)
  }

  ghost predicate SaysAny(message: Option<string>, words: set<string>) {
    exists w :: w in words && Says(message, w)
  }

  const NOTHING_FOUND: set<string> := {"no logs found", "no records found", "no transactions found"}
  const EXPLORER_BUSY: set<string> := {"rate limit", "throttl", "try again"}
  const NODE_BUSY: set<string> :=
    {"rate limit", "too many requests", "capacity", "timeout", "try again", "crashed", "internal error"}
  const TOO_WIDE: set<string> :=
    {"range", "too many results", "query returned more than", "response size", "too large"}
  const BUSY_CODES: set<int> := {-32000, -32005, -32603}

  predicate NoCapitals(word: string) {
    forall i :: 0 <= i < |word| ==> !('A' <= word[i] <= 'Z')
  }

  lemma SaysIff(message: Option<string>, word: string)
    requires word != "" && NoCapitals(word)
    ensures Says(message, word) <==> Contains(MessageOf(message), word)
  {
    var low := MessageOf(message);
    if message.Some? {
      forall i: nat
        ensures SaysAt(message.value, word, i) <==> PartAt(low, i, word)
      {
        SaysAtIff(message.value, word, i);
      }
    }
  }

  lemma SaysAtIff(message: string, word: string, i: nat)
    requires NoCapitals(word)
    ensures SaysAt(message, word, i) <==> PartAt(Lower(message), i, word)
  {
    if i + |word| <= |message| {
      var part := Lower(message)[i..i + |word|];
      assert forall k :: 0 <= k < |word| ==> part[k] == LowerChar(message[i + k]);
      assert forall k :: 0 <= k < |word| ==> (SameLetter(message[i + k], word[k]) <==> part[k] == word[k]);
    }
  }

  // ------------------------------------------------------------------
  // The verdicts of a JSON body
  // ------------------------------------------------------------------

  /** An explorer's answer has a status and no jsonrpc field. */
  predicate FromExplorer(v: View) {
    v.status.Some? && !v.hasJsonrpc
  }

  /** An explorer's list, an empty one included, or a result. */
  ghost predicate HasAnswer(v: View) {
    if FromExplorer(v) then v.status == Some("1") || SaysAny(v.message, NOTHING_FOUND) else v.hasResult
  }

  /** A JSON-RPC body without a result, with this code and this message. */
  predicate Complains(v: View, code: Option<int>, message: Option<string>) {
    && !FromExplorer(v) && !v.hasResult
    && code == (if v.error.Some? then v.error.value.code else None)
    && message == (if v.error.Some? then v.error.value.message else None)
  }

  ghost predicate HasReverted(v: View) {
    exists code, message :: Complains(v, code, message) && (code == Some(3) || Says(message, "revert"))
  }

  ghost predicate IsBusy(v: View) {
    if FromExplorer(v) then !HasAnswer(v) && SaysAny(v.message, EXPLORER_BUSY)
    else exists code, message ::
           && Complains(v, code, message) && !HasReverted(v)
           && ((code.Some? && code.value in BUSY_CODES) || SaysAny(message, NODE_BUSY))
  }

  /** An error that says too wide, and neither reverts nor says busy. */
  ghost predicate IsTooWide(v: View) {
    !HasReverted(v) && !IsBusy(v) && exists code, message :: Complains(v, code, message) && SaysAny(message, TOO_WIDE)
  }

  lemma WordsIff(message: Option<string>)
    ensures SaysAny(message, NOTHING_FOUND) <==> NothingFound(MessageOf(message))
    ensures SaysAny(message, EXPLORER_BUSY) <==> ExplorerBusy(MessageOf(message))
  {
    hide Says, MessageOf, Contains;
    SaysIff(message, "no logs found");
    SaysIff(message, "no records found");
    SaysIff(message, "no transactions found");
    SaysIff(message, "rate limit");
    SaysIff(message, "throttl");
    SaysIff(message, "try again");
  }

  lemma NodeWordsIff(message: Option<string>)
    ensures SaysAny(message, NODE_BUSY) <==> NodeBusy(MessageOf(message))
  {
    hide Says, MessageOf, Contains;
    SaysIff(message, "rate limit");
    SaysIff(message, "too many requests");
    SaysIff(message, "capacity");
    SaysIff(message, "timeout");
    SaysIff(message, "try again");
    SaysIff(message, "crashed");
    SaysIff(message, "internal error");
  }

  lemma WideWordsIff(message: Option<string>)
    ensures SaysAny(message, TOO_WIDE) <==> TooWide(MessageOf(message))
  {
    hide Says, MessageOf, Contains;
    SaysIff(message, "range");
    SaysIff(message, "too many results");
    SaysIff(message, "query returned more than");
    SaysIff(message, "response size");
    SaysIff(message, "too large");
  }

  /** Looking for "execution reverted" as well finds nothing more. */
  lemma RevertWords(message: Option<string>)
    ensures Contains(MessageOf(message), "execution reverted") || Contains(MessageOf(message), "revert")
        <==> Says(message, "revert")
  {
    hide Says, MessageOf;
    SaysIff(message, "revert");
    var text := MessageOf(message);
    if i: nat :| i <= |text| && PartAt(text, i, "execution reverted") {
      assert PartAt("execution reverted", 10, "revert");
      PartOfPart(text, i, "execution reverted", 10, "revert");
    }
  }

  lemma PartOfPart(s: string, i: nat, part: string, j: nat, inner: string)
    requires PartAt(s, i, part) && PartAt(part, j, inner)
    ensures PartAt(s, i + j, inner)
  {
    forall k | 0 <= k < |inner|
      ensures s[i + j + k] == inner[k]
    {
      assert s[i..i + |part|][j + k] == s[i + (j + k)];
      assert part[j..j + |inner|][k] == part[j + k];
    }
    assert s[i + j..i + j + |inner|] == inner;
  }

  /** The verdict on a JSON body, from its fields. */
  lemma ViewVerdict(v: View)
    ensures ClassifyView(v) == Success <==> HasAnswer(v)
    ensures ClassifyView(v) == DeterministicRevert <==> HasReverted(v)
    ensures ClassifyView(v) == Retryable <==> IsBusy(v)
    ensures ClassifyView(v) == RequestTooBroad <==> IsTooWide(v)
  {
    hide Says, SaysAny, Contains, MessageOf, NothingFound, ExplorerBusy, NodeBusy, TooWide;
    WordsIff(v.message);
    var code := if v.error.Some? then v.error.value.code else None;
    var message := if v.error.Some? then v.error.value.message else None;
    assert forall c, m :: Complains(v, c, m) ==> c == code && m == message;
    assert Complains(v, code, message) <==> !FromExplorer(v) && !v.hasResult;
    RevertWords(message);
    NodeWordsIff(message);
    WideWordsIff(message);
    NoMessage();
  }

  lemma NoMessage()
    ensures MessageOf(None) == ""
  {}

  /** A message in another letter case has the same verdict. */
  lemma CaseFree(v: View, v': View)
    requires v' == v.(message := v'.message, error := v'.error)
    requires MessageOf(v'.message) == MessageOf(v.message)
    requires v'.error.Some? <==> v.error.Some?
    requires v.error.Some? ==> && v'.error.value.code == v.error.value.code
                               && MessageOf(v'.error.value.message) == MessageOf(v.error.value.message)
    ensures HasAnswer(v') == HasAnswer(v) && HasReverted(v') == HasReverted(v)
    ensures IsBusy(v') == IsBusy(v) && IsTooWide(v') == IsTooWide(v)
  {
    hide NothingFound, ExplorerBusy, NodeBusy, TooWide, Contains, MessageOf, HasAnswer, HasReverted, IsBusy, IsTooWide;
    ViewVerdict(v);
    ViewVerdict(v');
    assert ClassifyView(v') == ClassifyView(v);
  }

  // ------------------------------------------------------------------
  // The verdicts of a body
  // ------------------------------------------------------------------

  /** How a body is read: as text, as a source's JSON, or as JSON-RPC. */
  datatype Reading = AsText | AsSource | AsRpc

  function ReadingOf(wire: Wire): Reading {
    match wire
    case JsonRpc => AsRpc
    case HttpGet(_, json, base) => if !json then AsText else if base.Some? then AsSource else AsRpc
  }

  /** The body is the answer to the read. */
  ghost predicate Answers(parse: Parser, wire: Wire, body: string) {
    match ReadingOf(wire)
    case AsText => exists i :: 0 <= i < |body| && body[i] !in {' ', '\t', '\n', 11 as char, 12 as char, '\r'}
    case AsSource => parse(body).Some? && parse(body).value.error == None
    case AsRpc => parse(body).Some? && HasAnswer(parse(body).value)
  }

  ghost predicate Reverts(parse: Parser, wire: Wire, body: string) {
    ReadingOf(wire) == AsRpc && parse(body).Some? && HasReverted(parse(body).value)
  }

  ghost predicate Overreaches(parse: Parser, wire: Wire, body: string) {
    ReadingOf(wire) == AsRpc && parse(body).Some? && IsTooWide(parse(body).value)
  }

  /** The endpoint is to be asked again: no answer, no JSON, or a busy node. */
  ghost predicate Retries(parse: Parser, wire: Wire, body: string) {
    match ReadingOf(wire)
    case AsText => !Answers(parse, wire, body)
    case AsSource => parse(body) == None
    case AsRpc => parse(body) == None || IsBusy(parse(body).value)
  }

  lemma BlankIff(body: string)
    ensures IsBlank(body)
        <==> !exists i :: 0 <= i < |body| && body[i] !in {' ', '\t', '\n', 11 as char, 12 as char, '\r'}
  {}

  /** The verdict on a body, by how it is read. */
  lemma BodyVerdict(parse: Parser, wire: Wire, body: string)
    ensures Judge(parse, wire, body) == Success <==> Answers(parse, wire, body)
    ensures Judge(parse, wire, body) == DeterministicRevert <==> Reverts(parse, wire, body)
    ensures Judge(parse, wire, body) == RequestTooBroad <==> Overreaches(parse, wire, body)
    ensures Judge(parse, wire, body) == Retryable <==> Retries(parse, wire, body)
  {
    hide ClassifyView, HasAnswer, HasReverted, IsBusy, IsTooWide, IsBlank;
    BlankIff(body);
    if parse(body).Some? {
      ViewVerdict(parse(body).value);
    }
  }
}
