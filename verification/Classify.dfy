/** What a response body means: an answer, a revert, or one of three refusals. */
module Classify {
  import opened Prelude
  import opened Keys
  import opened Text

  /** The parts of a JSON-RPC error object that are read. */
  datatype ErrorView = ErrorView(code: Option<int>, message: Option<string>)

  /** The parts of a JSON body that are read. */
  datatype View = View(
    hasJsonrpc: bool, status: Option<string>, message: Option<string>, hasResult: bool, error: Option<ErrorView>)

  /** A JSON parser, or None for a text that is not JSON. */
  type Parser = string -> Option<View>

  datatype Verdict = Success | DeterministicRevert | Retryable | RequestTooBroad | Fatal

  function MessageOf(text: Option<string>): string {
    match text case Some(t) => Lower(t) case None => ""
  }

  predicate NothingFound(message: string) {
    Contains(message, "no logs found") || Contains(message, "no records found")
    || Contains(message, "no transactions found")
  }

  predicate ExplorerBusy(message: string) {
    Contains(message, "rate limit") || Contains(message, "throttl") || Contains(message, "try again")
  }

  predicate NodeBusy(message: string) {
    || Contains(message, "rate limit") || Contains(message, "too many requests") || Contains(message, "capacity")
    || Contains(message, "timeout") || Contains(message, "try again") || Contains(message, "crashed")
    || Contains(message, "internal error")
  }

  predicate TooWide(message: string) {
    || Contains(message, "range") || Contains(message, "too many results")
    || Contains(message, "query returned more than") || Contains(message, "response size")
    || Contains(message, "too large")
  }

  /** The explorer's shape: a status and no jsonrpc field. */
  predicate ExplorerShaped(v: View) {
    !v.hasJsonrpc && v.status.Some?
  }

  function ClassifyExplorer(status: string, message: string): Verdict {
    if status == "1" || NothingFound(message) then Success
    else if ExplorerBusy(message) then Retryable
    else Fatal
  }

  function ClassifyError(code: Option<int>, message: string): Verdict {
    if code == Some(3) || Contains(message, "execution reverted") || Contains(message, "revert") then
      DeterministicRevert
    else if NodeBusy(message) || code == Some(-32000) || code == Some(-32005) || code == Some(-32603) then Retryable
    else if TooWide(message) then RequestTooBroad
    else Fatal
  }

  function ClassifyView(v: View): Verdict {
    if ExplorerShaped(v) then ClassifyExplorer(v.status.value, MessageOf(v.message))
    else if v.hasResult then Success
    else match v.error
      case Some(e) => ClassifyError(e.code, MessageOf(e.message))
      case None => ClassifyError(None, "")
  }

  predicate Blank(c: char) {
    c == ' ' || '\t' <= c <= '\r'
  }

  predicate IsBlank(s: string) {
    forall i :: 0 <= i < |s| ==> Blank(s[i])
  }

  /** The verdict on an HTTP 200 body, by how the read went on the wire. */
  function Judge(parse: Parser, wire: Wire, body: string): Verdict {
    match wire
    case HttpGet(_, false, _) => if IsBlank(body) then Retryable else Success
    case HttpGet(_, true, Some(_)) =>
      (match parse(body)
       case None => Retryable
       case Some(v) => if v.error.Some? then Fatal else Success)
    case _ =>
      (match parse(body)
       case None => Retryable
       case Some(v) => ClassifyView(v))
  }
}
