# Crossfoot, modelled and proved

Crossfoot recomputes on-chain values from recorded reads: it reads a chain through
JSON-RPC nodes and log explorers, keeps every body in a content addressed cache and in
an evidence bundle, reconstructs who posted each price and through which calls, and
replays fixed-point arithmetic that was first run inside a contract. This project models
the parts of it whose correctness is not visible from one function body, and proves
their properties for all inputs, all runs or all reachable states.

Code that changes things step by step is a method with loops over arrays, sequences or
the fields of a class, proved against a specification function; code made of
expressions is a function. What the Rust code promises is then a lemma about the
specification function.

| file | what it models |
|---|---|
| `Wide.dfy`, `Exp2.dfy`, `Exp2Order.dfy`, `Exp2Accuracy.dfy`, `Pricing.dfy` | 256-bit limb arithmetic, the 64-factor exp2 chain, its range, order and error, the Frax price replay |
| `Digits.dfy`, `Text.dfy`, `Abi.dfy`, `Base58.dfy` | positional digits, decimal and hex text, 256-bit words as decimals, deployment digests |
| `Keys.dfy`, `Queries.dfy`, `Cache.dfy`, `Classify.dfy`, `Verdicts.dfy`, `Client.dfy`, `Redact.dfy` | the identity of a read, GET queries, the cache, the verdict on a body and what it means, the retry and failover machine, redaction |
| `Bundle.dfy`, `Source.dfy`, `Replay.dfy`, `Purity.dfy` | the bundle writer, the bundle-backed source, runs and their replay, pure results |
| `Calldata.dfy`, `SafeChain.dfy`, `Traces.dfy`, `Attribution.dfy`, `Batches.dfy` | calldata decoders, nested Safes, call traces, which call posted which round, and the same for batches as their senders build them |
| `Sweeps.dfy`, `Rounds.dfy`, `Eras.dfy` | log sweeps, custom round events, implementation eras |
| `Consume.dfy`, `Window.dfy`, `WindowOrder.dfy`, `Sorting.dfy` | joining the rows of feeds and merging a window of findings in the consumer, what of it depends on the order of the rows, stable sorting |
| `Arith.dfy`, `Prelude.dfy` | arithmetic facts, Option and Result |

## How to read the model

- Machine integers are subset types or explicit reductions (`U64`, `U128`, limbs modulo
  2^64, `% 2^64` for `as u64`); everything else is unbounded.
- The network, file writes that may fail and the chain behind an explorer are
  nondeterministic choices or arbitrary function parameters. SHA-256 is an arbitrary
  function; no theorem needs it to be collision-free, because the live client already
  stores under the same hash that the replay looks up.
- A run of the program is `Done(result)` or `Read(descriptor, next)`, where `next` gives
  the rest of the run for each reply: a body, or the kind of error with which the read
  was refused.
- A JSON value is represented by the fields that the code reads from it.

## Where the code differs from its comments, or a module's rule has exceptions

- The reference for `exp2_fixed` is an increasing function; the code is not monotone at
  neighbouring arguments (`Exp2Order.Exp2FixedNotMonotone`). Any two arguments of one
  period at least d units apart come out in order exactly when d is at least two
  (`Exp2Order.OrderedIff`). `exp2_ud` and the price are monotone, because arguments at
  1e18 scale are spaced widely enough (`Exp2.Exp2UdMonotone`, `Pricing.PriceMonotone`).
- The comment on `word_to_signed_decimal` says that the negation is not exact for the
  minimum. The text is exact for every word, the minimum included.
- `decode_custom_rounds` pairs events and join events by position. With only the poster
  joined an incomplete event takes no join event, and a later event is given the poster
  of an earlier one (`Rounds.PosterOneEarly`). With answer and poster joined a complete
  event takes two join events, so that the first of two events takes both and the second
  is lost (`Rounds.FirstTakesBoth`). `Rounds.AnswerPositionIff` and
  `Rounds.PosterPositionIff` say exactly when an event is offered the join event of its
  own position.
- `sweep_rpc_logs` branches on a refused read, and refused reads are not recorded, so a
  narrowed sweep does not replay from what it recorded: it replays exactly when the node
  answered every chunk at once (`Sweeps.ReplayedSweep`). A run that treats each refusal
  as it treats a miss does replay (`Replay.FaithfulReplay`).
- `parse_window` drops duplicates by transaction and round id without the feed;
  `Window.WindowComplete` says exactly when no round is lost, and
  `Window.SharedKeyLoses` that a row of another feed than its key's first row is in no
  list.
- The lists of a window are documented as ordered whatever the endpoint returned. Rows of
  a feed that tie in the sort keep the endpoint's order (`WindowOrder.TieKeepsOrder`): two
  bound changes of a feed in one transaction give another list in another order
  (`WindowOrder.ChangesKeepOrder`). The endpoint's order also picks the row of a repeated
  key. `WindowOrder.ParseOrderFreeIff` says exactly when the order of all five lists is
  free, `WindowOrder.WindowOrderFreeIff` when it is for the unchecked rounds, and
  `WindowOrder.ListOrderFreeIff` when it is for any of the other three lists.
- `join_rows` is documented as deterministic. It is so, over all orders of the rows,
  exactly when no two different rows share the greatest rank of an address
  (`Consume.JoinOrderFreeIff`).
- `deepest_call_to` treats a call without a `to` as a call to the empty address in the
  flat trace format only (`Traces.DeepestAgreeIff`).
- The stated range of an era and the era lookup agree except when two upgrades share
  block 0 (`Eras.RangesAgree`, `Eras.RangesDisjoint`).
- `key_preimage` separates its fields by tags at line starts, and a field may hold such a
  tag: two `http_get` reads of different hosts then share a preimage
  (`Queries.NewlineCollides`). `Keys.IdentifiedIff` says exactly which reads share theirs
  with no other read.
- Two different queries against one host are documented not to collide. A query is put
  into the key as text, so one parameter with an '&' in its value collides with two
  parameters (`Queries.AmpersandCollides`), and letter case is lost. Queries without '&'
  and '=' in names and values collide exactly when they are equal up to case
  (`Queries.PlainQueriesApart`); a query collides with no other query at all exactly when
  it has one parameter at most and no second '=' (`Queries.AloneIff`).
- The k-th matching call posted the k-th round. On the Safe batch route every call to the
  feed matches, whatever its selector, as the comment there says; so a call that is no
  setter call can be given a round (`Attribution.OtherCallTakesRound`). With as many
  rounds as setter calls, the rounds go to the setter calls exactly when no other call
  comes before one (`Attribution.SafeBatchSetters`).
- `redact_endpoint` keeps what stands before the first "://" as it is, query and keys
  included (`Redact.KeyBeforeSeparator`); the output is free of both exactly when that part
  of the input is (`Redact.RedactDiscreetIff`).
- The chunk loop of `sweep_logs` overflows when the last block is the largest 64-bit
  number (`Sweeps.SweepLogs`).

## Model

| member | source | states |
|---|---|---|
| `Wide.MulU256U128` | cli/src/frax.rs:131-153 | the product of a 256-bit and a 128-bit number over limbs: Some exactly when it is below 2^256, and then exact; no index leaves the six limbs and no intermediate leaves 128 bits |
| `Wide.ShrU256` | cli/src/frax.rs:155-171 | floor(a / 2^n) for every shift count, whole limbs and the bits across limbs together |
| `Wide.ToU128` | cli/src/frax.rs:173-178 | the value of the limbs exactly when it is below 2^128 |
| `Wide.MulFull` | cli/src/model/wide.rs:10-27 | the two result words denote the full product of two 128-bit numbers, with both carries |
| `Wide.Div256` | cli/src/model/wide.rs:47-87 | bitwise long division of a 256-bit number is floor division; None for divisor zero or a quotient of 2^128 or more |
| `Wide.MulDivFloor` | cli/src/model/wide.rs:31-34 | floor(a * b / c) through the 256-bit product, None exactly when c is zero or the quotient does not fit |
| `Exp2.ChainRange` | cli/src/frax.rs:58-123 | for every 64-bit fraction the chain of factors keeps the accumulator in [2^191, 2^192) |
| `Exp2.TableStep` | cli/src/frax.rs:192-196 | no product of the chain reaches 2^256, so the chain is never cut short by an overflow |
| `Exp2.Exp2Fixed` | cli/src/frax.rs:186-200 | the limb loop computes the chain over naturals, for every 128-bit argument, with the truncation of the integer part to 32 bits |
| `Exp2.Exp2FixedPeriodic` | cli/src/frax.rs:186-191 | because of that truncation the function repeats every 2^96 |
| `Exp2Order.Exp2FixedRange` | cli/src/frax.rs:186-200 | it answers exactly when the argument within its period of 2^96 is below 68 * 2^64 + 0x348E2AAE5040E87B: every integer part up to 67, part 68 up to one fraction, and none above |
| `Exp2Order.Exp2FixedNotMonotone` | cli/src/frax.rs:192-199 | two neighbouring fractions for which the smaller one gives the larger result |
| `Exp2Order.Exp2FixedOrdered` | cli/src/frax.rs:186-200 | two arguments of one period at least two units apart come out in order, across integer parts too: if the larger has a result so does the smaller, and it is no higher |
| `Exp2Order.OrderedIff` | cli/src/frax.rs:186-200 | every pair at least d units apart comes out in order exactly when d >= 2 |
| `Exp2.ChainMonotone` | cli/src/frax.rs:58-123 | fractions at least two units apart come out of any table with the slack of TableSpread in the right order |
| `Exp2.TableSpread` | cli/src/frax.rs:58-123 | every factor of the table exceeds 2^64 by at least one unit and falls short of the certified bound on the product of all later factors by at most one unit |
| `Exp2Accuracy.FactorNearest` | cli/src/frax.rs:58-123 | each of the 64 factors is the integer nearest to 2^64 times the 2^(i+1)-th root of two: half a unit less stays below two when raised, half a unit more exceeds it |
| `Exp2Accuracy.Exp2FixedNear` | cli/src/frax.rs:186-200 | within one period the result is 1e18 times 2^(x / 2^64), up to one unit and a relative error of 2^-57, for every argument with a result |
| `Exp2Accuracy.Exp2UdNear` | cli/src/frax.rs:203-210 | the result is 1e18 times 2^(x / 1e18), up to one unit and a relative error of 2^-56, for every argument below 2^64 |
| `Exp2Accuracy.LogNearest` | cli/src/frax.rs:39-40 | LOG2_E is the integer nearest to 1e18 / ln 2 |
| `Exp2.Exp2Ud` | cli/src/frax.rs:203-210 | the limb shift and the shared chain give a value exactly below 2^64, and within a factor of two of 2^q at 1e18 scale, where q is the whole part of the argument |
| `Exp2.Exp2UdRange` | cli/src/frax.rs:203-210 | it answers exactly below 2^64, in [2^q, 2^(q+1)) at 1e18 scale where q is the whole part, and exactly 2^q for whole arguments |
| `Exp2.Exp2UdMonotone` | cli/src/frax.rs:203-210 | a larger argument never gives a smaller result, despite the rounding of 64 factors |
| `Pricing.ExpUd` | cli/src/frax.rs:213-215 | the exponential has a value exactly when the argument times log2(e) stays below 2^64 at 1e18 scale, and never falls below one |
| `Pricing.ExpUdRange` | cli/src/frax.rs:213-215 | the same of the specified composition, from the range of exp2 and the floor of the scaled product |
| `Pricing.PricePerShare` | cli/src/frax.rs:218-222 | a replayed price is never below the stored one; there is none when time runs backwards or when rate times elapsed time leaves the range of the exponential |
| `Pricing.PriceMonotone` | cli/src/frax.rs:218-222 | the price is monotone in anchor, rate and elapsed time: if the larger reading is representable so is the smaller, and it is no higher |
| `Pricing.PriceFromAnchor` | cli/src/frax.rs:218-222 | at the anchor the price is the stored price, and no later price is below it |
| `Pricing.ConversionLoss` | cli/src/frax.rs:225-236 | one share converted back from total assets never overstates the price and loses less than 1e18 / supply + 1 |
| `Abi.DivideByTen` | cli/src/abi.rs:115-120 | one in-place long division of the limbs by ten: quotient and remainder are exact |
| `Abi.WordToDecimal` | cli/src/abi.rs:103-128 | the text is the decimal of the 256-bit word's value; the value itself is the termination measure |
| `Abi.WordToSignedDecimal` | cli/src/abi.rs:82-99 | the text of the two's complement value for all 2^256 words, the minimum included |
| `Abi.SignedTextInjective` | cli/src/abi.rs:82-99 | two values never share a text |
| `Abi.NeverMinusZero` | cli/src/abi.rs:82-99 | no value prints as "-0" |
| `Abi.Increment` | cli/src/abi.rs:91-97 | the carry loop adds exactly one to a big-endian number in place |
| `Text.DecimalCanonical` | cli/src/abi.rs:103-128 | the decimal has no leading zero but for zero itself, and denotes its number |
| `Text.DecimalUnique` | cli/src/abi.rs:103-128 | it is the only such text of that number |
| `Abi.HexEncode` | cli/src/abi.rs:23-30 | two lowercase hex characters for each byte |
| `Abi.HexDecode` | cli/src/abi.rs:32-46 | decoding succeeds exactly on an even run of hex digits behind an optional 0x, and gives its bytes |
| `Abi.HexRoundTrip` | cli/src/abi.rs:23-46 | decoding inverts encoding |
| `Abi.HexBody` | cli/src/abi.rs:32-33 | an encoded text carries no 0x of its own, and loses one put before it |
| `Abi.HexCanonical` | cli/src/abi.rs:23-46 | encoding inverts decoding up to letter case |
| `Base58.TimesAdd` | cli/src/consume.rs:402-413 | one character turns the minimal big-endian form of v into that of 58 v + digit, in place with carry and growth at the front |
| `Base58.AlphabetExact` | cli/src/consume.rs:399-402 | the alphabet is the ASCII digits and letters but 0, O, I and l, in the order of their codes |
| `Base58.DeploymentDigest` | cli/src/consume.rs:399-422 | the loop is base58 decoding: leading ones become zero bytes, and a digest is given for 34 bytes starting 0x12 0x20 |
| `Base58.DigestInvertsEncoding` | cli/src/consume.rs:399-422 | the digest of the base58 encoding of 0x12 0x20 and 32 bytes is those bytes in hex |
| `Base58.DigestOnlyOfEncodings` | cli/src/consume.rs:399-422 | every id with a digest is exactly such an encoding |
| `Base58.DigestInjective` | cli/src/consume.rs:399-422 | two different ids never share a digest |
| `Keys.PreimageIdentifies` | cli/src/cache.rs:41-50 | for fields without a newline, preimages are equal exactly when chain and method are equal and block, address and calldata are equal up to letter case; labels take no part |
| `Keys.PreimageShape` | cli/src/cache.rs:41-50 | a preimage byte for byte: the version of the format and five named lines |
| `Keys.IdentifiedIff` | cli/src/cache.rs:41-50 | a read shares its preimage with no different read exactly when no field of it holds a tag that ends or starts it |
| `Queries.NewlineCollides` | cli/src/rpc.rs:972-1000 | two GETs of different hosts, built as http_get_descriptor builds them, share a preimage |
| `Queries.PlainQueriesApart` | cli/src/rpc.rs:969-1000 | two queries of one resource without '&' and '=' in names and values share a preimage exactly when they are the same names and values in the same order up to letter case |
| `Queries.AloneIff` | cli/src/rpc.rs:969-1000 | a query shares its preimage with no different query of its resource exactly when it has at most one parameter and no second '=' |
| `Queries.AmpersandCollides` | cli/src/rpc.rs:969-1000 | one parameter whose value holds an '&', and two parameters, share a preimage |
| `Cache.Store.Put` | cli/src/cache.rs:98-106 | a successful write makes exactly this key hit with this body; no write changes what another key gives |
| `Verdicts.ViewVerdict` | cli/src/rpc.rs:250-333 | the verdict on a JSON body from its fields: an explorer's list or a result is an answer; code 3 or "revert" anywhere in the message is a revert; a busy code or word is retried; a too-wide word counts only without the others |
| `Verdicts.BodyVerdict` | cli/src/rpc.rs:616-651 | the verdict on any body by how its wire is read: text that is not blank, JSON without an error, or JSON-RPC |
| `Verdicts.CaseFree` | cli/src/rpc.rs:262-303 | the letter case of a message changes no verdict |
| `Client.KindMeans` | cli/src/rpc.rs:592-714 | each observed kind means exactly one class of responses, by status and body |
| `Client.Client.Exchange` | cli/src/rpc.rs:543-717 | one call: what is observed, stored and returned for every possible response |
| `Client.Client.FetchFromNetwork` | cli/src/rpc.rs:531-743 | calls go round the endpoints in order, at most 5 n of them; every call but the last one passed; each is observed under its own attempt and redacted endpoint except a final plain success; exhaustion means all 5 n calls and an unchanged cache; success stores exactly what is returned, under a redacted endpoint |
| `Client.Client.Fetch` | cli/src/rpc.rs:504-529 | a hit returns the stored body with no call; offline a miss moves nothing; online the first HTTP 200 body that answers, reverts or asks for too much ends the read and no earlier response did; an answer or revert is returned with that body unless storing it fails; the read is given up exactly when none of 5 calls of each endpoint decided it; an answer once in the cache never changes |
| `Redact.RedactEndpoint` | cli/src/rpc.rs:33-62 | the string built in the loop is the specified redaction |
| `Redact.RedactRestClean` | cli/src/rpc.rs:23-62 | past the scheme the output has no query, no fragment, no userinfo and no path segment that the key test would replace |
| `Redact.RedactBuilt` | cli/src/rpc.rs:23-62 | a url built from scheme, user, host, path segments and a query or fragment keeps the scheme, the host and the segments of less than 8 characters, or less than 16 without a digit |
| `Redact.RedactDiscreetIff` | cli/src/rpc.rs:23-62 | the whole output has none of them exactly when what stands before the first "://" of the input has none |
| `Redact.KeyBeforeSeparator` | cli/src/rpc.rs:33-62 | a url with a key and a query before its first "://" comes out unchanged |
| `Redact.RedactIdempotent` | cli/src/rpc.rs:33-62 | redacting twice is redacting once, for every string, so redaction never creates a scheme separator |
| `Bundle.MakeSlug` | cli/src/util.rs:32-48 | the two loops compute the specified slug |
| `Bundle.SlugShape` | cli/src/util.rs:32-48 | a slug is words of lowercase letters and digits with single dashes between, never leaves its directory, and slugging it again changes nothing |
| `Bundle.SlugLetters` | cli/src/util.rs:32-48 | a slug has exactly the ASCII letters and digits of the label, in lowercase and in order |
| `Bundle.FileNamesDiffer` | cli/src/bundle.rs:137-138 | two entries of one bundle never share a file, whatever their labels |
| `Bundle.PaddedShape` | cli/src/bundle.rs:137-138 | the index in a file name has three digits, and as many as it needs from 1000 on |
| `Bundle.BundleWriter.Record` | cli/src/bundle.rs:131-164 | after each record the manifest and the raw files hold exactly the reads so far in order, also when the write fails |
| `Source.Open` | cli/src/source.rs:48-107 | a manifest opens exactly when every row has a file and a key and a chain id is found; the first row of each key is indexed, the last chain id row is used, and the error is that of the first bad row |
| `Source.ChainFound` | cli/src/source.rs:81-98 | the chain id is the header's, or else that of the last chain id body in the bundle |
| `Source.BundleSource.Fetch` | cli/src/source.rs:122-152 | a held key gives its file's body and counts as served; an unknown key is a miss, remembered with label, method and key |
| `Replay.RunLive` | cli/src/source.rs:60-81 | a live run asks what the program asks, goes on after refusals, gets one body for one key, and its bundle holds exactly its answered reads; when a read is refused its key is none of those recorded so far |
| `Replay.SourceAnswers` | cli/src/source.rs:72-78 | a source over such a bundle gives every recorded read its own body although it keeps only the first entry of a key |
| `Replay.SourceMisses` | cli/src/source.rs:122-136 | and it misses exactly the reads whose key the run did not record |
| `Replay.NextMatches` | cli/src/source.rs:1-8 | while a replay is in step with the live run it asks the next read too, and gets the same reply exactly when that read was answered or is among no recorded ones |
| `Replay.TracesMatch` | cli/src/source.rs:1-8 | an adaptive program stays in step as long as it treats each refusal as it treats a miss |
| `Replay.FaithfulReplay` | cli/src/source.rs:1-8 | for a program that treats each refusal as it treats a miss, the replay has the same reads, bodies and end exactly when no refused read is among the recorded ones |
| `Replay.RunReplay` | cli/src/source.rs:122-152 | driving a program from a source: every reply is the source's answer, served and missing are exact |
| `Replay.LiveThenReplay` | cli/src/source.rs:1-8 | for every program, network, cache content and step limit, a live run, its bundle opened, and the replay: they match up to and including the first refusal that the program treats unlike a miss; without one the replay is the same run exactly when no refused read was answered elsewhere in it, and then missing is the refused reads in order; when every read was answered nothing is missing |
| `Purity.PureIff` | cli/src/bundle.rs:309-338 | a result is refused exactly when one of the 15 run-time keys occurs anywhere in it, and the path reported leads to one |
| `Purity.FoundReaches` | cli/src/bundle.rs:311-338 | the reported path is the spelling of steps that arrive at such a key |
| `Purity.ReachesFound` | cli/src/bundle.rs:311-338 | a key reachable by any steps makes the walk report |
| `Purity.RunTimeKeys` | cli/src/bundle.rs:287-307 | the fifteen run-time keys, one by one |
| `Purity.FirstMember` | cli/src/bundle.rs:314-328 | of the members of an object the first with a run-time field is reported, its own key before its value, behind a dot |
| `Purity.FirstItem` | cli/src/bundle.rs:329-333 | of the items of an array the first with one, behind its index in brackets |
| `Calldata.DecodeMultiSend` | cli/src/midas.rs:885-905 | the cursor loop computes the recursive unpacking, or None |
| `Calldata.UnpackPack` | cli/src/midas.rs:894-904 | unpacking inverts packing of any list of entries, before any fragment too short for an entry |
| `Calldata.MultiSendInverts` | cli/src/midas.rs:885-905 | a multiSend call in any layout of its argument decodes to exactly its (lowercased to, data) list |
| `Calldata.SafeInverts` | cli/src/midas.rs:868-880 | an execTransaction call in any layout decodes to its lowercased target and its data |
| `Calldata.OnlySelectors` | cli/src/midas.rs:868-905 | nothing but a call with the selector of execTransaction, or of multiSend, is decoded as one |
| `Calldata.ExecRoundTrip` | cli/src/midas.rs:868-880 | an execTransaction call in the canonical layout decodes to its target and data |
| `Calldata.MultiSendRoundTrip` | cli/src/midas.rs:885-905 | a multiSend call in the canonical layout decodes to its entries |
| `Calldata.DecodeBytesArray` | cli/src/midas.rs:911-925 | the element loop computes the element-wise reading, None when one element cannot be read |
| `Calldata.BytesArrayInverts` | cli/src/midas.rs:911-925 | a bytes[] argument encoded by the Solidity Contract ABI Specification, "Formal Specification of the Encoding", decodes to exactly its elements at any head word |
| `Calldata.PaddedWhole` | cli/src/midas.rs:911-925 | the encoding of a bytes value is padded with fewer than 64 zero characters to whole words |
| `Calldata.DecodeAggregate3` | cli/src/midas.rs:945-963 | the tuple loop computes the element-wise reading |
| `Calldata.Aggregate3Inverts` | cli/src/midas.rs:945-963 | an (address,bool,bytes)[] argument encoded by the same section decodes to exactly its (lowercased target, data) list at any head word |
| `SafeChain.UnwrapSafeChain` | cli/src/midas.rs:968-991 | the loop computes the layer-by-layer unwrapping with its six-layer limit |
| `SafeChain.UnwrapInverts` | cli/src/midas.rs:968-991 | a call under 1 to 6 layers comes back whole: innermost target, selector, calldata, and the chain of sender, outer Safe and every inner Safe |
| `SafeChain.UnwrapStopsAtSix` | cli/src/midas.rs:975-985 | beyond six layers it stops at the seventh execTransaction |
| `SafeChain.UnwrapNone` | cli/src/midas.rs:965-991 | None exactly when the outer call is no Safe call or one of the first six layers reached does not decode |
| `SafeChain.UnwrapEarly` | cli/src/midas.rs:975-985 | more room for layers changes nothing once a call that is no Safe call is reached |
| `Traces.SetterCallsTo` | cli/src/midas.rs:1017-1066 | the walk over either format appends exactly the setter calls to the target, in preorder |
| `Traces.SettersExact` | cli/src/midas.rs:1017-1066 | the setter calls of a list are exactly its calls to the target, in any letter case, whose calldata passes the test, in order, each with its selector, calldata and lowercased caller |
| `Traces.DeepestCallTo` | cli/src/midas.rs:1070-1120 | the walk over either format computes the best match |
| `Traces.BestIsFirstDeepest` | cli/src/midas.rs:1072-1088 | the best match of a list is the first among the equally deepest, and is missing exactly when nothing matches |
| `Traces.DeepestExact` | cli/src/midas.rs:1070-1120 | a list has a deepest call exactly when every item has an action, some item is a call to the feed and the first of the deepest has calldata; then it is that call |
| `Traces.SettersAgree` | cli/src/midas.rs:1017-1066 | a call tree and its preorder flat list give the same setter calls |
| `Traces.DeepestAgreeIff` | cli/src/midas.rs:1070-1120 | they give the same deepest call for every tree exactly when the feed is not the empty string |
| `Attribution.Attribute` | cli/src/midas.rs:1963-2166 | the loop with its counter map gives each round the attribution of its position among the resolved rounds of its transaction; it fails exactly when a transaction cannot be read |
| `Attribution.PositionOfRound` | cli/src/midas.rs:2080-2082 | the j-th resolved round of a transaction uses position j |
| `Attribution.RoundAtPosition` | cli/src/midas.rs:2080-2082 | each position below the number of resolved rounds is used by exactly the round at that place |
| `Attribution.RelayPairsOff` | cli/src/midas.rs:2532-2564 | when a relay batch has as many keyed setter calls as the transaction has resolved rounds, rounds and calls pair off one to one in order |
| `Attribution.OuterBatchPairsOff` | cli/src/midas.rs:2455-2518 | the same for a batch sent to a MultiSend contract, through direct, Safe and nested entries |
| `Attribution.SafeBatchPairsOff` | cli/src/midas.rs:2054-2071 | when a batch that a Safe executes has as many calls to the feed, of any selector, as the transaction has resolved rounds, rounds and calls pair off one to one in order |
| `Attribution.SafeBatchSetters` | cli/src/midas.rs:2054-2071 | when there are as many rounds as setter calls in the batch, the rounds go to exactly the setter calls in order if and only if no other call to the feed comes before one of them |
| `Attribution.OtherCallTakesRound` | cli/src/midas.rs:2054-2071 | in a batch of one other call to the feed and then its setter call, the one round goes to the other call |
| `Attribution.TracePairsOff` | cli/src/midas.rs:2568-2614 | the same for the setter calls of a trace when the calldata routes give nothing |
| `Batches.FeedsApart` | cli/src/midas.rs:927-940 | a call counts for two feeds only when the topics of one begin with those of the other |
| `Batches.BytesRelay` | cli/src/midas.rs:2532-2564 | of an encoded bytes[] batch in any layout the calls that count for a feed are exactly those built with a setter's selector and the feed's topics, in order |
| `Batches.AggregateRelay` | cli/src/midas.rs:2532-2564 | of an encoded aggregate batch exactly those that are also for the feed's address |
| `Batches.RelayedRounds` | cli/src/midas.rs:2532-2564 | as many rounds as such calls are attributed to exactly these calls, in order |
| `Batches.PlannedBatch` | cli/src/midas.rs:2455-2518 | the candidates of an encoded batch sent to a MultiSend contract are exactly the setter calls to the feed that its sender put into it, directly, through a Safe or in a Safe's own batch, in order and each with its chain of callers |
| `Batches.SafeBatchIs` | cli/src/midas.rs:2054-2060 | the calls of an encoded Safe batch that count are all those to the feed, in order |
| `Batches.TracedSetters` | cli/src/midas.rs:1017-1066 | the setter calls of a flat trace are exactly its calls to the log address whose calldata is a setter's and starts with the feed's topics |
| `Batches.RouteOutside` | cli/src/midas.rs:1963-1999 | a round whose event names its poster, or whose transaction is listed as an external call, is attributed to that; else the run ends exactly when the transaction cannot be read |
| `Batches.RouteSafe` | cli/src/midas.rs:2017-2032 | a call to the feed under one to six Safes gives its whole attribution: selector, calldata, sender, chain of Safes, no batch index |
| `Batches.RouteSafeBatch` | cli/src/midas.rs:2054-2071 | a batch under Safes gives the round at a position the call to the feed at that position |
| `Batches.RouteSafeRelay` | cli/src/midas.rs:2033-2053 | a relay's batch under Safes gives it the call at that position, the relay behind the Safes in its chain |
| `Batches.RouteOuterBatch` | cli/src/midas.rs:2455-2518 | a batch sent to a MultiSend contract gives it the candidate at that position |
| `Batches.RouteRelay` | cli/src/midas.rs:2104-2131 | a batch sent to a relay gives it the call at that position, by receiver, relay and feed |
| `Batches.RouteTrace` | cli/src/midas.rs:2568-2614 | the first trace that has the setter call of the position, or has none and a deepest call, gives the call |
| `Batches.AllSilent` | cli/src/midas.rs:2568-2614 | and without such a trace there is none |
| `Batches.RouteRest` | cli/src/midas.rs:2133-2165 | where the calldata routes give nothing the round has the traced call, or is unattributed |
| `Sweeps.Sweep` | cli/src/midas.rs:1195-1240 | a sweep keeps every row but those past the cap within one block, records every response it got, and its findings are exactly the capped blocks |
| `Sweeps.ResponsesTrue` | cli/src/midas.rs:1195-1220 | every recorded response lies in the range, has the rows it gave, at most 1000, and is marked exactly when they are 1000 |
| `Sweeps.ResponsesCover` | cli/src/midas.rs:1220-1240 | every block of the range has a recorded response that was not cut, or is of that block alone |
| `Sweeps.FindingsExact` | cli/src/midas.rs:1225-1235 | a finding names a block exactly when that block alone reaches the cap |
| `Sweeps.CompleteIff` | cli/src/midas.rs:1193-1240 | the rows are complete exactly when no block exceeds the cap; without a finding they are complete |
| `Sweeps.SweepRpcLogs` | cli/src/midas.rs:1315-1367 | recursive halving reads exactly the windows that refusals leave, and fails exactly when there are none |
| `Sweeps.LeavesTile` | cli/src/midas.rs:1350-1365 | for every pattern of refusals the windows read tile the range: no block twice, none skipped |
| `Sweeps.LeavesExist` | cli/src/midas.rs:1350-1365 | narrowing succeeds whenever no read fails and single blocks are not refused |
| `Sweeps.TilesGather` | cli/src/midas.rs:1250-1267 | windows that tile a range gather exactly the rows of the range from a truthful node |
| `Sweeps.SweepLogs` | cli/src/midas.rs:1253-1267 | for every chunk size, 0 included, the windows read are those of the chunks in turn and tile [start, last], or the sweep fails; it always fails when the last block is 2^64 - 1 |
| `Sweeps.ChunksRead` | cli/src/midas.rs:1255-1266 | from a node that refuses nothing the windows are the chunks of `chunk` blocks, one after the other, the last one cut at the last block |
| `Sweeps.ReplayedSweep` | cli/src/midas.rs:1253-1365 | a sweep of all its chunks replays from the windows it recorded exactly when the node answered every chunk at once |
| `Rounds.DecodeCustomRounds` | cli/src/midas.rs:790-862 | the loop with popped queues computes the specified events |
| `Rounds.ReadsNumber` | cli/src/midas.rs:222-231 | a number in a data word or a topic is read exactly when it is a signed 128-bit number |
| `Rounds.ReadsNothing` | cli/src/midas.rs:222-231 | nothing is read of a word or topic that is not there |
| `Rounds.ReadsAddress` | cli/src/midas.rs:206-220 | an address in a data word or a topic is its last forty characters, in lowercase |
| `Rounds.EventReads` | cli/src/midas.rs:820-858 | where each part of a decoded round comes from: hash, id, time and named fields |
| `Rounds.DecodedIff` | cli/src/midas.rs:810-834 | a row is decoded exactly when it has a hash, an answer, an id, a time and a block |
| `Rounds.DecodeOrderFree` | cli/src/midas.rs:796-800 | with distinct (block, log index) the result does not depend on the order of either row list |
| `Rounds.DecodedInOrder` | cli/src/midas.rs:796-797 | the decoded rounds rise by block and log index, whatever the order of the rows |
| `Rounds.LaterBlockGreaterId` | cli/src/midas.rs:821-824 | with sequence ids a round of a later block has a greater id, above the constructor's rounds |
| `Rounds.QueuesInOrder` | cli/src/midas.rs:798-808 | the queue of a transaction is its join rows by block and log index, each of them once |
| `Rounds.QueueAfter` | cli/src/midas.rs:798-818 | at any point a transaction's queue is its join rows less those taken: in chain order, none twice, none skipped |
| `Rounds.JoinsByPlace` | cli/src/midas.rs:803-858 | in every layout the join row in line for an event is the one at its place, where each earlier event of the transaction took one row for a joined answer and each complete one another for a joined poster; whether the event is decoded, and its answer, hang on that row |
| `Rounds.AnswerJoinsByPosition` | cli/src/midas.rs:814-819 | with a joined answer an event answers with the join row whose place counts the events of the transaction before it, each complete one twice when the poster is joined too |
| `Rounds.AnswerPositionIff` | cli/src/midas.rs:814-849 | with distinct join rows and a joined answer, that is the row of its own position exactly when the poster is not joined too, or no earlier event is complete with the row of its position, or there is no such row |
| `Rounds.PosterJoinsByCompleteness` | cli/src/midas.rs:842-849 | with a joined poster a decoded event takes it from the join row whose place counts the complete events before it, and with a joined answer every event before it and its own answer too |
| `Rounds.PosterPositionIff` | cli/src/midas.rs:820-849 | with distinct join rows, the join row offered to an event is the one at its own position exactly when every earlier event of its transaction is complete, or no row is left for it |
| `Rounds.PosterOneEarly` | cli/src/midas.rs:820-849 | two events, the first without an answer, and their two posters: the second event is decoded with the first one's poster |
| `Rounds.FirstTakesBoth` | cli/src/midas.rs:814-849 | two events with answer and poster joined and their two join rows: the first event takes both, with the second one's poster, and the second is not decoded |
| `Rounds.SequenceIdsRise` | cli/src/midas.rs:821-824 | sequence round ids rise strictly in chain order and start after the constructor's rounds |
| `Eras.BuildEras` | cli/src/midas.rs:2188-2243 | one era for each upgrade in the order of block, log index, implementation, hash and time, ending before the next one |
| `Eras.EraForCurrent` | cli/src/model/midas.rs:212-216 | the lookup gives the last era that starts at or before the block |
| `Eras.RangesAgree` | cli/src/midas.rs:2233 | a block is in the stated range of the era looked up for it and of no other, except block 0 with two upgrades |
| `Eras.RangesDisjoint` | cli/src/midas.rs:2233 | the stated ranges are disjoint exactly when block 0 has at most one upgrade |
| `Consume.JoinRows` | cli/src/consume.rs:784-806 | every lowercased address, and no other, keeps one of its rows of the greatest block; of these one of target "midas" when there is one, or else of the first target by name; of the rows that tie the first |
| `Consume.OutranksOrder` | cli/src/consume.rs:791-799 | the rank is a strict weak order that ties only on equal block and target |
| `Consume.JoinOrderFree` | cli/src/consume.rs:782-806 | where each address has one row of greatest rank, the result depends only on which rows there are |
| `Consume.JoinOrderFreeIff` | cli/src/consume.rs:782-806 | the result is the same for every order of the rows exactly when each address has one row of greatest rank; ties below it do not matter |
| `Window.ParseWindow` | cli/src/consume.rs:607-711 | all four result lists are the sorted groups of their rows by feed, the unchecked rounds those of the first row of each key; every error is the first flaw in reading order: a missing list, or a kept row without a block |
| `Window.FirstsOnce` | cli/src/consume.rs:624-642 | each (transaction, round id) is kept once |
| `Window.OverBoundFirst` | cli/src/consume.rs:621-642 | a key that an over-bound row has is kept from the over-bound rows |
| `Window.WindowExact` | cli/src/consume.rs:606-711 | a feed lists exactly the rounds of its kept rows |
| `Window.UncheckedExact` | cli/src/consume.rs:624-660 | a feed's unchecked rounds are exactly the rows with its id, in any letter case, that are the first of their transaction and round id, read field by field |
| `Window.OthersExact` | cli/src/consume.rs:661-695 | a feed's unknown rounds, bound changes and rate changes are exactly the rows with its id |
| `Window.BlocksReread` | cli/src/consume.rs:650-653 | a block number is an i64 read as the u64 of the same bits |
| `Window.WindowComplete` | cli/src/consume.rs:636-645 | every row is listed under its feed exactly when no two feeds share a (transaction, round id) |
| `Window.SharedKeyLoses` | cli/src/consume.rs:636-645 | in any window, a row whose key was kept from a row of another feed is in no list |
| `Window.WindowSorted` | cli/src/consume.rs:697-711 | each of the four lists of a feed is in order: rounds of block and round id, changes of block and transaction |
| `Window.WindowRises` | cli/src/consume.rs:697-711 | in an opened window rounds rise by block and round id and changes by block and transaction, in each of the four lists |
| `WindowOrder.WindowOrderFree` | cli/src/consume.rs:621-711 | the window does not depend on the order or repetition of the rows when, within the over-bound rows and within the others, rows with one key agree and no two rounds of a feed tie |
| `WindowOrder.WindowOrderFreeIff` | cli/src/consume.rs:621-711 | every order of the over-bound and the unchecked rows gives the same outcome exactly when no order gives a window because some key has only rows without a block, or in each list (the second without the keys of the first) every row has a block, rows with one key have the same feed and round, and no two different rounds of a feed tie |
| `WindowOrder.TieKeepsOrder` | cli/src/consume.rs:697-711 | in each list of a feed, whichever of the four, the rows that tie are in the order in which they came |
| `WindowOrder.ListOrderFreeIff` | cli/src/consume.rs:660-711 | for the unknown rounds, the bound changes and the rate changes: every order of the rows gives the same lists, or the same error, exactly when some row has no block or the rows of a feed that tie are equal in all that is copied |
| `WindowOrder.ParseOrderFreeIff` | cli/src/consume.rs:607-711 | every order of each of the five lists is read as the same findings or the same error exactly when the over-bound list is missing; or some key has only rows without a block; or another list is missing or has a row without a block and all over-bound and remaining unchecked rows have one; or the unchecked rounds are free as above and in no other list two different rows of a feed tie |
| `WindowOrder.ChangesKeepOrder` | cli/src/consume.rs:670-709 | two bound changes of one feed in one transaction, in either order, are read as two different windows |
| `Sorting.SortStable` | cli/src/consume.rs:697-711 | elements that tie keep their order, for any total preorder |
| `Sorting.SortByTies` | cli/src/consume.rs:697-711 | a stable sort depends only on its elements and the order among those that tie |

## Left out

- Replay.RunLive: drives a run for at most `limit` reads, because a run whose next step is an arbitrary function of a reply need not end; the theorem holds for every limit, and a run cut off by the limit replays to the same point.
- Replay.LiveThenReplay: says nothing when writing the bundle itself failed, since the last body is then in no entry; and nothing about what follows a refusal that the program treats unlike a miss, where the two runs need not have anything in common.
- Cache.Store.Put: after a failed write any content may be left under that key; other keys are untouched. Two processes sharing one cache directory are not modelled.
- Client.Client.FetchFromNetwork: pacing, backoff, Retry-After and clocks are not modelled, and an error carries its kind without its message text (the last detail of each endpoint is part of that text).
- Client.Client.Exchange: a JSON body is represented by its status, message, result and error fields; which texts parse is an arbitrary function.
- Calldata.MultiSendInverts: offsets and lengths are read below 2^64 and doubled without wrap-around; inputs whose doubled offset overflows a machine word are not modelled. The same holds for `Calldata.SafeInverts`, `Calldata.BytesArrayInverts` and `Calldata.Aggregate3Inverts`.
- Attribution.Attribute: reads of transactions and traces come from maps; recording them and the finding for an unavailable trace are not part of it, and the decoded value and flag of a call are left to its calldata.
- Bundle.BundleWriter.Record: decoded values and findings attached to an entry are not part of the model.
- Strings are ASCII: Unicode lowercasing, whitespace and multi-byte slicing are not modelled.
- Directory naming, sealing, tar and gzip, SHA-256 and keccak themselves.
- Endpoint fingerprints, which ask the network outside the cache and go to meta.json only.
- JSON parsing and printing, command line options, HTML and SVG rendering.
- The run drivers of each target, the rounds computed from getters, bound segments and rendering of reports: checked sums and assembly that would only add easy members.
- Floating point: averages, drift bands and thresholds.
