/**
 The network client: cache first, then every endpoint in turn, five rounds at
 most.
 */
module Client {
  import opened Prelude
  import opened Keys
  import opened Classify
  import opened Verdicts
  import Cache
  import Redact

  const MAX_ATTEMPTS: nat := 5

  /** What one HTTP exchange gives. */
  datatype Response = Transport | BodyUnreadable | Http(status: nat, body: string)

  datatype Kind = BodyReadFailed | TransportError | RateLimited | ServerError | HttpError
                | Reverted | TooBroad | RpcRetryable | RpcRefused

  /** A retry, failover or refusal, with the endpoint in its redacted form. */
  datatype Observation = Observation(endpoint: string, methodName: string, labelText: string, attempt: nat, kind: Kind)

  datatype Fetched = Fetched(
    descriptor: Descriptor, key: string, body: string, cacheHit: bool, endpoint: string, storedUtc: string)

  datatype RpcError = RequestTooBroad | Failed | OfflineMiss

  /** How a read from the network ended. */
  datatype Ending = Answered | AnsweredRevert | WriteFailed(verdict: Verdict) | Refused | Exhausted

  /** SHA-256 in hex, as an arbitrary function of the preimage. */
  type Hash = string -> string

  function CacheKey(hash: Hash, chainId: nat, d: Descriptor): string {
    hash(KeyPreimage(chainId, d))
  }

  /** The kind of a response that is no HTTP 200 body. */
  function Trouble(r: Response): (kind: Option<Kind>)
    ensures kind == None ==> r.Http? && r.status == 200
    ensures kind.Some? ==> PassingKind(kind.value)
  {
    match r
    case Transport => Some(TransportError)
    case BodyUnreadable => Some(BodyReadFailed)
    case Http(status, _) =>
      if status == 429 then Some(RateLimited)
      else if 500 <= status < 600 then Some(ServerError)
      else if status != 200 then Some(HttpError)
      else None
  }

  /** The kinds after which the next call is due. */
  predicate PassingKind(kind: Kind) {
    !kind.Reverted? && !kind.TooBroad?
  }

  /** What is observed of a response: nothing when it is a plain answer. */
  function KindOf(parse: Parser, wire: Wire, r: Response): Option<Kind> {
    if Trouble(r).Some? then Trouble(r)
    else match Judge(parse, wire, r.body)
      case Success => None
      case DeterministicRevert => Some(Reverted)
      case RequestTooBroad => Some(TooBroad)
      case Retryable => Some(RpcRetryable)
      case Fatal => Some(RpcRefused)
  }

  /** What each observed kind means, in terms of the status and the body. */
  lemma KindMeans(parse: Parser, wire: Wire, r: Response)
    ensures KindOf(parse, wire, r) == None <==> r.Http? && r.status == 200 && Answers(parse, wire, r.body)
    ensures KindOf(parse, wire, r) == Some(Reverted) <==> r.Http? && r.status == 200 && Reverts(parse, wire, r.body)
    ensures KindOf(parse, wire, r) == Some(TooBroad) <==> r.Http? && r.status == 200 && Overreaches(parse, wire, r.body)
    ensures KindOf(parse, wire, r) == Some(RpcRetryable) <==> r.Http? && r.status == 200 && Retries(parse, wire, r.body)
    ensures KindOf(parse, wire, r) == Some(RateLimited) <==> r.Http? && r.status == 429
    ensures KindOf(parse, wire, r) == Some(ServerError) <==> r.Http? && 500 <= r.status <= 599
    ensures KindOf(parse, wire, r) == Some(HttpError)
        <==> r.Http? && r.status !in {200, 429} && !(500 <= r.status <= 599)
    ensures KindOf(parse, wire, r) == Some(TransportError) <==> r.Transport?
    ensures KindOf(parse, wire, r) == Some(BodyReadFailed) <==> r.BodyUnreadable?
  {
    hide Judge, Answers, Reverts, Overreaches, Retries;
    if r.Http? {
      BodyVerdict(parse, wire, r.body);
    }
  }

  /** The response ends the read: an answer, a revert, or a request found too broad. */
  ghost predicate Decides(parse: Parser, wire: Wire, r: Response) {
    && r.Http? && r.status == 200
    && (Answers(parse, wire, r.body) || Reverts(parse, wire, r.body) || Overreaches(parse, wire, r.body))
  }

  /** The calls before the last one decided nothing, and none did when the read was
      given up. */
  lemma HeardMeans(seen: seq<Observation>, d: Descriptor, endpoints: seq<string>, parse: Parser, heard: seq<Response>,
                   ending: Ending)
    requires InTurn(seen, d, endpoints, parse, heard) && Told(seen, ending, |heard|)
    ensures forall k :: 0 <= k < |heard| && (k < |heard| - 1 || ending.Exhausted?) ==> !Decides(parse, d.wire, heard[k])
  {
    hide KindOf, Redact.RedactSpec, Answers, Reverts, Overreaches, Retries;
    forall k | 0 <= k < |heard| && (k < |heard| - 1 || ending.Exhausted?)
      ensures !Decides(parse, d.wire, heard[k])
    {
      KindMeans(parse, d.wire, heard[k]);
      assert ByCall(seen[k], d, endpoints, k, KindOf(parse, d.wire, heard[k]));
      assert PassingKind(seen[k].kind) by {
        TellPassing(seen, ending, |heard|, k);
      }
    }
  }

  lemma TellPassing(seen: seq<Observation>, ending: Ending, calls: nat, k: nat)
    requires Told(seen, ending, calls) && k < |seen| && (k < calls - 1 || ending.Exhausted?)
    ensures PassingKind(seen[k].kind)
  {
    if ending.AnsweredRevert? || ending.Refused? || (ending.WriteFailed? && ending.verdict != Success) {
      assert seen[..|seen| - 1][k] == seen[k];
    }
  }

  /** The k-th observation of a read is about its k-th call and what was heard
      there: the endpoints in order, round after round. */
  predicate InTurn(seen: seq<Observation>, d: Descriptor, endpoints: seq<string>, parse: Parser, heard: seq<Response>) {
    && |seen| <= |heard|
    && forall k :: 0 <= k < |seen| ==> ByCall(seen[k], d, endpoints, k, KindOf(parse, d.wire, heard[k]))
  }

  predicate ByCall(o: Observation, d: Descriptor, endpoints: seq<string>, k: nat, kind: Option<Kind>) {
    && endpoints != [] && o.attempt == k / |endpoints|
    && o.endpoint == Redact.RedactSpec(endpoints[k % |endpoints|])
    && o.methodName == d.methodName && o.labelText == d.labelText && kind == Some(o.kind)
  }

  /** None of the calls observed so far ended the read. */
  predicate Passing(seen: seq<Observation>) {
    forall k :: 0 <= k < |seen| ==> !seen[k].kind.Reverted? && !seen[k].kind.TooBroad?
  }

  lemma NothingYet(seen: seq<Observation>, d: Descriptor, endpoints: seq<string>, parse: Parser)
    requires seen == []
    ensures InTurn(seen, d, endpoints, parse, []) && Passing(seen)
  {}

  /** The observation of one call, if it makes one. */
  function Noticed(d: Descriptor, endpoint: string, attempt: nat, kind: Option<Kind>): seq<Observation> {
    match kind
    case Some(k) => [Observation(Redact.RedactSpec(endpoint), d.methodName, d.labelText, attempt, k)]
    case None => []
  }

  /** All calls passed but the last one, which was observed as this kind, if at all. */
  predicate LastHeard(seen: seq<Observation>, before: nat, kind: Option<Kind>) {
    && |seen| == before + (if kind.Some? then 1 else 0) && Passing(seen[..before])
    && (kind.Some? ==> seen[before].kind == kind.value)
  }

  /** One more call, after the ones observed so far. */
  lemma Noted(log: seq<Observation>, base: nat, d: Descriptor, endpoints: seq<string>, attempt: nat, index: nat,
              parse: Parser, heard: seq<Response>, response: Response)
    requires base <= |log| && index < |endpoints| && |log| - base == attempt * |endpoints| + index
    requires InTurn(log[base..], d, endpoints, parse, heard) && Passing(log[base..]) && |heard| == |log| - base
    ensures var kind := KindOf(parse, d.wire, response);
            var seen := (log + Noticed(d, endpoints[index], attempt, kind))[base..];
            && InTurn(seen, d, endpoints, parse, heard + [response]) && LastHeard(seen, |heard|, kind)
            && (kind.Some? && PassingKind(kind.value) ==> |seen| == |heard| + 1 && Passing(seen))
  {
    hide Redact.RedactSpec, KindOf;
    Slot(attempt, index, |endpoints|);
    var kind := KindOf(parse, d.wire, response);
    var more := Noticed(d, endpoints[index], attempt, kind);
    assert (log + more)[base..] == log[base..] + more;
  }

  /** The endpoint of the last of `calls` calls. */
  function LastAsked(endpoints: seq<string>, calls: nat): string {
    if endpoints == [] || calls == 0 then "" else endpoints[(calls - 1) % |endpoints|]
  }

  lemma CallsBound(attempt: nat, index: nat, endpoints: seq<string>)
    requires attempt < MAX_ATTEMPTS && index < |endpoints|
    ensures attempt * |endpoints| + index + 1 <= MAX_ATTEMPTS * |endpoints|
    ensures LastAsked(endpoints, attempt * |endpoints| + index + 1) == endpoints[index]
  {
    Slot(attempt, index, |endpoints|);
    Times(|endpoints|, attempt + 1, MAX_ATTEMPTS);
  }

  /** How the observations of a read end: every call but the last one passed. */
  predicate Told(seen: seq<Observation>, ending: Ending, calls: nat) {
    match ending
    case Answered => |seen| == calls - 1 && Passing(seen)
    case AnsweredRevert => |seen| == calls && EndsIn(seen, Reverted)
    case WriteFailed(v) =>
      if v == Success then |seen| == calls - 1 && Passing(seen) else |seen| == calls && EndsIn(seen, Reverted)
    case Refused => |seen| == calls && EndsIn(seen, TooBroad)
    case Exhausted => |seen| == calls && Passing(seen)
  }

  predicate EndsIn(seen: seq<Observation>, kind: Kind) {
    seen != [] && seen[|seen| - 1].kind == kind && Passing(seen[..|seen| - 1])
  }

  lemma AllTold(seen: seq<Observation>, calls: nat)
    requires Passing(seen) && |seen| == calls
    ensures Told(seen, Exhausted, calls)
  {}

  lemma Slot(attempt: nat, index: nat, n: nat)
    requires index < n
    ensures (attempt * n + index) / n == attempt && (attempt * n + index) % n == index
  {
    var k := attempt * n + index;
    assert n * (k / n) + k % n == k;
    if k / n > attempt {
      Times(n, attempt + 1, k / n);
    } else if k / n < attempt {
      Times(n, k / n + 1, attempt);
    }
  }

  lemma Times(n: nat, a: nat, b: nat)
    requires a <= b
    ensures n * a <= n * b
  {}

  class Client {
    const endpoints: seq<string>
    const logEndpoints: seq<string>
    const cache: Cache.Store
    const chainId: nat
    const offline: bool
    const hash: Hash
    const parse: Parser
    var networkCalls: nat
    var cacheHits: nat
    var observations: seq<Observation>
    /** The endpoints that served a body, and whether they speak JSON-RPC. */
    var served: map<string, bool>

    constructor (endpoints: seq<string>, logEndpoints: seq<string>, cache: Cache.Store, chainId: nat, offline: bool,
                 hash: Hash, parse: Parser)
      ensures this.endpoints == endpoints && this.logEndpoints == logEndpoints && this.cache == cache
      ensures this.chainId == chainId && this.offline == offline && this.hash == hash && this.parse == parse
      ensures networkCalls == 0 && cacheHits == 0 && observations == [] && served == map[]
    {
      this.endpoints, this.logEndpoints, this.cache := endpoints, logEndpoints, cache;
      this.chainId, this.offline, this.hash, this.parse := chainId, offline, hash, parse;
      networkCalls, cacheHits, observations, served := 0, 0, [], map[];
    }

    function Key(d: Descriptor): string {
      CacheKey(hash, chainId, d)
    }

    /** JSON-RPC goes to the nodes, a GET to its own base or else to the explorers. */
    function EndpointsFor(d: Descriptor): (asked: seq<string>)
      ensures d.wire.JsonRpc? ==> asked == endpoints
      ensures d.wire.HttpGet? && d.wire.base == None ==> asked == logEndpoints
      ensures d.wire.HttpGet? && d.wire.base.Some? ==> asked == [d.wire.base.value]
    {
      match d.wire
      case JsonRpc => endpoints
      case HttpGet(_, _, Some(base)) => [base]
      case HttpGet(_, _, None) => logEndpoints
    }

    /** One HTTP exchange; the network answers as it likes. */
    method Ask(endpoint: string, d: Descriptor) returns (r: Response, storedUtc: string)
    {
      r := *;
      storedUtc := *;
    }

    method Observe(endpoint: string, d: Descriptor, attempt: nat, kind: Kind)
      modifies `observations
      ensures observations == old(observations)
        + [Observation(Redact.RedactSpec(endpoint), d.methodName, d.labelText, attempt, kind)]
    {
      var shown := Redact.RedactEndpoint(endpoint);
      observations := observations + [Observation(shown, d.methodName, d.labelText, attempt, kind)];
    }

    /** What the cache holds of an answer: never the full endpoint. */
    function StoredFor(f: Fetched): Cache.Stored {
      var d := f.descriptor;
      Cache.Stored(f.body, Cache.Meta(f.key, chainId, d.methodName, d.block, d.to, d.calldata, f.endpoint, f.storedUtc))
    }

    method Keep(d: Descriptor, key: string, body: string, endpoint: string, utc: string)
      returns (r: Result<Fetched, RpcError>)
      requires cache.Lookup(key) == None
      modifies `served, cache
      ensures r.Err? ==> r.error == Failed
      ensures r.Ok? ==> r.value == Fetched(d, key, body, false, Redact.RedactSpec(endpoint), utc)
      ensures r.Ok? ==> cache.Lookup(key) == Some(StoredFor(r.value))
      ensures forall k :: k != key ==> cache.Lookup(k) == old(cache.Lookup(k))
      ensures served == if endpoint in old(served) then old(served) else old(served)[endpoint := d.wire.JsonRpc?]
    {
      if endpoint !in served {
        served := served[endpoint := d.wire.JsonRpc?];
      }
      var shown := Redact.RedactEndpoint(endpoint);
      var meta := Cache.Meta(key, chainId, d.methodName, d.block, d.to, d.calldata, shown, utc);
      var ok := cache.Put(key, body, meta);
      if !ok {
        return Err(Failed);
      }
      r := Ok(Fetched(d, key, body, false, shown, utc));
    }

    /** One call of one endpoint: an outcome, or none when the next endpoint is due. */
    method Exchange(d: Descriptor, key: string, endpoint: string, attempt: nat)
      returns (outcome: Option<Result<Fetched, RpcError>>, ghost ending: Ending, ghost response: Response)
      requires cache.Lookup(key) == None
      modifies this`networkCalls, this`observations, this`served, cache
      ensures networkCalls == old(networkCalls) + 1
      ensures observations == old(observations) + Noticed(d, endpoint, attempt, KindOf(parse, d.wire, response))
      ensures forall k :: k != key ==> cache.Lookup(k) == old(cache.Lookup(k))
      ensures var kind := KindOf(parse, d.wire, response);
              if kind.Some? && PassingKind(kind.value) then outcome == None && ending.Exhausted?
              else outcome.Some? && Ends(d, key, endpoint, outcome.value, ending, response)
      ensures outcome.Some? && outcome.value.Ok?
          ==> endpoint in served && cache.Lookup(key) == Some(StoredFor(outcome.value.value))
      ensures ending.Exhausted? || ending.Refused?
          ==> unchanged(cache) && served == old(served)
    {
      hide Judge, Redact.RedactSpec;
      networkCalls := networkCalls + 1;
      var heard, utc := Ask(endpoint, d);
      response := heard;
      var trouble := Trouble(heard);
      if trouble.Some? {
        Observe(endpoint, d, attempt, trouble.value);
        return None, Exhausted, heard;
      }
      match Judge(parse, d.wire, heard.body) {
        case Success =>
          var r := Keep(d, key, heard.body, endpoint, utc);
          return Some(r), if r.Ok? then Answered else WriteFailed(Success), heard;
        case DeterministicRevert =>
          Observe(endpoint, d, attempt, Reverted);
          var r := Keep(d, key, heard.body, endpoint, utc);
          return Some(r), if r.Ok? then AnsweredRevert else WriteFailed(DeterministicRevert), heard;
        case RequestTooBroad =>
          Observe(endpoint, d, attempt, TooBroad);
          return Some(Err(RpcError.RequestTooBroad)), Refused, heard;
        case Retryable =>
          Observe(endpoint, d, attempt, RpcRetryable);
          return None, Exhausted, heard;
        case Fatal =>
          Observe(endpoint, d, attempt, RpcRefused);
          return None, Exhausted, heard;
      }
    }

    /** What each ending means for the outcome and the response of its call. */
    predicate Ends(d: Descriptor, key: string, endpoint: string, r: Result<Fetched, RpcError>, ending: Ending,
                   response: Response) {
      var kind := KindOf(parse, d.wire, response);
      && (r.Ok? ==> response.Http?
                    && r.value == Fetched(d, key, response.body, false, Redact.RedactSpec(endpoint), r.value.storedUtc))
      && match ending
         case Answered => kind == None && r.Ok?
         case AnsweredRevert => kind == Some(Reverted) && r.Ok?
         case WriteFailed(v) =>
           r == Err(Failed) && ((v == Success && kind == None) || (v == DeterministicRevert && kind == Some(Reverted)))
         case Refused => kind == Some(TooBroad) && r == Err(RpcError.RequestTooBroad)
         case Exhausted => false
    }

    /** An answer or a revert is returned, unless storing it fails; a request found too
        broad is refused. */
    ghost predicate EndsBy(last: Response, d: Descriptor, r: Result<Fetched, RpcError>, ending: Ending) {
      && last.Http? && last.status == 200
      && (Answers(parse, d.wire, last.body) || Reverts(parse, d.wire, last.body)
          ==> if ending.WriteFailed? then r == Err(Failed) else r.Ok? && r.value.body == last.body)
      && (Overreaches(parse, d.wire, last.body) ==> r == Err(RpcError.RequestTooBroad))
      && (Answers(parse, d.wire, last.body) || Reverts(parse, d.wire, last.body)
          || Overreaches(parse, d.wire, last.body))
    }

    /** No response before the last one decided the read, the last one did unless all calls
        were spent, and it says what the read gives. */
    ghost predicate FirstDecides(d: Descriptor, heard: seq<Response>, r: Result<Fetched, RpcError>, ending: Ending) {
      && (forall k :: 0 <= k < |heard| - 1 ==> !Decides(parse, d.wire, heard[k]))
      && (ending.Exhausted? <==> forall k :: 0 <= k < |heard| ==> !Decides(parse, d.wire, heard[k]))
      && (!ending.Exhausted? ==> heard != [] && EndsBy(heard[|heard| - 1], d, r, ending))
    }

    lemma FirstDecided(seen: seq<Observation>, d: Descriptor, key: string, heard: seq<Response>,
                       r: Result<Fetched, RpcError>, ending: Ending)
      requires InTurn(seen, d, EndpointsFor(d), parse, heard) && Told(seen, ending, |heard|)
      requires !ending.Exhausted?
          ==> heard != [] && Ends(d, key, LastAsked(EndpointsFor(d), |heard|), r, ending, heard[|heard| - 1])
      ensures FirstDecides(d, heard, r, ending)
      ensures !ending.Exhausted? && r.Ok? ==> r.value.descriptor == d && r.value.key == key
    {
      hide InTurn, Told, LastAsked, Redact.RedactSpec, KindOf, Answers, Reverts, Overreaches;
      HeardMeans(seen, d, EndpointsFor(d), parse, heard, ending);
      if !ending.Exhausted? {
        EndMeans(d, key, LastAsked(EndpointsFor(d), |heard|), r, ending, heard[|heard| - 1]);
      }
    }

    /** What the last response was, by how the read ended. */
    lemma EndMeans(d: Descriptor, key: string, endpoint: string, r: Result<Fetched, RpcError>, ending: Ending,
                   response: Response)
      requires Ends(d, key, endpoint, r, ending, response)
      ensures response.Http? && response.status == 200
      ensures ending.Answered? || ending == WriteFailed(Success) <==> Answers(parse, d.wire, response.body)
      ensures ending.AnsweredRevert? || ending == WriteFailed(DeterministicRevert)
          <==> Reverts(parse, d.wire, response.body)
      ensures ending.Refused? <==> Overreaches(parse, d.wire, response.body)
    {
      hide KindOf, Redact.RedactSpec, Answers, Reverts, Overreaches, Retries;
      KindMeans(parse, d.wire, response);
    }

    lemma EndTold(seen: seq<Observation>, d: Descriptor, key: string, endpoint: string, r: Result<Fetched, RpcError>,
                  ending: Ending, response: Response, before: nat)
      requires Ends(d, key, endpoint, r, ending, response)
      requires LastHeard(seen, before, KindOf(parse, d.wire, response))
      ensures Told(seen, ending, before + 1) && !ending.Exhausted?
    {
      hide Judge, KindOf, Redact.RedactSpec;
    }

    /** Every endpoint in turn, MAX_ATTEMPTS rounds at most, until a response ends the
        read.  The calls made are the observations added, and one more when the last
        one simply succeeded. */
    method FetchFromNetwork(d: Descriptor, key: string)
      returns (r: Result<Fetched, RpcError>, ghost ending: Ending, ghost heard: seq<Response>)
      requires cache.Lookup(key) == None
      modifies this`networkCalls, this`observations, this`served, cache
      ensures networkCalls == old(networkCalls) + |heard| && |heard| <= MAX_ATTEMPTS * |EndpointsFor(d)|
      ensures old(observations) <= observations
      ensures InTurn(observations[|old(observations)|..], d, EndpointsFor(d), parse, heard)
      ensures Told(observations[|old(observations)|..], ending, |heard|)
      ensures ending.Exhausted? ==> |heard| == MAX_ATTEMPTS * |EndpointsFor(d)| && r == Err(Failed)
      ensures !ending.Exhausted? ==>
        heard != [] && Ends(d, key, LastAsked(EndpointsFor(d), |heard|), r, ending, heard[|heard| - 1])
      ensures r.Ok? ==> LastAsked(EndpointsFor(d), |heard|) in served
      ensures r.Ok? ==> cache.Lookup(key) == Some(StoredFor(r.value))
      ensures forall k :: k != key ==> cache.Lookup(k) == old(cache.Lookup(k))
      ensures ending.Exhausted? || ending.Refused?
          ==> unchanged(cache) && served == old(served)
    {
      hide *;
      var candidates := EndpointsFor(d);
      ghost var n, base := |candidates|, |observations|;
      heard := [];
      NothingYet(observations[base..], d, candidates, parse);
      for attempt := 0 to MAX_ATTEMPTS
        invariant networkCalls == old(networkCalls) + |heard| && |heard| == attempt * n
        invariant old(observations) <= observations && |observations| == base + |heard|
        invariant InTurn(observations[base..], d, candidates, parse, heard) && Passing(observations[base..])
        invariant unchanged(cache) && served == old(served)
      {
        for index := 0 to |candidates|
          invariant networkCalls == old(networkCalls) + |heard| && |heard| == attempt * n + index
          invariant old(observations) <= observations && |observations| == base + |heard|
          invariant InTurn(observations[base..], d, candidates, parse, heard) && Passing(observations[base..])
          invariant unchanged(cache) && served == old(served)
        {
          ghost var log := observations;
          ghost var how, response;
          var outcome;
          outcome, how, response := Exchange(d, key, candidates[index], attempt);
          Noted(log, base, d, candidates, attempt, index, parse, heard, response);
          CallsBound(attempt, index, candidates);
          heard := heard + [response];
          if outcome.Some? {
            EndTold(observations[base..], d, key, candidates[index], outcome.value, how, response, |heard| - 1);
            return outcome.value, how, heard;
          }
        }
      }
      AllTold(observations[base..], |heard|);
      r, ending := Err(Failed), Exhausted;
    }

    /** An answer from the cache; an old entry may hold a full endpoint, which is
        redacted here. */
    function HitFor(d: Descriptor, stored: Cache.Stored): Fetched {
      Fetched(d, Key(d), stored.body, true, Redact.RedactSpec(stored.meta.endpoint), stored.meta.storedUtc)
    }

    lemma HitIs(d: Descriptor, stored: Cache.Stored)
      ensures HitFor(d, stored) == Fetched(d, Key(d), stored.body, true, Redact.RedactSpec(stored.meta.endpoint),
                                           stored.meta.storedUtc)
    {}

    lemma StoredBody(f: Fetched)
      ensures StoredFor(f).body == f.body
    {}

    lemma AttemptsAre()
      ensures MAX_ATTEMPTS == 5
    {}

    /** One read, from the cache or from the network.  An answer is then in the cache under
        this key, and no answer that was there has changed. */
    method Fetch(d: Descriptor) returns (r: Result<Fetched, RpcError>, ghost ending: Ending, ghost heard: seq<Response>)
      modifies this`networkCalls, this`cacheHits, this`observations, this`served, cache
      ensures r.Ok? ==> r.value.descriptor == d && r.value.key == Key(d)
                        && cache.Lookup(Key(d)).Some? && cache.Lookup(Key(d)).value.body == r.value.body
      ensures forall k :: old(cache.Lookup(k)).Some? || k != Key(d) ==> cache.Lookup(k) == old(cache.Lookup(k))
      // A hit: the stored body, no call, whatever the label and the endpoints.
      ensures old(cache.Lookup(Key(d))).Some?
          ==> && r == Ok(HitFor(d, old(cache.Lookup(Key(d))).value))
              && cacheHits == old(cacheHits) + 1 && networkCalls == old(networkCalls)
              && observations == old(observations) && served == old(served)
      // A miss offline: nothing moves.
      ensures old(cache.Lookup(Key(d))) == None && offline
          ==> && r == Err(OfflineMiss) && cacheHits == old(cacheHits) && networkCalls == old(networkCalls)
              && observations == old(observations) && served == old(served)
      // A miss online: the rounds of FetchFromNetwork.
      ensures old(cache.Lookup(Key(d))) == None && !offline
          ==> && networkCalls == old(networkCalls) + |heard| && |heard| <= 5 * |EndpointsFor(d)|
              && cacheHits == old(cacheHits) && old(observations) <= observations
              && InTurn(observations[|old(observations)|..], d, EndpointsFor(d), parse, heard)
              && Told(observations[|old(observations)|..], ending, |heard|)
      ensures old(cache.Lookup(Key(d))) == None && !offline
          ==> if ending.Exhausted? then |heard| == 5 * |EndpointsFor(d)| && r == Err(Failed)
              else heard != [] && Ends(d, Key(d), LastAsked(EndpointsFor(d), |heard|), r, ending, heard[|heard| - 1])
      // The first response that decides the read ends it, and how, by its body.
      ensures old(cache.Lookup(Key(d))) == None && !offline
          ==> FirstDecides(d, heard, r, ending)
      ensures old(cache.Lookup(Key(d))) == None && r.Ok? ==> cache.Lookup(Key(d)) == Some(StoredFor(r.value))
      ensures old(cache.Lookup(Key(d))) == None && (offline || ending.Exhausted? || ending.Refused?)
          ==> cache.Lookup(Key(d)) == None
    {
      hide *;
      ending, heard := Exhausted, [];
      var key := Key(d);
      var stored := cache.Get(key);
      if stored.Some? {
        HitIs(d, stored.value);
        cacheHits := cacheHits + 1;
        var shown := Redact.RedactEndpoint(stored.value.meta.endpoint);
        return Ok(Fetched(d, key, stored.value.body, true, shown, stored.value.meta.storedUtc)), ending, heard;
      }
      if offline {
        return Err(OfflineMiss), ending, heard;
      }
      r, ending, heard := FetchFromNetwork(d, key);
      if r.Ok? {
        StoredBody(r.value);
      }
      AttemptsAre();
      FirstDecided(observations[|old(observations)|..], d, key, heard, r, ending);
    }
  }
}
