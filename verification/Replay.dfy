/**
 A run is an adaptive program of reads: each next read may depend on every reply so
 far, a refusal included.  A bundle written from a live run drives the same program
 the same way.
 */
module Replay {
  import opened Bundle
  import opened Client
  import opened Keys
  import opened Prelude
  import opened Source
  import Cache

  /** What a read gives the run: a body, or the kind of its refusal. */
  type Reply = Result<string, RpcError>

  /** A finished run, or one that waits for the reply to a read. */
  datatype Run<!R> = Done(result: R) | Read(d: Descriptor, next: Reply -> Run<R>)

  /** How driving a run for a bounded number of reads ended. */
  datatype End<+R> = Finished(result: R) | OutOfSteps | RecordFailed

  /** One read of a run: answered, or refused. */
  datatype Event = Answered(f: Fetched) | Refused(d: Descriptor, error: RpcError) {
    function Descriptor(): Descriptor {
      match this case Answered(f) => f.descriptor case Refused(d, _) => d
    }

    function Reply(): Reply {
      match this case Answered(f) => Ok(f.body) case Refused(_, error) => Err(error)
    }
  }

  function EventOf(d: Descriptor, r: Result<Fetched, RpcError>): Event {
    match r case Ok(f) => Event.Answered(f) case Err(error) => Event.Refused(d, error)
  }

  function Replies(trace: seq<Event>): (replies: seq<Reply>)
    ensures |replies| == |trace|
  {
    seq(|trace|, i requires 0 <= i < |trace| => trace[i].Reply())
  }

  /** The reads that were answered, in order: what a bundle holds. */
  function Recorded(trace: seq<Event>): seq<Fetched> {
    if trace == [] then []
    else
      var last := trace[|trace| - 1];
      Recorded(trace[..|trace| - 1]) + if last.Answered? then [last.f] else []
  }

  lemma RecordedNext(trace: seq<Event>, e: Event)
    ensures e.Answered? ==> Recorded(trace + [e]) == Recorded(trace) + [e.f]
    ensures e.Refused? ==> Recorded(trace + [e]) == Recorded(trace)
  {
    assert (trace + [e])[..|trace|] == trace;
  }

  lemma {:induction false} AnsweredRecorded(trace: seq<Event>, i: nat)
    requires i < |trace| && trace[i].Answered?
    ensures trace[i].f in Recorded(trace)
  {
    if i < |trace| - 1 {
      AnsweredRecorded(trace[..|trace| - 1], i);
    }
  }

  /** The run once these replies are in. */
  function After<R>(run: Run<R>, replies: seq<Reply>): Run<R> {
    if replies == [] then run
    else match After(run, replies[..|replies| - 1])
      case Done(result) => Done(result)
      case Read(_, next) => next(replies[|replies| - 1])
  }

  /** Each read of the trace is the one the run asked for at that point. */
  ghost predicate Asked<R>(run: Run<R>, trace: seq<Event>) {
    forall i :: 0 <= i < |trace| ==> AskedAt(run, trace, i)
  }

  ghost predicate AskedAt<R>(run: Run<R>, trace: seq<Event>, i: nat)
    requires i < |trace|
  {
    var at := After(run, Replies(trace[..i]));
    at.Read? && at.d == trace[i].Descriptor()
  }

  lemma AskedNext<R>(run: Run<R>, trace: seq<Event>, e: Event)
    requires Asked(run, trace)
    requires var at := After(run, Replies(trace)); at.Read? && at.d == e.Descriptor()
    ensures Asked(run, trace + [e])
    ensures After(run, Replies(trace + [e])) == After(run, Replies(trace)).next(e.Reply())
  {
    hide After;
    forall i | 0 <= i <= |trace|
      ensures AskedAt(run, trace + [e], i)
    {
      assert (trace + [e])[..i] == trace[..i];
      if i < |trace| {
        assert AskedAt(run, trace, i);
      } else {
        assert trace[..i] == trace;
      }
    }
    AfterNext(run, Replies(trace), e.Reply());
    assert Replies(trace + [e]) == Replies(trace) + [e.Reply()];
  }

  lemma AfterNext<R>(run: Run<R>, replies: seq<Reply>, reply: Reply)
    requires After(run, replies).Read?
    ensures After(run, replies + [reply]) == After(run, replies).next(reply)
  {
    assert (replies + [reply])[..|replies|] == replies;
  }

  // ------------------------------------------------------------------
  // Live
  // ------------------------------------------------------------------

  /** Every body recorded so far is still in the cache. */
  ghost predicate Cached(held: map<string, string>, hash: Hash, chainId: nat, taken: seq<Fetched>) {
    forall i :: 0 <= i < |taken|
      ==> taken[i].key == CacheKey(hash, chainId, taken[i].descriptor) && StillHeld(held, taken[i])
  }

  ghost predicate StillHeld(held: map<string, string>, f: Fetched) {
    f.key in held && held[f.key] == f.body
  }

  /** One key, one body: what the write-once cache gives a run. */
  ghost predicate Coherent(hash: Hash, chainId: nat, taken: seq<Fetched>) {
    && (forall i :: 0 <= i < |taken| ==> taken[i].key == CacheKey(hash, chainId, taken[i].descriptor))
    && (forall i, j :: 0 <= i < j < |taken| && taken[i].key == taken[j].key ==> taken[i].body == taken[j].body)
  }

  lemma CachedCoherent(held: map<string, string>, hash: Hash, chainId: nat, taken: seq<Fetched>)
    requires Cached(held, hash, chainId, taken)
    ensures Coherent(hash, chainId, taken)
  {
    hide CacheKey;
    forall i, j | 0 <= i < j < |taken| && taken[i].key == taken[j].key
      ensures taken[i].body == taken[j].body
    {
      assert StillHeld(held, taken[i]) && StillHeld(held, taken[j]);
    }
  }

  /** An answer once in the cache stays there. */
  lemma StillCached(held: map<string, string>, held': map<string, string>, hash: Hash, chainId: nat,
                    taken: seq<Fetched>)
    requires Cached(held, hash, chainId, taken)
    requires forall k :: k in held ==> k in held' && held'[k] == held[k]
    ensures Cached(held', hash, chainId, taken)
  {
    hide CacheKey;
    forall i | 0 <= i < |taken|
      ensures StillHeld(held', taken[i])
    {
      assert StillHeld(held, taken[i]);
    }
  }

  lemma OneMoreCached(held: map<string, string>, hash: Hash, chainId: nat, taken: seq<Fetched>, f: Fetched)
    requires Cached(held, hash, chainId, taken) && StillHeld(held, f)
    requires f.key == CacheKey(hash, chainId, f.descriptor)
    ensures Cached(held, hash, chainId, taken + [f])
  {
    hide CacheKey;
  }

  lemma NothingRead<R>(run: Run<R>, held: map<string, string>, hash: Hash, chainId: nat)
    ensures Asked(run, []) && After(run, Replies([])) == run && Recorded([]) == []
    ensures Cached(held, hash, chainId, []) && RefusedAfresh(hash, chainId, [])
  {}

  /** None of the reads has this one's key. */
  ghost predicate NotAmong(hash: Hash, chainId: nat, taken: seq<Fetched>, d: Descriptor) {
    forall i :: 0 <= i < |taken| ==> taken[i].key != CacheKey(hash, chainId, d)
  }

  lemma MissNotAmong(held: map<string, string>, hash: Hash, chainId: nat, taken: seq<Fetched>, d: Descriptor)
    requires Cached(held, hash, chainId, taken) && CacheKey(hash, chainId, d) !in held
    ensures NotAmong(hash, chainId, taken, d)
  {
    hide CacheKey;
    forall i | 0 <= i < |taken|
      ensures taken[i].key != CacheKey(hash, chainId, d)
    {
      assert StillHeld(held, taken[i]);
    }
  }

  /** No refused read was answered before. */
  ghost predicate RefusedAfresh(hash: Hash, chainId: nat, trace: seq<Event>) {
    forall i :: 0 <= i < |trace| && trace[i].Refused? ==> NotAmong(hash, chainId, Recorded(trace[..i]), trace[i].d)
  }

  lemma AfreshNext(hash: Hash, chainId: nat, trace: seq<Event>, e: Event)
    requires RefusedAfresh(hash, chainId, trace)
    requires e.Refused? ==> NotAmong(hash, chainId, Recorded(trace), e.d)
    ensures RefusedAfresh(hash, chainId, trace + [e])
  {
    hide NotAmong, Recorded;
    var more := trace + [e];
    forall i | 0 <= i < |more| && more[i].Refused?
      ensures NotAmong(hash, chainId, Recorded(more[..i]), more[i].d)
    {
      assert more[..i] == trace[..i];
      if i == |trace| {
        assert trace[..i] == trace;
      }
    }
  }

  /** Where a run stands when it was driven with this trace. */
  ghost predicate EndsWith<R>(run: Run<R>, trace: seq<Event>, limit: nat, end: End<R>) {
    var at := After(run, Replies(trace));
    match end
    case Finished(result) => at == Done(result)
    case OutOfSteps => at.Read? && |trace| == limit
    case RecordFailed => at.Read? && |trace| < limit
  }

  /** One more read, with every recorded body still in the cache. */
  method ReadMore(client: Client, d: Descriptor, ghost taken: seq<Fetched>) returns (r: Result<Fetched, RpcError>)
    requires Cached(client.cache.Held(), client.hash, client.chainId, taken)
    modifies client`networkCalls, client`cacheHits, client`observations, client`served, client.cache
    ensures Cached(client.cache.Held(), client.hash, client.chainId, if r.Ok? then taken + [r.value] else taken)
    ensures r.Ok? ==> r.value.descriptor == d
    ensures r.Err? ==> NotAmong(client.hash, client.chainId, taken, d)
  {
    hide NotAmong, Cached, CacheKey, InTurn, Told, LastAsked;
    ghost var held := client.cache.Held();
    ghost var ending, heard;
    r, ending, heard := client.Fetch(d);
    StillCached(held, client.cache.Held(), client.hash, client.chainId, taken);
    if r.Ok? {
      OneMoreCached(client.cache.Held(), client.hash, client.chainId, taken, r.value);
    } else {
      MissNotAmong(held, client.hash, client.chainId, taken, d);
    }
  }

  /** Drives a run from the client and records every body; a refused read is not
      recorded, and the run goes on with the refusal. */
  method RunLive<R>(client: Client, writer: BundleWriter, run: Run<R>, limit: nat)
    returns (end: End<R>, ghost trace: seq<Event>)
    requires Holds(writer.hash, writer.chainId, writer.entries, writer.files, [])
    modifies client`networkCalls, client`cacheHits, client`observations, client`served, client.cache, writer
    ensures Asked(run, trace) && Coherent(client.hash, client.chainId, Recorded(trace)) && |trace| <= limit
    ensures Holds(writer.hash, writer.chainId, writer.entries, writer.files, Recorded(trace))
    ensures EndsWith(run, trace, limit, end)
    ensures RefusedAfresh(client.hash, client.chainId, trace)
  {
    hide NotAmong, Holds, Asked, CacheKey, Cached, Coherent, After, Recorded, RefusedAfresh;
    trace := [];
    var now := run;
    NothingRead(run, client.cache.Held(), client.hash, client.chainId);
    for step := 0 to limit
      invariant |trace| == step && Asked(run, trace) && now == After(run, Replies(trace))
      invariant Cached(client.cache.Held(), client.hash, client.chainId, Recorded(trace))
      invariant Holds(writer.hash, writer.chainId, writer.entries, writer.files, Recorded(trace))
      invariant RefusedAfresh(client.hash, client.chainId, trace)
    {
      CachedCoherent(client.cache.Held(), client.hash, client.chainId, Recorded(trace));
      match now {
        case Done(result) =>
          return Finished(result), trace;
        case Read(d, next) =>
          var r := ReadMore(client, d, Recorded(trace));
          ghost var e := EventOf(d, r);
          RecordedNext(trace, e);
          AfreshNext(client.hash, client.chainId, trace, e);
          AskedNext(run, trace, e);
          if r.Err? {
            now := next(Err(r.error));
          } else {
            var recorded := writer.Record(r.value, Recorded(trace));
            if !recorded {
              return RecordFailed, trace;
            }
            now := next(Ok(r.value.body));
          }
          trace := trace + [e];
      }
    }
    CachedCoherent(client.cache.Held(), client.hash, client.chainId, Recorded(trace));
    end := match now case Done(result) => Finished(result) case Read(_, _) => OutOfSteps;
  }

  // ------------------------------------------------------------------
  // Replay
  // ------------------------------------------------------------------

  /** The event is what the source answers. */
  ghost predicate FromSource(source: BundleSource, e: Event)
    reads source`byKey
  {
    match e
    case Answered(f) => source.Answer(f.descriptor) == Ok(f)
    case Refused(d, error) => source.Answer(d) == Err(error)
  }

  function MissOf(hash: Hash, chainId: nat, d: Descriptor): Miss {
    Miss(d.labelText, d.methodName, CacheKey(hash, chainId, d))
  }

  /** The misses a trace leaves, in order. */
  function Misses(hash: Hash, chainId: nat, trace: seq<Event>): seq<Miss> {
    if trace == [] then []
    else
      var last := trace[|trace| - 1];
      Misses(hash, chainId, trace[..|trace| - 1])
      + if last.Refused? && last.error.OfflineMiss? then [MissOf(hash, chainId, last.d)] else []
  }

  lemma MissesNext(hash: Hash, chainId: nat, trace: seq<Event>, e: Event)
    ensures Misses(hash, chainId, trace + [e])
         == Misses(hash, chainId, trace)
            + if e.Refused? && e.error.OfflineMiss? then [MissOf(hash, chainId, e.d)] else []
  {
    assert (trace + [e])[..|trace|] == trace;
  }

  /** Drives a run from a bundle. */
  method RunReplay<R>(source: BundleSource, run: Run<R>, limit: nat) returns (end: End<R>, ghost trace: seq<Event>)
    modifies source`served, source`missing
    ensures Asked(run, trace) && |trace| <= limit && EndsWith(run, trace, limit, end) && !end.RecordFailed?
    ensures forall i :: 0 <= i < |trace| ==> FromSource(source, trace[i])
    ensures source.served == old(source.served) + |Recorded(trace)|
    ensures source.missing == old(source.missing) + Misses(source.hash, source.chainId, trace)
  {
    hide Asked, CacheKey, After, Recorded, Misses, MissOf;
    trace := [];
    var now := run;
    NothingRead(run, map[], source.hash, source.chainId);
    NothingMissed(source.hash, source.chainId);
    for step := 0 to limit
      invariant |trace| == step && Asked(run, trace) && now == After(run, Replies(trace))
      invariant forall i :: 0 <= i < |trace| ==> FromSource(source, trace[i])
      invariant source.served == old(source.served) + |Recorded(trace)|
      invariant source.missing == old(source.missing) + Misses(source.hash, source.chainId, trace)
    {
      match now {
        case Done(result) =>
          return Finished(result), trace;
        case Read(d, next) =>
          var r := source.Fetch(d);
          ghost var e := EventOf(d, r);
          MissIs(source.hash, source.chainId, d);
          RecordedNext(trace, e);
          MissesNext(source.hash, source.chainId, trace, e);
          AskedNext(run, trace, e);
          now := next(match r case Ok(f) => Ok(f.body) case Err(error) => Err(error));
          trace := trace + [e];
      }
    }
    end := match now case Done(result) => Finished(result) case Read(_, _) => OutOfSteps;
  }

  lemma NothingMissed(hash: Hash, chainId: nat)
    ensures Misses(hash, chainId, []) == []
  {}

  lemma MissIs(hash: Hash, chainId: nat, d: Descriptor)
    ensures MissOf(hash, chainId, d) == Miss(d.labelText, d.methodName, CacheKey(hash, chainId, d))
  {}

  // ------------------------------------------------------------------
  // What a bundle answers
  // ------------------------------------------------------------------

  /** What the manifest gives back of an entry. */
  function RowOf(e: Entry): Row {
    Row(Some(e.file), Some(e.methodName), Some(e.cacheKey), Some(e.endpoint), Some(e.firstStoredUtc))
  }

  function RowsOf(entries: seq<Entry>): (rows: seq<Row>)
    ensures |rows| == |entries|
  {
    seq(|entries|, i requires 0 <= i < |entries| => RowOf(entries[i]))
  }

  /** A source that was opened on a bundle of these reads. */
  ghost predicate Over(source: BundleSource, taken: seq<Fetched>)
    reads source`byKey
  {
    Coherent(source.hash, source.chainId, taken)
    && exists hash: Hash, chainId: nat, entries: seq<Entry> ::
         Holds(hash, chainId, entries, source.files, taken) && Indexes(source.byKey, RowsOf(entries))
  }

  /** A source over the bundle of coherent reads gives every read its own body, although
      it keeps only the first entry of each key. */
  lemma SourceAnswers(source: BundleSource, taken: seq<Fetched>, i: nat, d: Descriptor)
    requires Over(source, taken) && i < |taken| && taken[i].key == CacheKey(source.hash, source.chainId, d)
    ensures source.Answer(d).Ok? && source.Answer(d).value.body == taken[i].body
  {
    hide CacheKey, FileName, KeyPreimage;
    var hash: Hash, chainId: nat, entries: seq<Entry> :|
      Holds(hash, chainId, entries, source.files, taken) && Indexes(source.byKey, RowsOf(entries));
    var rows, key := RowsOf(entries), taken[i].key;
    assert HoldsAt(hash, chainId, entries, source.files, taken, i);
    assert rows[i].cacheKey == Some(key);
    assert IndexedAt(source.byKey, rows, key);
    var j := FirstRow(rows, key).value;
    assert HoldsAt(hash, chainId, entries, source.files, taken, j);
    assert source.byKey[key].file == entries[j].file && taken[j].key == key;
    assert taken[j].body == taken[i].body;
  }

  /** And it misses exactly the reads whose key it does not hold. */
  lemma SourceMisses(source: BundleSource, taken: seq<Fetched>, d: Descriptor)
    requires Over(source, taken)
    ensures NotAmong(source.hash, source.chainId, taken, d) ==> source.Answer(d) == Err(OfflineMiss)
    ensures !NotAmong(source.hash, source.chainId, taken, d) ==> source.Answer(d).Ok?
  {
    hide CacheKey, FileName, KeyPreimage;
    if NotAmong(source.hash, source.chainId, taken, d) {
      var hash: Hash, chainId: nat, entries: seq<Entry> :|
        Holds(hash, chainId, entries, source.files, taken) && Indexes(source.byKey, RowsOf(entries));
      var rows, key := RowsOf(entries), CacheKey(source.hash, source.chainId, d);
      forall i | 0 <= i < |rows|
        ensures rows[i].cacheKey != Some(key)
      {
        assert HoldsAt(hash, chainId, entries, source.files, taken, i);
      }
      assert IndexedAt(source.byKey, rows, key);
    } else {
      var i :| 0 <= i < |taken| && taken[i].key == CacheKey(source.hash, source.chainId, d);
      SourceAnswers(source, taken, i, d);
    }
  }

  // ------------------------------------------------------------------
  // Faithfulness
  // ------------------------------------------------------------------

  /** The replayed event is the live one: the same read with the same body, or the same
      read refused, now as one the bundle does not hold. */
  predicate Matches(live: Event, replayed: Event) {
    && replayed.Descriptor() == live.Descriptor()
    && match live
       case Answered(f) => replayed.Answered? && replayed.f.body == f.body && replayed.f.key == f.key
       case Refused(d, _) => replayed == Event.Refused(d, OfflineMiss)
  }

  /** Every refused read stayed refused: none of them is among the recorded reads. */
  ghost predicate StayedRefused(hash: Hash, chainId: nat, live: seq<Event>) {
    forall i :: 0 <= i < |live| && live[i].Refused? ==> NotAmong(hash, chainId, Recorded(live), live[i].d)
  }

  /** The run takes the refusal at i, if there is one, as it takes a miss. */
  ghost predicate TakenAlike<R>(run: Run<R>, live: seq<Event>, i: nat)
    requires i < |live|
  {
    var at := After(run, Replies(live[..i]));
    live[i].Refused? && at.Read? ==> at.next(Err(live[i].error)) == at.next(Err(OfflineMiss))
  }

  ghost predicate AlikeBefore<R>(run: Run<R>, live: seq<Event>, n: nat) {
    n <= |live| && forall i :: 0 <= i < n ==> TakenAlike(run, live, i)
  }

  /** The first n reads of the replay match those of the live run, and leave the run
      where the live ones do. */
  ghost predicate InStep<R>(run: Run<R>, live: seq<Event>, replay: seq<Event>, n: nat) {
    && n <= |live| && n <= |replay|
    && (forall i :: 0 <= i < n ==> Matches(live[i], replay[i]))
    && After(run, Replies(live[..n])) == After(run, Replies(replay[..n]))
  }

  /** A live run and a replay of it over a source, both driven to the same limit. */
  ghost predicate Replayed<R>(source: BundleSource, run: Run<R>, limit: nat, live: seq<Event>, end: End<R>,
                              replay: seq<Event>, replayEnd: End<R>)
    reads source`byKey
  {
    && Asked(run, live) && EndsWith(run, live, limit, end) && |live| <= limit && !end.RecordFailed?
    && Asked(run, replay) && EndsWith(run, replay, limit, replayEnd) && |replay| <= limit && !replayEnd.RecordFailed?
    && Over(source, Recorded(live)) && forall i :: 0 <= i < |replay| ==> FromSource(source, replay[i])
  }

  /** Before a read of its trace a run waits for that read. */
  lemma Waiting<R>(run: Run<R>, trace: seq<Event>, n: nat)
    requires Asked(run, trace) && n < |trace|
    ensures After(run, Replies(trace[..n])).Read? && After(run, Replies(trace[..n])).d == trace[n].Descriptor()
  {
    hide After;
    assert AskedAt(run, trace, n);
  }

  lemma Stepped<R>(run: Run<R>, trace: seq<Event>, n: nat)
    requires Asked(run, trace) && n < |trace|
    ensures After(run, Replies(trace[..n])).Read?
    ensures After(run, Replies(trace[..n + 1])) == After(run, Replies(trace[..n])).next(trace[n].Reply())
  {
    hide After;
    Waiting(run, trace, n);
    AfterNext(run, Replies(trace[..n]), trace[n].Reply());
    assert Replies(trace[..n + 1]) == Replies(trace[..n]) + [trace[n].Reply()];
  }

  /** A replay does not stop while the live run reads. */
  lemma GoesOn<R>(source: BundleSource, run: Run<R>, limit: nat, live: seq<Event>, end: End<R>,
                  replay: seq<Event>, replayEnd: End<R>, n: nat)
    requires Replayed(source, run, limit, live, end, replay, replayEnd) && InStep(run, live, replay, n) && n < |live|
    ensures n < |replay| && replay[n].Descriptor() == live[n].Descriptor()
  {
    hide After, Asked, Over, Matches;
    Waiting(run, live, n);
    assert replay[..|replay|] == replay;
    if n < |replay| {
      Waiting(run, replay, n);
    }
  }

  /** One more read in step, up to what the run makes of a refusal. */
  lemma NextMatches<R>(source: BundleSource, run: Run<R>, limit: nat, live: seq<Event>, end: End<R>,
                       replay: seq<Event>, replayEnd: End<R>, n: nat)
    requires Replayed(source, run, limit, live, end, replay, replayEnd) && InStep(run, live, replay, n) && n < |live|
    ensures n < |replay|
    ensures live[n].Answered? || NotAmong(source.hash, source.chainId, Recorded(live), live[n].d)
        <==> Matches(live[n], replay[n])
    ensures Matches(live[n], replay[n]) && TakenAlike(run, live, n) ==> InStep(run, live, replay, n + 1)
  {
    hide After, Asked, Over, NotAmong, CacheKey, Recorded, BundleSource.Answer, EndsWith;
    GoesOn(source, run, limit, live, end, replay, replayEnd, n);
    assert FromSource(source, replay[n]);
    var d := live[n].Descriptor();
    if live[n].Answered? {
      AnsweredRecorded(live, n);
      var i :| 0 <= i < |Recorded(live)| && Recorded(live)[i] == live[n].f;
      KeyIs(source, Recorded(live), i);
      SourceAnswers(source, Recorded(live), i, d);
      AnswerKey(source, d);
    } else {
      SourceMisses(source, Recorded(live), d);
    }
    Waiting(run, live, n);
    Stepped(run, live, n);
    Stepped(run, replay, n);
  }

  lemma KeyIs(source: BundleSource, taken: seq<Fetched>, i: nat)
    requires Over(source, taken) && i < |taken|
    ensures taken[i].key == CacheKey(source.hash, source.chainId, taken[i].descriptor)
  {
    hide CacheKey;
  }

  lemma AnswerKey(source: BundleSource, d: Descriptor)
    ensures source.Answer(d).Ok? ==> source.Answer(d).value.key == CacheKey(source.hash, source.chainId, d)
                                     && source.Answer(d).value.descriptor == d
  {}

  /** As long as the run takes refusals alike and they stay refused, the replay is in
      step with it. */
  lemma {:induction false} TracesMatch<R>(source: BundleSource, run: Run<R>, limit: nat, live: seq<Event>, end: End<R>,
                                          replay: seq<Event>, replayEnd: End<R>, n: nat)
    requires Replayed(source, run, limit, live, end, replay, replayEnd) && n <= |live|
    requires StayedRefused(source.hash, source.chainId, live) && AlikeBefore(run, live, n)
    ensures InStep(run, live, replay, n)
  {
    hide After, Replayed, NotAmong, TakenAlike, Matches;
    if n > 0 {
      TracesMatch(source, run, limit, live, end, replay, replayEnd, n - 1);
      NextMatches(source, run, limit, live, end, replay, replayEnd, n - 1);
    } else {
      assert live[..0] == replay[..0] == [];
    }
  }

  predicate AllAnswered(live: seq<Event>) {
    forall i :: 0 <= i < |live| ==> live[i].Answered?
  }

  /** The whole replay matches the whole live run. */
  ghost predicate SameRun(live: seq<Event>, replay: seq<Event>) {
    |replay| == |live| && forall i :: 0 <= i < |live| ==> Matches(live[i], replay[i])
  }

  /** A program that takes each refusal as it takes a miss replays in full exactly when
      its refused reads stayed refused: same reads in the same order, same bodies, same
      end. */
  lemma FaithfulReplay<R>(source: BundleSource, run: Run<R>, limit: nat, live: seq<Event>, end: End<R>,
                          replay: seq<Event>, replayEnd: End<R>)
    requires Replayed(source, run, limit, live, end, replay, replayEnd)
    requires AlikeBefore(run, live, |live|)
    ensures SameRun(live, replay) <==> StayedRefused(source.hash, source.chainId, live)
    ensures SameRun(live, replay) ==> replayEnd == end
  {
    hide After, Asked, NotAmong, TakenAlike, Matches, CacheKey, Recorded, Over;
    if StayedRefused(source.hash, source.chainId, live) {
      var n := |live|;
      TracesMatch(source, run, limit, live, end, replay, replayEnd, n);
      assert live[..n] == live && replay[..|replay|] == replay;
      if n < |replay| {
        Waiting(run, replay, n);
      }
    }
    if SameRun(live, replay) {
      forall i | 0 <= i < |live| && live[i].Refused?
        ensures NotAmong(source.hash, source.chainId, Recorded(live), live[i].d)
      {
        MatchedRefusal(source, live, replay, i);
      }
    }
  }

  lemma MatchedRefusal(source: BundleSource, live: seq<Event>, replay: seq<Event>, i: nat)
    requires Over(source, Recorded(live)) && i < |live| && i < |replay| && live[i].Refused?
    requires FromSource(source, replay[i]) && Matches(live[i], replay[i])
    ensures NotAmong(source.hash, source.chainId, Recorded(live), live[i].d)
  {
    hide CacheKey, NotAmong, Over, Recorded, BundleSource.Answer;
    SourceMisses(source, Recorded(live), live[i].d);
  }

  /** The refused reads of a live run, in order, as misses. */
  lemma {:induction false} MatchedCounts(hash: Hash, chainId: nat, live: seq<Event>, replay: seq<Event>)
    requires SameRun(live, replay)
    ensures Misses(hash, chainId, replay) == RefusedReads(hash, chainId, live)
    ensures |Recorded(replay)| == |Recorded(live)|
  {
    if live != [] {
      MatchedCounts(hash, chainId, live[..|live| - 1], replay[..|replay| - 1]);
    }
  }

  function RefusedReads(hash: Hash, chainId: nat, live: seq<Event>): seq<Miss> {
    if live == [] then []
    else
      var last := live[|live| - 1];
      RefusedReads(hash, chainId, live[..|live| - 1]) + if last.Refused? then [MissOf(hash, chainId, last.d)] else []
  }

  /** A run, its bundle, and the run again from the bundle.  As far as the run takes
      each refusal as a miss, and no refused read is answered later, the replay is in
      step; then it is the same run, and misses exactly the refused reads. */
  method LiveThenReplay<R>(client: Client, writer: BundleWriter, run: Run<R>, limit: nat,
                           chainIdIn: string -> Option<nat>)
    returns (end: End<R>, replayEnd: End<R>, source: BundleSource, ghost live: seq<Event>, ghost replay: seq<Event>)
    requires Holds(writer.hash, writer.chainId, writer.entries, writer.files, [])
    requires writer.hash == client.hash && writer.chainId == client.chainId
    modifies client`networkCalls, client`cacheHits, client`observations, client`served, client.cache, writer
    ensures Asked(run, live) && EndsWith(run, live, limit, end)
    ensures !end.RecordFailed? && StayedRefused(client.hash, client.chainId, live)
        ==> forall n :: 0 <= n < |live| && AlikeBefore(run, live, n) ==> n < |replay| && Matches(live[n], replay[n])
    ensures !end.RecordFailed? && AlikeBefore(run, live, |live|)
        ==> (SameRun(live, replay) <==> StayedRefused(client.hash, client.chainId, live))
    ensures !end.RecordFailed? && AlikeBefore(run, live, |live|) && SameRun(live, replay)
        ==> && replayEnd == end && source.served == |Recorded(live)|
            && source.missing == RefusedReads(client.hash, client.chainId, live)
    ensures !end.RecordFailed? && AllAnswered(live)
        ==> SameRun(live, replay) && replayEnd == end && source.missing == []
  {
    hide Asked, Holds, CacheKey, After, Coherent, Indexes, NotAmong, FirstRow, RowsOf, Recorded, TakenAlike, Matches,
         RefusedReads, Misses, StayedRefused;
    end, live := RunLive(client, writer, run, limit);
    var rows := RowsOf(writer.entries);
    AllReadable(writer.entries);
    var index := Open(rows, Some(client.chainId), writer.files, client.hash, chainIdIn);
    source := index.value;
    replayEnd, replay := RunReplay(source, run, limit);
    if !end.RecordFailed? {
      assert Over(source, Recorded(live));
      assert Replayed(source, run, limit, live, end, replay, replayEnd);
      if StayedRefused(client.hash, client.chainId, live) {
        forall n | 0 <= n < |live| && AlikeBefore(run, live, n)
          ensures n < |replay| && Matches(live[n], replay[n])
        {
          MatchedUpTo(source, run, limit, live, end, replay, replayEnd, n);
        }
      }
      if AllAnswered(live) {
        AnsweredInFull(client.hash, client.chainId, run, live);
      }
      if AlikeBefore(run, live, |live|) {
        FaithfulReplay(source, run, limit, live, end, replay, replayEnd);
        if SameRun(live, replay) {
          MatchedCounts(client.hash, client.chainId, live, replay);
        }
      }
    }
  }

  lemma MatchedUpTo<R>(source: BundleSource, run: Run<R>, limit: nat, live: seq<Event>, end: End<R>,
                       replay: seq<Event>, replayEnd: End<R>, n: nat)
    requires Replayed(source, run, limit, live, end, replay, replayEnd) && n < |live|
    requires StayedRefused(source.hash, source.chainId, live) && AlikeBefore(run, live, n)
    ensures n < |replay| && Matches(live[n], replay[n])
  {
    hide Replayed, InStep, NotAmong, Matches, TakenAlike;
    TracesMatch(source, run, limit, live, end, replay, replayEnd, n);
    NextMatches(source, run, limit, live, end, replay, replayEnd, n);
  }

  lemma AllReadable(entries: seq<Entry>)
    ensures Readable(RowsOf(entries))
  {}

  /** A run whose reads were all answered replays in full. */
  lemma AnsweredInFull<R>(hash: Hash, chainId: nat, run: Run<R>, live: seq<Event>)
    requires AllAnswered(live)
    ensures StayedRefused(hash, chainId, live) && AlikeBefore(run, live, |live|)
    ensures RefusedReads(hash, chainId, live) == []
  {
    hide After, NotAmong;
    NoneRefused(hash, chainId, live);
  }

  lemma {:induction false} NoneRefused(hash: Hash, chainId: nat, live: seq<Event>)
    requires AllAnswered(live)
    ensures RefusedReads(hash, chainId, live) == []
  {
    if live != [] {
      NoneRefused(hash, chainId, live[..|live| - 1]);
    }
  }
}
