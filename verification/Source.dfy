/** A read source backed by a bundle: bodies by cache key, and no network. */
module Source {
  import opened Bundle
  import opened Client
  import opened Keys
  import opened Prelude

  /** The fields of one manifest entry as JSON gives them. */
  datatype Row = Row(
    file: Option<string>, methodName: Option<string>, cacheKey: Option<string>, endpoint: Option<string>,
    firstStoredUtc: Option<string>)

  /** What the manifest says about one raw body. */
  datatype Held = Held(file: string, endpoint: string, firstStoredUtc: string)

  datatype Miss = Miss(labelText: string, methodName: string, key: string)

  datatype OpenError = NoFile | NoCacheKey | NoChainId | Unreadable(file: string) | NoReadableChainId(file: string)

  function HeldBy(row: Row): Held {
    Held(OrEmpty(row.file), OrEmpty(row.endpoint), OrEmpty(row.firstStoredUtc))
  }

  /** The position of the first row with this key. */
  function FirstRow(rows: seq<Row>, key: string): (i: Option<nat>)
    ensures i.Some? ==> i.value < |rows| && rows[i.value].cacheKey == Some(key)
                        && forall j :: 0 <= j < i.value ==> rows[j].cacheKey != Some(key)
    ensures i == None ==> forall j :: 0 <= j < |rows| ==> rows[j].cacheKey != Some(key)
  {
    if rows == [] then None
    else
      var n := |rows| - 1;
      var i := FirstRow(rows[..n], key);
      if i.Some? then i else if rows[n].cacheKey == Some(key) then Some(n) else None
  }

  /** The index a source keeps: the first row of each key. */
  ghost predicate Indexes(byKey: map<string, Held>, rows: seq<Row>) {
    forall key :: IndexedAt(byKey, rows, key)
  }

  ghost predicate IndexedAt(byKey: map<string, Held>, rows: seq<Row>, key: string) {
    match FirstRow(rows, key)
    case Some(i) => key in byKey && byKey[key] == HeldBy(rows[i])
    case None => key !in byKey
  }

  /** The file of the last row that reads the chain id. */
  function ChainIdFile(rows: seq<Row>): Option<string> {
    if rows == [] then None
    else if rows[|rows| - 1].methodName == Some("eth_chainId") then rows[|rows| - 1].file
    else ChainIdFile(rows[..|rows| - 1])
  }

  /** The error of the first row without a file or a key. */
  function RowError(row: Row): Option<OpenError> {
    if row.file == None then Some(NoFile) else if row.cacheKey == None then Some(NoCacheKey) else None
  }

  predicate Readable(rows: seq<Row>) {
    forall i :: 0 <= i < |rows| ==> RowError(rows[i]) == None
  }

  /** The header's chain id, else the one in the bundle's own chain id body. */
  function ChainOf(rows: seq<Row>, header: Option<nat>, files: map<string, string>,
                   chainIdIn: string -> Option<nat>): Result<nat, OpenError>
  {
    match header
    case Some(chainId) => Ok(chainId)
    case None =>
      match ChainIdFile(rows)
      case None => Err(NoChainId)
      case Some(file) =>
        if file !in files then Err(Unreadable(file))
        else match chainIdIn(files[file])
          case Some(chainId) => Ok(chainId)
          case None => Err(NoReadableChainId(file))
  }

  class BundleSource {
    const files: map<string, string>
    const chainId: nat
    const hash: Hash
    var byKey: map<string, Held>
    var served: nat
    var missing: seq<Miss>

    constructor (files: map<string, string>, chainId: nat, hash: Hash, byKey: map<string, Held>)
      ensures this.files == files && this.chainId == chainId && this.hash == hash && this.byKey == byKey
      ensures served == 0 && missing == []
    {
      this.files, this.chainId, this.hash, this.byKey := files, chainId, hash, byKey;
      served, missing := 0, [];
    }

    /** What the source answers to a read. */
    function Answer(d: Descriptor): Result<Fetched, RpcError>
      reads this`byKey
    {
      var key := CacheKey(hash, chainId, d);
      if key !in byKey then Err(OfflineMiss)
      else if byKey[key].file !in files then Err(Failed)
      else Ok(Fetched(d, key, files[byKey[key].file], true, byKey[key].endpoint, byKey[key].firstStoredUtc))
    }

    method Fetch(d: Descriptor) returns (r: Result<Fetched, RpcError>)
      modifies this`served, this`missing
      ensures r == old(Answer(d)) == Answer(d)
      ensures served == old(served) + if r.Ok? then 1 else 0
      ensures missing == old(missing)
        + if r == Err(OfflineMiss) then [Miss(d.labelText, d.methodName, CacheKey(hash, chainId, d))] else []
    {
      var key := CacheKey(hash, chainId, d);
      if key !in byKey {
        missing := missing + [Miss(d.labelText, d.methodName, key)];
        return Err(OfflineMiss);
      }
      var held := byKey[key];
      if held.file !in files {
        return Err(Failed);
      }
      served := served + 1;
      r := Ok(Fetched(d, key, files[held.file], true, held.endpoint, held.firstStoredUtc));
    }
  }

  /** Indexes a manifest.  It opens exactly when every row has a file and a key and
      a chain id is found. */
  method Open(rows: seq<Row>, header: Option<nat>, files: map<string, string>, hash: Hash,
              chainIdIn: string -> Option<nat>)
    returns (r: Result<BundleSource, OpenError>)
    ensures r.Ok? <==> Readable(rows) && ChainOf(rows, header, files, chainIdIn).Ok?
    ensures r.Ok? ==> && fresh(r.value) && r.value.files == files && r.value.hash == hash
                      && r.value.served == 0 && r.value.missing == []
    ensures r.Ok? ==> Ok(r.value.chainId) == ChainOf(rows, header, files, chainIdIn)
    ensures r.Ok? ==> Indexes(r.value.byKey, rows)
    ensures r.Err? ==> if Readable(rows) then Err(r.error) == ChainOf(rows, header, files, chainIdIn)
                       else exists i :: 0 <= i < |rows| && Readable(rows[..i]) && RowError(rows[i]) == Some(r.error)
  {
    hide FirstRow, Indexes, ChainIdFile, Readable;
    NothingIndexed(rows);
    var byKey: map<string, Held> := map[];
    var chainIdFile: Option<string> := None;
    for i := 0 to |rows|
      invariant Readable(rows[..i]) && Indexes(byKey, rows[..i]) && chainIdFile == ChainIdFile(rows[..i])
    {
      var row := rows[i];
      RowStep(rows, i);
      if row.file == None {
        assert RowError(rows[i]) == Some(NoFile);
        return Err(NoFile);
      }
      if row.methodName == Some("eth_chainId") {
        chainIdFile := row.file;
      }
      if row.cacheKey == None {
        assert RowError(rows[i]) == Some(NoCacheKey);
        return Err(NoCacheKey);
      }
      IndexStep(byKey, rows[..i], row);
      if row.cacheKey.value !in byKey {
        byKey := byKey[row.cacheKey.value := Held(row.file.value, OrEmpty(row.endpoint), OrEmpty(row.firstStoredUtc))];
      }
    }
    assert rows[..|rows|] == rows;
    match ChainOf(rows, header, files, chainIdIn) {
      case Ok(chainId) =>
        var source := new BundleSource(files, chainId, hash, byKey);
        r := Ok(source);
      case Err(error) =>
        r := Err(error);
    }
  }

  lemma NothingIndexed(rows: seq<Row>)
    ensures Readable(rows[..0]) && Indexes(map[], rows[..0]) && ChainIdFile(rows[..0]) == None
  {}

  lemma RowStep(rows: seq<Row>, i: nat)
    requires i < |rows|
    ensures rows[..i + 1] == rows[..i] + [rows[i]]
    ensures Readable(rows[..i + 1]) <==> Readable(rows[..i]) && RowError(rows[i]) == None
    ensures RowError(rows[i]).Some? ==> !Readable(rows)
    ensures ChainIdFile(rows[..i + 1])
         == if rows[i].methodName == Some("eth_chainId") then rows[i].file else ChainIdFile(rows[..i])
  {
    assert rows[..i + 1][..i] == rows[..i];
    assert rows[..i + 1] == rows[..i] + [rows[i]];
  }

  lemma IndexStep(byKey: map<string, Held>, rows: seq<Row>, row: Row)
    requires Indexes(byKey, rows) && row.file.Some? && row.cacheKey.Some?
    ensures Indexes(if row.cacheKey.value in byKey then byKey else byKey[row.cacheKey.value := HeldBy(row)],
                    rows + [row])
  {
    var byKey' := if row.cacheKey.value in byKey then byKey else byKey[row.cacheKey.value := HeldBy(row)];
    assert (rows + [row])[..|rows|] == rows;
    forall key
      ensures IndexedAt(byKey', rows + [row], key)
    {
      assert IndexedAt(byKey, rows, key);
    }
  }

  /** Row i is the last one that reads the chain id. */
  predicate LastChainId(rows: seq<Row>, i: nat) {
    && i < |rows| && rows[i].methodName == Some("eth_chainId")
    && forall j :: i < j < |rows| ==> rows[j].methodName != Some("eth_chainId")
  }

  lemma {:induction false} ChainIdFileIs(rows: seq<Row>, i: nat)
    requires LastChainId(rows, i)
    ensures ChainIdFile(rows) == rows[i].file
  {
    if i < |rows| - 1 {
      ChainIdFileIs(rows[..|rows| - 1], i);
    }
  }

  /** The header gives the chain id; without one, the last chain id body that the bundle
      holds does. */
  lemma ChainFound(rows: seq<Row>, header: Option<nat>, files: map<string, string>, chainIdIn: string -> Option<nat>,
                   i: nat)
    ensures header.Some? ==> ChainOf(rows, header, files, chainIdIn) == Ok(header.value)
    ensures header == None && LastChainId(rows, i) && rows[i].file.Some? && rows[i].file.value in files
            && chainIdIn(files[rows[i].file.value]).Some?
        ==> ChainOf(rows, header, files, chainIdIn) == Ok(chainIdIn(files[rows[i].file.value]).value)
  {
    if LastChainId(rows, i) {
      ChainIdFileIs(rows, i);
    }
  }
}
