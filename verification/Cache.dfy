/** The response cache: a body file and a metadata file for each key. */
module Cache {
  import opened Prelude

  datatype Meta = Meta(
    key: string, chainId: nat, methodName: string, block: string, to: string, calldata: string,
    endpoint: string, storedUtc: string)

  /** What a hit gives back. */
  datatype Stored = Stored(body: string, meta: Meta)

  class Store {
    /** The readable body files and the readable metadata files, by key. */
    var bodies: map<string, string>
    var metas: map<string, Meta>

    constructor ()
      ensures bodies == map[] && metas == map[]
    {
      bodies, metas := map[], map[];
    }

    /** A body without readable metadata is a miss. */
    function Lookup(key: string): Option<Stored>
      reads this
    {
      if key in bodies && key in metas then Some(Stored(bodies[key], metas[key])) else None
    }

    /** Every key that hits, with its body. */
    ghost function Held(): (held: map<string, string>)
      reads this
      ensures forall k :: k in held <==> Lookup(k).Some?
      ensures forall k :: k in held ==> held[k] == Lookup(k).value.body
    {
      map k | k in bodies && k in metas :: bodies[k]
    }

    method Get(key: string) returns (r: Option<Stored>)
      ensures r == Lookup(key)
    {
      if key !in bodies {
        return None;
      }
      var body := bodies[key];
      if key !in metas {
        return None;
      }
      r := Some(Stored(body, metas[key]));
    }

    /** Writes the body, then the metadata.  A write that fails leaves this key's
        file in any state, and touches no other key. */
    method Put(key: string, body: string, meta: Meta) returns (ok: bool)
      modifies this
      ensures ok ==> Lookup(key) == Some(Stored(body, meta))
      ensures forall k :: k != key ==> Lookup(k) == old(Lookup(k))
    {
      var made: bool := *;
      if !made {
        return false;
      }
      var written: bool := *;
      if !written {
        var left: Option<string> := *;
        bodies := match left case Some(text) => bodies[key := text] case None => bodies - {key};
        return false;
      }
      bodies := bodies[key := body];
      var described: bool := *;
      if !described {
        var left: Option<Meta> := *;
        metas := match left case Some(m) => metas[key := m] case None => metas - {key};
        return false;
      }
      metas := metas[key := meta];
      ok := true;
    }
  }
}
