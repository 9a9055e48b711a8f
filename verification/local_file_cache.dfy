/** `LocalFileCache`: a cache of generations keyed by (prompt, LLM key), kept
    in memory and written out in full to one file after every update. The
    file system is reduced to what the cache can observe of its one file, and
    the key encoder inherited from `BaseCache` is a parameter about which
    nothing is assumed, not even that it is injective. */
module LocalFileCache {
  import opened Wrappers
  import opened CacheStore
  import opened Persistence

  /** What reading the cache file can find: no file, a file that cannot be
      read, content that does not parse as an array of pairs, or the parsed
      pairs. */
  datatype Disk<K, S> = Missing | Unreadable | Garbled | Holds(file: seq<Pair<K, S>>)

  /** One cache instance: its in-memory table and the content of its file. */
  datatype Cache<K, R, S> = Cache(store: Store<K, R>, disk: Disk<K, S>)

  /** The state an operation leaves and whether it raised. */
  datatype Step<K, R, S> = Step(cache: Cache<K, R, S>, outcome: Outcome<CacheError>)

  /** `lookup`: the records stored under the encoded key, or `None` (the
      source's `null`) on a miss. A pure function: the cache is untouched. */
  function Lookup<K(==), R, S>(c: Cache<K, R, S>, keyEncoder: (string, string) -> K, prompt: string, llmKey: string): (r: Option<seq<R>>)
    ensures r.None? <==> keyEncoder(prompt, llmKey) !in Keys(c.store)
    ensures r.Some? ==> Entry(keyEncoder(prompt, llmKey), r.value) in c.store
    ensures UniqueKeys(c.store) ==> forall i | 0 <= i < |c.store| && c.store[i].key == keyEncoder(prompt, llmKey) :: r == Some(c.store[i].records)
  {
    GetFindsEntry(c.store, keyEncoder(prompt, llmKey));
    Get(c.store, keyEncoder(prompt, llmKey))
  }

  /** `update`: set the encoded key to `value` in memory, then write the whole
      table to the file. `written` says whether the write succeeded; when it
      fails the error escapes, the file keeps its old content and the
      in-memory change stays. */
  function Update<K(==), R, S>(c: Cache<K, R, S>, keyEncoder: (string, string) -> K, enc: R -> S,
                               prompt: string, llmKey: string, value: seq<R>, written: bool): (r: Step<K, R, S>)
    ensures forall p, k | keyEncoder(p, k) == keyEncoder(prompt, llmKey) :: Lookup(r.cache, keyEncoder, p, k) == Some(value)
    ensures Keys(r.cache.store) == if keyEncoder(prompt, llmKey) in Keys(c.store) then Keys(c.store) else Keys(c.store) + [keyEncoder(prompt, llmKey)]
    ensures UniqueKeys(c.store) ==> UniqueKeys(r.cache.store)
    ensures r.outcome.Pass? <==> written
    ensures written ==> r.cache.disk == Holds(Snapshot(r.cache.store, enc))
    ensures !written ==> r.cache.disk == c.disk && r.outcome == Fail(IOError)
  {
    var key := keyEncoder(prompt, llmKey);
    var store := Set(c.store, key, value);
    SetKeys(c.store, key, value);
    assert UniqueKeys(c.store) ==> UniqueKeys(store) by {
      if UniqueKeys(c.store) {
        SetKeepsKeysUnique(c.store, key, value);
      }
    }
    if written then Step(Cache(store, Holds(Snapshot(store, enc))), Pass)
    else Step(Cache(store, c.disk), Fail(IOError))
  }

  /** `init`: load the file into the table if there is one. No file is the
      normal first run and changes nothing; a read error or unparsable
      content raises before anything is set; parsed pairs are applied in
      order, as `Hydrate` describes. The file is never changed. */
  function Init<K(==), R, S>(c: Cache<K, R, S>, dec: S -> Option<R>): (r: Step<K, R, S>)
    ensures r.cache.disk == c.disk
    ensures c.disk.Missing? ==> r == Step(c, Pass)
    ensures c.disk.Unreadable? ==> r == Step(c, Fail(IOError))
    ensures c.disk.Garbled? ==> r == Step(c, Fail(DataCorruption))
    ensures c.disk.Holds? ==> (r.outcome.Pass? <==> AllDecode(dec, c.disk.file))
    ensures r.outcome.Fail? && r.outcome.error == IOError ==> c.disk.Unreadable?
    ensures UniqueKeys(c.store) ==> UniqueKeys(r.cache.store)
  {
    match c.disk
    case Missing => Step(c, Pass)
    case Unreadable => Step(c, Fail(IOError))
    case Garbled => Step(c, Fail(DataCorruption))
    case Holds(file) =>
      var loaded := Hydrate(c.store, file, dec);
      assert UniqueKeys(c.store) ==> UniqueKeys(loaded.store) by {
        if UniqueKeys(c.store) {
          HydrateKeepsKeysUnique(c.store, file, dec);
        }
      }
      Step(Cache(loaded.store, c.disk), loaded.outcome)
  }

  /** After loading a file whose records all decode, a lookup finds the
      decoded records of the last pair for the encoded key, or, when the file
      names no such key, what it found before. */
  lemma {:induction false} InitLookup<K, R, S>(c: Cache<K, R, S>, dec: S -> Option<R>, keyEncoder: (string, string) -> K,
                                             prompt: string, llmKey: string)
    requires c.disk.Holds? && AllDecode(dec, c.disk.file)
    ensures Lookup(Init(c, dec).cache, keyEncoder, prompt, llmKey) ==
      match LastFor(c.disk.file, keyEncoder(prompt, llmKey))
      case None => Lookup(c, keyEncoder, prompt, llmKey)
      case Some(ss) => DecodeAll(dec, ss)
  {
    HydrateGet(c.store, c.disk.file, dec, keyEncoder(prompt, llmKey));
  }

  /** An update leaves every other encoded key's lookup as it was, whether or
      not the write succeeds. */
  lemma {:induction false} UpdateKeepsOtherKeys<K, R, S>(c: Cache<K, R, S>, keyEncoder: (string, string) -> K, enc: R -> S,
                                                       prompt: string, llmKey: string, value: seq<R>, written: bool,
                                                       p: string, k: string)
    requires keyEncoder(p, k) != keyEncoder(prompt, llmKey)
    ensures Lookup(Update(c, keyEncoder, enc, prompt, llmKey, value, written).cache, keyEncoder, p, k) == Lookup(c, keyEncoder, p, k)
  {
    SetKeepsOthers(c.store, keyEncoder(prompt, llmKey), value, keyEncoder(p, k));
  }

  /** Two updates of the same key leave the table the second alone would:
      the second value replaces the first outright. */
  lemma {:induction false} UpdateOverwrites<K, R, S>(c: Cache<K, R, S>, keyEncoder: (string, string) -> K, enc: R -> S,
                                                   prompt: string, llmKey: string, v1: seq<R>, v2: seq<R>, w1: bool, w2: bool)
    ensures Update(Update(c, keyEncoder, enc, prompt, llmKey, v1, w1).cache, keyEncoder, enc, prompt, llmKey, v2, w2).cache.store
         == Update(c, keyEncoder, enc, prompt, llmKey, v2, w2).cache.store
  {
    SetOverwrites(c.store, keyEncoder(prompt, llmKey), v1, v2);
  }

  /** A fresh instance on the file a successful update wrote loads exactly
      the table that update left, without error, provided the codec gives
      back every stored record. */
  lemma {:induction false} ReloadAfterUpdate<K, R, S>(c: Cache<K, R, S>, keyEncoder: (string, string) -> K, codec: Codec<R, S>,
                                                    prompt: string, llmKey: string, value: seq<R>)
    requires UniqueKeys(c.store)
    requires RoundTripsOnStore(codec, c.store)
    requires RoundTripsOn(codec, value)
    ensures Init(Cache([], Update(c, keyEncoder, codec.encode, prompt, llmKey, value, true).cache.disk), codec.decode)
         == Step(Update(c, keyEncoder, codec.encode, prompt, llmKey, value, true).cache, Pass)
  {
    var key := keyEncoder(prompt, llmKey);
    var store := Set(c.store, key, value);
    SetKeepsKeysUnique(c.store, key, value);
    assert RoundTripsOnStore(codec, store) by {
      forall i | 0 <= i < |store| ensures RoundTripsOn(codec, store[i].records) {
        SetEntry(c.store, key, value, i);
      }
    }
    RoundTrip(codec, store);
  }

  /** Consequently that fresh instance finds the records just stored. */
  lemma {:induction false} ReloadFindsValue<K, R, S>(c: Cache<K, R, S>, keyEncoder: (string, string) -> K, codec: Codec<R, S>,
                                                   prompt: string, llmKey: string, value: seq<R>)
    requires UniqueKeys(c.store)
    requires RoundTripsOnStore(codec, c.store)
    requires RoundTripsOn(codec, value)
    ensures Lookup(Init(Cache([], Update(c, keyEncoder, codec.encode, prompt, llmKey, value, true).cache.disk), codec.decode).cache,
                   keyEncoder, prompt, llmKey) == Some(value)
  {
    ReloadAfterUpdate(c, keyEncoder, codec, prompt, llmKey, value);
  }
}
