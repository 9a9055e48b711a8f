/** Writing the whole table out as a snapshot and loading a snapshot back in:
    the two loops of `_saveToFile` and `init`, with the JSON text, the file
    system and the record codec abstracted away. */
module Persistence {
  import opened Wrappers
  import opened CacheStore

  /** The record codec the cache relies on (`serializeGeneration` and
      `deserializeStoredGeneration`). Decoding may fail on a malformed record. */
  datatype Codec<!R, !S> = Codec(encode: R -> S, decode: S -> Option<R>)

  /** The codec gives back every one of the records `rs` after encoding it. */
  ghost predicate RoundTripsOn<R, S>(c: Codec<R, S>, rs: seq<R>) {
    forall j | 0 <= j < |rs| :: c.decode(c.encode(rs[j])) == Some(rs[j])
  }

  /** The codec gives back every record held in the store. */
  ghost predicate RoundTripsOnStore<K, R, S>(c: Codec<R, S>, s: Store<K, R>) {
    forall i | 0 <= i < |s| :: RoundTripsOn(c, s[i].records)
  }

  /** The errors the cache lets escape to its caller. */
  datatype CacheError = IOError | DataCorruption

  /** One element of the persisted array: a cache key and its encoded records. */
  type Pair<K, S> = (K, seq<S>)

  /** The encoded form of one entry's records, in order. */
  function EncodeAll<R, S>(enc: R -> S, rs: seq<R>): (ss: seq<S>)
    ensures |ss| == |rs|
    ensures forall j | 0 <= j < |rs| :: ss[j] == enc(rs[j])
    decreases |rs|
  {
    if |rs| == 0 then [] else EncodeAll(enc, rs[..|rs| - 1]) + [enc(rs[|rs| - 1])]
  }

  /** The decoded records of one persisted entry, or `None` if any of them
      fails to decode. */
  function DecodeAll<R, S>(dec: S -> Option<R>, ss: seq<S>): (r: Option<seq<R>>)
    ensures r.Some? <==> forall j | 0 <= j < |ss| :: dec(ss[j]).Some?
    ensures r.Some? ==> |r.value| == |ss| && forall j | 0 <= j < |ss| :: dec(ss[j]) == Some(r.value[j])
    decreases |ss|
  {
    if |ss| == 0 then Some([])
    else match DecodeAll(dec, ss[..|ss| - 1])
      case None => None
      case Some(xs) =>
        match dec(ss[|ss| - 1])
        case None => None
        case Some(x) => Some(xs + [x])
  }

  /** Decoding what was encoded gives the records back, in order. */
  lemma {:induction false} DecodeEncode<R, S>(c: Codec<R, S>, rs: seq<R>)
    requires RoundTripsOn(c, rs)
    ensures DecodeAll(c.decode, EncodeAll(c.encode, rs)) == Some(rs)
    decreases |rs|
  {
    if |rs| != 0 {
      var n := |rs| - 1;
      var ss := EncodeAll(c.encode, rs);
      assert ss[..n] == EncodeAll(c.encode, rs[..n]);
      assert RoundTripsOn(c, rs[..n]) by {
        forall j | 0 <= j < n ensures c.decode(c.encode(rs[..n][j])) == Some(rs[..n][j]) {
          assert rs[..n][j] == rs[j];
        }
      }
      DecodeEncode(c, rs[..n]);
      assert rs[..n] + [rs[n]] == rs;
    }
  }

  /** The snapshot `_saveToFile` writes: one pair per store entry, in the
      store's iteration order, each holding the entry's key and its records
      encoded one by one in their order. */
  function Snapshot<K, R, S>(s: Store<K, R>, enc: R -> S): (file: seq<Pair<K, S>>)
    ensures |file| == |s|
    ensures forall i | 0 <= i < |s| :: file[i] == (s[i].key, EncodeAll(enc, s[i].records))
    decreases |s|
  {
    if |s| == 0 then []
    else [(s[0].key, EncodeAll(enc, s[0].records))] + Snapshot(s[1..], enc)
  }

  /** What hydrating leaves behind: the store, and whether it raised. */
  datatype Loaded<K, R> = Loaded(store: Store<K, R>, outcome: Outcome<CacheError>)

  /** Every record of every pair in the file decodes. */
  ghost predicate AllDecode<K, R, S>(dec: S -> Option<R>, file: seq<Pair<K, S>>) {
    forall i | 0 <= i < |file| :: DecodeAll(dec, file[i].1).Some?
  }

  /** The loop of `init` over a parsed file: each pair in turn sets its key to
      its decoded records. A record that fails to decode raises
      `DataCorruption`; the pairs before it have already been applied. */
  function Hydrate<K(==), R, S>(store: Store<K, R>, file: seq<Pair<K, S>>, dec: S -> Option<R>): (r: Loaded<K, R>)
    ensures r.outcome.Pass? <==> AllDecode(dec, file)
    ensures r.outcome.Fail? ==> r.outcome.error == DataCorruption
    decreases |file|
  {
    if |file| == 0 then Loaded(store, Pass)
    else match DecodeAll(dec, file[0].1)
      case None => Loaded(store, Fail(DataCorruption))
      case Some(rs) =>
        var r := Hydrate(Set(store, file[0].0, rs), file[1..], dec);
        assert AllDecode(dec, file) <==> AllDecode(dec, file[1..]) by {
          assert forall i | 1 <= i < |file| :: file[i] == file[1..][i - 1];
        }
        r
  }

  /** The records the file gives for `k`: those of the last pair for `k`,
      since each pair overwrites the ones before it. */
  ghost function LastFor<K, S>(file: seq<Pair<K, S>>, k: K): (r: Option<seq<S>>)
    ensures r.None? <==> forall i | 0 <= i < |file| :: file[i].0 != k
    ensures r.Some? ==> exists i | 0 <= i < |file| :: file[i] == (k, r.value) && forall j | i < j < |file| :: file[j].0 != k
    decreases |file|
  {
    if |file| == 0 then None
    else
      var rest := LastFor(file[1..], k);
      assert forall i | 1 <= i < |file| :: file[i] == file[1..][i - 1];
      if rest.Some? then
        var i :| 0 <= i < |file[1..]| && file[1..][i] == (k, rest.value) && forall j | i < j < |file[1..]| :: file[1..][j].0 != k;
        assert file[i + 1] == (k, rest.value);
        rest
      else if file[0].0 == k then Some(file[0].1)
      else None
  }

  /** When every record decodes, hydrating sets each key named in the file to
      the decoded records of its last pair and leaves every other key alone. */
  lemma {:induction false} HydrateGet<K, R, S>(store: Store<K, R>, file: seq<Pair<K, S>>, dec: S -> Option<R>, k: K)
    requires AllDecode(dec, file)
    ensures Get(Hydrate(store, file, dec).store, k) ==
      match LastFor(file, k)
      case None => Get(store, k)
      case Some(ss) => DecodeAll(dec, ss)
    decreases |file|
  {
    if |file| != 0 {
      var rs := DecodeAll(dec, file[0].1).value;
      var st := Set(store, file[0].0, rs);
      assert AllDecode(dec, file[1..]) by {
        forall i | 0 <= i < |file[1..]| ensures DecodeAll(dec, file[1..][i].1).Some? {
          assert file[1..][i] == file[i + 1];
        }
      }
      HydrateGet(st, file[1..], dec, k);
      if k != file[0].0 {
        SetKeepsOthers(store, file[0].0, rs, k);
      }
    }
  }

  /** A key no pair of the file names keeps its entry, even when hydrating
      stops at a record that does not decode. */
  lemma {:induction false} HydrateKeepsUnlisted<K, R, S>(store: Store<K, R>, file: seq<Pair<K, S>>, dec: S -> Option<R>, k: K)
    requires forall i | 0 <= i < |file| :: file[i].0 != k
    ensures Get(Hydrate(store, file, dec).store, k) == Get(store, k)
    decreases |file|
  {
    if |file| != 0 && DecodeAll(dec, file[0].1).Some? {
      var rs := DecodeAll(dec, file[0].1).value;
      assert forall i | 0 <= i < |file[1..]| :: file[1..][i] == file[i + 1];
      HydrateKeepsUnlisted(Set(store, file[0].0, rs), file[1..], dec, k);
      SetKeepsOthers(store, file[0].0, rs, k);
    }
  }

  /** Hydrating never makes a key appear twice. */
  lemma {:induction false} HydrateKeepsKeysUnique<K, R, S>(store: Store<K, R>, file: seq<Pair<K, S>>, dec: S -> Option<R>)
    requires UniqueKeys(store)
    ensures UniqueKeys(Hydrate(store, file, dec).store)
    decreases |file|
  {
    if |file| != 0 && DecodeAll(dec, file[0].1).Some? {
      var rs := DecodeAll(dec, file[0].1).value;
      SetKeepsKeysUnique(store, file[0].0, rs);
      HydrateKeepsKeysUnique(Set(store, file[0].0, rs), file[1..], dec);
    }
  }

  /** A record that does not decode stops hydrating with `DataCorruption`,
      leaving the store as the pairs before its pair made it. */
  lemma {:induction false} HydrateStopsAtBadPair<K, R, S>(store: Store<K, R>, file: seq<Pair<K, S>>, dec: S -> Option<R>, n: nat)
    requires n < |file|
    requires AllDecode(dec, file[..n])
    requires DecodeAll(dec, file[n].1).None?
    ensures Hydrate(store, file, dec) == Loaded(Hydrate(store, file[..n], dec).store, Fail(DataCorruption))
    decreases n
  {
    if n != 0 {
      assert file[..n][0] == file[0];
      var rs := DecodeAll(dec, file[0].1).value;
      var st := Set(store, file[0].0, rs);
      var tail := file[1..];
      assert tail[..n - 1] == file[..n][1..];
      var pre := tail[..n - 1];
      assert AllDecode(dec, pre) by {
        forall i | 0 <= i < |pre| ensures DecodeAll(dec, pre[i].1).Some? {
          assert pre[i] == file[..n][i + 1];
        }
      }
      HydrateStopsAtBadPair(st, tail, dec, n - 1);
    }
  }

  /** The first pair of a snapshot appends the first entry to a store that
      does not hold its key. */
  lemma {:induction false} HydrateSnapshotStep<K, R, S>(c: Codec<R, S>, base: Store<K, R>, s: Store<K, R>)
    requires |s| != 0
    requires RoundTripsOn(c, s[0].records)
    requires s[0].key !in Keys(base)
    ensures Hydrate(base, Snapshot(s, c.encode), c.decode) == Hydrate(base + [s[0]], Snapshot(s[1..], c.encode), c.decode)
  {
    var snap := Snapshot(s, c.encode);
    assert snap[1..] == Snapshot(s[1..], c.encode);
    DecodeEncode(c, s[0].records);
    SetAppendsNewKey(base, s[0].key, s[0].records);
  }

  /** Hydrating a store from the snapshot of entries with other keys appends
      those entries, in order, and raises nothing. */
  lemma {:induction false} HydrateSnapshot<K, R, S>(c: Codec<R, S>, base: Store<K, R>, s: Store<K, R>)
    requires UniqueKeys(s)
    requires RoundTripsOnStore(c, s)
    requires forall i | 0 <= i < |s| :: s[i].key !in Keys(base)
    ensures Hydrate(base, Snapshot(s, c.encode), c.decode) == Loaded(base + s, Pass)
    decreases |s|
  {
    if |s| == 0 {
      assert base + s == base;
    } else {
      var e := s[0];
      var t := s[1..];
      HydrateSnapshotStep(c, base, s);
      HydrateSnapshotTail(c, base, s);
      HydrateSnapshot(c, base + [e], t);
      ConsTail(s);
      AppendAssoc(base, [e], t);
    }
  }

  /** What the recursive step of `HydrateSnapshot` needs of the remaining entries. */
  lemma {:induction false} HydrateSnapshotTail<K, R, S>(c: Codec<R, S>, base: Store<K, R>, s: Store<K, R>)
    requires |s| != 0
    requires UniqueKeys(s)
    requires RoundTripsOnStore(c, s)
    requires forall i | 0 <= i < |s| :: s[i].key !in Keys(base)
    ensures RoundTripsOnStore(c, s[1..])
    ensures forall i | 0 <= i < |s[1..]| :: s[1..][i].key !in Keys(base + [s[0]])
  {
    var t := s[1..];
    KeysAppend(base, [s[0]]);
    forall i | 0 <= i < |t| ensures t[i].key !in Keys(base + [s[0]]) {
      assert t[i] == s[i + 1];
      assert Keys(t)[i] == t[i].key;
    }
    forall i | 0 <= i < |t| ensures RoundTripsOn(c, t[i].records) {
      assert t[i] == s[i + 1];
    }
  }

  /** Hydrating an empty store from the snapshot of a store gives that store
      back, entries and order, provided the codec gives back every stored record. */
  lemma {:induction false} RoundTrip<K, R, S>(c: Codec<R, S>, s: Store<K, R>)
    requires UniqueKeys(s)
    requires RoundTripsOnStore(c, s)
    ensures Hydrate([], Snapshot(s, c.encode), c.decode) == Loaded(s, Pass)
  {
    HydrateSnapshot(c, [], s);
    assert [] + s == s;
  }

  /** The loops of `_saveToFile` as written: for each entry, push each
      encoded record, then push the entry's pair. They build the snapshot. */
  method SnapshotLoop<K, R, S>(s: Store<K, R>, enc: R -> S) returns (data: seq<Pair<K, S>>)
    ensures data == Snapshot(s, enc)
  {
    data := [];
    var i := 0;
    while i < |s|
      invariant 0 <= i <= |s|
      invariant |data| == i
      invariant forall k | 0 <= k < i :: data[k] == (s[k].key, EncodeAll(enc, s[k].records))
    {
      var records := s[i].records;
      var serialized: seq<S> := [];
      var j := 0;
      while j < |records|
        invariant 0 <= j <= |records|
        invariant serialized == EncodeAll(enc, records[..j])
      {
        assert records[..j + 1][..j] == records[..j];
        serialized := serialized + [enc(records[j])];
        j := j + 1;
      }
      assert records[..j] == records;
      data := data + [(s[i].key, serialized)];
      i := i + 1;
    }
    var snap := Snapshot(s, enc);
    assert forall k | 0 <= k < |s| :: data[k] == snap[k];
  }

  /** The loops of `init` over a parsed file as written: for each pair, push
      each decoded record, then set the key. A record that does not decode
      raises at once. They compute `Hydrate`. */
  method HydrateLoop<K(==), R, S>(store: Store<K, R>, file: seq<Pair<K, S>>, dec: S -> Option<R>)
    returns (st: Store<K, R>, outcome: Outcome<CacheError>)
    ensures Loaded(st, outcome) == Hydrate(store, file, dec)
  {
    st := store;
    var i := 0;
    while i < |file|
      invariant 0 <= i <= |file|
      invariant Hydrate(st, file[i..], dec) == Hydrate(store, file, dec)
    {
      var (key, serialized) := file[i];
      var generations: seq<R> := [];
      var j := 0;
      while j < |serialized|
        invariant 0 <= j <= |serialized|
        invariant DecodeAll(dec, serialized[..j]) == Some(generations)
      {
        assert serialized[..j + 1][..j] == serialized[..j];
        var g := dec(serialized[j]);
        if g.None? {
          assert DecodeAll(dec, serialized).None?;
          assert file[i..][0] == file[i];
          return st, Fail(DataCorruption);
        }
        generations := generations + [g.value];
        j := j + 1;
      }
      assert serialized[..j] == serialized;
      assert file[i..][0] == file[i] && file[i..][1..] == file[i + 1..];
      st := Set(st, key, generations);
      i := i + 1;
    }
    outcome := Pass;
  }
}
