/** The in-memory table of the cache: a JavaScript `Map` from cache key to the
    ordered records stored under it, modelled as an association list kept in
    the Map's iteration order. The key type `K` is left abstract: the table
    only ever compares keys for equality. */
module CacheStore {
  import opened Wrappers

  /** One slot of the table: a cache key and the records stored under it, in order. */
  datatype Entry<K, R> = Entry(key: K, records: seq<R>)

  /** The table in iteration order. As with a JavaScript Map, a key keeps the
      position of its first insertion when its value is later replaced. */
  type Store<K, R> = seq<Entry<K, R>>

  /** The keys of a store, in iteration order. */
  function Keys<K, R>(s: Store<K, R>): seq<K>
  {
    seq(|s|, i requires 0 <= i < |s| => s[i].key)
  }

  /** Laying three sequences end to end does not depend on grouping. A lemma
      of its own, so that the fact is proved apart from the larger contexts
      that use it. */
  lemma AppendAssoc<T>(a: seq<T>, b: seq<T>, c: seq<T>)
    ensures (a + b) + c == a + (b + c)
  {
  }

  /** A non-empty sequence is its head followed by its tail. */
  lemma ConsTail<T>(s: seq<T>)
    requires |s| != 0
    ensures s == [s[0]] + s[1..]
  {
  }

  /** The key order of two stores laid end to end. */
  lemma {:induction false} KeysAppend<K, R>(a: Store<K, R>, b: Store<K, R>)
    ensures Keys(a + b) == Keys(a) + Keys(b)
  {
    var ks := Keys(a + b);
    forall i | 0 <= i < |ks| ensures ks[i] == (Keys(a) + Keys(b))[i] {
      if i < |a| {
        assert (a + b)[i] == a[i];
      } else {
        assert (a + b)[i] == b[i - |a|];
      }
    }
  }

  /** A Map never holds a key twice: no entry's key recurs later in the order. */
  ghost predicate UniqueKeys<K, R>(s: Store<K, R>)
    decreases |s|
  {
    |s| == 0 || (s[0].key !in Keys(s[1..]) && UniqueKeys(s[1..]))
  }

  /** `Map.get`: the records stored under `key`, or `None` on a miss. */
  function Get<K(==), R>(s: Store<K, R>, key: K): (r: Option<seq<R>>)
    ensures r.None? <==> key !in Keys(s)
    decreases |s|
  {
    if |s| == 0 then None
    else if s[0].key == key then assert Keys(s)[0] == key; Some(s[0].records)
    else
      assert Keys(s) == [s[0].key] + Keys(s[1..]);
      Get(s[1..], key)
  }

  /** A hit returns the records of an entry stored under the key; when keys
      are unique, those of the one entry with that key. */
  lemma {:induction false} GetFindsEntry<K, R>(s: Store<K, R>, key: K)
    ensures Get(s, key).Some? ==> Entry(key, Get(s, key).value) in s
    ensures UniqueKeys(s) ==> forall i | 0 <= i < |s| && s[i].key == key :: Get(s, key) == Some(s[i].records)
    decreases |s|
  {
    if |s| != 0 && s[0].key != key {
      var t := s[1..];
      GetFindsEntry(t, key);
      if UniqueKeys(s) {
        forall i | 0 <= i < |s| && s[i].key == key ensures Get(s, key) == Some(s[i].records) {
          assert i != 0 && t[i - 1] == s[i];
        }
      }
    } else if |s| != 0 && UniqueKeys(s) {
      forall i | 1 <= i < |s| ensures s[i].key != key {
        assert Keys(s[1..])[i - 1] == s[i].key;
      }
    }
  }

  /** `Map.set`: stores `v` under `key`, replacing an existing entry where it
      stands or appending a new one at the end. */
  function Set<K(==), R>(s: Store<K, R>, key: K, v: seq<R>): (r: Store<K, R>)
    ensures Get(r, key) == Some(v)
    decreases |s|
  {
    if |s| == 0 then [Entry(key, v)]
    else if s[0].key == key then [Entry(key, v)] + s[1..]
    else
      var t := Set(s[1..], key, v);
      assert ([s[0]] + t)[1..] == t;
      [s[0]] + t
  }

  /** Setting a key leaves every other key's lookup as it was. */
  lemma {:induction false} SetKeepsOthers<K, R>(s: Store<K, R>, key: K, v: seq<R>, k: K)
    requires k != key
    ensures Get(Set(s, key, v), k) == Get(s, k)
    decreases |s|
  {
    if |s| != 0 && s[0].key != key {
      SetKeepsOthers(s[1..], key, v, k);
    }
  }

  /** A key the store does not hold goes to the end of the iteration order. */
  lemma {:induction false} SetAppendsNewKey<K, R>(s: Store<K, R>, key: K, v: seq<R>)
    requires key !in Keys(s)
    ensures Set(s, key, v) == s + [Entry(key, v)]
    decreases |s|
  {
    if |s| != 0 {
      var t := s[1..];
      assert Keys(s) == [s[0].key] + Keys(t);
      SetAppendsNewKey(t, key, v);
      assert Set(s, key, v) == [s[0]] + (t + [Entry(key, v)]);
      assert [s[0]] + (t + [Entry(key, v)]) == ([s[0]] + t) + [Entry(key, v)];
      assert s == [s[0]] + t;
    }
  }

  /** A key the store already holds has its records replaced where its entry
      stands; every other entry keeps its position and contents. */
  lemma {:induction false} SetReplacesInPlace<K, R>(s: Store<K, R>, key: K, v: seq<R>, i: nat)
    requires UniqueKeys(s)
    requires i < |s| && s[i].key == key
    ensures Set(s, key, v) == s[i := Entry(key, v)]
    decreases |s|
  {
    var t := s[1..];
    if i == 0 {
      assert s[0 := Entry(key, v)] == [Entry(key, v)] + t;
    } else {
      assert Keys(t)[i - 1] == key;
      SetReplacesInPlace(t, key, v, i - 1);
      assert s[i := Entry(key, v)] == [s[0]] + t[i - 1 := Entry(key, v)];
    }
  }

  /** Every entry after a set is the new one or was already in the store. */
  lemma {:induction false} SetEntry<K, R>(s: Store<K, R>, key: K, v: seq<R>, i: nat)
    requires i < |Set(s, key, v)|
    ensures Set(s, key, v)[i] == Entry(key, v) || Set(s, key, v)[i] in s
    decreases |s|
  {
    if |s| != 0 && s[0].key != key && i != 0 {
      SetEntry(s[1..], key, v, i - 1);
    }
  }

  /** Setting a key never makes a key appear twice. */
  lemma {:induction false} SetKeepsKeysUnique<K, R>(s: Store<K, R>, key: K, v: seq<R>)
    requires UniqueKeys(s)
    ensures UniqueKeys(Set(s, key, v))
    decreases |s|
  {
    if |s| != 0 && s[0].key != key {
      var t := s[1..];
      var rt := Set(t, key, v);
      SetKeepsKeysUnique(t, key, v);
      assert Set(s, key, v) == [s[0]] + rt;
      assert ([s[0]] + rt)[1..] == rt;
      SetKeys(t, key, v);
    } else if |s| != 0 {
      assert ([Entry(key, v)] + s[1..])[1..] == s[1..];
    }
  }

  /** Setting a key adds it to the key order if it was absent and otherwise
      leaves the key order alone. */
  lemma {:induction false} SetKeys<K, R>(s: Store<K, R>, key: K, v: seq<R>)
    ensures Keys(Set(s, key, v)) == if key in Keys(s) then Keys(s) else Keys(s) + [key]
    decreases |s|
  {
    if |s| != 0 {
      var t := s[1..];
      assert Keys(s) == [s[0].key] + Keys(t);
      if s[0].key == key {
        assert Keys(Set(s, key, v)) == [key] + Keys(t) by {
          assert ([Entry(key, v)] + t)[1..] == t;
        }
      } else {
        var rt := Set(t, key, v);
        assert ([s[0]] + rt)[1..] == rt;
        assert Keys(Set(s, key, v)) == [s[0].key] + Keys(rt);
        SetKeys(t, key, v);
        if key !in Keys(t) {
          AppendAssoc([s[0].key], Keys(t), [key]);
        }
      }
    }
  }

  /** Setting a key twice leaves what setting it once to the second value
      leaves: the old records are replaced outright, never merged or appended to. */
  lemma {:induction false} SetOverwrites<K, R>(s: Store<K, R>, key: K, v1: seq<R>, v2: seq<R>)
    ensures Set(Set(s, key, v1), key, v2) == Set(s, key, v2)
    decreases |s|
  {
    if |s| == 0 {
    } else if s[0].key == key {
      assert ([Entry(key, v1)] + s[1..])[1..] == s[1..];
    } else {
      var t := Set(s[1..], key, v1);
      assert ([s[0]] + t)[1..] == t;
      SetOverwrites(s[1..], key, v1, v2);
    }
  }
}
