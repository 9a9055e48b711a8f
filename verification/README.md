# LocalFileCache in Dafny

A model of `LocalFileCache` (`src/cache/local_file_cache.ts`), a cache of
language-model generations. It keys entries by a (prompt, LLM key) pair. It
keeps them in an in-memory `Map` and, after every update, writes the whole
map to one JSON file. At start-up it can load that file back in.

The model is functional. The cache is an immutable value and its operations
are pure functions:

- `wrappers.dfy` (`Wrappers`): `Option` (a miss, or a record that does not
  decode) and `Outcome` (an operation that may raise).
- `cache_store.dfy` (`CacheStore`): the in-memory table as an association list
  in the JavaScript Map's iteration order. `Get` is `Map.get`. `Set` is
  `Map.set`: it replaces an existing key's value where the entry stands and
  appends a new key at the end.
- `persistence.dfy` (`Persistence`): the record codec, as an `encode`/`decode`
  pair of function values. `Snapshot` is the array `_saveToFile` builds.
  `Hydrate` is the loop of `init` over a parsed array. `SnapshotLoop` and
  `HydrateLoop` are those loops as written, nested loops included, and are
  proved to compute `Snapshot` and `Hydrate`. The round trip is proved here.
- `local_file_cache.dfy` (`LocalFileCache`): one instance (table plus file
  content) with `Lookup`, `Update` and `Init`.

The file is seen only as what reading it can yield: `Missing`, `Unreadable`,
`Garbled` (does not parse as an array of pairs), or `Holds(pairs)`. The
outcome of `writeFile` is a boolean parameter of `Update`. The key encoder
inherited from `BaseCache` is a parameter `(string, string) -> K`, and
nothing is assumed about it, not even injectivity. So every property about
keys is stated for the encoded key: two (prompt, LLM key) pairs that encode
alike share one slot. The key type `K` is abstract. In the source it is a
string, and the cache only ever compares keys for equality.

A record that fails to decode in the middle of `init` raises. The pairs
before it have already been set in the map and stay set; nothing is rolled
back (`HydrateStopsAtBadPair`).

## Model

| member | source | states |
|---|---|---|
| CacheStore.Get | src/cache/local_file_cache.ts:69 | A miss exactly when the key is absent from the table. |
| CacheStore.GetFindsEntry | src/cache/local_file_cache.ts:69 | A hit returns the records of an entry stored under the key. With unique keys, these are the records of the one entry with that key. |
| CacheStore.Set | src/cache/local_file_cache.ts:80 | After a set, the key looks up exactly the new records. |
| CacheStore.SetKeys | src/cache/local_file_cache.ts:80 | Setting a key leaves the key order alone if the key was present. Otherwise it appends the key at the end. |
| CacheStore.SetKeepsOthers | src/cache/local_file_cache.ts:80 | Setting one key leaves the lookup of every other key unchanged. |
| CacheStore.SetAppendsNewKey | src/cache/local_file_cache.ts:80 | Setting a new key appends exactly one entry, after all existing entries. |
| CacheStore.SetReplacesInPlace | src/cache/local_file_cache.ts:80 | Setting an existing key replaces its entry at its position. All other entries keep their position and contents. |
| CacheStore.SetEntry | src/cache/local_file_cache.ts:80 | After a set, each entry is either the new one or one that was already stored. |
| CacheStore.SetKeepsKeysUnique | src/cache/local_file_cache.ts:80 | A set never introduces a duplicate key. |
| CacheStore.SetOverwrites | src/cache/local_file_cache.ts:80 | Setting a key twice equals setting it once to the second value. The old records are replaced, never merged. |
| Persistence.EncodeAll | src/cache/local_file_cache.ts:48-52 | The encoded list has the entry's length. Its j-th element is the encoding of the j-th record. |
| Persistence.DecodeAll | src/cache/local_file_cache.ts:30-33 | Decoding succeeds exactly when every record decodes. The result then has the same length, and record j decodes to its j-th element. |
| Persistence.DecodeEncode | src/cache/local_file_cache.ts:30-33 | If the codec gives back each record, decoding an encoded list returns the original list in order. |
| Persistence.Snapshot | src/cache/local_file_cache.ts:45-54 | One pair per store entry, in iteration order. Each pair holds the entry's key and its records encoded one by one, in order and with the same count. |
| Persistence.SnapshotLoop | src/cache/local_file_cache.ts:45-54 | The nested loops of `_saveToFile` build exactly the snapshot. |
| Persistence.Hydrate | src/cache/local_file_cache.ts:28-36 | Loading raises nothing exactly when every record of every pair decodes. The only error it raises is data corruption. |
| Persistence.LastFor | src/cache/local_file_cache.ts:28-35 | The list the file gives for a key is that of its last pair for the key. It is absent exactly when no pair names the key. |
| Persistence.HydrateGet | src/cache/local_file_cache.ts:28-36 | When all records decode, each key named in the file gets the decoded records of its last pair, and later pairs override earlier ones. Unnamed keys keep their entries. |
| Persistence.HydrateKeepsUnlisted | src/cache/local_file_cache.ts:28-36 | A key no pair names keeps its entry, even when loading stops at an undecodable record. |
| Persistence.HydrateKeepsKeysUnique | src/cache/local_file_cache.ts:35 | Loading never introduces a duplicate key. |
| Persistence.HydrateStopsAtBadPair | src/cache/local_file_cache.ts:30-35 | At the first pair with an undecodable record, loading raises data corruption. The store keeps the effect of the pairs before that pair. |
| Persistence.HydrateSnapshot | src/cache/local_file_cache.ts:28-54 | Loading the snapshot of entries whose keys the store lacks appends those entries, in order, and raises nothing. |
| Persistence.RoundTrip | src/cache/local_file_cache.ts:28-54 | Loading the snapshot of a store into an empty store gives back the same store, entries and order. Assumes the codec gives back every stored record. |
| Persistence.HydrateLoop | src/cache/local_file_cache.ts:28-36 | The nested loops of `init`, with their early exit on a failed decode, compute exactly `Hydrate`: the same store and the same outcome. |
| LocalFileCache.Lookup | src/cache/local_file_cache.ts:68-71 | Returns null (a miss) exactly when the encoded key is absent. Otherwise returns that key's records. |
| LocalFileCache.Update | src/cache/local_file_cache.ts:79-83 | Every pair that encodes to the same key then looks up exactly the new value. Key order and uniqueness are kept. On a successful write the file holds the snapshot of the new table. On a failed write the error escapes, the file is unchanged and the new value stays in memory. |
| LocalFileCache.Init | src/cache/local_file_cache.ts:21-38 | No file: no change and no error. An unreadable file raises an I/O error and an unparsable one raises data corruption, both with the table untouched. A parsed file raises nothing exactly when all records decode. The file is never changed. |
| LocalFileCache.InitLookup | src/cache/local_file_cache.ts:21-38 | After loading a fully decodable file, a lookup finds the decoded records of the key's last pair. Keys the file does not name keep what they had. |
| LocalFileCache.UpdateKeepsOtherKeys | src/cache/local_file_cache.ts:79-80 | An update leaves the lookup of every other encoded key unchanged, whether or not the write succeeds. |
| LocalFileCache.UpdateOverwrites | src/cache/local_file_cache.ts:80 | Two updates of one key leave the table that the second update alone would leave. |
| LocalFileCache.ReloadAfterUpdate | src/cache/local_file_cache.ts:21-83 | After a successful update, a new empty instance loading that file raises nothing and equals the updated instance: the same table and the same file, given a codec that gives back every stored record. |
| LocalFileCache.ReloadFindsValue | src/cache/local_file_cache.ts:21-83 | After a successful update, a new empty instance loading that file finds the stored records under the same prompt and model key. |

## Left out

- File-system calls (`access`, `readFile`, `writeFile`): reduced to the `Disk` value read at start-up and the `written` flag of `Update`. A failed existence check counts as `Missing`, whatever its cause.
- JSON text: `JSON.stringify` and `JSON.parse` are foreign code. Parsing is reduced to its result: `Garbled` for content that raises before any pair is set, or the parsed pairs. Content that iterates to no pairs (an empty array, or an empty JSON string) is `Holds([])`.
- Elements of a parsed array that are not `[key, list]` pairs: the model takes the parsed file to be a sequence of pairs.
- Update: a write that fails part way and leaves a truncated file is not modelled. A failed write leaves the previous content.
- Update: a record that fails to encode (`serializeGeneration` or `JSON.stringify` throwing) is not modelled. Encoding is a total function.
- JSON round trip of a written file: `encode` stands for `serializeGeneration` followed by the `JSON.stringify`/`JSON.parse` round trip of the written text, and `decode` for `deserializeStoredGeneration`, so `RoundTripsOn` states that decoding the parsed text of a serialized record gives the record back. The model assumes that reading a file gives back exactly the pairs written to it; what `JSON.stringify` drops or rewrites (undefined fields, `NaN`, functions) is left to that hypothesis.
- Update, Lookup: entries are arrays shared by reference with callers; a caller's later in-place change to an array it stored or looked up (which would change the cache entry and the next snapshot) is not modelled. Each entry is an immutable sequence.
- The record codec and the key encoder are library code that is not shown. They are parameters, and the codec's round trip is a hypothesis (`RoundTripsOn`, `RoundTripsOnStore`).
- The shared default `GLOBAL_CACHE` map, aliasing between instances, and races between concurrent `update` calls: this is concurrency and shared-reference behaviour. Each model instance owns its table.
- Promises and `async`: each operation is one synchronous step.
- The generic value type `T`: an entry is modelled as an ordered list of records, its default `Generation[]`.
