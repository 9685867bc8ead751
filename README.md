# MemcachedStore, modelled in Dafny

TruffleCache's `MemcachedStore` is a cache store built on the MemcachedSharp client. Most of
what it does is done by the client. This project models the adapter logic around the client calls:

- **Key namespacing.** Every key goes to the client as `prefix + key`. The prefix is fixed when
  the store is built and is `"_"` when the `TruffleCache.CachePrefix` setting is absent.
- **Lifetimes.** A zero `TimeSpan` becomes "no storage options", which means an unlimited
  lifetime. Any other lifetime becomes options that carry it as the expiration.
- **Result shaping.**
  - A single read gives `default(T)` on a miss and the deserialised payload on a hit.
  - A multi-key read gives a dictionary from every input key to its own value.
  - A CAS read gives the value together with its CAS token.
  - A CAS write gives `true` exactly when the client answers `Stored`.
- **The lazy client handle.** The handle is created on first use and never again. `Dispose`
  releases it only if it exists, and `Dispose` never creates it.

Layout:

- `types.dfy` (module `CacheTypes`) holds the value types: `TimeSpan` as ticks, storage options,
  items with an optional CAS token, `CasResult`, `CheckResult<T>`, and the adapter's own errors.
- `client.dfy` (module `Memcached`) models the MemcachedSharp client as an opaque class. Each
  reply may be anything at all. The class keeps a `log` of every request it receives, with the
  reply it gave, and counts its `Dispose` calls. Every contract about the adapter is therefore
  stated for any client behaviour.
- `adapter.dfy` (module `StoreLogic`) holds the pure logic and the lemmas about it: prefixing,
  `CreateOptions`, reply shaping, and the two dictionaries of the multi-key read with duplicate
  detection.
- `store.dfy` (module `TruffleCache`) holds the class `MemcachedStore`. Its field `created`
  stands for `Lazy.IsValueCreated` and its field `handle` for `Lazy.Value`. Each method states
  the exact requests the client gets and how the result relates to the client's reply. The
  module also holds the multi-key read loop (`ReadEach`) and two lifecycle scenarios.

The serializer is given to each operation as functions: `encode` for `Serializer.Serialize`
and `decode` for `Serializer.Deserialize` and `DeserializeAsync`. `default(T)` is passed in as
`zero`. The configuration setting is passed to a constructor as an `Option<string>`. C#'s
`??` only replaces null, so a setting that is present but empty gives the empty prefix.

Three behaviours of the code that the model keeps:

- **Duplicate keys.** `ToDictionary` (line 68) throws on a repeated key. Here a repeated key
  gives `Failure(DuplicateKey(k))`, after that key's own `Get` was sent.
- **Repeated `Dispose`.** Once the handle exists, every `Dispose` call releases the client again
  (lines 145-148). `UsedStoreReleasesPerDispose` shows two releases after two calls.
- **Missing CAS token.** `CasUnique.Value` (line 135) has no null check, so an item without a
  CAS token makes `GetWithCheckAsync` fail. The model gives `Failure(MissingCasToken)`.

## Model

| member | source | states |
|---|---|---|
| `TruffleCache.MemcachedStore.constructor` | TruffleCache/MemcachedStore.cs:21-32 | a store that will build its own client: the prefix is the setting, or `"_"` when it is absent; no client is created or touched yet |
| `TruffleCache.MemcachedStore.WithClient` | TruffleCache/MemcachedStore.cs:38-42 | a store over a given client: same prefix rule; the client is not used (the constructor may modify nothing) and the handle is not yet created |
| `TruffleCache.MemcachedStore.ClientValue` | TruffleCache/MemcachedStore.cs:15 | `Lazy.Value`: on first access the handle becomes the injected client, or a fresh client with an empty log; once created it is always the same object and never re-created |
| `TruffleCache.MemcachedStore.Set` | TruffleCache/MemcachedStore.cs:53-56 | the client gets exactly one request, `Set(prefix + key, encode(value), CreateOptions(expiresIn))`, and is not disposed |
| `TruffleCache.MemcachedStore.GetMany` | TruffleCache/MemcachedStore.cs:66-73 | no keys: nothing is sent, no handle is created, and the result is the empty dictionary; otherwise the client gets one `Get(prefix + k)` per key, in order, up to the first repeat; the result is `ManyResult` of the replies |
| `TruffleCache.ReadEach` | TruffleCache/MemcachedStore.cs:68 | the first `ToDictionary`: one `Get` of the prefixed key per key, with the reply stored under the key; it fails with `DuplicateKey` at the first repeat, after that key's `Get` was sent |
| `StoreLogic.ManyResultShape` | TruffleCache/MemcachedStore.cs:66-73 | a multi-key read succeeds if and only if the keys are distinct; it then has exactly the input keys; a key whose read missed maps to `default(T)` and a key whose read hit maps to `decode(data)`; otherwise it fails on a key that occurs twice |
| `StoreLogic.FirstRepeat` | TruffleCache/MemcachedStore.cs:68 | finds the first key that repeats an earlier one, and returns none exactly when the keys are distinct |
| `StoreLogic.FirstRepeatAt` | TruffleCache/MemcachedStore.cs:68 | the first repeat is unique: if the keys before position i are distinct and key i repeats one of them, then i is the first repeat |
| `StoreLogic.CallsIssued` | TruffleCache/MemcachedStore.cs:68 | a multi-key read sends at most one read per input position, and exactly one per position when the keys are distinct |
| `StoreLogic.LookupOf` | TruffleCache/MemcachedStore.cs:68 | the dictionary of pending reads has exactly the input keys |
| `StoreLogic.LookupAt` | TruffleCache/MemcachedStore.cs:68 | with distinct keys, each key's entry is the reply to that key's own read |
| `StoreLogic.GetCalls` | TruffleCache/MemcachedStore.cs:68 | the requests a multi-key read sends: one per key, in order, each for `prefix + key` |
| `StoreLogic.ReadStep` | TruffleCache/MemcachedStore.cs:68 | one more key adds one request and one dictionary entry; adding a key not seen before keeps the keys distinct |
| `StoreLogic.TaskLookup` | TruffleCache/MemcachedStore.cs:68 | the first dictionary is built if and only if the keys are distinct, and then has exactly the input keys; otherwise it fails with `DuplicateKey` of a key that occurs at two positions |
| `StoreLogic.ShapeMany` | TruffleCache/MemcachedStore.cs:72 | the second dictionary has the same keys as the first; a key whose reply is null maps to `default(T)`, and any other key maps to `decode(data)` |
| `StoreLogic.ManyResult` | TruffleCache/MemcachedStore.cs:66-73 | a multi-key read gives a dictionary if and only if the keys are distinct, and then has exactly the input keys; otherwise it fails as the first dictionary does |
| `StoreLogic.ReadResult` | TruffleCache/MemcachedStore.cs:97-101 | a null reply gives `default(T)`, and a hit gives `decode(data)` |
| `StoreLogic.PrefixFrom` | TruffleCache/MemcachedStore.cs:31 | the prefix is the configured setting when present, and `"_"` otherwise |
| `TruffleCache.MemcachedStore.Remove` | TruffleCache/MemcachedStore.cs:82-85 | the client gets exactly one `Delete(prefix + key)`, and the store returns the client's answer unchanged |
| `TruffleCache.MemcachedStore.Get` | TruffleCache/MemcachedStore.cs:95-102 | the client gets exactly one `Get(prefix + key)`; a miss gives `zero` and a hit gives `decode(data)` |
| `TruffleCache.MemcachedStore.SetWithCheck` | TruffleCache/MemcachedStore.cs:114-117 | the client gets exactly one `Cas(prefix + key, checkValue, encode(value), CreateOptions(expiresIn))`; the result is true if and only if the client answered `Stored`, so `Exists` and `NotFound` both give false |
| `TruffleCache.MemcachedStore.GetWithCheck` | TruffleCache/MemcachedStore.cs:127-138 | the client gets exactly one `Gets(prefix + key)`, and the result is `CheckRead` of the reply |
| `StoreLogic.CheckRead` | TruffleCache/MemcachedStore.cs:129-137 | a miss gives `default(T)` with no token; a hit gives `decode(data)` with the item's CAS token; a hit without a token fails with `MissingCasToken` |
| `StoreLogic.CheckReadAgreesWithRead` | TruffleCache/MemcachedStore.cs:129-137 | when a CAS read succeeds, its value equals what a plain read of the same reply gives, and it has a token if and only if the read hit |
| `TruffleCache.MemcachedStore.Dispose` | TruffleCache/MemcachedStore.cs:143-149 | never creates the handle; if the handle exists, its dispose count goes up by exactly one and its log is unchanged; if not, no object known to the store changes |
| `TruffleCache.NeverUsedStoreReleasesNothing` | TruffleCache/MemcachedStore.cs:143-149 | disposing a store that never ran an operation sends no release to its client |
| `TruffleCache.UsedStoreReleasesPerDispose` | TruffleCache/MemcachedStore.cs:143-149 | after one operation, the first `Dispose` releases the client once and a second `Dispose` releases it again |
| `StoreLogic.CreateOptions` | TruffleCache/MemcachedStore.cs:156-162 | returns no options if and only if the lifetime is zero; otherwise the options' expiration is the lifetime; it never returns a zero-duration expiration |
| `StoreLogic.PrefixKey` | TruffleCache/MemcachedStore.cs:168-171 | the server key is the prefix followed by the caller's key: its length is the sum, its head is the prefix and its tail is the key |
| `StoreLogic.PrefixKeyInjective` | TruffleCache/MemcachedStore.cs:168-171 | under one prefix, two keys map to the same server key if and only if they are equal |

## Left out

- The default constructor's client is built for `localhost:11211` with fixed timeouts,
  pipelining and pool sizes (lines 23-30). These are settings of the foreign client. The model
  only says that a fresh client is created.
- The MemcachedSharp client itself: connections, the wire protocol, and its exceptions. Its
  replies are arbitrary values, and its failures are not modelled.
- What the server does: expiry, and rejecting a stale CAS token. So the set-then-get round trip
  and lost-update prevention are not claimed. They are properties of the server, not of the adapter.
- The serializer and its failures: `encode` and `decode` are arbitrary total functions.
- Asynchrony and concurrency: `Task`, `await`, `Task.WhenAll`, and the thread safety of `Lazy`.
  Operations run one after another. Completing the `Task` that `SetAsync` returns is not modelled.
- `TruffleCache.ReadEach`: it sends the reads one after another in input order. `AsParallel`
  does not fix that order. So when a repeated key throws, which other reads have already been
  sent is not pinned down by the source. The key in `DuplicateKey` is the first repeat in input
  order; with several repeated keys, the unordered enumeration at line 68 may reach a different
  one first. The source throws an `AggregateException` around an `ArgumentException`, which need
  not name the key at all.
- Null arguments (a null key, key array or injected client) and the `where T : class` constraint
  are not modelled; Dafny values are never null.
- CAS token width: the source passes a `long` check value and a nullable token through unchanged.
  The model uses unbounded integers for both.
- The C# `CheckResult<T>` class is not among the source files. An unset `CheckValue` would
  hold C#'s default (presumably 0 for a `long`), and the model writes it as `None`.
