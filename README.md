# dirty-cache Store, modelled in Dafny

dirty-cache is a process-local, size-bounded cache for Node.js. Several
processes can share one logical cache through a Redis publish/subscribe
topic. Each process keeps its own least-recently-used table. A process that
changes or deletes an entry publishes an invalidation, and every other
process subscribed to the topic drops its copy of that key. A reset empties
every process's table.

This project models the `Store` of `lib/store.js`:

- **`wrappers.dfy`** (module `Wrappers`): the `Option` type.
- **`lru.dfy`** (module `Lru`): the bounded recency-ordered table the store
  delegates to.
  - It states the behaviour the store and its tests rely on from the external
    `lru-cache` library.
  - A cache is a capacity, a duplicate-free key order (least recently used
    first) and a map of values.
  - Writes and reads move a key to the most recent end. A write that
    overflows the capacity evicts the least recently used key.
  - The recency policy is stated on key sequences (`Remove`, `Touch`,
    `Admit`) and proved about them before it is paired with values. A read
    or a delete keeps the other keys in their relative order (`TouchAt`,
    `RemoveAt`); a write evicts the key at the least recent end.
- **`store.dfy`** (module `DirtyCache`): the store itself.
  - A `class Store` with constant configuration (name, max, maxAge, client
    identity, whether a channel is configured, topic) and mutable state (the
    cache, the `hits` and `misses` counters).
  - It also holds an `outbox`: the sequence of messages published so far.
  - Publishing appends to `outbox`. Delivery of a message from the
    subscription is a call of `HandleMessage`.
  - The effect of an inbound message is also given as a pure function
    `Receive`. Delivering the same message twice is proved idempotent, and
    delivering two messages is proved order-independent.
- **`scenarios.dfy`** (module `Scenarios`): client methods that drive one or
  two stores through the situations the test suite exercises.
  - Convergence after a dirty write, a delete and a reset.
  - Hit and miss counting.
  - Independence of the cached value from the caller's variable.
  - Eviction of the least recently used key.
  - A consequence of the handler as written: a store receives its own reset
    message. A write made between `reset()` and that message's delivery is
    therefore wiped (`OwnResetEchoClearsLaterWrite`).

Values are an immutable JSON-like datatype (`DirtyCache.Value`). The deep
copies the store makes on `set` and `get` are therefore the identity. A
caller can never reach the cached copy, and `CallerChangeNotCached` states
this. `Undefined` is kept as a value, because `get` counts a stored
`undefined` as a miss (lib/store.js:95).

## Model

| member | source | states |
|---|---|---|
| Lru.Remove | lib/store.js:105 | the order without `k` holds exactly the other keys, stays duplicate-free, is one shorter when `k` was present and is unchanged when it was absent |
| Lru.RemoveSplit | lib/store.js:105 | removing a key that occurs once, between two runs of other keys, leaves the two runs joined in their order |
| Lru.RemoveAt | lib/store.js:105 | removing the key at position `i` of a duplicate-free order closes the gap: the keys before and after it keep their relative order |
| Lru.RemoveCommutes | lib/store.js:72 | removing two keys from an order gives the same order in either sequence |
| Lru.Touch | lib/store.js:93 | a read or write puts the key at the most recent end, keeps every other key and adds nothing else; a key not yet present is appended to the unchanged order |
| Lru.TouchAt | lib/store.js:93 | touching the key at position `i` gives the keys before it, then the keys after it, in their old order, then that key |
| Lru.Admit | lib/store.js:17-22 | a write keeps the order duplicate-free, never longer than the capacity, with the written key most recent; the length grows by one only for a new key while there is room; overwriting a present key, or writing while there is room, gives exactly `Touch`'s order, so the other keys keep their relative order |
| Lru.AdmitKeys | lib/store.js:86 | after a write the keys are the old ones plus the written key; writing a new key to a full order drops exactly the least recent key |
| Lru.AdmitFresh | lib/store.js:86 | writing a new key appends it and drops the oldest keys that overflow the capacity |
| Lru.AdmitAll | lib/store.js:86 | any sequence of writes keeps the order duplicate-free and within the capacity |
| Lru.FreshWritesEvictOldest | test/test.js:59-61 | writing keys none of which is present leaves the old order followed by the written keys, cut to its last `capacity` keys |
| Lru.ReadFromOldest | test/test.js:63-65 | reading the keys of an order from a rotation of it, oldest first, restores the order |
| Lru.ReadAllInRecencyOrder | test/test.js:63-65 | reading every key oldest first leaves the recency order unchanged |
| Lru.Empty | lib/store.js:22 | a new cache has the given capacity and no entry |
| Lru.Put | lib/store.js:86 | after a write the key holds the value written, no other key gains or changes a value, the order is updated by `Admit`, and the capacity is kept |
| Lru.PutKeys | lib/store.js:86 | the key set after a write: unchanged when overwriting, one key added when there is room, the least recent key replaced when full; the length follows |
| Lru.Get | lib/store.js:93 | a read finds a value exactly when the key is present, returns the stored value, changes no value and only moves the key to the most recent end |
| Lru.Del | lib/store.js:105 | after a delete the key is absent, every other key reads as before, the length drops by one exactly when the key was present, an absent key changes nothing, and the order is the old one without the key |
| Lru.DelAt | lib/store.js:105 | deleting the key at position `i` of the order closes the gap and every other key keeps its place in the recency order |
| Lru.LengthIsEntryCount | lib/store.js:112 | the length of a cache is the number of keys holding a value |
| Lru.DelCommutes | lib/store.js:72 | deleting two keys leaves the same cache, recency order included, in either sequence |
| Lru.PutAll | test/test.js:59-61 | a batch of writes keeps the cache valid, orders it by `AdmitAll` and leaves keys outside the batch as they were |
| Lru.PutAllValues | test/test.js:59-61 | after a batch of writes of distinct keys every key still present holds the value written for it |
| Lru.GetAll | test/test.js:63-65 | a batch of reads changes no value and reorders the keys by `TouchAll` |
| Lru.WriteToFullEvictsLeastRecent | lib/store.js:17-22 | a new key written to a full cache evicts the least recently used key and no other; the cache stays full and the new key holds its value |
| Lru.FilledOrder | test/test.js:59-61 | distinct keys written to an empty cache of exactly their number are all kept, in write order |
| Lru.FilledValues | test/test.js:59-61 | distinct keys written to an empty cache of exactly their number each hold their value |
| Lru.FillThenReadAll | test/test.js:59-65 | after writing distinct keys and reading them all in order, the order is the write order and every key holds its value |
| Lru.ReadAllThenWriteEvictsFirst | test/test.js:58-74 | after writing capacity-many keys, reading each, then writing a new key: the first key is gone, the length is the capacity, and every other key, the new one included, holds its value |
| DirtyCache.Topic | lib/store.js:54 | the topic is the name behind a fixed 12-character prefix |
| DirtyCache.TopicInjective | lib/store.js:54 | two stores share a topic exactly when they share a name |
| DirtyCache.Receive | lib/store.js:56-73 | another topic changes nothing; a reset empties the cache and zeroes both counters whoever sent it; an invalidation carrying the store's own identity changes nothing; any other invalidation makes the cache `Lru.Del` of the old one, so exactly that key is removed, the other keys keep their values and their recency order, and the counters are kept |
| DirtyCache.ReceiveIdempotent | lib/store.js:56-73 | delivering the same message twice leaves the state of a single delivery |
| DirtyCache.ReceiveCommutes | lib/store.js:56-73 | any two messages leave the same state whichever is delivered first |
| DirtyCache.Store.constructor | lib/store.js:12-24 | an empty name becomes the generated one; a missing or zero max becomes 1000; maxAge and identity are kept; the topic is "dirty-cache:" followed by the name; the store starts empty with zero counters and an empty outbox |
| DirtyCache.Store.Length | lib/store.js:111-113 | the length is the number of keys holding a value, never exceeds `max`, and is zero exactly when no key is stored |
| DirtyCache.Store.GetStats | lib/store.js:128-130 | reports the current hit and miss counters |
| DirtyCache.Store.Set | lib/store.js:85-90 | the cache becomes `Lru.Put` of the old one; the counters are kept; exactly one invalidation carrying the store's identity and the key is published when `dirty` is set and a channel exists, otherwise nothing |
| DirtyCache.Store.Get | lib/store.js:92-102 | returns the stored value, or `Undefined` for an absent key; a defined result counts one hit, an undefined one counts one miss; only the recency order changes; nothing is published |
| DirtyCache.Store.Del | lib/store.js:104-109 | the cache becomes `Lru.Del` of the old one; with a channel, exactly one invalidation of the key is published whether or not it was present |
| DirtyCache.Store.ResetLocal | lib/store.js:115-119 | the cache is emptied and both counters are zeroed; nothing is published |
| DirtyCache.Store.Reset | lib/store.js:121-126 | with a channel, a reset message is published; in every case the cache is emptied and both counters zeroed |
| DirtyCache.Store.HandleMessage | lib/store.js:56-73 | the cache and counters become `Receive` of the old ones; nothing is published |
| Scenarios.DirtySetInvalidatesPeer | test/test.js:147-161 | after a dirty write on one store is delivered to both stores of the topic, the writer reads back its value and the peer misses |
| Scenarios.DeleteInvalidatesPeer | test/test.js:163-177 | after a delete on one store is delivered to both, the key misses on both |
| Scenarios.ResetClearsPeer | test/test.js:179-189 | after a reset on one store is delivered to both, both are empty with zero counters |
| Scenarios.OwnResetEchoClearsLaterWrite | lib/store.js:63-65 | a write made after `reset()` and before the delivery of the store's own reset message is lost when that message arrives |
| Scenarios.OtherTopicUnaffected | lib/store.js:57-59 | a store with a different name keeps its cache, counters and outbox whatever message, a reset included, is delivered to it on another store's topic |
| Scenarios.CountHitsAndMisses | test/test.js:76-86 | one write, two reads of the key and one read of another key count two hits and one miss, and the write counts nothing |
| Scenarios.CallerChangeNotCached | test/test.js:37-43 | replacing the caller's value after a write does not change what a later read returns |
| Scenarios.FullWriteReads | lib/store.js:17-22 | after a new key is written to a full cache the oldest key reads as `Undefined`, the new key reads its value, the length is the capacity, and every other key reads as before |
| Scenarios.WriteToFullStoreEvictsOldest | test/test.js:67-69 | a new key written to a full store makes the least recently used key miss, keeps the store full and keeps every other value |

## Left out

- Redis client creation, `auth`, `subscribe`, and the `error` and `ready` events (lib/store.js:26-52, 75-80): these are I/O and event plumbing. A configured channel is the boolean `hasChannel`. Publishing appends to `outbox`. Delivery is an explicit `HandleMessage` call.
- JSON encoding and decoding of messages (lib/store.js:61, 88, 107, 123): messages are the `Message` datatype. The parse at lib/store.js:61 is unguarded, so a malformed payload throws inside the handler rather than being dropped. The model has no malformed messages.
- Key coercion: keys go through JSON on the way to peers and through the cache library's own key handling. The model compares keys of a type `K` by equality.
- `uuid()` for the default name and for the client identity (lib/store.js:12, 15): both are constructor parameters (`generatedName`, `clientId`). `DirtySetInvalidatesPeer` and `DeleteInvalidatesPeer` require the two stores to have distinct identities.
- Store.constructor: `options.max || 1000` is modelled for a missing or zero `max` only. A negative or non-numeric `max` has no counterpart in `Option<nat>`.
- `maxAge` expiry (lib/store.js:18-20): it happens inside the cache library and depends on the wall clock. The value is stored on the store but never expires an entry.
- lodash `cloneDeep` (lib/store.js:86, 97): values are immutable, so the copy is the value itself.
- Store.Set: `dirty` is a boolean; JavaScript truthiness of other arguments is not modelled.
- Numbers in values are mathematical integers; floating point is not modelled.
- Timing and ordering of delivery across processes: each delivery is an explicit call. `DirtyCache.ReceiveCommutes` shows that the order of two deliveries does not matter.
- The cache library's other operations (`peek`, `has`, `keys`, size functions) are not used by the store and are not modelled.
- test/test.js:45-56 (expiry after `maxAge`) has no counterpart, for the reason above.
