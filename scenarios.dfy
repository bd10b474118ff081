/**
 * Behaviour of stores working together, and of a single store over a
 * sequence of calls, stated as client methods that drive one or two `Store`
 * objects. A message one store publishes reaches every store subscribed to
 * the same topic, the publisher included; here a delivery is an explicit
 * `HandleMessage` call.
 */
module Scenarios {
  import opened Wrappers
  import Lru
  import opened DirtyCache

  /**
   * Two stores share a name (hence a topic) and differ in identity. A dirty
   * write on `a` is delivered to both: `a` keeps the value it wrote, `b`
   * loses its copy and its next read is a miss.
   */
  method DirtySetInvalidatesPeer<K(==, !new)>(a: Store<K>, b: Store<K>, key: K, v: Value)
    returns (ra: Value, rb: Value)
    requires a != b && a.Valid() && b.Valid()
    requires a.hasChannel && b.hasChannel && a.name == b.name && a.clientId != b.clientId
    modifies a, b
    ensures ra == v
    ensures rb == Undefined && b.misses == old(b.misses) + 1 && b.hits == old(b.hits)
    ensures a.outbox == old(a.outbox) + [KeyInval(a.clientId, key)] && b.outbox == old(b.outbox)
  {
    a.Set(key, v, true);
    var msg := a.outbox[|a.outbox| - 1];
    a.HandleMessage(a.topic, msg);
    b.HandleMessage(a.topic, msg);
    ra := a.Get(key);
    rb := b.Get(key);
  }

  /** A delete on `a`, delivered to both stores, leaves the key absent from both. */
  method DeleteInvalidatesPeer<K(==, !new)>(a: Store<K>, b: Store<K>, key: K)
    returns (ra: Value, rb: Value)
    requires a != b && a.Valid() && b.Valid()
    requires a.hasChannel && b.hasChannel && a.name == b.name && a.clientId != b.clientId
    modifies a, b
    ensures ra == Undefined && rb == Undefined
    ensures a.misses == old(a.misses) + 1 && b.misses == old(b.misses) + 1
  {
    a.Del(key);
    var msg := a.outbox[|a.outbox| - 1];
    a.HandleMessage(a.topic, msg);
    b.HandleMessage(a.topic, msg);
    ra := a.Get(key);
    rb := b.Get(key);
  }

  /** A reset on `a`, delivered to both stores, empties both and zeroes every counter. */
  method ResetClearsPeer<K(==, !new)>(a: Store<K>, b: Store<K>)
    requires a != b && a.Valid() && b.Valid()
    requires a.hasChannel && b.hasChannel && a.name == b.name
    modifies a, b
    ensures a.Valid() && b.Valid() && a.Length() == 0 && b.Length() == 0
    ensures a.GetStats() == Stats(0, 0) && b.GetStats() == Stats(0, 0)
    ensures a.outbox == old(a.outbox) + [Message.Reset]
  {
    a.Reset();
    var msg := a.outbox[|a.outbox| - 1];
    a.HandleMessage(a.topic, msg);
    b.HandleMessage(a.topic, msg);
  }

  /**
   * A store receives its own reset too, and a reset carries no sender: a
   * write made between `Reset` and the delivery of its own message is wiped
   * when that message arrives, and the counters are zeroed again.
   */
  method OwnResetEchoClearsLaterWrite<K(==, !new)>(a: Store<K>, key: K, v: Value)
    returns (r: Value)
    requires a.Valid() && a.hasChannel
    modifies a
    ensures r == Undefined && a.GetStats() == Stats(0, 1)
  {
    a.Reset();
    var msg := a.outbox[|a.outbox| - 1];
    a.Set(key, v, false);
    a.HandleMessage(a.topic, msg);
    r := a.Get(key);
  }

  /**
   * A store with another name ignores every message published on the first
   * store's topic, a reset included: the topic check is the only thing that
   * stops a reset, which carries no sender.
   */
  method OtherTopicUnaffected<K(==, !new)>(a: Store<K>, b: Store<K>, msg: Message<K>)
    requires a.Valid() && b.Valid()
    requires b.hasChannel && a.name != b.name
    modifies b
    ensures b.cache == old(b.cache) && b.hits == old(b.hits) && b.misses == old(b.misses)
    ensures b.outbox == old(b.outbox)
  {
    TopicInjective(a.name, b.name);
    b.HandleMessage(a.topic, msg);
  }

  /**
   * Counting: after one write, two reads of the written key and one read of
   * another key count two hits and one miss.
   */
  method CountHitsAndMisses(clientId: string, key: string, other: string, v: Value)
    returns (afterWrite: Stats, afterHits: Stats, afterMiss: Stats)
    requires key != other && !v.Undefined?
    ensures afterWrite == Stats(0, 0) && afterHits == Stats(2, 0) && afterMiss == Stats(2, 1)
  {
    var s := new Store<string>("users", "", Some(5), Some(10), clientId, false);
    s.Set(key, v, false);
    afterWrite := s.GetStats();
    var r := s.Get(key);
    r := s.Get(key);
    afterHits := s.GetStats();
    r := s.Get(other);
    afterMiss := s.GetStats();
  }

  /** A caller-owned variable holding a value it may later replace. */
  class Holder {
    var value: Value
    constructor (v: Value)
      ensures value == v
    {
      value := v;
    }
  }

  /**
   * Changing the caller's variable after a write does not change what a
   * later read returns: the cache holds its own copy.
   */
  method CallerChangeNotCached(clientId: string, v: Value, w: Value)
    returns (r: Value)
    requires !v.Undefined? && v != w
    ensures r == v && r != w
  {
    var s := new Store<string>("users", "", Some(5), None, clientId, false);
    var h := new Holder(v);
    s.Set("key", h.value, false);
    h.value := w;
    r := s.Get("key");
  }

  /** What reads return after a new key is written to a full cache: the oldest key is gone, the rest are kept. */
  lemma FullWriteReads<K(!new)>(c: Lru.Cache<K, Value>, k: K, v: Value)
    requires Lru.Valid(c) && Lru.Length(c) == c.capacity && k !in c.values
    ensures var r := Lru.Put(c, k, v);
            && Stored(r, c.order[0]) == Undefined && Stored(r, k) == v && Lru.Length(r) == c.capacity
            && forall i :: 1 <= i < |c.order| ==> Stored(r, c.order[i]) == Stored(c, c.order[i])
  {
    Lru.WriteToFullEvictsLeastRecent(c, k, v);
    var r := Lru.Put(c, k, v);
    forall i | 1 <= i < |c.order|
      ensures Stored(r, c.order[i]) == Stored(c, c.order[i])
    {
      assert Lru.Lookup(r, c.order[i]) == Lru.Lookup(c, c.order[i]);
    }
  }

  /**
   * A write of a new key to a full store evicts the least recently used key
   * and no other: that key now reads as a miss, the store stays full, the
   * new key reads back its value, and every other key still holds its value.
   */
  method WriteToFullStoreEvictsOldest<K(==, !new)>(s: Store<K>, k: K, v: Value)
    returns (oldest: Value, length: nat, written: Value)
    requires s.Valid() && s.Length() == s.max && k !in s.cache.values
    modifies s
    ensures oldest == Undefined && length == s.max && written == v
    ensures forall i :: 1 <= i < |old(s.cache.order)| ==>
              Stored(s.cache, old(s.cache.order)[i]) == Stored(old(s.cache), old(s.cache.order)[i])
  {
    FullWriteReads(s.cache, k, v);
    var first := s.cache.order[0];
    s.Set(k, v, false);
    ghost var after := s.cache;
    length := s.Length();
    oldest := s.Get(first);
    written := s.Get(k);
    assert s.cache.values == after.values;
  }
}
