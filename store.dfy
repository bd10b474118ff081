/**
 * A process-local cache whose entries other processes invalidate over a
 * publish/subscribe topic.
 *
 * A `Store` keeps a bounded least-recently-used table (module Lru), hit and
 * miss counters and a fixed client identity. When a channel is configured,
 * dirty writes, deletes and resets publish a message on the topic
 * "dirty-cache:" + name; the messages a store publishes are appended to its
 * `outbox`, and the transport's delivery of a message to a store is a call of
 * `HandleMessage`.
 */
module DirtyCache {
  import opened Wrappers
  import Lru

  /**
   * A cached value. Values are immutable, so the deep copies the store makes
   * on the way in and out cannot be told apart from the values themselves and
   * no caller can reach the cached copy. `Undefined` is the value a read of an
   * absent key returns.
   */
  datatype Value =
    | Undefined
    | Null
    | Bool(b: bool)
    | Num(n: int)
    | Str(s: string)
    | Arr(items: seq<Value>)
    | Obj(fields: map<string, Value>)

  /** The two shapes of message a store publishes. */
  datatype Message<K> =
    | KeyInval(clientId: string, key: K)   // drop `key`, sent by `clientId`
    | Reset                                // clear every store on the topic

  /** What `stats()` reports. */
  datatype Stats = Stats(hits: nat, misses: nat)

  /** The part of a store that inbound messages change. */
  datatype Local<K(==)> = Local(cache: Lru.Cache<K, Value>, hits: nat, misses: nat)

  /** What a read of `k` returns: the stored value, or `Undefined` when `k` is absent. */
  function Stored<K(==)>(c: Lru.Cache<K, Value>, k: K): Value
  {
    if k in c.values then c.values[k] else Undefined
  }

  /** Capacity when none (or zero) is configured. */
  const DefaultMax: nat := 1000

  /** The topic a store named `name` publishes and listens on. */
  function Topic(name: string): (t: string)
    ensures |t| == |name| + 12 && t[12..] == name
  {
    "dirty-cache:" + name
  }

  /** Stores with the same name, and only those, share a topic. */
  lemma TopicInjective(a: string, b: string)
    ensures Topic(a) == Topic(b) <==> a == b
  {
    if Topic(a) == Topic(b) {
      assert a == Topic(a)[12..];
    }
  }

  /**
   * The effect of one inbound message on a store's local part. A message on
   * another topic changes nothing; a reset clears the cache and zeroes both
   * counters, whoever sent it; an invalidation the store sent itself changes
   * nothing; any other invalidation removes that key alone.
   */
  function Receive<K(==, !new)>(st: Local<K>, ownTopic: string, ownId: string, topic: string, msg: Message<K>): (r: Local<K>)
    requires Lru.Valid(st.cache)
    ensures Lru.Valid(r.cache) && r.cache.capacity == st.cache.capacity
    ensures topic != ownTopic ==> r == st
    ensures topic == ownTopic && msg.Reset? ==>
              Lru.Length(r.cache) == 0 && r.hits == 0 && r.misses == 0
    ensures msg.KeyInval? && msg.clientId == ownId ==> r == st
    ensures topic == ownTopic && msg.KeyInval? && msg.clientId != ownId ==>
              && r.cache == Lru.Del(st.cache, msg.key)
              && Lru.Lookup(r.cache, msg.key) == None
              && (forall x :: x != msg.key ==> Lru.Lookup(r.cache, x) == Lru.Lookup(st.cache, x))
              && r.hits == st.hits && r.misses == st.misses
  {
    if topic != ownTopic then st
    else if msg.Reset? then Local(Lru.Empty(st.cache.capacity), 0, 0)
    else if msg.clientId == ownId then st
    else st.(cache := Lru.Del(st.cache, msg.key))
  }

  /** Delivering the same message twice leaves the same state as delivering it once. */
  lemma ReceiveIdempotent<K(!new)>(st: Local<K>, ownTopic: string, ownId: string, topic: string, msg: Message<K>)
    requires Lru.Valid(st.cache)
    ensures var once := Receive(st, ownTopic, ownId, topic, msg);
            Receive(once, ownTopic, ownId, topic, msg) == once
  {
  }

  /**
   * Two messages delivered in either order leave the same state: the outcome
   * of concurrent invalidations and resets does not depend on the order the
   * transport delivers them in.
   */
  lemma ReceiveCommutes<K(!new)>(st: Local<K>, ownTopic: string, ownId: string,
                                 t1: string, m1: Message<K>, t2: string, m2: Message<K>)
    requires Lru.Valid(st.cache)
    ensures var r1 := Receive(st, ownTopic, ownId, t1, m1);
            var r2 := Receive(st, ownTopic, ownId, t2, m2);
            Receive(r1, ownTopic, ownId, t2, m2) == Receive(r2, ownTopic, ownId, t1, m1)
  {
    if t1 == ownTopic && t2 == ownTopic && m1.KeyInval? && m2.KeyInval?
       && m1.clientId != ownId && m2.clientId != ownId {
      Lru.DelCommutes(st.cache, m1.key, m2.key);
    }
  }

  class Store<K(==, !new)> {
    const name: string
    const max: nat
    const maxAge: Option<nat>
    const clientId: string
    /** Whether a channel is configured: only then does the store publish and receive. */
    const hasChannel: bool
    const topic: string

    var cache: Lru.Cache<K, Value>
    var hits: nat
    var misses: nat
    /** Every message published so far, oldest first. */
    var outbox: seq<Message<K>>

    ghost predicate Valid()
      reads this
    {
      && 1 <= max
      && Lru.Valid(cache)
      && cache.capacity == max
      && topic == Topic(name)
    }

    ghost function LocalPart(): Local<K>
      reads this
    {
      Local(cache, hits, misses)
    }

    /**
     * A new store. An empty `name` stands for a missing one, replaced by
     * `generatedName`; a missing or zero `max` becomes 1000.
     */
    constructor (name: string, generatedName: string, max: Option<nat>, maxAge: Option<nat>,
                 clientId: string, hasChannel: bool)
      ensures Valid()
      ensures this.name == (if name != "" then name else generatedName)
      ensures this.max == (if max.Some? && max.value != 0 then max.value else DefaultMax)
      ensures this.maxAge == maxAge && this.clientId == clientId && this.hasChannel == hasChannel
      ensures this.topic == "dirty-cache:" + this.name
      ensures cache == Lru.Empty(this.max) && Lru.Length(cache) == 0
      ensures hits == 0 && misses == 0 && outbox == []
    {
      this.name := if name != "" then name else generatedName;
      var capacity := if max.Some? && max.value != 0 then max.value else DefaultMax;
      this.max := capacity;
      this.maxAge := maxAge;
      this.clientId := clientId;
      this.hasChannel := hasChannel;
      this.topic := Topic(if name != "" then name else generatedName);
      cache := Lru.Empty(capacity);
      hits, misses := 0, 0;
      outbox := [];
    }

    /** Number of entries held: the number of keys with a value, never more than `max`. */
    function Length(): (n: nat)
      reads this
      requires Valid()
      ensures n == |cache.values| && n <= max
      ensures n == 0 <==> forall k :: Lru.Lookup(cache, k) == None
    {
      Lru.LengthIsEntryCount(cache);
      assert |cache.order| > 0 ==> Lru.Lookup(cache, cache.order[0]).Some?;
      Lru.Length(cache)
    }

    /** The counters, as a snapshot. */
    function GetStats(): (s: Stats)
      reads this
      ensures s.hits == hits && s.misses == misses
    {
      Stats(hits, misses)
    }

    /**
     * Store `value` under `key`; with `dirty` set and a channel configured,
     * publish an invalidation of `key` tagged with this store's identity.
     */
    method Set(key: K, value: Value, dirty: bool)
      requires Valid()
      modifies this
      ensures Valid()
      ensures cache == Lru.Put(old(cache), key, value)
      ensures hits == old(hits) && misses == old(misses)
      ensures outbox == if dirty && hasChannel then old(outbox) + [KeyInval(clientId, key)] else old(outbox)
    {
      cache := Lru.Put(cache, key, value);
      if dirty && hasChannel {
        outbox := outbox + [KeyInval(clientId, key)];
      }
    }

    /**
     * Read the value under `key`. A stored value other than `Undefined` is a
     * hit; anything else is a miss and reads as `Undefined`. Only the recency
     * order of the entries changes.
     */
    method Get(key: K) returns (r: Value)
      requires Valid()
      modifies this
      ensures Valid()
      ensures cache == Lru.Get(old(cache), key).1
      ensures r == Stored(old(cache), key)
      ensures !r.Undefined? ==> hits == old(hits) + 1 && misses == old(misses)
      ensures r.Undefined? ==> hits == old(hits) && misses == old(misses) + 1
      ensures outbox == old(outbox)
    {
      var res := Lru.Get(cache, key);
      var found := res.0;
      cache := res.1;
      if found.Some? && !found.value.Undefined? {
        hits := hits + 1;
        return found.value;
      }
      misses := misses + 1;
      return Undefined;
    }

    /** Remove `key`; with a channel configured, always publish an invalidation of it. */
    method Del(key: K)
      requires Valid()
      modifies this
      ensures Valid()
      ensures cache == Lru.Del(old(cache), key)
      ensures hits == old(hits) && misses == old(misses)
      ensures outbox == if hasChannel then old(outbox) + [KeyInval(clientId, key)] else old(outbox)
    {
      cache := Lru.Del(cache, key);
      if hasChannel {
        outbox := outbox + [KeyInval(clientId, key)];
      }
    }

    /** Clear the cache and zero both counters, publishing nothing. */
    method ResetLocal()
      requires Valid()
      modifies this
      ensures Valid()
      ensures cache == Lru.Empty(max) && hits == 0 && misses == 0
      ensures outbox == old(outbox)
    {
      cache := Lru.Empty(max);
      hits, misses := 0, 0;
    }

    /** With a channel configured, publish a reset first; then clear the cache and zero both counters. */
    method Reset()
      requires Valid()
      modifies this
      ensures Valid()
      ensures cache == Lru.Empty(max) && hits == 0 && misses == 0
      ensures outbox == if hasChannel then old(outbox) + [Message.Reset] else old(outbox)
    {
      if hasChannel {
        outbox := outbox + [Message.Reset];
      }
      ResetLocal();
    }

    /** Deliver a message received on `channel`; only stores with a channel subscribe. */
    method HandleMessage(channel: string, msg: Message<K>)
      requires Valid() && hasChannel
      modifies this
      ensures Valid()
      ensures LocalPart() == Receive(old(LocalPart()), topic, clientId, channel, msg)
      ensures outbox == old(outbox)
    {
      if channel != topic {
        return;
      }
      match msg
      case Reset =>
        ResetLocal();
      case KeyInval(sender, key) =>
        if sender == clientId {
          return;
        }
        cache := Lru.Del(cache, key);
    }
  }
}
