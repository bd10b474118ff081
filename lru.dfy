/**
 * The bounded, recency-ordered key/value table a store keeps its entries in.
 *
 * The store delegates to an external least-recently-used cache library; this
 * module states the behaviour the store relies on. A cache holds at most
 * `capacity` entries; `order` lists the keys from the least recently used
 * (index 0) to the most recently used (the last index); reads and writes move
 * a key to the most recent end, and a write that overflows the capacity evicts
 * the key at the least recent end.
 *
 * The recency policy is stated on key sequences alone (Remove, Touch, Admit);
 * the cache pairs such a sequence with the stored values.
 */
module Lru {
  import opened Wrappers

  /** No key occurs twice. */
  predicate Distinct<K(==)>(s: seq<K>)
  {
    forall i, j :: 0 <= i < j < |s| ==> s[i] != s[j]
  }

  // ---------------------------------------------------------------------------
  // The recency order

  /** `s` without `k`, the other keys in their original order. */
  function Remove<K(==, !new)>(s: seq<K>, k: K): (r: seq<K>)
    ensures forall x :: x in r <==> x in s && x != k
    ensures Distinct(s) ==> Distinct(r)
    ensures Distinct(s) && k in s ==> |r| == |s| - 1
    ensures k !in s ==> r == s
  {
    if s == [] then []
    else if s[0] == k then Remove(s[1..], k)
    else
      var rest := Remove(s[1..], k);
      assert Distinct(s) ==> Distinct(s[1..]) && s[0] !in rest;
      assert forall j :: 0 <= j < |rest| ==> ([s[0]] + rest)[j + 1] == rest[j];
      [s[0]] + rest
  }

  /** Removing a key that occurs once, between `a` and `b`, leaves `a` followed by `b`. */
  lemma {:induction false} RemoveSplit<K(!new)>(a: seq<K>, k: K, b: seq<K>)
    requires k !in a && k !in b
    ensures Remove(a + [k] + b, k) == a + b
  {
    if a == [] {
      assert a + [k] + b == [k] + b && ([k] + b)[1..] == b;
    } else {
      RemoveSplit(a[1..], k, b);
      assert (a + [k] + b)[1..] == a[1..] + [k] + b;
      assert a + b == [a[0]] + (a[1..] + b);
    }
  }

  /** In a duplicate-free order the key at position `i` occurs neither before nor after it. */
  lemma OccursOnce<K(!new)>(s: seq<K>, i: nat)
    requires Distinct(s) && i < |s|
    ensures s == s[..i] + [s[i]] + s[i + 1..]
    ensures s[i] !in s[..i] && s[i] !in s[i + 1..]
  {
    forall j | 0 <= j < i
      ensures s[..i][j] != s[i]
    {
      assert s[..i][j] == s[j];
    }
    var after := s[i + 1..];
    forall j | 0 <= j < |after|
      ensures after[j] != s[i]
    {
      assert after[j] == s[i + 1 + j];
    }
  }

  /** Removing the key at position `i` of a duplicate-free order closes the gap and keeps the other keys in order. */
  lemma RemoveAt<K(!new)>(s: seq<K>, i: nat)
    requires Distinct(s) && i < |s|
    ensures Remove(s, s[i]) == s[..i] + s[i + 1..]
  {
    OccursOnce(s, i);
    RemoveSplit(s[..i], s[i], s[i + 1..]);
  }

  /** Removing two keys gives the same order whichever is removed first. */
  lemma {:induction false} RemoveCommutes<K(!new)>(s: seq<K>, a: K, b: K)
    ensures Remove(Remove(s, a), b) == Remove(Remove(s, b), a)
  {
    if s != [] {
      RemoveCommutes(s[1..], a, b);
      if s[0] != a && s[0] != b {
        var ra, rb := Remove(s[1..], a), Remove(s[1..], b);
        assert ([s[0]] + ra)[1..] == ra;
        assert ([s[0]] + rb)[1..] == rb;
      }
    }
  }

  /** `s` with `k` moved to, or added at, the most recent end. */
  function Touch<K(==, !new)>(s: seq<K>, k: K): (r: seq<K>)
    requires Distinct(s)
    ensures Distinct(r) && |r| > 0 && r[|r| - 1] == k
    ensures forall x :: x in r <==> x in s || x == k
    ensures |r| == if k in s then |s| else |s| + 1
    ensures k !in s ==> r == s + [k]
  {
    var rest := Remove(s, k);
    assert forall j :: 0 <= j < |rest| ==> (rest + [k])[j] == rest[j];
    rest + [k]
  }

  /**
   * Touching the key at position `i` moves it to the most recent end; the
   * keys before and after it keep their relative order.
   */
  lemma TouchAt<K(!new)>(s: seq<K>, i: nat)
    requires Distinct(s) && i < |s|
    ensures Touch(s, s[i]) == s[..i] + s[i + 1..] + [s[i]]
  {
    RemoveAt(s, i);
  }

  /** Dropping the least recent key of a duplicate-free order drops exactly that key. */
  lemma DropOldest<K(!new)>(s: seq<K>)
    requires Distinct(s) && |s| > 0
    ensures Distinct(s[1..])
    ensures forall x :: x in s[1..] <==> x in s && x != s[0]
  {
    assert s == [s[0]] + s[1..];
  }

  /**
   * The order after writing `k`: `k` becomes the most recent key and, when it
   * is new and the order is already at capacity, the least recent key is
   * evicted.
   */
  function Admit<K(==, !new)>(s: seq<K>, k: K, capacity: nat): (r: seq<K>)
    requires Distinct(s) && |s| <= capacity && 1 <= capacity
    ensures Distinct(r) && |r| <= capacity && |r| > 0 && r[|r| - 1] == k
    ensures |r| == if k in s || |s| == capacity then |s| else |s| + 1
    ensures k in s || |s| < capacity ==> r == Touch(s, k)
  {
    var t := Touch(s, k);
    if |t| <= capacity then t
    else
      DropOldest(t);
      t[1..]
  }

  /**
   * Which keys a write keeps: `k` and every key already there, except that a
   * new key written to a full order evicts the least recent key, and only it.
   */
  lemma AdmitKeys<K(!new)>(s: seq<K>, k: K, capacity: nat)
    requires Distinct(s) && |s| <= capacity && 1 <= capacity
    ensures forall x :: x in Admit(s, k, capacity) ==> x in s || x == k
    ensures k in Admit(s, k, capacity)
    ensures k in s || |s| < capacity ==> forall x :: x in s ==> x in Admit(s, k, capacity)
    ensures k !in s && |s| == capacity ==>
              s[0] !in Admit(s, k, capacity) && forall x :: x in s[1..] ==> x in Admit(s, k, capacity)
  {
    var t := Touch(s, k);
    if |t| > capacity {
      DropOldest(t);
      DropOldest(s);
      assert t[0] == s[0] by {
        assert Remove(s, k) == s;
      }
    }
  }

  /** Writing a key that is not in the order appends it, after dropping the oldest key when the order is full. */
  lemma AdmitFresh<K(!new)>(s: seq<K>, k: K, capacity: nat)
    requires Distinct(s) && |s| <= capacity && 1 <= capacity && k !in s
    ensures Admit(s, k, capacity) == (s + [k])[Overflow(|s|, 1, capacity)..]
  {
    assert Touch(s, k) == s + [k];
  }

  /** How many of the oldest keys `n` writes of new keys push out of an order holding `len` of `capacity` keys. */
  function Overflow(len: nat, n: nat, capacity: nat): nat
  {
    if len + n > capacity then len + n - capacity else 0
  }

  /** The order after writing each key of `ks` in turn. */
  function AdmitAll<K(==, !new)>(s: seq<K>, ks: seq<K>, capacity: nat): (r: seq<K>)
    requires Distinct(s) && |s| <= capacity && 1 <= capacity
    ensures Distinct(r) && |r| <= capacity
    decreases |ks|
  {
    if ks == [] then s else AdmitAll(Admit(s, ks[0], capacity), ks[1..], capacity)
  }

  /** The order after reading each key of `ks` in turn (a read of an absent key changes nothing). */
  function TouchAll<K(==, !new)>(s: seq<K>, ks: seq<K>): (r: seq<K>)
    requires Distinct(s)
    decreases |ks|
  {
    if ks == [] then s
    else TouchAll(if ks[0] in s then Touch(s, ks[0]) else s, ks[1..])
  }

  /** A suffix of a duplicate-free sequence is duplicate-free. */
  lemma DistinctSuffix<K(!new)>(s: seq<K>, n: nat)
    requires Distinct(s) && n <= |s|
    ensures Distinct(s[n..])
  {
    assert forall i :: 0 <= i < |s| - n ==> s[n..][i] == s[n + i];
  }

  /** Appending the first new key and dropping a prefix, then appending the other new keys, is appending them all. */
  lemma WriteOneThenRest<K>(s: seq<K>, ks: seq<K>, n: nat)
    requires ks != [] && n <= |s| + 1
    ensures (s + [ks[0]])[n..] + ks[1..] == (s + ks)[n..]
  {
    assert s + ks == (s + [ks[0]]) + ks[1..];
  }

  /**
   * Writing new keys with no read in between pushes out exactly the oldest
   * keys: the order ends as the old order followed by the new keys, minus as
   * many keys at the least recent end as the capacity is exceeded by.
   */
  lemma {:induction false} FreshWritesEvictOldest<K(!new)>(s: seq<K>, ks: seq<K>, capacity: nat)
    requires Distinct(s + ks) && |s| <= capacity && 1 <= capacity
    ensures Distinct(s)
    ensures AdmitAll(s, ks, capacity) == (s + ks)[Overflow(|s|, |ks|, capacity)..]
    decreases |ks|
  {
    if ks == [] {
      assert s + ks == s;
    } else {
      FreshStep(s, ks, capacity);
      var next := Admit(s, ks[0], capacity);
      FreshWritesEvictOldest(next, ks[1..], capacity);
      assert AdmitAll(s, ks, capacity) == AdmitAll(next, ks[1..], capacity);
      SkipInTwoSteps(s, ks, capacity, next, AdmitAll(next, ks[1..], capacity));
    }
  }

  /** The arithmetic of the step above: skipping the first write's overflow and then the rest's is skipping both. */
  lemma SkipInTwoSteps<K>(s: seq<K>, ks: seq<K>, capacity: nat, next: seq<K>, r: seq<K>)
    requires ks != [] && |s| <= capacity
    requires next + ks[1..] == (s + ks)[Overflow(|s|, 1, capacity)..]
    requires r == (next + ks[1..])[Overflow(|next|, |ks[1..]|, capacity)..]
    ensures r == (s + ks)[Overflow(|s|, |ks|, capacity)..]
  {
    var e1 := Overflow(|s|, 1, capacity);
    var e2 := Overflow(|next|, |ks[1..]|, capacity);
    assert e1 + e2 == Overflow(|s|, |ks|, capacity);
    SuffixOfSuffix(s + ks, e1, e2);
  }

  /** The first of a batch of new writes, in the terms of the lemma above. */
  lemma FreshStep<K(!new)>(s: seq<K>, ks: seq<K>, capacity: nat)
    requires Distinct(s + ks) && |s| <= capacity && 1 <= capacity && ks != []
    ensures Distinct(s) && ks[0] !in s
    ensures var e1 := Overflow(|s|, 1, capacity);
            && Admit(s, ks[0], capacity) + ks[1..] == (s + ks)[e1..]
            && Distinct((s + ks)[e1..])
  {
    assert forall i :: 0 <= i < |s| ==> (s + ks)[i] == s[i];
    assert (s + ks)[|s|] == ks[0];
    var e1 := Overflow(|s|, 1, capacity);
    AdmitFresh(s, ks[0], capacity);
    WriteOneThenRest(s, ks, e1);
    DistinctSuffix(s + ks, e1);
  }

  /** Dropping `a` elements and then `b` more drops `a + b`. */
  lemma SuffixOfSuffix<K>(s: seq<K>, a: nat, b: nat)
    requires a + b <= |s|
    ensures s[a..][b..] == s[a + b..]
  {
  }

  /** Reading keys from the least recent one onwards rotates each of them to the most recent end. */
  lemma {:induction false} ReadFromOldest<K(!new)>(o: seq<K>, j: nat)
    requires j <= |o| && Distinct(o[j..] + o[..j])
    ensures TouchAll(o[j..] + o[..j], o[j..]) == o
    decreases |o| - j
  {
    if j == |o| {
      assert o[j..] + o[..j] == o;
    } else {
      var s := o[j..] + o[..j];
      RotateOne(o, j);
      assert o[j..][0] == o[j] && o[j..][1..] == o[j + 1..];
      assert TouchAll(s, o[j..]) == TouchAll(Touch(s, o[j]), o[j + 1..]);
      ReadFromOldest(o, j + 1);
    }
  }

  /** Reading the least recent key of a rotation of `o` rotates it one step further. */
  lemma RotateOne<K(!new)>(o: seq<K>, j: nat)
    requires j < |o| && Distinct(o[j..] + o[..j])
    ensures o[j] in o[j..] + o[..j]
    ensures Touch(o[j..] + o[..j], o[j]) == o[j + 1..] + o[..j + 1]
  {
    var s := o[j..] + o[..j];
    assert s[0] == o[j];
    RemoveAt(s, 0);
    assert s[1..] == o[j + 1..] + o[..j];
    assert o[..j] + [o[j]] == o[..j + 1];
  }

  /** Reading every key from the least recently used to the most recently used leaves the recency order as it was. */
  lemma ReadAllInRecencyOrder<K(!new)>(o: seq<K>)
    requires Distinct(o)
    ensures TouchAll(o, o) == o
  {
    assert o[0..] + o[..0] == o;
    ReadFromOldest(o, 0);
  }

  // ---------------------------------------------------------------------------
  // The cache

  datatype Cache<K(==), V> = Cache(capacity: nat, order: seq<K>, values: map<K, V>)

  /** The cache invariant: within capacity, each key once, and the recency order lists exactly the stored keys. */
  ghost predicate Valid<K(!new), V>(c: Cache<K, V>)
  {
    && 1 <= c.capacity
    && |c.order| <= c.capacity
    && Distinct(c.order)
    && (forall k :: k in c.order <==> k in c.values)
  }

  /** Number of stored entries. */
  function Length<K(==), V>(c: Cache<K, V>): nat
  {
    |c.order|
  }

  /** A duplicate-free order has as many keys as positions. */
  lemma {:induction false} DistinctKeyCount<K(!new)>(s: seq<K>)
    requires Distinct(s)
    ensures |set x | x in s| == |s|
  {
    if s != [] {
      var t := s[1..];
      assert Distinct(t) by {
        forall a, b | 0 <= a < b < |t|
          ensures t[a] != t[b]
        {
          assert t[a] == s[a + 1] && t[b] == s[b + 1];
        }
      }
      DistinctKeyCount(t);
      assert s[0] !in t by {
        forall j | 0 <= j < |t|
          ensures t[j] != s[0]
        {
          assert t[j] == s[j + 1];
        }
      }
      assert (set x | x in s) == (set x | x in t) + {s[0]} by {
        assert s == [s[0]] + t;
      }
    }
  }

  /** The length of a valid cache is the number of keys holding a value. */
  lemma LengthIsEntryCount<K(!new), V>(c: Cache<K, V>)
    requires Valid(c)
    ensures Length(c) == |c.values|
  {
    DistinctKeyCount(c.order);
    assert c.values.Keys == set x | x in c.order;
  }

  /** The value stored under `k`, without touching recency. */
  function Lookup<K(==), V>(c: Cache<K, V>, k: K): Option<V>
  {
    if k in c.values then Some(c.values[k]) else None
  }

  /** A new cache, and the result of clearing one. */
  function Empty<K(==, !new), V>(capacity: nat): (c: Cache<K, V>)
    requires 1 <= capacity
    ensures Valid(c) && c.capacity == capacity
    ensures Length(c) == 0
    ensures forall k :: Lookup(c, k) == None
  {
    Cache(capacity, [], map[])
  }

  /**
   * Store `v` under `k` and make `k` the most recently used key. When `k` is
   * new and the cache is full, the least recently used key is evicted; every
   * other entry keeps its value.
   */
  function Put<K(==, !new), V>(c: Cache<K, V>, k: K, v: V): (r: Cache<K, V>)
    requires Valid(c)
    ensures Valid(r) && r.capacity == c.capacity
    ensures Lookup(r, k) == Some(v)
    ensures r.order == Admit(c.order, k, c.capacity)
    ensures forall x :: x != k && x in r.values ==> x in c.values && r.values[x] == c.values[x]
  {
    var order := Admit(c.order, k, c.capacity);
    AdmitKeys(c.order, k, c.capacity);
    Cache(c.capacity, order, map x | x in order :: if x == k then v else c.values[x])
  }

  /**
   * Which keys a write leaves in the cache: overwriting keeps the key set, a
   * new key joins it, and a new key written to a full cache takes the place of
   * the least recently used one, which is the only key to leave.
   */
  lemma PutKeys<K(!new), V>(c: Cache<K, V>, k: K, v: V)
    requires Valid(c)
    ensures k in c.values ==> Put(c, k, v).values.Keys == c.values.Keys
    ensures k !in c.values && Length(c) < c.capacity ==>
              Put(c, k, v).values.Keys == c.values.Keys + {k}
    ensures k !in c.values && Length(c) == c.capacity ==>
              Put(c, k, v).values.Keys == c.values.Keys - {c.order[0]} + {k}
    ensures Length(Put(c, k, v)) == if k in c.values || Length(c) == c.capacity then Length(c) else Length(c) + 1
  {
    var r := Put(c, k, v);
    AdmitKeys(c.order, k, c.capacity);
    if k in c.values {
      assert forall x :: x in r.values <==> x in c.values;
    } else if Length(c) < c.capacity {
      assert forall x :: x in r.values <==> x in c.values || x == k;
    } else {
      DropOldest(c.order);
      assert forall x :: x in r.values <==> (x in c.values && x != c.order[0]) || x == k;
    }
  }

  /**
   * Read the value under `k`. A hit makes `k` the most recently used key; the
   * stored keys and values never change, only their recency order.
   */
  function Get<K(==, !new), V>(c: Cache<K, V>, k: K): (r: (Option<V>, Cache<K, V>))
    requires Valid(c)
    ensures Valid(r.1) && r.1.capacity == c.capacity
    ensures r.0.Some? <==> k in c.values
    ensures r.0.Some? ==> r.0.value == c.values[k]
    ensures r.1.values == c.values
    ensures k in c.values ==> r.1.order == Touch(c.order, k)
    ensures k !in c.values ==> r.1 == c
  {
    if k in c.values then
      (Some(c.values[k]), Cache(c.capacity, Touch(c.order, k), c.values))
    else
      (None, c)
  }

  /** Remove `k` if present; every other entry keeps its value and its place in the recency order. */
  function Del<K(==, !new), V>(c: Cache<K, V>, k: K): (r: Cache<K, V>)
    requires Valid(c)
    ensures Valid(r) && r.capacity == c.capacity
    ensures Lookup(r, k) == None
    ensures forall x :: x != k ==> Lookup(r, x) == Lookup(c, x)
    ensures Length(r) == if k in c.values then Length(c) - 1 else Length(c)
    ensures k !in c.values ==> r == c
    ensures r.order == Remove(c.order, k)
  {
    Cache(c.capacity, Remove(c.order, k), c.values - {k})
  }

  /** Deleting the key at position `i` of the order closes the gap; every other key keeps its place in the recency order. */
  lemma DelAt<K(!new), V>(c: Cache<K, V>, i: nat)
    requires Valid(c) && i < |c.order|
    ensures Del(c, c.order[i]).order == c.order[..i] + c.order[i + 1..]
  {
    RemoveAt(c.order, i);
  }

  /** Deleting two keys leaves the same cache, recency order included, whichever is deleted first. */
  lemma DelCommutes<K(!new), V>(c: Cache<K, V>, a: K, b: K)
    requires Valid(c)
    ensures Del(Del(c, a), b) == Del(Del(c, b), a)
  {
    RemoveCommutes(c.order, a, b);
    assert c.values - {a} - {b} == c.values - {b} - {a};
  }

  /** Write `ks[i]` with value `vs[i]` for each `i` in turn, with no read in between. */
  function PutAll<K(==, !new), V>(c: Cache<K, V>, ks: seq<K>, vs: seq<V>): (r: Cache<K, V>)
    requires Valid(c) && |ks| == |vs|
    ensures Valid(r) && r.capacity == c.capacity
    ensures r.order == AdmitAll(c.order, ks, c.capacity)
    ensures forall x :: x in r.values && x !in ks ==> x in c.values && r.values[x] == c.values[x]
    decreases |ks|
  {
    if ks == [] then c else PutAll(Put(c, ks[0], vs[0]), ks[1..], vs[1..])
  }

  /** After a batch of writes of distinct keys, each key still stored holds the value written for it. */
  lemma {:induction false} PutAllValues<K(!new), V>(c: Cache<K, V>, ks: seq<K>, vs: seq<V>)
    requires Valid(c) && |ks| == |vs| && Distinct(ks)
    ensures forall i :: 0 <= i < |ks| && ks[i] in PutAll(c, ks, vs).values ==> PutAll(c, ks, vs).values[ks[i]] == vs[i]
    decreases |ks|
  {
    if ks != [] {
      var next := Put(c, ks[0], vs[0]);
      var r := PutAll(next, ks[1..], vs[1..]);
      assert PutAll(c, ks, vs) == r;
      DistinctSuffix(ks, 1);
      PutAllValues(next, ks[1..], vs[1..]);
      forall i | 0 <= i < |ks| && ks[i] in r.values
        ensures r.values[ks[i]] == vs[i]
      {
        if i == 0 {
          assert ks[0] !in ks[1..] by {
            assert forall j :: 0 <= j < |ks| - 1 ==> ks[1..][j] == ks[j + 1];
          }
        } else {
          assert ks[i] == ks[1..][i - 1];
        }
      }
    }
  }

  /** Read each key of `ks` in turn, discarding the values read. */
  function GetAll<K(==, !new), V>(c: Cache<K, V>, ks: seq<K>): (r: Cache<K, V>)
    requires Valid(c)
    ensures Valid(r) && r.capacity == c.capacity && r.values == c.values
    ensures r.order == TouchAll(c.order, ks)
    decreases |ks|
  {
    if ks == [] then c else GetAll(Get(c, ks[0]).1, ks[1..])
  }

  /**
   * A new key written to a full cache evicts the least recently used key and
   * no other: every other key keeps its value and the cache stays full.
   */
  lemma WriteToFullEvictsLeastRecent<K(!new), V>(c: Cache<K, V>, k: K, v: V)
    requires Valid(c) && Length(c) == c.capacity && k !in c.values
    ensures Lookup(Put(c, k, v), c.order[0]) == None
    ensures forall i :: 1 <= i < |c.order| ==> Lookup(Put(c, k, v), c.order[i]) == Lookup(c, c.order[i])
    ensures Lookup(Put(c, k, v), k) == Some(v)
    ensures Length(Put(c, k, v)) == Length(c)
  {
    var r := Put(c, k, v);
    AdmitKeys(c.order, k, c.capacity);
    forall i | 1 <= i < |c.order|
      ensures c.order[i] in r.values
    {
      assert c.order[i] in c.order[1..] by {
        assert c.order[1..][i - 1] == c.order[i];
      }
    }
  }

  /** Writing distinct keys into an empty cache of exactly their number keeps them all, in write order. */
  lemma FilledOrder<K(!new), V>(ks: seq<K>, vs: seq<V>)
    requires 1 <= |ks| && |vs| == |ks| && Distinct(ks)
    ensures PutAll(Empty(|ks|), ks, vs).order == ks
  {
    var c0: Cache<K, V> := Empty(|ks|);
    assert c0.order + ks == ks;
    FreshWritesEvictOldest(c0.order, ks, |ks|);
  }

  /** Writing distinct keys into an empty cache of exactly their number stores each key's value. */
  lemma FilledValues<K(!new), V>(ks: seq<K>, vs: seq<V>)
    requires 1 <= |ks| && |vs| == |ks| && Distinct(ks)
    ensures forall i :: 0 <= i < |ks| ==> Lookup(PutAll(Empty(|ks|), ks, vs), ks[i]) == Some(vs[i])
  {
    var c0: Cache<K, V> := Empty(|ks|);
    var c1 := PutAll(c0, ks, vs);
    FilledOrder(ks, vs);
    PutAllValues(c0, ks, vs);
    forall i | 0 <= i < |ks|
      ensures Lookup(c1, ks[i]) == Some(vs[i])
    {
      assert ks[i] in c1.order;
    }
  }

  /** Writing distinct keys into an empty cache of exactly their number, then reading them all in order, leaves them in that order with their values. */
  lemma FillThenReadAll<K(!new), V>(ks: seq<K>, vs: seq<V>)
    requires 1 <= |ks| && |vs| == |ks| && Distinct(ks)
    ensures var c := GetAll(PutAll(Empty(|ks|), ks, vs), ks);
            && Valid(c) && c.capacity == |ks| && c.order == ks
            && forall i :: 0 <= i < |ks| ==> Lookup(c, ks[i]) == Some(vs[i])
  {
    FilledOrder(ks, vs);
    FilledValues(ks, vs);
    ReadAllInRecencyOrder(ks);
    var c1 := PutAll(Empty(|ks|), ks, vs);
    var c := GetAll(c1, ks);
    forall i | 0 <= i < |ks|
      ensures Lookup(c, ks[i]) == Some(vs[i])
    {
      assert Lookup(c1, ks[i]) == Some(vs[i]);
    }
  }


  /**
   * Fill a cache of capacity `|ks|` with the keys `ks`, read each of them in
   * the order written, then write a new key `k`. The first key written, read
   * longest ago, is evicted; every other key keeps the value written, `k` is
   * stored, and the cache stays full. With `ks` = 0..4 this is the eviction
   * scenario the store's tests check.
   */
  lemma ReadAllThenWriteEvictsFirst<K(!new), V>(ks: seq<K>, vs: seq<V>, k: K, v: V)
    requires 1 <= |ks| && |vs| == |ks| && Distinct(ks) && k !in ks
    ensures var c := Put(GetAll(PutAll(Empty(|ks|), ks, vs), ks), k, v);
            && Lookup(c, ks[0]) == None
            && Length(c) == |ks|
            && (forall i :: 1 <= i < |ks| ==> Lookup(c, ks[i]) == Some(vs[i]))
            && Lookup(c, k) == Some(v)
  {
    FillThenReadAll(ks, vs);
    var c2 := GetAll(PutAll(Empty(|ks|), ks, vs), ks);
    WriteToFullEvictsLeastRecent(c2, k, v);
  }
}
