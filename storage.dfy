/**
 * The sharded key/value store of storage/core.go: a fixed sequence of
 * shards, each holding an item map and its expiration queue; a key lives in
 * the shard its FNV-1a hash selects.
 *
 * Shard locks are left out: every operation runs to completion on its own.
 */
module Storage {
  import opened Wrappers
  import opened Algo
  import opened Expiration

  const MAX_SHARDS: int := 4096
  /** Longest accepted key, in bytes. */
  const KEY_MAX_LEN: int := 2048
  /** Largest accepted value, in bytes (10 MiB). */
  const VALUE_MAX_SIZE: int := 10485760

  type Value = Bytes

  /** `validKey`. */
  predicate ValidKey(key: Key) {
    |key| <= KEY_MAX_LEN
  }

  /** `validValue`. */
  predicate ValidValue(value: Value) {
    |value| <= VALUE_MAX_SIZE
  }

  /**
   * The shard selection of `getShard`: the FNV-1a hash of the key, as an
   * unsigned 64-bit number, modulo the shard count. It depends on the key and
   * the shard count only, so a key always maps to the same shard.
   */
  function ShardIndex(key: Key, numShards: nat): (i: nat)
    requires numShards > 0
    ensures i < numShards
  {
    (Fnv1a64(key) as int) % numShards
  }

  predicate Distinct(s: seq<Key>) {
    forall i, j :: 0 <= i < j < |s| ==> s[i] != s[j]
  }

  /**
   * What every shard keeps: its queue holds at most one entry per key, and
   * every stored key has its entry. Heap order is not part of it: `Set` of
   * a key already in the queue can break it (see Expiration.InsertKey).
   */
  ghost predicate ShardInvariant(items: map<Key, Value>, q: ExpireQueue) {
    && (forall k :: CountKey(q, k) <= 1)
    && (forall k :: k in items ==> CountKey(q, k) == 1)
  }

  /**
   * Storing key keeps a shard's invariant when the new queue is what
   * InsertKey promises: one entry for key, every other key's count as it was.
   */
  lemma ShardInvariantAfterSet(items: map<Key, Value>, q0: ExpireQueue, key: Key, value: Value, q: ExpireQueue)
    requires ShardInvariant(items, q0)
    requires CountKey(q0, key) <= 1 ==> CountKey(q, key) == 1
    requires forall k :: k != key ==> CountKey(q, k) == CountKey(q0, k)
    ensures ShardInvariant(items[key := value], q)
  {
  }

  /** `ConcurrentMapShard`. */
  class Shard {
    var items: map<Key, Value>
    var keyExpiration: ExpireQueue
    /** The shard's position in its store and the store's shard count. */
    ghost const index: nat
    ghost const count: nat

    /** A shard as MakeStorageEmpty creates it: no items, an empty queue. */
    constructor (ghost index: nat, ghost count: nat)
      requires index < count
      ensures this.index == index && this.count == count
      ensures items == map[] && keyExpiration == NewExpireQueue()
      ensures Valid()
    {
      this.index := index;
      this.count := count;
      items := map[];
      keyExpiration := NewExpireQueue();
    }

    /**
     * The queue invariant, and every stored key valid and hashing to this
     * shard.
     */
    ghost predicate Valid()
      reads this
    {
      && ShardInvariant(items, keyExpiration)
      && index < count
      && (forall k :: k in items ==> ValidKey(k) && ShardIndex(k, count) == index)
    }

    /**
     * The shard part of `Set`: stores value under key and records the key's
     * expiry at now + ttl with the queue's own InsertKey, which keeps one
     * entry per key. Heap order survives a key new to the queue; a re-insert
     * may break it, as in the program.
     */
    method Put(key: Key, value: Value, ttl: int, now: int)
      requires Valid() && ValidKey(key) && ShardIndex(key, count) == index
      modifies this
      ensures Valid()
      ensures items == old(items)[key := value]
      ensures CountKey(keyExpiration, key) == 1
      ensures StorageKey(key, now + ttl) in keyExpiration
      ensures forall k :: k != key ==> CountKey(keyExpiration, k) == CountKey(old(keyExpiration), k)
      ensures CountKey(old(keyExpiration), key) == 0 && IsHeap(old(keyExpiration)) ==> IsHeap(keyExpiration)
      ensures CountKey(old(keyExpiration), key) == 0 ==>
        multiset(keyExpiration) == multiset(old(keyExpiration)) + multiset{StorageKey(key, now + ttl)}
      ensures CountKey(old(keyExpiration), key) == 1 ==>
        multiset(keyExpiration) ==
        multiset(old(keyExpiration)) - multiset{FirstEntry(old(keyExpiration), key)} + multiset{StorageKey(key, now + ttl)}
    {
      ghost var q0 := keyExpiration;
      keyExpiration := InsertKey(keyExpiration, key, ttl, now);
      ShardInvariantAfterSet(items, q0, key, value, keyExpiration);
      assert StorageKey(key, now + ttl) in multiset(keyExpiration);
      items := items[key := value];
    }

    /** The shard part of `Remove`: the key leaves the item map; the queue is not touched. */
    method Delete(key: Key)
      requires Valid()
      modifies this
      ensures Valid()
      ensures items == old(items) - {key}
      ensures keyExpiration == old(keyExpiration)
    {
      items := items - {key};
    }

    /** `getShardKeys`: the keys of the item map, each once, in the map's iteration order. */
    method ShardKeys() returns (keys: seq<Key>)
      ensures forall k :: k in keys <==> k in items
      ensures Distinct(keys) && |keys| == |items|
    {
      keys := [];
      var rest := items.Keys;
      while rest != {}
        invariant rest <= items.Keys
        invariant forall k :: k in keys <==> k in items && k !in rest
        invariant Distinct(keys) && |keys| + |rest| == |items|
        decreases |rest|
      {
        var k :| k in rest;
        keys := keys + [k];
        rest := rest - {k};
      }
    }
  }

  /** `ConcurrentMap`: the shard slice, never resized after creation. */
  class ConcurrentMap {
    const shards: seq<Shard>

    constructor (shards: seq<Shard>)
      ensures this.shards == shards
    {
      this.shards := shards;
    }

    /**
     * Between 1 and MAX_SHARDS distinct shards, each keeping its invariant,
     * and every stored key valid and in the shard its hash selects.
     */
    ghost predicate Valid()
      reads this, shards
    {
      && 1 <= |shards| <= MAX_SHARDS
      && (forall i, j :: 0 <= i < j < |shards| ==> shards[i] != shards[j])
      && (forall i :: 0 <= i < |shards| ==> shards[i].index == i && shards[i].count == |shards| && shards[i].Valid())
    }

    /**
     * The store's fixed shape: between 1 and MAX_SHARDS distinct shards,
     * each knowing its own index and the shard count. Nothing a method does
     * to the shards' contents changes it.
     */
    ghost predicate Shaped() {
      && 1 <= |shards| <= MAX_SHARDS
      && (forall i, j :: 0 <= i < j < |shards| ==> shards[i] != shards[j])
      && (forall i :: 0 <= i < |shards| ==> shards[i].index == i && shards[i].count == |shards|)
    }

    /**
     * `getShard`: the index of the key's shard, or None for a key longer
     * than KEY_MAX_LEN.
     */
    function GetShard(key: Key): (r: Option<nat>)
      reads this
      requires |shards| > 0
      ensures r.None? <==> |key| > KEY_MAX_LEN
      ensures r.Some? ==> r.value < |shards| && r.value == ShardIndex(key, |shards|)
    {
      if !ValidKey(key) then None else Some(ShardIndex(key, |shards|))
    }

    /**
     * `Get`: the value stored for key in its shard. In a valid store a key is
     * found exactly when some shard holds it.
     */
    function Get(key: Key): (r: Option<Value>)
      reads this, shards
      requires |shards| > 0
      ensures Valid() ==> (r.Some? <==> exists i :: 0 <= i < |shards| && key in shards[i].items)
      ensures r.Some? ==> exists i :: 0 <= i < |shards| && key in shards[i].items && r.value == shards[i].items[key]
    {
      match GetShard(key)
      case None => None
      case Some(i) => if key in shards[i].items then Some(shards[i].items[key]) else None
    }

    /**
     * `Set`: fails, changing nothing, for a key longer than KEY_MAX_LEN or a
     * value larger than VALUE_MAX_SIZE. Otherwise stores the value in the
     * key's shard and records the key's expiry at now + ttl, leaving every
     * other key and every other shard as it was.
     */
    method Set(key: Key, value: Value, ttl: int, now: int) returns (ok: bool)
      requires Valid()
      modifies shards
      ensures Valid()
      ensures ok <==> ValidKey(key) && ValidValue(value)
      ensures ok ==> Get(key) == Some(value)
      ensures forall k :: k != key ==> Get(k) == old(Get(k))
      ensures forall i :: 0 <= i < |shards| && (!ok || i != ShardIndex(key, |shards|)) ==>
        shards[i].items == old(shards[i].items) && shards[i].keyExpiration == old(shards[i].keyExpiration)
      ensures ok ==> CountKey(shards[ShardIndex(key, |shards|)].keyExpiration, key) == 1
      ensures ok ==> StorageKey(key, now + ttl) in shards[ShardIndex(key, |shards|)].keyExpiration
      ensures ok ==> var j := ShardIndex(key, |shards|);
        forall k :: k != key ==> CountKey(shards[j].keyExpiration, k) == old(CountKey(shards[j].keyExpiration, k))
      ensures ok ==> var j := ShardIndex(key, |shards|);
        old(CountKey(shards[j].keyExpiration, key)) == 0 ==>
        multiset(shards[j].keyExpiration) == old(multiset(shards[j].keyExpiration)) + multiset{StorageKey(key, now + ttl)}
      ensures ok ==> var j := ShardIndex(key, |shards|);
        old(CountKey(shards[j].keyExpiration, key)) == 1 ==>
        multiset(shards[j].keyExpiration) ==
        old(multiset(shards[j].keyExpiration)) - multiset{old(FirstEntry(shards[j].keyExpiration, key))}
          + multiset{StorageKey(key, now + ttl)}
    {
      var index := GetShard(key);
      if index.None? || !ValidValue(value) {
        return false;
      }
      shards[index.value].Put(key, value, ttl, now);
      ok := true;
      forall i | 0 <= i < |shards| && i != index.value
        ensures shards[i].items == old(shards[i].items) && shards[i].keyExpiration == old(shards[i].keyExpiration)
      {
        assert shards[i] != shards[index.value];
      }
    }

    /**
     * `Remove`: deletes key from its shard's items; an absent key or one
     * longer than KEY_MAX_LEN changes nothing. Expiration queues are not
     * touched, and every other key reads as before.
     */
    method Remove(key: Key)
      requires Valid()
      modifies shards
      ensures Valid()
      ensures Get(key) == None
      ensures forall k :: k != key ==> Get(k) == old(Get(k))
      ensures forall i :: 0 <= i < |shards| ==> shards[i].keyExpiration == old(shards[i].keyExpiration)
      ensures forall i :: 0 <= i < |shards| && (!ValidKey(key) || i != ShardIndex(key, |shards|)) ==>
        shards[i].items == old(shards[i].items)
      ensures old(Get(key)) == None ==> forall i :: 0 <= i < |shards| ==> shards[i].items == old(shards[i].items)
    {
      var index := GetShard(key);
      if index.None? {
        return;
      }
      shards[index.value].Delete(key);
      forall i | 0 <= i < |shards| && i != index.value
        ensures shards[i].items == old(shards[i].items)
      {
        assert shards[i] != shards[index.value];
      }
    }

    /** Key is stored, and in one of the first n shards. */
    ghost predicate InShardsBelow(k: Key, n: nat)
      reads this, shards
      requires |shards| > 0
    {
      ValidKey(k) && ShardIndex(k, |shards|) < n && k in shards[ShardIndex(k, |shards|)].items
    }

    /**
     * `Keys`: every stored key, each exactly once. The shards are visited in
     * index order here; the order of the result is not promised.
     */
    method Keys() returns (keys: seq<Key>)
      requires Valid()
      ensures forall k :: k in keys <==> Get(k).Some?
      ensures Distinct(keys)
    {
      keys := [];
      var i := 0;
      while i < |shards|
        invariant 0 <= i <= |shards|
        invariant forall k :: k in keys <==> InShardsBelow(k, i)
        invariant Distinct(keys)
      {
        var chunk := shards[i].ShardKeys();
        KeysOfShardsUpTo(keys, chunk, i);
        KeysOfOtherShards(keys, chunk, i);
        keys := keys + chunk;
        i := i + 1;
      }
    }

    /** Appending the keys of shard i to the keys of the shards before it gives the keys of the shards up to i. */
    lemma KeysOfShardsUpTo(keys: seq<Key>, chunk: seq<Key>, i: nat)
      requires Valid() && i < |shards|
      requires forall k :: k in keys <==> InShardsBelow(k, i)
      requires forall k :: k in chunk <==> k in shards[i].items
      ensures forall k :: k in keys + chunk <==> InShardsBelow(k, i + 1)
    {
      assert shards[i].Valid() && shards[i].index == i && shards[i].count == |shards|;
      forall k
        ensures k in keys + chunk <==> InShardsBelow(k, i + 1)
      {
        if k in chunk {
          assert k in shards[i].items;
        }
      }
    }

    /** Keys gathered from the shards before i and the keys of shard i never coincide. */
    lemma KeysOfOtherShards(keys: seq<Key>, chunk: seq<Key>, i: nat)
      requires Valid() && i < |shards|
      requires forall k :: k in keys ==> InShardsBelow(k, i)
      requires forall k :: k in chunk ==> k in shards[i].items
      requires Distinct(keys) && Distinct(chunk)
      ensures Distinct(keys + chunk)
    {
      assert shards[i].Valid() && shards[i].index == i && shards[i].count == |shards|;
      forall a, b | 0 <= a < b < |keys + chunk|
        ensures (keys + chunk)[a] != (keys + chunk)[b]
      {
        if a < |keys| && b >= |keys| {
          assert keys[a] in keys;
          assert (keys + chunk)[b] in chunk;
        }
      }
    }
  }

  /**
   * `MakeStorageEmpty`: fails with "wrong number of shards" unless
   * 1 <= numShards <= MAX_SHARDS; otherwise a store of numShards fresh,
   * empty shards.
   */
  method MakeStorageEmpty(numShards: int) returns (r: Result<ConcurrentMap, string>)
    ensures r.Err? <==> numShards < 1 || numShards > MAX_SHARDS
    ensures r.Err? ==> r.error == "wrong number of shards"
    ensures r.Ok? ==> fresh(r.value) && r.value.Valid() && |r.value.shards| == numShards
    ensures r.Ok? ==> forall i :: 0 <= i < numShards ==>
      fresh(r.value.shards[i]) && r.value.shards[i].items == map[] && r.value.shards[i].keyExpiration == []
  {
    if numShards < 1 || numShards > MAX_SHARDS {
      return Err("wrong number of shards");
    }
    var shards: seq<Shard> := [];
    while |shards| < numShards
      invariant |shards| <= numShards
      invariant forall i :: 0 <= i < |shards| ==> fresh(shards[i]) && shards[i].items == map[] && shards[i].keyExpiration == []
      invariant forall i :: 0 <= i < |shards| ==> shards[i].index == i && shards[i].count == numShards && shards[i].Valid()
      invariant forall i, j :: 0 <= i < j < |shards| ==> shards[i] != shards[j]
    {
      var shard := new Shard(|shards|, numShards);
      shards := shards + [shard];
    }
    var m := new ConcurrentMap(shards);
    return Ok(m);
  }
}
