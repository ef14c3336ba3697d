/**
 * Snapshots of the store (storage/dump.go): a StorageDump holds, for every
 * shard in index order, a copy of its item map and of its expiration queue.
 * RestoreFromDump replaces every shard's contents with the dump's.
 *
 * The gob encoding of a dump is not modelled: DumpStorage returns the dump
 * value itself, and RestoreFromDump receives the outcome of decoding.
 */
module Dump {
  import opened Wrappers
  import opened Algo
  import opened Expiration
  import opened Storage

  /** `ShardDump`: the contents of one shard. */
  datatype ShardDump = ShardDump(items: map<Key, Value>, keyExpiration: ExpireQueue)

  /** `StorageDump`: one ShardDump per shard, in shard order. */
  type StorageDump = seq<ShardDump>

  /** What RestoreFromDump ends with: success, the decoding error, or a panic. */
  datatype RestoreOutcome = Restored | DecodeFailed(error: string) | Panic(message: string)

  const SHARD_COUNT_MISMATCH: string := "cannot restore from dump: shard number doesn't match"

  /**
   * A dump that a valid store can take over: between 1 and MAX_SHARDS
   * shards, each keeping the shard invariant and holding only valid keys
   * that hash to it.
   */
  ghost predicate DumpValid(d: StorageDump) {
    && 1 <= |d| <= MAX_SHARDS
    && (forall i :: 0 <= i < |d| ==> ShardInvariant(d[i].items, d[i].keyExpiration))
    && (forall i, k :: 0 <= i < |d| && k in d[i].items ==> ValidKey(k) && ShardIndex(k, |d|) == i)
  }

  /**
   * What `Get` answers on a store whose shards hold the dump's contents:
   * the value for key in the shard it hashes to.
   */
  function DumpLookup(d: StorageDump, key: Key): (r: Option<Value>)
    requires |d| > 0
    ensures DumpValid(d) ==> (r.Some? <==> exists i :: 0 <= i < |d| && key in d[i].items)
    ensures r.Some? ==> exists i :: 0 <= i < |d| && key in d[i].items && r.value == d[i].items[key]
  {
    if !ValidKey(key) then None
    else
      var i := ShardIndex(key, |d|);
      if key in d[i].items then Some(d[i].items[key]) else None
  }

  /** `copyShardItems`: a new map with every pair of the shard's item map. */
  method CopyShardItems(shard: Shard) returns (m: map<Key, Value>)
    ensures m == shard.items
  {
    m := map[];
    var rest := shard.items.Keys;
    while rest != {}
      invariant rest <= shard.items.Keys
      invariant m.Keys == shard.items.Keys - rest
      invariant forall k :: k in m ==> m[k] == shard.items[k]
      decreases |rest|
    {
      var k :| k in rest;
      m := m[k := shard.items[k]];
      rest := rest - {k};
    }
  }

  /** `copyShardKeyExp`: a new queue with the same entries, position by position. */
  method CopyShardKeyExp(shard: Shard) returns (q: ExpireQueue)
    ensures q == shard.keyExpiration
  {
    var src := shard.keyExpiration;
    q := [];
    var i := 0;
    while i < |src|
      invariant 0 <= i <= |src|
      invariant q == src[..i]
    {
      q := q + [StorageKey(src[i].key, src[i].expire)];
      i := i + 1;
    }
  }

  /**
   * `DumpStorage`: one ShardDump per shard, in shard order, each holding the
   * shard's items and queue. The dump of a valid store is a valid dump, and
   * it answers every lookup as the store does.
   */
  method DumpStorage(c: ConcurrentMap) returns (d: StorageDump)
    ensures |d| == |c.shards|
    ensures forall i :: 0 <= i < |d| ==>
      d[i].items == c.shards[i].items && d[i].keyExpiration == c.shards[i].keyExpiration
    ensures c.Valid() ==> DumpValid(d)
    ensures c.Valid() ==> forall k :: DumpLookup(d, k) == c.Get(k)
  {
    d := [];
    var i := 0;
    while i < |c.shards|
      invariant 0 <= i <= |c.shards|
      invariant |d| == i
      invariant forall j :: 0 <= j < i ==>
        d[j].items == c.shards[j].items && d[j].keyExpiration == c.shards[j].keyExpiration
    {
      var items := CopyShardItems(c.shards[i]);
      var q := CopyShardKeyExp(c.shards[i]);
      d := d + [ShardDump(items, q)];
      i := i + 1;
    }
    if c.Valid() {
      DumpOfValidStore(c, d);
    }
  }

  /** A dump holding the shards' contents of a valid store is valid and agrees with Get. */
  lemma DumpOfValidStore(c: ConcurrentMap, d: StorageDump)
    requires c.Valid() && |d| == |c.shards|
    requires forall i :: 0 <= i < |d| ==>
      d[i].items == c.shards[i].items && d[i].keyExpiration == c.shards[i].keyExpiration
    ensures DumpValid(d)
    ensures forall k :: DumpLookup(d, k) == c.Get(k)
  {
    forall i | 0 <= i < |d|
      ensures ShardInvariant(d[i].items, d[i].keyExpiration)
      ensures forall k :: k in d[i].items ==> ValidKey(k) && ShardIndex(k, |d|) == i
    {
      assert c.shards[i].Valid() && c.shards[i].index == i && c.shards[i].count == |d|;
    }
  }

  /**
   * `RestoreFromDump`: a decoding error is returned before any shard is
   * touched; a dump whose shard count differs from the store's is a panic,
   * also with nothing changed. Otherwise every shard's items and queue are
   * replaced by the dump's, so the store answers every lookup as the dump
   * does and no old entry survives.
   */
  method RestoreFromDump(c: ConcurrentMap, decoded: Result<StorageDump, string>) returns (outcome: RestoreOutcome)
    requires c.Shaped()
    modifies c.shards
    ensures decoded.Err? ==> outcome == DecodeFailed(decoded.error)
    ensures decoded.Ok? && |decoded.value| != |c.shards| ==> outcome == Panic(SHARD_COUNT_MISMATCH)
    ensures decoded.Ok? && |decoded.value| == |c.shards| ==> outcome == Restored
    ensures !outcome.Restored? ==> forall i :: 0 <= i < |c.shards| ==>
      c.shards[i].items == old(c.shards[i].items) && c.shards[i].keyExpiration == old(c.shards[i].keyExpiration)
    ensures outcome.Restored? ==> forall i :: 0 <= i < |c.shards| ==>
      c.shards[i].items == decoded.value[i].items && c.shards[i].keyExpiration == decoded.value[i].keyExpiration
    ensures outcome.Restored? ==> forall k :: c.Get(k) == DumpLookup(decoded.value, k)
    ensures outcome.Restored? && DumpValid(decoded.value) ==> c.Valid()
    ensures old(c.Valid()) && !outcome.Restored? ==> c.Valid()
  {
    if decoded.Err? {
      return DecodeFailed(decoded.error);
    }
    var d := decoded.value;
    if |c.shards| != |d| {
      return Panic(SHARD_COUNT_MISMATCH);
    }
    var i := 0;
    while i < |d|
      invariant 0 <= i <= |d|
      invariant forall j :: 0 <= j < i ==>
        c.shards[j].items == d[j].items && c.shards[j].keyExpiration == d[j].keyExpiration
      invariant forall j :: i <= j < |d| ==>
        c.shards[j].items == old(c.shards[j].items) && c.shards[j].keyExpiration == old(c.shards[j].keyExpiration)
    {
      var shard := c.shards[i];
      shard.items := d[i].items;
      shard.keyExpiration := d[i].keyExpiration;
      i := i + 1;
    }
    outcome := Restored;
    if DumpValid(d) {
      RestoredStoreValid(c, d);
    }
  }

  /** A store whose shards hold a valid dump's contents is valid. */
  lemma RestoredStoreValid(c: ConcurrentMap, d: StorageDump)
    requires |d| == |c.shards| && DumpValid(d) && c.Shaped()
    requires forall i :: 0 <= i < |d| ==>
      c.shards[i].items == d[i].items && c.shards[i].keyExpiration == d[i].keyExpiration
    ensures c.Valid()
  {
  }

  /**
   * The dump/restore round trip of the store's own test: dump the store,
   * remove keys, restore the dump; every key then reads as it did before.
   */
  method DumpRemoveRestore(c: ConcurrentMap, keys: seq<Key>) returns (outcome: RestoreOutcome)
    requires c.Valid()
    modifies c.shards
    ensures outcome == Restored && c.Valid()
    ensures forall k :: c.Get(k) == old(c.Get(k))
  {
    var d := DumpStorage(c);
    var i := 0;
    while i < |keys|
      invariant 0 <= i <= |keys|
      invariant c.Valid()
    {
      c.Remove(keys[i]);
      i := i + 1;
    }
    outcome := RestoreFromDump(c, Ok(d));
  }
}
