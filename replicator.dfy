/**
 * The replicator's policies (replicator/replicator.go): which procedures a
 * node role starts, how the store is set up at start, and one pass of the
 * dump updater's and the slave dump puller's loops.
 *
 * Goroutines, sleeps, the mutex and the file dumper's writes are not
 * modelled. What the network, the file system and the gob codec answer
 * becomes an input: the outcome of reading the cache file, of building a
 * store from a dump, of GetMasterDump and ConnectMaster, and the
 * serialize/deserialize functions of the dump codec.
 */
module Replicator {
  import opened Wrappers
  import opened Algo
  import opened Expiration
  import opened Storage
  import opened Dump
  import opened Connectors

  const UNSUPPORTED_ROLE: string := "unsupported node role"
  const WRONG_SHARD_NUMBER: string := "wrong number of shards"

  // ---------------------------------------------------------------------------
  // Role dispatch
  // ---------------------------------------------------------------------------

  /** The procedures a node starts, in the order it starts them. */
  datatype Procedure = StartStorage | StartStorageSlave | DumpUpdater | MasterServer | DumpPuller | FileDumper

  /** No procedure occurs twice. */
  predicate NoRepeats(ps: seq<Procedure>) {
    forall i, j :: 0 <= i < j < |ps| ==> ps[i] != ps[j]
  }

  /**
   * `RunReplicator`'s dispatch on the node role and what each start
   * procedure runs: every role first sets up its store; the master always
   * runs the dump updater and the server, the slave always runs the dump
   * puller, the standalone node runs the updater only when the cache is
   * saved to a file, and every role runs the file dumper exactly when it is.
   * Any other role is fatal.
   */
  function StartPlan(role: string, saveCacheToFile: bool): (r: Result<seq<Procedure>, string>)
    ensures r.Err? <==> role != "standalone" && role != "master" && role != "slave"
    ensures r.Err? ==> r.error == UNSUPPORTED_ROLE
    ensures r.Ok? ==> |r.value| > 0 && NoRepeats(r.value)
    ensures r.Ok? ==> r.value[0] == (if role == "slave" then StartStorageSlave else StartStorage)
    ensures r.Ok? ==> (FileDumper in r.value <==> saveCacheToFile)
    ensures r.Ok? ==> (MasterServer in r.value <==> role == "master")
    ensures r.Ok? ==> (DumpPuller in r.value <==> role == "slave")
    ensures r.Ok? ==> (DumpUpdater in r.value <==> role == "master" || (role == "standalone" && saveCacheToFile))
  {
    var dumper := if saveCacheToFile then [FileDumper] else [];
    if role == "standalone" then Ok([StartStorage] + (if saveCacheToFile then [DumpUpdater] else []) + dumper)
    else if role == "master" then Ok([StartStorage, DumpUpdater, MasterServer] + dumper)
    else if role == "slave" then Ok([StartStorageSlave, DumpPuller] + dumper)
    else Err(UNSUPPORTED_ROLE)
  }

  // ---------------------------------------------------------------------------
  // Snapshots
  // ---------------------------------------------------------------------------

  /** The dump of a shard sequence: each shard's items and queue, in order. */
  ghost function ShardDumps(shards: seq<Shard>): (d: StorageDump)
    reads shards
    ensures |d| == |shards|
    ensures forall i :: 0 <= i < |d| ==>
      d[i].items == shards[i].items && d[i].keyExpiration == shards[i].keyExpiration
  {
    if |shards| == 0 then []
    else ShardDumps(shards[..|shards| - 1]) + [ShardDump(shards[|shards| - 1].items, shards[|shards| - 1].keyExpiration)]
  }

  // ---------------------------------------------------------------------------
  // Slave dump puller: one pass of the loop, as a function
  // ---------------------------------------------------------------------------

  /**
   * What one pass of `runDumpPuller` meets: the answer of GetMasterDump on
   * the current connection, and the outcome of ConnectMaster should this
   * pass reconnect.
   */
  datatype PullInput = PullInput(fetched: Result<Bytes, DumpError>, reconnect: ConnectOutcome)

  /** Why the dump puller stopped the node. */
  datatype PullFailure =
    | FetchFailedAgain(error: DumpError)      // a second fetch failure in a row
    | ReconnectFailed(connect: ConnectOutcome) // ConnectMaster panicked
    | RestoreFailed(restore: RestoreOutcome)    // decoding failed or the shard count differs

  /**
   * The outcome RestoreFromDump has on a store of numShards shards, given
   * what the codec makes of the dump.
   */
  function RestoreResult(decoded: Result<StorageDump, string>, numShards: nat): (r: RestoreOutcome)
    ensures r == Restored <==> decoded.Ok? && |decoded.value| == numShards
  {
    if decoded.Err? then DecodeFailed(decoded.error)
    else if |decoded.value| != numShards then Panic(SHARD_COUNT_MISMATCH)
    else Restored
  }

  /**
   * One pass of `runDumpPuller` on a store of numShards shards: the new
   * reconnect flag and the dump it installed, or why it stopped the node.
   * A failed fetch reconnects once; a failed fetch right after a reconnect
   * is fatal; a fetched dump that restores clears the flag and is installed.
   */
  function PullStep(reconFlag: bool, input: PullInput, deserialize: Bytes -> Result<StorageDump, string>, numShards: nat)
    : (r: Result<(bool, Option<Bytes>), PullFailure>)
    ensures input.fetched.Err? && reconFlag ==> r == Err(FetchFailedAgain(input.fetched.error))
    ensures input.fetched.Err? && !reconFlag ==>
      (r.Ok? <==> input.reconnect.Connected?) && (r.Ok? ==> r.value == (true, None))
    ensures input.fetched.Ok? ==>
      (r.Ok? <==> RestoreResult(deserialize(input.fetched.value), numShards) == Restored)
    ensures input.fetched.Ok? && r.Ok? ==> r.value == (false, Some(input.fetched.value))
    ensures input.fetched.Ok? && r.Err? ==>
      r == Err(RestoreFailed(RestoreResult(deserialize(input.fetched.value), numShards)))
  {
    match input.fetched
    case Err(e) =>
      if reconFlag then Err(FetchFailedAgain(e))
      else if input.reconnect.Connected? then Ok((true, None))
      else Err(ReconnectFailed(input.reconnect))
    case Ok(dump) =>
      var outcome := RestoreResult(deserialize(dump), numShards);
      if outcome == Restored then Ok((false, Some(dump))) else Err(RestoreFailed(outcome))
  }

  /** Where a run of the dump puller stands: its flag, the last dump it installed, and why it stopped. */
  datatype PullerRun = PullerRun(reconFlag: bool, last: Option<Bytes>, failure: Option<PullFailure>)

  /** The dump puller over a run of passes, until the passes run out or one is fatal. */
  function RunPuller(reconFlag: bool, inputs: seq<PullInput>, deserialize: Bytes -> Result<StorageDump, string>,
                     numShards: nat, last: Option<Bytes>): (r: PullerRun)
    ensures r.last.Some? && r.last != last ==> exists i :: 0 <= i < |inputs| && inputs[i].fetched == Ok(r.last.value)
    ensures r.last.Some? && r.last != last ==> RestoreResult(deserialize(r.last.value), numShards) == Restored
    decreases |inputs|
  {
    if |inputs| == 0 then PullerRun(reconFlag, last, None)
    else
      match PullStep(reconFlag, inputs[0], deserialize, numShards)
      case Err(f) => PullerRun(reconFlag, last, Some(f))
      case Ok((flag, pulled)) =>
        var r := RunPuller(flag, inputs[1..], deserialize, numShards, if pulled.Some? then pulled else last);
        assert forall i :: 1 <= i < |inputs| ==> inputs[i] == inputs[1..][i - 1];
        r
  }

  /** Two passes in a row whose fetch failed. */
  predicate FailsTwiceInARow(inputs: seq<PullInput>) {
    exists i :: 0 <= i < |inputs| - 1 && inputs[i].fetched.Err? && inputs[i + 1].fetched.Err?
  }

  /** Every reconnect succeeds and every fetched dump restores. */
  predicate Reliable(inputs: seq<PullInput>, deserialize: Bytes -> Result<StorageDump, string>, numShards: nat) {
    forall i :: 0 <= i < |inputs| ==>
      && inputs[i].reconnect.Connected?
      && (inputs[i].fetched.Ok? ==> RestoreResult(deserialize(inputs[i].fetched.value), numShards) == Restored)
  }

  /**
   * "Reconnect once, then fail": when reconnecting and restoring always
   * work, the puller stops exactly when two fetches in a row fail (or the
   * first fetch fails while the flag is already set), and then it stops for
   * that second failure.
   */
  lemma {:induction false} PullerStopsOnSecondFailure(reconFlag: bool, inputs: seq<PullInput>,
      deserialize: Bytes -> Result<StorageDump, string>, numShards: nat, last: Option<Bytes>)
    requires Reliable(inputs, deserialize, numShards)
    ensures var r := RunPuller(reconFlag, inputs, deserialize, numShards, last);
      r.failure.Some? <==> (reconFlag && |inputs| > 0 && inputs[0].fetched.Err?) || FailsTwiceInARow(inputs)
    ensures var r := RunPuller(reconFlag, inputs, deserialize, numShards, last);
      r.failure.Some? ==> r.failure.value.FetchFailedAgain?
    decreases |inputs|
  {
    if |inputs| > 0 {
      var step := PullStep(reconFlag, inputs[0], deserialize, numShards);
      if step.Ok? {
        var (flag, pulled) := step.value;
        var tail := inputs[1..];
        assert Reliable(tail, deserialize, numShards) by {
          forall i | 0 <= i < |tail| ensures tail[i] == inputs[i + 1] { }
        }
        PullerStopsOnSecondFailure(flag, tail, deserialize, numShards, if pulled.Some? then pulled else last);
        FailsTwiceInARowTail(inputs);
      }
    }
  }

  /** Two failures in a row happen in the first two passes or in the passes after the first. */
  lemma FailsTwiceInARowTail(inputs: seq<PullInput>)
    requires |inputs| > 0
    ensures FailsTwiceInARow(inputs) <==>
      (|inputs| > 1 && inputs[0].fetched.Err? && inputs[1].fetched.Err?) || FailsTwiceInARow(inputs[1..])
  {
    var tail := inputs[1..];
    if FailsTwiceInARow(inputs) {
      var i :| 0 <= i < |inputs| - 1 && inputs[i].fetched.Err? && inputs[i + 1].fetched.Err?;
      if i > 0 {
        assert tail[i - 1] == inputs[i] && tail[i] == inputs[i + 1];
      }
    }
    if FailsTwiceInARow(tail) {
      var i :| 0 <= i < |tail| - 1 && tail[i].fetched.Err? && tail[i + 1].fetched.Err?;
      assert inputs[i + 1] == tail[i] && inputs[i + 2] == tail[i + 1];
    }
  }

  // ---------------------------------------------------------------------------
  // The replicator
  // ---------------------------------------------------------------------------

  /** Why a slave could not start. */
  datatype SlaveStartFailure =
    | NoMaster(outcome: ConnectOutcome)   // ConnectMaster panicked
    | DumpNotFetched(error: DumpError)    // GetMasterDump failed
    | StoreNotBuilt(message: string)      // building the store from the dump failed

  /** `Replicator`: the cached dump and the store it serves, with the node's replication settings. */
  class Replicator {
    var cacheDump: Bytes
    var store: ConcurrentMap?
    const dumpFile: string
    const masterAddr: string
    const masterSecretHash: Bytes

    /** The replicator `RunReplicator` starts from: no dump cached and no store yet. */
    constructor (dumpFile: string, masterAddr: string, masterSecretHash: Bytes)
      ensures this.dumpFile == dumpFile && this.masterAddr == masterAddr
      ensures this.masterSecretHash == masterSecretHash
      ensures cacheDump == [] && store == null
    {
      this.dumpFile := dumpFile;
      this.masterAddr := masterAddr;
      this.masterSecretHash := masterSecretHash;
      cacheDump := [];
      store := null;
    }

    /**
     * `startStorage`: the store built from the cache file, when restoring
     * is enabled and both reading the file and building the store from it
     * succeed; otherwise a new empty store of numShards shards, which is
     * fatal when numShards is out of range.
     */
    method StartStorage(restoreFromFile: bool, fileRead: Result<Bytes, string>,
                        fromDump: Result<ConcurrentMap, string>, numShards: int)
      returns (failure: Option<string>)
      modifies this
      ensures cacheDump == old(cacheDump)
      ensures restoreFromFile && fileRead.Ok? && fromDump.Ok? ==> failure == None && store == fromDump.value
      ensures !(restoreFromFile && fileRead.Ok? && fromDump.Ok?) ==>
        (failure.Some? <==> numShards < 1 || numShards > MAX_SHARDS)
      ensures failure.Some? ==> failure.value == WRONG_SHARD_NUMBER && store == old(store)
      ensures !(restoreFromFile && fileRead.Ok? && fromDump.Ok?) && failure.None? ==>
        && store != null && fresh(store) && store.Valid() && |store.shards| == numShards
        && forall k :: store.Get(k) == None
    {
      if restoreFromFile && fileRead.Ok? && fromDump.Ok? {
        store := fromDump.value;
        return None;
      }
      var made := MakeStorageEmpty(numShards);
      if made.Err? {
        return Some(made.error);
      }
      store := made.value;
      failure := None;
    }

    /**
     * `startStorageSlave`: connect to the master, fetch its dump and build
     * the store from it; a failure at any of the three is fatal and leaves
     * the replicator as it was.
     */
    method StartStorageSlave(connect: ConnectOutcome, fetched: Result<Bytes, DumpError>,
                             built: Result<ConcurrentMap, string>)
      returns (failure: Option<SlaveStartFailure>)
      modifies this
      ensures cacheDump == old(cacheDump)
      ensures !connect.Connected? ==> failure == Some(NoMaster(connect))
      ensures connect.Connected? && fetched.Err? ==> failure == Some(DumpNotFetched(fetched.error))
      ensures connect.Connected? && fetched.Ok? && built.Err? ==> failure == Some(StoreNotBuilt(built.error))
      ensures failure.None? <==> connect.Connected? && fetched.Ok? && built.Ok?
      ensures failure.None? ==> store == built.value
      ensures failure.Some? ==> store == old(store)
    {
      if !connect.Connected? {
        return Some(NoMaster(connect));
      }
      if fetched.Err? {
        return Some(DumpNotFetched(fetched.error));
      }
      if built.Err? {
        return Some(StoreNotBuilt(built.error));
      }
      store := built.value;
      failure := None;
    }

    /**
     * One pass of `runDumpUpdater`: dump the store and serialize the dump;
     * the cached dump becomes the serialized bytes on success and stays as
     * it was on error. The store is only read.
     */
    method UpdateDump(serialize: StorageDump -> Result<Bytes, string>) returns (ok: bool)
      requires store != null
      modifies this
      ensures store == old(store)
      ensures ok <==> serialize(ShardDumps(store.shards)).Ok?
      ensures ok ==> cacheDump == serialize(ShardDumps(store.shards)).value
      ensures !ok ==> cacheDump == old(cacheDump)
    {
      var d := DumpStorage(store);
      assert d == ShardDumps(store.shards);
      var encoded := serialize(d);
      if encoded.Err? {
        return false;
      }
      cacheDump := encoded.value;
      ok := true;
    }

    /**
     * One pass of `runDumpPuller`'s loop, as PullStep describes it: on a
     * failed fetch, reconnect (once) or give up; on a fetched dump, restore
     * the store from it and cache it. Unless the pass installs a dump, the
     * cached dump and the store's contents stay as they were.
     */
    method PullOnce(reconFlag: bool, input: PullInput, deserialize: Bytes -> Result<StorageDump, string>)
      returns (step: Result<(bool, Option<Bytes>), PullFailure>)
      requires store != null && store.Shaped()
      modifies this, store.shards
      ensures store == old(store)
      ensures step == PullStep(reconFlag, input, deserialize, |store.shards|)
      ensures step.Ok? && step.value.1.Some? ==>
        && cacheDump == step.value.1.value
        && deserialize(cacheDump).Ok? && ShardDumps(store.shards) == deserialize(cacheDump).value
      ensures !(step.Ok? && step.value.1.Some?) ==>
        cacheDump == old(cacheDump) && ShardDumps(store.shards) == old(ShardDumps(store.shards))
    {
      if input.fetched.Err? {
        if reconFlag {
          return Err(FetchFailedAgain(input.fetched.error));
        }
        if !input.reconnect.Connected? {
          return Err(ReconnectFailed(input.reconnect));
        }
        return Ok((true, None));
      }
      var dump := input.fetched.value;
      var outcome := RestoreFromDump(store, deserialize(dump));
      if !outcome.Restored? {
        return Err(RestoreFailed(outcome));
      }
      cacheDump := dump;
      step := Ok((false, Some(dump)));
    }

    /**
     * `runDumpPuller` over a run of passes, starting with the reconnect
     * flag down: the passes follow RunPuller; afterwards the cached dump is
     * the last one installed and the store holds its contents, or, when
     * none was, both are as they were.
     */
    method RunDumpPuller(inputs: seq<PullInput>, deserialize: Bytes -> Result<StorageDump, string>)
      returns (failure: Option<PullFailure>)
      requires store != null && store.Shaped()
      modifies this, store.shards
      ensures store == old(store)
      ensures failure == RunPuller(false, inputs, deserialize, |store.shards|, None).failure
      ensures var last := RunPuller(false, inputs, deserialize, |store.shards|, None).last;
        && (last.None? ==> cacheDump == old(cacheDump) && ShardDumps(store.shards) == old(ShardDumps(store.shards)))
        && (last.Some? ==> cacheDump == last.value && deserialize(last.value).Ok?
                           && ShardDumps(store.shards) == deserialize(last.value).value)
    {
      ghost var n := |store.shards|;
      ghost var last: Option<Bytes> := None;
      var reconFlag := false;
      var i := 0;
      while i < |inputs|
        invariant 0 <= i <= |inputs|
        invariant store == old(store) && n == |store.shards|
        invariant RunPuller(false, inputs, deserialize, n, None) == RunPuller(reconFlag, inputs[i..], deserialize, n, last)
        invariant last.None? ==> cacheDump == old(cacheDump) && ShardDumps(store.shards) == old(ShardDumps(store.shards))
        invariant last.Some? ==> cacheDump == last.value && deserialize(last.value).Ok?
                                 && ShardDumps(store.shards) == deserialize(last.value).value
      {
        var step := PullOnce(reconFlag, inputs[i], deserialize);
        assert inputs[i..][1..] == inputs[i + 1..];
        if step.Err? {
          return Some(step.error);
        }
        reconFlag := step.value.0;
        if step.value.1.Some? {
          last := step.value.1;
        }
        i := i + 1;
      }
      return None;
    }
  }
}
