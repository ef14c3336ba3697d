# gcache core, modelled in Dafny

gcache is an in-memory key/value cache with master/slave replication and a
REST client interface. This project models its core and proves properties
about the model:

- **Sharded store** (`storage/core.go`). Keys are byte strings and values
  are byte slices. A key's shard is chosen by its FNV-1a 64-bit hash modulo
  the shard count. Each shard keeps an item map and an expiration queue, a
  binary min-heap ordered by expiry time (`storage/key_expiration.go`).
  `Set` records expiries with the queue's own `InsertKey`, as written, so a
  re-inserted key can leave the queue out of heap order (see Findings).
  Keys longer than 2048 bytes and values larger than 10 MiB are refused.
- **Snapshots** (`storage/dump.go`). A dump is one copy of each shard's
  items and queue, in shard order. Restoring a dump replaces every shard's
  contents; a dump with the wrong shard count is refused.
- **Replication protocol** (`replicator/connectors.go`). Each service
  message is a 4-byte big-endian length, a type byte and a payload. The
  master authorises a slave by its secret hash and then answers every dump
  request with its cached dump. The slave dials the master up to 10 times,
  waiting an exponential backoff between dials.
- **Replicator** (`replicator/replicator.go`). It starts the procedures for
  the node's role (standalone, master or slave) and builds the store. It
  also refreshes the cached dump and runs the slave's dump puller, which
  reconnects once after a failed fetch and gives up on the second failure
  in a row.
- **REST front end** (`client_rest/routing.go`, `client_rest/handlers.go`).
  Route paths are built from the configured prefix, and a slave node does
  not register the routes that change data. The item and key handlers
  validate each request in a fixed order and answer with an HTTP status
  and a client error code.
- **Helpers** (`utils/algo.go`): the FNV-1a hash, fast integer power with
  int64 wrap-around, and slice and map comparisons.

Files: `wrappers.dfy` (Option and Result), `algo.dfy`, `expiration.dfy`,
`storage.dfy`, `dump.dfy`, `connectors.dfy`, `replicator.dfy`,
`routing.dfy` and `handlers.dfy`. Each holds one module, and each module
follows one source file.

Modelling choices:

- Go's `int` is 64-bit two's complement. Where wrap-around matters (`Pow`,
  `backoff`), it is written out with `Algo.Int64`.
- The FNV hash runs on `bv64`.
- Time is the `now` parameter, in nanoseconds.
- A peer's byte stream is a `seq<byte>` plus a flag saying whether the peer
  closed it. A read past the end is a timeout on an open stream and an
  end-of-file on a closed one.
- Dialling, authorisation exchanges, fetched dumps, decoded dumps and
  stores built from dumps are taken as parameters, because they come from
  the network, from gob or from code outside this model.
- Shards and the replicator are classes whose fields the methods update.
  The expiration queue is a `seq` value that the queue methods take and
  return, just as the Go methods reassign `*q`.

Where the written description of the system and the code differ, the
model follows the code:

- `ConnectMaster` panics, instead of retrying, when the authorisation
  request cannot be sent or its reply cannot be read after a successful
  dial (replicator/connectors.go:24-31).
- `handleSlaveConn` sends no `AUTH_DENY` when the first message cannot be
  received; it only returns (replicator/connectors.go:73-77).
- The store's `Set` takes a TTL but does not validate it. Only the REST
  handler bounds it.

## Model

| member | source | states |
|---|---|---|
| Algo.Int64 | utils/algo.go:25-35 | the int64 two's-complement value congruent to x modulo 2^64, Go's wrap-around for int arithmetic |
| Algo.PowerAdd | utils/algo.go:25-35 | a^(m+n) = a^m · a^n, the law behind square-and-multiply |
| Algo.PowerOfProduct | utils/algo.go:25-35 | (a·b)^n = a^n · b^n |
| Algo.Pow | utils/algo.go:25-35 | `Pow` returns PowResult: 1 for a non-positive exponent, and otherwise a^b wrapped to int64 |
| Algo.PowExamples | utils/algo_test.go:23-41 | the power table of the helper test: 0^0=1, 0^1=0, (-1)^0=1, 1^0=1, 1^300=1, 2^2=4, 3^3=27, 2^10=1024 |
| Algo.FnvFoldConcat | utils/algo.go:14-22 | hashing a + b continues from the running hash of a |
| Algo.FnvKnownValues | utils/algo.go:7-22 | the hash of the empty key is the 64-bit FNV offset basis, and the hash of "a" is 0xaf63dc4c8601ec8c |
| Algo.FnvSum64 | utils/algo.go:14-22 | the byte loop computes the FNV-1a 64-bit hash of the key |
| Algo.CompareByteSlices | utils/algo.go:51-61 | true exactly when the two slices are equal |
| Algo.CompareStringByteMaps | utils/algo.go:38-49 | true exactly when the two maps are equal |
| Algo.FindInSliceString | utils/algo.go:63-70 | true exactly when p occurs in s |
| Algo.LexLeTotal | utils/algo.go:72-84 | byte-wise string order is total |
| Algo.LexLeAntisymmetric | utils/algo.go:72-84 | byte-wise string order is antisymmetric |
| Algo.LexLeTransitive | utils/algo.go:72-84 | byte-wise string order is transitive |
| Algo.Insert | utils/algo.go:72-84 | insertion adds exactly one copy of x |
| Algo.InsertSorted | utils/algo.go:72-84 | inserting into a sorted list keeps it sorted |
| Algo.SortStrings | utils/algo.go:72-84 | the reference sort is a permutation of its input |
| Algo.SortStringsSorted | utils/algo.go:72-84 | the reference sort's result is sorted |
| Algo.SortedUnique | utils/algo.go:72-84 | two sorted permutations of the same multiset are equal, so any correct sort agrees with the reference |
| Algo.SortInPlace | utils/algo.go:72-84 | `sort.Strings` leaves the array sorted and a permutation of its old contents |
| Algo.CompareStringSlicesUnordered | utils/algo.go:72-84 | true exactly when the two slices hold the same multiset of strings; both are left sorted |
| Expiration.CountKeyConcat | storage/key_expiration.go:13-18 | the number of entries for a key adds up over concatenation |
| Expiration.CountKeyZero | storage/key_expiration.go:13-18 | no entry for a key exactly when its count is zero |
| Expiration.HeapRootIsMin | storage/key_expiration.go:24-27 | in a heap the root has the lowest expiry |
| Expiration.Swap | storage/key_expiration.go:29-31 | exchanges positions i and j and keeps the multiset |
| Expiration.Push | storage/key_expiration.go:33-35 | appends the entry at the end |
| Expiration.Pop | storage/key_expiration.go:37-43 | removes the last entry and returns it |
| Expiration.NewExpireQueue | storage/key_expiration.go:47-51 | an empty queue, which is a heap |
| Expiration.HeapPush | storage/key_expiration.go:57 | `heap.Push` adds the entry, keeps heap order, and leaves it at the end when it is not below its parent |
| Expiration.HeapPop | storage/key_expiration.go:72 | `heap.Pop` returns the root and keeps heap order, and no remaining entry expires earlier |
| Expiration.HeapRemove | storage/key_expiration.go:90-102 | removing position i the container/heap way keeps heap order and the other entries |
| Expiration.WithoutFirstCount | storage/key_expiration.go:90-102 | dropping the first entry for a key lowers its count by one |
| Expiration.WithoutFirstMultiset | storage/key_expiration.go:90-102 | dropping the first entry for a key removes exactly that entry |
| Expiration.RemoveExisting | storage/key_expiration.go:90-102 | `removeExisting` shifts out the first entry for the key and keeps the rest in order |
| Expiration.InsertKey | storage/key_expiration.go:53-58 | as written: one entry per key, expiry now + ttl, other keys' counts unchanged; heap order kept only for a new key |
| Expiration.RemoveExistingHeapSafe | storage/key_expiration.go:90-102 | the corrected removal: same entries as `removeExisting`, and heap order kept |
| Expiration.InsertKeyHeapSafe | storage/key_expiration.go:53-58 | the corrected insert: the same entries as `InsertKey`, and heap order kept for every key |
| Expiration.GetExpiredKeys | storage/key_expiration.go:61-87 | pops exactly the entries expired before now, in expiry order; found iff any; the rest are all live and still a heap |
| Expiration.InsertThreeKeys | storage/key_expiration_test.go:11-17 | three inserts give a heap holding exactly the three entries |
| Expiration.PopOrderScenario | storage/key_expiration_test.go:11-28 | keys with TTLs 20s, 30s and 10s pop as key3, key1, key2 |
| Expiration.SweepScenario | storage/key_expiration_test.go:30-55 | a sweep before any expiry reports nothing; a later sweep reports key1 then key3 |
| Expiration.ReinsertMissesExpiredKey | storage/key_expiration.go:90-102 | re-inserting a key with `InsertKey` can break heap order, and a later sweep then misses an expired key |
| Expiration.ReinsertKey1 | storage/key_expiration.go:53-58 | the queue `InsertKey` produces in that scenario |
| Expiration.ReinsertHeapSafeReportsExpiredKey | storage/key_expiration.go:53-102 | the same scenario with `InsertKeyHeapSafe` keeps heap order, and the sweep reports the expired key |
| Expiration.ReinsertKey1HeapSafe | storage/key_expiration.go:53-58 | the corrected re-insert yields a heap with the expected entries |
| Storage.ShardIndex | storage/core.go:133-138 | the shard index is below the shard count |
| Storage.ShardInvariantAfterSet | storage/core.go:69-79 | storing a key whose new queue is what `InsertKey` gives (one entry for the key, other counts unchanged) keeps the shard invariant: one queue entry per key, and one for every stored key |
| Storage.Shard.ShardKeys | storage/core.go:154-164 | every key of the shard exactly once |
| Storage.Shard.Put | storage/core.go:69-79 | the shard part of `Set` with `InsertKey` as written: the item is stored; the key has one queue entry expiring at now + ttl, replacing its old entry; other keys' entries are kept; heap order is kept only when the key was not in the queue |
| Storage.Shard.Delete | storage/core.go:81-89 | the shard part of `Remove`: the key leaves the items and the queue is untouched |
| Storage.ConcurrentMap.GetShard | storage/core.go:133-152 | no shard for a key over KEY_MAX_LEN; otherwise the hash-selected shard |
| Storage.ConcurrentMap.Get | storage/core.go:57-67 | in a valid store, a value is found exactly when some shard holds the key, and it is that shard's value |
| Storage.ConcurrentMap.Set | storage/core.go:69-79 | succeeds iff the key and value are within limits; then the key reads back its value and has exactly one queue entry, expiring at now + ttl, which replaces its old entry; the other keys' entries in that queue are kept, and other keys and shards are unchanged; the store stays valid (one queue entry per key, not heap order) |
| Storage.ConcurrentMap.Remove | storage/core.go:81-89 | the key reads as absent afterwards; no other key or queue changes; the store stays valid |
| Storage.ConcurrentMap.Keys | storage/core.go:91-128 | exactly the stored keys, each once |
| Storage.ConcurrentMap.KeysOfShardsUpTo | storage/core.go:91-128 | appending shard i's keys gives the keys of the first i + 1 shards |
| Storage.ConcurrentMap.KeysOfOtherShards | storage/core.go:91-128 | keys of different shards never repeat |
| Storage.MakeStorageEmpty | storage/core.go:34-46 | an error "wrong number of shards" iff the count is outside 1..4096; otherwise a valid store with that many empty shards |
| Dump.DumpLookup | storage/dump.go:8-12 | on a valid dump, a key is found exactly when some shard dump holds it |
| Dump.CopyShardItems | storage/dump.go:60-66 | the copy equals the shard's item map |
| Dump.CopyShardKeyExp | storage/dump.go:68-77 | the copy equals the shard's queue, entry by entry |
| Dump.DumpStorage | storage/dump.go:15-31 | one shard dump per shard, in order, holding that shard's items and queue; a valid store gives a valid dump that answers every lookup as the store does |
| Dump.DumpOfValidStore | storage/dump.go:15-31 | the dump of a valid store is valid and agrees with Get |
| Dump.RestoreFromDump | storage/dump.go:35-58 | a decode error or a shard-count mismatch changes nothing; otherwise every shard takes the dump's contents, every lookup agrees with the dump, and a valid dump gives a valid store |
| Dump.DumpRemoveRestore | storage/core_test.go:90-133 | dump, remove keys, restore: every key reads as before |
| Connectors.BigEndian32 | replicator/connectors.go:180-185 | a 4-byte prefix reads as a number below 2^32 |
| Connectors.Uint32Bytes | replicator/connectors.go:153-159 | writing the length and reading it back gives the same number |
| Connectors.Uint32BytesOfBigEndian | replicator/connectors.go:153-185 | reading 4 bytes and writing them back gives the same bytes |
| Connectors.EncodeMsg | replicator/connectors.go:153-173 | `SendMsg` writes the payload length + 1 as a big-endian 32-bit length, then the type byte, then the payload |
| Connectors.ReceiveMsg | replicator/connectors.go:175-208 | a received message took its header and payload from the stream |
| Connectors.ReceivedIsEncoding | replicator/connectors.go:175-208 | what was received is exactly the encoding of the message at the head of the stream |
| Connectors.ReceiveNeverTooLarge | replicator/connectors.go:187-188 | the length-limit branch can never fire, since a 32-bit length cannot exceed MAX_MSG_SIZE |
| Connectors.ReceiveRejects | replicator/connectors.go:180-191 | fewer than 5 bytes is an error, and a zero length gives "wrong message length" |
| Connectors.ReceiveSent | replicator/connectors.go:153-208 | receiving the encoding of a message whose payload is below the limit gives that message back |
| Connectors.PayloadAtLimitUnreadable | replicator/connectors.go:155-190 | a payload of exactly MAX_MSG_SIZE bytes wraps its length to 0 and is refused as "wrong message length" |
| Connectors.ReceiveTruncated | replicator/connectors.go:182-205 | a cut-off message gives a timeout on an open stream, and EOF or unexpected EOF, by where it was cut, on a closed one |
| Connectors.Backoff | replicator/connectors.go:213-219 | as written: never more than maxWait |
| Connectors.BackoffSaturating | replicator/connectors.go:213-219 | the corrected backoff: never more than maxWait, never negative for a non-negative maxWait, and 0 before the first retry |
| Connectors.BackoffSaturatingMonotone | replicator/connectors.go:213-219 | the corrected wait never shrinks as attempts go on |
| Connectors.BackoffAgreesBelowOverflow | replicator/connectors.go:213-219 | up to attempt 33 the written and corrected backoffs agree |
| Connectors.BackoffExamples | replicator/connectors_test.go:11-24 | the backoff test table: 0, 1s, 7s and a 60s cap for attempts 0, 1, 3 and 10 |
| Connectors.BackoffOverflows | replicator/connectors.go:214 | at attempt 64 the written backoff is −1 s, while the corrected one is the 60 s cap |
| Connectors.Respond | replicator/connectors.go:102-115 | a dump request is answered with the dump; anything else gets an error message "unsupported command" |
| Connectors.Responses | replicator/connectors.go:89-116 | one reply per request, in order |
| Connectors.Requests | replicator/connectors.go:89-100 | the serving loop never stops on a too-large length |
| Connectors.RequestsOfSent | replicator/connectors.go:89-116 | a stream of encoded requests is read back as exactly those requests, ending in EOF if the slave closed, or a timeout otherwise |
| Connectors.Session | replicator/connectors.go:71-118 | a receive error on the first message gives no reply and ends the session with that error; a first message that is not an AUTH_REQ with the secret hash gets exactly AUTH_DENY; otherwise AUTH_OK, then reply i answers request i, and the receive error after the last request decides how the session ends |
| Connectors.HandleSlaveConn | replicator/connectors.go:71-118 | the handler's replies and ending are those of Session |
| Connectors.ServeRequests | replicator/connectors.go:89-116 | the serving loop answers each request in order and ends with the receive error |
| Connectors.RequestsCons | replicator/connectors.go:89-100 | the request list is the first message followed by the requests read after it |
| Connectors.ResponsesAppend | replicator/connectors.go:89-116 | replies to one more request extend the reply list by its answer |
| Connectors.SessionServesDump | replicator/connectors_test.go:26-54 | an authorised slave asking for the dump gets AUTH_OK then the dump |
| Connectors.SessionDeniesWrongHash | replicator/connectors.go:78-81 | a wrong secret hash gets AUTH_DENY only |
| Connectors.GetMasterDump | replicator/connectors.go:50-69 | a send failure or a receive error is returned as such; a DUMP reply gives its payload, and only it succeeds; an ERR reply gives an error carrying its text; any other type gives "unexpected master response" |
| Connectors.GetMasterDumpFromSession | replicator/connectors.go:50-69 | the master's reply to a dump request gives the slave that dump; any other request gets the master's "unsupported command" |
| Connectors.AuthOutcome | replicator/connectors.go:28-42 | connected iff the reply is AUTH_OK; authorisation failure iff it is AUTH_DENY |
| Connectors.FirstDialled | replicator/connectors.go:19-22 | the first successful dial attempt at or after `from`, or 10 when there is none |
| Connectors.ConnectMaster | replicator/connectors.go:18-48 | gives up after 10 failed dials; otherwise the first successful dial's exchange decides; waits follow `backoff` as written for attempts 0, 1, …, which there equals the corrected backoff and is never negative; a connection reports 1 to 10 attempts |
| Connectors.ConnectScenario | replicator/connectors.go:18-48 | two failed dials, then AUTH_OK: connected on attempt 3 after waits of 0 and 1 s |
| Replicator.StartPlan | replicator/replicator.go:44-83 | an unsupported role is an error; a slave starts from the master's dump, the others from storage; the file dumper runs iff saving is configured; the master server only on a master, the puller only on a slave, the dump updater on a master or on a standalone node that saves |
| Replicator.ShardDumps | storage/dump.go:15-31 | the snapshot of the shards, one shard dump each |
| Replicator.RestoreResult | storage/dump.go:35-58 | restore succeeds exactly when decoding succeeds with the store's shard count |
| Replicator.PullStep | replicator/replicator.go:166-191 | one pull: a failed fetch reconnects once, and a second failure in a row stops the puller; a fetched dump is installed iff it restores, and a failed restore stops it |
| Replicator.RunPuller | replicator/replicator.go:161-195 | a newly installed dump was fetched and restores |
| Replicator.PullerStopsOnSecondFailure | replicator/replicator.go:166-178 | when every fetched dump restores, the puller stops iff two fetches fail in a row, and then with the fetch error |
| Replicator.Replicator.constructor | replicator/replicator.go:39-42 | the dump file, master address and secret hash are set; no store and no cached dump yet |
| Replicator.Replicator.StartStorage | replicator/replicator.go:85-107 | with restore configured, a readable file and a built store, that store is used; otherwise an empty store with the configured shard count, failing iff the count is out of range |
| Replicator.Replicator.StartStorageSlave | replicator/replicator.go:109-122 | fails at the first of: no master, no dump, store not built; otherwise installs the built store |
| Replicator.Replicator.UpdateDump | replicator/replicator.go:127-141 | a successfully serialised snapshot becomes the cached dump; otherwise the cached dump is kept |
| Replicator.Replicator.PullOnce | replicator/replicator.go:166-191 | takes the step PullStep describes; an installed dump becomes the cached dump and the shards' contents; otherwise nothing changes |
| Replicator.Replicator.RunDumpPuller | replicator/replicator.go:161-195 | stops as RunPuller says; the cached dump and the shards hold the last installed dump, or are unchanged if none was installed |
| Routing.SkipSpace | client_rest/routing.go:52 | the index reached from a start point is past only white space and stops at the first other character or the end |
| Routing.SkipSpaceBack | client_rest/routing.go:52 | the index reached walking back from an end is past only white space and stops after the last other character or at the lower bound |
| Routing.Trimmed | client_rest/routing.go:52 | the cut keeps only white space outside it, and the kept part neither starts nor ends with white space |
| Routing.TrimSpace | client_rest/routing.go:52 | `strings.TrimSpace`: the result neither starts nor ends with white space, and it is empty exactly when the route is all white space |
| Routing.TrimBoundsUnique | client_rest/routing.go:52 | any cut with only white space outside and non-space ends gives the trimmed string, so the trim is unique |
| Routing.TrimBare | client_rest/routing.go:52 | a route that neither starts nor ends with white space is its own trim |
| Routing.TrimBoundsAround | client_rest/routing.go:52 | the cut of a route, shifted past added leading white space, is a cut of the padded route |
| Routing.TrimShifted | client_rest/routing.go:52 | two strings whose cuts keep the same characters trim to the same string |
| Routing.MiddleSlice | client_rest/routing.go:52 | a part of the route is recovered unchanged from the padded route |
| Routing.TrimSpaceAround | client_rest/routing.go:52 | white space added around a route does not change its trimmed form |
| Routing.Join | client_rest/routing.go:58 | `strings.Join`: no elements give "", one gives itself, two give a + sep + b, three give a + sep + b + sep + c (the shapes the route builder uses) |
| Routing.JoinSnoc | client_rest/routing.go:58 | joining one more element appends sep and that element, for any non-empty list |
| Routing.SupplementRouteShape | client_rest/routing.go:50-59 | an empty or "/" trimmed route gives "/" + prefix; any other gives "/" + prefix + "/" + trimmed route |
| Routing.SupplementRouteRecoversRoute | client_rest/routing.go:50-59 | a non-trivial route can be read back from the full path after "/" + prefix + "/" |
| Routing.SupplementRouteIgnoresSpace | client_rest/routing.go:52 | white space around the route does not change the path |
| Routing.SupplementBareRoute | client_rest/routing.go:55-58 | a route with no surrounding white space is appended as is |
| Routing.SupplementRouteExamplesEmpty | client_rest/routing_test.go:17-22 | "" and "/" give "/" + prefix |
| Routing.SupplementRouteExamplesSpace | client_rest/routing_test.go:19-21 | white-space-only routes give "/" + prefix |
| Routing.SupplementRouteExamplesKey | client_rest/routing_test.go:25-27 | " key " and "key\r\n" give "/" + prefix + "/key" |
| Routing.SupplementRouteExampleTwoSegments | client_rest/routing_test.go:28 | "key/op" gives "/" + prefix + "/key/op" |
| Routing.Kept | client_rest/routing.go:75-79 | a route is registered iff it is in the table and not skipped for the role |
| Routing.Register | client_rest/routing.go:73-94 | one registration per kept route, in order, with its method, name and supplemented path |
| Routing.SlaveRoutes | client_rest/routing.go:25-79 | a slave registers GetItem and GetKeys only |
| Routing.KeptAll | client_rest/routing.go:75-79 | when no route is skipped for the role, every route is kept, in order |
| Routing.OtherRoleRoutes | client_rest/routing.go:25-79 | every other role registers all four routes |
| Handlers.BadRequest | client_rest/handlers.go:144-153 | an error record with status 400 and the given code and reason |
| Handlers.ResourceNotFound | client_rest/handlers.go:16-27 | status 404 with code 1 |
| Handlers.SetCheck | client_rest/handlers.go:84-94 | no rejection iff the key and value are non-empty and the TTL is in [5, 18748800]; every rejection is a 400 error |
| Handlers.SetItemReply | client_rest/handlers.go:74-102 | an undecodable body is BAD_REQ; 201 with the request echoed iff the request is acceptable and the store took it; every other answer is a 400 error |
| Handlers.SetValidationOrder | client_rest/handlers.go:84-101 | the error code is the first failing check, in the order key, value, TTL, then CANNOT_SET_KEY when the store refuses a valid item |
| Handlers.SetItemExamples | client_rest/integration_test.go:62-87 | no key, no value, no TTL, TTL 2 and TTL 20000000 are rejected with the expected codes; both TTL bounds are accepted |
| Handlers.SetItemHandler | client_rest/handlers.go:74-102 | answers as SetItemReply, with the store taking the item iff its key and value are within limits; on 201 the key reads back its value; otherwise nothing changes; other keys never change |
| Handlers.FoundItem | client_rest/handlers.go:46-71 | the answered item carries the key, the selector used and the value |
| Handlers.GetItemHandler | client_rest/handlers.go:29-72 | BAD_REQ for an undecodable body, NO_KEY_PROVIDED for an empty key; 200 iff the lookup finds a value, and NO_VALUE_FOUND with 400 otherwise |
| Handlers.SubKeyTakesPrecedence | client_rest/handlers.go:46-54 | with a sub-key, the sub-index and the list lookup make no difference |
| Handlers.SubIndexIsOneBased | client_rest/handlers.go:54-62 | sub-index i reads list element i − 1 and echoes i |
| Handlers.GetWholeValue | client_rest/handlers.go:63-71 | with no selector, the answer is what the store's Get finds, or NO_VALUE_FOUND |
| Handlers.RemoveItemReply | client_rest/handlers.go:104-123 | BAD_REQ, NO_KEY_PROVIDED for an empty key, and otherwise 204 with no body |
| Handlers.RemoveItemHandler | client_rest/handlers.go:104-123 | on 204 the key is gone; a rejected request changes nothing; other keys never change |
| Handlers.ItemLifeCycle | client_rest/integration_test.go:24-60 | set, get, remove, get: 201 with the item, 200 with its value, 204, then NO_VALUE_FOUND |
| Handlers.GetKeysHandler | client_rest/handlers.go:125-140 | an undecodable body or an empty mask lists every stored key once, under "*"; otherwise the mask's answer, or BAD_KEY_MASK when the mask is refused |

## Left out

- Shard locks, the replicator's mutex and goroutines are left out. Each operation runs to completion on its own, and the background loops are modelled as loops over their inputs.
- gob encoding and decoding of dumps (storage/dump.go:79-91) is left out. DumpStorage returns the dump value; restore receives the decoding result; the dump updater and puller receive the serialise and deserialise functions.
- SHA-256 of the master secret (`getSecretHash`) is left out. The secret hash is a byte parameter.
- Sockets, deadlines and `time.Sleep` are left out. Streams are byte sequences, dials and exchanges are inputs, and backoff waits are returned instead of slept.
- JSON decoding and encoding of REST requests and responses is left out. Handlers take the decoded request, or None when the body cannot be decoded.
- `GetDictItem` and `GetListItem` parse stored JSON and are taken as lookup functions.
- The store's `KeysMask` is not part of the modelled store, so its answer is a parameter of `GetKeysHandler`.
- `MakeStorageFromDump` in storage/core.go:49-55 is a stub, and its caller passes arguments the stub does not take. Where the replicator builds a store from a dump, the outcome is a parameter.
- `BootstrapStorage` and the snapshot readers (storage/core.go:169-207) are left out: they only wire file and network reads into the store constructors.
- `runFileDumper` (file writes) and `runMasterServer` (listen/accept) are left out. Each accepted connection is `HandleSlaveConn`.
- Configuration loading, logging, `main.go`, HTTP serving and the mux router itself are left out. `Register` lists the registrations that `NewRouter` makes.
- Send failures inside `handleSlaveConn` are left out: they are only logged there. The cached dump is taken as fixed for the length of one session.
- A panic is modelled as a returned failure value (`RestoreOutcome.Panic`, `ConnectOutcome`, `PullFailure`, `SlaveStartFailure`).
- Routing.TrimSpace: only the ASCII white space of `strings.TrimSpace` is modelled (space, tab, newline, carriage return, vertical tab, form feed). U+0085, U+00A0 and the other Unicode spaces are not.
- Handlers.GetKeysHandler: the keys of a mask query are passed through as given, because glob matching is not in the modelled store.
- Storage.ConcurrentMap.Keys: the order of the result is not stated; the source promises none.
- Expiration.GetExpiredKeys: `now` is a parameter instead of the clock, and expiry times are unbounded integers, not int64 nanoseconds.
- Expiration.InsertKey: the expiry now + ttl is an unbounded integer; the int64 wrap of `time.Now().Add(ttl).UnixNano()` for TTLs of centuries is not modelled.
- Storage.Shard.Put: the same unbounded expiry now + ttl as Expiration.InsertKey, with no int64 wrap.
- Storage.ConcurrentMap.Set: the same unbounded expiry now + ttl as Expiration.InsertKey, with no int64 wrap.

## Findings

| source | as written | input that shows it | evidently intended | confidence | as-written member | corrected member |
|---|---|---|---|---|---|---|
| storage/key_expiration.go:90-102 | `removeExisting` deletes the old entry by shifting the rest of the slice left, which does not keep heap order; `InsertKey` then only sifts the new entry up | queue [key1@1, key2@5, key3@2]; re-insert key1 with expiry 100; the queue becomes [key2@5, key3@2, key1@100]; a sweep at time 3 stops at key2 and misses key3, which expired at 2 | remove the old entry with `heap.Remove`, so the queue stays a heap and every expired key is reported; the store's `Set` keeps the as-written insert, because no store operation sweeps its queues | not executed | Expiration.ReinsertMissesExpiredKey | Expiration.InsertKeyHeapSafe |
| replicator/connectors.go:213-219 | `backoff` computes (Pow(2, attempt) − 1) seconds in int64, which wraps for large attempts | attempt 64: Pow(2, 64) wraps to 0, so the wait is −1 s, below the cap and negative; `ConnectMaster` itself only reaches attempt 9 | a wait that saturates at maxWait and never goes negative | not executed | Connectors.BackoffOverflows | Connectors.BackoffSaturating |
