/**
 * The per-shard expiration index of storage/key_expiration.go: a binary
 * min-heap of (key, expiry) entries kept in a slice, driven by the
 * algorithms of Go's container/heap package (up, down, Push, Pop, Remove).
 *
 * The Go slice is a value that the pointer-receiver methods replace
 * (`*q = ...`); here every operation takes the queue and returns the new one.
 * Expiry instants are Unix nanoseconds; the clock reading is the parameter
 * `now` instead of `time.Now()`.
 */
module Expiration {
  import opened Algo

  type Key = Bytes

  /** One index entry: Go's `StorageKey`. */
  datatype StorageKey = StorageKey(key: Key, expire: int)

  /** Go's `ExpireQueue`: the slice behind the heap. */
  type ExpireQueue = seq<StorageKey>

  // ---------------------------------------------------------------------------
  // Heap order
  // ---------------------------------------------------------------------------

  function Parent(k: nat): nat
    requires k > 0
  {
    (k - 1) / 2
  }

  /** Min-heap order by expiry: no entry expires before its parent. */
  predicate IsHeap(q: ExpireQueue) {
    forall k :: 0 < k < |q| ==> q[Parent(k)].expire <= q[k].expire
  }

  /**
   * Heap order everywhere except, possibly, on the links from i to its
   * parent and to its children; i's parent does not exceed i's children.
   * This is what `down` repairs.
   */
  predicate HeapExceptAt(q: ExpireQueue, i: nat) {
    && (forall k :: 0 < k < |q| && k != i && Parent(k) != i ==> q[Parent(k)].expire <= q[k].expire)
    && (i > 0 && i < |q| ==> forall k :: 0 < k < |q| && Parent(k) == i ==> q[Parent(i)].expire <= q[k].expire)
  }

  /** Heap order everywhere except, possibly, on the link from j to its parent. This is what `up` repairs. */
  predicate HeapExceptAbove(q: ExpireQueue, j: nat) {
    && HeapExceptAt(q, j)
    && (forall k :: 0 < k < |q| && Parent(k) == j ==> q[j].expire <= q[k].expire)
  }

  /** The number of entries for key. */
  function CountKey(q: ExpireQueue, key: Key): nat
    decreases |q|
  {
    if |q| == 0 then 0 else (if q[0].key == key then 1 else 0) + CountKey(q[1..], key)
  }

  lemma {:induction false} CountKeyConcat(a: ExpireQueue, b: ExpireQueue, key: Key)
    ensures CountKey(a + b, key) == CountKey(a, key) + CountKey(b, key)
    decreases |a|
  {
    if |a| == 0 {
      assert a + b == b;
    } else {
      assert (a + b)[1..] == a[1..] + b;
      CountKeyConcat(a[1..], b, key);
    }
  }

  lemma {:induction false} CountKeyZero(q: ExpireQueue, key: Key)
    ensures CountKey(q, key) == 0 <==> forall e :: e in q ==> e.key != key
    decreases |q|
  {
    if |q| > 0 {
      CountKeyZero(q[1..], key);
      assert forall e :: e in q <==> e == q[0] || e in q[1..];
    }
  }

  /** The root of a heap expires no later than any entry. */
  lemma {:induction false} HeapRootIsMin(q: ExpireQueue, k: nat)
    requires IsHeap(q) && k < |q|
    ensures q[0].expire <= q[k].expire
    decreases k
  {
    if k > 0 {
      HeapRootIsMin(q, Parent(k));
    }
  }

  lemma HeapRootIsMinOf(q: ExpireQueue, e: StorageKey)
    requires IsHeap(q) && e in q
    ensures q[0].expire <= e.expire
  {
    var k :| 0 <= k < |q| && q[k] == e;
    HeapRootIsMin(q, k);
  }

  // ---------------------------------------------------------------------------
  // heap.Interface methods of ExpireQueue
  // ---------------------------------------------------------------------------

  /** `Len`. */
  function Len(q: ExpireQueue): nat {
    |q|
  }

  /** `Less`: the lower expiry comes first. */
  predicate Less(q: ExpireQueue, i: nat, j: nat)
    requires i < |q| && j < |q|
  {
    q[i].expire < q[j].expire
  }

  /** `Swap`: exchanges two entries; the entries themselves are unchanged. */
  function Swap(q: ExpireQueue, i: nat, j: nat): (r: ExpireQueue)
    requires i < |q| && j < |q|
    ensures |r| == |q| && r[i] == q[j] && r[j] == q[i]
    ensures forall k :: 0 <= k < |q| && k != i && k != j ==> r[k] == q[k]
    ensures multiset(r) == multiset(q)
  {
    q[i := q[j]][j := q[i]]
  }

  /** `Push`: appends at the end of the slice. */
  function Push(q: ExpireQueue, x: StorageKey): (r: ExpireQueue)
    ensures |r| == |q| + 1 && r[|q|] == x && r[..|q|] == q
  {
    q + [x]
  }

  /** `Pop`: removes the last element of the slice. */
  function Pop(q: ExpireQueue): (r: (ExpireQueue, StorageKey))
    requires |q| > 0
    ensures r.0 + [r.1] == q
    ensures multiset(r.0) + multiset{r.1} == multiset(q)
  {
    assert q == q[..|q| - 1] + [q[|q| - 1]];
    (q[..|q| - 1], q[|q| - 1])
  }

  /** `NewExpireQueue`: an empty slice, which `heap.Init` leaves as it is. */
  function NewExpireQueue(): (q: ExpireQueue)
    ensures |q| == 0 && IsHeap(q)
  {
    []
  }

  // ---------------------------------------------------------------------------
  // container/heap
  // ---------------------------------------------------------------------------

  /**
   * container/heap's `up`: moves the entry at j0 towards the root while it
   * expires before its parent. Go computes the parent of 0 as (0-1)/2 == 0,
   * which stops the loop; here that is the `j == 0` test.
   */
  method Up(q0: ExpireQueue, j0: nat) returns (q: ExpireQueue)
    requires j0 < |q0|
    ensures |q| == |q0| && multiset(q) == multiset(q0)
    ensures HeapExceptAbove(q0, j0) ==> IsHeap(q)
    ensures (j0 == 0 || !Less(q0, j0, Parent(j0))) ==> q == q0
  {
    q := q0;
    var j: nat := j0;
    ghost var ordered := HeapExceptAbove(q0, j0);
    while true
      invariant j <= j0 && j < |q|
      invariant |q| == |q0| && multiset(q) == multiset(q0)
      invariant j == j0 ==> q == q0
      invariant j != j0 ==> j0 > 0 && Less(q0, j0, Parent(j0))
      invariant ordered ==> HeapExceptAbove(q, j)
      decreases j
    {
      if j == 0 {
        break;
      }
      var i := Parent(j);
      if !Less(q, j, i) {
        break;
      }
      if ordered {
        UpStep(q, j);
      }
      q := Swap(q, i, j);
      j := i;
    }
    if ordered {
      HeapFromAbove(q, j);
    }
  }

  /** A defect above j that is not there is no defect. */
  lemma HeapFromAbove(q: ExpireQueue, j: nat)
    requires j < |q| && HeapExceptAbove(q, j)
    requires j == 0 || q[Parent(j)].expire <= q[j].expire
    ensures IsHeap(q)
  {
  }

  /** Swapping an entry with a later-expiring parent moves the defect one level up. */
  lemma UpStep(q: ExpireQueue, j: nat)
    requires 0 < j < |q| && Less(q, j, Parent(j)) && HeapExceptAbove(q, j)
    ensures HeapExceptAbove(Swap(q, Parent(j), j), Parent(j))
  {
    var i := Parent(j);
    var r := Swap(q, i, j);
    forall k | 0 < k < |r| && k != i
      ensures r[Parent(k)].expire <= r[k].expire
    {
      if Parent(k) == j {
        assert r[Parent(k)] == q[i];
      } else if k == j {
      } else if Parent(k) == i {
        assert r[Parent(k)] == q[j];
      }
    }
    if i > 0 {
      forall k | 0 < k < |r| && Parent(k) == i
        ensures r[Parent(i)].expire <= r[k].expire
      {
        assert Parent(i) != j;
        if k != j {
          assert q[Parent(i)].expire <= q[i].expire;
        }
      }
    }
  }

  /**
   * container/heap's `down`, over the whole slice: moves the entry at i0
   * towards the leaves while a child expires before it, always exchanging with
   * the earlier-expiring child. `moved` tells whether the entry moved.
   */
  method Down(q0: ExpireQueue, i0: nat) returns (q: ExpireQueue, moved: bool)
    ensures |q| == |q0| && multiset(q) == multiset(q0)
    ensures !moved ==> q == q0 && forall k :: 0 < k < |q0| && Parent(k) == i0 ==> q0[i0].expire <= q0[k].expire
    ensures HeapExceptAt(q0, i0) && (moved || i0 == 0 || i0 >= |q0| || q0[Parent(i0)].expire <= q0[i0].expire)
      ==> IsHeap(q)
  {
    q := q0;
    var i: nat := i0;
    ghost var ordered := HeapExceptAt(q0, i0);
    while true
      invariant i0 <= i && |q| == |q0| && multiset(q) == multiset(q0)
      invariant i == i0 ==> q == q0
      invariant i != i0 ==> 0 < i < |q| && q[Parent(i)].expire <= q[i].expire
      invariant ordered ==> HeapExceptAt(q, i)
      decreases |q| - i
    {
      var j1 := 2 * i + 1;
      if j1 >= |q| {
        LeafHasNoChildren(q, i);
        break;
      }
      var j := j1;
      if j1 + 1 < |q| && Less(q, j1 + 1, j1) {
        j := j1 + 1;
      }
      if !Less(q, j, i) {
        SmallerChildBound(q, i, j);
        break;
      }
      if ordered {
        DownStep(q, i, j);
      }
      q := Swap(q, i, j);
      i := j;
    }
    moved := i > i0;
    if ordered && (moved || i0 == 0 || i0 >= |q0| || q0[Parent(i0)].expire <= q0[i0].expire) {
      HeapFromBelow(q, i);
    }
  }

  lemma LeafHasNoChildren(q: ExpireQueue, i: nat)
    requires 2 * i + 1 >= |q|
    ensures forall k :: 0 < k < |q| ==> Parent(k) != i
  {
  }

  /** An entry no later than its earlier-expiring child is no later than all its children. */
  lemma SmallerChildBound(q: ExpireQueue, i: nat, j: nat)
    requires j < |q| && (j == 2 * i + 1 || j == 2 * i + 2) && !Less(q, j, i)
    requires j == 2 * i + 2 ==> q[j].expire < q[j - 1].expire
    requires j == 2 * i + 1 && j + 1 < |q| ==> q[j].expire <= q[j + 1].expire
    ensures forall k :: 0 < k < |q| && Parent(k) == i ==> q[i].expire <= q[k].expire
  {
    forall k | 0 < k < |q| && Parent(k) == i
      ensures q[i].expire <= q[k].expire
    {
      assert k == 2 * i + 1 || k == 2 * i + 2;
    }
  }

  /** A defect at i that is not there is no defect. */
  lemma HeapFromBelow(q: ExpireQueue, i: nat)
    requires HeapExceptAt(q, i)
    requires forall k :: 0 < k < |q| && Parent(k) == i ==> q[i].expire <= q[k].expire
    requires i == 0 || i >= |q| || q[Parent(i)].expire <= q[i].expire
    ensures IsHeap(q)
  {
  }

  /** Swapping an entry with its earlier-expiring child moves the defect one level down. */
  lemma DownStep(q: ExpireQueue, i: nat, j: nat)
    requires j < |q| && (j == 2 * i + 1 || j == 2 * i + 2) && Less(q, j, i)
    requires j == 2 * i + 2 ==> q[j].expire < q[j - 1].expire
    requires j == 2 * i + 1 && j + 1 < |q| ==> q[j].expire <= q[j + 1].expire
    requires HeapExceptAt(q, i)
    ensures HeapExceptAt(Swap(q, i, j), j)
    ensures Swap(q, i, j)[Parent(j)].expire <= Swap(q, i, j)[j].expire
  {
    var r := Swap(q, i, j);
    assert Parent(j) == i;
    forall k | 0 < k < |r| && k != j && Parent(k) != j
      ensures r[Parent(k)].expire <= r[k].expire
    {
      if k == i {
        assert r[Parent(k)] == q[Parent(i)] && r[k] == q[j];
      } else if Parent(k) == i {
        SiblingAtLeast(q, i, j, k);
        assert r[Parent(k)] == q[j] && r[k] == q[k];
      } else {
        assert Parent(k) < k;
        assert r[Parent(k)] == q[Parent(k)] && r[k] == q[k];
      }
    }
    forall k | 0 < k < |r| && Parent(k) == j
      ensures r[Parent(j)].expire <= r[k].expire
    {
      assert k != i && k != j;
      assert r[Parent(j)] == q[j] && r[k] == q[k];
    }
  }

  /** The child chosen by `down` expires no later than its sibling. */
  lemma SiblingAtLeast(q: ExpireQueue, i: nat, j: nat, k: nat)
    requires j < |q| && k < |q| && (j == 2 * i + 1 || j == 2 * i + 2) && k > 0 && Parent(k) == i && k != j
    requires j == 2 * i + 2 ==> q[j].expire < q[j - 1].expire
    requires j == 2 * i + 1 && j + 1 < |q| ==> q[j].expire <= q[j + 1].expire
    ensures q[j].expire <= q[k].expire
  {
    assert k == 2 * i + 1 || k == 2 * i + 2;
  }

  /** container/heap's `Push`: append, then sift the new entry up. */
  method HeapPush(q0: ExpireQueue, x: StorageKey) returns (q: ExpireQueue)
    ensures |q| == |q0| + 1 && multiset(q) == multiset(q0) + multiset{x}
    ensures IsHeap(q0) ==> IsHeap(q)
    ensures (|q0| == 0 || x.expire >= q0[Parent(|q0|)].expire) ==> q == q0 + [x]
  {
    var appended := Push(q0, x);
    assert multiset(appended) == multiset(q0) + multiset{x} by {
      assert appended == q0 + [x];
    }
    if IsHeap(q0) {
      forall k | 0 < k < |appended| && k != |q0|
        ensures appended[Parent(k)].expire <= appended[k].expire
      {
        assert appended[k] == q0[k] && appended[Parent(k)] == q0[Parent(k)];
      }
    }
    q := Up(appended, |q0|);
  }

  /**
   * container/heap's `Pop`: the root is exchanged with the last entry, the
   * new root is sifted down over the first n entries, and the last entry (the
   * old root) is taken off. Here the old root is taken off before the sift;
   * `down` over the first n entries never reads index n, so the result is the
   * same.
   */
  method HeapPop(q0: ExpireQueue) returns (q: ExpireQueue, x: StorageKey)
    requires |q0| > 0
    ensures x == q0[0]
    ensures |q| == |q0| - 1 && multiset(q) + multiset{x} == multiset(q0)
    ensures IsHeap(q0) ==> IsHeap(q) && forall e :: e in q ==> x.expire <= e.expire
  {
    var n := |q0| - 1;
    var swapped := Swap(q0, 0, n);
    var rest: ExpireQueue;
    rest, x := Pop(swapped).0, Pop(swapped).1;
    assert swapped == rest + [x];
    assert multiset(swapped) == multiset(rest) + multiset{x};
    if IsHeap(q0) {
      forall k | 0 < k < |rest| && k != 0 && Parent(k) != 0
        ensures rest[Parent(k)].expire <= rest[k].expire
      {
        assert rest[k] == q0[k] && rest[Parent(k)] == q0[Parent(k)];
      }
      assert HeapExceptAt(rest, 0);
    }
    var moved;
    q, moved := Down(rest, 0);
    if IsHeap(q0) {
      forall e | e in q
        ensures x.expire <= e.expire
      {
        assert e in multiset(q0);
        HeapRootIsMinOf(q0, e);
      }
    }
  }

  /**
   * container/heap's `Remove`: the entry at i is exchanged with the last one,
   * which is then moved down, or up if it did not move down. As in HeapPop the
   * removed entry is taken off before the sift, which never reads it.
   */
  method HeapRemove(q0: ExpireQueue, i: nat) returns (q: ExpireQueue, x: StorageKey)
    requires i < |q0|
    ensures x == q0[i]
    ensures |q| == |q0| - 1 && multiset(q) + multiset{x} == multiset(q0)
    ensures IsHeap(q0) ==> IsHeap(q)
  {
    var n := |q0| - 1;
    if n != i {
      var swapped := Swap(q0, i, n);
      q, x := Pop(swapped).0, Pop(swapped).1;
      if IsHeap(q0) {
        RemoveLeavesHeapExceptAt(q0, i);
      }
      var moved;
      q, moved := Down(q, i);
      if !moved {
        q := Up(q, i);
      }
    } else {
      q, x := Pop(q0).0, Pop(q0).1;
      if IsHeap(q0) {
        HeapPrefix(q0, n);
      }
    }
  }

  /** A prefix of a heap is a heap. */
  lemma HeapPrefix(q: ExpireQueue, n: nat)
    requires IsHeap(q) && n <= |q|
    ensures IsHeap(q[..n])
  {
    forall k | 0 < k < n
      ensures q[..n][Parent(k)].expire <= q[..n][k].expire
    {
      assert q[..n][k] == q[k] && q[..n][Parent(k)] == q[Parent(k)];
    }
  }

  /** Moving the last entry of a heap into slot i leaves a defect only at i. */
  lemma RemoveLeavesHeapExceptAt(q0: ExpireQueue, i: nat)
    requires IsHeap(q0) && i < |q0| - 1
    ensures HeapExceptAt(Swap(q0, i, |q0| - 1)[..|q0| - 1], i)
  {
    var n := |q0| - 1;
    var r := Swap(q0, i, n)[..n];
    forall k | 0 < k < |r| && k != i && Parent(k) != i
      ensures r[Parent(k)].expire <= r[k].expire
    {
      assert r[k] == q0[k] && r[Parent(k)] == q0[Parent(k)];
    }
    if i > 0 {
      forall k | 0 < k < |r| && Parent(k) == i
        ensures r[Parent(i)].expire <= r[k].expire
      {
        assert r[k] == q0[k] && r[Parent(i)] == q0[Parent(i)];
        assert q0[Parent(i)].expire <= q0[i].expire <= q0[k].expire;
      }
    }
  }

  // ---------------------------------------------------------------------------
  // Queue methods of key_expiration.go
  // ---------------------------------------------------------------------------

  /** The queue without its first entry for key; unchanged when there is none. */
  function WithoutFirst(q: ExpireQueue, key: Key): ExpireQueue
    decreases |q|
  {
    if |q| == 0 then []
    else if q[0].key == key then q[1..]
    else [q[0]] + WithoutFirst(q[1..], key)
  }

  /** WithoutFirst takes out exactly one entry for key when there is one. */
  lemma {:induction false} WithoutFirstCount(q: ExpireQueue, key: Key)
    ensures CountKey(q, key) > 0 ==>
      |WithoutFirst(q, key)| == |q| - 1 && CountKey(WithoutFirst(q, key), key) == CountKey(q, key) - 1
    decreases |q|
  {
    if |q| > 0 && q[0].key != key {
      WithoutFirstCount(q[1..], key);
      var r := WithoutFirst(q[1..], key);
      assert ([q[0]] + r)[1..] == r;
    }
  }

  /** The first entry for key. */
  function FirstEntry(q: ExpireQueue, key: Key): (e: StorageKey)
    requires CountKey(q, key) > 0
    ensures e in q && e.key == key
    decreases |q|
  {
    if q[0].key == key then q[0] else FirstEntry(q[1..], key)
  }

  /** WithoutFirst takes out FirstEntry and keeps every other entry. */
  lemma {:induction false} WithoutFirstMultiset(q: ExpireQueue, key: Key)
    requires CountKey(q, key) > 0
    ensures multiset(WithoutFirst(q, key)) + multiset{FirstEntry(q, key)} == multiset(q)
    decreases |q|
  {
    assert q == [q[0]] + q[1..];
    if q[0].key != key {
      WithoutFirstMultiset(q[1..], key);
      assert WithoutFirst(q, key) == [q[0]] + WithoutFirst(q[1..], key);
    }
  }

  /** FirstEntry is the entry at the first index holding key. */
  lemma {:induction false} FirstEntryAt(q: ExpireQueue, key: Key, i: nat)
    requires i < |q| && q[i].key == key && forall j :: 0 <= j < i ==> q[j].key != key
    ensures CountKey(q, key) > 0 && FirstEntry(q, key) == q[i]
    decreases i
  {
    if i > 0 {
      FirstEntryAt(q[1..], key, i - 1);
    }
  }

  lemma WithoutFirstNone(q: ExpireQueue, key: Key)
    requires CountKey(q, key) == 0
    ensures WithoutFirst(q, key) == q
  {
    CountKeyZero(q, key);
    WithoutFirstAbsent(q, key);
  }

  /** WithoutFirst deletes the entry at the first index holding key, keeping the order of the others. */
  lemma {:induction false} WithoutFirstAt(q: ExpireQueue, key: Key, i: nat)
    requires i < |q| && q[i].key == key && forall j :: 0 <= j < i ==> q[j].key != key
    ensures WithoutFirst(q, key) == q[..i] + q[i + 1..]
    decreases i
  {
    if i > 0 {
      WithoutFirstAt(q[1..], key, i - 1);
      assert q[..i] + q[i + 1..] == [q[0]] + (q[1..][..i - 1] + q[1..][i..]);
    }
  }

  lemma {:induction false} WithoutFirstAbsent(q: ExpireQueue, key: Key)
    requires forall j :: 0 <= j < |q| ==> q[j].key != key
    ensures WithoutFirst(q, key) == q
    decreases |q|
  {
    if |q| > 0 {
      WithoutFirstAbsent(q[1..], key);
      assert q == [q[0]] + q[1..];
    }
  }

  /**
   * `removeExisting`: deletes the first entry for key by shifting the tail one
   * slot to the left; the other entries keep their relative order.
   */
  method RemoveExisting(q0: ExpireQueue, key: Key) returns (q: ExpireQueue)
    ensures q == WithoutFirst(q0, key)
  {
    var i := 0;
    while i < |q0|
      invariant 0 <= i <= |q0|
      invariant forall j :: 0 <= j < i ==> q0[j].key != key
    {
      if q0[i].key == key {
        WithoutFirstAt(q0, key, i);
        return q0[..i] + q0[i + 1..];
      }
      i := i + 1;
    }
    WithoutFirstAbsent(q0, key);
    return q0;
  }

  /**
   * `InsertKey`: drops the key's previous entry (if any) with RemoveExisting,
   * then pushes the entry expiring at now + ttl. A key that had at most one
   * entry has exactly one afterwards. Inserting a key without an entry keeps
   * heap order. The new entry stays at the end of the shifted slice when it
   * does not expire before its parent there, which is how re-inserting a key
   * can break heap order (see ReinsertMissesExpiredKey).
   */
  method InsertKey(q0: ExpireQueue, key: Key, ttl: int, now: int) returns (q: ExpireQueue)
    ensures CountKey(q0, key) <= 1 ==> CountKey(q, key) == 1
    ensures CountKey(q0, key) == 0 ==> |q| == |q0| + 1 && multiset(q) == multiset(q0) + multiset{StorageKey(key, now + ttl)}
    ensures CountKey(q0, key) > 0 ==> |q| == |q0|
    ensures CountKey(q0, key) > 0 ==>
      multiset(q) == multiset(q0) - multiset{FirstEntry(q0, key)} + multiset{StorageKey(key, now + ttl)}
    ensures forall k :: k != key ==> CountKey(q, k) == CountKey(q0, k)
    ensures CountKey(q0, key) == 0 && IsHeap(q0) ==> IsHeap(q)
    ensures var r := WithoutFirst(q0, key);
      (|r| == 0 || now + ttl >= r[Parent(|r|)].expire) ==> q == r + [StorageKey(key, now + ttl)]
  {
    var removed := RemoveExisting(q0, key);
    WithoutFirstCount(q0, key);
    if CountKey(q0, key) == 0 {
      WithoutFirstNone(q0, key);
    } else {
      WithoutFirstMultiset(q0, key);
    }
    var item := StorageKey(key, now + ttl);
    q := HeapPush(removed, item);
    CountAddOne(removed, q, item, key);
    if CountKey(q0, key) == 0 {
      forall k | k != key
        ensures CountKey(q, k) == CountKey(q0, k)
      {
        CountAddOne(removed, q, item, k);
      }
    } else {
      var e := FirstEntry(q0, key);
      assert multiset(q0) == multiset(removed) + multiset{e};
      CountOthersAfterReplace(q0, removed, q, e, item);
    }
  }

  /** `removeExisting` done with container/heap's Remove, which keeps heap order. */
  method RemoveExistingHeapSafe(q0: ExpireQueue, key: Key) returns (q: ExpireQueue)
    ensures CountKey(q0, key) == 0 ==> q == q0
    ensures CountKey(q0, key) > 0 ==>
      && |q| == |q0| - 1
      && CountKey(q, key) == CountKey(q0, key) - 1
      && multiset(q) == multiset(q0) - multiset{FirstEntry(q0, key)}
    ensures IsHeap(q0) ==> IsHeap(q)
  {
    var i := 0;
    while i < |q0|
      invariant 0 <= i <= |q0|
      invariant forall j :: 0 <= j < i ==> q0[j].key != key
    {
      if q0[i].key == key {
        var x;
        q, x := HeapRemove(q0, i);
        assert multiset(q0) == multiset(q) + multiset{x};
        CountAddOne(q, q0, x, key);
        FirstEntryAt(q0, key, i);
        return;
      }
      i := i + 1;
    }
    WithoutFirstAbsent(q0, key);
    CountKeyZero(q0, key);
    q := q0;
  }

  /**
   * InsertKey with the previous entry removed by RemoveExistingHeapSafe:
   * the same entries as InsertKey, and heap order is kept for every key.
   */
  method InsertKeyHeapSafe(q0: ExpireQueue, key: Key, ttl: int, now: int) returns (q: ExpireQueue)
    ensures CountKey(q0, key) <= 1 ==> CountKey(q, key) == 1
    ensures CountKey(q0, key) == 0 ==> |q| == |q0| + 1 && multiset(q) == multiset(q0) + multiset{StorageKey(key, now + ttl)}
    ensures CountKey(q0, key) > 0 ==> |q| == |q0|
    ensures CountKey(q0, key) > 0 ==>
      multiset(q) == multiset(q0) - multiset{FirstEntry(q0, key)} + multiset{StorageKey(key, now + ttl)}
    ensures forall k :: k != key ==> CountKey(q, k) == CountKey(q0, k)
    ensures IsHeap(q0) ==> IsHeap(q)
  {
    var removed := RemoveExistingHeapSafe(q0, key);
    var item := StorageKey(key, now + ttl);
    q := HeapPush(removed, item);
    CountAddOne(removed, q, item, key);
    if CountKey(q0, key) == 0 {
      forall k | k != key
        ensures CountKey(q, k) == CountKey(q0, k)
      {
        CountAddOne(removed, q, item, k);
      }
    } else {
      var e := FirstEntry(q0, key);
      assert multiset(q0) == multiset(removed) + multiset{e};
      CountOthersAfterReplace(q0, removed, q, e, item);
    }
  }

  /** One more entry for key adds one to its count, whatever the arrangement. */
  lemma CountAddOne(q0: ExpireQueue, q: ExpireQueue, x: StorageKey, key: Key)
    requires multiset(q) == multiset(q0) + multiset{x}
    ensures CountKey(q, key) == CountKey(q0, key) + (if x.key == key then 1 else 0)
  {
    CountKeyMultiset(q, key);
    CountKeyMultiset(q0 + [x], key);
    assert multiset(q0 + [x]) == multiset(q);
    CountKeyConcat(q0, [x], key);
    assert CountKey([x], key) == (if x.key == key then 1 else 0) by {
      assert [x][1..] == [];
    }
  }

  /** Taking out one entry for key and adding another leaves the counts of all other keys as they were. */
  lemma CountOthersAfterReplace(q0: ExpireQueue, mid: ExpireQueue, q: ExpireQueue, e: StorageKey, x: StorageKey)
    requires multiset(q0) == multiset(mid) + multiset{e} && multiset(q) == multiset(mid) + multiset{x}
    requires e.key == x.key
    ensures forall k :: k != x.key ==> CountKey(q, k) == CountKey(q0, k)
  {
    forall k | k != x.key
      ensures CountKey(q, k) == CountKey(q0, k)
    {
      CountAddOne(mid, q0, e, k);
      CountAddOne(mid, q, x, k);
    }
  }

  /** The number of entries for key, counted on the multiset of entries. */
  ghost function CountInMultiset(m: multiset<StorageKey>, key: Key): nat
    decreases |m|
  {
    if |m| == 0 then 0
    else
      var e :| e in m;
      (if e.key == key then 1 else 0) + CountInMultiset(m - multiset{e}, key)
  }

  lemma {:induction false} CountInMultisetRemove(m: multiset<StorageKey>, e: StorageKey, key: Key)
    requires e in m
    ensures CountInMultiset(m, key) == (if e.key == key then 1 else 0) + CountInMultiset(m - multiset{e}, key)
    decreases |m|
  {
    var e' :| e' in m && CountInMultiset(m, key) ==
      (if e'.key == key then 1 else 0) + CountInMultiset(m - multiset{e'}, key);
    if e' != e {
      var rest := m - multiset{e} - multiset{e'};
      assert m - multiset{e'} - multiset{e} == rest;
      CountInMultisetRemove(m - multiset{e'}, e, key);
      CountInMultisetRemove(m - multiset{e}, e', key);
    }
  }

  lemma {:induction false} CountKeyMultiset(q: ExpireQueue, key: Key)
    ensures CountKey(q, key) == CountInMultiset(multiset(q), key)
    decreases |q|
  {
    if |q| > 0 {
      assert q == [q[0]] + q[1..];
      assert multiset(q) - multiset{q[0]} == multiset(q[1..]);
      CountInMultisetRemove(multiset(q), q[0], key);
      CountKeyMultiset(q[1..], key);
    }
  }

  /** Expiry instants in the order they were popped never decrease. */
  predicate ExpiresInOrder(s: seq<StorageKey>) {
    forall i, j :: 0 <= i < j < |s| ==> s[i].expire <= s[j].expire
  }

  function KeysOf(s: seq<StorageKey>): (r: seq<Key>)
    ensures |r| == |s| && forall i :: 0 <= i < |s| ==> r[i] == s[i].key
  {
    if |s| == 0 then [] else [s[0].key] + KeysOf(s[1..])
  }

  /**
   * `GetExpiredKeys`: pops entries while they expire before now and pushes
   * back the first one that does not. The returned keys are those of the
   * popped entries, in pop order; `found` is false exactly when nothing was
   * popped, and then the queue holds the same entries as before. On a heap
   * the popped entries are exactly the expired ones, in expiry order, and the
   * queue keeps the rest, still as a heap.
   */
  method GetExpiredKeys(q0: ExpireQueue, now: int)
    returns (q: ExpireQueue, found: bool, keys: seq<Key>, ghost popped: seq<StorageKey>)
    ensures keys == KeysOf(popped) && (found <==> |popped| > 0)
    ensures multiset(q) + multiset(popped) == multiset(q0)
    ensures forall e :: e in popped ==> e.expire < now
    ensures |popped| > 0 ==> popped[0] == q0[0]
    ensures IsHeap(q0) ==> IsHeap(q) && ExpiresInOrder(popped)
    ensures IsHeap(q0) ==> forall e :: e in q ==> e.expire >= now
    ensures IsHeap(q0) ==> forall e :: multiset(popped)[e] == if e.expire < now then multiset(q0)[e] else 0
  {
    q := q0;
    keys := [];
    popped := [];
    while |q| >= 1
      invariant multiset(q) + multiset(popped) == multiset(q0)
      invariant keys == KeysOf(popped)
      invariant forall e :: e in popped ==> e.expire < now
      invariant |popped| > 0 ==> popped[0] == q0[0]
      invariant |popped| == 0 ==> q == q0
      invariant IsHeap(q0) ==> IsHeap(q) && ExpiresInOrder(popped)
      invariant IsHeap(q0) ==> forall a, b :: a in popped && b in q ==> a.expire <= b.expire
      decreases |q|
    {
      ghost var before := q;
      var item;
      q, item := HeapPop(q);
      if item.expire < now {
        PoppedInOrder(popped, before, q, item, IsHeap(q0));
        keys := keys + [item.key];
        popped := popped + [item];
        assert KeysOf(popped) == KeysOf(popped[..|popped| - 1]) + [item.key];
      } else {
        q := HeapPush(q, item);
        if IsHeap(q0) {
          forall e | e in q
            ensures e.expire >= now
          {
            assert e in multiset(before);
            HeapRootIsMinOf(before, e);
          }
        }
        break;
      }
    }
    found := |keys| > 0;
    ExpiredSplit(q0, q, popped, now);
  }

  /** Appending the entry just popped from a heap keeps the popped entries in expiry order. */
  lemma PoppedInOrder(popped: seq<StorageKey>, before: ExpireQueue, after: ExpireQueue, item: StorageKey,
                      heap: bool)
    requires |before| > 0 && item == before[0] && multiset(after) + multiset{item} == multiset(before)
    requires heap ==> IsHeap(before) && ExpiresInOrder(popped)
    requires heap ==> forall a, b :: a in popped && b in before ==> a.expire <= b.expire
    requires heap ==> forall e :: e in after ==> item.expire <= e.expire
    ensures heap ==> ExpiresInOrder(popped + [item])
    ensures heap ==> forall a, b :: a in popped + [item] && b in after ==> a.expire <= b.expire
  {
    if heap {
      forall a, b | a in popped + [item] && b in after
        ensures a.expire <= b.expire
      {
        assert b in multiset(before);
      }
    }
  }

  /** When everything left expires no earlier than now, the popped entries are exactly the expired ones. */
  lemma ExpiredSplit(q0: ExpireQueue, q: ExpireQueue, popped: seq<StorageKey>, now: int)
    requires multiset(q) + multiset(popped) == multiset(q0)
    requires forall e :: e in popped ==> e.expire < now
    requires IsHeap(q0) ==> forall e :: e in q ==> e.expire >= now
    ensures IsHeap(q0) ==> forall e :: multiset(popped)[e] == if e.expire < now then multiset(q0)[e] else 0
  {
    if IsHeap(q0) {
      forall e
        ensures multiset(popped)[e] == if e.expire < now then multiset(q0)[e] else 0
      {
        if e.expire < now {
          assert e !in q;
        } else {
          assert e !in popped;
        }
      }
    }
  }

  // ---------------------------------------------------------------------------
  // Scenarios
  // ---------------------------------------------------------------------------

  /** "key1", "key2", "key3" as bytes. */
  const KEY1: Key := [0x6b, 0x65, 0x79, 0x31]
  const KEY2: Key := [0x6b, 0x65, 0x79, 0x32]
  const KEY3: Key := [0x6b, 0x65, 0x79, 0x33]

  /** An empty queue after inserting key1 and key2 with the given ttls. */
  method InsertTwoKeys(ttl1: int, ttl2: int, now: int) returns (q: ExpireQueue)
    ensures IsHeap(q)
    ensures multiset(q) == multiset{StorageKey(KEY1, now + ttl1), StorageKey(KEY2, now + ttl2)}
  {
    q := NewExpireQueue();
    q := InsertKey(q, KEY1, ttl1, now);
    assert multiset(q) == multiset{StorageKey(KEY1, now + ttl1)};
    AbsentKey(q, KEY2);
    q := InsertKey(q, KEY2, ttl2, now);
  }

  /** An empty queue after inserting key1, key2 and key3 with the given ttls. */
  method InsertThreeKeys(ttl1: int, ttl2: int, ttl3: int, now: int) returns (q: ExpireQueue)
    ensures IsHeap(q)
    ensures multiset(q) == multiset{StorageKey(KEY1, now + ttl1), StorageKey(KEY2, now + ttl2), StorageKey(KEY3, now + ttl3)}
  {
    q := InsertTwoKeys(ttl1, ttl2, now);
    AbsentKey(q, KEY3);
    q := InsertKey(q, KEY3, ttl3, now);
  }

  lemma AbsentKey(q: ExpireQueue, key: Key)
    requires forall e :: e in multiset(q) ==> e.key != key
    ensures CountKey(q, key) == 0
  {
    CountKeyZero(q, key);
  }

  /** The entry popped from a heap is the one that expires strictly earliest. */
  lemma PoppedIsEarliest(before: ExpireQueue, after: ExpireQueue, e: StorageKey, x: StorageKey)
    requires |before| > 0 && e == before[0] && multiset(after) + multiset{e} == multiset(before)
    requires forall y :: y in after ==> e.expire <= y.expire
    requires x in multiset(before) && forall y :: y in multiset(before) && y != x ==> x.expire < y.expire
    ensures e == x
  {
  }

  /** Keys inserted with ttl 20s, 30s and 10s are popped in the order key3, key1, key2. */
  method PopOrderScenario(now: int) returns (first: Key, second: Key, third: Key)
    ensures first == KEY3 && second == KEY1 && third == KEY2
  {
    var e1, e2, e3 := StorageKey(KEY1, now + 20 * SECOND), StorageKey(KEY2, now + 30 * SECOND),
      StorageKey(KEY3, now + 10 * SECOND);
    var q := InsertThreeKeys(20 * SECOND, 30 * SECOND, 10 * SECOND, now);
    var e;
    ghost var before := q;
    q, e := HeapPop(q);
    PoppedIsEarliest(before, q, e, e3);
    first := e.key;
    assert multiset(q) == multiset{e1, e2};
    before := q;
    q, e := HeapPop(q);
    PoppedIsEarliest(before, q, e, e1);
    second := e.key;
    assert multiset(q) == multiset{e2};
    before := q;
    q, e := HeapPop(q);
    assert e in multiset(before);
    third := e.key;
  }

  /** A sequence whose multiset is empty is empty. */
  lemma NothingPopped(popped: seq<StorageKey>)
    requires forall e :: multiset(popped)[e] == 0
    ensures |popped| == 0
  {
    forall e
      ensures multiset(popped)[e] == multiset{}[e]
    {
    }
    assert multiset(popped) == multiset{};
  }

  /** Two distinct entries popped in expiry order come out earlier one first. */
  lemma TwoInOrder(popped: seq<StorageKey>, a: StorageKey, b: StorageKey)
    requires forall e :: multiset(popped)[e] == multiset{a, b}[e]
    requires a.expire < b.expire && ExpiresInOrder(popped)
    ensures popped == [a, b]
  {
    assert multiset(popped) == multiset{a, b};
    assert |popped| == 2;
    assert popped == [popped[0], popped[1]];
    assert popped[0] in multiset(popped) && popped[1] in multiset(popped);
    assert popped[0] == a;
  }

  /**
   * key1, key2 and key3 inserted with ttl 1ms, 2s and 3ms: a sweep 100µs
   * later reports nothing, and a sweep 10ms after that reports key1 and
   * key3, in that order.
   */
  method SweepScenario(now: int) returns (early: bool, late: bool, lateKeys: seq<Key>)
    ensures !early
    ensures late && lateKeys == [KEY1, KEY3]
  {
    var e1, e2, e3 := StorageKey(KEY1, now + MILLISECOND), StorageKey(KEY2, now + 2 * SECOND),
      StorageKey(KEY3, now + 3 * MILLISECOND);
    var q := InsertThreeKeys(MILLISECOND, 2 * SECOND, 3 * MILLISECOND, now);
    var t1 := now + 100 * MICROSECOND;
    var keys;
    ghost var popped;
    q, early, keys, popped := GetExpiredKeys(q, t1);
    NothingPopped(popped);
    assert multiset(q) == multiset{e1, e2, e3};
    var t2 := t1 + 10 * MILLISECOND;
    q, late, lateKeys, popped := GetExpiredKeys(q, t2);
    assert forall e :: multiset(popped)[e] == multiset{e1, e3}[e];
    TwoInOrder(popped, e1, e3);
  }

  /** A heap of key1, key2 and key3 expiring at 1, 5 and 2. */
  const REINSERT_START: ExpireQueue := [StorageKey(KEY1, 1), StorageKey(KEY2, 5), StorageKey(KEY3, 2)]

  /**
   * Re-inserting key1 (expiry 1 to 100) into the heap REINSERT_START with
   * InsertKey shifts key2 into the root slot and appends key1: the slice
   * [key2@5, key3@2, key1@100] is not a heap, and a sweep at time 3 pops
   * key2, finds it live and stops, reporting nothing although key3 expired
   * at 2.
   */
  method ReinsertMissesExpiredKey() returns (q: ExpireQueue, found: bool, swept: ExpireQueue)
    ensures !IsHeap(q)
    ensures !found && StorageKey(KEY3, 2) in swept
  {
    q := ReinsertKey1();
    assert q[Parent(1)].expire > q[1].expire;
    var keys;
    ghost var popped;
    swept, found, keys, popped := GetExpiredKeys(q, 3);
    assert StorageKey(KEY3, 2) in multiset(q);
  }

  /** The same re-insertion with InsertKeyHeapSafe keeps heap order, and the sweep at time 3 reports key3. */
  method ReinsertHeapSafeReportsExpiredKey() returns (q: ExpireQueue, found: bool, keys: seq<Key>)
    ensures IsHeap(q)
    ensures found && keys == [KEY3]
  {
    var k3 := StorageKey(KEY3, 2);
    q := ReinsertKey1HeapSafe();
    var swept;
    ghost var popped;
    swept, found, keys, popped := GetExpiredKeys(q, 3);
    assert forall e :: multiset(popped)[e] == multiset{k3}[e];
    assert multiset(popped) == multiset{k3};
    assert popped == [k3] by {
      assert |popped| == 1 && popped[0] in multiset(popped);
    }
  }

  /** Re-inserts key1 with expiry 100 into REINSERT_START with InsertKey. */
  method ReinsertKey1() returns (q: ExpireQueue)
    ensures q == [StorageKey(KEY2, 5), StorageKey(KEY3, 2), StorageKey(KEY1, 100)]
  {
    assert WithoutFirst(REINSERT_START, KEY1) == [StorageKey(KEY2, 5), StorageKey(KEY3, 2)];
    q := InsertKey(REINSERT_START, KEY1, 99, 1);
  }

  /** Re-inserts key1 with expiry 100 into REINSERT_START with InsertKeyHeapSafe. */
  method ReinsertKey1HeapSafe() returns (q: ExpireQueue)
    ensures IsHeap(q) && multiset(q) == multiset{StorageKey(KEY2, 5), StorageKey(KEY3, 2), StorageKey(KEY1, 100)}
  {
    var start := REINSERT_START;
    assert IsHeap(start) && CountKey(start, KEY1) > 0 by {
      assert start[1..][1..][1..] == [];
    }
    q := InsertKeyHeapSafe(start, KEY1, 99, 1);
    assert FirstEntry(start, KEY1) == StorageKey(KEY1, 1);
    assert multiset(start) - multiset{StorageKey(KEY1, 1)} == multiset{StorageKey(KEY2, 5), StorageKey(KEY3, 2)};
  }
}
