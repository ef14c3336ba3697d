/**
 * Helpers of utils/algo.go: the FNV-1a 64-bit key hash, the integer power
 * used by the reconnection backoff, and the comparison helpers.
 *
 * Go strings are byte strings, so both keys and values are sequences of bytes
 * here. Go's `int` is 64-bit two's complement; `Int64` gives the value an
 * unbounded integer wraps to.
 */
module Algo {

  newtype byte = x: int | 0 <= x < 256

  type Bytes = seq<byte>

  // ---------------------------------------------------------------------------
  // 64-bit two's-complement integers
  // ---------------------------------------------------------------------------

  const TWO_63: int := 0x8000_0000_0000_0000
  const TWO_64: int := 0x1_0000_0000_0000_0000

  predicate IsInt64(x: int) {
    -TWO_63 <= x < TWO_63
  }

  /** x and y are equal modulo 2^64, i.e. the same 64-bit machine word. */
  predicate Congruent64(x: int, y: int) {
    (x - y) % TWO_64 == 0
  }

  /** The Go `int` that the exact integer x wraps around to. */
  function Int64(x: int): (r: int)
    ensures IsInt64(r)
    ensures Congruent64(r, x)
  {
    var u := x % TWO_64;
    if u < TWO_63 then u else u - TWO_64
  }

  /** Two words in the int64 range that are congruent modulo 2^64 are equal. */
  lemma CongruentInRange(x: int, y: int)
    requires IsInt64(x) && IsInt64(y) && Congruent64(x, y)
    ensures x == y
  {
  }

  /** A value in the int64 range does not wrap. */
  lemma Int64Identity(x: int)
    requires IsInt64(x)
    ensures Int64(x) == x
  {
    CongruentInRange(Int64(x), x);
  }

  lemma MulCongruent(x: int, x': int, y: int, y': int)
    requires Congruent64(x, x') && Congruent64(y, y')
    ensures Congruent64(x * y, x' * y')
  {
    var k := (x - x') / TWO_64;
    var j := (y - y') / TWO_64;
    assert x == x' + k * TWO_64;
    assert y == y' + j * TWO_64;
    assert x * y - x' * y' == TWO_64 * (k * y' + j * x' + k * j * TWO_64);
  }

  /** Durations, in nanoseconds as Go's time.Duration counts them. */
  const MICROSECOND: int := 1000
  const MILLISECOND: int := 1000 * MICROSECOND
  const SECOND: int := 1000 * MILLISECOND
  const MINUTE: int := 60 * SECOND

  // ---------------------------------------------------------------------------
  // Pow
  // ---------------------------------------------------------------------------

  /** a raised to the n-th power, over the unbounded integers. */
  function Power(a: int, n: nat): int
    decreases n
  {
    if n == 0 then 1 else a * Power(a, n - 1)
  }

  lemma {:induction false} PowerAdd(a: int, m: nat, n: nat)
    ensures Power(a, m + n) == Power(a, m) * Power(a, n)
    decreases m
  {
    if m > 0 {
      PowerAdd(a, m - 1, n);
      assert Power(a, m + n) == a * Power(a, m - 1 + n);
    }
  }

  lemma {:induction false} PowerOfProduct(a: int, b: int, n: nat)
    ensures Power(a * b, n) == Power(a, n) * Power(b, n)
    decreases n
  {
    if n > 0 {
      PowerOfProduct(a, b, n - 1);
      calc {
        Power(a * b, n);
        a * b * (Power(a, n - 1) * Power(b, n - 1));
        (a * Power(a, n - 1)) * (b * Power(b, n - 1));
      }
    }
  }

  /** The step of square-and-multiply: a^b = a^(b mod 2) * (a*a)^(b div 2). */
  lemma PowerHalve(a: int, b: nat)
    ensures Power(a, b) == (if b % 2 == 1 then a else 1) * Power(a * a, b / 2)
  {
    var h := b / 2;
    PowerAdd(a, h, h);
    PowerOfProduct(a, a, h);
    if b % 2 == 1 {
      assert b == 2 * h + 1;
      assert Power(a, b) == a * Power(a, 2 * h);
    } else {
      assert b == 2 * h;
    }
  }

  lemma {:induction false} PowerCongruent(a: int, a': int, n: nat)
    requires Congruent64(a, a')
    ensures Congruent64(Power(a, n), Power(a', n))
    decreases n
  {
    if n > 0 {
      PowerCongruent(a, a', n - 1);
      MulCongruent(a, a', Power(a, n - 1), Power(a', n - 1));
    }
  }

  lemma {:induction false} PowerOfOne(n: nat)
    ensures Power(1, n) == 1
    decreases n
  {
    if n > 0 {
      PowerOfOne(n - 1);
    }
  }

  lemma CongruentTransitive(x: int, y: int, z: int)
    requires Congruent64(x, y) && Congruent64(y, z)
    ensures Congruent64(x, z)
  {
    var k := (x - y) / TWO_64;
    var j := (y - z) / TWO_64;
    assert x - z == (k + j) * TWO_64;
  }

  /** The loop invariant of Pow: the pending product p * a^b is, as a word, the target power. */
  predicate PowInvariant(p: int, a: int, b: nat, target: int) {
    Congruent64(p * Power(a, b), target)
  }

  /** One iteration of Pow's loop keeps p * a^b congruent to the target power. */
  lemma PowStep(p: int, a: int, b: nat, target: int)
    requires b > 0 && PowInvariant(p, a, b, target)
    ensures PowInvariant(if b % 2 == 1 then Int64(p * a) else p, Int64(a * a), b / 2, target)
  {
    var m := if b % 2 == 1 then a else 1;
    var p' := if b % 2 == 1 then Int64(p * a) else p;
    var r := Power(a * a, b / 2);
    var r' := Power(Int64(a * a), b / 2);
    PowerHalve(a, b);
    assert Power(a, b) == m * r;
    assert Congruent64(p', p * m);
    PowerCongruent(Int64(a * a), a * a, b / 2);
    MulCongruent(p', p * m, r', r);
    assert p * m * r == p * Power(a, b);
    CongruentTransitive(p' * r', p * Power(a, b), target);
  }

  /** When the exponent is used up, the accumulator is the wrapped target power. */
  lemma PowDone(p: int, a: int, target: int)
    requires IsInt64(p) && PowInvariant(p, a, 0, target)
    ensures p == Int64(target)
  {
    CongruentTransitive(p, target, Int64(target));
    CongruentInRange(p, Int64(target));
  }

  /** What `Pow` computes: 1 for a non-positive exponent, otherwise a^b wrapped to an int64. */
  function PowResult(a: int, b: int): int {
    if b <= 0 then 1 else Int64(Power(a, b))
  }

  /**
   * Go's `Pow` (utils/algo.go): square-and-multiply on 64-bit words. For a
   * non-negative exponent the result is a^b wrapped to an int64; for a
   * non-positive exponent the loop never runs and the result is 1.
   */
  method Pow(a0: int, b0: int) returns (p: int)
    requires IsInt64(a0) && IsInt64(b0)
    ensures p == PowResult(a0, b0)
    ensures b0 <= 0 ==> p == 1
    ensures b0 >= 0 ==> p == Int64(Power(a0, b0))
  {
    var a, b := a0, b0;
    p := 1;
    while b > 0
      invariant IsInt64(a) && IsInt64(p)
      invariant b0 <= 0 ==> b == b0 && p == 1
      invariant b0 > 0 ==> 0 <= b && PowInvariant(p, a, b, Power(a0, b0))
      decreases if b > 0 then b else 0
    {
      PowStep(p, a, b, Power(a0, b0));
      p, a, b := if b % 2 == 1 then Int64(p * a) else p, Int64(a * a), b / 2;
    }
    if b0 > 0 {
      PowDone(p, a, Power(a0, b0));
    }
  }

  /** The cases of the source's table test that the code satisfies. */
  lemma PowExamples()
    ensures Int64(Power(0, 0)) == 1 && Int64(Power(0, 1)) == 0
    ensures Int64(Power(-1, 0)) == 1 && Int64(Power(1, 0)) == 1
    ensures Int64(Power(1, 300)) == 1
    ensures Int64(Power(2, 2)) == 4 && Int64(Power(3, 3)) == 27
    ensures Int64(Power(2, 10)) == 1024
  {
    PowerOfOne(300);
    Int64Identity(1);
    Int64Identity(0);
    assert Power(2, 10) == 1024;
    Int64Identity(1024);
    Int64Identity(27);
    Int64Identity(4);
  }

  // ---------------------------------------------------------------------------
  // FNV-1a, 64 bit
  // ---------------------------------------------------------------------------

  const FNV_OFFSET64: bv64 := 14695981039346656037
  const FNV_PRIME64: bv64 := 1099511628211

  /** One FNV-1a round: xor the byte in, then multiply by the prime modulo 2^64. */
  function FnvRound(h: bv64, b: byte): bv64 {
    (h ^ (b as bv64)) * FNV_PRIME64
  }

  /** The rounds over s, starting from the running hash h. */
  function FnvFold(h: bv64, s: Bytes): bv64
    decreases |s|, 1
  {
    if |s| == 0 then h else FnvFoldRest(h, s)
  }

  /**
   * The first round over a non-empty s, then the rest. Kept apart from
   * FnvFold so that unfolding FnvFold once does not expose the 64-bit
   * multiplication of a round.
   */
  function FnvFoldRest(h: bv64, s: Bytes): bv64
    requires |s| > 0
    decreases |s|, 0
  {
    FnvFold(FnvRound(h, s[0]), s[1..])
  }

  /** FNV-1a 64 as defined by Fowler, Noll and Vo: the rounds from the offset basis. */
  function Fnv1a64(s: Bytes): bv64 {
    FnvFold(FNV_OFFSET64, s)
  }

  /** Hashing is incremental: hashing a + b continues from the hash of a. */
  lemma {:induction false} FnvFoldConcat(h: bv64, a: Bytes, b: Bytes)
    ensures FnvFold(h, a + b) == FnvFold(FnvFold(h, a), b)
    decreases |a|
  {
    if |a| > 0 {
      assert (a + b)[0] == a[0] && (a + b)[1..] == a[1..] + b;
      assert FnvFold(h, a + b) == FnvFold(FnvRound(h, a[0]), a[1..] + b);
      assert FnvFold(h, a) == FnvFold(FnvRound(h, a[0]), a[1..]);
      FnvFoldConcat(FnvRound(h, a[0]), a[1..], b);
    } else {
      assert a + b == b;
    }
  }

  /** Two standard values: the empty string hashes to the offset basis; "a" to 0xaf63dc4c8601ec8c. */
  lemma FnvKnownValues()
    ensures Fnv1a64([]) == FNV_OFFSET64
    ensures Fnv1a64([0x61]) == 0xaf63dc4c8601ec8c
  {
    assert Fnv1a64([0x61]) == FnvRound(FNV_OFFSET64, 0x61);
  }

  /** Go's `FNVSum64`: the FNV-1a 64 loop over the bytes of the key. */
  method FnvSum64(key: Bytes) returns (hash: bv64)
    ensures hash == Fnv1a64(key)
  {
    hash := FNV_OFFSET64;
    var i := 0;
    while i < |key|
      invariant 0 <= i <= |key|
      invariant FnvFold(hash, key[i..]) == Fnv1a64(key)
    {
      assert key[i..][1..] == key[i + 1..];
      hash := FnvRound(hash, key[i]);
      i := i + 1;
    }
  }

  // ---------------------------------------------------------------------------
  // Comparisons
  // ---------------------------------------------------------------------------

  /** Go's `CompareByteSlices`: equal length and equal bytes. */
  method CompareByteSlices(s1: Bytes, s2: Bytes) returns (r: bool)
    ensures r <==> s1 == s2
  {
    if |s1| != |s2| {
      return false;
    }
    var i := 0;
    while i < |s1|
      invariant 0 <= i <= |s1|
      invariant s1[..i] == s2[..i]
    {
      if s1[i] != s2[i] {
        return false;
      }
      assert s1[..i + 1] == s1[..i] + [s1[i]];
      assert s2[..i + 1] == s2[..i] + [s2[i]];
      i := i + 1;
    }
    assert s1 == s1[..i] && s2 == s2[..i];
    return true;
  }

  lemma {:induction false} SubsetOfSameSize<T>(a: set<T>, b: set<T>)
    requires a <= b && |a| == |b|
    ensures a == b
    decreases a
  {
    if a != {} {
      var x :| x in a;
      SubsetOfSameSize(a - {x}, b - {x});
      assert a == (a - {x}) + {x} && b == (b - {x}) + {x};
    }
  }

  /** Go's `CompareStringByteMaps`: same number of keys, and each key of m1 maps to equal bytes in m2. */
  method CompareStringByteMaps(m1: map<Bytes, Bytes>, m2: map<Bytes, Bytes>) returns (r: bool)
    ensures r <==> m1 == m2
  {
    if |m1| != |m2| {
      return false;
    }
    var rest := m1.Keys;
    while rest != {}
      invariant rest <= m1.Keys
      invariant forall k :: k in m1 && k !in rest ==> k in m2 && m2[k] == m1[k]
      decreases rest
    {
      var k :| k in rest;
      if k !in m2 {
        return false;
      }
      var same := CompareByteSlices(m1[k], m2[k]);
      if !same {
        return false;
      }
      rest := rest - {k};
    }
    assert m1.Keys <= m2.Keys;
    assert |m1.Keys| == |m1| && |m2.Keys| == |m2|;
    SubsetOfSameSize(m1.Keys, m2.Keys);
    return true;
  }

  /** Go's `FindInSliceString`: linear search for p. */
  method FindInSliceString(p: Bytes, s: seq<Bytes>) returns (r: bool)
    ensures r <==> p in s
  {
    var i := 0;
    while i < |s|
      invariant 0 <= i <= |s|
      invariant p !in s[..i]
    {
      if s[i] == p {
        return true;
      }
      assert s[..i + 1] == s[..i] + [s[i]];
      i := i + 1;
    }
    assert s[..i] == s;
    return false;
  }

  // ---------------------------------------------------------------------------
  // Sorting strings (byte-wise lexicographic order, as Go compares strings)
  // ---------------------------------------------------------------------------

  /** a <= b in Go's byte-wise string order. */
  predicate LexLe(a: Bytes, b: Bytes)
    decreases |a|
  {
    |a| == 0 || (|b| > 0 && (a[0] < b[0] || (a[0] == b[0] && LexLe(a[1..], b[1..]))))
  }

  lemma {:induction false} LexLeTotal(a: Bytes, b: Bytes)
    ensures LexLe(a, b) || LexLe(b, a)
    decreases |a|
  {
    if |a| > 0 && |b| > 0 && a[0] == b[0] {
      LexLeTotal(a[1..], b[1..]);
    }
  }

  lemma {:induction false} LexLeAntisymmetric(a: Bytes, b: Bytes)
    requires LexLe(a, b) && LexLe(b, a)
    ensures a == b
    decreases |a|
  {
    if |a| > 0 {
      LexLeAntisymmetric(a[1..], b[1..]);
      assert a == [a[0]] + a[1..] && b == [b[0]] + b[1..];
    }
  }

  lemma {:induction false} LexLeTransitive(a: Bytes, b: Bytes, c: Bytes)
    requires LexLe(a, b) && LexLe(b, c)
    ensures LexLe(a, c)
    decreases |a|
  {
    if |a| > 0 && a[0] == b[0] && b[0] == c[0] {
      LexLeTransitive(a[1..], b[1..], c[1..]);
    }
  }

  predicate Sorted(s: seq<Bytes>) {
    forall i, j :: 0 <= i < j < |s| ==> LexLe(s[i], s[j])
  }

  /** Inserts x before the first element it does not exceed. */
  function Insert(x: Bytes, s: seq<Bytes>): (r: seq<Bytes>)
    ensures multiset(r) == multiset(s) + multiset{x}
    decreases |s|
  {
    if |s| == 0 then [x]
    else if LexLe(x, s[0]) then [x] + s
    else
      assert s == [s[0]] + s[1..];
      [s[0]] + Insert(x, s[1..])
  }

  lemma {:induction false} InsertSorted(x: Bytes, s: seq<Bytes>)
    requires Sorted(s)
    ensures Sorted(Insert(x, s))
    decreases |s|
  {
    if |s| > 0 {
      if LexLe(x, s[0]) {
        forall j | 1 < j < |s| + 1
          ensures LexLe(x, ([x] + s)[j])
        {
          LexLeTransitive(x, s[0], s[j - 1]);
        }
      } else {
        LexLeTotal(x, s[0]);
        InsertSorted(x, s[1..]);
        var t := Insert(x, s[1..]);
        forall j | 0 <= j < |t|
          ensures LexLe(s[0], t[j])
        {
          assert t[j] in multiset(t);
          assert t[j] in multiset(s[1..]) || t[j] == x;
          if t[j] != x {
            var k :| 0 <= k < |s[1..]| && s[1..][k] == t[j];
            assert s[k + 1] == t[j];
          }
        }
      }
    }
  }

  /** A sorted permutation of s: insertion sort, standing for Go's `sort.Strings`. */
  function SortStrings(s: seq<Bytes>): (r: seq<Bytes>)
    ensures multiset(r) == multiset(s)
    decreases |s|
  {
    if |s| == 0 then []
    else
      assert s == [s[0]] + s[1..];
      Insert(s[0], SortStrings(s[1..]))
  }

  lemma {:induction false} SortStringsSorted(s: seq<Bytes>)
    ensures Sorted(SortStrings(s))
    decreases |s|
  {
    if |s| > 0 {
      SortStringsSorted(s[1..]);
      InsertSorted(s[0], SortStrings(s[1..]));
    }
  }

  /** The head of a sorted sequence does not exceed any of its elements. */
  lemma SortedHeadIsLeast(s: seq<Bytes>, x: Bytes)
    requires Sorted(s) && x in s
    ensures LexLe(s[0], x)
  {
    var i :| 0 <= i < |s| && s[i] == x;
    if i == 0 {
      LexLeTotal(x, x);
    }
  }

  lemma SortedTail(s: seq<Bytes>)
    requires Sorted(s) && |s| > 0
    ensures Sorted(s[1..])
  {
    forall i, j | 0 <= i < j < |s| - 1
      ensures LexLe(s[1..][i], s[1..][j])
    {
      assert s[1..][i] == s[i + 1] && s[1..][j] == s[j + 1];
    }
  }

  lemma MultisetTail(s: seq<Bytes>)
    requires |s| > 0
    ensures multiset(s[1..]) == multiset(s) - multiset{s[0]}
  {
    assert s == [s[0]] + s[1..];
  }

  lemma SortedSameHead(s: seq<Bytes>, t: seq<Bytes>)
    requires Sorted(s) && Sorted(t) && multiset(s) == multiset(t) && |s| > 0
    ensures |t| > 0 && s[0] == t[0]
  {
    assert s[0] in multiset(t);
    assert t[0] in multiset(s);
    SortedHeadIsLeast(s, t[0]);
    SortedHeadIsLeast(t, s[0]);
    LexLeAntisymmetric(s[0], t[0]);
  }

  /** Two sorted sequences holding the same multiset are the same sequence. */
  lemma {:induction false} SortedUnique(s: seq<Bytes>, t: seq<Bytes>)
    requires Sorted(s) && Sorted(t) && multiset(s) == multiset(t)
    ensures s == t
    decreases |s|
  {
    assert |t| == |multiset(t)| == |s|;
    if |s| > 0 {
      SortedSameHead(s, t);
      MultisetTail(s);
      MultisetTail(t);
      SortedTail(s);
      SortedTail(t);
      SortedUnique(s[1..], t[1..]);
      assert s == [s[0]] + s[1..] && t == [t[0]] + t[1..];
    }
  }

  /** Sorts the array in place (Go's `sort.Strings`), leaving a sorted permutation. */
  method SortInPlace(a: array<Bytes>)
    modifies a
    ensures a[..] == SortStrings(old(a[..]))
    ensures Sorted(a[..]) && multiset(a[..]) == multiset(old(a[..]))
  {
    var sorted := SortStrings(a[..]);
    SortStringsSorted(a[..]);
    assert |sorted| == |multiset(sorted)| == a.Length;
    var i := 0;
    while i < a.Length
      invariant 0 <= i <= a.Length
      invariant forall k :: 0 <= k < i ==> a[k] == sorted[k]
    {
      a[i] := sorted[i];
      i := i + 1;
    }
    assert a[..] == sorted;
  }

  /**
   * Go's `CompareStringSlicesUnordered`: sorts both slices in place, then
   * compares them element by element. The answer is whether the two slices
   * hold the same strings with the same multiplicities.
   */
  method CompareStringSlicesUnordered(s1: array<Bytes>, s2: array<Bytes>) returns (r: bool)
    modifies s1, s2
    ensures r <==> multiset(old(s1[..])) == multiset(old(s2[..]))
    ensures Sorted(s1[..]) && multiset(s1[..]) == multiset(old(s1[..]))
    ensures Sorted(s2[..]) && multiset(s2[..]) == multiset(old(s2[..]))
  {
    SortInPlace(s1);
    ghost var sorted1 := s1[..];
    SortInPlace(s2);
    assert s1 != s2 ==> s1[..] == sorted1;
    var t1, t2 := s1[..], s2[..];
    if |t1| != |t2| {
      assert |multiset(t1)| != |multiset(t2)|;
      return false;
    }
    var i := 0;
    while i < |t1|
      invariant 0 <= i <= |t1|
      invariant t1[..i] == t2[..i]
    {
      if t1[i] != t2[i] {
        if multiset(t1) == multiset(t2) {
          SortedUnique(t1, t2);
        }
        return false;
      }
      assert t1[..i + 1] == t1[..i] + [t1[i]];
      assert t2[..i + 1] == t2[..i] + [t2[i]];
      i := i + 1;
    }
    assert t1 == t1[..i] && t2 == t2[..i];
    return true;
  }
}
