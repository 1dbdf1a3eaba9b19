/** The Bloom filter of bloom-filter/bloomfilter.go: a fixed-size bit set,
    updated in place by Add and Clear and queried by Contains, whose bit
    indices come from k seeded 64-bit hashers reduced modulo the size. */
module Bloom {

  /** Go's `uint64`. */
  newtype uint64 = x: int | 0 <= x < 0x1_0000_0000_0000_0000

  /** One seeded murmur3 hasher. It is reset after every use, so what it
      returns depends only on the item. */
  type Hasher = string -> uint64

  /** computeHashes: the i-th index is the i-th hasher's value modulo the
      bit-set size m. */
  function Indices(hashers: seq<Hasher>, m: nat, item: string): (r: seq<nat>)
    requires m > 0
    ensures |r| == |hashers|
    ensures forall i :: 0 <= i < |r| ==> r[i] < m
  {
    seq(|hashers|, i requires 0 <= i < |hashers| => hashers[i](item) as int % m)
  }

  /** The bit set after setting, one after the other, the bits at `idx`. */
  function Insert(bits: seq<bool>, idx: seq<nat>): (r: seq<bool>)
    requires forall i :: 0 <= i < |idx| ==> idx[i] < |bits|
    ensures |r| == |bits|
    ensures forall j :: 0 <= j < |bits| ==> r[j] == (bits[j] || j in idx)
    decreases |idx|
  {
    if idx == [] then bits
    else Insert(bits[idx[0] := true], idx[1..])
  }

  /** Contains' test: every index is in range and its bit is set. */
  predicate Member(bits: seq<bool>, idx: seq<nat>)
  {
    forall i :: 0 <= i < |idx| ==> idx[i] < |bits| && bits[idx[i]]
  }

  /** Adding the same item twice sets no further bit. */
  lemma InsertIdempotent(bits: seq<bool>, idx: seq<nat>)
    requires forall i :: 0 <= i < |idx| ==> idx[i] < |bits|
    ensures Insert(Insert(bits, idx), idx) == Insert(bits, idx)
  {
    var once := Insert(bits, idx);
    var twice := Insert(once, idx);
    assert forall j :: 0 <= j < |bits| ==> twice[j] == once[j];
  }

  /** Add never clears a bit. */
  lemma InsertMonotone(bits: seq<bool>, idx: seq<nat>, j: nat)
    requires forall i :: 0 <= i < |idx| ==> idx[i] < |bits|
    requires j < |bits| && bits[j]
    ensures Insert(bits, idx)[j]
  {
  }

  /** The bit set after adding each of `items` in turn. */
  function AddAll(hashers: seq<Hasher>, bits: seq<bool>, items: seq<string>): (r: seq<bool>)
    requires |bits| > 0
    ensures |r| == |bits|
    decreases |items|
  {
    if items == [] then bits
    else AddAll(hashers, Insert(bits, Indices(hashers, |bits|, items[0])), items[1..])
  }

  /** No false negatives: once x is added, x stays a member whatever is
      added afterwards, as long as the filter is not cleared. */
  lemma {:induction false} NoFalseNegatives(hashers: seq<Hasher>, bits: seq<bool>, x: string, later: seq<string>)
    requires |bits| > 0
    ensures Member(AddAll(hashers, Insert(bits, Indices(hashers, |bits|, x)), later), Indices(hashers, |bits|, x))
  {
    StaysMember(hashers, Insert(bits, Indices(hashers, |bits|, x)), Indices(hashers, |bits|, x), later);
  }

  lemma {:induction false} StaysMember(hashers: seq<Hasher>, bits: seq<bool>, idx: seq<nat>, later: seq<string>)
    requires |bits| > 0 && Member(bits, idx)
    ensures Member(AddAll(hashers, bits, later), idx)
    decreases |later|
  {
    if later != [] {
      var next := Insert(bits, Indices(hashers, |bits|, later[0]));
      assert Member(next, idx);
      StaysMember(hashers, next, idx, later[1..]);
    }
  }

  /** After Clear no item is a member when there is at least one hasher;
      with no hashers every item is (vacuously) a member. */
  lemma ClearedMembership(hashers: seq<Hasher>, m: nat, item: string)
    requires m > 0
    ensures |hashers| >= 1 ==> !Member(seq(m, j => false), Indices(hashers, m, item))
    ensures |hashers| == 0 ==> Member(seq(m, j => false), Indices(hashers, m, item))
  {
    if |hashers| >= 1 {
      var idx := Indices(hashers, m, item);
      assert idx[0] < m;
    }
  }

  class BloomFilter {
    /** The bits; the slice is allocated once and never replaced. */
    const bitSet: array<bool>
    const hashFunctions: seq<Hasher>
    const hashCount: nat

    ghost predicate Valid()
    {
      bitSet.Length > 0 && hashCount == |hashFunctions|
    }

    /** The indices computeHashes returns for `item`. */
    function Hashes(item: string): seq<nat>
      requires Valid()
    {
      Indices(hashFunctions, bitSet.Length, item)
    }

    /** A filter of m cleared bits and k given hashers (the sizing from a
        false-positive rate and the random seeds are not modelled). */
    constructor (m: nat, k: nat, hashers: seq<Hasher>)
      requires m > 0 && |hashers| == k
      ensures Valid() && fresh(bitSet)
      ensures bitSet.Length == m && hashCount == k && hashFunctions == hashers
      ensures forall j :: 0 <= j < m ==> !bitSet[j]
    {
      bitSet := new bool[m](j => false);
      hashFunctions := hashers;
      hashCount := k;
    }

    /** computeHashes: one index per hasher, each below the size; it
        changes nothing, so repeated calls give the same indices. */
    method ComputeHashes(item: string) returns (hashes: seq<nat>)
      requires Valid()
      ensures hashes == Hashes(item)
      ensures |hashes| == hashCount
      ensures forall i :: 0 <= i < |hashes| ==> hashes[i] < bitSet.Length
    {
      hashes := seq(hashCount, i => 0);
      for i := 0 to hashCount
        invariant |hashes| == hashCount
        invariant forall j :: 0 <= j < i ==> hashes[j] == hashFunctions[j](item) as int % bitSet.Length
      {
        hashes := hashes[i := hashFunctions[i](item) as int % bitSet.Length];
      }
    }

    /** Add: sets every bit at the item's indices; every other bit keeps
        its value. */
    method Add(item: string)
      requires Valid()
      modifies bitSet
      ensures bitSet[..] == Insert(old(bitSet[..]), Hashes(item))
      ensures forall j :: 0 <= j < bitSet.Length ==> bitSet[j] == (old(bitSet[j]) || j in Hashes(item))
    {
      var hashes := ComputeHashes(item);
      for k := 0 to |hashes|
        invariant forall j :: 0 <= j < bitSet.Length ==> bitSet[j] == (old(bitSet[j]) || j in hashes[..k])
      {
        bitSet[hashes[k]] := true;
        assert hashes[..k + 1] == hashes[..k] + [hashes[k]];
      }
      assert hashes[..|hashes|] == hashes;
      assert bitSet[..] == Insert(old(bitSet[..]), hashes);
    }

    /** Contains: true exactly when every bit at the item's indices is set. */
    method Contains(item: string) returns (found: bool)
      requires Valid()
      ensures found <==> Member(bitSet[..], Hashes(item))
    {
      var hashes := ComputeHashes(item);
      for k := 0 to |hashes|
        invariant forall i :: 0 <= i < k ==> bitSet[hashes[i]]
      {
        if !bitSet[hashes[k]] {
          return false;
        }
      }
      return true;
    }

    /** Clear: every bit false, the size unchanged. */
    method Clear()
      requires Valid()
      modifies bitSet
      ensures bitSet[..] == seq(bitSet.Length, j => false)
    {
      for i := 0 to bitSet.Length
        invariant forall j :: 0 <= j < i ==> !bitSet[j]
      {
        bitSet[i] := false;
      }
      assert bitSet[..] == seq(bitSet.Length, j => false);
    }

    method Size() returns (n: nat)
      ensures n == bitSet.Length
    {
      n := bitSet.Length;
    }

    method HashCount() returns (k: nat)
      ensures k == hashCount
    {
      k := hashCount;
    }

    /** BitSet returns the filter's own slice, not a copy. */
    method BitSet() returns (bits: array<bool>)
      ensures bits == bitSet
    {
      bits := bitSet;
    }
  }

  /** The scenario of bloomfilter_test.go's TestAddAndContains on the object:
      an added item is still reported present after any further Adds. */
  method AddedStaysPresent(bf: BloomFilter, x: string, later: seq<string>) returns (found: bool)
    requires bf.Valid()
    modifies bf.bitSet
    ensures found
  {
    bf.Add(x);
    for k := 0 to |later|
      invariant Member(bf.bitSet[..], bf.Hashes(x))
    {
      bf.Add(later[k]);
    }
    found := bf.Contains(x);
  }

  /** The scenario of TestClear: after Clear an added item is reported
      absent, provided the filter has at least one hasher. */
  method ClearForgets(bf: BloomFilter, x: string) returns (before: bool, after: bool)
    requires bf.Valid() && bf.hashCount >= 1
    modifies bf.bitSet
    ensures before && !after
  {
    bf.Add(x);
    before := bf.Contains(x);
    bf.Clear();
    after := bf.Contains(x);
    ClearedMembership(bf.hashFunctions, bf.bitSet.Length, x);
  }
}
