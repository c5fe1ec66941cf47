/** `ConcurrentMap<K, V>`: a map split into a fixed number of shards, each
    guarded by its own mutex. The model is sequential (the mutexes are left
    out), with integer keys and `double` values held as `real`. */
module Concurrent {
  import opened Common

  /** `key % concurrent_map.size()` converts the key to `size_t` first, so a
      negative key wraps modulo 2^64. */
  const SizeRange: int := 0x1_0000_0000_0000_0000

  /** The shard a key lives in. */
  function ShardOf(key: int, count: nat): (i: nat)
    requires count > 0
    ensures i < count
    ensures 0 <= key < SizeRange ==> i == key % count
  {
    (key % SizeRange) % count
  }

  /** `result[key] += value` for every entry of `m`. */
  function Combine(acc: map<int, real>, m: map<int, real>): map<int, real>
  {
    map k | k in acc.Keys + m.Keys :: Lookup(acc, k) + Lookup(m, k)
  }

  /** The first `n` shards folded into one map. */
  function Merged(shards: seq<map<int, real>>, n: nat): map<int, real>
    requires n <= |shards|
  {
    if n == 0 then map[] else Combine(Merged(shards, n - 1), shards[n - 1])
  }

  /** The sum of `key`'s values over the first `n` shards. */
  function Total(shards: seq<map<int, real>>, n: nat, key: int): real
    requires n <= |shards|
  {
    if n == 0 then 0.0 else Total(shards, n - 1, key) + Lookup(shards[n - 1], key)
  }

  /** The folded map holds the keys of all shards, each with its sum across
      the shards. */
  lemma {:induction false} MergedSpec(shards: seq<map<int, real>>, n: nat)
    requires n <= |shards|
    ensures forall k :: k in Merged(shards, n) <==> exists i :: 0 <= i < n && k in shards[i]
    ensures forall k :: Lookup(Merged(shards, n), k) == Total(shards, n, k)
  {
    if n > 0 {
      MergedSpec(shards, n - 1);
    }
  }

  /** Every key is in the shard `ShardOf` picks for it. */
  ghost predicate Sharded(shards: seq<map<int, real>>)
  {
    forall i, k :: 0 <= i < |shards| && k in shards[i] ==> ShardOf(k, |shards|) == i
  }

  /** A key held only by shard `j` sums to its value there. */
  lemma {:induction false} TotalOfOneShard(shards: seq<map<int, real>>, n: nat, key: int, j: nat)
    requires n <= |shards|
    requires forall i :: 0 <= i < n && i != j ==> key !in shards[i]
    ensures Total(shards, n, key) == if j < n then Lookup(shards[j], key) else 0.0
  {
    if n > 0 {
      TotalOfOneShard(shards, n - 1, key, j);
    }
  }

  /** Under the sharding invariant, `BuildOrdinaryMap` gives each key the
      value of its own shard: the sum over the shards adds only zeros. */
  lemma MergedSharded(shards: seq<map<int, real>>)
    requires |shards| > 0 && Sharded(shards)
    ensures forall k :: k in Merged(shards, |shards|) <==> k in shards[ShardOf(k, |shards|)]
    ensures forall k :: k in Merged(shards, |shards|) ==>
      Merged(shards, |shards|)[k] == shards[ShardOf(k, |shards|)][k]
  {
    MergedSpec(shards, |shards|);
    forall k | k in Merged(shards, |shards|)
      ensures Merged(shards, |shards|)[k] == shards[ShardOf(k, |shards|)][k]
    {
      TotalOfOneShard(shards, |shards|, k, ShardOf(k, |shards|));
      assert Lookup(Merged(shards, |shards|), k) == Total(shards, |shards|, k);
    }
    forall k | k in shards[ShardOf(k, |shards|)]
      ensures k in Merged(shards, |shards|)
    {
      var i := ShardOf(k, |shards|);
      assert 0 <= i < |shards| && k in shards[i];
    }
  }

  class ConcurrentMap {
    /** The `Item`s, one `std::map` per shard; the vector never resizes. */
    const shards: array<map<int, real>>

    ghost predicate Valid()
      reads this, shards
    {
      Sharded(shards[..])
    }

    /** `ConcurrentMap(bucket_count)`: that many empty shards. */
    constructor(bucketCount: nat)
      ensures Valid()
      ensures fresh(shards) && shards.Length == bucketCount
      ensures forall i :: 0 <= i < bucketCount ==> shards[i] == map[]
    {
      shards := new map<int, real>[bucketCount](_ => map[]);
    }

    /** `operator[]` read through: the key's shard default-inserts it, no
        other shard changes. */
    method Access(key: int) returns (value: real)
      requires Valid() && shards.Length > 0
      modifies shards
      ensures Valid()
      ensures var i := ShardOf(key, shards.Length);
        && shards[i] == (if key in old(shards[i]) then old(shards[i]) else old(shards[i])[key := 0.0])
        && value == Lookup(old(shards[i]), key)
      ensures forall j :: 0 <= j < shards.Length && j != ShardOf(key, shards.Length) ==> shards[j] == old(shards[j])
    {
      var i := ShardOf(key, shards.Length);
      if key !in shards[i] {
        shards[i] := shards[i][key := 0.0];
      }
      value := shards[i][key];
    }

    /** `operator[]` written through: the key's shard maps it to `value`, no
        other shard changes. */
    method Assign(key: int, value: real)
      requires Valid() && shards.Length > 0
      modifies shards
      ensures Valid()
      ensures shards[ShardOf(key, shards.Length)] == old(shards[ShardOf(key, shards.Length)])[key := value]
      ensures forall j :: 0 <= j < shards.Length && j != ShardOf(key, shards.Length) ==> shards[j] == old(shards[j])
    {
      var i := ShardOf(key, shards.Length);
      shards[i] := shards[i][key := value];
    }

    /** `BuildOrdinaryMap`: every shard folded into one map by summation;
        the shards are only read. */
    method BuildOrdinaryMap() returns (result: map<int, real>)
      ensures result == Merged(shards[..], shards.Length)
    {
      result := map[];
      var i := 0;
      while i < shards.Length
        invariant 0 <= i <= shards.Length
        invariant result == Merged(shards[..], i)
      {
        result := AddShard(result, shards[i]);
        i := i + 1;
      }
    }

    /** The inner loop: `result[key] += value` for each entry of one shard. */
    static method AddShard(acc: map<int, real>, shard: map<int, real>) returns (result: map<int, real>)
      ensures result == Combine(acc, shard)
    {
      result := acc;
      var rest := shard.Keys;
      while exists k :: k in rest
        invariant rest <= shard.Keys
        invariant forall k :: k in result <==> k in acc || (k in shard && k !in rest)
        invariant forall k :: k in result ==>
          result[k] == Lookup(acc, k) + (if k in shard && k !in rest then shard[k] else 0.0)
        decreases rest
      {
        var key :| key in rest;
        result := result[key := Lookup(result, key) + shard[key]];
        rest := rest - {key};
      }
      assert rest == {};
      var combined := Combine(acc, shard);
      forall k
        ensures k in result <==> k in combined
      {
        assert k in combined <==> k in acc || k in shard;
      }
      assert forall k :: k in result ==> result[k] == combined[k];
    }
  }
}
