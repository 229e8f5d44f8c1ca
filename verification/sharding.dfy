/**
  Slicing a global word array into shards that tile it, and why the counts of the owners
  of the shards add up to the count over the whole array.
*/
module Sharding {
  import opened Words
  import opened Bitmaps
  import opened Sums

  // ----- shards

  // The first word of shard s out of n, over w words.
  function ShardStart(w: nat, n: nat, s: nat): nat
    requires n > 0
  {
    s * w / n
  }

  // It is s shares of w words out of n, rounded down.
  lemma ShardStartIsShare(w: nat, n: nat, s: nat)
    requires n > 0
    ensures n * ShardStart(w, n, s) <= s * w < n * (ShardStart(w, n, s) + 1)
  {
    ShareOf(s * w, n);
  }

  lemma ShareOf(x: nat, n: nat)
    requires n > 0
    ensures n * (x / n) <= x < n * (x / n + 1)
  {
    var q := x / n;
    assert n * (q + 1) == n * q + n;
  }

  // Where the n shards of w words begin, and where the last one ends.
  function ShardCuts(w: nat, n: nat): (cuts: seq<nat>)
    ensures |cuts| == n + 1
    ensures forall s :: 0 <= s <= n ==> cuts[s] == if n == 0 then 0 else ShardStart(w, n, s)
  {
    if n == 0 then [0] else seq(n + 1, s requires 0 <= s => ShardStart(w, n, s))
  }

  // How many of w words n shards cover: without a shard, none.
  function Reach(w: nat, n: nat): nat { if n == 0 then 0 else w }

  // The cuts divide the first w words into consecutive ranges.
  ghost predicate Tiles(cuts: seq<nat>, w: nat)
  {
    && |cuts| > 0 && cuts[0] == 0 && cuts[|cuts| - 1] == w
    && forall s, t :: 0 <= s <= t < |cuts| ==> cuts[s] <= cuts[t]
  }

  lemma ShardsTile(w: nat, n: nat)
    ensures Tiles(ShardCuts(w, n), Reach(w, n))
  {
    if n > 0 {
      DivideExact(n, w);
      forall s, t | 0 <= s <= t <= n
        ensures ShardStart(w, n, s) <= ShardStart(w, n, t)
      {
        TimesMonotone(s, t, w);
        DivideMonotone(s * w, t * w, n);
      }
    }
  }

  lemma TimesMonotone(x: nat, y: nat, w: nat)
    requires x <= y
    ensures x * w <= y * w
  {
  }

  lemma DivideExact(n: nat, w: nat)
    requires n > 0
    ensures n * w / n == w
  {
    DivideSum(n, w, 0);
  }

  lemma DivideMonotone(x: nat, y: nat, n: nat)
    requires n > 0 && x <= y
    ensures x / n <= y / n
  {
    var q, d := x / n, y / n;
    if d < q {
      MulAtLeast(n, q - d);
    }
  }

  ghost predicate Sharded<K>(global: seq<UInt64>, cuts: seq<nat>, owners: seq<K>)
  {
    && |cuts| == |owners| + 1 && cuts[|owners|] <= |global|
    && Tiles(cuts, cuts[|owners|])
  }

  // The words of shard s.
  function Shard(global: seq<UInt64>, cuts: seq<nat>, s: nat): seq<UInt64>
    requires s + 1 < |cuts| && cuts[s] <= cuts[s + 1] <= |global|
  {
    global[cuts[s]..cuts[s + 1]]
  }

  // What an owner stores of the first upto shards: its shards, one after another.
  function Slice<K(==)>(global: seq<UInt64>, cuts: seq<nat>, owners: seq<K>, key: K, upto: nat): seq<UInt64>
    requires Sharded(global, cuts, owners) && upto <= |owners|
  {
    if upto == 0 then []
    else
      Slice(global, cuts, owners, key, upto - 1)
      + (if owners[upto - 1] == key then Shard(global, cuts, upto - 1) else [])
  }

  // The slices of two arrays under one owner are aligned.
  lemma {:induction false} SlicesAligned<K>(a: seq<UInt64>, b: seq<UInt64>, cuts: seq<nat>, owners: seq<K>,
                                            key: K, upto: nat)
    requires Sharded(a, cuts, owners) && Sharded(b, cuts, owners) && upto <= |owners|
    ensures |Slice(a, cuts, owners, key, upto)| == |Slice(b, cuts, owners, key, upto)|
  {
    if upto == 0 {
    } else {
      SlicesAligned(a, b, cuts, owners, key, upto - 1);
    }
  }

  function ShardCount(a: seq<UInt64>, b: seq<UInt64>, cuts: seq<nat>, s: nat): nat
    requires s + 1 < |cuts| && cuts[s] <= cuts[s + 1] <= |a| && cuts[s + 1] <= |b|
  {
    AndCount(Shard(a, cuts, s), Shard(b, cuts, s))
  }

  // The counts of the shards of one owner, added up.
  function OwnedCount<K(==)>(a: seq<UInt64>, b: seq<UInt64>, cuts: seq<nat>, owners: seq<K>, key: K, upto: nat): nat
    requires Sharded(a, cuts, owners) && Sharded(b, cuts, owners) && upto <= |owners|
  {
    if upto == 0 then 0
    else
      OwnedCount(a, b, cuts, owners, key, upto - 1)
      + (if owners[upto - 1] == key then ShardCount(a, b, cuts, upto - 1) else 0)
  }

  // An owner of all shards stores the whole array, in its order.
  lemma {:induction false} OneOwnerHoldsAll<K>(g: seq<UInt64>, cuts: seq<nat>, owners: seq<K>, key: K, upto: nat)
    requires Sharded(g, cuts, owners) && upto <= |owners|
    requires forall s :: 0 <= s < |owners| ==> owners[s] == key
    ensures cuts[upto] <= |g| && Slice(g, cuts, owners, key, upto) == g[..cuts[upto]]
  {
    if upto == 0 {
    } else {
      OneOwnerHoldsAll(g, cuts, owners, key, upto - 1);
      assert g[..cuts[upto]] == g[..cuts[upto - 1]] + g[cuts[upto - 1]..cuts[upto]];
    }
  }

  // What an owner stores of the first shards are words of those shards.
  lemma {:induction false} SliceLength<K>(g: seq<UInt64>, cuts: seq<nat>, owners: seq<K>, key: K, upto: nat)
    requires Sharded(g, cuts, owners) && upto <= |owners|
    ensures |Slice(g, cuts, owners, key, upto)| <= cuts[upto]
  {
    if upto == 0 {
    } else {
      SliceLength(g, cuts, owners, key, upto - 1);
      assert cuts[upto - 1] <= cuts[upto];
    }
  }

  // That is what the owner counts over its stored slices.
  lemma {:induction false} SliceCount<K>(a: seq<UInt64>, b: seq<UInt64>, cuts: seq<nat>, owners: seq<K>,
                                         key: K, upto: nat)
    requires Sharded(a, cuts, owners) && Sharded(b, cuts, owners) && upto <= |owners|
    ensures AndCount(Slice(a, cuts, owners, key, upto), Slice(b, cuts, owners, key, upto)) ==
            OwnedCount(a, b, cuts, owners, key, upto)
  {
    if upto == 0 {
    } else {
      var s := upto - 1;
      SliceCount(a, b, cuts, owners, key, s);
      SlicesAligned(a, b, cuts, owners, key, s);
      if owners[s] == key {
        AndCountConcat(Slice(a, cuts, owners, key, s), Slice(b, cuts, owners, key, s),
                       Shard(a, cuts, s), Shard(b, cuts, s));
      } else {
        assert Slice(a, cuts, owners, key, upto) == Slice(a, cuts, owners, key, s);
        assert Slice(b, cuts, owners, key, upto) == Slice(b, cuts, owners, key, s);
      }
    }
  }

  // The counts of all shards, whoever owns them.
  function AllCount<K>(a: seq<UInt64>, b: seq<UInt64>, cuts: seq<nat>, owners: seq<K>, upto: nat): nat
    requires Sharded(a, cuts, owners) && Sharded(b, cuts, owners) && upto <= |owners|
  {
    if upto == 0 then 0 else AllCount(a, b, cuts, owners, upto - 1) + ShardCount(a, b, cuts, upto - 1)
  }

  // The shards leave no gap and do not overlap.
  lemma {:induction false} AllCountIsPrefix<K>(a: seq<UInt64>, b: seq<UInt64>, cuts: seq<nat>, owners: seq<K>, upto: nat)
    requires Sharded(a, cuts, owners) && Sharded(b, cuts, owners) && upto <= |owners|
    ensures cuts[upto] <= |a| && cuts[upto] <= |b|
    ensures AllCount(a, b, cuts, owners, upto) == AndCount(a[..cuts[upto]], b[..cuts[upto]])
  {
    if upto == 0 {
    } else {
      AllCountIsPrefix(a, b, cuts, owners, upto - 1);
      PrefixGrows(a, b, cuts[upto - 1], cuts[upto]);
    }
  }

  lemma PrefixGrows(a: seq<UInt64>, b: seq<UInt64>, lo: nat, hi: nat)
    requires lo <= hi <= |a| && hi <= |b|
    ensures AndCount(a[..hi], b[..hi]) == AndCount(a[..lo], b[..lo]) + AndCount(a[lo..hi], b[lo..hi])
  {
    assert a[..hi] == a[..lo] + a[lo..hi] && b[..hi] == b[..lo] + b[lo..hi];
    AndCountConcat(a[..lo], b[..lo], a[lo..hi], b[lo..hi]);
  }

  // ----- the main fact

  ghost function Counts<K(!new)>(keys: set<K>, a: seq<UInt64>, b: seq<UInt64>, cuts: seq<nat>, owners: seq<K>,
                                 upto: nat): map<K, nat>
    requires Sharded(a, cuts, owners) && Sharded(b, cuts, owners) && upto <= |owners|
  {
    map k | k in keys :: OwnedCount(a, b, cuts, owners, k, upto)
  }

  // Every shard that has words has its owner among the keys.
  ghost predicate Served<K>(keys: set<K>, cuts: seq<nat>, owners: seq<K>)
    requires |cuts| == |owners| + 1
  {
    forall s :: 0 <= s < |owners| && owners[s] !in keys ==> cuts[s] == cuts[s + 1]
  }

  lemma {:induction false} CountsAddUp<K(!new)>(keys: set<K>, a: seq<UInt64>, b: seq<UInt64>, cuts: seq<nat>,
                                                owners: seq<K>, upto: nat)
    requires Sharded(a, cuts, owners) && Sharded(b, cuts, owners) && upto <= |owners|
    requires Served(keys, cuts, owners)
    ensures Sum(Counts(keys, a, b, cuts, owners, upto)) == AllCount(a, b, cuts, owners, upto)
  {
    if upto == 0 {
      SumOfZeros(Counts(keys, a, b, cuts, owners, 0));
    } else {
      CountsAddUp(keys, a, b, cuts, owners, upto - 1);
      CountsGrow(keys, a, b, cuts, owners, upto - 1);
    }
  }

  lemma CountsGrow<K(!new)>(keys: set<K>, a: seq<UInt64>, b: seq<UInt64>, cuts: seq<nat>, owners: seq<K>, s: nat)
    requires Sharded(a, cuts, owners) && Sharded(b, cuts, owners) && s < |owners| && Served(keys, cuts, owners)
    ensures Sum(Counts(keys, a, b, cuts, owners, s + 1)) ==
            Sum(Counts(keys, a, b, cuts, owners, s)) + ShardCount(a, b, cuts, s)
  {
    if owners[s] in keys {
      CountsStep(keys, a, b, cuts, owners, s);
      SumIncrease(Counts(keys, a, b, cuts, owners, s), owners[s], ShardCount(a, b, cuts, s));
    } else {
      NoWordsNoCount(a, b, cuts, s);
      CountsUnowned(keys, a, b, cuts, owners, s);
    }
  }

  lemma NoWordsNoCount(a: seq<UInt64>, b: seq<UInt64>, cuts: seq<nat>, s: nat)
    requires s + 1 < |cuts| && cuts[s] == cuts[s + 1] <= |a| && cuts[s + 1] <= |b|
    ensures ShardCount(a, b, cuts, s) == 0
  {
    assert Shard(a, cuts, s) == [];
  }

  // One more shard changes the count of its owner only.
  lemma CountsStep<K(!new)>(keys: set<K>, a: seq<UInt64>, b: seq<UInt64>, cuts: seq<nat>, owners: seq<K>, s: nat)
    requires Sharded(a, cuts, owners) && Sharded(b, cuts, owners) && s < |owners| && owners[s] in keys
    ensures var before := Counts(keys, a, b, cuts, owners, s);
            Counts(keys, a, b, cuts, owners, s + 1) ==
            before[owners[s] := before[owners[s]] + ShardCount(a, b, cuts, s)]
  {
  }

  lemma CountsUnowned<K(!new)>(keys: set<K>, a: seq<UInt64>, b: seq<UInt64>, cuts: seq<nat>, owners: seq<K>, s: nat)
    requires Sharded(a, cuts, owners) && Sharded(b, cuts, owners) && s < |owners| && owners[s] !in keys
    ensures Counts(keys, a, b, cuts, owners, s + 1) == Counts(keys, a, b, cuts, owners, s)
  {
  }

  // Whoever owns which shard, the counts of the owners sum to the count over all words.
  lemma DistributedCount<K(!new)>(keys: set<K>, a: seq<UInt64>, b: seq<UInt64>, w: nat, cuts: seq<nat>, owners: seq<K>)
    requires w <= |a| && w <= |b| && Tiles(cuts, w) && |cuts| == |owners| + 1
    requires Served(keys, cuts, owners)
    ensures Sum(Counts(keys, a, b, cuts, owners, |owners|)) == AndCount(a[..w], b[..w])
  {
    CountsAddUp(keys, a, b, cuts, owners, |owners|);
    AllCountIsPrefix(a, b, cuts, owners, |owners|);
  }

  // ----- owners without words

  ghost predicate OwnsNothing<K>(cuts: seq<nat>, owners: seq<K>, key: K)
    requires |cuts| == |owners| + 1
  {
    forall s :: 0 <= s < |owners| && owners[s] == key ==> cuts[s] == cuts[s + 1]
  }

  lemma {:induction false} OwnsNothingStoresNothing<K>(g: seq<UInt64>, cuts: seq<nat>, owners: seq<K>, key: K, upto: nat)
    requires Sharded(g, cuts, owners) && upto <= |owners| && OwnsNothing(cuts, owners, key)
    ensures Slice(g, cuts, owners, key, upto) == []
  {
    if upto == 0 {
    } else {
      OwnsNothingStoresNothing(g, cuts, owners, key, upto - 1);
    }
  }
}
