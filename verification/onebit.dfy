/** Word arrays with a single bit set, and who counts that bit. */
module OneBits {
  import opened Words
  import opened Bitmaps
  import opened Wire
  import opened Machines
  import opened Sharding

  // w words of which only word p is set, to one.
  function OneBit(w: nat, p: nat): (g: seq<UInt64>)
    ensures |g| == w
    ensures forall i :: 0 <= i < w ==> g[i] == if i == p then 1 else 0
  {
    seq(w, i => if i == p then 1 else 0)
  }

  lemma {:induction false} AndCountOfZeros(a: seq<UInt64>)
    requires forall i :: 0 <= i < |a| ==> a[i] == 0
    ensures AndCount(a, a) == 0
    decreases |a|
  {
    if a == [] {
    } else {
      BitCountOfZero(64);
      AndCountOfZeros(a[1..]);
    }
  }

  lemma {:induction false} BitCountOfZero(n: nat)
    ensures BitCount(0, n) == 0
  {
    if n == 0 {
    } else {
      BitOfZero(n - 1);
      BitCountOfZero(n - 1);
    }
  }

  lemma {:induction false} BitCountOfOne(n: nat)
    requires n > 0
    ensures BitCount(1, n) == 1
  {
    if n == 1 {
      assert BitCount(1, 0) == 0;
    } else {
      BitOfZero(n - 2);
      BitCountOfOne(n - 1);
    }
  }

  lemma OneWordCount()
    ensures PopCount(And(1, 1)) == 1
  {
    assert And(1, 1) == 1;
    BitCountOfOne(64);
  }

  lemma OneBitCount(w: nat, p: nat)
    requires p < w
    ensures AndCount(OneBit(w, p), OneBit(w, p)) == 1
  {
    var g := OneBit(w, p);
    assert g == g[..p] + ([1] + g[p + 1..]);
    AndCountConcat(g[..p], g[..p], [1] + g[p + 1..], [1] + g[p + 1..]);
    AndCountOfZeros(g[..p]);
    OneThenZeros(g[p + 1..]);
  }

  lemma OneThenZeros(a: seq<UInt64>)
    requires forall i :: 0 <= i < |a| ==> a[i] == 0
    ensures AndCount([1] + a, [1] + a) == 1
  {
    OneWordCount();
    AndCountOfZeros(a);
    AndCountCons(1, 1, a, a);
  }

  // Over a prefix the bit is counted if it is there.
  lemma OneBitPrefix(w: nat, p: nat, n: nat)
    requires n <= w
    ensures AndCount(OneBit(w, p)[..n], OneBit(w, p)[..n]) == if p < n then 1 else 0
  {
    if p < n {
      assert OneBit(w, p)[..n] == OneBit(n, p);
      OneBitCount(n, p);
    } else {
      AndCountOfZeros(OneBit(w, p)[..n]);
    }
  }

  // The bit at the start of shard s is counted over that shard, and over no other.
  lemma OneBitShard(w: nat, cuts: seq<nat>, s: nat, r: nat)
    requires s + 1 < |cuts| && r + 1 < |cuts| && Tiles(cuts, cuts[|cuts| - 1]) && cuts[|cuts| - 1] <= w
    requires cuts[s] < cuts[s + 1]
    ensures ShardCount(OneBit(w, cuts[s]), OneBit(w, cuts[s]), cuts, r) == if r == s then 1 else 0
  {
    var shard := Shard(OneBit(w, cuts[s]), cuts, r);
    if r == s {
      assert shard == OneBit(cuts[s + 1] - cuts[s], 0);
      OneBitCount(cuts[s + 1] - cuts[s], 0);
    } else {
      if r < s {
        assert cuts[r + 1] <= cuts[s];
      } else {
        assert cuts[s + 1] <= cuts[r];
      }
      AndCountOfZeros(shard);
    }
  }

  // Hence by its owner, and by no other key.
  lemma {:induction false} OneBitOwned<K>(w: nat, cuts: seq<nat>, owners: seq<K>, s: nat, key: K, upto: nat)
    requires |cuts| == |owners| + 1 && Tiles(cuts, cuts[|owners|]) && cuts[|owners|] <= w
    requires s < |owners| && cuts[s] < cuts[s + 1] && upto <= |owners|
    ensures var g := OneBit(w, cuts[s]);
            OwnedCount(g, g, cuts, owners, key, upto) == if s < upto && owners[s] == key then 1 else 0
  {
    if upto == 0 {
    } else {
      OneBitOwned(w, cuts, owners, s, key, upto - 1);
      OneBitShard(w, cuts, s, upto - 1);
    }
  }

  // A bit beyond all shards is counted by nobody.
  lemma {:induction false} BeyondOwned<K>(w: nat, p: nat, cuts: seq<nat>, owners: seq<K>, key: K, upto: nat)
    requires |cuts| == |owners| + 1 && Tiles(cuts, cuts[|owners|]) && cuts[|owners|] <= w
    requires cuts[|owners|] <= p && upto <= |owners|
    ensures OwnedCount(OneBit(w, p), OneBit(w, p), cuts, owners, key, upto) == 0
  {
    if upto == 0 {
    } else {
      BeyondOwned(w, p, cuts, owners, key, upto - 1);
      AndCountOfZeros(Shard(OneBit(w, p), cuts, upto - 1));
    }
  }

  // ----- a run that counts the bit

  // Load an array and count it with itself.
  function LoadAndCount(name: Name, g: seq<UInt64>): seq<Op> { [Load(name, g), CountStored(name, name)] }

  lemma LoadAndCountLocal(name: Name, w: nat, p: nat)
    requires p < w
    ensures LocalRun(map[], w, LoadAndCount(name, OneBit(w, p))) == [1]
    ensures Answerable(map[], {}, LoadAndCount(name, OneBit(w, p)))
  {
    var g := OneBit(w, p);
    var ops := LoadAndCount(name, g);
    assert ops[1..] == [CountStored(name, name)] && ops[1..][1..] == [];
    var db: Database := map[];
    OneBitPrefix(w, p, w);
    assert LocalStored(db[name := g], w, name, name) == 1;
    assert LocalRun(db[name := g], w, ops[1..]) == [1];
  }
}
