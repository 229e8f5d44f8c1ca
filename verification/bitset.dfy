/**
  Dense bitsets, and the bitset sharded by contiguous ranges of IDs: membership, and the
  intersection count, serial or spread over any number of workers.
*/
module Bitsets {
  import opened Words
  import opened Bitmaps

  class Bitset {
    const words: array<UInt64>

    constructor (maxId: nat)
      ensures fresh(words) && words.Length == maxId / 64 + 1
      ensures SetPositions(words[..]) == {}
    {
      words := new UInt64[maxId / 64 + 1](i => 0);
      new;
      forall p: nat
        ensures !BitAt(words[..], p)
      {
        BitOfZero(p % 64);
      }
    }

    method Set(id: nat)
      requires id < 64 * words.Length
      modifies words
      ensures SetPositions(words[..]) == SetPositions(old(words[..])) + {id}
    {
      ghost var before := words[..];
      SetBit(words, id);
      forall p: nat
        ensures p in SetPositions(words[..]) <==> p == id || p in SetPositions(before)
      {
        InSetPositions(words[..], p);
        InSetPositions(before, p);
      }
    }

    method Test(id: nat) returns (b: bool)
      requires id < 64 * words.Length
      ensures b <==> id in SetPositions(words[..])
    {
      b := TestBit(words, id);
    }

    // The scalar count.
    method AndPopcount(o: Bitset) returns (c: nat)
      ensures c == |CommonPositions(words[..], o.words[..])|
    {
      ghost var a, b := words[..], o.words[..];
      var n := if o.words.Length < words.Length then o.words.Length else words.Length;
      c := 0;
      for i := 0 to n
        invariant c == AndCount(a[..i], b[..i])
      {
        AndCountSnoc(a, b, i);
        c := c + PopCount(And(words[i], o.words[i]));
      }
      AndCountOfShorter(a, b);
      AndCountIsCardinality(a, b);
    }
  }
}

module ShardedBitsets {
  import opened Words
  import opened Bitmaps
  import opened Bitsets
  import opened Sums
  import opened Chunks

  ghost function Shift(s: set<nat>, d: nat): set<nat> { set p | p in s :: d + p }

  // The IDs of the first k shards: the set positions of each, moved to where it starts.
  ghost function Ids(shards: seq<set<nat>>, bits: nat, k: nat): set<nat>
    requires k <= |shards|
  {
    if k == 0 then {} else Ids(shards, bits, k - 1) + Shift(shards[k - 1], Base(bits, k - 1))
  }

  ghost predicate Within(shards: seq<set<nat>>, bits: nat)
  {
    forall s, p :: 0 <= s < |shards| && p in shards[s] ==> p < bits
  }

  lemma {:induction false} ShiftSize(s: set<nat>, d: nat)
    ensures |Shift(s, d)| == |s|
    decreases s
  {
    if s == {} {
    } else {
      var p :| p in s;
      ShiftSize(s - {p}, d);
      forall x
        ensures x in Shift(s, d) <==> x in Shift(s - {p}, d) + {d + p}
      {
        if x in Shift(s, d) {
          var q :| q in s && x == d + q;
          assert q == p || q in s - {p};
        }
      }
      assert Shift(s, d) == Shift(s - {p}, d) + {d + p};
    }
  }

  lemma InShift(s: set<nat>, d: nat, x: nat)
    ensures x in Shift(s, d) <==> x >= d && x - d in s
  {
    if x >= d && x - d in s {
      assert d + (x - d) == x;
    }
  }

  // An ID, as shard q and offset r, is in the set exactly when its shard has its offset.
  lemma {:induction false} InIds(shards: seq<set<nat>>, bits: nat, k: nat, q: nat, r: nat)
    requires k <= |shards| && Within(shards, bits) && r < bits
    ensures Base(bits, q) + r in Ids(shards, bits, k) <==> q < k && r in shards[q]
  {
    if k == 0 {
    } else {
      InIds(shards, bits, k - 1, q, r);
      InShift(shards[k - 1], Base(bits, k - 1), Base(bits, q) + r);
      OtherShard(bits, q, k - 1, r);
    }
  }

  // Offsets inside one shard never reach another.
  lemma OtherShard(bits: nat, q: nat, j: nat, r: nat)
    requires r < bits
    ensures q != j ==> !(Base(bits, j) <= Base(bits, q) + r < Base(bits, j) + bits)
  {
    if q < j {
      BaseApart(bits, q, j);
    } else if q > j {
      BaseApart(bits, j, q);
    }
  }

  // The sizes of the shards add up to the size of the whole.
  lemma {:induction false} SizesAddUp(shards: seq<set<nat>>, bits: nat, k: nat, counts: seq<nat>)
    requires bits > 0 && k <= |shards| == |counts| && Within(shards, bits)
    requires forall s :: 0 <= s < |counts| ==> counts[s] == |shards[s]|
    ensures |Ids(shards, bits, k)| == RangeTotal(counts, 0, k)
    decreases k
  {
    if k == 0 {
    } else {
      SizesAddUp(shards, bits, k - 1, counts);
      SizeOfNext(shards, bits, k - 1);
    }
  }

  lemma SizeOfNext(shards: seq<set<nat>>, bits: nat, k: nat)
    requires bits > 0 && k < |shards| && Within(shards, bits)
    ensures |Ids(shards, bits, k + 1)| == |Ids(shards, bits, k)| + |shards[k]|
  {
    ShiftSize(shards[k], Base(bits, k));
    ShardsApart(shards, bits, k);
  }

  lemma ShardsApart(shards: seq<set<nat>>, bits: nat, k: nat)
    requires bits > 0 && k < |shards| && Within(shards, bits)
    ensures Ids(shards, bits, k) !! Shift(shards[k], Base(bits, k))
  {
    forall x | x in Shift(shards[k], Base(bits, k))
      ensures x !in Ids(shards, bits, k)
    {
      InShift(shards[k], Base(bits, k), x);
      InIds(shards, bits, k, k, x - Base(bits, k));
    }
  }

  // The shard q and the offset r of an ID.
  ghost predicate At(bits: nat, id: nat, q: nat, r: nat)
  {
    r < bits && id == Base(bits, q) + r
  }

  lemma Split(id: nat, bits: nat) returns (q: nat, r: nat)
    requires bits > 0
    ensures At(bits, id, q, r) && q == id / bits && r == id - q * bits
  {
    q, r := id / bits, id % bits;
    BaseIsProduct(bits, q);
  }

  lemma {:induction false} IdsBelow(shards: seq<set<nat>>, bits: nat, k: nat, id: nat)
    requires k <= |shards| && Within(shards, bits) && id in Ids(shards, bits, k)
    ensures id < Base(bits, k)
  {
    if id in Ids(shards, bits, k - 1) {
      IdsBelow(shards, bits, k - 1, id);
    } else {
      InShift(shards[k - 1], Base(bits, k - 1), id);
    }
  }

  lemma OffsetFits(bits: nat, id: nat, q: nat, r: nat)
    requires At(bits, id, q, r)
    ensures r < 64 * (bits / 64 + 1)
  {
  }

  lemma Beyond(shards: seq<set<nat>>, bits: nat, id: nat)
    requires Within(shards, bits) && id >= Base(bits, |shards|)
    ensures id !in Ids(shards, bits, |shards|)
  {
    if id in Ids(shards, bits, |shards|) {
      IdsBelow(shards, bits, |shards|, id);
    }
  }

  lemma SplitUnique(bits: nat, id: nat, q: nat, r: nat, x: nat, y: nat)
    requires At(bits, id, q, r) && At(bits, id, x, y)
    ensures q == x && r == y
  {
    OtherShard(bits, q, x, r);
  }

  lemma BelowExactly(bits: nat, id: nat, q: nat, r: nat, n: nat)
    requires At(bits, id, q, r)
    ensures q < n <==> id < n * bits
  {
    BaseIsProduct(bits, n);
    if q < n {
      BaseApart(bits, q, n);
    } else if n < q {
      BaseApart(bits, n, q);
    }
  }

  // Setting offset r of shard q adds that ID and no other.
  lemma SetInShard(shards: seq<set<nat>>, bits: nat, id: nat, q: nat, r: nat, after: seq<set<nat>>)
    requires bits > 0 && At(bits, id, q, r) && q < |shards| && Within(shards, bits)
    requires after == shards[q := shards[q] + {r}]
    ensures Within(after, bits)
    ensures Ids(after, bits, |after|) == Ids(shards, bits, |shards|) + {id}
  {
    forall k: nat
      ensures k in Ids(after, bits, |after|) <==> k in Ids(shards, bits, |shards|) || k == id
    {
      var x, y := Split(k, bits);
      SetElsewhere(shards, bits, id, q, r, after, k, x, y);
    }
  }

  lemma SetElsewhere(shards: seq<set<nat>>, bits: nat, id: nat, q: nat, r: nat, after: seq<set<nat>>,
                     k: nat, x: nat, y: nat)
    requires At(bits, id, q, r) && At(bits, k, x, y) && q < |shards| && Within(shards, bits)
    requires after == shards[q := shards[q] + {r}]
    ensures k in Ids(after, bits, |after|) <==> k in Ids(shards, bits, |shards|) || k == id
  {
    InIds(after, bits, |after|, x, y);
    InIds(shards, bits, |shards|, x, y);
    if k == id {
      SplitUnique(bits, k, q, r, x, y);
    }
  }

  class ShardedBitset {
    var NumShards: nat
    var ShardBits: nat
    var shards: seq<Bitset>
    ghost var parts: seq<set<nat>>

    ghost function Arrays(): set<object>
      reads this
    {
      set b | b in shards :: b.words
    }

    // The IDs in the set.
    ghost function Contents(): set<nat>
      reads this
    {
      Ids(parts, ShardBits, |parts|)
    }

    // parts is what the shards show.
    ghost predicate Valid()
      reads this, Arrays()
    {
      && NumShards == |shards| == |parts| > 0 && ShardBits > 0
      && (forall i :: 0 <= i < |shards| ==> shards[i].words.Length == ShardBits / 64 + 1)
      && (forall i, j :: 0 <= i < j < |shards| ==> shards[i].words != shards[j].words)
      && (forall i {:trigger shards[i]} :: 0 <= i < |parts| ==> parts[i] == SetPositions(shards[i].words[..]))
      && Within(parts, ShardBits)
    }

    constructor (universe: UInt64, numShards: nat)
      requires universe > 0 && numShards > 0 && universe + numShards - 1 < WORD_LIMIT
      ensures Valid() && Contents() == {} && NumShards == numShards
      ensures ShardBits == (universe + numShards - 1) / numShards && universe <= ShardBits * numShards
    {
      CeilingCovers(universe, numShards);
      var bits := (universe + numShards - 1) / numShards;
      var made := NewShards(numShards, bits);
      NumShards, ShardBits, shards := numShards, bits, made;
      parts := seq(numShards, i => {});
      new;
      EmptyShards(parts, bits, numShards);
    }

    static method NewShards(n: nat, bits: nat) returns (made: seq<Bitset>)
      ensures |made| == n
      ensures forall k :: 0 <= k < n ==> fresh(made[k].words) && made[k].words.Length == bits / 64 + 1
      ensures forall k :: 0 <= k < n ==> SetPositions(made[k].words[..]) == {}
      ensures forall j, k :: 0 <= j < k < n ==> made[j].words != made[k].words
    {
      made := [];
      for i := 0 to n
        invariant |made| == i
        invariant forall k :: 0 <= k < i ==> fresh(made[k].words) && made[k].words.Length == bits / 64 + 1
        invariant forall k :: 0 <= k < i ==> SetPositions(made[k].words[..]) == {}
        invariant forall j, k :: 0 <= j < k < i ==> made[j].words != made[k].words
      {
        var b := new Bitset(bits);
        made := made + [b];
      }
    }

    // The shard of an ID, or -1 beyond the last shard.
    function ShardOf(id: UInt64): (sh: int)
      requires ShardBits > 0
      reads this
    {
      var sh := id / ShardBits;
      if sh >= NumShards then -1 else sh
    }

    // The shard of an ID and the offset in it.
    method Locate(id: UInt64) returns (sh: int, offset: nat)
      requires ShardBits > 0
      ensures sh < 0 <==> id >= NumShards * ShardBits
      ensures sh < 0 ==> id >= Base(ShardBits, NumShards)
      ensures sh >= 0 ==> sh < NumShards && At(ShardBits, id, sh, offset)
    {
      ghost var q, r := Split(id, ShardBits);
      BelowExactly(ShardBits, id, q, r, NumShards);
      BaseIsProduct(ShardBits, NumShards);
      sh := ShardOf(id);
      offset := if sh < 0 then 0 else id - sh * ShardBits;
    }

    method Set(id: UInt64)
      requires Valid()
      modifies this`parts, Arrays()
      ensures Valid() && NumShards == old(NumShards) && ShardBits == old(ShardBits)
      ensures Contents() == old(Contents()) + (if id < NumShards * ShardBits then {id} else {})
    {
      var sh, offset := Locate(id);
      if sh < 0 {
        return;
      }
      ghost var before := parts;
      OffsetFits(ShardBits, id, sh, offset);
      shards[sh].Set(offset);
      parts := parts[sh := parts[sh] + {offset}];
      SetInShard(before, ShardBits, id, sh, offset, parts);
    }

    method Has(id: UInt64) returns (b: bool)
      requires Valid()
      ensures b <==> id in Contents()
    {
      var sh, offset := Locate(id);
      if sh < 0 {
        Beyond(parts, ShardBits, id);
        return false;
      }
      InIds(parts, ShardBits, |parts|, sh, offset);
      OffsetFits(ShardBits, id, sh, offset);
      b := shards[sh].Test(offset);
    }

    // Both sets are cut the same way.
    ghost predicate SameShape(o: ShardedBitset)
      reads this, o
    {
      |shards| == |o.shards| && ShardBits == o.ShardBits
    }

    // sizes[i] is how many positions of shard i are common.
    ghost predicate CommonSizes(o: ShardedBitset, sizes: seq<nat>)
      reads this, o
    {
      && |sizes| == |parts| == |o.parts|
      && forall i :: 0 <= i < |sizes| ==> sizes[i] == |parts[i] * o.parts[i]|
    }

    lemma CommonSizesAddUp(o: ShardedBitset) returns (sizes: seq<nat>)
      requires Valid() && o.Valid() && SameShape(o)
      ensures CommonSizes(o, sizes) && RangeTotal(sizes, 0, |sizes|) == |Contents() * o.Contents()|
    {
      var common := Pairwise(parts, o.parts);
      sizes := Sizes(common);
      IdsOfPairwise(parts, o.parts, ShardBits);
      SizesAddUp(common, ShardBits, |parts|, sizes);
    }

    // The count of one shard.
    method CountShard(o: ShardedBitset, i: nat, ghost sizes: seq<nat>) returns (n: nat)
      requires Valid() && o.Valid() && CommonSizes(o, sizes) && i < |shards|
      ensures n == sizes[i]
    {
      n := shards[i].AndPopcount(o.shards[i]);
    }

    // The loop over a range of shards, shared by the serial count and the workers.
    method CountRange(o: ShardedBitset, lo: nat, hi: nat, ghost sizes: seq<nat>) returns (c: nat)
      requires Valid() && o.Valid() && CommonSizes(o, sizes) && lo <= hi <= |shards|
      ensures c == RangeTotal(sizes, lo, hi)
    {
      c := 0;
      for i := lo to hi
        invariant c == RangeTotal(sizes, lo, i)
      {
        var n := CountShard(o, i, sizes);
        c := c + n;
      }
    }

    method IntersectCountSerial(o: ShardedBitset) returns (total: nat)
      requires Valid() && o.Valid() && SameShape(o)
      ensures total == |Contents() * o.Contents()|
    {
      ghost var sizes := CommonSizesAddUp(o);
      total := CountRange(o, 0, NumShards, sizes);
    }

    // The shards are dealt to workers in chunks, and each worker adds its count to the total
    // under a lock, in any order.
    method IntersectCount(o: ShardedBitset, procs: nat) returns (total: nat)
      requires Valid() && o.Valid() && SameShape(o) && procs > 0
      ensures total == |Contents() * o.Contents()|
    {
      var workers := if procs > NumShards then NumShards else procs;
      if workers <= 1 {
        total := IntersectCountSerial(o);
        return;
      }
      ghost var sizes := CommonSizesAddUp(o);
      total := CountChunks(o, workers, sizes);
    }

    method CountChunks(o: ShardedBitset, workers: nat, ghost sizes: seq<nat>) returns (total: nat)
      requires Valid() && o.Valid() && CommonSizes(o, sizes) && |shards| > 0 && workers > 0
      ensures total == RangeTotal(sizes, 0, |sizes|)
    {
      var chunk := ChunkSize(|shards|, workers);
      var pending := Started(|shards|, chunk, workers);
      ghost var added: map<nat, nat> := map[];
      total := 0;
      while pending != {}
        invariant forall w: nat {:trigger w in pending} {:trigger w in added} ::
                    w in pending || w in added <==> w < workers && Base(chunk, w) < |shards|
        invariant pending !! added.Keys
        invariant forall w :: w in added ==> added[w] == ChunkTotal(sizes, chunk, w)
        invariant total == Sum(added)
        decreases pending
      {
        var w :| w in pending;
        var c := CountChunk(o, chunk, w, sizes);
        SumInsert(added, w, c);
        added := added[w := c];
        total := total + c;
        pending := pending - {w};
      }
      ChunksAddUp(sizes, chunk, workers, added);
    }

    // One worker.
    method CountChunk(o: ShardedBitset, chunk: nat, w: nat, ghost sizes: seq<nat>) returns (c: nat)
      requires Valid() && o.Valid() && CommonSizes(o, sizes) && Base(chunk, w) < |shards|
      ensures c == ChunkTotal(sizes, chunk, w)
    {
      var lo := StartOf(chunk, w);
      var hi := if lo + chunk > |shards| then |shards| else lo + chunk;
      c := CountRange(o, lo, hi, sizes);
    }
  }

  ghost function Sizes(parts: seq<set<nat>>): (c: seq<nat>)
    ensures |c| == |parts| && forall i :: 0 <= i < |c| ==> c[i] == |parts[i]|
  {
    seq(|parts|, i requires 0 <= i < |parts| => |parts[i]|)
  }

  // What worker w counts: its chunk of the list, cut off at the end.
  function ChunkTotal(sizes: seq<nat>, chunk: nat, w: nat): nat
  {
    RangeTotal(sizes, Clip(|sizes|, Base(chunk, w)), Clip(|sizes|, Base(chunk, w) + chunk))
  }

  ghost function ChunkTotals(sizes: seq<nat>, chunk: nat, workers: nat): (t: seq<nat>)
    ensures |t| == workers
    ensures forall w {:trigger t[w]} :: 0 <= w < workers ==> t[w] == ChunkTotal(sizes, chunk, w)
  {
    seq(workers, w requires 0 <= w => ChunkTotal(sizes, chunk, w))
  }

  // The chunks of the first n workers cover the list up to there.
  lemma {:induction false} ChunksCover(sizes: seq<nat>, chunk: nat, workers: nat, n: nat)
    requires n <= workers
    ensures RangeTotal(ChunkTotals(sizes, chunk, workers), 0, n) ==
            RangeTotal(sizes, 0, Clip(|sizes|, Base(chunk, n)))
  {
    if n == 0 {
    } else {
      ChunksCover(sizes, chunk, workers, n - 1);
      RangeTotalSplit(sizes, 0, Clip(|sizes|, Base(chunk, n - 1)), Clip(|sizes|, Base(chunk, n - 1) + chunk));
    }
  }

  // Whatever the number of workers, the chunks of those that started add up to everything.
  lemma ChunksAddUp(sizes: seq<nat>, chunk: nat, workers: nat, added: map<nat, nat>)
    requires |sizes| <= Base(chunk, workers)
    requires forall w: nat {:trigger w in added} :: w in added <==> w < workers && Base(chunk, w) < |sizes|
    requires forall w :: w in added ==> added[w] == ChunkTotal(sizes, chunk, w)
    ensures Sum(added) == RangeTotal(sizes, 0, |sizes|)
  {
    var totals := ChunkTotals(sizes, chunk, workers);
    ChunksCover(sizes, chunk, workers, workers);
    SumOfIndexed(totals, workers);
    SumWithZeros(Indexed(totals, workers), added);
  }

  ghost function Pairwise(x: seq<set<nat>>, y: seq<set<nat>>): (p: seq<set<nat>>)
    requires |x| == |y|
    ensures |p| == |x| && forall i :: 0 <= i < |p| ==> p[i] == x[i] * y[i]
  {
    seq(|x|, i requires 0 <= i < |x| => x[i] * y[i])
  }

  // Intersecting shard by shard intersects the sets of IDs.
  lemma IdsOfPairwise(x: seq<set<nat>>, y: seq<set<nat>>, bits: nat)
    requires |x| == |y| && bits > 0 && Within(x, bits) && Within(y, bits)
    ensures Within(Pairwise(x, y), bits)
    ensures Ids(Pairwise(x, y), bits, |x|) == Ids(x, bits, |x|) * Ids(y, bits, |x|)
  {
    forall id: nat
      ensures id in Ids(Pairwise(x, y), bits, |x|) <==> id in Ids(x, bits, |x|) && id in Ids(y, bits, |x|)
    {
      var q, r := Split(id, bits);
      InPairwise(x, y, bits, id, q, r);
    }
  }

  lemma InPairwise(x: seq<set<nat>>, y: seq<set<nat>>, bits: nat, id: nat, q: nat, r: nat)
    requires |x| == |y| && bits > 0 && Within(x, bits) && Within(y, bits) && At(bits, id, q, r)
    ensures id in Ids(Pairwise(x, y), bits, |x|) <==> id in Ids(x, bits, |x|) && id in Ids(y, bits, |x|)
  {
    InIds(x, bits, |x|, q, r);
    InIds(y, bits, |x|, q, r);
    InIds(Pairwise(x, y), bits, |x|, q, r);
  }

  lemma {:induction false} EmptyShards(shards: seq<set<nat>>, bits: nat, k: nat)
    requires k <= |shards| && forall i :: 0 <= i < |shards| ==> shards[i] == {}
    ensures Ids(shards, bits, k) == {}
  {
    if k == 0 {
    } else {
      EmptyShards(shards, bits, k - 1);
    }
  }
}
