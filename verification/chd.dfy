/**
  The minimal perfect hash: construction by bucket displacement with retries, packing of
  the displacements, and lookup through a two-level rank.

  The finaliser mix is a field, so everything holds whatever it computes.
*/
module CHDs {
  import opened Words
  import opened Bitmaps
  import opened Options
  import opened Packing
  import opened Placement
  import opened Sorting
  import opened Tables

  const MAX_ATTEMPTS: nat := 1024

  // The table comes from the first of 1024 attempts that places every bucket.
  ghost predicate Constructed(t: Table, keys: seq<UInt64>)
  {
    && t.nb > 0 && t.m > 0
    && exists order, g, e: nat :: e < 1024 && FirstSuccess(t, keys, order, g, e)
  }

  // All 1024 attempts get stuck.
  ghost predicate Exhausted(mix: UInt64 -> UInt64, m: nat, nb: nat, seed: UInt64, keys: seq<UInt64>)
  {
    && nb > 0 && m > 0
    && exists order :: EarlierFail(mix, m, nb, seed, keys, order, 1024)
  }

  const DEFAULT_EPSILON: real := 0.23

  // The buckets for a load factor, and the slots for a share of spare ones.
  function BucketsFor(n: nat, lambda: real): (b: nat)
    requires lambda > 0.0
    ensures b > 0
    ensures n as real / lambda < b as real <= n as real / lambda + 1.0
  {
    assert n as real / lambda >= 0.0;
    (n as real / lambda).Floor + 1
  }

  function SlotsFor(n: nat, epsilon: real): (m: nat)
    requires epsilon >= -1.0
    ensures m > 0
    ensures n as real * (1.0 + epsilon) < m as real <= n as real * (1.0 + epsilon) + 1.0
  {
    assert n as real * (1.0 + epsilon) >= 0.0;
    (n as real * (1.0 + epsilon)).Floor + 1
  }

  // The size of the table.
  function TableSlots(n: nat, lambda: real, epsilon: real): (m: nat)
    requires lambda > 0.0 && epsilon >= -1.0
    ensures m > BucketsFor(n, lambda) && m >= SlotsFor(n, epsilon)
    ensures epsilon >= 0.0 ==> m > n
  {
    assert epsilon >= 0.0 ==> n as real * (1.0 + epsilon) >= n as real;
    SlotCount(BucketsFor(n, lambda), SlotsFor(n, epsilon))
  }

  // The entries of the rank index: set positions before each block of 512 bits.
  ghost predicate BlockRanks(words: seq<UInt64>, l1: seq<nat>)
  {
    && |l1| == (|words| + 7) / 8 + 1
    && forall b :: 0 <= b < |l1| ==> l1[b] == WordsCount(words, BlockStart(words, b))
  }

  // The first word of block b, or the end of the words for the entry after the last block.
  function BlockStart(words: seq<UInt64>, b: nat): (w: nat)
    ensures w <= |words|
  {
    if 8 * b < |words| then 8 * b else |words|
  }

  class CHD {
    const mix: UInt64 -> UInt64
    var N: nat
    var M: nat
    var NB: nat
    var gpack: array<UInt64>
    var gw: nat
    var maxD: nat
    var words: array<UInt64>
    var l1: array<UInt32>
    var seed1: UInt64
    var seed2: UInt64

    function View(): Table
      reads this, gpack, words
    {
      Table(M, NB, gpack[..], gw, words[..], mix, seed1, seed2)
    }

    // The frozen structure is safe to query.
    ghost predicate Valid()
      reads this, gpack, words, l1
    {
      M > 0 ==>
        && NB > 0 && M <= 64 * words.Length
        && 1 <= gw < 64 && gpack.Length == (NB * gw + 63) / 64 + 1
        && CountAll(words[..]) < 0x1_0000_0000
        && BlockRanks(words[..], l1[..])
    }

    // The structure over no keys.
    constructor Empty(mix: UInt64 -> UInt64)
      ensures Valid() && N == M == 0
    {
      this.mix := mix;
      N, M, NB, gw, maxD := 0, 0, 0, 0, 0;
      seed1, seed2 := 0, 0;
      gpack, words, l1 := new UInt64[0], new UInt64[0], new UInt32[0];
    }

    constructor Sized(mix: UInt64 -> UInt64, n: nat, m: nat, nb: nat, seed: UInt64)
      ensures this.mix == mix && N == n && M == m && NB == nb && seed1 == seed
      ensures fresh(words) && words.Length == (m + 63) / 64
    {
      this.mix := mix;
      N, M, NB, gw, maxD := n, m, nb, 0, 0;
      seed1, seed2 := seed, 0;
      gpack, words, l1 := new UInt64[0], new UInt64[(m + 63) / 64], new UInt32[0];
    }

    function H1(k: UInt64): nat
      requires NB > 0
      reads this
    {
      mix(Xor(k, seed1)) % NB
    }

    function H2(k: UInt64): nat
      requires M > 0
      reads this
    {
      mix(Xor(k, seed2)) % M
    }

    // Build the perfect hash of the keys in a table of the given sizes, whatever they are; each
    // attempt re-seeds the second hash.
    static method BuildSized(mix: UInt64 -> UInt64, keys: seq<UInt64>, buckets: nat, slots: nat, seed: UInt64)
      returns (r: Option<CHD>)
      requires 1 <= buckets && 1 <= slots
      requires |keys| < 0x8000_0000 && SlotCount(buckets, slots) < 0x1_0000_0000
      ensures r.Some? ==> r.value.Valid() && r.value.N == |keys| && Perfect(r.value.View(), keys)
      ensures r.Some? && |keys| > 0 ==>
                && r.value.mix == mix && r.value.seed1 == seed
                && r.value.NB == buckets && r.value.M == SlotCount(buckets, slots)
                && Constructed(r.value.View(), keys)
      ensures r.None? ==> Exhausted(mix, SlotCount(buckets, slots), buckets, seed, keys)
      ensures (exists i, k :: 0 <= i < k < |keys| && keys[i] == keys[k]) ==> r.None?
    {
      if |keys| == 0 {
        var empty := new CHD.Empty(mix);
        return Some(empty);
      }
      var c := new CHD.Sized(mix, |keys|, SlotCount(buckets, slots), buckets, seed);
      var ok := c.Construct(keys);
      if ok {
        PerfectMeansDistinct(c.View(), keys);
        return Some(c);
      }
      return None;
    }

    // Build with lambda keys a bucket and a share epsilon of spare slots.
    static method BuildOpts(mix: UInt64 -> UInt64, keys: seq<UInt64>, lambda: real, epsilon: real, seed: UInt64)
      returns (r: Option<CHD>)
      requires lambda > 0.0 && epsilon >= -1.0
      requires |keys| < 0x8000_0000 && TableSlots(|keys|, lambda, epsilon) < 0x1_0000_0000
      ensures r.Some? ==> r.value.Valid() && r.value.N == |keys| && Perfect(r.value.View(), keys)
      ensures r.Some? && |keys| > 0 ==>
                && r.value.mix == mix && r.value.seed1 == seed
                && r.value.NB == BucketsFor(|keys|, lambda) && r.value.M == TableSlots(|keys|, lambda, epsilon)
                && Constructed(r.value.View(), keys)
      ensures r.None? ==>
                Exhausted(mix, TableSlots(|keys|, lambda, epsilon), BucketsFor(|keys|, lambda), seed, keys)
      ensures (exists i, k :: 0 <= i < k < |keys| && keys[i] == keys[k]) ==> r.None?
    {
      r := BuildSized(mix, keys, BucketsFor(|keys|, lambda), SlotsFor(|keys|, epsilon), seed);
    }

    // Build with 23 % spare slots.
    static method Build(mix: UInt64 -> UInt64, keys: seq<UInt64>, lambda: real, seed: UInt64) returns (r: Option<CHD>)
      requires lambda > 0.0
      requires |keys| < 0x8000_0000 && TableSlots(|keys|, lambda, 0.23) < 0x1_0000_0000
      ensures r.Some? ==> r.value.Valid() && r.value.N == |keys| && Perfect(r.value.View(), keys)
      ensures r.Some? && |keys| > 0 ==>
                && r.value.mix == mix && r.value.seed1 == seed
                && r.value.NB == BucketsFor(|keys|, lambda) && r.value.M == TableSlots(|keys|, lambda, 0.23)
                && Constructed(r.value.View(), keys)
      ensures r.None? ==>
                Exhausted(mix, TableSlots(|keys|, lambda, 0.23), BucketsFor(|keys|, lambda), seed, keys)
      ensures (exists i, k :: 0 <= i < k < |keys| && keys[i] == keys[k]) ==> r.None?
    {
      r := BuildOpts(mix, keys, lambda, DEFAULT_EPSILON, seed);
    }

    // Group the keys, order the buckets, and place them.
    method Construct(keys: seq<UInt64>) returns (ok: bool)
      requires NB > 0 && M > 0 && M <= 64 * words.Length && |keys| < 0x8000_0000
      modifies this`seed2, this`gpack, this`gw, this`maxD, this`l1, words
      ensures ok ==> Valid() && Perfect(View(), keys) && Constructed(View(), keys)
      ensures !ok ==> Exhausted(mix, M, NB, seed1, keys)
    {
      ghost var a := AttemptNumber(mix, M, NB, seed1, keys, 0);
      var starts, ends, keyAt := GroupByBucket(keys, a.bucketOf);
      var order := BucketOrder(starts, ends);
      OrderCoversBuckets(a, NB, starts, ends, keyAt, order);
      OrderIsLargestFirst(a, starts, ends, order);
      ok := PlaceWithRetries(keys, starts, ends, keyAt, order, a);
    }

    // Re-seed and place until an attempt succeeds.
    method PlaceWithRetries(keys: seq<UInt64>, starts: seq<nat>, ends: seq<nat>, keyAt: seq<nat>, order: seq<nat>,
                            ghost first: Attempt)
      returns (ok: bool)
      requires NB > 0 && M > 0 && M <= 64 * words.Length && |keys| < 0x8000_0000
      requires first == AttemptNumber(mix, M, NB, seed1, keys, 0)
      requires Grouped(first.bucketOf, NB, starts, ends, keyAt) && NonEmptyBuckets(starts, ends, order)
      requires CoversBuckets(first, order, NB) && LargestFirst(first, order)
      modifies this`seed2, this`gpack, this`gw, this`maxD, this`l1, words
      ensures ok ==> Valid() && Perfect(View(), keys) && Constructed(View(), keys)
      ensures !ok ==> Exhausted(mix, M, NB, seed1, keys)
    {
      var G := new UInt32[NB];
      for e := 0 to MAX_ATTEMPTS
        invariant EarlierFail(mix, M, NB, seed1, keys, order, e)
      {
        ok := TryAttempt(keys, starts, ends, keyAt, order, G, e, first);
        if ok {
          return;
        }
      }
      ok := false;
    }

    // One attempt, and what follows its success.
    method TryAttempt(keys: seq<UInt64>, starts: seq<nat>, ends: seq<nat>, keyAt: seq<nat>, order: seq<nat>,
                      G: array<UInt32>, e: nat, ghost first: Attempt)
      returns (ok: bool)
      requires NB > 0 && M > 0 && M <= 64 * words.Length && |keys| < 0x8000_0000 && G.Length == NB
      requires first == AttemptNumber(mix, M, NB, seed1, keys, 0)
      requires Grouped(first.bucketOf, NB, starts, ends, keyAt) && NonEmptyBuckets(starts, ends, order)
      requires e < MAX_ATTEMPTS && EarlierFail(mix, M, NB, seed1, keys, order, e)
      modifies this`seed2, this`gpack, this`gw, this`maxD, this`l1, words, G
      ensures ok ==> Valid() && Perfect(View(), keys) && Constructed(View(), keys)
      ensures !ok ==> EarlierFail(mix, M, NB, seed1, keys, order, e + 1)
    {
      ghost var a := AttemptNumber(mix, M, NB, seed1, keys, e);
      SameBuckets(mix, M, NB, seed1, keys, e);
      ok := RunAttempt(keys, starts, ends, keyAt, order, G, e, a);
      if ok {
        Finish(keys, order, G, e);
      } else {
        EarlierFailStep(mix, M, NB, seed1, keys, order, e);
      }
    }

    // Pack the displacements and index the ranks after a successful attempt.
    method Finish(keys: seq<UInt64>, ghost order: seq<nat>, G: array<UInt32>, ghost e: nat)
      requires NB > 0 && M > 0 && M <= 64 * words.Length && G.Length == NB
      requires |keys| < 0x8000_0000
      requires seed2 == AttemptSeed(mix, seed1, e)
      requires e < MAX_ATTEMPTS && EarlierFail(mix, M, NB, seed1, keys, order, e)
      requires Succeeds(AttemptNumber(mix, M, NB, seed1, keys, e), G[..], order)
      requires Shows(Taken(AttemptNumber(mix, M, NB, seed1, keys, e), G[..], order))
      requires forall j :: 0 <= j < NB ==> G[j] < MAX_DISPLACEMENT
      modifies this`gpack, this`gw, this`maxD, this`l1
      ensures Valid() && Perfect(View(), keys) && Constructed(View(), keys)
    {
      SameBuckets(mix, M, NB, seed1, keys, e);
      SuccessOccupies(keys, order, G[..], e);
      PackG(G);
      BuildRank();
      SuccessOccupies(keys, order, G[..], e);
      RepresentsIsPerfect(View(), keys, G[..]);
      assert FirstSuccess(View(), keys, order, G[..], e);
    }

    // ----- grouping the keys by bucket

    ghost predicate BucketsAre(keys: seq<UInt64>, bucketOf: seq<nat>)
      reads this
    {
      && NB > 0 && |bucketOf| == |keys|
      && forall i :: 0 <= i < |keys| ==> bucketOf[i] == H1(keys[i])
    }

    // The counting sort: the two passes over the keys around the prefix sum.
    method GroupByBucket(keys: seq<UInt64>, ghost bucketOf: seq<nat>)
      returns (starts: seq<nat>, ends: seq<nat>, keyAt: seq<nat>)
      requires BucketsAre(keys, bucketOf)
      ensures Grouped(bucketOf, NB, starts, ends, keyAt) && SizesCounted(bucketOf, starts, ends)
    {
      var n := |keys|;
      var counts := new nat[NB](j => 0);
      for i := 0 to n
        invariant forall j :: 0 <= j < NB ==> counts[j] == Count(bucketOf, i, j)
      {
        var j := H1(keys[i]);
        counts[j] := counts[j] + 1;
      }
      starts := PrefixSums(counts, bucketOf);
      for j := 0 to NB
        invariant forall k :: 0 <= k < j ==> counts[k] == starts[k]
      {
        counts[j] := starts[j];
      }
      ghost var at;
      keyAt, ends, at := FillPlaces(keys, bucketOf, counts);
      FilledIsGrouped(bucketOf, NB, starts, ends, keyAt, at);
    }

    method PrefixSums(counts: array<nat>, ghost bucketOf: seq<nat>) returns (starts: seq<nat>)
      requires counts.Length == NB
      requires forall j :: 0 <= j < NB ==> counts[j] == Count(bucketOf, |bucketOf|, j)
      ensures |starts| == NB && forall j :: 0 <= j < NB ==> starts[j] == Start(bucketOf, j)
    {
      var sums := new nat[NB];
      var s := 0;
      LessFromZero(bucketOf, |bucketOf|);
      for j := 0 to NB
        invariant s == Start(bucketOf, j)
        invariant forall k :: 0 <= k < NB ==> counts[k] == Count(bucketOf, |bucketOf|, k)
        invariant forall k :: 0 <= k < j ==> sums[k] == Start(bucketOf, k)
      {
        LessNext(bucketOf, |bucketOf|, j);
        sums[j] := s;
        s := s + counts[j];
      }
      starts := sums[..];
    }

    method FillPlaces(keys: seq<UInt64>, ghost bucketOf: seq<nat>, counts: array<nat>)
      returns (keyAt: seq<nat>, ends: seq<nat>, ghost at: seq<nat>)
      requires BucketsAre(keys, bucketOf)
      requires counts.Length == NB
      requires forall j :: 0 <= j < NB ==> counts[j] == Start(bucketOf, j)
      modifies counts
      ensures Filled(bucketOf, NB, |bucketOf|, ends, keyAt, at)
    {
      var n := |keys|;
      var places := new nat[n];
      at := [];
      NothingFilled(bucketOf, NB, counts[..], places[..]);
      for i := 0 to n
        invariant Filled(bucketOf, NB, i, counts[..], places[..], at)
      {
        var j := H1(keys[i]);
        ghost var cursor, filled := counts[..], places[..];
        CursorInside(bucketOf, NB, i, cursor, filled, at);
        places[counts[j]] := i;
        counts[j] := counts[j] + 1;
        FillStep(bucketOf, NB, i, cursor, filled, at, counts[..], places[..]);
        at := at + [cursor[j]];
      }
      keyAt, ends := places[..], counts[..];
    }

    // The non-empty buckets, largest first.
    method BucketOrder(starts: seq<nat>, ends: seq<nat>) returns (order: seq<nat>)
      requires |starts| == |ends| == NB
      ensures SortedBy(order, NegatedSize(starts, ends))
      ensures NonEmptyBuckets(starts, ends, order)
    {
      var found: seq<nat> := [];
      for j := 0 to NB
        invariant forall u :: 0 <= u < |found| ==> found[u] < j && starts[found[u]] < ends[found[u]]
        invariant forall u, v :: 0 <= u < v < |found| ==> found[u] < found[v]
        invariant forall k :: 0 <= k < j && starts[k] < ends[k] ==> k in found
      {
        if ends[j] > starts[j] {
          found := found + [j];
        }
      }
      order := Sort(found, NegatedSize(starts, ends));
      SortKeepsBuckets(starts, ends, found, order);
    }

    // ----- placing buckets

    // The set bits are exactly the taken slots.
    ghost predicate Shows(taken: set<nat>)
      reads this, words
    {
      forall p: nat :: BitAt(words[..], p) <==> p in taken
    }

    method TryDisplacement(keyAt: seq<nat>, lo: nat, hi: nat, h2vals: seq<nat>, d: nat, ghost taken: set<nat>)
      returns (good: bool)
      requires Segment(keyAt, lo, hi, h2vals, M) && M <= 64 * words.Length && Shows(taken)
      ensures good <==> SegmentFits(keyAt, lo, hi, h2vals, M, taken, d)
    {
      good := true;
      var a := lo;
      while a < hi && good
        invariant lo <= a <= hi
        invariant good ==> SegmentFits(keyAt, lo, a, h2vals, M, taken, d)
        invariant !good ==> !SegmentFits(keyAt, lo, hi, h2vals, M, taken, d)
      {
        good := TryKey(keyAt, lo, a, h2vals, d, taken);
        SegmentFitsStep(keyAt, lo, a, hi, h2vals, M, taken, d);
        a := a + 1;
      }
    }

    // One key of the segment: its slot is free, and no earlier key falls on it.
    method TryKey(keyAt: seq<nat>, lo: nat, a: nat, h2vals: seq<nat>, d: nat, ghost taken: set<nat>)
      returns (good: bool)
      requires Segment(keyAt, lo, a + 1, h2vals, M) && lo <= a && M <= 64 * words.Length && Shows(taken)
      ensures good <==> SlotIsFree(keyAt, lo, a, h2vals, M, taken, d)
    {
      var posA := (h2vals[keyAt[a]] + d) % M;
      var busy := TestBit(words, posA);
      if busy {
        return false;
      }
      good := ApartFrom(keyAt, lo, a, h2vals, d, posA);
    }

    // The inner loop: no earlier key of the segment falls on the slot.
    method ApartFrom(keyAt: seq<nat>, lo: nat, a: nat, h2vals: seq<nat>, d: nat, pos: nat) returns (good: bool)
      requires Segment(keyAt, lo, a, h2vals, M)
      ensures good <==> forall q :: lo <= q < a ==> SlotAt(keyAt, h2vals, M, d, q) != pos
    {
      var b := lo;
      while b < a
        invariant lo <= b <= a
        invariant forall q :: lo <= q < b ==> SlotAt(keyAt, h2vals, M, d, q) != pos
      {
        if (h2vals[keyAt[b]] + d) % M == pos {
          assert SlotAt(keyAt, h2vals, M, d, b) == pos;
          return false;
        }
        b := b + 1;
      }
      good := true;
    }

    method TryBucket(ghost a: Attempt, starts: seq<nat>, ends: seq<nat>, keyAt: seq<nat>, h2vals: seq<nat>,
                     j: nat, d: nat, ghost taken: set<nat>)
      returns (good: bool)
      requires WellFormed(a, NB) && Grouped(a.bucketOf, NB, starts, ends, keyAt) && j < NB
      requires a.h2 == h2vals && a.m == M && M <= 64 * words.Length && Shows(taken)
      ensures good <==> Fits(a, taken, j, d)
    {
      GroupedSegment(a, NB, starts, ends, keyAt, j);
      good := TryDisplacement(keyAt, starts[j], ends[j], h2vals, d, taken);
      SegmentFitsIsFits(a, NB, starts, ends, keyAt, taken, j, d);
    }

    // The least displacement for which the bucket fits, if there is one.
    method FindDisplacement(ghost a: Attempt, starts: seq<nat>, ends: seq<nat>, keyAt: seq<nat>, h2vals: seq<nat>,
                            j: nat, ghost taken: set<nat>)
      returns (ok: bool, d: nat)
      requires WellFormed(a, NB) && Grouped(a.bucketOf, NB, starts, ends, keyAt) && j < NB
      requires a.h2 == h2vals && a.m == M && M <= 64 * words.Length && Shows(taken)
      ensures ok ==> FirstFit(a, taken, j, d)
      ensures !ok ==> NoFit(a, taken, j)
    {
      d := 0;
      while d < MAX_DISPLACEMENT
        invariant d <= MAX_DISPLACEMENT
        invariant forall e :: 0 <= e < d ==> !Fits(a, taken, j, e)
      {
        var good := TryBucket(a, starts, ends, keyAt, h2vals, j, d, taken);
        if good {
          return true, d;
        }
        d := d + 1;
      }
      return false, d;
    }

    method Occupy(keyAt: seq<nat>, lo: nat, hi: nat, h2vals: seq<nat>, d: nat, ghost taken: set<nat>)
      requires Segment(keyAt, lo, hi, h2vals, M) && M <= 64 * words.Length && Shows(taken)
      modifies words
      ensures Shows(taken + SegmentSlots(keyAt, lo, hi, h2vals, M, d))
    {
      for a := lo to hi
        invariant Shows(taken + SegmentSlots(keyAt, lo, a, h2vals, M, d))
      {
        var p := SlotAt(keyAt, h2vals, M, d, a);
        SetBit(words, p);
        SegmentSlotsStep(keyAt, lo, a, h2vals, M, d);
      }
    }

    method PlaceAll(ghost a: Attempt, keyAt: seq<nat>, starts: seq<nat>, ends: seq<nat>, order: seq<nat>,
                    G: array<UInt32>, h2vals: seq<nat>)
      returns (ok: bool)
      requires WellFormed(a, NB) && Grouped(a.bucketOf, NB, starts, ends, keyAt) && CoversBuckets(a, order, NB)
      requires a.h2 == h2vals && a.m == M && M <= 64 * words.Length && Shows({})
      requires G.Length == NB && forall j :: 0 <= j < NB ==> G[j] < MAX_DISPLACEMENT
      modifies words, G
      ensures ok ==> Succeeds(a, G[..], order) && Shows(Taken(a, G[..], order))
      ensures ok ==> forall j :: 0 <= j < NB ==> G[j] < MAX_DISPLACEMENT
      ensures !ok ==> Fails(a, order, NB)
    {
      for t := 0 to |order|
        invariant forall j :: 0 <= j < NB ==> G[j] < MAX_DISPLACEMENT
        invariant PlacedUpTo(a, G[..], order, t)
        invariant Shows(Taken(a, G[..], order[..t]))
      {
        ghost var g := G[..];
        ghost var taken := Taken(a, g, order[..t]);
        var j := order[t];
        var found, d := FindDisplacement(a, starts, ends, keyAt, h2vals, j, taken);
        if !found {
          return false;
        }
        GroupedSegment(a, NB, starts, ends, keyAt, j);
        Occupy(keyAt, starts[j], ends[j], h2vals, d, taken);
        G[j] := d;
        TakenStep(a, g, order, t, d, starts, ends, keyAt);
        PlacedStep(a, g, order, t, d);
        assert G[..] == g[j := d];
      }
      assert order[..|order|] == order;
      ok := true;
    }

    method SecondHashes(keys: seq<UInt64>) returns (h2vals: seq<nat>)
      requires M > 0
      ensures |h2vals| == |keys| && forall i :: 0 <= i < |keys| ==> h2vals[i] == H2(keys[i])
    {
      var h := new nat[|keys|];
      for i := 0 to |keys|
        invariant forall k :: 0 <= k < i ==> h[k] == H2(keys[k])
      {
        h[i] := H2(keys[i]);
      }
      h2vals := h[..];
    }

    // Nothing of an earlier attempt is left.
    method Clear(G: array<UInt32>)
      modifies words, G
      ensures Shows({})
      ensures forall j :: 0 <= j < G.Length ==> G[j] == 0
    {
      for i := 0 to G.Length
        invariant forall k :: 0 <= k < i ==> G[k] == 0
      {
        G[i] := 0;
      }
      for i := 0 to words.Length
        invariant forall k :: 0 <= k < G.Length ==> G[k] == 0
        invariant forall k :: 0 <= k < i ==> words[k] == 0
      {
        words[i] := 0;
      }
      forall p: nat
        ensures !BitAt(words[..], p)
      {
        BitOfZero(p % 64);
      }
    }

    // The second seed of an attempt.
    method Reseed(e: nat)
      modifies this`seed2
      ensures seed2 == mix((seed1 + 1 + e * 0x9E3779B97F4A7C15) % WORD_LIMIT) == AttemptSeed(mix, seed1, e)
    {
      seed2 := mix((seed1 + 1 + e * 0x9E3779B97F4A7C15) % WORD_LIMIT);
    }

    // The second hashes of an attempt, under its new seed.
    method HashAttempt(keys: seq<UInt64>, e: nat, ghost a: Attempt) returns (h2vals: seq<nat>)
      requires NB > 0 && M > 0 && a == AttemptNumber(mix, M, NB, seed1, keys, e)
      modifies this`seed2
      ensures seed2 == mix((seed1 + 1 + e * 0x9E3779B97F4A7C15) % WORD_LIMIT)
      ensures seed2 == AttemptSeed(mix, seed1, e)
      ensures WellFormed(a, NB) && a.m == M && a.h2 == h2vals
    {
      Reseed(e);
      h2vals := SecondHashes(keys);
      assert a.h2 == h2vals;
    }

    // First-fit placement in clean tables.
    method PlaceAfresh(ghost a: Attempt, keyAt: seq<nat>, starts: seq<nat>, ends: seq<nat>, order: seq<nat>,
                       G: array<UInt32>, h2vals: seq<nat>)
      returns (ok: bool)
      requires M > 0 && M <= 64 * words.Length && G.Length == NB
      requires WellFormed(a, NB) && a.m == M && a.h2 == h2vals
      requires Grouped(a.bucketOf, NB, starts, ends, keyAt) && NonEmptyBuckets(starts, ends, order)
      modifies words, G
      ensures ok ==> Succeeds(a, G[..], order) && Shows(Taken(a, G[..], order))
      ensures ok ==> forall j :: 0 <= j < NB ==> G[j] < MAX_DISPLACEMENT
      ensures !ok ==> Fails(a, order, NB)
    {
      Clear(G);
      OrderCoversBuckets(a, NB, starts, ends, keyAt, order);
      ok := PlaceAll(a, keyAt, starts, ends, order, G, h2vals);
    }

    // One attempt: a new second seed, clean tables, and first-fit placement.
    method RunAttempt(keys: seq<UInt64>, starts: seq<nat>, ends: seq<nat>, keyAt: seq<nat>, order: seq<nat>,
                      G: array<UInt32>, e: nat, ghost a: Attempt)
      returns (ok: bool)
      requires NB > 0 && M > 0 && M <= 64 * words.Length && G.Length == NB
      requires a == AttemptNumber(mix, M, NB, seed1, keys, e)
      requires Grouped(a.bucketOf, NB, starts, ends, keyAt) && NonEmptyBuckets(starts, ends, order)
      modifies this`seed2, words, G
      ensures seed2 == AttemptSeed(mix, seed1, e)
      ensures ok ==> Succeeds(a, G[..], order) && Shows(Taken(a, G[..], order))
      ensures ok ==> forall j :: 0 <= j < NB ==> G[j] < MAX_DISPLACEMENT
      ensures !ok ==> Fails(a, order, NB)
    {
      var h2vals := HashAttempt(keys, e, a);
      ok := PlaceAfresh(a, keyAt, starts, ends, order, G, h2vals);
    }

    // A successful attempt leaves exactly the slots of the keys occupied.
    lemma SuccessOccupies(keys: seq<UInt64>, order: seq<nat>, g: seq<nat>, e: nat)
      requires NB > 0 && M > 0 && M <= 64 * words.Length && |g| == NB
      requires seed2 == AttemptSeed(mix, seed1, e)
      requires Succeeds(AttemptNumber(mix, M, NB, seed1, keys, e), g, order)
      requires CoversBuckets(AttemptNumber(mix, M, NB, seed1, keys, e), order, NB)
      requires Shows(Taken(AttemptNumber(mix, M, NB, seed1, keys, e), g, order))
      ensures Occupies(View(), keys, g) && DistinctSlots(AttemptOf(View(), keys), g)
      ensures CountAll(words[..]) == |keys|
    {
      var t := View();
      var a := AttemptOf(t, keys);
      SameAttempt(t, keys, e);
      SuccessSeparatesSlots(a, g, order);
      forall p: nat
        ensures BitAt(words[..], p) <==> HasSlot(t, keys, g, p)
      {
        assert p in Taken(a, g, order) <==> HasSlot(t, keys, g, p);
      }
      OccupiedCount(t, keys, g);
    }

    // ----- rank

    method BuildRank()
      requires CountAll(words[..]) < 0x1_0000_0000
      modifies this`l1
      ensures fresh(l1) && BlockRanks(words[..], l1[..])
    {
      ghost var ws := words[..];
      var nw := words.Length;
      var nb := (nw + 7) / 8;
      var ranks := new UInt32[nb + 1];
      var total: UInt32 := 0;
      for b := 0 to nb
        invariant words[..] == ws
        invariant forall c :: 0 <= c < b ==> ranks[c] == WordsCount(ws, BlockStart(ws, c))
        invariant total == WordsCount(ws, BlockStart(ws, b))
      {
        ranks[b] := total;
        var w := b * 8;
        while w < (b + 1) * 8 && w < nw
          invariant b * 8 <= w <= (b + 1) * 8 && w <= nw
          invariant forall c :: 0 <= c <= b ==> ranks[c] == WordsCount(ws, BlockStart(ws, c))
          invariant total == WordsCount(ws, w)
        {
          WordsCountMonotone(ws, w + 1, nw);
          total := total + PopCount(words[w]);
          w := w + 1;
        }
      }
      ranks[nb] := total;
      l1 := ranks;
    }

    // The number of set positions strictly below pos.
    method Rank(pos: nat) returns (r: UInt32)
      requires pos < 64 * words.Length
      requires CountAll(words[..]) < 0x1_0000_0000
      requires BlockRanks(words[..], l1[..])
      ensures r == CountBelow(words[..], pos)
    {
      ghost var ws := words[..];
      var w, off := pos / 64, pos % 64;
      var b := w / 8;
      assert l1[..][b] == WordsCount(ws, BlockStart(ws, b));
      r := l1[b];
      var i := b * 8;
      while i < w
        invariant b * 8 <= i <= w
        invariant r == WordsCount(ws, i)
      {
        WordsCountMonotone(ws, i + 1, |ws|);
        r := r + PopCount(words[i]);
        i := i + 1;
      }
      r := PartialRank(w, off, r);
    }

    // The last step of Rank: the part of word w below off.
    method PartialRank(w: nat, off: nat, whole: UInt32) returns (r: UInt32)
      requires w < words.Length && off < 64 && CountAll(words[..]) < 0x1_0000_0000
      requires whole == WordsCount(words[..], w)
      ensures r == CountBelow(words[..], 64 * w + off)
    {
      RankWithinTotal(words[..], 64 * w + off);
      PartialWordRank(words[..], w, off);
      r := whole;
      if off > 0 {
        ShlOne(off);
        r := r + PopCount(And(words[w], Shl(1, off) - 1));
      } else {
        WordsCountIsRank(words[..], w);
      }
    }

    // ----- displacements

    method PackG(G: array<UInt32>)
      requires G.Length == NB > 0
      requires forall j :: 0 <= j < NB ==> G[j] < MAX_DISPLACEMENT
      modifies this`gpack, this`gw, this`maxD
      ensures fresh(gpack) && gpack.Length == (NB * gw + 63) / 64 + 1
      ensures forall j :: 0 <= j < NB ==> G[j] <= maxD
      ensures maxD in G[..]
      ensures gw == (if maxD == 0 then 1 else Length(maxD)) < 64
      ensures forall j :: 0 <= j < NB ==> Field(gpack[..], j * gw, gw) == G[j]
    {
      var max: UInt32 := 0;
      for j := 0 to NB
        invariant max < MAX_DISPLACEMENT
        invariant forall i :: 0 <= i < j ==> G[i] <= max
        invariant if j == 0 then max == 0 else max in G[..j]
      {
        if G[j] > max {
          max := G[j];
        }
        assert G[..j + 1] == G[..j] + [G[j]];
      }
      assert G[..NB] == G[..];
      maxD := max;
      var w := Length(max);
      if w == 0 {
        w := 1;
      }
      gw := w;
      WidthFits(max, w);
      WidthCovers(G[..], max, w);
      gpack := PackEntries(G, w);
      PackedFields(gpack[..], w, G[..]);
    }

    // The displacements stored one after another, w bits each.
    method PackEntries(G: array<UInt32>, w: nat) returns (packed: array<UInt64>)
      requires G.Length == NB && 1 <= w < 64
      requires forall j :: 0 <= j < NB ==> G[j] < Pow2(w)
      ensures fresh(packed) && packed.Length == (NB * w + 63) / 64 + 1
      ensures Packed(packed[..], w, G[..], NB)
    {
      ghost var entries: seq<nat> := G[..];
      packed := new UInt64[(NB * w + 63) / 64 + 1](i => 0);
      NothingPacked(packed[..], w, entries);
      for j := 0 to NB
        invariant Packed(packed[..], w, entries, j)
      {
        FieldInBounds(packed[..], NB, w, j);
        ghost var before := packed[..];
        Write(packed, j * w, w, G[j]);
        PackedStep(before, packed[..], w, entries, j);
      }
    }

    function GVal(j: nat): UInt64
      requires InBounds(gpack[..], j * gw, gw)
      reads this, gpack
    {
      Read(gpack[..], j * gw, gw)
    }

    // ----- lookup

    // The displacement of bucket j.
    method Displacement(j: nat) returns (d: UInt64)
      requires Valid() && M > 0 && j < NB
      ensures d == Field(gpack[..], j * gw, gw)
    {
      FieldRead(gpack[..], NB, gw, j);
      d := GVal(j);
    }

    // The slot of a key.
    method SlotFor(k: UInt64) returns (pos: nat)
      requires Valid() && M > 0
      ensures pos == View().Position(k) && pos < M
    {
      var d := Displacement(H1(k));
      pos := (H2(k) + d) % M;
    }

    method Lookup(k: UInt64) returns (id: UInt32, ok: bool)
      requires Valid()
      ensures View().Find(k) == if ok then Some(id) else None
      ensures !ok ==> id == 0
    {
      if M == 0 {
        return 0, false;
      }
      var pos := SlotFor(k);
      var b := TestBit(words, pos);
      if !b {
        return 0, false;
      }
      var r := Rank(pos);
      return r, true;
    }
  }

  // The table has more slots than buckets.
  function SlotCount(buckets: nat, slots: nat): (m: nat)
    ensures m > buckets && m >= slots
    ensures slots > buckets ==> m == slots
    ensures slots <= buckets ==> m == buckets + 1
  {
    if slots <= buckets then buckets + 1 else slots
  }

  lemma OrderIsLargestFirst(a: Attempt, starts: seq<nat>, ends: seq<nat>, order: seq<nat>)
    requires SizesCounted(a.bucketOf, starts, ends)
    requires SortedBy(order, NegatedSize(starts, ends)) && NonEmptyBuckets(starts, ends, order)
    ensures LargestFirst(a, order)
  {
    var key := NegatedSize(starts, ends);
    forall u, v | 0 <= u < v < |order|
      ensures Count(a.bucketOf, |a.bucketOf|, order[u]) >= Count(a.bucketOf, |a.bucketOf|, order[v])
    {
      assert key(order[u]) <= key(order[v]);
    }
  }

  // The sort key that puts large buckets first.
  function NegatedSize(starts: seq<nat>, ends: seq<nat>): nat -> int
  {
    (j: nat) => if j < |starts| && j < |ends| then starts[j] as int - ends[j] as int else 0
  }

  // Each non-empty bucket appears once, and nothing else does.
  ghost predicate NonEmptyBuckets(starts: seq<nat>, ends: seq<nat>, order: seq<nat>)
    requires |starts| == |ends|
  {
    && (forall u :: 0 <= u < |order| ==> order[u] < |starts| && starts[order[u]] < ends[order[u]])
    && (forall u, v :: 0 <= u < v < |order| ==> order[u] != order[v])
    && (forall j :: 0 <= j < |starts| && starts[j] < ends[j] ==> j in order)
  }

  lemma SortKeepsBuckets(starts: seq<nat>, ends: seq<nat>, found: seq<nat>, order: seq<nat>)
    requires |starts| == |ends| && NonEmptyBuckets(starts, ends, found)
    requires multiset(order) == multiset(found)
    ensures NonEmptyBuckets(starts, ends, order)
  {
    MultisetOfElements(order, found);
    MultisetDistinct(found, order);
    forall u | 0 <= u < |order|
      ensures order[u] < |starts| && starts[order[u]] < ends[order[u]]
    {
      assert order[u] in found;
    }
  }

  lemma OrderCoversBuckets(a: Attempt, nb: nat, starts: seq<nat>, ends: seq<nat>, keyAt: seq<nat>, order: seq<nat>)
    requires WellFormed(a, nb) && Grouped(a.bucketOf, nb, starts, ends, keyAt)
    requires NonEmptyBuckets(starts, ends, order)
    ensures CoversBuckets(a, order, nb)
  {
    forall i | 0 <= i < |a.bucketOf|
      ensures a.bucketOf[i] in order
    {
      var p := PlaceOf(a.bucketOf, nb, starts, ends, keyAt, i);
    }
  }

  // The width chosen for the largest displacement is legal and holds every displacement.
  lemma WidthFits(max: nat, w: nat)
    requires max < MAX_DISPLACEMENT
    requires w == if max == 0 then 1 else Length(max)
    ensures 1 <= w <= 24
  {
    LengthBounds(max);
    Pow2Sum(8, 8);
    Pow2Sum(8, 16);
    assert Pow2(8) == 0x100;
    if Length(max) > 24 {
      Pow2Monotone(24, Length(max) - 1);
    }
  }

  lemma WidthCovers(entries: seq<nat>, max: nat, w: nat)
    requires forall j :: 0 <= j < |entries| ==> entries[j] <= max
    requires w == if max == 0 then 1 else Length(max)
    ensures forall j :: 0 <= j < |entries| ==> entries[j] < Pow2(w)
  {
    LengthBounds(max);
  }

  lemma NothingPacked(words: seq<UInt64>, w: nat, entries: seq<nat>)
    requires forall i :: 0 <= i < |words| ==> words[i] == 0
    ensures Packed(words, w, entries, 0)
  {
    forall p: nat
      ensures !BitAt(words, p)
    {
      BitOfZero(p % 64);
    }
  }

  lemma FieldRead(words: seq<UInt64>, nb: nat, w: nat, j: nat)
    requires 1 <= w < 64 && j < nb && |words| == (nb * w + 63) / 64 + 1
    ensures InBounds(words, j * w, w) && Read(words, j * w, w) == Field(words, j * w, w)
  {
    FieldInBounds(words, nb, w, j);
    ReadIsField(words, j * w, w);
  }

  // Every field of the packed array, and the word it may spill into, is inside the array.
  lemma FieldInBounds(words: seq<UInt64>, nb: nat, w: nat, j: nat)
    requires 1 <= w < 64 && j < nb && |words| == (nb * w + 63) / 64 + 1
    ensures InBounds(words, j * w, w)
  {
    Before(j, nb, w);
    assert (j + 1) * w == j * w + w;
  }
}
