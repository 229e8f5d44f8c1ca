/**
  The frozen perfect-hash table as a value: what its fields denote, what looking a key up
  means, and why a table filled by a successful placement numbers its keys 0 .. n - 1.
*/
module Tables {
  import opened Words
  import opened Bitmaps
  import opened Options
  import opened Packing
  import opened Placement
  import Mixers

  // The 64-bit hash of a key under a seed.
  function WholeHash(mix: UInt64 -> UInt64, k: UInt64, seed: UInt64): UInt64 { mix(Xor(k, seed)) }

  datatype Table = Table(m: nat, nb: nat, gpack: seq<UInt64>, gw: nat, words: seq<UInt64>,
                         mix: UInt64 -> UInt64, seed1: UInt64, seed2: UInt64)
  {
    function H1(k: UInt64): (h: nat)
      requires nb > 0
      ensures h < nb
    {
      WholeHash(mix, k, seed1) % nb
    }

    function H2(k: UInt64): (h: nat)
      requires m > 0
      ensures h < m
    {
      WholeHash(mix, k, seed2) % m
    }

    // The slot of a key: its second hash moved by the displacement of its bucket.
    function Position(k: UInt64): nat
      requires nb > 0 && m > 0
    {
      Slot(H2(k), Field(gpack, H1(k) * gw, gw), m)
    }

    // The ID of a key is the rank of its slot; an empty slot has none.
    function Find(k: UInt64): Option<nat>
      requires m > 0 ==> nb > 0
    {
      if m == 0 then None
      else if BitAt(words, Position(k)) then Some(CountBelow(words, Position(k)))
      else None
    }
  }

  // Find numbers the given keys 0 .. |keys| - 1, each number used exactly once, and
  // never answers with a number outside that range.
  ghost predicate Perfect(t: Table, keys: seq<UInt64>)
  {
    && (t.m > 0 ==> t.nb > 0)
    && (forall i :: 0 <= i < |keys| ==> t.Find(keys[i]).Some?)
    && (forall i, k :: 0 <= i < k < |keys| ==> t.Find(keys[i]) != t.Find(keys[k]))
    && (forall id: nat :: id < |keys| ==> Assigned(t, keys, id))
    && (forall k: UInt64 :: t.Find(k).Some? ==> t.Find(k).value < |keys|)
  }

  // Some key has this number.
  ghost predicate Assigned(t: Table, keys: seq<UInt64>, id: nat)
    requires t.m > 0 ==> t.nb > 0
  {
    exists i :: 0 <= i < |keys| && t.Find(keys[i]) == Some(id)
  }

  // The buckets and second hashes that a table with these parameters gives to the keys.
  function BucketsOf(t: Table, keys: seq<UInt64>): (b: seq<nat>)
    requires t.nb > 0
    ensures |b| == |keys| && forall i :: 0 <= i < |keys| ==> b[i] == t.H1(keys[i])
  {
    seq(|keys|, i requires 0 <= i < |keys| => t.H1(keys[i]))
  }

  function SecondHashesOf(t: Table, keys: seq<UInt64>): (h: seq<nat>)
    requires t.m > 0
    ensures |h| == |keys| && forall i :: 0 <= i < |keys| ==> h[i] == t.H2(keys[i])
  {
    seq(|keys|, i requires 0 <= i < |keys| => t.H2(keys[i]))
  }

  function AttemptOf(t: Table, keys: seq<UInt64>): (a: Attempt)
    requires t.nb > 0 && t.m > 0
    ensures WellFormed(a, t.nb)
  {
    Attempt(BucketsOf(t, keys), SecondHashesOf(t, keys), t.m)
  }

  // The second seed of attempt number e.
  function AttemptSeed(mix: UInt64 -> UInt64, seed: UInt64, e: nat): UInt64
  {
    mix(AttemptSource(seed, e))
  }

  function AttemptSource(seed: UInt64, e: nat): UInt64 { (seed + 1 + e * 0x9E3779B97F4A7C15) % WORD_LIMIT }

  // The first attempt mixes the successor of the seed, each further one the word one odd step on.
  lemma AttemptSteps(mix: UInt64 -> UInt64, seed: UInt64, e: nat)
    ensures AttemptSeed(mix, seed, 0) == mix((seed + 1) % WORD_LIMIT)
    ensures AttemptSeed(mix, seed, e + 1) == mix((AttemptSource(seed, e) + 0x9E3779B97F4A7C15) % WORD_LIMIT)
  {
    StepModulo(seed + 1 + e * 0x9E3779B97F4A7C15, 0x9E3779B97F4A7C15);
  }

  lemma StepModulo(x: nat, c: nat)
    ensures (x % WORD_LIMIT + c) % WORD_LIMIT == (x + c) % WORD_LIMIT
  {
  }

  ghost predicate Injective(mix: UInt64 -> UInt64)
  {
    forall x, y :: mix(x) == mix(y) ==> x == y
  }

  lemma ProgramMixInjective()
    ensures Injective(Mixers.Mix)
  {
    forall x: UInt64, y: UInt64 | Mixers.Mix(x) == Mixers.Mix(y)
      ensures x == y
    {
      if x != y {
        Mixers.MixInjective(x, y);
      }
    }
  }

  // A retry never repeats a seed.
  lemma AttemptSeedsDistinct(mix: UInt64 -> UInt64, seed: UInt64, e: UInt64, f: UInt64)
    requires Injective(mix) && e != f
    ensures AttemptSeed(mix, seed, e) != AttemptSeed(mix, seed, f)
  {
    AttemptSourcesDistinct(seed, e, f, Mixers.GOLDEN, Mixers.GOLDEN_INVERSE);
  }

  lemma AttemptSourcesDistinct(seed: UInt64, e: UInt64, f: UInt64, c: UInt64, d: UInt64)
    requires e != f && (c * d) % WORD_LIMIT == 1
    ensures (seed + 1 + e * c) % WORD_LIMIT != (seed + 1 + f * c) % WORD_LIMIT
  {
    var base: UInt64 := (seed + 1) % WORD_LIMIT;
    Mixers.StepsInjective(base, e, f, c, d);
    StartModulo(seed, e * c);
    StartModulo(seed, f * c);
    Mixers.StepSum(base, e, c);
    Mixers.StepSum(base, f, c);
  }

  lemma StartModulo(seed: UInt64, x: nat)
    ensures ((seed + 1) % WORD_LIMIT + x) % WORD_LIMIT == (seed + 1 + x) % WORD_LIMIT
  {
  }

  // A mixer that loses nothing hashes different keys, or under different seeds, differently.
  lemma WholeHashSeparates(mix: UInt64 -> UInt64, k: UInt64, l: UInt64, s: UInt64, r: UInt64)
    requires Injective(mix)
    ensures WholeHash(mix, k, s) == WholeHash(mix, l, s) <==> k == l
    ensures WholeHash(mix, k, s) == WholeHash(mix, k, r) <==> s == r
  {
    XorCancels(k, l, s);
    XorCancels(s, r, k);
    XorSymmetric(k, s);
    XorSymmetric(k, r);
  }

  // The bucket of a key comes from the first seed and its second hash from the second: with as
  // many buckets or slots as words, each changes exactly when its own seed or the key does.
  lemma HashesFollowSeeds(t: Table, u: Table, k: UInt64, l: UInt64)
    requires t.mix == u.mix && Injective(t.mix) && t.nb == u.nb == t.m == u.m == WORD_LIMIT
    ensures t.H1(k) == u.H1(k) <==> t.seed1 == u.seed1
    ensures t.H2(k) == u.H2(k) <==> t.seed2 == u.seed2
    ensures t.H1(k) == t.H1(l) <==> k == l
    ensures t.H2(k) == t.H2(l) <==> k == l
  {
    HashesAreWhole(t, k);
    HashesAreWhole(t, l);
    HashesAreWhole(u, k);
    WholeHashSeparates(t.mix, k, l, t.seed1, u.seed1);
    WholeHashSeparates(t.mix, k, l, t.seed2, u.seed2);
  }

  lemma HashesAreWhole(t: Table, k: UInt64)
    requires t.nb == t.m == WORD_LIMIT
    ensures t.H1(k) == WholeHash(t.mix, k, t.seed1) && t.H2(k) == WholeHash(t.mix, k, t.seed2)
  {
  }

  // With fewer of them it is the remainder.
  lemma HashesReduce(t: Table, k: UInt64)
    requires t.nb > 0 && t.m > 0
    ensures var whole := t.(nb := WORD_LIMIT, m := WORD_LIMIT);
            t.H1(k) == whole.H1(k) % t.nb && t.H2(k) == whole.H2(k) % t.m
  {
    HashesAreWhole(t.(nb := WORD_LIMIT, m := WORD_LIMIT), k);
  }

  // Attempt number e over the keys: what a table with that second seed would place.
  function AttemptNumber(mix: UInt64 -> UInt64, m: nat, nb: nat, seed: UInt64, keys: seq<UInt64>, e: nat): (a: Attempt)
    requires nb > 0 && m > 0
    ensures WellFormed(a, nb)
  {
    AttemptOf(Table(m, nb, [], 0, [], mix, seed, AttemptSeed(mix, seed, e)), keys)
  }

  // Every attempt before number upto gets stuck, placing the buckets in this order.
  ghost predicate EarlierFail(mix: UInt64 -> UInt64, m: nat, nb: nat, seed: UInt64, keys: seq<UInt64>,
                              order: seq<nat>, upto: nat)
    requires nb > 0 && m > 0
  {
    && CoversBuckets(AttemptNumber(mix, m, nb, seed, keys, 0), order, nb)
    && LargestFirst(AttemptNumber(mix, m, nb, seed, keys, 0), order)
    && forall e :: 0 <= e < upto ==> Fails(AttemptNumber(mix, m, nb, seed, keys, e), order, nb)
  }

  // The table comes from the first attempt that succeeds.
  ghost predicate FirstSuccess(t: Table, keys: seq<UInt64>, order: seq<nat>, g: seq<nat>, e: nat)
    requires t.nb > 0 && t.m > 0
  {
    && EarlierFail(t.mix, t.m, t.nb, t.seed1, keys, order, e)
    && |g| == t.nb && Succeeds(AttemptNumber(t.mix, t.m, t.nb, t.seed1, keys, e), g, order)
    && t.seed2 == AttemptSeed(t.mix, t.seed1, e)
    && Represents(t, keys, g)
  }

  // Only the hash parameters of a table matter to the attempt it makes.
  lemma SameAttempt(t: Table, keys: seq<UInt64>, e: nat)
    requires t.nb > 0 && t.m > 0
    requires t.seed2 == AttemptSeed(t.mix, t.seed1, e)
    ensures AttemptOf(t, keys) == AttemptNumber(t.mix, t.m, t.nb, t.seed1, keys, e)
  {
    var u := Table(t.m, t.nb, [], 0, [], t.mix, t.seed1, t.seed2);
    assert BucketsOf(t, keys) == BucketsOf(u, keys);
    assert SecondHashesOf(t, keys) == SecondHashesOf(u, keys);
  }

  lemma EarlierFailStep(mix: UInt64 -> UInt64, m: nat, nb: nat, seed: UInt64, keys: seq<UInt64>,
                        order: seq<nat>, e: nat)
    requires nb > 0 && m > 0 && EarlierFail(mix, m, nb, seed, keys, order, e)
    requires Fails(AttemptNumber(mix, m, nb, seed, keys, e), order, nb)
    ensures EarlierFail(mix, m, nb, seed, keys, order, e + 1)
  {
  }

  lemma SameBuckets(mix: UInt64 -> UInt64, m: nat, nb: nat, seed: UInt64, keys: seq<UInt64>, e: nat)
    requires nb > 0 && m > 0
    ensures AttemptNumber(mix, m, nb, seed, keys, e).bucketOf == AttemptNumber(mix, m, nb, seed, keys, 0).bucketOf
  {
  }

  // The table stores the displacements g, and its set bits are exactly the slots of the keys.
  ghost predicate Represents(t: Table, keys: seq<UInt64>, g: seq<nat>)
  {
    && Occupies(t, keys, g)
    && (forall j :: 0 <= j < t.nb ==> Field(t.gpack, j * t.gw, t.gw) == g[j])
  }

  ghost predicate Occupies(t: Table, keys: seq<UInt64>, g: seq<nat>)
  {
    && t.nb > 0 && t.m > 0 && |g| == t.nb && t.m <= 64 * |t.words|
    && (forall p: nat :: BitAt(t.words, p) <==> HasSlot(t, keys, g, p))
  }

  ghost predicate HasSlot(t: Table, keys: seq<UInt64>, g: seq<nat>, p: nat)
    requires t.nb > 0 && t.m > 0 && |g| == t.nb
  {
    exists i :: 0 <= i < |keys| && SlotOf(AttemptOf(t, keys), g, i) == p
  }

  lemma PositionIsSlot(t: Table, keys: seq<UInt64>, g: seq<nat>, i: nat)
    requires Represents(t, keys, g) && i < |keys|
    ensures t.Position(keys[i]) == SlotOf(AttemptOf(t, keys), g, i)
    ensures BitAt(t.words, t.Position(keys[i]))
  {
    assert HasSlot(t, keys, g, SlotOf(AttemptOf(t, keys), g, i));
  }

  // As many bits are set as there are keys.
  lemma OccupiedCount(t: Table, keys: seq<UInt64>, g: seq<nat>)
    requires Occupies(t, keys, g) && DistinctSlots(AttemptOf(t, keys), g)
    ensures CountAll(t.words) == |keys|
  {
    var a := AttemptOf(t, keys);
    var slots := FirstSlots(a, g, |keys|);
    FirstSlotsCount(a, g, |keys|);
    CountAllIsCardinality(t.words);
    forall p: nat
      ensures p in slots <==> p in SetPositions(t.words)
    {
      assert p in slots <==> HasSlot(t, keys, g, p);
    }
    assert slots == SetPositions(t.words);
  }

  ghost function FirstSlots(a: Attempt, g: seq<nat>, n: nat): set<nat>
    requires WellFormed(a, |g|) && n <= |a.h2|
  {
    set i | 0 <= i < n :: SlotOf(a, g, i)
  }

  lemma {:induction false} FirstSlotsCount(a: Attempt, g: seq<nat>, n: nat)
    requires WellFormed(a, |g|) && n <= |a.h2| && DistinctSlots(a, g)
    ensures |FirstSlots(a, g, n)| == n
  {
    if n == 0 {
    } else {
      FirstSlotsCount(a, g, n - 1);
      FirstSlotsStep(a, g, n - 1);
    }
  }

  lemma FirstSlotsStep(a: Attempt, g: seq<nat>, n: nat)
    requires WellFormed(a, |g|) && n < |a.h2| && DistinctSlots(a, g)
    ensures SlotOf(a, g, n) !in FirstSlots(a, g, n)
    ensures FirstSlots(a, g, n + 1) == FirstSlots(a, g, n) + {SlotOf(a, g, n)}
  {
  }

  // The main fact: distinct slots make the table perfect.
  lemma RepresentsIsPerfect(t: Table, keys: seq<UInt64>, g: seq<nat>)
    requires Represents(t, keys, g) && DistinctSlots(AttemptOf(t, keys), g)
    ensures Perfect(t, keys)
  {
    OccupiedCount(t, keys, g);
    forall i | 0 <= i < |keys|
      ensures t.Find(keys[i]).Some?
    {
      PositionIsSlot(t, keys, g, i);
    }
    forall i, k | 0 <= i < k < |keys|
      ensures t.Find(keys[i]) != t.Find(keys[k])
    {
      FindSeparates(t, keys, g, i, k);
    }
    forall id: nat | id < |keys|
      ensures Assigned(t, keys, id)
    {
      var i := FindReaches(t, keys, g, id);
    }
    forall k: UInt64 | t.Find(k).Some?
      ensures t.Find(k).value < |keys|
    {
      RankInjective(t.words, t.Position(k), 64 * |t.words|);
      WordsCountIsRank(t.words, |t.words|);
    }
  }

  lemma FindSeparates(t: Table, keys: seq<UInt64>, g: seq<nat>, i: nat, k: nat)
    requires Represents(t, keys, g) && DistinctSlots(AttemptOf(t, keys), g)
    requires i < k < |keys|
    ensures t.Find(keys[i]) != t.Find(keys[k])
  {
    PositionIsSlot(t, keys, g, i);
    PositionIsSlot(t, keys, g, k);
    var p, q := t.Position(keys[i]), t.Position(keys[k]);
    if p < q {
      RankInjective(t.words, p, q);
    } else {
      RankInjective(t.words, q, p);
    }
  }

  lemma FindReaches(t: Table, keys: seq<UInt64>, g: seq<nat>, id: nat) returns (i: nat)
    requires Represents(t, keys, g) && id < CountAll(t.words)
    ensures i < |keys| && t.Find(keys[i]) == Some(id)
  {
    WordsCountIsRank(t.words, |t.words|);
    var p := RankOnto(t.words, 64 * |t.words|, id);
    assert HasSlot(t, keys, g, p);
    i :| 0 <= i < |keys| && SlotOf(AttemptOf(t, keys), g, i) == p;
    PositionIsSlot(t, keys, g, i);
  }

  // A perfect table has no repeated key.
  lemma PerfectMeansDistinct(t: Table, keys: seq<UInt64>)
    requires Perfect(t, keys)
    ensures forall i, k :: 0 <= i < k < |keys| ==> keys[i] != keys[k]
  {
    forall i, k | 0 <= i < k < |keys|
      ensures keys[i] != keys[k]
    {
      assert t.Find(keys[i]) != t.Find(keys[k]);
    }
  }
}
