/**
  Searching a batch of IDs: the branchless scan spread over workers, the binary search over
  a sorted shard, and why both give the same list.
*/
module Searches {
  import opened Words
  import opened Sorting
  import opened Dedup
  import opened Chunks

  // The first occurrences of the batch elements present in the shard, in batch order.
  function FirstFound(batch: seq<UInt64>, shard: seq<UInt64>): seq<UInt64>
  {
    if batch == [] then []
    else
      var init, q := batch[..|batch| - 1], batch[|batch| - 1];
      FirstFound(init, shard) + (if q in shard && q !in init then [q] else [])
  }

  function Filtered(batch: seq<UInt64>, shard: seq<UInt64>): seq<UInt64>
  {
    if batch == [] then []
    else
      var init, q := batch[..|batch| - 1], batch[|batch| - 1];
      Filtered(init, shard) + (if q in shard then [q] else [])
  }

  lemma {:induction false} FilteredElements(batch: seq<UInt64>, shard: seq<UInt64>, q: UInt64)
    ensures q in Filtered(batch, shard) <==> q in batch && q in shard
    decreases |batch|
  {
    if batch == [] {
    } else {
      var init := batch[..|batch| - 1];
      FilteredElements(init, shard, q);
      assert batch == init + [batch[|batch| - 1]];
    }
  }

  // The result: exactly the batch elements in the shard, in the order in which they first occur.
  lemma {:induction false} FirstFoundIsExact(batch: seq<UInt64>, shard: seq<UInt64>)
    ensures forall q :: q in FirstFound(batch, shard) <==> q in batch && q in shard
    ensures InOrderOf(batch, FirstFound(batch, shard))
    decreases |batch|
  {
    if batch == [] {
    } else {
      var n := |batch| - 1;
      FirstFoundIsExact(batch[..n], shard);
      InOrderStep(batch, FirstFound(batch[..n], shard), n);
      assert batch[..n + 1] == batch;
      assert FirstFound(batch[..n], shard) + [] == FirstFound(batch[..n], shard);
      assert batch == batch[..n] + [batch[n]];
    }
  }

  // Filtering and then dropping repetitions is dropping repetitions while filtering.
  lemma {:induction false} FilterThenDedup(batch: seq<UInt64>, shard: seq<UInt64>)
    ensures FirstOccurrences(Filtered(batch, shard)) == FirstFound(batch, shard)
    decreases |batch|
  {
    if batch == [] {
    } else {
      var init, q := batch[..|batch| - 1], batch[|batch| - 1];
      FilterThenDedup(init, shard);
      FilteredElements(init, shard, q);
      var f := Filtered(init, shard);
      if q in shard {
        DedupSnoc(f, q);
      } else {
        assert f + [] == f;
      }
    }
  }

  lemma DedupSnoc(f: seq<UInt64>, q: UInt64)
    ensures FirstOccurrences(f + [q]) == FirstOccurrences(f) + (if q in f then [] else [q])
  {
    assert (f + [q])[..|f|] == f;
    FirstOccurrencesStep(f + [q], |f|);
    assert (f + [q])[..|f| + 1] == f + [q];
  }

  // Only the elements of the shard matter, not their order or repetitions.
  lemma {:induction false} SameElementsSameResult(batch: seq<UInt64>, s: seq<UInt64>, t: seq<UInt64>)
    requires forall q :: q in s <==> q in t
    ensures FirstFound(batch, s) == FirstFound(batch, t)
    decreases |batch|
  {
    if batch == [] {
    } else {
      SameElementsSameResult(batch[..|batch| - 1], s, t);
    }
  }

  // ----- the equality kernel

  function Complement(x: UInt64): UInt64 { WORD_LIMIT - 1 - x }

  // 1 if v == q and 0 otherwise, without a branch.
  function Equal(v: UInt64, q: UInt64): UInt64
  {
    var x := Xor(v, q);
    (1 + WORD_LIMIT - Shr(Or(x, (Complement(x) + 1) % WORD_LIMIT), 63)) % WORD_LIMIT
  }

  lemma {:induction false} OrAtLeast(x: nat, y: nat)
    ensures OrDigits(x, y) >= x && OrDigits(x, y) >= y
    decreases x + y
  {
    if x == 0 && y == 0 {
    } else {
      OrAtLeast(x / 2, y / 2);
    }
  }

  lemma TopDigit(w: UInt64)
    ensures Shr(w, 63) == if w >= 0x8000_0000_0000_0000 then 1 else 0
  {
    ShrIsDivision(w, 63);
    Pow2Of63();
  }

  lemma Pow2Of63()
    ensures Pow2(63) == 0x8000_0000_0000_0000
  {
    Pow2Of64();
    Pow2Sum(1, 63);
    assert Pow2(1) == 2;
  }

  lemma EqualIsEquality(v: UInt64, q: UInt64)
    ensures Equal(v, q) == if v == q then 1 else 0
  {
    XorIsZero(v, q);
    SignOfDifference(Xor(v, q));
  }

  // A word or its negation has the top digit, unless the word is zero.
  lemma SignOfDifference(x: UInt64)
    ensures Shr(Or(x, (Complement(x) + 1) % WORD_LIMIT), 63) == if x == 0 then 0 else 1
  {
    var y: UInt64 := (Complement(x) + 1) % WORD_LIMIT;
    assert y == if x == 0 then 0 else WORD_LIMIT - x;
    TopDigit(Or(x, y));
    OrAtLeast(x, y);
  }

  method Contains(shard: seq<UInt64>, q: UInt64) returns (b: bool)
    ensures b <==> q in shard
  {
    var found: UInt64 := 0;
    for i := 0 to |shard|
      invariant found == if q in shard[..i] then 1 else 0
    {
      EqualIsEquality(shard[i], q);
      OrOfFlags(found, Equal(shard[i], q));
      found := Or(found, Equal(shard[i], q));
      assert shard[..i + 1] == shard[..i] + [shard[i]];
    }
    assert shard[..|shard|] == shard;
    b := found == 1;
  }

  lemma OrOfFlags(x: UInt64, y: UInt64)
    requires x <= 1 && y <= 1
    ensures Or(x, y) == if x == 1 || y == 1 then 1 else 0
  {
    assert OrDigits(0, 0) == 0;
    assert OrDigits(x / 2, y / 2) == 0;
  }

  // ----- the parallel engine

  // The first n parts, one after another.
  function Flatten(parts: seq<seq<UInt64>>, n: nat): seq<UInt64>
    requires n <= |parts|
  {
    if n == 0 then [] else Flatten(parts, n - 1) + parts[n - 1]
  }

  // The entries lo .. hi of the batch, cut off at its end.
  function Part(batch: seq<UInt64>, lo: nat, hi: nat): seq<UInt64>
    requires lo <= hi
  {
    batch[Clip(|batch|, lo)..Clip(|batch|, hi)]
  }

  lemma {:induction false} FilteredConcat(a: seq<UInt64>, b: seq<UInt64>, shard: seq<UInt64>)
    ensures Filtered(a + b, shard) == Filtered(a, shard) + Filtered(b, shard)
    decreases |b|
  {
    if b == [] {
      assert a + b == a;
    } else {
      var n := |b| - 1;
      assert (a + b)[..|a| + n] == a + b[..n];
      FilteredConcat(a, b[..n], shard);
    }
  }

  // The first n results are the chunks of the batch, filtered one by one.
  ghost predicate Scanned(batch: seq<UInt64>, shard: seq<UInt64>, chunk: nat, results: seq<seq<UInt64>>, n: nat)
    requires n <= |results|
  {
    n > 0 ==>
      && Scanned(batch, shard, chunk, results, n - 1)
      && results[n - 1] == Filtered(Part(batch, Base(chunk, n - 1), Base(chunk, n - 1) + chunk), shard)
  }

  lemma {:induction false} AllScanned(batch: seq<UInt64>, shard: seq<UInt64>, chunk: nat,
                                      results: seq<seq<UInt64>>, n: nat)
    requires n <= |results|
    requires forall w {:trigger results[w]} :: 0 <= w < |results| ==>
               results[w] == Filtered(Part(batch, Base(chunk, w), Base(chunk, w) + chunk), shard)
    ensures Scanned(batch, shard, chunk, results, n)
  {
    if n == 0 {
    } else {
      AllScanned(batch, shard, chunk, results, n - 1);
    }
  }

  // One after another they are the filtered front of the batch.
  lemma {:induction false} ChunksFlatten(batch: seq<UInt64>, shard: seq<UInt64>, chunk: nat,
                                         results: seq<seq<UInt64>>, n: nat)
    requires n <= |results| && Scanned(batch, shard, chunk, results, n)
    ensures Flatten(results, n) == Filtered(Part(batch, 0, Base(chunk, n)), shard)
  {
    if n == 0 {
      assert Part(batch, 0, 0) == [];
    } else {
      ChunksFlatten(batch, shard, chunk, results, n - 1);
      NextPart(batch, shard, Base(chunk, n - 1), chunk, Flatten(results, n - 1), results[n - 1]);
    }
  }

  lemma NextPart(batch: seq<UInt64>, shard: seq<UInt64>, lo: nat, chunk: nat, done: seq<UInt64>, next: seq<UInt64>)
    requires done == Filtered(Part(batch, 0, lo), shard)
    requires next == Filtered(Part(batch, lo, lo + chunk), shard)
    ensures done + next == Filtered(Part(batch, 0, lo + chunk), shard)
  {
    PartsConcat(batch, shard, lo, chunk);
  }

  lemma PartsConcat(batch: seq<UInt64>, shard: seq<UInt64>, lo: nat, chunk: nat)
    ensures Filtered(Part(batch, 0, lo + chunk), shard) ==
            Filtered(Part(batch, 0, lo), shard) + Filtered(Part(batch, lo, lo + chunk), shard)
  {
    assert Part(batch, 0, lo + chunk) == Part(batch, 0, lo) + Part(batch, lo, lo + chunk);
    FilteredConcat(Part(batch, 0, lo), Part(batch, lo, lo + chunk), shard);
  }

  // One worker scans the shard for its part of the batch.
  method SearchPart(part: seq<UInt64>, shard: seq<UInt64>) returns (local: seq<UInt64>)
    ensures local == Filtered(part, shard)
  {
    local := [];
    for i := 0 to |part|
      invariant local == Filtered(part[..i], shard)
    {
      assert part[..i + 1][..i] == part[..i];
      var hit := Contains(shard, part[i]);
      if hit {
        local := local + [part[i]];
      }
    }
    assert part[..|part|] == part;
  }

  method MergeUnique(parts: seq<seq<UInt64>>) returns (out: seq<UInt64>)
    ensures out == FirstOccurrences(Flatten(parts, |parts|))
  {
    var seen: set<UInt64> := {};
    out := [];
    for i := 0 to |parts|
      invariant out == FirstOccurrences(Flatten(parts, i))
      invariant forall q :: q in seen <==> q in Flatten(parts, i)
    {
      out, seen := MergePart(Flatten(parts, i), parts[i], out, seen);
    }
  }

  // The inner loop: one part is merged after the parts before it.
  method MergePart(ghost before: seq<UInt64>, part: seq<UInt64>, merged: seq<UInt64>, known: set<UInt64>)
    returns (out: seq<UInt64>, seen: set<UInt64>)
    requires merged == FirstOccurrences(before)
    requires forall q :: q in known <==> q in before
    ensures out == FirstOccurrences(before + part)
    ensures forall q :: q in seen <==> q in before + part
  {
    out, seen := merged, known;
    ghost var s := before;
    assert before + part[..0] == before;
    for j := 0 to |part|
      invariant s == before + part[..j]
      invariant out == FirstOccurrences(s)
      invariant forall q :: q in seen <==> q in s
    {
      DedupSnoc(s, part[j]);
      if part[j] !in seen {
        seen := seen + {part[j]};
        out := out + [part[j]];
      }
      s := s + [part[j]];
    }
    assert part[..|part|] == part;
  }

  method ParallelSearchEngine(batch: seq<UInt64>, shard: seq<UInt64>, procs: nat) returns (out: seq<UInt64>)
    requires procs > 0
    ensures out == FirstFound(batch, shard)
  {
    FilterThenDedup(batch, shard);
    if |batch| == 0 || |shard| == 0 {
      NothingInEmptyShard(batch, shard);
      return [];
    }
    var workers := if procs > |batch| then |batch| else procs;
    var chunk := ChunkSize(|batch|, workers);
    var results := RunWorkers(batch, shard, chunk, workers);
    AllScanned(batch, shard, chunk, results, workers);
    ChunksFlatten(batch, shard, chunk, results, workers);
    assert Part(batch, 0, Base(chunk, workers)) == batch;
    out := MergeUnique(results);
  }

  lemma {:induction false} NothingInEmptyShard(batch: seq<UInt64>, shard: seq<UInt64>)
    requires batch == [] || shard == []
    ensures FirstFound(batch, shard) == []
    decreases |batch|
  {
    if batch == [] {
    } else {
      NothingInEmptyShard(batch[..|batch| - 1], shard);
    }
  }

  // The workers fill their own slots, in any order; slots of workers that do not start stay empty.
  method RunWorkers(batch: seq<UInt64>, shard: seq<UInt64>, chunk: nat, workers: nat)
    returns (results: seq<seq<UInt64>>)
    requires chunk > 0
    ensures |results| == workers
    ensures forall w {:trigger results[w]} :: 0 <= w < workers ==>
              results[w] == Filtered(Part(batch, Base(chunk, w), Base(chunk, w) + chunk), shard)
  {
    var slots := new seq<UInt64>[workers](w => []);
    var pending := Started(|batch|, chunk, workers);
    while pending != {}
      invariant forall w: nat {:trigger w in pending} :: w in pending ==> w < workers && Base(chunk, w) < |batch|
      invariant forall w: nat {:trigger slots[w]} :: w < workers && w !in pending ==>
                  slots[w] == Filtered(Part(batch, Base(chunk, w), Base(chunk, w) + chunk), shard)
      decreases pending
    {
      var w :| w in pending;
      var lo := StartOf(chunk, w);
      var hi := if lo + chunk > |batch| then |batch| else lo + chunk;
      var local := SearchPart(batch[lo..hi], shard);
      slots[w] := local;
      pending := pending - {w};
    }
    results := slots[..];
  }

  // ----- the sorted shard

  function ContainsSorted(sorted: seq<UInt64>, q: UInt64): (b: bool)
    requires Ascending(sorted)
    ensures b <==> q in sorted
  {
    var i := LowerBound(sorted, q);
    i < |sorted| && sorted[i] == q
  }

  method SearchSortedBatch(sorted: seq<UInt64>, batch: seq<UInt64>) returns (out: seq<UInt64>)
    requires Ascending(sorted)
    ensures out == FirstFound(batch, sorted)
  {
    var seen: set<UInt64> := {};
    out := [];
    for i := 0 to |batch|
      invariant out == FirstFound(batch[..i], sorted)
      invariant forall q :: q in seen <==> q in batch[..i]
    {
      assert batch[..i + 1][..i] == batch[..i];
      if batch[i] in seen {
        continue;
      }
      seen := seen + {batch[i]};
      if ContainsSorted(sorted, batch[i]) {
        out := out + [batch[i]];
      }
    }
    assert batch[..|batch|] == batch;
  }

  // Sorting the shard first and searching it serially gives what the parallel scan gives.
  lemma EnginesAgree(batch: seq<UInt64>, shard: seq<UInt64>, sorted: seq<UInt64>)
    requires multiset(sorted) == multiset(shard)
    ensures FirstFound(batch, sorted) == FirstFound(batch, shard)
  {
    MultisetOfElements(sorted, shard);
    SameElementsSameResult(batch, sorted, shard);
  }
}
