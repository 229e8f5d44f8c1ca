/**
  What the perfect-hash construction has to achieve, said on values: the grouping of the
  keys by bucket, and the first-fit placement of whole buckets into a table of slots.
*/
module Placement {
  import opened Words

  const MAX_DISPLACEMENT: nat := 0xFF_FFFF

  // ----- grouping keys by bucket (counting sort)

  function Count(bucketOf: seq<nat>, upto: nat, j: nat): (c: nat)
    requires upto <= |bucketOf|
    ensures c <= upto
  {
    if upto == 0 then 0 else Count(bucketOf, upto - 1, j) + (if bucketOf[upto - 1] == j then 1 else 0)
  }

  // Number of the first upto keys whose bucket is below j.
  function Less(bucketOf: seq<nat>, upto: nat, j: nat): (c: nat)
    requires upto <= |bucketOf|
    ensures c <= upto
  {
    if upto == 0 then 0 else Less(bucketOf, upto - 1, j) + (if bucketOf[upto - 1] < j then 1 else 0)
  }

  ghost predicate Bucketed(bucketOf: seq<nat>, nb: nat)
  {
    forall i :: 0 <= i < |bucketOf| ==> bucketOf[i] < nb
  }

  // Place a lies in segment j.
  ghost predicate Within(starts: seq<nat>, ends: seq<nat>, j: nat, a: nat)
  {
    j < |starts| && j < |ends| && starts[j] <= a < ends[j]
  }

  // The segments starts[j] .. ends[j] tile keyAt, and segment j lists, in input order,
  // exactly the keys of bucket j.
  ghost predicate Grouped(bucketOf: seq<nat>, nb: nat, starts: seq<nat>, ends: seq<nat>, keyAt: seq<nat>)
  {
    && |starts| == |ends| == nb && |keyAt| == |bucketOf|
    && (forall j :: 0 <= j < nb ==> starts[j] <= ends[j] <= |keyAt|)
    && (forall j :: 0 <= j < nb ==> starts[j] == (if j == 0 then 0 else ends[j - 1]))
    && (if nb == 0 then |keyAt| == 0 else ends[nb - 1] == |keyAt|)
    && (forall j: nat, a: nat :: Within(starts, ends, j, a) ==>
          a < |keyAt| && keyAt[a] < |bucketOf| && bucketOf[keyAt[a]] == j)
    && (forall j: nat, a: nat, b: nat :: Within(starts, ends, j, a) && Within(starts, ends, j, b) && a < b ==>
          keyAt[a] < keyAt[b])
    && (forall i :: 0 <= i < |bucketOf| ==> Listed(bucketOf[i], starts, ends, keyAt, i))
  }

  // Key i is listed in segment j.
  ghost predicate Listed(j: nat, starts: seq<nat>, ends: seq<nat>, keyAt: seq<nat>, i: nat)
  {
    exists a: nat :: Within(starts, ends, j, a) && a < |keyAt| && keyAt[a] == i
  }

  lemma {:induction false} LessNext(bucketOf: seq<nat>, upto: nat, j: nat)
    requires upto <= |bucketOf|
    ensures Less(bucketOf, upto, j + 1) == Less(bucketOf, upto, j) + Count(bucketOf, upto, j)
  {
    if upto == 0 {
    } else {
      LessNext(bucketOf, upto - 1, j);
    }
  }

  lemma {:induction false} LessEnds(bucketOf: seq<nat>, upto: nat, nb: nat)
    requires upto <= |bucketOf| && Bucketed(bucketOf, nb)
    ensures Less(bucketOf, upto, 0) == 0 && Less(bucketOf, upto, nb) == upto
  {
    if upto == 0 {
    } else {
      LessEnds(bucketOf, upto - 1, nb);
    }
  }

  lemma {:induction false} LessFromZero(bucketOf: seq<nat>, upto: nat)
    requires upto <= |bucketOf|
    ensures Less(bucketOf, upto, 0) == 0
  {
    if upto == 0 {
    } else {
      LessFromZero(bucketOf, upto - 1);
    }
  }

  lemma {:induction false} LessMonotone(bucketOf: seq<nat>, upto: nat, j: nat, k: nat)
    requires upto <= |bucketOf| && j <= k
    ensures Less(bucketOf, upto, j) <= Less(bucketOf, upto, k)
  {
    if upto == 0 {
    } else {
      LessMonotone(bucketOf, upto - 1, j, k);
    }
  }

  lemma {:induction false} CountMonotone(bucketOf: seq<nat>, m: nat, n: nat, j: nat)
    requires m <= n <= |bucketOf|
    ensures Count(bucketOf, m, j) <= Count(bucketOf, n, j)
  {
    if m == n {
    } else {
      CountMonotone(bucketOf, m, n - 1, j);
    }
  }

  function Start(bucketOf: seq<nat>, j: nat): nat { Less(bucketOf, |bucketOf|, j) }

  // Place a lies in the filled part of segment j.
  ghost predicate Used(bucketOf: seq<nat>, cursor: seq<nat>, j: nat, a: nat)
  {
    j < |cursor| && Start(bucketOf, j) <= a < cursor[j]
  }

  // The state of the second counting-sort pass after the first done keys: segment j is
  // filled from its start up to cursor[j], and at[i] is the place given to key i.
  ghost predicate Filled(bucketOf: seq<nat>, nb: nat, done: nat, cursor: seq<nat>, keyAt: seq<nat>, at: seq<nat>)
    requires done <= |bucketOf|
  {
    && Counted(bucketOf, nb, done, cursor)
    && |keyAt| == |bucketOf| && |at| == done
    && (forall i :: 0 <= i < done ==>
          Used(bucketOf, cursor, bucketOf[i], at[i]) && at[i] < |keyAt| && keyAt[at[i]] == i)
    && Listing(bucketOf, done, cursor, keyAt)
  }

  // Every place in use holds an early key of its segment's bucket, and keys ascend in it.
  ghost predicate Listing(bucketOf: seq<nat>, done: nat, cursor: seq<nat>, keyAt: seq<nat>)
  {
    && (forall j: nat, a: nat :: Used(bucketOf, cursor, j, a) ==>
          a < |keyAt| && keyAt[a] < done && keyAt[a] < |bucketOf| && bucketOf[keyAt[a]] == j)
    && (forall j: nat, a: nat, b: nat :: Used(bucketOf, cursor, j, a) && Used(bucketOf, cursor, j, b) && a < b ==>
          keyAt[a] < keyAt[b])
  }

  ghost predicate Counted(bucketOf: seq<nat>, nb: nat, done: nat, cursor: seq<nat>)
    requires done <= |bucketOf|
  {
    && Bucketed(bucketOf, nb)
    && |cursor| == nb
    && (forall j :: 0 <= j < nb ==> cursor[j] == Start(bucketOf, j) + Count(bucketOf, done, j))
  }

  lemma CursorBounds(bucketOf: seq<nat>, nb: nat, done: nat, cursor: seq<nat>, j: nat)
    requires done <= |bucketOf| && Counted(bucketOf, nb, done, cursor) && j < nb
    ensures cursor[j] <= Start(bucketOf, j + 1) <= |bucketOf|
    ensures done < |bucketOf| && bucketOf[done] == j ==> cursor[j] < Start(bucketOf, j + 1)
  {
    LessNext(bucketOf, |bucketOf|, j);
    CountMonotone(bucketOf, done, |bucketOf|, j);
    if done < |bucketOf| {
      CountMonotone(bucketOf, done + 1, |bucketOf|, j);
    }
  }

  // The place about to be filled is free.
  lemma CursorIsFree(bucketOf: seq<nat>, nb: nat, done: nat, cursor: seq<nat>, j: nat)
    requires done < |bucketOf| && Counted(bucketOf, nb, done, cursor)
    ensures !Used(bucketOf, cursor, j, cursor[bucketOf[done]])
  {
    var k := bucketOf[done];
    if j < nb {
      CursorBounds(bucketOf, nb, done, cursor, j);
      CursorBounds(bucketOf, nb, done, cursor, k);
      if j < k {
        LessMonotone(bucketOf, |bucketOf|, j + 1, k);
      } else if k < j {
        LessMonotone(bucketOf, |bucketOf|, k + 1, j);
      }
    }
  }

  // So its segment has room for the next key.
  lemma CursorInside(bucketOf: seq<nat>, nb: nat, done: nat, cursor: seq<nat>, keyAt: seq<nat>, at: seq<nat>)
    requires done < |bucketOf| && Bucketed(bucketOf, nb) && Filled(bucketOf, nb, done, cursor, keyAt, at)
    ensures bucketOf[done] < |cursor| == nb && cursor[bucketOf[done]] < |keyAt| == |bucketOf|
  {
    CursorBounds(bucketOf, nb, done, cursor, bucketOf[done]);
  }

  lemma NothingFilled(bucketOf: seq<nat>, nb: nat, cursor: seq<nat>, keyAt: seq<nat>)
    requires Bucketed(bucketOf, nb) && |cursor| == nb && |keyAt| == |bucketOf|
    requires forall j :: 0 <= j < nb ==> cursor[j] == Start(bucketOf, j)
    ensures Filled(bucketOf, nb, 0, cursor, keyAt, [])
  {
  }

  lemma FillStep(bucketOf: seq<nat>, nb: nat, done: nat, cursor: seq<nat>, keyAt: seq<nat>, at: seq<nat>,
                 cursor2: seq<nat>, keyAt2: seq<nat>)
    requires done < |bucketOf| && Filled(bucketOf, nb, done, cursor, keyAt, at)
    requires cursor[bucketOf[done]] < |keyAt|
    requires cursor2 == cursor[bucketOf[done] := cursor[bucketOf[done]] + 1]
    requires keyAt2 == keyAt[cursor[bucketOf[done]] := done]
    ensures Filled(bucketOf, nb, done + 1, cursor2, keyAt2, at + [cursor[bucketOf[done]]])
  {
    UsedStep(bucketOf, nb, done, cursor, cursor2);
    ListingStep(bucketOf, nb, done, cursor, keyAt, cursor2, keyAt2);
  }

  lemma ListingStep(bucketOf: seq<nat>, nb: nat, done: nat, cursor: seq<nat>, keyAt: seq<nat>,
                    cursor2: seq<nat>, keyAt2: seq<nat>)
    requires done < |bucketOf| && Counted(bucketOf, nb, done, cursor) && Listing(bucketOf, done, cursor, keyAt)
    requires cursor[bucketOf[done]] < |keyAt|
    requires cursor2 == cursor[bucketOf[done] := cursor[bucketOf[done]] + 1]
    requires keyAt2 == keyAt[cursor[bucketOf[done]] := done]
    ensures Listing(bucketOf, done + 1, cursor2, keyAt2)
  {
    UsedStep(bucketOf, nb, done, cursor, cursor2);
  }

  // Exactly one more place is in use.
  lemma UsedStep(bucketOf: seq<nat>, nb: nat, done: nat, cursor: seq<nat>, cursor2: seq<nat>)
    requires done < |bucketOf| && Counted(bucketOf, nb, done, cursor)
    requires cursor2 == cursor[bucketOf[done] := cursor[bucketOf[done]] + 1]
    ensures Counted(bucketOf, nb, done + 1, cursor2)
    ensures forall j: nat :: !Used(bucketOf, cursor, j, cursor[bucketOf[done]])
    ensures forall j: nat, a: nat :: Used(bucketOf, cursor2, j, a) <==>
              Used(bucketOf, cursor, j, a) || (j == bucketOf[done] && a == cursor[bucketOf[done]])
  {
    forall j: nat
      ensures !Used(bucketOf, cursor, j, cursor[bucketOf[done]])
    {
      CursorIsFree(bucketOf, nb, done, cursor, j);
    }
  }

  lemma FilledIsGrouped(bucketOf: seq<nat>, nb: nat, starts: seq<nat>, cursor: seq<nat>, keyAt: seq<nat>, at: seq<nat>)
    requires Filled(bucketOf, nb, |bucketOf|, cursor, keyAt, at)
    requires |starts| == nb && forall j :: 0 <= j < nb ==> starts[j] == Start(bucketOf, j)
    ensures Grouped(bucketOf, nb, starts, cursor, keyAt)
  {
    FilledTiles(bucketOf, nb, starts, cursor);
    assert forall j: nat, a: nat :: Within(starts, cursor, j, a) <==> Used(bucketOf, cursor, j, a);
    forall i | 0 <= i < |bucketOf|
      ensures Listed(bucketOf[i], starts, cursor, keyAt, i)
    {
      assert Within(starts, cursor, bucketOf[i], at[i]);
    }
  }

  // Segment j is as long as bucket j has keys.
  ghost predicate SizesCounted(bucketOf: seq<nat>, starts: seq<nat>, ends: seq<nat>)
  {
    && |starts| == |ends|
    && forall j :: 0 <= j < |starts| ==> ends[j] == starts[j] + Count(bucketOf, |bucketOf|, j)
  }

  lemma FilledTiles(bucketOf: seq<nat>, nb: nat, starts: seq<nat>, cursor: seq<nat>)
    requires Counted(bucketOf, nb, |bucketOf|, cursor)
    requires |starts| == nb && forall j :: 0 <= j < nb ==> starts[j] == Start(bucketOf, j)
    ensures forall j :: 0 <= j < nb ==> starts[j] <= cursor[j] <= |bucketOf|
    ensures forall j :: 0 <= j < nb ==> starts[j] == (if j == 0 then 0 else cursor[j - 1])
    ensures if nb == 0 then |bucketOf| == 0 else cursor[nb - 1] == |bucketOf|
  {
    LessEnds(bucketOf, |bucketOf|, nb);
    forall j | 0 <= j < nb
      ensures cursor[j] == Start(bucketOf, j + 1)
    {
      LessNext(bucketOf, |bucketOf|, j);
    }
  }

  // The grouping is a permutation: every key is listed, and none twice.
  lemma GroupedIsPermutation(bucketOf: seq<nat>, nb: nat, starts: seq<nat>, ends: seq<nat>, keyAt: seq<nat>)
    requires Grouped(bucketOf, nb, starts, ends, keyAt)
    ensures forall i :: 0 <= i < |bucketOf| ==> i in keyAt
    ensures forall a, b :: 0 <= a < b < |keyAt| ==> keyAt[a] != keyAt[b]
  {
    forall i | 0 <= i < |bucketOf|
      ensures i in keyAt
    {
      assert Listed(bucketOf[i], starts, ends, keyAt, i);
    }
    forall a, b | 0 <= a < b < |keyAt|
      ensures keyAt[a] != keyAt[b]
    {
      var j := SegmentOf(nb, starts, ends, |keyAt|, a);
      var k := SegmentOf(nb, starts, ends, |keyAt|, b);
      assert Within(starts, ends, j, a) && Within(starts, ends, k, b);
    }
  }

  lemma SegmentOf(nb: nat, starts: seq<nat>, ends: seq<nat>, n: nat, a: nat) returns (j: nat)
    requires |starts| == |ends| == nb && a < n
    requires forall j :: 0 <= j < nb ==> starts[j] == (if j == 0 then 0 else ends[j - 1])
    requires if nb == 0 then n == 0 else ends[nb - 1] == n
    ensures Within(starts, ends, j, a)
  {
    j := nb - 1;
    while starts[j] > a
      invariant 0 <= j < nb && a < ends[j]
      decreases j
    {
      j := j - 1;
    }
  }

  // ----- placing buckets

  // One attempt: the bucket and the second hash of every key, and the table size.
  datatype Attempt = Attempt(bucketOf: seq<nat>, h2: seq<nat>, m: nat)

  ghost predicate WellFormed(a: Attempt, nb: nat)
  {
    && |a.bucketOf| == |a.h2| && a.m > 0
    && Bucketed(a.bucketOf, nb)
  }

  // The slot of second hash h under displacement d, in a table of m slots.
  function Slot(h: nat, d: nat, m: nat): (s: nat)
    requires m > 0
    ensures s < m
  {
    (h + d) % m
  }

  // Displacement 0 leaves a key on its second hash; each further one moves it on by one slot,
  // from the last slot to the first.
  lemma SlotMoves(h: nat, d: nat, m: nat)
    requires h < m
    ensures Slot(h, 0, m) == h
    ensures Slot(h, d + 1, m) == if Slot(h, d, m) + 1 == m then 0 else Slot(h, d, m) + 1
  {
    SmallRemainder(h, m);
    NextRemainder(h + d, m);
  }

  lemma SmallRemainder(h: nat, m: nat)
    requires h < m
    ensures h % m == h
  {
  }

  lemma NextRemainder(x: nat, m: nat)
    requires m > 0
    ensures (x + 1) % m == if x % m + 1 == m then 0 else x % m + 1
  {
    var q, r := x / m, x % m;
    if r + 1 == m {
      NextMultiple(m, q);
      DivideSum(m, q + 1, 0);
      assert x + 1 == m * (q + 1) + 0;
    } else {
      DivideSum(m, q, r + 1);
      assert x + 1 == m * q + (r + 1);
    }
  }

  lemma NextMultiple(m: nat, q: nat)
    ensures m * (q + 1) == m * q + m
  {
  }

  function SlotOf(a: Attempt, g: seq<nat>, i: nat): nat
    requires WellFormed(a, |g|) && i < |a.h2|
  {
    Slot(a.h2[i], g[a.bucketOf[i]], a.m)
  }

  // The slots of the keys whose bucket is among done.
  ghost function Taken(a: Attempt, g: seq<nat>, done: seq<nat>): set<nat>
    requires WellFormed(a, |g|)
  {
    set i | 0 <= i < |a.h2| && a.bucketOf[i] in done :: SlotOf(a, g, i)
  }

  // With displacement d every key of bucket j falls on a free slot of its own.
  ghost predicate Fits(a: Attempt, taken: set<nat>, j: nat, d: nat)
    requires |a.bucketOf| == |a.h2| && a.m > 0
  {
    && (forall i :: 0 <= i < |a.h2| && a.bucketOf[i] == j ==> Slot(a.h2[i], d, a.m) !in taken)
    && (forall i, k :: 0 <= i < k < |a.h2| && a.bucketOf[i] == j && a.bucketOf[k] == j ==>
          Slot(a.h2[i], d, a.m) != Slot(a.h2[k], d, a.m))
  }

  ghost predicate FirstFit(a: Attempt, taken: set<nat>, j: nat, d: nat)
    requires |a.bucketOf| == |a.h2| && a.m > 0
  {
    d < 0xFF_FFFF && Fits(a, taken, j, d) && forall e :: 0 <= e < d ==> !Fits(a, taken, j, e)
  }

  ghost predicate NoFit(a: Attempt, taken: set<nat>, j: nat)
    requires |a.bucketOf| == |a.h2| && a.m > 0
  {
    forall d :: 0 <= d < 0xFF_FFFF ==> !Fits(a, taken, j, d)
  }

  // The buckets order[..t] each hold the least displacement that fits after the ones before.
  ghost predicate PlacedUpTo(a: Attempt, g: seq<nat>, order: seq<nat>, t: nat)
    requires WellFormed(a, |g|) && t <= |order|
  {
    forall u :: 0 <= u < t ==>
      order[u] < |g| && FirstFit(a, Taken(a, g, order[..u]), order[u], g[order[u]])
  }

  // The buckets to place: all the non-empty ones, each once.
  ghost predicate CoversBuckets(a: Attempt, order: seq<nat>, nb: nat)
  {
    && (forall u :: 0 <= u < |order| ==> order[u] < nb)
    && (forall u, v :: 0 <= u < v < |order| ==> order[u] != order[v])
    && (forall i :: 0 <= i < |a.bucketOf| ==> a.bucketOf[i] in order)
  }

  // Buckets with more keys come first.
  ghost predicate LargestFirst(a: Attempt, order: seq<nat>)
  {
    forall u, v :: 0 <= u < v < |order| ==>
      Count(a.bucketOf, |a.bucketOf|, order[u]) >= Count(a.bucketOf, |a.bucketOf|, order[v])
  }

  // First-fit placement of every bucket along order succeeds with displacements g.
  ghost predicate Succeeds(a: Attempt, g: seq<nat>, order: seq<nat>)
  {
    && WellFormed(a, |g|)
    && PlacedUpTo(a, g, order, |order|)
  }

  // First-fit placement along order gets stuck at some bucket.
  ghost predicate Fails(a: Attempt, order: seq<nat>, nb: nat)
  {
    && WellFormed(a, nb)
    && exists t, g: seq<nat> ::
         && 0 <= t < |order| && |g| == nb
         && PlacedUpTo(a, g, order, t)
         && NoFit(a, Taken(a, g, order[..t]), order[t])
  }

  ghost predicate DistinctSlots(a: Attempt, g: seq<nat>)
    requires WellFormed(a, |g|)
  {
    forall i, k :: 0 <= i < k < |a.h2| ==> SlotOf(a, g, i) != SlotOf(a, g, k)
  }

  // A key placed later never falls on the slot of a key placed earlier.
  lemma LaterAvoidsEarlier(a: Attempt, g: seq<nat>, order: seq<nat>, u: nat, v: nat, i: nat, k: nat)
    requires Succeeds(a, g, order)
    requires u < v < |order| && i < |a.h2| && k < |a.h2|
    requires a.bucketOf[i] == order[u] && a.bucketOf[k] == order[v]
    ensures SlotOf(a, g, i) != SlotOf(a, g, k)
  {
    assert order[..v][u] == order[u];
    assert SlotOf(a, g, i) in Taken(a, g, order[..v]);
    assert FirstFit(a, Taken(a, g, order[..v]), order[v], g[order[v]]);
  }

  lemma SuccessSeparatesSlots(a: Attempt, g: seq<nat>, order: seq<nat>)
    requires Succeeds(a, g, order) && CoversBuckets(a, order, |g|)
    ensures DistinctSlots(a, g)
  {
    forall i, k | 0 <= i < k < |a.h2|
      ensures SlotOf(a, g, i) != SlotOf(a, g, k)
    {
      assert a.bucketOf[i] in order && a.bucketOf[k] in order;
      var u :| 0 <= u < |order| && order[u] == a.bucketOf[i];
      var v :| 0 <= v < |order| && order[v] == a.bucketOf[k];
      if u < v {
        LaterAvoidsEarlier(a, g, order, u, v, i, k);
      } else if v < u {
        LaterAvoidsEarlier(a, g, order, v, u, k, i);
      } else {
        SameBucketApart(a, g, order, u, i, k);
      }
    }
  }

  lemma SameBucketApart(a: Attempt, g: seq<nat>, order: seq<nat>, u: nat, i: nat, k: nat)
    requires Succeeds(a, g, order)
    requires u < |order| && i < k < |a.h2|
    requires a.bucketOf[i] == a.bucketOf[k] == order[u]
    ensures SlotOf(a, g, i) != SlotOf(a, g, k)
  {
    assert FirstFit(a, Taken(a, g, order[..u]), order[u], g[order[u]]);
  }

  // Only the displacements of the buckets in done decide which slots are taken.
  lemma TakenDependsOnDone(a: Attempt, g: seq<nat>, h: seq<nat>, done: seq<nat>)
    requires WellFormed(a, |g|) && |h| == |g|
    requires forall j :: j in done && j < |g| ==> g[j] == h[j]
    ensures Taken(a, g, done) == Taken(a, h, done)
  {
    forall s
      ensures s in Taken(a, g, done) <==> s in Taken(a, h, done)
    {
      if s in Taken(a, g, done) {
        var i :| 0 <= i < |a.h2| && a.bucketOf[i] in done && SlotOf(a, g, i) == s;
        assert SlotOf(a, h, i) == s;
      }
      if s in Taken(a, h, done) {
        var i :| 0 <= i < |a.h2| && a.bucketOf[i] in done && SlotOf(a, h, i) == s;
        assert SlotOf(a, g, i) == s;
      }
    }
  }

  // First-fit placement is deterministic: two runs agree on every bucket both placed.
  lemma {:induction false} PlacementUnique(a: Attempt, g: seq<nat>, h: seq<nat>, order: seq<nat>, t: nat)
    requires WellFormed(a, |g|) && |h| == |g| && t <= |order|
    requires PlacedUpTo(a, g, order, t) && PlacedUpTo(a, h, order, t)
    ensures forall u :: 0 <= u < t ==> g[order[u]] == h[order[u]]
  {
    if t == 0 {
    } else {
      PlacementUnique(a, g, h, order, t - 1);
      TakenDependsOnDone(a, g, h, order[..t - 1]);
      assert FirstFit(a, Taken(a, g, order[..t - 1]), order[t - 1], g[order[t - 1]]);
      assert FirstFit(a, Taken(a, h, order[..t - 1]), order[t - 1], h[order[t - 1]]);
    }
  }

  // Hence an attempt never both succeeds and fails.
  lemma SuccessExcludesFailure(a: Attempt, g: seq<nat>, order: seq<nat>)
    requires Succeeds(a, g, order)
    ensures !Fails(a, order, |g|)
  {
    if Fails(a, order, |g|) {
      var t, h: seq<nat> :| 0 <= t < |order| && |h| == |g| && PlacedUpTo(a, h, order, t)
                            && NoFit(a, Taken(a, h, order[..t]), order[t]);
      assert FirstFit(a, Taken(a, g, order[..t]), order[t], g[order[t]]);
      PlacementUnique(a, g, h, order, t);
      TakenDependsOnDone(a, g, h, order[..t]);
    }
  }

  // Two equal keys never fit: such an attempt cannot succeed.
  lemma DuplicatesNeverPlace(a: Attempt, g: seq<nat>, order: seq<nat>, i: nat, k: nat)
    requires Succeeds(a, g, order) && CoversBuckets(a, order, |g|)
    requires i < k < |a.h2|
    ensures a.bucketOf[i] != a.bucketOf[k] || a.h2[i] != a.h2[k]
  {
    SuccessSeparatesSlots(a, g, order);
    assert SlotOf(a, g, i) != SlotOf(a, g, k);
  }

  // ----- one bucket, as its segment of the grouping

  // The slot of the key at place p of the grouping, under displacement d.
  function SlotAt(keyAt: seq<nat>, h2: seq<nat>, m: nat, d: nat, p: nat): nat
    requires m > 0 && p < |keyAt| && keyAt[p] < |h2|
  {
    Slot(h2[keyAt[p]], d, m)
  }

  ghost predicate Segment(keyAt: seq<nat>, lo: nat, hi: nat, h2: seq<nat>, m: nat)
  {
    && m > 0 && lo <= hi <= |keyAt|
    && forall p :: lo <= p < hi ==> keyAt[p] < |h2|
  }

  // The places lo .. upto fall on free, pairwise distinct slots.
  ghost predicate SegmentFits(keyAt: seq<nat>, lo: nat, upto: nat, h2: seq<nat>, m: nat, taken: set<nat>, d: nat)
    requires Segment(keyAt, lo, upto, h2, m)
  {
    && (forall p :: lo <= p < upto ==> SlotAt(keyAt, h2, m, d, p) !in taken)
    && (forall p, q :: lo <= p < q < upto ==> SlotAt(keyAt, h2, m, d, p) != SlotAt(keyAt, h2, m, d, q))
  }

  // Place a falls on a free slot that no place before it in the segment falls on.
  ghost predicate SlotIsFree(keyAt: seq<nat>, lo: nat, a: nat, h2: seq<nat>, m: nat, taken: set<nat>, d: nat)
    requires Segment(keyAt, lo, a + 1, h2, m) && lo <= a
  {
    && SlotAt(keyAt, h2, m, d, a) !in taken
    && forall q :: lo <= q < a ==> SlotAt(keyAt, h2, m, d, q) != SlotAt(keyAt, h2, m, d, a)
  }

  lemma SegmentFitsStep(keyAt: seq<nat>, lo: nat, a: nat, hi: nat, h2: seq<nat>, m: nat, taken: set<nat>, d: nat)
    requires Segment(keyAt, lo, hi, h2, m) && lo <= a < hi
    ensures SegmentFits(keyAt, lo, a + 1, h2, m, taken, d) <==>
            SegmentFits(keyAt, lo, a, h2, m, taken, d) && SlotIsFree(keyAt, lo, a, h2, m, taken, d)
    ensures SegmentFits(keyAt, lo, hi, h2, m, taken, d) ==> SegmentFits(keyAt, lo, a + 1, h2, m, taken, d)
  {
  }

  ghost function SegmentSlots(keyAt: seq<nat>, lo: nat, upto: nat, h2: seq<nat>, m: nat, d: nat): set<nat>
    requires Segment(keyAt, lo, upto, h2, m)
  {
    set p | lo <= p < upto :: SlotAt(keyAt, h2, m, d, p)
  }

  lemma SegmentSlotsStep(keyAt: seq<nat>, lo: nat, p: nat, h2: seq<nat>, m: nat, d: nat)
    requires Segment(keyAt, lo, p + 1, h2, m) && lo <= p
    ensures SegmentSlots(keyAt, lo, p + 1, h2, m, d) ==
            SegmentSlots(keyAt, lo, p, h2, m, d) + {SlotAt(keyAt, h2, m, d, p)}
  {
  }

  lemma GroupedSegment(a: Attempt, nb: nat, starts: seq<nat>, ends: seq<nat>, keyAt: seq<nat>, j: nat)
    requires WellFormed(a, nb) && Grouped(a.bucketOf, nb, starts, ends, keyAt) && j < nb
    ensures Segment(keyAt, starts[j], ends[j], a.h2, a.m)
  {
    forall p | starts[j] <= p < ends[j]
      ensures keyAt[p] < |a.h2|
    {
      assert Within(starts, ends, j, p);
    }
  }

  // Checking a bucket through its segment is checking all its keys.
  lemma SegmentFitsIsFits(a: Attempt, nb: nat, starts: seq<nat>, ends: seq<nat>, keyAt: seq<nat>,
                          taken: set<nat>, j: nat, d: nat)
    requires WellFormed(a, nb) && Grouped(a.bucketOf, nb, starts, ends, keyAt) && j < nb
    requires Segment(keyAt, starts[j], ends[j], a.h2, a.m)
    ensures SegmentFits(keyAt, starts[j], ends[j], a.h2, a.m, taken, d) <==> Fits(a, taken, j, d)
  {
    if SegmentFits(keyAt, starts[j], ends[j], a.h2, a.m, taken, d) {
      SegmentThenBucket(a, nb, starts, ends, keyAt, taken, j, d);
    }
    if Fits(a, taken, j, d) {
      BucketThenSegment(a, nb, starts, ends, keyAt, taken, j, d);
    }
  }

  lemma SegmentThenBucket(a: Attempt, nb: nat, starts: seq<nat>, ends: seq<nat>, keyAt: seq<nat>,
                          taken: set<nat>, j: nat, d: nat)
    requires WellFormed(a, nb) && Grouped(a.bucketOf, nb, starts, ends, keyAt) && j < nb
    requires Segment(keyAt, starts[j], ends[j], a.h2, a.m)
    requires SegmentFits(keyAt, starts[j], ends[j], a.h2, a.m, taken, d)
    ensures Fits(a, taken, j, d)
  {
    forall i | 0 <= i < |a.h2| && a.bucketOf[i] == j
      ensures Slot(a.h2[i], d, a.m) !in taken
    {
      var p := PlaceOf(a.bucketOf, nb, starts, ends, keyAt, i);
      assert SlotAt(keyAt, a.h2, a.m, d, p) !in taken;
    }
    forall i, k | 0 <= i < k < |a.h2| && a.bucketOf[i] == j && a.bucketOf[k] == j
      ensures Slot(a.h2[i], d, a.m) != Slot(a.h2[k], d, a.m)
    {
      var p := PlaceOf(a.bucketOf, nb, starts, ends, keyAt, i);
      var q := PlaceOf(a.bucketOf, nb, starts, ends, keyAt, k);
      assert p < q;
      assert SlotAt(keyAt, a.h2, a.m, d, p) != SlotAt(keyAt, a.h2, a.m, d, q);
    }
  }

  lemma PlaceOf(bucketOf: seq<nat>, nb: nat, starts: seq<nat>, ends: seq<nat>, keyAt: seq<nat>, i: nat)
    returns (p: nat)
    requires Grouped(bucketOf, nb, starts, ends, keyAt) && i < |bucketOf|
    ensures Within(starts, ends, bucketOf[i], p) && p < |keyAt| && keyAt[p] == i
  {
    assert Listed(bucketOf[i], starts, ends, keyAt, i);
    p :| Within(starts, ends, bucketOf[i], p) && p < |keyAt| && keyAt[p] == i;
  }

  lemma BucketThenSegment(a: Attempt, nb: nat, starts: seq<nat>, ends: seq<nat>, keyAt: seq<nat>,
                          taken: set<nat>, j: nat, d: nat)
    requires WellFormed(a, nb) && Grouped(a.bucketOf, nb, starts, ends, keyAt) && j < nb
    requires Segment(keyAt, starts[j], ends[j], a.h2, a.m)
    requires Fits(a, taken, j, d)
    ensures SegmentFits(keyAt, starts[j], ends[j], a.h2, a.m, taken, d)
  {
    forall p | starts[j] <= p < ends[j]
      ensures SlotAt(keyAt, a.h2, a.m, d, p) !in taken
    {
      assert Within(starts, ends, j, p);
    }
    forall p, q | starts[j] <= p < q < ends[j]
      ensures SlotAt(keyAt, a.h2, a.m, d, p) != SlotAt(keyAt, a.h2, a.m, d, q)
    {
      assert Within(starts, ends, j, p) && Within(starts, ends, j, q);
    }
  }

  // Placing bucket order[t] with displacement d adds exactly the slots of its segment.
  lemma TakenStep(a: Attempt, g: seq<nat>, order: seq<nat>, t: nat, d: nat,
                  starts: seq<nat>, ends: seq<nat>, keyAt: seq<nat>)
    requires WellFormed(a, |g|) && Grouped(a.bucketOf, |g|, starts, ends, keyAt)
    requires CoversBuckets(a, order, |g|) && t < |order|
    requires Segment(keyAt, starts[order[t]], ends[order[t]], a.h2, a.m)
    ensures Taken(a, g[order[t] := d], order[..t + 1]) ==
            Taken(a, g, order[..t]) + SegmentSlots(keyAt, starts[order[t]], ends[order[t]], a.h2, a.m, d)
  {
    var j := order[t];
    var h := g[j := d];
    TakenDependsOnDone(a, g, h, order[..t]);
    assert order[..t + 1] == order[..t] + [j];
    BucketSlots(a, h, starts, ends, keyAt, j);
    var slots := SegmentSlots(keyAt, starts[j], ends[j], a.h2, a.m, d);
    assert Taken(a, h, order[..t + 1]) == Taken(a, h, order[..t]) + slots by {
      TakenUnion(a, h, order[..t], j);
    }
  }

  lemma TakenUnion(a: Attempt, g: seq<nat>, done: seq<nat>, j: nat)
    requires WellFormed(a, |g|)
    ensures Taken(a, g, done + [j]) == Taken(a, g, done) + Taken(a, g, [j])
  {
    forall s
      ensures s in Taken(a, g, done + [j]) <==> s in Taken(a, g, done) || s in Taken(a, g, [j])
    {
      if s in Taken(a, g, done + [j]) {
        var i :| 0 <= i < |a.h2| && a.bucketOf[i] in done + [j] && SlotOf(a, g, i) == s;
        assert a.bucketOf[i] in done || a.bucketOf[i] in [j];
      }
    }
  }

  // The slots of the keys of one bucket are the slots of its segment.
  lemma BucketSlots(a: Attempt, g: seq<nat>, starts: seq<nat>, ends: seq<nat>, keyAt: seq<nat>, j: nat)
    requires WellFormed(a, |g|) && Grouped(a.bucketOf, |g|, starts, ends, keyAt) && j < |g|
    requires Segment(keyAt, starts[j], ends[j], a.h2, a.m)
    ensures Taken(a, g, [j]) == SegmentSlots(keyAt, starts[j], ends[j], a.h2, a.m, g[j])
  {
    forall s | s in Taken(a, g, [j])
      ensures s in SegmentSlots(keyAt, starts[j], ends[j], a.h2, a.m, g[j])
    {
      var i :| 0 <= i < |a.h2| && a.bucketOf[i] in [j] && SlotOf(a, g, i) == s;
      var p := PlaceOf(a.bucketOf, |g|, starts, ends, keyAt, i);
      assert SlotAt(keyAt, a.h2, a.m, g[j], p) == s;
    }
    SegmentIsTaken(a, g, starts, ends, keyAt, j);
  }

  lemma SegmentIsTaken(a: Attempt, g: seq<nat>, starts: seq<nat>, ends: seq<nat>, keyAt: seq<nat>, j: nat)
    requires WellFormed(a, |g|) && Grouped(a.bucketOf, |g|, starts, ends, keyAt) && j < |g|
    requires Segment(keyAt, starts[j], ends[j], a.h2, a.m)
    ensures SegmentSlots(keyAt, starts[j], ends[j], a.h2, a.m, g[j]) <= Taken(a, g, [j])
  {
    forall s | s in SegmentSlots(keyAt, starts[j], ends[j], a.h2, a.m, g[j])
      ensures s in Taken(a, g, [j])
    {
      var p :| starts[j] <= p < ends[j] && SlotAt(keyAt, a.h2, a.m, g[j], p) == s;
      assert Within(starts, ends, j, p);
      assert SlotOf(a, g, keyAt[p]) == s;
    }
  }

  // A placed prefix stays placed when a later bucket gets its displacement.
  lemma PlacedStep(a: Attempt, g: seq<nat>, order: seq<nat>, t: nat, d: nat)
    requires WellFormed(a, |g|) && CoversBuckets(a, order, |g|) && t < |order|
    requires PlacedUpTo(a, g, order, t)
    requires FirstFit(a, Taken(a, g, order[..t]), order[t], d)
    ensures PlacedUpTo(a, g[order[t] := d], order, t + 1)
  {
    var h := g[order[t] := d];
    forall u | 0 <= u < t + 1
      ensures order[u] < |h| && FirstFit(a, Taken(a, h, order[..u]), order[u], h[order[u]])
    {
      TakenDependsOnDone(a, g, h, order[..u]);
    }
  }
}
