/**
  What the nodes behind fixed ranges of words hold after loads, said on values, also when
  several connections lead to one node.

  The proved fact: every run gets the answers of a single machine, whatever the nodes held
  before, exactly when all words are covered and connections that share a node have no words.
*/
module Ranges {
  import opened Words
  import opened Bitmaps
  import opened Wire
  import opened Sharding
  import opened OneBits
  import opened Sums
  import opened Dedup
  import opened Machines
  import opened Gathering

  // ----- what one connection finds

  // The words of range i; whatever else the node holds is leftover.
  ghost predicate HoldsRange(sets: Sets, db: Database, leftover: set<Name>, cuts: seq<nat>, i: nat)
  {
    && db.Keys <= sets.Keys <= db.Keys + leftover && i + 1 < |cuts|
    && forall n :: n in db ==> cuts[i] <= cuts[i + 1] <= |db[n]| && sets[n] == Shard(db[n], cuts, i)
  }

  ghost predicate AllHoldRanges(states: seq<Sets>, db: Database, leftover: set<Name>, w: nat, cuts: seq<nat>)
  {
    && Wide(db, w)
    && forall i :: 0 <= i < |states| ==> HoldsRange(states[i], db, leftover, cuts, i)
  }

  ghost function AnswersOf(states: seq<Sets>, requests: seq<Request>): (a: seq<UInt64>)
    requires |states| == |requests|
    ensures |a| == |states| && forall i :: 0 <= i < |a| ==> a[i] == Answer(states[i], requests[i])
  {
    seq(|states|, i requires 0 <= i < |states| => Answer(states[i], requests[i]))
  }

  // The same request to n connections.
  function StoredRequests(n: nat, a: Name, b: Name): (r: seq<Request>)
    ensures |r| == n && forall i :: 0 <= i < n ==> r[i] == AndStored(a, b)
  {
    seq(n, i => AndStored(a, b))
  }

  // The query, cut into ranges.
  function QueryRequests<T>(conns: seq<T>, cuts: seq<nat>, name: Name, q: seq<UInt64>): (r: seq<Request>)
    requires Sharded(q, cuts, conns)
    ensures |r| == |conns| && forall i :: 0 <= i < |r| ==> r[i] == AndQuery(name, Shard(q, cuts, i))
  {
    seq(|conns|, i requires 0 <= i < |conns| => AndQuery(name, Shard(q, cuts, i)))
  }

  ghost function StoredTotal(states: seq<Sets>, a: Name, b: Name): UInt64
  {
    Total(AnswersOf(states, StoredRequests(|states|, a, b))) % WORD_LIMIT
  }

  ghost function QueryTotal<T>(conns: seq<T>, cuts: seq<nat>, states: seq<Sets>, name: Name, q: seq<UInt64>): UInt64
    requires |states| == |conns| && Sharded(q, cuts, conns)
  {
    Total(AnswersOf(states, QueryRequests(conns, cuts, name, q))) % WORD_LIMIT
  }

  // ----- the counts of connections that hold their ranges

  // The counts of the ranges, one per connection.
  ghost function RangeCounts<T>(x: seq<UInt64>, y: seq<UInt64>, cuts: seq<nat>, conns: seq<T>, upto: nat): (c: seq<nat>)
    requires Sharded(x, cuts, conns) && Sharded(y, cuts, conns) && upto <= |conns|
    ensures |c| == upto && forall i :: 0 <= i < upto ==> c[i] == ShardCount(x, y, cuts, i)
  {
    seq(upto, i requires 0 <= i < upto => ShardCount(x, y, cuts, i))
  }

  lemma {:induction false} RangesAddUp<T>(x: seq<UInt64>, y: seq<UInt64>, cuts: seq<nat>, conns: seq<T>, upto: nat)
    requires Sharded(x, cuts, conns) && Sharded(y, cuts, conns) && upto <= |conns|
    ensures Total(RangeCounts(x, y, cuts, conns, upto)) == AllCount(x, y, cuts, conns, upto)
  {
    if upto == 0 {
    } else {
      RangesAddUp(x, y, cuts, conns, upto - 1);
      assert RangeCounts(x, y, cuts, conns, upto)[..upto - 1] == RangeCounts(x, y, cuts, conns, upto - 1);
    }
  }

  lemma WholeCount<T>(x: seq<UInt64>, y: seq<UInt64>, w: nat, cuts: seq<nat>, conns: seq<T>)
    requires |cuts| == |conns| + 1 && Tiles(cuts, w) && w <= |x| && w <= |y|
    ensures Total(RangeCounts(x, y, cuts, conns, |conns|)) == AndCount(x[..w], y[..w])
  {
    RangesAddUp(x, y, cuts, conns, |conns|);
    AllCountIsPrefix(x, y, cuts, conns, |conns|);
  }

  lemma StoredTotalIsLocal<T>(states: seq<Sets>, db: Database, leftover: set<Name>, w: nat, cuts: seq<nat>, conns: seq<T>,
                              a: Name, b: Name)
    requires |states| == |conns| && |cuts| == |conns| + 1 && Tiles(cuts, w)
    requires AllHoldRanges(states, db, leftover, w, cuts) && Settled(db, leftover, a) && Settled(db, leftover, b)
    ensures StoredTotal(states, a, b) == LocalStored(db, w, a, b)
  {
    var answers := AnswersOf(states, StoredRequests(|states|, a, b));
    if a in db && b in db {
      TotalOfRemainders(RangeCounts(db[a], db[b], cuts, conns, |conns|), answers);
      WholeCount(db[a], db[b], w, cuts, conns);
    } else {
      forall i | 0 <= i < |answers|
        ensures answers[i] == 0
      {
        assert HoldsRange(states[i], db, leftover, cuts, i);
      }
      TotalOfZeros(answers);
    }
  }

  lemma QueryTotalIsLocal<T>(states: seq<Sets>, db: Database, leftover: set<Name>, w: nat, cuts: seq<nat>, conns: seq<T>,
                             name: Name, q: seq<UInt64>)
    requires |states| == |conns| && |cuts| == |conns| + 1 && Tiles(cuts, w) && w <= |q|
    requires AllHoldRanges(states, db, leftover, w, cuts) && Settled(db, leftover, name)
    ensures QueryTotal(conns, cuts, states, name, q) == LocalQuery(db, w, name, q)
  {
    var answers := AnswersOf(states, QueryRequests(conns, cuts, name, q));
    if name in db {
      TotalOfRemainders(RangeCounts(db[name], q, cuts, conns, |conns|), answers);
      WholeCount(db[name], q, w, cuts, conns);
    } else {
      forall i | 0 <= i < |answers|
        ensures answers[i] == 0
      {
        assert HoldsRange(states[i], db, leftover, cuts, i);
      }
      TotalOfZeros(answers);
    }
  }

  // ----- loads

  // The last of the first upto connections that leads where connection k leads; -1 if none.
  ghost function LastUse<T>(conns: seq<T>, upto: nat, k: nat): (j: int)
    requires upto <= |conns| && k < |conns|
    ensures -1 <= j < upto
    ensures j >= 0 ==> conns[j] == conns[k]
    ensures forall i :: j < i < upto ==> conns[i] != conns[k]
  {
    if upto == 0 then -1
    else if conns[upto - 1] == conns[k] then upto - 1
    else LastUse(conns, upto - 1, k)
  }

  // The range whose words connection k finds after a load: the last one sent to its node.
  ghost function RangeFound<T>(conns: seq<T>, k: nat): (j: nat)
    requires k < |conns|
    ensures k <= j < |conns| && conns[j] == conns[k]
    ensures forall i :: j < i < |conns| ==> conns[i] != conns[k]
  {
    LastUse(conns, |conns|, k)
  }

  // What connection k finds when the first upto ranges have been sent.
  ghost function LoadedUpTo<T>(before: seq<Sets>, conns: seq<T>, name: Name, g: seq<UInt64>, cuts: seq<nat>,
                               upto: nat, k: nat): Sets
    requires |before| == |conns| && upto <= |conns| && k < |conns|
    requires Sharded(g, cuts, conns)
  {
    if upto == 0 then before[k]
    else
      var sets := LoadedUpTo(before, conns, name, g, cuts, upto - 1, k);
      if conns[upto - 1] == conns[k] then sets[name := Shard(g, cuts, upto - 1)] else sets
  }

  lemma {:induction false} LoadedIsLastUse<T>(before: seq<Sets>, conns: seq<T>, name: Name,
                                              g: seq<UInt64>, cuts: seq<nat>, upto: nat, k: nat)
    requires |before| == |conns| && upto <= |conns| && k < |conns|
    requires Sharded(g, cuts, conns)
    ensures LoadedUpTo(before, conns, name, g, cuts, upto, k) ==
            var j := LastUse(conns, upto, k);
            if j < 0 then before[k] else before[k][name := Shard(g, cuts, j)]
  {
    if upto == 0 {
    } else {
      LoadedIsLastUse(before, conns, name, g, cuts, upto - 1, k);
    }
  }

  // Each connection finds the last range sent to its node, and nothing else has changed.
  ghost function Loaded<T>(before: seq<Sets>, conns: seq<T>, name: Name, g: seq<UInt64>,
                           cuts: seq<nat>): (after: seq<Sets>)
    requires |before| == |conns| && Sharded(g, cuts, conns)
    ensures |after| == |conns|
    ensures forall k :: 0 <= k < |conns| ==> after[k] == before[k][name := Shard(g, cuts, RangeFound(conns, k))]
  {
    seq(|conns|, k requires 0 <= k < |conns| => before[k][name := Shard(g, cuts, RangeFound(conns, k))])
  }

  // Every connection finds that.
  ghost predicate AllLoadedUpTo<T>(before: seq<Sets>, now: seq<Sets>, conns: seq<T>, name: Name, g: seq<UInt64>,
                                   cuts: seq<nat>, upto: nat)
  {
    && |before| == |now| == |conns| && upto <= |conns| && Sharded(g, cuts, conns)
    && forall k :: 0 <= k < |conns| ==> now[k] == LoadedUpTo(before, conns, name, g, cuts, upto, k)
  }

  // Sending one more range changes what is found by the connections to its node.
  lemma LoadedNext<T>(before: seq<Sets>, now: seq<Sets>, next: seq<Sets>, conns: seq<T>, name: Name, g: seq<UInt64>,
                      cuts: seq<nat>, i: nat)
    requires i < |conns| && AllLoadedUpTo(before, now, conns, name, g, cuts, i)
    requires |next| == |conns|
    requires forall k :: 0 <= k < |conns| ==>
               next[k] == if conns[i] == conns[k] then now[k][name := Shard(g, cuts, i)] else now[k]
    ensures AllLoadedUpTo(before, next, conns, name, g, cuts, i + 1)
  {
  }

  lemma LoadedInTheEnd<T>(before: seq<Sets>, after: seq<Sets>, conns: seq<T>, name: Name, g: seq<UInt64>, cuts: seq<nat>)
    requires AllLoadedUpTo(before, after, conns, name, g, cuts, |conns|)
    ensures after == Loaded(before, conns, name, g, cuts)
  {
    forall k | 0 <= k < |conns|
      ensures after[k] == Loaded(before, conns, name, g, cuts)[k]
    {
      LoadedIsLastUse(before, conns, name, g, cuts, |conns|, k);
    }
  }

  // Connections that lead to one node have no words.
  ghost predicate SharedAreEmpty<T>(conns: seq<T>, cuts: seq<nat>)
    requires |cuts| == |conns| + 1
  {
    forall i, j :: 0 <= i < |conns| && 0 <= j < |conns| && i != j && conns[i] == conns[j] ==> cuts[i] == cuts[i + 1]
  }

  lemma FoundIsOwn<T>(conns: seq<T>, cuts: seq<nat>, g: seq<UInt64>, k: nat)
    requires Sharded(g, cuts, conns) && SharedAreEmpty(conns, cuts) && k < |conns|
    ensures Shard(g, cuts, RangeFound(conns, k)) == Shard(g, cuts, k)
  {
    var r := RangeFound(conns, k);
    if r != k {
      assert Shard(g, cuts, r) == [] == Shard(g, cuts, k);
    }
  }

  // Then a load updates the database everywhere.
  lemma LoadUpdates<T>(before: seq<Sets>, conns: seq<T>, name: Name, g: seq<UInt64>,
                       db: Database, leftover: set<Name>, w: nat, cuts: seq<nat>)
    requires |before| == |conns| && |cuts| == |conns| + 1 && Tiles(cuts, w) && w <= |g| && SharedAreEmpty(conns, cuts)
    requires AllHoldRanges(before, db, leftover, w, cuts)
    ensures AllHoldRanges(Loaded(before, conns, name, g, cuts), db[name := g], leftover, w, cuts)
  {
    forall i | 0 <= i < |conns|
      ensures HoldsRange(Loaded(before, conns, name, g, cuts)[i], db[name := g], leftover, cuts, i)
    {
      FoundIsOwn(conns, cuts, g, i);
      assert HoldsRange(before[i], db, leftover, cuts, i);
      assert cuts[i] <= cuts[i + 1] <= w;
    }
  }

  // ----- whole runs

  // What the coordinator answers to a run that starts with the nodes in the given states.
  ghost function RangeRun<T>(conns: seq<T>, cuts: seq<nat>, states: seq<Sets>, ops: seq<Op>): seq<UInt64>
    requires |states| == |conns| && |cuts| == |conns| + 1 && Tiles(cuts, cuts[|conns|])
    requires forall k :: 0 <= k < |ops| ==> WideOp(ops[k], cuts[|conns|])
    decreases ops
  {
    if ops == [] then []
    else
      assert WideOp(ops[0], cuts[|conns|]);
      match ops[0]
      case Load(name, g) => RangeRun(conns, cuts, Loaded(states, conns, name, g, cuts), ops[1..])
      case CountStored(a, b) => [StoredTotal(states, a, b)] + RangeRun(conns, cuts, states, ops[1..])
      case CountQuery(name, q) => [QueryTotal(conns, cuts, states, name, q)] + RangeRun(conns, cuts, states, ops[1..])
  }

  lemma {:induction false} SoundRunIsLocal<T>(conns: seq<T>, cuts: seq<nat>, w: nat, states: seq<Sets>, db: Database,
                                              leftover: set<Name>, ops: seq<Op>)
    requires |states| == |conns| && |cuts| == |conns| + 1 && Tiles(cuts, w) && SharedAreEmpty(conns, cuts)
    requires forall k :: 0 <= k < |ops| ==> WideOp(ops[k], w)
    requires AllHoldRanges(states, db, leftover, w, cuts) && Answerable(db, leftover, ops)
    ensures RangeRun(conns, cuts, states, ops) == LocalRun(db, w, ops)
    decreases ops
  {
    if ops == [] {
    } else {
      assert WideOp(ops[0], w);
      match ops[0]
      case Load(name, g) =>
        LoadUpdates(states, conns, name, g, db, leftover, w, cuts);
        SoundRunIsLocal(conns, cuts, w, Loaded(states, conns, name, g, cuts), db[name := g], leftover, ops[1..]);
      case CountStored(a, b) =>
        StoredTotalIsLocal(states, db, leftover, w, cuts, conns, a, b);
        SoundRunIsLocal(conns, cuts, w, states, db, leftover, ops[1..]);
      case CountQuery(name, q) =>
        QueryTotalIsLocal(states, db, leftover, w, cuts, conns, name, q);
        SoundRunIsLocal(conns, cuts, w, states, db, leftover, ops[1..]);
    }
  }

  // The names under which the nodes hold anything.
  ghost function Names(states: seq<Sets>): set<Name>
  {
    set i, n | 0 <= i < |states| && n in states[i] :: n
  }

  lemma NothingLoaded(states: seq<Sets>, w: nat, cuts: seq<nat>)
    requires |cuts| == |states| + 1
    ensures AllHoldRanges(states, map[], Names(states), w, cuts)
  {
    forall i | 0 <= i < |states|
      ensures states[i].Keys <= Names(states)
    {
    }
  }

  // States of the connections that can be states of nodes.
  ghost predicate OfNodes<T>(conns: seq<T>, states: seq<Sets>)
  {
    && |states| == |conns|
    && forall i, j :: 0 <= i < j < |conns| && conns[i] == conns[j] ==> states[i] == states[j]
  }

  // Whatever the nodes hold at first, every run in which each name is loaded before it is
  // counted, or is held by no node, gets the answers of the single machine.
  ghost predicate AlwaysRight<T>(conns: seq<T>, cuts: seq<nat>, w: nat)
    requires |cuts| == |conns| + 1 && Tiles(cuts, cuts[|conns|]) && cuts[|conns|] <= w
  {
    forall states, ops {:trigger OfNodes(conns, states), Answerable(map[], Names(states), ops)} ::
      && OfNodes(conns, states) && Answerable(map[], Names(states), ops)
      && (forall k :: 0 <= k < |ops| ==> WideOp(ops[k], w))
      ==> NarrowRun(conns, cuts, states, ops, w) == LocalRun(map[], w, ops)
  }

  // A run whose arrays have at least w words, over ranges of at most w words.
  ghost function NarrowRun<T>(conns: seq<T>, cuts: seq<nat>, states: seq<Sets>, ops: seq<Op>, w: nat): seq<UInt64>
    requires |states| == |conns| && |cuts| == |conns| + 1 && Tiles(cuts, cuts[|conns|]) && cuts[|conns|] <= w
    requires forall k :: 0 <= k < |ops| ==> WideOp(ops[k], w)
  {
    NarrowOps(ops, cuts[|conns|], w);
    RangeRun(conns, cuts, states, ops)
  }

  lemma NarrowOps(ops: seq<Op>, v: nat, w: nat)
    requires v <= w && forall k :: 0 <= k < |ops| ==> WideOp(ops[k], w)
    ensures forall k :: 0 <= k < |ops| ==> WideOp(ops[k], v)
  {
    forall k | 0 <= k < |ops|
      ensures WideOp(ops[k], v)
    {
      assert WideOp(ops[k], w);
    }
  }

  // The coordinator is right exactly when its ranges cover the words and connections that share
  // a node have none.
  lemma RightExactlyWhenSharedAreEmpty<T>(conns: seq<T>, cuts: seq<nat>, w: nat)
    requires |cuts| == |conns| + 1 && Tiles(cuts, cuts[|conns|]) && cuts[|conns|] <= w && |conns| < WORD_LIMIT
    ensures AlwaysRight(conns, cuts, w) <==> cuts[|conns|] == w && SharedAreEmpty(conns, cuts)
  {
    if cuts[|conns|] == w && SharedAreEmpty(conns, cuts) {
      forall states, ops {:trigger OfNodes(conns, states), Answerable(map[], Names(states), ops)} |
        && OfNodes(conns, states) && Answerable(map[], Names(states), ops)
        && (forall k :: 0 <= k < |ops| ==> WideOp(ops[k], w))
        ensures NarrowRun(conns, cuts, states, ops, w) == LocalRun(map[], w, ops)
      {
        NothingLoaded(states, w, cuts);
        SoundRunIsLocal(conns, cuts, w, states, map[], Names(states), ops);
      }
    } else {
      var p := SomeBitMiscounted(conns, cuts, w);
      SomeRunIsWrong(conns, cuts, w, p);
    }
  }

  // With enough words for every range to have some, that means different nodes.
  lemma RightExactlyWhenDistinct<T>(conns: seq<T>, w: nat)
    requires 0 < |conns| <= w && |conns| < WORD_LIMIT
    ensures Tiles(ShardCuts(w, |conns|), w)
    ensures AlwaysRight(conns, ShardCuts(w, |conns|), w) <==> Distinct(conns)
  {
    var cuts := ShardCuts(w, |conns|);
    ShardsTile(w, |conns|);
    RightExactlyWhenSharedAreEmpty(conns, cuts, w);
    if i, j :| 0 <= i < j < |conns| && conns[i] == conns[j] {
      ShardNotEmpty(w, |conns|, i);
    }
  }

  lemma ShardNotEmpty(w: nat, n: nat, i: nat)
    requires 0 < n <= w && i < n
    ensures ShardStart(w, n, i) < ShardStart(w, n, i + 1)
  {
    var x := i * w;
    NextMultiple(i, w);
    DivideMonotone(x + n, x + w, n);
    OneMore(x, n);
  }

  lemma NextMultiple(i: nat, w: nat)
    ensures (i + 1) * w == i * w + w
  {
  }

  lemma OneMore(x: nat, n: nat)
    requires n > 0
    ensures (x + n) / n == x / n + 1
  {
    var q, r := x / n, x % n;
    NextMultiple(q, n);
    DivideSum(n, q + 1, r);
  }

  // ----- connections that share a node

  // What the connections count, each over the range it finds, of an array just loaded, with itself.
  ghost function FoundCounts<T>(conns: seq<T>, cuts: seq<nat>, g: seq<UInt64>): (c: seq<nat>)
    requires Sharded(g, cuts, conns)
    ensures |c| == |conns| && forall k :: 0 <= k < |conns| ==> c[k] == ShardCount(g, g, cuts, RangeFound(conns, k))
  {
    seq(|conns|, k requires 0 <= k < |conns| => ShardCount(g, g, cuts, RangeFound(conns, k)))
  }

  // Their total is what the coordinator answers when the array is loaded and counted.
  lemma CountAfterLoad<T>(before: seq<Sets>, conns: seq<T>, name: Name, g: seq<UInt64>, cuts: seq<nat>)
    requires |before| == |conns| && Sharded(g, cuts, conns)
    ensures StoredTotal(Loaded(before, conns, name, g, cuts), name, name) ==
            Total(FoundCounts(conns, cuts, g)) % WORD_LIMIT
  {
    var after := Loaded(before, conns, name, g, cuts);
    TotalOfRemainders(FoundCounts(conns, cuts, g), AnswersOf(after, StoredRequests(|after|, name, name)));
  }

  // Some bit is lost or counted more than once.
  lemma SomeBitMiscounted<T>(conns: seq<T>, cuts: seq<nat>, w: nat) returns (p: nat)
    requires |cuts| == |conns| + 1 && Tiles(cuts, cuts[|conns|]) && cuts[|conns|] <= w && |conns| < WORD_LIMIT
    requires !(cuts[|conns|] == w && SharedAreEmpty(conns, cuts))
    ensures p < w && Total(FoundCounts(conns, cuts, OneBit(w, p))) % WORD_LIMIT != 1
  {
    if cuts[|conns|] < w {
      p := cuts[|conns|];
      UncoveredIsLost(conns, cuts, w, p);
    } else {
      var i, j :| 0 <= i < |conns| && 0 <= j < |conns| && i != j && conns[i] == conns[j] && cuts[i] != cuts[i + 1];
      assert cuts[i] <= cuts[i + 1];
      p := cuts[i];
      SharedIsMiscounted(conns, cuts, w, i, j);
    }
  }

  lemma UncoveredIsLost<T>(conns: seq<T>, cuts: seq<nat>, w: nat, p: nat)
    requires |cuts| == |conns| + 1 && Tiles(cuts, cuts[|conns|]) && cuts[|conns|] <= p < w
    ensures Total(FoundCounts(conns, cuts, OneBit(w, p))) == 0
  {
    var counts := FoundCounts(conns, cuts, OneBit(w, p));
    forall k | 0 <= k < |conns|
      ensures counts[k] == 0
    {
      AndCountOfZeros(Shard(OneBit(w, p), cuts, RangeFound(conns, k)));
    }
    TotalOfZeros(counts);
  }

  lemma SharedIsMiscounted<T>(conns: seq<T>, cuts: seq<nat>, w: nat, r: nat, j: nat)
    requires |cuts| == |conns| + 1 && Tiles(cuts, cuts[|conns|]) && cuts[|conns|] <= w && |conns| < WORD_LIMIT
    requires r < |conns| && j < |conns| && r != j && conns[r] == conns[j] && cuts[r] < cuts[r + 1]
    ensures Total(FoundCounts(conns, cuts, OneBit(w, cuts[r]))) % WORD_LIMIT != 1
  {
    var counts := FoundCounts(conns, cuts, OneBit(w, cuts[r]));
    forall k | 0 <= k < |conns|
      ensures counts[k] == if RangeFound(conns, k) == r then 1 else 0
    {
      OneBitShard(w, cuts, r, RangeFound(conns, k));
    }
    SharedFlags(conns, r, j, counts);
  }

  // A range is found by both connections that share its node, or by none.
  lemma SharedFlags<T>(conns: seq<T>, r: nat, j: nat, counts: seq<nat>)
    requires r < |conns| && j < |conns| && r != j && conns[r] == conns[j] && |counts| == |conns| < WORD_LIMIT
    requires forall k :: 0 <= k < |conns| ==> counts[k] == if RangeFound(conns, k) == r then 1 else 0
    ensures Total(counts) == 0 || 2 <= Total(counts) < WORD_LIMIT
  {
    if RangeFound(conns, r) == r {
      assert RangeFound(conns, j) == r;
      TotalAtLeast(counts, r, j);
      TotalOfFlags(counts);
    } else {
      forall k | 0 <= k < |conns|
        ensures RangeFound(conns, k) != r
      {
        var l := RangeFound(conns, r);
        assert conns[l] == conns[r];
      }
      TotalOfZeros(counts);
    }
  }

  lemma SomeRunIsWrong<T>(conns: seq<T>, cuts: seq<nat>, w: nat, p: nat)
    requires |cuts| == |conns| + 1 && Tiles(cuts, cuts[|conns|]) && cuts[|conns|] <= w && p < w
    requires Total(FoundCounts(conns, cuts, OneBit(w, p))) % WORD_LIMIT != 1
    ensures !AlwaysRight(conns, cuts, w)
  {
    var states := seq(|conns|, k => map[]);
    var ops := LoadAndCount([], OneBit(w, p));
    LoadAndCountLocal([], w, p);
    LoadAndCountRun(conns, cuts, states, w, p);
    assert Names(states) == {};
    if AlwaysRight(conns, cuts, w) {
      RightAt(conns, cuts, w, states, ops);
    }
  }

  lemma RightAt<T>(conns: seq<T>, cuts: seq<nat>, w: nat, states: seq<Sets>, ops: seq<Op>)
    requires |cuts| == |conns| + 1 && Tiles(cuts, cuts[|conns|]) && cuts[|conns|] <= w
    requires AlwaysRight(conns, cuts, w) && OfNodes(conns, states) && Answerable(map[], Names(states), ops)
    requires forall k :: 0 <= k < |ops| ==> WideOp(ops[k], w)
    ensures NarrowRun(conns, cuts, states, ops, w) == LocalRun(map[], w, ops)
  {
  }

  lemma LoadAndCountRun<T>(conns: seq<T>, cuts: seq<nat>, states: seq<Sets>, w: nat, p: nat)
    requires |states| == |conns| && |cuts| == |conns| + 1 && Tiles(cuts, cuts[|conns|]) && cuts[|conns|] <= w
    ensures forall k :: 0 <= k < 2 ==> WideOp(LoadAndCount([], OneBit(w, p))[k], w)
    ensures NarrowRun(conns, cuts, states, LoadAndCount([], OneBit(w, p)), w) ==
            [Total(FoundCounts(conns, cuts, OneBit(w, p))) % WORD_LIMIT]
  {
    var g := OneBit(w, p);
    var ops := LoadAndCount([], g);
    assert ops[1..] == [CountStored([], [])] && ops[1..][1..] == [];
    var after := Loaded(states, conns, [], g, cuts);
    CountAfterLoad(states, conns, [], g, cuts);
    assert RangeRun(conns, cuts, after, ops[1..]) == [StoredTotal(after, [], [])];
  }
}
