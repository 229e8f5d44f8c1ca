/**
  What the nodes of a cluster hold after loads, said on values: the part of a database under
  each address, and which part is left when several addresses reach one node.

  The proved fact: every run gets the answers of a single machine, whatever the nodes held
  before and in whatever order loads are delivered, exactly when the cluster is sound.
*/
module Deliveries {
  import opened Words
  import opened Wire
  import opened Sharding
  import opened OneBits
  import opened Sums
  import opened Rings
  import opened Machines
  import opened Gathering

  // ----- what one node holds of the database

  // The part of the database under one owner.  Whatever else the node holds is leftover.
  ghost predicate Holds(sets: Sets, db: Database, leftover: set<Name>, cuts: seq<nat>, owners: seq<Addr>, key: Addr)
  {
    && db.Keys <= sets.Keys <= db.Keys + leftover
    && forall n :: n in db ==> Sharded(db[n], cuts, owners) && sets[n] == Slice(db[n], cuts, owners, key, |owners|)
  }

  // Its exact count for a stored intersection.
  ghost function Share(db: Database, cuts: seq<nat>, owners: seq<Addr>, a: Name, b: Name, key: Addr): nat
  {
    if a in db && b in db && Sharded(db[a], cuts, owners) && Sharded(db[b], cuts, owners)
    then OwnedCount(db[a], db[b], cuts, owners, key, |owners|) else 0
  }

  lemma HoldsAnswers(sets: Sets, db: Database, leftover: set<Name>, cuts: seq<nat>, owners: seq<Addr>, key: Addr,
                     a: Name, b: Name)
    requires Holds(sets, db, leftover, cuts, owners, key) && Settled(db, leftover, a) && Settled(db, leftover, b)
    ensures Answer(sets, AndStored(a, b)) == Share(db, cuts, owners, a, b, key) % WORD_LIMIT
  {
    if a in db && b in db {
      SliceCount(db[a], db[b], cuts, owners, key, |owners|);
    }
  }

  // Its exact count for a query.
  ghost function QueryShare(db: Database, cuts: seq<nat>, owners: seq<Addr>, name: Name, q: seq<UInt64>, key: Addr): nat
  {
    if name in db && Sharded(db[name], cuts, owners) && Sharded(q, cuts, owners)
    then OwnedCount(db[name], q, cuts, owners, key, |owners|) else 0
  }

  lemma HoldsAnswersQuery(sets: Sets, db: Database, leftover: set<Name>, cuts: seq<nat>, owners: seq<Addr>, key: Addr,
                          name: Name, q: seq<UInt64>)
    requires Holds(sets, db, leftover, cuts, owners, key) && Settled(db, leftover, name) && Sharded(q, cuts, owners)
    ensures Answer(sets, AndQuery(name, Slice(q, cuts, owners, key, |owners|))) ==
            QueryShare(db, cuts, owners, name, q, key) % WORD_LIMIT
  {
    if name in db {
      SliceCount(db[name], q, cuts, owners, key, |owners|);
    }
  }

  // Storing the slice of a new array keeps the node's part of the database.
  lemma HoldsLoaded(sets: Sets, db: Database, leftover: set<Name>, cuts: seq<nat>, owners: seq<Addr>, key: Addr,
                    name: Name, g: seq<UInt64>)
    requires Holds(sets, db, leftover, cuts, owners, key) && Sharded(g, cuts, owners)
    ensures Holds(sets[name := Slice(g, cuts, owners, key, |owners|)], db[name := g], leftover, cuts, owners, key)
  {
  }

  // ----- what all nodes together answer

  ghost function StoredAnswers(states: map<Addr, Sets>, a: Name, b: Name): (answers: map<Addr, UInt64>)
    ensures answers.Keys == states.Keys
  {
    map n | n in states :: Answer(states[n], AndStored(a, b))
  }

  ghost function StoredSum(states: map<Addr, Sets>, a: Name, b: Name): UInt64
  {
    Sum(StoredAnswers(states, a, b)) % WORD_LIMIT
  }

  ghost function QueryAnswers(states: map<Addr, Sets>, cuts: seq<nat>, owners: seq<Addr>, name: Name, q: seq<UInt64>)
    : (answers: map<Addr, UInt64>)
    requires Sharded(q, cuts, owners)
    ensures answers.Keys == states.Keys
  {
    map n | n in states :: Answer(states[n], AndQuery(name, Slice(q, cuts, owners, n, |owners|)))
  }

  ghost function QuerySum(states: map<Addr, Sets>, cuts: seq<nat>, owners: seq<Addr>, name: Name, q: seq<UInt64>): UInt64
    requires Sharded(q, cuts, owners)
  {
    Sum(QueryAnswers(states, cuts, owners, name, q)) % WORD_LIMIT
  }

  // Every node holds its part of the database.
  ghost predicate AllHold(states: map<Addr, Sets>, db: Database, leftover: set<Name>, w: nat, cuts: seq<nat>,
                          owners: seq<Addr>)
  {
    && Wide(db, w)
    && forall n :: n in states ==> Holds(states[n], db, leftover, cuts, owners, n)
  }

  // The shards tile the first w words, and every shard that has words is under one of the keys.
  ghost predicate Covered(keys: set<Addr>, cuts: seq<nat>, owners: seq<Addr>, w: nat)
  {
    |cuts| == |owners| + 1 && Tiles(cuts, w) && Served(keys, cuts, owners)
  }

  // Then the answers add up to the count of the single machine.
  lemma StoredSumIsLocal(states: map<Addr, Sets>, db: Database, leftover: set<Name>, w: nat, cuts: seq<nat>,
                         owners: seq<Addr>,
                         a: Name, b: Name)
    requires AllHold(states, db, leftover, w, cuts, owners) && Covered(states.Keys, cuts, owners, w)
    requires Settled(db, leftover, a) && Settled(db, leftover, b)
    ensures StoredSum(states, a, b) == LocalStored(db, w, a, b)
  {
    var counts := map n | n in states.Keys :: Share(db, cuts, owners, a, b, n);
    forall n | n in states
      ensures StoredAnswers(states, a, b)[n] == counts[n] % WORD_LIMIT
    {
      HoldsAnswers(states[n], db, leftover, cuts, owners, n, a, b);
    }
    SumOfRemainders(counts, StoredAnswers(states, a, b));
    SharesAddUp(states.Keys, db, w, cuts, owners, a, b);
  }

  lemma QuerySumIsLocal(states: map<Addr, Sets>, db: Database, leftover: set<Name>, w: nat, cuts: seq<nat>,
                        owners: seq<Addr>,
                        name: Name, q: seq<UInt64>)
    requires AllHold(states, db, leftover, w, cuts, owners) && Covered(states.Keys, cuts, owners, w)
    requires Settled(db, leftover, name) && w <= |q|
    ensures Sharded(q, cuts, owners) && QuerySum(states, cuts, owners, name, q) == LocalQuery(db, w, name, q)
  {
    var counts := map n | n in states.Keys :: QueryShare(db, cuts, owners, name, q, n);
    forall n | n in states
      ensures QueryAnswers(states, cuts, owners, name, q)[n] == counts[n] % WORD_LIMIT
    {
      HoldsAnswersQuery(states[n], db, leftover, cuts, owners, n, name, q);
    }
    SumOfRemainders(counts, QueryAnswers(states, cuts, owners, name, q));
    QuerySharesAddUp(states.Keys, db, w, cuts, owners, name, q);
  }

  // The shares of all owners add up to the count of the single machine.
  lemma SharesAddUp(keys: set<Addr>, db: Database, w: nat, cuts: seq<nat>, owners: seq<Addr>, a: Name, b: Name)
    requires Wide(db, w) && Covered(keys, cuts, owners, w)
    ensures Sum(map n | n in keys :: Share(db, cuts, owners, a, b, n)) % WORD_LIMIT == LocalStored(db, w, a, b)
  {
    var counts := map n | n in keys :: Share(db, cuts, owners, a, b, n);
    if a in db && b in db {
      DistributedCount(keys, db[a], db[b], w, cuts, owners);
      assert counts == Counts(keys, db[a], db[b], cuts, owners, |owners|);
    } else {
      SumOfZeros(counts);
    }
  }

  lemma QuerySharesAddUp(keys: set<Addr>, db: Database, w: nat, cuts: seq<nat>, owners: seq<Addr>, name: Name,
                         q: seq<UInt64>)
    requires Wide(db, w) && w <= |q| && Covered(keys, cuts, owners, w)
    ensures Sum(map n | n in keys :: QueryShare(db, cuts, owners, name, q, n)) % WORD_LIMIT == LocalQuery(db, w, name, q)
  {
    var counts := map n | n in keys :: QueryShare(db, cuts, owners, name, q, n);
    if name in db {
      DistributedCount(keys, db[name], q, w, cuts, owners);
      assert counts == Counts(keys, db[name], q, cuts, owners, |owners|);
    } else {
      SumOfZeros(counts);
    }
  }

  // ----- deliveries

  // found[a] is the last address served before a delivery ended that reaches the node of a.
  ghost predicate FoundBy<T>(nodeOf: map<Addr, T>, found: map<Addr, Addr>)
  {
    Underway(nodeOf, {}, found)
  }

  // The same while the addresses in rest are still to be served.
  ghost predicate Underway<T>(nodeOf: map<Addr, T>, rest: set<Addr>, found: map<Addr, Addr>)
  {
    && found.Keys <= nodeOf.Keys <= found.Keys + rest
    && (forall a :: a in found ==> found[a] in nodeOf && nodeOf[found[a]] == nodeOf[a])
    && (forall a, b :: a in found && b in nodeOf && nodeOf[a] == nodeOf[b] ==> b in found && found[b] == found[a])
  }

  // Serving x overtakes what its node held.
  ghost function Overtaken<T>(nodeOf: map<Addr, T>, found: map<Addr, Addr>, x: Addr): map<Addr, Addr>
    requires x in nodeOf
  {
    map a | a in nodeOf && (a in found || nodeOf[a] == nodeOf[x]) :: if nodeOf[a] == nodeOf[x] then x else found[a]
  }

  lemma UnderwayNext<T>(nodeOf: map<Addr, T>, rest: set<Addr>, found: map<Addr, Addr>, x: Addr)
    requires Underway(nodeOf, rest, found) && x in nodeOf
    ensures Underway(nodeOf, rest - {x}, Overtaken(nodeOf, found, x))
  {
  }

  // Some delivery there is.
  lemma SomeDelivery<T>(nodeOf: map<Addr, T>) returns (found: map<Addr, Addr>)
    ensures FoundBy(nodeOf, found)
  {
    found := map[];
    var rest := nodeOf.Keys;
    while rest != {}
      invariant Underway(nodeOf, rest, found) && rest <= nodeOf.Keys
      decreases rest
    {
      var x :| x in rest;
      UnderwayNext(nodeOf, rest, found, x);
      found, rest := Overtaken(nodeOf, found, x), rest - {x};
    }
  }

  // What the node of a holds when the addresses in found have been overtaken.
  ghost function LoadedSets(before: Sets, name: Name, g: seq<UInt64>, cuts: seq<nat>, owners: seq<Addr>,
                            found: map<Addr, Addr>, a: Addr): Sets
    requires Sharded(g, cuts, owners)
  {
    if a in found then before[name := Slice(g, cuts, owners, found[a], |owners|)] else before
  }

  lemma LoadedNext<T>(nodeOf: map<Addr, T>, before: Sets, name: Name, g: seq<UInt64>, cuts: seq<nat>, owners: seq<Addr>,
                      found: map<Addr, Addr>, x: Addr, a: Addr)
    requires Sharded(g, cuts, owners) && x in nodeOf && a in nodeOf
    ensures LoadedSets(before, name, g, cuts, owners, Overtaken(nodeOf, found, x), a) ==
            var held := LoadedSets(before, name, g, cuts, owners, found, a);
            if nodeOf[a] == nodeOf[x] then held[name := Slice(g, cuts, owners, x, |owners|)] else held
  {
  }

  // Every node holds the slice of the last address that reached it, and else what it held before.
  ghost predicate Delivered<T>(before: map<Addr, Sets>, after: map<Addr, Sets>, nodeOf: map<Addr, T>, name: Name,
                               g: seq<UInt64>, cuts: seq<nat>, owners: seq<Addr>, found: map<Addr, Addr>)
  {
    && before.Keys == after.Keys == nodeOf.Keys && Sharded(g, cuts, owners) && FoundBy(nodeOf, found)
    && forall a :: a in nodeOf ==> after[a] == LoadedSets(before[a], name, g, cuts, owners, found, a)
  }

  // ----- soundness

  // Addresses that reach one node own no words.
  ghost predicate Apart<T>(nodeOf: map<Addr, T>, cuts: seq<nat>, owners: seq<Addr>)
    requires |cuts| == |owners| + 1
  {
    forall a, b :: a in nodeOf && b in nodeOf && a != b && nodeOf[a] == nodeOf[b] ==> OwnsNothing(cuts, owners, a)
  }

  // The shards cover the words, each under a connected address, and only addresses without
  // words share a node.
  ghost predicate Sound<T>(nodeOf: map<Addr, T>, cuts: seq<nat>, owners: seq<Addr>, w: nat)
  {
    Covered(nodeOf.Keys, cuts, owners, w) && Apart(nodeOf, cuts, owners)
  }

  lemma FoundIsOwn<T>(nodeOf: map<Addr, T>, cuts: seq<nat>, owners: seq<Addr>, w: nat, found: map<Addr, Addr>,
                      g: seq<UInt64>, a: Addr)
    requires Sound(nodeOf, cuts, owners, w) && FoundBy(nodeOf, found) && Sharded(g, cuts, owners) && a in nodeOf
    ensures Slice(g, cuts, owners, found[a], |owners|) == Slice(g, cuts, owners, a, |owners|)
  {
    if found[a] != a {
      OwnsNothingStoresNothing(g, cuts, owners, a, |owners|);
      OwnsNothingStoresNothing(g, cuts, owners, found[a], |owners|);
    }
  }

  // A load keeps the nodes of a sound cluster in step with the database.
  lemma DeliveryUpdates<T>(before: map<Addr, Sets>, after: map<Addr, Sets>, nodeOf: map<Addr, T>, name: Name,
                           g: seq<UInt64>, cuts: seq<nat>, owners: seq<Addr>, found: map<Addr, Addr>,
                           db: Database, leftover: set<Name>, w: nat)
    requires Delivered(before, after, nodeOf, name, g, cuts, owners, found) && w <= |g|
    requires Sound(nodeOf, cuts, owners, w) && AllHold(before, db, leftover, w, cuts, owners)
    ensures AllHold(after, db[name := g], leftover, w, cuts, owners)
  {
    forall a | a in after
      ensures Holds(after[a], db[name := g], leftover, cuts, owners, a)
    {
      FoundIsOwn(nodeOf, cuts, owners, w, found, g, a);
      HoldsLoaded(before[a], db, leftover, cuts, owners, a, name, g);
    }
  }

  // What the node of each address counts of an array just delivered, with itself.
  ghost function FoundShares(found: map<Addr, Addr>, g: seq<UInt64>, cuts: seq<nat>,
                             owners: seq<Addr>): (m: map<Addr, nat>)
    requires Sharded(g, cuts, owners)
    ensures m.Keys == found.Keys
  {
    map a | a in found :: OwnedCount(g, g, cuts, owners, found[a], |owners|)
  }

  lemma DeliveredSum<T>(before: map<Addr, Sets>, after: map<Addr, Sets>, nodeOf: map<Addr, T>, name: Name,
                        g: seq<UInt64>, cuts: seq<nat>, owners: seq<Addr>, found: map<Addr, Addr>)
    requires Delivered(before, after, nodeOf, name, g, cuts, owners, found)
    ensures StoredSum(after, name, name) == Sum(FoundShares(found, g, cuts, owners)) % WORD_LIMIT
  {
    DeliveredAnswers(before, after, nodeOf, name, g, cuts, owners, found);
    SumOfRemainders(FoundShares(found, g, cuts, owners), StoredAnswers(after, name, name));
  }

  lemma DeliveredAnswers<T>(before: map<Addr, Sets>, after: map<Addr, Sets>, nodeOf: map<Addr, T>, name: Name,
                            g: seq<UInt64>, cuts: seq<nat>, owners: seq<Addr>, found: map<Addr, Addr>)
    requires Delivered(before, after, nodeOf, name, g, cuts, owners, found)
    ensures StoredAnswers(after, name, name).Keys == FoundShares(found, g, cuts, owners).Keys
    ensures forall a :: a in found ==>
              StoredAnswers(after, name, name)[a] == FoundShares(found, g, cuts, owners)[a] % WORD_LIMIT
  {
    assert found.Keys == nodeOf.Keys;
    forall a | a in found
      ensures StoredAnswers(after, name, name)[a] == FoundShares(found, g, cuts, owners)[a] % WORD_LIMIT
    {
      DeliveredAnswer(before[a], name, g, cuts, owners, found, a);
    }
  }

  lemma DeliveredAnswer(before: Sets, name: Name, g: seq<UInt64>, cuts: seq<nat>, owners: seq<Addr>,
                        found: map<Addr, Addr>, a: Addr)
    requires Sharded(g, cuts, owners) && a in found
    ensures Answer(LoadedSets(before, name, g, cuts, owners, found, a), AndStored(name, name)) ==
            OwnedCount(g, g, cuts, owners, found[a], |owners|) % WORD_LIMIT
  {
    SliceCount(g, g, cuts, owners, found[a], |owners|);
  }

  // However it is delivered, bit p is not counted once.
  ghost predicate Miscounted<T>(nodeOf: map<Addr, T>, cuts: seq<nat>, owners: seq<Addr>, w: nat, p: nat)
    requires Sharded(OneBit(w, p), cuts, owners)
  {
    forall found {:trigger FoundBy(nodeOf, found)} :: FoundBy(nodeOf, found) ==>
      Sum(FoundShares(found, OneBit(w, p), cuts, owners)) % WORD_LIMIT != 1
  }

  // An unsound cluster loses a bit or counts it more than once.
  lemma UnsoundMiscounts<T>(nodeOf: map<Addr, T>, cuts: seq<nat>, owners: seq<Addr>, w: nat) returns (p: nat)
    requires |cuts| == |owners| + 1 && Tiles(cuts, cuts[|owners|]) && cuts[|owners|] <= w
    requires |nodeOf.Keys| < WORD_LIMIT && !Sound(nodeOf, cuts, owners, w)
    ensures p < w && Miscounted(nodeOf, cuts, owners, w, p)
  {
    if cuts[|owners|] < w {
      p := cuts[|owners|];
      UncoveredIsLost(nodeOf, cuts, owners, w, p);
    } else if s :| 0 <= s < |owners| && owners[s] !in nodeOf && cuts[s] != cuts[s + 1] {
      p := cuts[s];
      UnservedIsLost(nodeOf, cuts, owners, w, s);
    } else {
      assert Served(nodeOf.Keys, cuts, owners);
      var a, b :| a in nodeOf && b in nodeOf && a != b && nodeOf[a] == nodeOf[b] && !OwnsNothing(cuts, owners, a);
      var s :| 0 <= s < |owners| && owners[s] == a && cuts[s] != cuts[s + 1];
      p := cuts[s];
      SharedIsMiscounted(nodeOf, cuts, owners, w, s, b);
    }
  }

  lemma UncoveredIsLost<T>(nodeOf: map<Addr, T>, cuts: seq<nat>, owners: seq<Addr>, w: nat, p: nat)
    requires |cuts| == |owners| + 1 && Tiles(cuts, cuts[|owners|]) && cuts[|owners|] <= p < w
    ensures Miscounted(nodeOf, cuts, owners, w, p)
  {
    forall found {:trigger FoundBy(nodeOf, found)} | FoundBy(nodeOf, found)
      ensures Sum(FoundShares(found, OneBit(w, p), cuts, owners)) == 0
    {
      forall a | a in found
        ensures FoundShares(found, OneBit(w, p), cuts, owners)[a] == 0
      {
        BeyondOwned(w, p, cuts, owners, found[a], |owners|);
      }
      SumOfZeros(FoundShares(found, OneBit(w, p), cuts, owners));
    }
  }

  // What each address counts of a bit of shard s.
  lemma FoundFlags(found: map<Addr, Addr>, cuts: seq<nat>, owners: seq<Addr>, w: nat, s: nat)
    requires |cuts| == |owners| + 1 && Tiles(cuts, cuts[|owners|]) && cuts[|owners|] <= w
    requires s < |owners| && cuts[s] < cuts[s + 1]
    ensures forall a :: a in found ==>
              FoundShares(found, OneBit(w, cuts[s]), cuts, owners)[a] == if owners[s] == found[a] then 1 else 0
  {
    forall a | a in found
      ensures FoundShares(found, OneBit(w, cuts[s]), cuts, owners)[a] == if owners[s] == found[a] then 1 else 0
    {
      OneBitOwned(w, cuts, owners, s, found[a], |owners|);
    }
  }

  lemma UnservedIsLost<T>(nodeOf: map<Addr, T>, cuts: seq<nat>, owners: seq<Addr>, w: nat, s: nat)
    requires |cuts| == |owners| + 1 && Tiles(cuts, cuts[|owners|]) && cuts[|owners|] <= w
    requires s < |owners| && cuts[s] < cuts[s + 1] && owners[s] !in nodeOf
    ensures Miscounted(nodeOf, cuts, owners, w, cuts[s])
  {
    forall found {:trigger FoundBy(nodeOf, found)} | FoundBy(nodeOf, found)
      ensures Sum(FoundShares(found, OneBit(w, cuts[s]), cuts, owners)) == 0
    {
      FoundFlags(found, cuts, owners, w, s);
      SumOfZeros(FoundShares(found, OneBit(w, cuts[s]), cuts, owners));
    }
  }

  lemma SharedIsMiscounted<T>(nodeOf: map<Addr, T>, cuts: seq<nat>, owners: seq<Addr>, w: nat, s: nat, b: Addr)
    requires |cuts| == |owners| + 1 && Tiles(cuts, cuts[|owners|]) && cuts[|owners|] <= w && |nodeOf.Keys| < WORD_LIMIT
    requires s < |owners| && cuts[s] < cuts[s + 1]
    requires owners[s] in nodeOf && b in nodeOf && b != owners[s] && nodeOf[b] == nodeOf[owners[s]]
    ensures Miscounted(nodeOf, cuts, owners, w, cuts[s])
  {
    forall found {:trigger FoundBy(nodeOf, found)} | FoundBy(nodeOf, found)
      ensures Sum(FoundShares(found, OneBit(w, cuts[s]), cuts, owners)) % WORD_LIMIT != 1
    {
      SharedCount(nodeOf, found, cuts, owners, w, s, b);
    }
  }

  lemma SharedCount<T>(nodeOf: map<Addr, T>, found: map<Addr, Addr>, cuts: seq<nat>, owners: seq<Addr>,
                       w: nat, s: nat, b: Addr)
    requires |cuts| == |owners| + 1 && Tiles(cuts, cuts[|owners|]) && cuts[|owners|] <= w && |nodeOf.Keys| < WORD_LIMIT
    requires s < |owners| && cuts[s] < cuts[s + 1] && FoundBy(nodeOf, found)
    requires owners[s] in nodeOf && b in nodeOf && b != owners[s] && nodeOf[b] == nodeOf[owners[s]]
    ensures Sharded(OneBit(w, cuts[s]), cuts, owners)
    ensures Sum(FoundShares(found, OneBit(w, cuts[s]), cuts, owners)) % WORD_LIMIT != 1
  {
    FoundFlags(found, cuts, owners, w, s);
    SharedFlags(nodeOf, found, owners[s], b, FoundShares(found, OneBit(w, cuts[s]), cuts, owners));
  }

  // An owner that shares its node is found by both addresses or by none.
  lemma SharedFlags<T>(nodeOf: map<Addr, T>, found: map<Addr, Addr>, a: Addr, b: Addr, flags: map<Addr, nat>)
    requires FoundBy(nodeOf, found) && |nodeOf.Keys| < WORD_LIMIT && flags.Keys == found.Keys
    requires a in nodeOf && b in nodeOf && a != b && nodeOf[a] == nodeOf[b]
    requires forall x :: x in found ==> flags[x] == if a == found[x] then 1 else 0
    ensures Sum(flags) == 0 || 2 <= Sum(flags) < WORD_LIMIT
  {
    if found[a] == a {
      SumOfTwo(flags, a, b);
      SumOfFlags(flags);
      assert flags.Keys == nodeOf.Keys;
    } else {
      SumOfZeros(flags);
    }
  }

  // ----- whole runs

  // These answers can come from a run that starts with the nodes in the given states: loads are
  // delivered in some order, and counts leave the nodes as they are.
  ghost predicate Outcome<T>(nodeOf: map<Addr, T>, cuts: seq<nat>, owners: seq<Addr>, states: map<Addr, Sets>,
                             ops: seq<Op>, answers: seq<UInt64>)
    decreases ops
  {
    if ops == [] then answers == []
    else
      match ops[0]
      case Load(name, g) =>
        exists after, found :: Delivered(states, after, nodeOf, name, g, cuts, owners, found)
                               && Outcome(nodeOf, cuts, owners, after, ops[1..], answers)
      case CountStored(a, b) =>
        && answers != [] && answers[0] == StoredSum(states, a, b)
        && Outcome(nodeOf, cuts, owners, states, ops[1..], answers[1..])
      case CountQuery(name, q) =>
        && answers != [] && Sharded(q, cuts, owners) && answers[0] == QuerySum(states, cuts, owners, name, q)
        && Outcome(nodeOf, cuts, owners, states, ops[1..], answers[1..])
  }

  lemma FirstDelivery<T>(nodeOf: map<Addr, T>, cuts: seq<nat>, owners: seq<Addr>, states: map<Addr, Sets>,
                         ops: seq<Op>, answers: seq<UInt64>) returns (after: map<Addr, Sets>, found: map<Addr, Addr>)
    requires Outcome(nodeOf, cuts, owners, states, ops, answers) && ops != [] && ops[0].Load?
    ensures Delivered(states, after, nodeOf, ops[0].name, ops[0].words, cuts, owners, found)
    ensures Outcome(nodeOf, cuts, owners, after, ops[1..], answers)
  {
    after, found :| Delivered(states, after, nodeOf, ops[0].name, ops[0].words, cuts, owners, found)
                    && Outcome(nodeOf, cuts, owners, after, ops[1..], answers);
  }

  // On a sound cluster they are the answers of the single machine.
  lemma SoundRunIsLocal<T>(nodeOf: map<Addr, T>, cuts: seq<nat>, owners: seq<Addr>, w: nat,
                                              states: map<Addr, Sets>, db: Database, leftover: set<Name>,
                                              ops: seq<Op>, answers: seq<UInt64>)
    requires Sound(nodeOf, cuts, owners, w) && states.Keys == nodeOf.Keys
    requires AllHold(states, db, leftover, w, cuts, owners) && Answerable(db, leftover, ops)
    requires forall k :: 0 <= k < |ops| ==> WideOp(ops[k], w)
    requires Outcome(nodeOf, cuts, owners, states, ops, answers)
    ensures answers == LocalRun(db, w, ops)
  {
    RunInStepIsLocal(nodeOf, cuts, owners, w, states, db, leftover, ops, answers);
  }

  // The nodes are in step with the database, and a run goes on from there.
  ghost predicate RunInStep<T>(nodeOf: map<Addr, T>, cuts: seq<nat>, owners: seq<Addr>, w: nat, states: map<Addr, Sets>,
                               db: Database, leftover: set<Name>, ops: seq<Op>, answers: seq<UInt64>)
  {
    && states.Keys == nodeOf.Keys && AllHold(states, db, leftover, w, cuts, owners) && Answerable(db, leftover, ops)
    && (forall k :: 0 <= k < |ops| ==> WideOp(ops[k], w))
    && Outcome(nodeOf, cuts, owners, states, ops, answers)
  }

  lemma {:induction false} RunInStepIsLocal<T>(nodeOf: map<Addr, T>, cuts: seq<nat>, owners: seq<Addr>, w: nat,
                                               states: map<Addr, Sets>, db: Database, leftover: set<Name>,
                                               ops: seq<Op>, answers: seq<UInt64>)
    requires Sound(nodeOf, cuts, owners, w)
    requires RunInStep(nodeOf, cuts, owners, w, states, db, leftover, ops, answers)
    ensures answers == LocalRun(db, w, ops)
    decreases ops
  {
    if ops == [] {
    } else if ops[0].Load? {
      var after := StepOfLoad(nodeOf, cuts, owners, w, states, db, leftover, ops, answers);
      RunInStepIsLocal(nodeOf, cuts, owners, w, after, db[ops[0].name := ops[0].words], leftover, ops[1..], answers);
    } else {
      StepOfCount(nodeOf, cuts, owners, w, states, db, leftover, ops, answers);
      RunInStepIsLocal(nodeOf, cuts, owners, w, states, db, leftover, ops[1..], answers[1..]);
    }
  }

  lemma StepOfLoad<T>(nodeOf: map<Addr, T>, cuts: seq<nat>, owners: seq<Addr>, w: nat, states: map<Addr, Sets>,
                      db: Database, leftover: set<Name>, ops: seq<Op>, answers: seq<UInt64>)
    returns (after: map<Addr, Sets>)
    requires Sound(nodeOf, cuts, owners, w) && ops != [] && ops[0].Load?
    requires RunInStep(nodeOf, cuts, owners, w, states, db, leftover, ops, answers)
    ensures RunInStep(nodeOf, cuts, owners, w, after, db[ops[0].name := ops[0].words], leftover, ops[1..], answers)
  {
    assert WideOp(ops[0], w);
    var found;
    after, found := FirstDelivery(nodeOf, cuts, owners, states, ops, answers);
    DeliveryUpdates(states, after, nodeOf, ops[0].name, ops[0].words, cuts, owners, found, db, leftover, w);
  }

  lemma StepOfCount<T>(nodeOf: map<Addr, T>, cuts: seq<nat>, owners: seq<Addr>, w: nat, states: map<Addr, Sets>,
                       db: Database, leftover: set<Name>, ops: seq<Op>, answers: seq<UInt64>)
    requires Sound(nodeOf, cuts, owners, w) && ops != [] && !ops[0].Load?
    requires RunInStep(nodeOf, cuts, owners, w, states, db, leftover, ops, answers)
    ensures WideOp(ops[0], w) && Wide(db, w) && answers != []
    ensures answers[0] == match ops[0]
                          case CountStored(a, b) => LocalStored(db, w, a, b)
                          case CountQuery(name, q) => LocalQuery(db, w, name, q)
    ensures RunInStep(nodeOf, cuts, owners, w, states, db, leftover, ops[1..], answers[1..])
  {
    assert WideOp(ops[0], w);
    match ops[0]
    case CountStored(a, b) => StoredSumIsLocal(states, db, leftover, w, cuts, owners, a, b);
    case CountQuery(name, q) => QuerySumIsLocal(states, db, leftover, w, cuts, owners, name, q);
  }

  // The names under which the nodes hold anything.
  ghost function Names(states: map<Addr, Sets>): set<Name>
  {
    set a, n | a in states && n in states[a] :: n
  }

  lemma NothingLoaded(states: map<Addr, Sets>, w: nat, cuts: seq<nat>, owners: seq<Addr>)
    ensures AllHold(states, map[], Names(states), w, cuts, owners)
  {
    forall a | a in states
      ensures states[a].Keys <= Names(states)
    {
    }
  }

  lemma OwnersServe(keys: set<Addr>, cuts: seq<nat>, owners: seq<Addr>, w: nat)
    requires |cuts| == |owners| + 1 && Tiles(cuts, w)
    requires forall s :: 0 <= s < |owners| ==> owners[s] in keys
    ensures Covered(keys, cuts, owners, w)
  {
  }

  // States of the addresses that can be states of nodes.
  ghost predicate OfNodes<T>(nodeOf: map<Addr, T>, states: map<Addr, Sets>)
  {
    && states.Keys == nodeOf.Keys
    && forall a, b :: a in nodeOf && b in nodeOf && nodeOf[a] == nodeOf[b] ==> states[a] == states[b]
  }

  // Whatever the nodes hold at first, every run in which each name is loaded before it is
  // counted, or is held by no node, gets the answers of the single machine.
  ghost predicate AlwaysRight<T>(nodeOf: map<Addr, T>, cuts: seq<nat>, owners: seq<Addr>, w: nat)
  {
    forall states, ops, answers {:trigger Outcome(nodeOf, cuts, owners, states, ops, answers)} ::
      && OfNodes(nodeOf, states) && Answerable(map[], Names(states), ops)
      && (forall k :: 0 <= k < |ops| ==> WideOp(ops[k], w))
      && Outcome(nodeOf, cuts, owners, states, ops, answers)
      ==> answers == LocalRun(map[], w, ops)
  }

  lemma RightExactlyWhenSound<T>(nodeOf: map<Addr, T>, cuts: seq<nat>, owners: seq<Addr>, w: nat)
    requires |cuts| == |owners| + 1 && Tiles(cuts, cuts[|owners|]) && cuts[|owners|] <= w
    requires |nodeOf.Keys| < WORD_LIMIT
    ensures AlwaysRight(nodeOf, cuts, owners, w) <==> Sound(nodeOf, cuts, owners, w)
  {
    if Sound(nodeOf, cuts, owners, w) {
      forall states, ops, answers {:trigger Outcome(nodeOf, cuts, owners, states, ops, answers)} |
        && OfNodes(nodeOf, states) && Answerable(map[], Names(states), ops)
        && (forall k :: 0 <= k < |ops| ==> WideOp(ops[k], w))
        && Outcome(nodeOf, cuts, owners, states, ops, answers)
        ensures answers == LocalRun(map[], w, ops)
      {
        SoundRunIsLocal(nodeOf, cuts, owners, w, states, map[], Names(states), ops, answers);
      }
    } else {
      var p := UnsoundMiscounts(nodeOf, cuts, owners, w);
      SomeRunIsWrong(nodeOf, cuts, owners, w, p);
    }
  }

  lemma LoadAndCountOutcome<T>(nodeOf: map<Addr, T>, cuts: seq<nat>, owners: seq<Addr>, states: map<Addr, Sets>,
                               after: map<Addr, Sets>, name: Name, g: seq<UInt64>, found: map<Addr, Addr>)
    requires Delivered(states, after, nodeOf, name, g, cuts, owners, found)
    ensures Outcome(nodeOf, cuts, owners, states, LoadAndCount(name, g), [StoredSum(after, name, name)])
  {
    var ops, answers := LoadAndCount(name, g), [StoredSum(after, name, name)];
    assert ops[1..] == [CountStored(name, name)] && ops[1..][1..] == [] && answers[1..] == [];
    assert Outcome(nodeOf, cuts, owners, after, [], []);
    assert Outcome(nodeOf, cuts, owners, after, ops[1..], answers);
  }

  lemma SomeRunIsWrong<T>(nodeOf: map<Addr, T>, cuts: seq<nat>, owners: seq<Addr>, w: nat, p: nat)
    requires |cuts| == |owners| + 1 && Tiles(cuts, cuts[|owners|]) && cuts[|owners|] <= w && p < w
    requires Miscounted(nodeOf, cuts, owners, w, p)
    ensures !AlwaysRight(nodeOf, cuts, owners, w)
  {
    var found := SomeDelivery(nodeOf);
    var answer := DeliverEmpty(nodeOf, cuts, owners, w, p, found);
    LoadAndCountLocal([], w, p);
    assert Names(EmptyStates(nodeOf)) == {};
  }

  ghost function EmptyStates<T>(nodeOf: map<Addr, T>): (states: map<Addr, Sets>)
    ensures OfNodes(nodeOf, states) && forall a :: a in states ==> states[a] == map[]
  {
    map a | a in nodeOf :: map[]
  }

  lemma DeliverEmpty<T>(nodeOf: map<Addr, T>, cuts: seq<nat>, owners: seq<Addr>, w: nat, p: nat, found: map<Addr, Addr>)
    returns (answer: UInt64)
    requires Sharded(OneBit(w, p), cuts, owners) && FoundBy(nodeOf, found) && Miscounted(nodeOf, cuts, owners, w, p)
    ensures answer != 1
    ensures Outcome(nodeOf, cuts, owners, EmptyStates(nodeOf), LoadAndCount([], OneBit(w, p)), [answer])
  {
    var before, g := EmptyStates(nodeOf), OneBit(w, p);
    var after := map a | a in nodeOf :: LoadedSets(before[a], [], g, cuts, owners, found, a);
    assert Delivered(before, after, nodeOf, [], g, cuts, owners, found);
    DeliveredSum(before, after, nodeOf, [], g, cuts, owners, found);
    LoadAndCountOutcome(nodeOf, cuts, owners, before, after, [], g, found);
    answer := StoredSum(after, [], []);
  }
}
