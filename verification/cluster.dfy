/**
  The cluster whose shards are assigned to nodes by the consistent hash ring.

  The proved fact: for any run of loads and counts, whatever the nodes held before, whatever the
  assignment and whatever the order in which nodes are visited and answer, each count is the one
  a single machine holding the whole word arrays would give, provided the cluster is sound.
*/
module Clusters {
  import opened Words
  import opened Options
  import opened Wire
  import opened Nodes
  import opened Sharding
  import opened Sums
  import opened Rings
  import opened Machines
  import opened Gathering
  import opened Deliveries

  // Every node can be asked and has this to answer.
  ghost predicate Answered(states: map<Addr, Sets>, requests: map<Addr, Request>, answers: map<Addr, UInt64>)
    requires requests.Keys == answers.Keys == states.Keys
  {
    forall a :: a in states ==> Sendable(requests[a]) && Answer(states[a], requests[a]) == answers[a]
  }

  // ----- the cluster

  class ShardedCluster {
    var W: nat
    var Shards: nat
    var ring: Ring
    var owners: seq<Addr>
    var conns: map<Addr, Node>

    ghost predicate Valid()
      reads this
    {
      |owners| == Shards
    }

    ghost function Cuts(): (cuts: seq<nat>)
      reads this
      ensures |cuts| == Shards + 1
    {
      ShardCuts(W, Shards)
    }

    // The shards cover all W words, each under a connected address, and only addresses without
    // words share a node.
    ghost predicate SoundlyWired()
      reads this
    {
      Sound(conns, Cuts(), owners, W)
    }

    // What the node of every address holds.
    ghost function States(): (s: map<Addr, Sets>)
      reads this, conns.Values
      ensures s.Keys == conns.Keys && forall a :: a in conns ==> s[a] == conns[a].sets
    {
      map a | a in conns :: conns[a].sets
    }

    // The nodes together hold the database.
    ghost predicate Mirrors(db: Database, leftover: set<Name>)
      reads this, conns.Values
    {
      AllHold(States(), db, leftover, W, Cuts(), owners)
    }

    constructor (addrs: seq<Addr>, dialed: map<Addr, Node>, w: nat, shards: nat, replicas: int,
                 idHash: UInt64 -> UInt64, nodeHash: (Addr, nat) -> UInt64)
      requires shards < WORD_LIMIT && forall a :: a in addrs <==> a in dialed
      ensures Valid() && W == w && Shards == shards && conns == dialed
      ensures ring.Valid() && ring.points == Joined(nodeHash, ring.replicas, addrs, |addrs|)
      ensures ring.replicas == if replicas <= 0 then 100 else replicas
      ensures addrs != [] ==> ring.points != map[]
      ensures forall s :: 0 <= s < shards ==>
                owners[s] == OwnerOr(ring.points, idHash(s))
      ensures Mirrors(map[], Names(States()))
      ensures addrs != [] && shards > 0 && (forall a, b :: a in conns && b in conns && conns[a] == conns[b] ==> a == b)
              ==> SoundlyWired()
    {
      var r := BuildRing(addrs, replicas, idHash, nodeHash);
      var owned := AssignOwners(r, shards);
      W, Shards, conns, owners, ring := w, shards, dialed, owned, r;
      new;
      ShardsTile(w, shards);
      NothingLoaded(States(), w, Cuts(), owners);
      if addrs != [] && shards > 0 {
        forall s | 0 <= s < shards
          ensures owners[s] in conns
        {
          InFirst(addrs, |addrs|, owners[s]);
          assert addrs[..|addrs|] == addrs;
        }
        OwnersServe(conns.Keys, Cuts(), owners, w);
      }
    }

    // The words of the shards of one node, in shard order.
    method NodeSlice(global: seq<UInt64>, node: Addr) returns (buf: seq<UInt64>)
      requires Valid() && W <= |global|
      ensures Sharded(global, Cuts(), owners)
      ensures buf == Slice(global, Cuts(), owners, node, |owners|)
    {
      ghost var cuts := Cuts();
      ShardsTile(W, Shards);
      buf := [];
      for s := 0 to Shards
        invariant buf == Slice(global, cuts, owners, node, s)
      {
        if owners[s] == node {
          var lo, hi := ShardStart(W, Shards, s), ShardStart(W, Shards, s + 1);
          assert cuts[s] == lo && cuts[s + 1] == hi;
          buf := buf + global[lo..hi];
        }
      }
    }

    // Send every node its slice, one address after another in any order.
    method LoadSet(name: Name, global: seq<UInt64>, ghost db: Database, ghost leftover: set<Name>)
      returns (ok: bool, ghost found: map<Addr, Addr>)
      requires Valid() && W <= |global|
      modifies conns.Values
      ensures LoadFits(name, global) ==>
                ok && Delivered(old(States()), States(), conns, name, global, Cuts(), owners, found)
      ensures LoadFits(name, global) && SoundlyWired() && old(Mirrors(db, leftover)) ==>
                Mirrors(db[name := global], leftover)
    {
      ghost var before := States();
      ghost var whole := SoundlyWired() && Mirrors(db, leftover);
      ok, found := LoadAll(name, global, before);
      if LoadFits(name, global) && whole {
        DeliveryUpdates(before, States(), conns, name, global, Cuts(), owners, found, db, leftover, W);
      }
    }

    method LoadAll(name: Name, global: seq<UInt64>, ghost before: map<Addr, Sets>)
      returns (ok: bool, ghost found: map<Addr, Addr>)
      requires Valid() && W <= |global| && before == States()
      modifies conns.Values
      ensures LoadFits(name, global) ==>
                ok && Delivered(before, States(), conns, name, global, Cuts(), owners, found)
    {
      found := map[];
      var rest := conns.Keys;
      ghost var fits := LoadFits(name, global);
      while rest != {}
        invariant rest <= conns.Keys && Underway(conns, rest, found)
        invariant fits ==> InDelivery(before, name, global, found)
        decreases rest
      {
        var a :| a in rest;
        ok := LoadNext(a, name, global, before, found);
        if !ok {
          return;
        }
        UnderwayNext(conns, rest, found, a);
        found, rest := Overtaken(conns, found, a), rest - {a};
      }
      ok := true;
    }

    // The nodes hold what the addresses served so far have sent.
    ghost predicate InDelivery(before: map<Addr, Sets>, name: Name, global: seq<UInt64>, found: map<Addr, Addr>)
      reads this, conns.Values
    {
      && Sharded(global, Cuts(), owners) && before.Keys == conns.Keys
      && forall a :: a in conns ==> conns[a].sets == LoadedSets(before[a], name, global, Cuts(), owners, found, a)
    }

    // The load of one address.
    method LoadNext(a: Addr, name: Name, global: seq<UInt64>, ghost before: map<Addr, Sets>, ghost found: map<Addr, Addr>)
      returns (ok: bool)
      requires Valid() && W <= |global| && a in conns
      requires LoadFits(name, global) ==> InDelivery(before, name, global, found)
      modifies conns[a]
      ensures LoadFits(name, global) ==> ok && InDelivery(before, name, global, Overtaken(conns, found, a))
    {
      ok := LoadOne(a, name, global);
      if LoadFits(name, global) {
        forall b | b in conns
          ensures conns[b].sets == LoadedSets(before[b], name, global, Cuts(), owners, Overtaken(conns, found, a), b)
        {
          LoadedNext(conns, before[b], name, global, Cuts(), owners, found, a, b);
        }
      }
    }

    method LoadOne(a: Addr, name: Name, global: seq<UInt64>) returns (ok: bool)
      requires Valid() && W <= |global| && a in conns
      modifies conns[a]
      ensures LoadFits(name, global) ==>
                ok && conns[a].sets == old(conns[a].sets)[name := Slice(global, Cuts(), owners, a, |owners|)]
    {
      var slice := NodeSlice(global, a);
      var reply := Call(conns[a], Encode(Request.LoadSet(name, slice)), Request.LoadSet(name, slice));
      ok := reply.Some?;
    }

    ghost predicate LoadFits(name: Name, global: seq<UInt64>)
      reads this
    {
      && Sharded(global, Cuts(), owners)
      && forall a :: a in conns ==> Sendable(Request.LoadSet(name, Slice(global, Cuts(), owners, a, |owners|)))
    }

    // Ask every node and add up the replies.  states holds what the nodes store at the start
    // and answers what they are to answer.
    method Gather(requests: map<Addr, Request>, ghost answers: map<Addr, UInt64>, ghost states: map<Addr, Sets>,
                  ghost fits: bool)
      returns (total: UInt64, ok: bool)
      requires requests.Keys == answers.Keys == conns.Keys && states == States()
      requires forall a :: a in conns ==> !requests[a].LoadSet?
      requires fits ==> Answered(states, requests, answers)
      modifies conns.Values
      ensures fits ==> ok && total == Sum(answers) % WORD_LIMIT && States() == states
    {
      var channel: seq<UInt64>;
      ghost var order: seq<Addr>;
      channel, ok, order := Collect(requests, answers, states, fits);
      if !ok {
        return 0, false;
      }
      total := AddUp(channel);
      if fits {
        ArrivalOrderIrrelevant(answers, channel, order);
      }
    }

    // The replies in the order they arrive, which can be any order of the nodes.
    method Collect(requests: map<Addr, Request>, ghost answers: map<Addr, UInt64>, ghost states: map<Addr, Sets>,
                   ghost fits: bool)
      returns (channel: seq<UInt64>, ok: bool, ghost order: seq<Addr>)
      requires requests.Keys == answers.Keys == conns.Keys && states == States()
      requires forall a :: a in conns ==> !requests[a].LoadSet?
      requires fits ==> Answered(states, requests, answers)
      modifies conns.Values
      ensures fits ==> ok && Arrived(answers, channel, order) && forall a :: a in conns ==> a in order
      ensures fits ==> States() == states
    {
      channel, order := [], [];
      var rest := conns.Keys;
      while rest != {}
        invariant rest <= conns.Keys
        invariant fits ==> States() == states
        invariant forall a :: a in order <==> a in conns.Keys - rest
        invariant fits ==> Arrived(answers, channel, order)
        decreases rest
      {
        var a :| a in rest;
        var reply := Ask(a, requests, answers, states, fits);
        if reply == None {
          return channel, false, order;
        }
        if fits {
          ArrivedNext(answers, channel, order, a, reply.value);
        }
        channel := channel + [reply.value];
        order := order + [a];
        rest := rest - {a};
      }
      ok := true;
    }

    // One node is asked; a count leaves its sets alone.
    method Ask(a: Addr, requests: map<Addr, Request>, ghost answers: map<Addr, UInt64>,
               ghost states: map<Addr, Sets>, ghost fits: bool)
      returns (reply: Option<UInt64>)
      requires requests.Keys == answers.Keys == states.Keys == conns.Keys && a in conns && !requests[a].LoadSet?
      requires fits ==> states == States() && Answered(states, requests, answers)
      modifies conns[a]
      ensures fits ==> reply == Some(answers[a]) && States() == states
    {
      reply := Call(conns[a], Encode(requests[a]), requests[a]);
    }

    // |A and B| of two stored sets.
    method IntersectStored(a: Name, b: Name, ghost db: Database, ghost leftover: set<Name>)
      returns (total: UInt64, ok: bool)
      requires Valid()
      modifies conns.Values
      ensures Sendable(AndStored(a, b)) ==>
                ok && total == StoredSum(old(States()), a, b) && States() == old(States())
      ensures Sendable(AndStored(a, b)) && SoundlyWired() && old(Mirrors(db, leftover))
              && Settled(db, leftover, a) && Settled(db, leftover, b)
              ==> total == LocalStored(db, W, a, b) && Mirrors(db, leftover)
    {
      ghost var states := States();
      if SoundlyWired() && Mirrors(db, leftover) && Settled(db, leftover, a) && Settled(db, leftover, b) {
        StoredSumIsLocal(states, db, leftover, W, Cuts(), owners, a, b);
      }
      var requests: map<Addr, Request> := map node | node in conns.Keys :: AndStored(a, b);
      total, ok := Gather(requests, StoredAnswers(states, a, b), states, Sendable(AndStored(a, b)));
    }

    // |A and Q| of a stored set and a query array.
    method IntersectQuery(name: Name, query: seq<UInt64>, ghost db: Database, ghost leftover: set<Name>)
      returns (total: UInt64, ok: bool)
      requires Valid() && W <= |query|
      modifies conns.Values
      ensures QueryFits(name, query) ==>
                ok && total == QuerySum(old(States()), Cuts(), owners, name, query) && States() == old(States())
      ensures QueryFits(name, query) && SoundlyWired() && old(Mirrors(db, leftover)) && Settled(db, leftover, name) ==>
                total == LocalQuery(db, W, name, query) && Mirrors(db, leftover)
    {
      ghost var states := States();
      if SoundlyWired() && Mirrors(db, leftover) && Settled(db, leftover, name) {
        QuerySumIsLocal(states, db, leftover, W, Cuts(), owners, name, query);
      }
      ShardsTile(W, Shards);
      var requests := QueryRequests(name, query);
      total, ok := Gather(requests, QueryAnswers(states, Cuts(), owners, name, query), states, QueryFits(name, query));
    }

    method QueryRequests(name: Name, query: seq<UInt64>) returns (requests: map<Addr, Request>)
      requires Valid() && W <= |query| && Sharded(query, Cuts(), owners)
      ensures requests.Keys == conns.Keys
      ensures forall n :: n in requests ==> requests[n] == QueryRequest(name, query, n)
    {
      requests := map[];
      var rest := conns.Keys;
      while rest != {}
        invariant rest <= conns.Keys && requests.Keys == conns.Keys - rest
        invariant forall n :: n in requests ==> requests[n] == QueryRequest(name, query, n)
        decreases rest
      {
        var n :| n in rest;
        var slice := NodeSlice(query, n);
        requests := requests[n := AndQuery(name, slice)];
        rest := rest - {n};
      }
    }

    ghost function QueryRequest(name: Name, query: seq<UInt64>, n: Addr): Request
      requires Sharded(query, Cuts(), owners)
      reads this
    {
      AndQuery(name, Slice(query, Cuts(), owners, n, |owners|))
    }

    ghost predicate QueryFits(name: Name, query: seq<UInt64>)
      reads this
    {
      && Sharded(query, Cuts(), owners)
      && forall n :: n in conns ==> Sendable(QueryRequest(name, query, n))
    }
  }

  // A ring of the given nodes.
  method BuildRing(addrs: seq<Addr>, replicas: int, idHash: UInt64 -> UInt64, nodeHash: (Addr, nat) -> UInt64)
    returns (r: Ring)
    ensures fresh(r) && r.Valid() && r.idHash == idHash
    ensures r.points == Joined(nodeHash, r.replicas, addrs, |addrs|)
    ensures r.replicas == if replicas <= 0 then 100 else replicas
    ensures addrs != [] ==> r.points != map[]
    ensures r.nodes == First(addrs, |addrs|)
  {
    r := new Ring(replicas, idHash, nodeHash);
    for i := 0 to |addrs|
      invariant fresh(r) && r.Valid() && r.idHash == idHash && r.nodeHash == nodeHash
      invariant r.replicas == if replicas <= 0 then 100 else replicas
      invariant r.points == Joined(nodeHash, r.replicas, addrs, i) && r.nodes == First(addrs, i)
      invariant i > 0 ==> r.points != map[]
    {
      JoinedNext(nodeHash, r.replicas, addrs, i);
      r.AddNode(addrs[i]);
    }
  }

  ghost function First(addrs: seq<Addr>, n: nat): set<Addr>
    requires n <= |addrs|
  {
    if n == 0 then {} else First(addrs, n - 1) + {addrs[n - 1]}
  }

  lemma {:induction false} InFirst(addrs: seq<Addr>, n: nat, a: Addr)
    requires n <= |addrs|
    ensures a in First(addrs, n) <==> a in addrs[..n]
  {
    if n == 0 {
    } else {
      InFirst(addrs, n - 1, a);
      assert addrs[..n] == addrs[..n - 1] + [addrs[n - 1]];
    }
  }

  // One more node joins unless it has joined before.
  lemma JoinedNext(nodeHash: (Addr, nat) -> UInt64, replicas: nat, addrs: seq<Addr>, i: nat)
    requires i < |addrs|
    ensures var before, node := Joined(nodeHash, replicas, addrs, i), addrs[i];
            Joined(nodeHash, replicas, addrs, i + 1) ==
            if node in First(addrs, i) then before
            else Claimed(before, node, FirstVirtualPoints(nodeHash, node, replicas))
  {
    InFirst(addrs, i, addrs[i]);
  }

  // The owner of every shard, by the ring; an empty ring gives the empty address.
  method AssignOwners(r: Ring, shards: nat) returns (owners: seq<Addr>)
    requires r.Valid() && shards < WORD_LIMIT
    modifies r`sorted
    ensures r.Valid() && |owners| == shards
    ensures forall s :: 0 <= s < shards ==> owners[s] == OwnerOr(r.points, r.idHash(s))
    ensures r.points != map[] ==> forall s :: 0 <= s < shards ==> owners[s] in r.nodes
  {
    owners := [];
    for s := 0 to shards
      invariant r.Valid() && |owners| == s
      invariant forall k :: 0 <= k < s ==> owners[k] == OwnerOr(r.points, r.idHash(k))
      invariant r.points != map[] ==> forall k :: 0 <= k < s ==> owners[k] in r.nodes
    {
      var owner, ok := r.Route(s);
      owners := owners + [owner];
    }
  }

  ghost function OwnerOr(points: Points, pos: UInt64): Addr { if points == map[] then "" else Owner(points, pos) }

  // ----- whole runs

  // The messages of the operation are within the limits of the protocol.
  ghost predicate Fits(c: ShardedCluster, op: Op)
    reads c
  {
    match op
    case Load(name, words) => c.LoadFits(name, words)
    case CountStored(a, b) => Sendable(AndStored(a, b))
    case CountQuery(name, query) => c.QueryFits(name, query)
  }

  // Every operation fits whose names have less than 65536 bytes and whose words, all in one
  // message, fill at most 2^30 bytes.
  lemma FitsBySize(c: ShardedCluster, op: Op)
    requires c.Valid() && WideOp(op, c.W)
    requires match op
             case CountStored(a, b) => |a| < 0x1_0000 && |b| < 0x1_0000
             case _ => |op.name| < 0x1_0000 && 3 + |op.name| + 8 * c.W <= 0x4000_0000
    ensures Fits(c, op)
  {
    ShardsTile(c.W, c.Shards);
    match op
    case CountStored(a, b) => SendableExactly(AndStored(a, b));
    case Load(name, words) =>
      forall a: Addr
        ensures Sendable(Request.LoadSet(name, Slice(words, c.Cuts(), c.owners, a, |c.owners|)))
      {
        SliceLength(words, c.Cuts(), c.owners, a, |c.owners|);
        SendableExactly(Request.LoadSet(name, Slice(words, c.Cuts(), c.owners, a, |c.owners|)));
      }
    case CountQuery(name, query) =>
      forall a: Addr
        ensures Sendable(AndQuery(name, Slice(query, c.Cuts(), c.owners, a, |c.owners|)))
      {
        SliceLength(query, c.Cuts(), c.owners, a, |c.owners|);
        SendableExactly(AndQuery(name, Slice(query, c.Cuts(), c.owners, a, |c.owners|)));
      }
  }

  // A client session on any cluster: its answers are a possible outcome of the run.
  method Run(c: ShardedCluster, ops: seq<Op>) returns (answers: seq<UInt64>)
    requires c.Valid() && forall k :: 0 <= k < |ops| ==> Fits(c, ops[k]) && WideOp(ops[k], c.W)
    modifies c.conns.Values
    ensures Outcome(c.conns, c.Cuts(), c.owners, old(c.States()), ops, answers)
    decreases ops
  {
    answers := [];
    if ops == [] {
      return;
    }
    ghost var states := c.States();
    assert Fits(c, ops[0]) && WideOp(ops[0], c.W);
    match ops[0] {
      case Load(name, words) =>
        var ok;
        ghost var found;
        ok, found := c.LoadSet(name, words, map[], {});
        assert Delivered(states, c.States(), c.conns, name, words, c.Cuts(), c.owners, found);
      case CountStored(a, b) =>
        var total, ok := c.IntersectStored(a, b, map[], {});
        answers := [total];
      case CountQuery(name, query) =>
        var total, ok := c.IntersectQuery(name, query, map[], {});
        answers := [total];
    }
    var rest := Run(c, ops[1..]);
    assert (answers + rest)[|answers|..] == rest;
    answers := answers + rest;
  }

  // On a sound cluster every count of every run is the count of the single machine.
  method Session(c: ShardedCluster, ops: seq<Op>, ghost db: Database, ghost leftover: set<Name>)
    returns (answers: seq<UInt64>)
    requires c.Valid() && c.SoundlyWired() && c.Mirrors(db, leftover) && Answerable(db, leftover, ops)
    requires forall k :: 0 <= k < |ops| ==> Fits(c, ops[k]) && WideOp(ops[k], c.W)
    modifies c.conns.Values
    ensures answers == LocalRun(db, c.W, ops)
  {
    ghost var states := c.States();
    answers := Run(c, ops);
    SoundRunIsLocal(c.conns, c.Cuts(), c.owners, c.W, states, db, leftover, ops, answers);
  }
}
