/**
  The coordinator with a fixed range of words per connection.

  Connections may lead to the same node.  Any run answers as RangeRun says; it gets the answers of
  a single machine when connections that share a node have no words.
*/
module Coordinators {
  import opened Words
  import opened Options
  import opened Wire
  import opened Nodes
  import opened Sharding
  import opened Sums
  import opened Machines
  import opened Gathering
  import opened Ranges

  // Every connection can be asked and has this to answer.
  ghost predicate Ready(states: seq<Sets>, requests: seq<Request>, answers: seq<UInt64>)
  {
    && |states| == |requests| == |answers|
    && forall i :: 0 <= i < |states| ==> Sendable(requests[i]) && Answer(states[i], requests[i]) == answers[i]
  }

  class Coordinator {
    var conns: seq<Node>
    var lo: seq<nat>
    var hi: seq<nat>
    ghost var W: nat
    ghost var cuts: seq<nat>

    // The ranges lo[i] .. hi[i] are the consecutive pieces of the first W words.
    ghost predicate Valid()
      reads this
    {
      && |conns| == |lo| == |hi|
      && |cuts| == |conns| + 1 && Tiles(cuts, W)
      && forall i :: 0 <= i < |conns| ==> lo[i] == cuts[i] && hi[i] == cuts[i + 1]
    }

    // Without a connection no words are covered.
    constructor Dial(nodes: seq<Node>, w: nat)
      ensures Valid() && conns == nodes && cuts == ShardCuts(w, |nodes|)
      ensures W == if |nodes| == 0 then 0 else w
      ensures Mirrors(map[], Names(States()))
    {
      var starts, ends := CutRanges(w, |nodes|);
      conns, lo, hi := nodes, starts, ends;
      W, cuts := Reach(w, |nodes|), ShardCuts(w, |nodes|);
      new;
      ShardsTile(w, |nodes|);
      NothingLoaded(States(), W, cuts);
    }

    // What the node behind every connection holds.
    ghost function States(): (s: seq<Sets>)
      reads this, conns
      ensures |s| == |conns| && forall i :: 0 <= i < |s| ==> s[i] == conns[i].sets
    {
      seq(|conns|, i requires 0 <= i < |conns| reads this, conns => conns[i].sets)
    }

    ghost predicate LoadFits(name: Name, global: seq<UInt64>)
      requires Valid() && W <= |global|
      reads this
    {
      forall i :: 0 <= i < |conns| ==> Sendable(Request.LoadSet(name, Shard(global, cuts, i)))
    }

    // Every connection finds its own range of every set of the database.
    ghost predicate Mirrors(db: Database, leftover: set<Name>)
      reads this, conns
    {
      AllHoldRanges(States(), db, leftover, W, cuts)
    }

    // Send every range to its connection, one after another.
    method LoadSet(name: Name, global: seq<UInt64>, ghost db: Database, ghost leftover: set<Name>) returns (ok: bool)
      requires Valid() && W <= |global|
      modifies conns
      ensures LoadFits(name, global) ==> ok && States() == Loaded(old(States()), conns, name, global, cuts)
      ensures LoadFits(name, global) && SharedAreEmpty(conns, cuts) && old(Mirrors(db, leftover)) ==>
                Mirrors(db[name := global], leftover)
    {
      ghost var before := States();
      ghost var whole := SharedAreEmpty(conns, cuts) && Mirrors(db, leftover);
      ok := SendRanges(name, global);
      if LoadFits(name, global) && whole {
        LoadUpdates(before, conns, name, global, db, leftover, W, cuts);
      }
    }

    method SendRanges(name: Name, global: seq<UInt64>) returns (ok: bool)
      requires Valid() && W <= |global|
      modifies conns
      ensures LoadFits(name, global) ==> ok && States() == Loaded(old(States()), conns, name, global, cuts)
    {
      ghost var before, fits := States(), LoadFits(name, global);
      for i := 0 to |conns|
        invariant fits ==> AllLoadedUpTo(before, States(), conns, name, global, cuts, i)
      {
        ok := SendOne(i, name, global, before);
        if !ok {
          return;
        }
      }
      ok := true;
      if fits {
        LoadedInTheEnd(before, States(), conns, name, global, cuts);
      }
    }

    method SendOne(i: nat, name: Name, global: seq<UInt64>, ghost before: seq<Sets>) returns (ok: bool)
      requires Valid() && W <= |global| && i < |conns|
      requires LoadFits(name, global) ==> AllLoadedUpTo(before, States(), conns, name, global, cuts, i)
      modifies conns
      ensures LoadFits(name, global) ==> ok && AllLoadedUpTo(before, States(), conns, name, global, cuts, i + 1)
    {
      ghost var now := States();
      ok := LoadOne(i, name, global);
      if LoadFits(name, global) {
        LoadedNext(before, now, States(), conns, name, global, cuts, i);
      }
    }

    method LoadOne(i: nat, name: Name, global: seq<UInt64>) returns (ok: bool)
      requires Valid() && W <= |global| && i < |conns|
      modifies conns[i]
      ensures LoadFits(name, global) ==> ok && conns[i].sets == old(conns[i].sets)[name := Shard(global, cuts, i)]
    {
      assert cuts[i] <= cuts[i + 1] <= W;
      var range := global[lo[i]..hi[i]];
      assert range == Shard(global, cuts, i);
      var reply := Call(conns[i], Encode(Request.LoadSet(name, range)), Request.LoadSet(name, range));
      ok := reply.Some?;
    }

    // Ask every connection, in any order, and add up the counts by position.
    method Gather(requests: seq<Request>, ghost states: seq<Sets>, ghost answers: seq<UInt64>, ghost fits: bool)
      returns (total: UInt64, ok: bool)
      requires |requests| == |answers| == |conns| && states == States()
      requires forall i :: 0 <= i < |requests| ==> !requests[i].LoadSet?
      requires fits ==> Ready(states, requests, answers)
      modifies conns
      ensures fits ==> ok && total == Total(answers) % WORD_LIMIT && States() == states
    {
      var counts;
      counts, ok := Collect(requests, states, answers, fits);
      if !ok {
        return 0, false;
      }
      total := AddUp(counts);
    }

    method Collect(requests: seq<Request>, ghost states: seq<Sets>, ghost answers: seq<UInt64>, ghost fits: bool)
      returns (replies: seq<UInt64>, ok: bool)
      requires |requests| == |answers| == |conns| && states == States()
      requires forall i :: 0 <= i < |requests| ==> !requests[i].LoadSet?
      requires fits ==> Ready(states, requests, answers)
      modifies conns
      ensures fits ==> ok && replies == answers && States() == states
    {
      var counts := new UInt64[|conns|];
      var rest := Positions(|conns|);
      while rest != {}
        invariant forall i :: i in rest ==> i < |conns|
        invariant fits ==> States() == states
        invariant fits ==> forall i :: 0 <= i < |conns| && i !in rest ==> counts[i] == answers[i]
        decreases rest
      {
        var i :| i in rest;
        var reply := Ask(i, requests, states, answers, fits);
        if reply == None {
          return [], false;
        }
        counts[i] := reply.value;
        rest := rest - {i};
      }
      replies, ok := counts[..], true;
      assert fits ==> replies == answers;
    }

    method Ask(i: nat, requests: seq<Request>, ghost states: seq<Sets>, ghost answers: seq<UInt64>, ghost fits: bool)
      returns (reply: Option<UInt64>)
      requires |requests| == |answers| == |states| == |conns| && i < |conns| && !requests[i].LoadSet?
      requires fits ==> Ready(states, requests, answers) && states == States()
      modifies conns[i]
      ensures fits ==> reply == Some(answers[i]) && States() == states
    {
      reply := Call(conns[i], Encode(requests[i]), requests[i]);
    }

    // |A and B| of two stored sets.
    method IntersectStored(a: Name, b: Name, ghost db: Database, ghost leftover: set<Name>)
      returns (total: UInt64, ok: bool)
      requires Valid()
      modifies conns
      ensures Sendable(AndStored(a, b)) ==>
                ok && total == StoredTotal(old(States()), a, b) && States() == old(States())
      ensures Sendable(AndStored(a, b)) && old(Mirrors(db, leftover))
              && Settled(db, leftover, a) && Settled(db, leftover, b)
              ==> total == LocalStored(db, W, a, b) && Mirrors(db, leftover)
    {
      ghost var states := States();
      if Mirrors(db, leftover) && Settled(db, leftover, a) && Settled(db, leftover, b) {
        StoredTotalIsLocal(states, db, leftover, W, cuts, conns, a, b);
      }
      var requests := StoredRequests(|conns|, a, b);
      total, ok := Gather(requests, states, AnswersOf(states, requests), Sendable(AndStored(a, b)));
    }

    // |A and Q| of a stored set and a query array.
    method IntersectQuery(name: Name, query: seq<UInt64>, ghost db: Database, ghost leftover: set<Name>)
      returns (total: UInt64, ok: bool)
      requires Valid() && W <= |query|
      modifies conns
      ensures QueryFits(name, query) ==>
                ok && total == QueryTotal(conns, cuts, old(States()), name, query) && States() == old(States())
      ensures QueryFits(name, query) && old(Mirrors(db, leftover)) && Settled(db, leftover, name)
              ==> total == LocalQuery(db, W, name, query) && Mirrors(db, leftover)
    {
      ghost var states := States();
      if Mirrors(db, leftover) && Settled(db, leftover, name) {
        QueryTotalIsLocal(states, db, leftover, W, cuts, conns, name, query);
      }
      var requests := CutQuery(name, query);
      total, ok := Gather(requests, states, AnswersOf(states, requests), QueryFits(name, query));
    }

    // The query, cut along the ranges of the connections.
    method CutQuery(name: Name, query: seq<UInt64>) returns (requests: seq<Request>)
      requires Valid() && W <= |query|
      ensures requests == QueryRequests(conns, cuts, name, query)
    {
      requests := [];
      for i := 0 to |conns|
        invariant requests == QueryRequests(conns, cuts, name, query)[..i]
      {
        assert cuts[i] <= cuts[i + 1] <= W;
        requests := requests + [AndQuery(name, query[lo[i]..hi[i]])];
      }
    }

    ghost predicate QueryFits(name: Name, query: seq<UInt64>)
      requires Valid() && W <= |query|
      reads this
    {
      forall i :: 0 <= i < |conns| ==> Sendable(AndQuery(name, Shard(query, cuts, i)))
    }
  }

  // The ranges of n connections.
  method CutRanges(w: nat, n: nat) returns (starts: seq<nat>, ends: seq<nat>)
    ensures |starts| == |ends| == n
    ensures forall k :: 0 <= k < n ==> starts[k] == ShardCuts(w, n)[k] && ends[k] == ShardCuts(w, n)[k + 1]
  {
    starts, ends := [], [];
    for i := 0 to n
      invariant |starts| == |ends| == i
      invariant forall k :: 0 <= k < i ==> starts[k] == ShardStart(w, n, k) && ends[k] == ShardStart(w, n, k + 1)
    {
      starts, ends := starts + [ShardStart(w, n, i)], ends + [ShardStart(w, n, i + 1)];
    }
  }

  function Positions(n: nat): (p: set<nat>)
    ensures forall i: nat :: i in p <==> i < n
  {
    if n == 0 then {} else Positions(n - 1) + {n - 1}
  }

  // ----- whole runs

  // The messages of the operation are within the limits of the protocol.
  ghost predicate Fits(c: Coordinator, op: Op)
    requires c.Valid() && WideOp(op, c.W)
    reads c
  {
    match op
    case Load(name, words) => c.LoadFits(name, words)
    case CountStored(a, b) => Sendable(AndStored(a, b))
    case CountQuery(name, query) => c.QueryFits(name, query)
  }

  // Every operation fits whose names have less than 65536 bytes and whose words, all in one
  // message, fill at most 2^30 bytes.
  lemma FitsBySize(c: Coordinator, op: Op)
    requires c.Valid() && WideOp(op, c.W)
    requires match op
             case CountStored(a, b) => |a| < 0x1_0000 && |b| < 0x1_0000
             case _ => |op.name| < 0x1_0000 && 3 + |op.name| + 8 * c.W <= 0x4000_0000
    ensures Fits(c, op)
  {
    match op
    case CountStored(a, b) => SendableExactly(AndStored(a, b));
    case Load(name, words) =>
      forall i | 0 <= i < |c.conns|
        ensures Sendable(Request.LoadSet(name, Shard(words, c.cuts, i)))
      {
        assert c.cuts[i] <= c.cuts[i + 1] <= c.W;
        SendableExactly(Request.LoadSet(name, Shard(words, c.cuts, i)));
      }
    case CountQuery(name, query) =>
      forall i | 0 <= i < |c.conns|
        ensures Sendable(AndQuery(name, Shard(query, c.cuts, i)))
      {
        assert c.cuts[i] <= c.cuts[i + 1] <= c.W;
        SendableExactly(AndQuery(name, Shard(query, c.cuts, i)));
      }
  }

  // A client session over any connections: its answers are those of the run.
  method Run(c: Coordinator, ops: seq<Op>) returns (answers: seq<UInt64>)
    requires c.Valid() && forall k :: 0 <= k < |ops| ==> WideOp(ops[k], c.W) && Fits(c, ops[k])
    modifies c.conns
    ensures answers == RangeRun(c.conns, c.cuts, old(c.States()), ops)
    decreases ops
  {
    answers := [];
    if ops == [] {
      return;
    }
    assert WideOp(ops[0], c.W) && Fits(c, ops[0]);
    match ops[0] {
      case Load(name, words) =>
        var ok := c.LoadSet(name, words, map[], {});
      case CountStored(a, b) =>
        var total, ok := c.IntersectStored(a, b, map[], {});
        answers := [total];
      case CountQuery(name, query) =>
        var total, ok := c.IntersectQuery(name, query, map[], {});
        answers := [total];
    }
    var rest := Run(c, ops[1..]);
    answers := answers + rest;
  }

  // When connections that share a node have no words, every count of every run is the count of
  // the single machine.
  method RangeSession(c: Coordinator, ops: seq<Op>, ghost db: Database, ghost leftover: set<Name>)
    returns (answers: seq<UInt64>)
    requires c.Valid() && SharedAreEmpty(c.conns, c.cuts) && c.Mirrors(db, leftover) && Answerable(db, leftover, ops)
    requires forall k :: 0 <= k < |ops| ==> WideOp(ops[k], c.W) && Fits(c, ops[k])
    modifies c.conns
    ensures answers == LocalRun(db, c.W, ops)
  {
    SoundRunIsLocal(c.conns, c.cuts, c.W, c.States(), db, leftover, ops);
    answers := Run(c, ops);
  }
}
