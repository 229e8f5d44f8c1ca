/**
  The consistent hash ring: virtual points owned by nodes, a sorted cache rebuilt on
  demand, and routing to the first point at or after the position of an ID, wrapping round.

  The two hash functions are fields, so everything holds whatever they compute.
*/
module Rings {
  import opened Words
  import opened Options
  import opened Sorting
  import opened Dedup

  type Addr = string
  type Points = map<UInt64, Addr>

  // ----- what routing means

  // p is the first of the keys at or after pos, or the first of all if there is none.
  ghost predicate IsSuccessor(keys: set<UInt64>, pos: UInt64, p: UInt64)
  {
    && p in keys
    && (forall q :: q in keys && q >= pos ==> pos <= p <= q)
    && ((forall q :: q in keys ==> q < pos) ==> forall q :: q in keys ==> p <= q)
  }

  lemma SuccessorUnique(keys: set<UInt64>, pos: UInt64, p: UInt64, q: UInt64)
    requires IsSuccessor(keys, pos, p) && IsSuccessor(keys, pos, q)
    ensures p == q
  {
    if forall k :: k in keys ==> k < pos {
      assert p <= q && q <= p;
    } else {
      var k :| k in keys && k >= pos;
      assert p >= pos && q >= pos;
    }
  }

  lemma {:induction false} LeastExists(keys: set<UInt64>) returns (p: UInt64)
    requires keys != {}
    ensures p in keys && forall q :: q in keys ==> p <= q
    decreases keys
  {
    p :| p in keys;
    if exists q :: q in keys && q < p {
      var below := set q | q in keys && q < p;
      var q :| q in keys && q < p;
      assert q in below && p !in below;
      ghost var bound := p;
      p := LeastExists(below);
      assert forall k :: k in keys ==> k in below || k >= bound;
    }
  }

  lemma SuccessorExists(keys: set<UInt64>, pos: UInt64)
    requires keys != {}
    ensures exists p :: IsSuccessor(keys, pos, p)
  {
    var after := set q | q in keys && q >= pos;
    if after == {} {
      assert forall q :: q in keys ==> q !in after;
      var p := LeastExists(keys);
      assert IsSuccessor(keys, pos, p);
    } else {
      var p := LeastExists(after);
      forall q | q in keys && q >= pos
        ensures pos <= p <= q
      {
        assert q in after;
      }
      assert IsSuccessor(keys, pos, p);
    }
  }

  ghost function Successor(keys: set<UInt64>, pos: UInt64): (p: UInt64)
    requires keys != {}
    ensures IsSuccessor(keys, pos, p)
  {
    SuccessorExists(keys, pos);
    var p :| IsSuccessor(keys, pos, p);
    p
  }

  // The node responsible for a position.
  ghost function Owner(points: Points, pos: UInt64): Addr
    requires points != map[]
  {
    assert points.Keys != {};
    points[Successor(points.Keys, pos)]
  }

  // ----- adding and removing a node

  function Claimed(points: Points, node: Addr, virtual: set<UInt64>): Points
  {
    points + map p | p in virtual :: node
  }

  function Released(points: Points, virtual: set<UInt64>): Points { points - virtual }

  // A successor that survives in a smaller set of keys is still the successor.
  lemma SuccessorSurvives(keys: set<UInt64>, fewer: set<UInt64>, pos: UInt64)
    requires fewer <= keys && keys != {} && Successor(keys, pos) in fewer
    ensures Successor(fewer, pos) == Successor(keys, pos)
  {
    var p := Successor(keys, pos);
    if forall q :: q in fewer ==> q < pos {
      assert p < pos;
      assert forall q :: q in keys ==> q < pos;
    }
    SuccessorUnique(fewer, pos, Successor(fewer, pos), p);
  }

  // When the successor is dropped, the position is served where the dropped point is.
  lemma SuccessorDropped(keys: set<UInt64>, fewer: set<UInt64>, pos: UInt64)
    requires fewer <= keys && fewer != {} && Successor(keys, pos) !in fewer
    ensures Successor(fewer, pos) == Successor(fewer, Successor(keys, pos))
  {
    var p := Successor(keys, pos);
    var q := Successor(fewer, p);
    SuccessorUnique(keys, p, p, Successor(keys, p));
    assert IsSuccessor(fewer, pos, q) by {
      if p < pos {
        assert forall k :: k in keys ==> k < pos;
        assert forall k :: k in fewer ==> k > p;
      } else {
        assert forall k :: k in fewer && k >= pos ==> k >= p;
      }
    }
    SuccessorUnique(fewer, pos, Successor(fewer, pos), q);
  }

  // Adding a node moves positions to that node only.
  lemma AddMovesToNewNodeOnly(points: Points, node: Addr, virtual: set<UInt64>, pos: UInt64)
    requires points != map[]
    ensures Claimed(points, node, virtual) != map[]
    ensures var after := Claimed(points, node, virtual);
            Owner(after, pos) == (if Successor(after.Keys, pos) in virtual then node else Owner(points, pos))
  {
    var after := Claimed(points, node, virtual);
    assert points.Keys <= after.Keys && points.Keys != {};
    var p := Successor(after.Keys, pos);
    if p !in virtual {
      SuccessorSurvives(after.Keys, points.Keys, pos);
    }
  }

  // Every position keeps its node or moves to the given one.
  ghost predicate OnlyMovesTo(before: Points, after: Points, node: Addr)
    requires before != map[]
  {
    && after != map[]
    && forall pos: UInt64 {:trigger Owner(after, pos)} ::
         Owner(after, pos) == Owner(before, pos) || Owner(after, pos) == node
  }

  // Every position of another node keeps its node.
  ghost predicate OnlyMovesFrom(before: Points, after: Points, node: Addr)
  {
    before != map[] ==> forall pos: UInt64 {:trigger Owner(before, pos)} ::
      Owner(before, pos) != node ==> after != map[] && Owner(after, pos) == Owner(before, pos)
  }

  // Every point of another node among the given ones is served by that same node afterwards.
  ghost predicate StillServed(before: Points, after: Points, node: Addr, virtual: set<UInt64>)
  {
    forall p :: p in virtual && p in before && before[p] != node ==> after != map[] && Owner(after, p) == before[p]
  }

  lemma AddedOnlyMovesTo(points: Points, node: Addr, virtual: set<UInt64>)
    requires points != map[]
    ensures OnlyMovesTo(points, Claimed(points, node, virtual), node)
  {
    forall pos: UInt64 {:trigger Owner(Claimed(points, node, virtual), pos)}
      ensures Claimed(points, node, virtual) != map[]
      ensures var owner := Owner(Claimed(points, node, virtual), pos);
              owner == Owner(points, pos) || owner == node
    {
      AddMovesToNewNodeOnly(points, node, virtual, pos);
    }
    AddMovesToNewNodeOnly(points, node, virtual, 0);
  }

  // A point is served by its own node.
  lemma OwnerOfPoint(points: Points, p: UInt64)
    requires p in points
    ensures points != map[] && Owner(points, p) == points[p]
  {
    SuccessorUnique(points.Keys, p, p, Successor(points.Keys, p));
  }

  // Removing a node leaves every position of another node in place exactly when each virtual
  // point it takes away from another node is served by that same node afterwards.
  lemma RemoveMovesOwnedOnly(points: Points, node: Addr, virtual: set<UInt64>)
    ensures OnlyMovesFrom(points, Released(points, virtual), node)
            <==> StillServed(points, Released(points, virtual), node, virtual)
  {
    var after := Released(points, virtual);
    if OnlyMovesFrom(points, after, node) {
      forall p | p in virtual && p in points && points[p] != node
        ensures after != map[] && Owner(after, p) == points[p]
      {
        OwnerOfPoint(points, p);
      }
    }
    if StillServed(points, after, node, virtual) && points != map[] {
      forall pos: UInt64 | Owner(points, pos) != node
        ensures after != map[] && Owner(after, pos) == Owner(points, pos)
      {
        PositionStays(points, node, virtual, pos);
      }
    }
  }

  lemma PositionStays(points: Points, node: Addr, virtual: set<UInt64>, pos: UInt64)
    requires points != map[] && Owner(points, pos) != node
    requires StillServed(points, Released(points, virtual), node, virtual)
    ensures Released(points, virtual) != map[]
    ensures Owner(Released(points, virtual), pos) == Owner(points, pos)
  {
    var after := Released(points, virtual);
    assert points.Keys != {} && after.Keys <= points.Keys;
    var p := Successor(points.Keys, pos);
    if p in after {
      SuccessorSurvives(points.Keys, after.Keys, pos);
    } else {
      assert p in virtual;
      assert after.Keys != {};
      SuccessorDropped(points.Keys, after.Keys, pos);
    }
  }

  // In particular when no other node owns one of the removed points.
  lemma RemoveOwnPointsOnly(points: Points, node: Addr, virtual: set<UInt64>)
    requires forall p :: p in virtual && p in points ==> points[p] == node
    ensures OnlyMovesFrom(points, Released(points, virtual), node)
  {
    RemoveMovesOwnedOnly(points, node, virtual);
  }

  // Adding a node and removing it again restores the ring exactly when its virtual points
  // were free.
  lemma AddThenRemove(points: Points, node: Addr, virtual: set<UInt64>)
    ensures Released(Claimed(points, node, virtual), virtual) == points <==> virtual !! points.Keys
  {
    var after := Released(Claimed(points, node, virtual), virtual);
    assert after.Keys == points.Keys - virtual;
    if virtual !! points.Keys {
      assert after == points;
    }
  }

  // For a node that owns no point yet, the routes are restored exactly when every point of
  // another node it claims is served by that same node without it.
  lemma AddThenRemoveRoutes(points: Points, node: Addr, virtual: set<UInt64>)
    requires forall p :: p in points ==> points[p] != node
    ensures Released(Claimed(points, node, virtual), virtual) == Released(points, virtual)
    ensures SameRoutes(points, Released(points, virtual))
            <==> StillServed(points, Released(points, virtual), node, virtual)
  {
    var after := Released(points, virtual);
    RemoveMovesOwnedOnly(points, node, virtual);
    assert points == map[] ==> after == map[];
    assert points != map[] ==> points.Keys != {};
    if points != map[] && OnlyMovesFrom(points, after, node) {
      assert Owner(points, 0) != node;
    }
  }

  // Both rings route every position to the same node, or both route nothing.
  ghost predicate SameRoutes(before: Points, after: Points)
  {
    if before == map[] then after == map[]
    else
      && after != map[]
      && forall pos: UInt64 {:trigger Owner(before, pos)} :: Owner(after, pos) == Owner(before, pos)
  }

  // ----- the ring

  ghost function FirstVirtualPoints(nodeHash: (Addr, nat) -> UInt64, node: Addr, n: nat): set<UInt64>
  {
    set i | 0 <= i < n :: nodeHash(node, i)
  }

  // p is one of the points that a node hashes to.
  ghost predicate Generated(nodeHash: (Addr, nat) -> UInt64, node: Addr, n: nat, p: UInt64)
  {
    exists i :: 0 <= i < n && p == nodeHash(node, i)
  }

  // Which points there are after a node joins or leaves, and whose they are.
  lemma PointsExactly(points: Points, nodeHash: (Addr, nat) -> UInt64, node: Addr, n: nat, p: UInt64)
    ensures var joined := Claimed(points, node, FirstVirtualPoints(nodeHash, node, n));
            && (p in joined <==> p in points || Generated(nodeHash, node, n, p))
            && (p in joined ==> joined[p] == if Generated(nodeHash, node, n, p) then node else points[p])
    ensures var left := Released(points, FirstVirtualPoints(nodeHash, node, n));
            && (p in left <==> p in points && !Generated(nodeHash, node, n, p))
            && (p in left ==> left[p] == points[p])
  {
    assert p in FirstVirtualPoints(nodeHash, node, n) <==> Generated(nodeHash, node, n, p);
  }

  lemma NextVirtualPoint(points: Points, nodeHash: (Addr, nat) -> UInt64, node: Addr, n: nat)
    ensures var virtual, next := FirstVirtualPoints(nodeHash, node, n), FirstVirtualPoints(nodeHash, node, n + 1);
            && Claimed(points, node, next) == Claimed(points, node, virtual)[nodeHash(node, n) := node]
            && Released(points, next) == Released(points, virtual) - {nodeHash(node, n)}
  {
    var virtual, next := FirstVirtualPoints(nodeHash, node, n), FirstVirtualPoints(nodeHash, node, n + 1);
    assert next == virtual + {nodeHash(node, n)};
    OneMorePoint(points, node, virtual, nodeHash(node, n));
  }

  lemma OneMorePoint(points: Points, node: Addr, virtual: set<UInt64>, p: UInt64)
    ensures Claimed(points, node, virtual + {p}) == Claimed(points, node, virtual)[p := node]
    ensures Released(points, virtual + {p}) == Released(points, virtual) - {p}
  {
  }

  // The ring after the first n nodes have joined, one after another; a node joins once.
  ghost function Joined(nodeHash: (Addr, nat) -> UInt64, replicas: nat, nodes: seq<Addr>, n: nat): Points
    requires n <= |nodes|
  {
    if n == 0 then map[]
    else
      var before, node := Joined(nodeHash, replicas, nodes, n - 1), nodes[n - 1];
      if node in nodes[..n - 1] then before
      else Claimed(before, node, FirstVirtualPoints(nodeHash, node, replicas))
  }

  // ----- a ring with a shared point

  // Two replicas: "a" hashes to 5 and 9, "b" twice to 5, and every other node to 20.
  function SharedPointHash(node: Addr, i: nat): UInt64
  {
    if node == "a" then (if i == 0 then 5 else 9) else if node == "b" then 5 else 20
  }

  lemma SharedPoints()
    ensures FirstVirtualPoints(SharedPointHash, "a", 2) == {5, 9}
    ensures FirstVirtualPoints(SharedPointHash, "b", 2) == {5}
    ensures FirstVirtualPoints(SharedPointHash, "c", 2) == {20}
  {
    assert SharedPointHash("a", 0) == 5 && SharedPointHash("a", 1) == 9;
    assert SharedPointHash("b", 0) == 5 && SharedPointHash("c", 0) == 20;
  }

  lemma JoinStep(nodes: seq<Addr>, n: nat, virtual: set<UInt64>)
    requires n < |nodes| && nodes[n] !in nodes[..n]
    requires FirstVirtualPoints(SharedPointHash, nodes[n], 2) == virtual
    ensures Joined(SharedPointHash, 2, nodes, n + 1) == Claimed(Joined(SharedPointHash, 2, nodes, n), nodes[n], virtual)
  {
  }

  // "b" takes point 5 over from "a".
  lemma SharedPointRing()
    ensures Joined(SharedPointHash, 2, ["a", "b", "c"], 3) == map[5 := "b", 9 := "a", 20 := "c"]
  {
    SharedPoints();
    ThreeJoin("a", "b", "c", {5, 9}, {5}, {20});
    TwoClaims();
    assert Claimed(map[5 := "b", 9 := "a"], "c", {20}) == map[5 := "b", 9 := "a", 20 := "c"];
  }

  lemma TwoClaims()
    ensures Claimed(Claimed(map[], "a", {5, 9}), "b", {5}) == map[5 := "b", 9 := "a"]
  {
    var first: Points := map[5 := "a", 9 := "a"];
    assert Claimed(map[], "a", {5, 9}) == first;
    assert Claimed(first, "b", {5}) == map[5 := "b", 9 := "a"];
  }

  lemma ThreeJoin(x: Addr, y: Addr, z: Addr, vx: set<UInt64>, vy: set<UInt64>, vz: set<UInt64>)
    requires x != y && y != z && x != z
    requires FirstVirtualPoints(SharedPointHash, x, 2) == vx
    requires FirstVirtualPoints(SharedPointHash, y, 2) == vy
    requires FirstVirtualPoints(SharedPointHash, z, 2) == vz
    ensures Joined(SharedPointHash, 2, [x, y, z], 3) == Claimed(Claimed(Claimed(map[], x, vx), y, vy), z, vz)
  {
    JoinStep([x, y, z], 0, vx);
    JoinStep([x, y, z], 1, vy);
    JoinStep([x, y, z], 2, vz);
  }

  lemma RingOfTwo()
    ensures Joined(SharedPointHash, 2, ["b", "c"], 2) == map[5 := "b", 20 := "c"]
  {
    var nodes := ["b", "c"];
    SharedPoints();
    JoinStep(nodes, 0, {5});
    JoinStep(nodes, 1, {20});
  }

  // The condition can fail: removing "a" deletes the point that "b" took over from it, and a
  // position of "b" moves to "c".
  lemma RemoveCanDisturbOthers()
    ensures var ring := Joined(SharedPointHash, 2, ["a", "b", "c"], 3);
            var left := Released(ring, FirstVirtualPoints(SharedPointHash, "a", 2));
            && ring != map[] && left != map[]
            && Owner(ring, 5) == "b" && Owner(left, 5) == "c"
            && !OnlyMovesFrom(ring, left, "a")
  {
    SharedPoints();
    SharedPointRing();
    var ring: Points := map[5 := "b", 9 := "a", 20 := "c"];
    OwnerOfPoint(ring, 5);
    var left := Released(ring, {5, 9});
    assert 20 in left && left.Keys == {20};
    assert Owner(left, 5) == "c";
  }

  // And adding "a" to a ring of "b" and "c" and removing it again moves that position.
  lemma AddThenRemoveCanMoveRoutes()
    ensures var ring := Joined(SharedPointHash, 2, ["b", "c"], 2);
            var virtual := FirstVirtualPoints(SharedPointHash, "a", 2);
            var left := Released(Claimed(ring, "a", virtual), virtual);
            && ring != map[] && left != map[]
            && Owner(ring, 5) == "b" && Owner(left, 5) == "c"
            && !SameRoutes(ring, left)
  {
    SharedPoints();
    RingOfTwo();
    var ring: Points := map[5 := "b", 20 := "c"];
    AddThenRemoveRoutes(ring, "a", {5, 9});
    OwnerOfPoint(ring, 5);
    var left := Released(ring, {5, 9});
    assert 20 in left && left.Keys == {20};
    assert Owner(left, 5) == "c";
  }

  class Ring {
    const replicas: nat
    const idHash: UInt64 -> UInt64
    const nodeHash: (Addr, nat) -> UInt64
    var points: Points
    var nodes: set<Addr>
    var sorted: Option<seq<UInt64>>

    ghost function VirtualPoints(node: Addr): set<UInt64>
    {
      FirstVirtualPoints(nodeHash, node, replicas)
    }

    // The cache is absent or is the ordered set of points, and every point belongs to an
    // active node that generates it.
    ghost predicate Valid()
      reads this
    {
      && (sorted.Some? ==> StrictlyAscending(sorted.value) && forall p :: p in sorted.value <==> p in points)
      && (forall p :: p in points ==> points[p] in nodes && p in VirtualPoints(points[p]))
      && replicas > 0
    }

    constructor (replicas: int, idHash: UInt64 -> UInt64, nodeHash: (Addr, nat) -> UInt64)
      ensures Valid() && points == map[] && nodes == {}
      ensures this.replicas == if replicas <= 0 then 100 else replicas
      ensures this.idHash == idHash && this.nodeHash == nodeHash
    {
      this.replicas := if replicas <= 0 then 100 else replicas;
      this.idHash, this.nodeHash := idHash, nodeHash;
      points, nodes, sorted := map[], {}, None;
    }

    method AddNode(node: Addr)
      requires Valid()
      modifies this
      ensures Valid() && nodes == old(nodes) + {node}
      ensures points == if node in old(nodes) then old(points)
                        else Claimed(old(points), node, VirtualPoints(node))
      ensures node !in old(nodes) || old(points) != map[] ==> points != map[]
      ensures old(points) != map[] ==> OnlyMovesTo(old(points), points, node)
    {
      if node in nodes {
        return;
      }
      nodes := nodes + {node};
      ghost var before := points;
      for i := 0 to replicas
        invariant points == Claimed(before, node, FirstVirtualPoints(nodeHash, node, i))
        invariant nodes == old(nodes) + {node} && sorted == old(sorted)
      {
        NextVirtualPoint(before, nodeHash, node, i);
        points := points[nodeHash(node, i) := node];
      }
      assert nodeHash(node, 0) in points;
      sorted := None;
      if before != map[] {
        AddedOnlyMovesTo(before, node, VirtualPoints(node));
      }
    }

    method RemoveNode(node: Addr)
      requires Valid()
      modifies this
      ensures Valid() && nodes == old(nodes) - {node}
      ensures points == if node in old(nodes) then Released(old(points), VirtualPoints(node))
                        else old(points)
      ensures node in old(nodes) ==>
                (OnlyMovesFrom(old(points), points, node)
                 <==> StillServed(old(points), points, node, VirtualPoints(node)))
    {
      if node !in nodes {
        return;
      }
      nodes := nodes - {node};
      ghost var before := points;
      for i := 0 to replicas
        invariant points == Released(before, FirstVirtualPoints(nodeHash, node, i))
        invariant nodes == old(nodes) - {node} && sorted == old(sorted)
      {
        NextVirtualPoint(before, nodeHash, node, i);
        points := points - {nodeHash(node, i)};
      }
      sorted := None;
      RemoveMovesOwnedOnly(before, node, VirtualPoints(node));
    }

    method EnsureSorted()
      requires Valid()
      modifies this`sorted
      ensures Valid() && sorted.Some?
      ensures old(sorted).Some? ==> sorted == old(sorted)
    {
      if sorted.Some? {
        return;
      }
      var listed: seq<UInt64> := [];
      var rest := points.Keys;
      while rest != {}
        invariant rest <= points.Keys
        invariant forall p :: p in listed <==> p in points.Keys - rest
        invariant Distinct(listed)
        decreases rest
      {
        var p :| p in rest;
        listed := listed + [p];
        rest := rest - {p};
      }
      sorted := Some(SortDistinct(listed));
    }

    // The node responsible for an ID; none when the ring is empty.
    method Route(id: UInt64) returns (node: Addr, ok: bool)
      requires Valid()
      modifies this`sorted
      ensures Valid()
      ensures ok <==> points != map[]
      ensures ok ==> node == Owner(points, idHash(id)) && node in nodes
      ensures !ok ==> node == ""
    {
      if |points| == 0 {
        return "", false;
      }
      assert points.Keys != {};
      EnsureSorted();
      var p := FirstFrom(sorted.value, idHash(id), points.Keys);
      return points[p], true;
    }
  }

  // The first listed point at or after pos, wrapping round.
  method FirstFrom(s: seq<UInt64>, pos: UInt64, ghost keys: set<UInt64>) returns (p: UInt64)
    requires StrictlyAscending(s) && keys != {} && forall p :: p in s <==> p in keys
    ensures p == Successor(keys, pos)
  {
    ghost var q :| q in keys;
    assert q in s;
    var idx := LowerBound(s, pos);
    if idx == |s| {
      idx := 0;
    }
    p := s[idx];
    SuccessorUnique(keys, pos, p, Successor(keys, pos));
  }

  // Sorting distinct points gives a strictly ascending list of the same points.
  function SortDistinct(s: seq<UInt64>): (r: seq<UInt64>)
    requires Distinct(s)
    ensures StrictlyAscending(r)
    ensures forall p :: p in r <==> p in s
  {
    var r := SortNumbers(s);
    MultisetOfElements(r, s);
    MultisetDistinct(s, r);
    assert forall i :: 0 <= i < |r| ==> r[i] in s;
    r
  }
}
