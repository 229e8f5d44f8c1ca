/** Intersection of sorted lists by merging, pairwise and folded over many lists. */
module SetOps {
  import opened Words
  import opened Sorting

  ghost function Elements(s: seq<UInt64>): set<UInt64> { set x: UInt64 | x in s }

  // The merge of two sorted lists, keeping what both heads agree on.
  function Merge(a: seq<UInt64>, b: seq<UInt64>): seq<UInt64>
    decreases |a| + |b|
  {
    if a == [] || b == [] then []
    else if a[0] < b[0] then Merge(a[1..], b)
    else if a[0] > b[0] then Merge(a, b[1..])
    else [a[0]] + Merge(a[1..], b[1..])
  }

  // A smaller head of one sorted list is missing from the other.
  lemma DropSmaller(a: seq<UInt64>, b: seq<UInt64>)
    requires Ascending(b) && a != [] && b != [] && a[0] < b[0]
    ensures multiset(a) * multiset(b) == multiset(a[1..]) * multiset(b)
  {
    assert a == [a[0]] + a[1..];
    assert a[0] !in b;
  }

  lemma DropBoth(a: seq<UInt64>, b: seq<UInt64>)
    requires a != [] && b != [] && a[0] == b[0]
    ensures multiset(a) * multiset(b) == multiset{a[0]} + multiset(a[1..]) * multiset(b[1..])
  {
    assert a == [a[0]] + a[1..] && b == [b[0]] + b[1..];
  }

  // Merging finds the common part, every value as often as in the list that has it less.
  lemma {:induction false} MergeIsIntersection(a: seq<UInt64>, b: seq<UInt64>)
    requires Ascending(a) && Ascending(b)
    ensures multiset(Merge(a, b)) == multiset(a) * multiset(b)
    decreases |a| + |b|
  {
    if a != [] && b != [] {
      if a[0] < b[0] {
        DropSmaller(a, b);
        MergeIsIntersection(a[1..], b);
      } else if a[0] > b[0] {
        DropSmaller(b, a);
        MergeIsIntersection(a, b[1..]);
        assert multiset(a) * multiset(b) == multiset(b) * multiset(a);
        assert multiset(a) * multiset(b[1..]) == multiset(b[1..]) * multiset(a);
      } else {
        DropBoth(a, b);
        MergeIsIntersection(a[1..], b[1..]);
      }
    }
  }

  lemma {:induction false} MergeAscending(a: seq<UInt64>, b: seq<UInt64>)
    requires Ascending(a) && Ascending(b)
    ensures Ascending(Merge(a, b))
    ensures forall k :: 0 <= k < |Merge(a, b)| ==> a != [] && a[0] <= Merge(a, b)[k]
    decreases |a| + |b|
  {
    if a != [] && b != [] {
      if a[0] < b[0] {
        MergeAscending(a[1..], b);
      } else if a[0] > b[0] {
        MergeAscending(a, b[1..]);
      } else {
        MergeAscending(a[1..], b[1..]);
      }
    }
  }

  method IntersectSorted(a: seq<UInt64>, b: seq<UInt64>) returns (out: seq<UInt64>)
    requires Ascending(a) && Ascending(b)
    ensures Ascending(out)
    ensures multiset(out) == multiset(a) * multiset(b)
  {
    out := [];
    var i, j := 0, 0;
    while i < |a| && j < |b|
      invariant i <= |a| && j <= |b|
      invariant out + Merge(a[i..], b[j..]) == Merge(a, b)
      decreases |a| - i + |b| - j
    {
      assert a[i..][1..] == a[i + 1..] && b[j..][1..] == b[j + 1..];
      if a[i] < b[j] {
        i := i + 1;
      } else if a[i] > b[j] {
        j := j + 1;
      } else {
        out := out + [a[i]];
        i := i + 1;
        j := j + 1;
      }
    }
    assert Merge(a[i..], b[j..]) == [];
    assert out == Merge(a, b);
    MergeIsIntersection(a, b);
    MergeAscending(a, b);
  }

  // The common part of the first n of many lists.
  function Meet(sets: seq<seq<UInt64>>, n: nat): multiset<UInt64>
    requires n <= |sets|
  {
    if n == 0 then multiset{}
    else if n == 1 then multiset(sets[0])
    else Meet(sets, n - 1) * multiset(sets[n - 1])
  }

  lemma {:induction false} EmptyMeetStays(sets: seq<seq<UInt64>>, k: nat, n: nat)
    requires 0 < k <= n <= |sets| && Meet(sets, k) == multiset{}
    ensures Meet(sets, n) == multiset{}
  {
    if k == n {
    } else {
      EmptyMeetStays(sets, k, n - 1);
    }
  }

  // Folding, with an early exit once nothing is common.
  method IntersectMany(sets: seq<seq<UInt64>>) returns (acc: seq<UInt64>)
    requires forall k :: 0 <= k < |sets| ==> Ascending(sets[k])
    ensures Ascending(acc) && multiset(acc) == Meet(sets, |sets|)
    ensures |sets| == 0 ==> acc == []
  {
    if |sets| == 0 {
      return [];
    }
    acc := sets[0];
    for k := 1 to |sets|
      invariant Ascending(acc) && multiset(acc) == Meet(sets, k)
    {
      acc := IntersectSorted(acc, sets[k]);
      if |acc| == 0 {
        assert acc == [];
        EmptyMeetStays(sets, k + 1, |sets|);
        return [];
      }
    }
  }

  // A value is common as often as in the list that has it least.
  lemma {:induction false} MeetIsLeast(sets: seq<seq<UInt64>>, n: nat, x: UInt64)
    requires 0 < n <= |sets|
    ensures forall k :: 0 <= k < n ==> Meet(sets, n)[x] <= multiset(sets[k])[x]
    ensures exists k :: 0 <= k < n && Meet(sets, n)[x] == multiset(sets[k])[x]
  {
    assert n > 1 || Meet(sets, n)[x] == multiset(sets[0])[x];
    if n > 1 {
      MeetIsLeast(sets, n - 1, x);
      assert Meet(sets, n)[x] == multiset(sets[n - 1])[x] || Meet(sets, n)[x] == Meet(sets, n - 1)[x];
    }
  }

  // Among lists without repetitions the common part has none, and is the common elements.
  lemma {:induction false} MeetOfSets(sets: seq<seq<UInt64>>, n: nat, x: UInt64)
    requires 0 < n <= |sets|
    requires forall k :: 0 <= k < n ==> StrictlyAscending(sets[k])
    ensures Meet(sets, n)[x] == if forall k :: 0 <= k < n ==> x in sets[k] then 1 else 0
  {
    OnceInMultiset(sets[n - 1], x);
    assert x in sets[n - 1] <==> x in multiset(sets[n - 1]);
    if n > 1 {
      MeetOfSets(sets, n - 1, x);
      assert (forall k :: 0 <= k < n ==> x in sets[k]) <==>
             (forall k :: 0 <= k < n - 1 ==> x in sets[k]) && x in sets[n - 1];
    }
  }

  // ----- sizes of sets given as lists

  lemma ElementsSnoc(s: seq<UInt64>, n: nat)
    requires n < |s|
    ensures Elements(s[..n + 1]) == Elements(s[..n]) + {s[n]}
  {
    assert s[..n + 1] == s[..n] + [s[n]];
  }

  lemma LastIsNew(s: seq<UInt64>, n: nat)
    requires StrictlyAscending(s) && n < |s|
    ensures |Elements(s[..n + 1])| == |Elements(s[..n])| + 1
  {
    ElementsSnoc(s, n);
    assert s[n] !in s[..n];
  }

  lemma {:induction false} SizeOfAscending(s: seq<UInt64>, n: nat)
    requires StrictlyAscending(s) && n <= |s|
    ensures |Elements(s[..n])| == n
  {
    if n == 0 {
      assert Elements(s[..0]) == {};
    } else {
      SizeOfAscending(s, n - 1);
      LastIsNew(s, n - 1);
    }
  }

  lemma {:induction false} SizeBound(s: seq<UInt64>, n: nat)
    requires n <= |s|
    ensures |Elements(s[..n])| <= n
  {
    if n == 0 {
      assert Elements(s[..0]) == {};
    } else {
      SizeBound(s, n - 1);
      ElementsSnoc(s, n - 1);
    }
  }

  // A list without repetitions is no longer than one with the same elements.
  lemma NoLonger(s: seq<UInt64>, t: seq<UInt64>)
    requires StrictlyAscending(s) && Elements(s) == Elements(t)
    ensures |s| <= |t| && |s| == |Elements(s)|
  {
    SizeOfAscending(s, |s|);
    SizeBound(t, |t|);
    assert s[..|s|] == s && t[..|t|] == t;
  }
}
