/** Sums of lists and of finite families of numbers, in whatever order they are added. */
module Sums {
  function Total(counts: seq<nat>): nat
  {
    if counts == [] then 0 else Total(counts[..|counts| - 1]) + counts[|counts| - 1]
  }

  lemma {:induction false} TotalOfZeros(counts: seq<nat>)
    requires forall i :: 0 <= i < |counts| ==> counts[i] == 0
    ensures Total(counts) == 0
    decreases |counts|
  {
    if counts == [] {
    } else {
      TotalOfZeros(counts[..|counts| - 1]);
    }
  }

  // The entries lo .. hi.
  function RangeTotal(counts: seq<nat>, lo: nat, hi: nat): nat
    requires lo <= hi <= |counts|
  {
    if hi == lo then 0 else RangeTotal(counts, lo, hi - 1) + counts[hi - 1]
  }

  lemma {:induction false} RangeTotalSplit(counts: seq<nat>, lo: nat, mid: nat, hi: nat)
    requires lo <= mid <= hi <= |counts|
    ensures RangeTotal(counts, lo, hi) == RangeTotal(counts, lo, mid) + RangeTotal(counts, mid, hi)
  {
    if mid == hi {
    } else {
      RangeTotalSplit(counts, lo, mid, hi - 1);
    }
  }

  ghost function Sum<K(!new)>(m: map<K, nat>): nat
    decreases m.Keys
  {
    if m == map[] then 0
    else
      var k :| k in m.Keys;
      m[k] + Sum(m - {k})
  }

  lemma {:induction false} SumRemove<K(!new)>(m: map<K, nat>, k: K)
    requires k in m
    ensures Sum(m) == m[k] + Sum(m - {k})
    decreases m.Keys
  {
    var j :| j in m.Keys && Sum(m) == m[j] + Sum(m - {j});
    if j != k {
      SumRemove(m - {j}, k);
      SumRemove(m - {k}, j);
      assert m - {j} - {k} == m - {k} - {j};
    }
  }

  lemma SumUpdate<K(!new)>(m: map<K, nat>, k: K, v: nat)
    ensures Sum(m[k := v]) == Sum(m - {k}) + v
  {
    SumRemove(m[k := v], k);
    assert m[k := v] - {k} == m - {k};
  }

  lemma {:induction false} SumOfZeros<K(!new)>(m: map<K, nat>)
    requires forall k :: k in m ==> m[k] == 0
    ensures Sum(m) == 0
    decreases m.Keys
  {
    if m == map[] {
    } else {
      var k :| k in m.Keys;
      SumRemove(m, k);
      SumOfZeros(m - {k});
    }
  }

  lemma SumIncrease<K(!new)>(m: map<K, nat>, k: K, d: nat)
    requires k in m
    ensures Sum(m[k := m[k] + d]) == Sum(m) + d
  {
    SumRemove(m, k);
    SumUpdate(m, k, m[k] + d);
  }

  lemma SumInsert<K(!new)>(m: map<K, nat>, k: K, v: nat)
    requires k !in m
    ensures Sum(m[k := v]) == Sum(m) + v
  {
    SumUpdate(m, k, v);
    assert m - {k} == m;
  }

  ghost function Indexed(counts: seq<nat>, n: nat): (m: map<nat, nat>)
    requires n <= |counts|
    ensures forall i: nat :: i in m <==> i < n
    ensures forall i :: i in m ==> m[i] == counts[i]
  {
    map i: nat | i < n :: counts[i]
  }

  lemma {:induction false} SumOfIndexed(counts: seq<nat>, n: nat)
    requires n <= |counts|
    ensures Sum(Indexed(counts, n)) == RangeTotal(counts, 0, n)
  {
    if n == 0 {
      SumOfZeros(Indexed(counts, 0));
    } else {
      SumOfIndexed(counts, n - 1);
      var before, last: nat := Indexed(counts, n - 1), n - 1;
      assert Indexed(counts, n) == before[last := counts[last]];
      SumInsert(before, last, counts[last]);
    }
  }

  // Entries left out of a sum do not matter when they are zero.
  lemma {:induction false} SumWithZeros(all: map<nat, nat>, some: map<nat, nat>)
    requires some.Keys <= all.Keys
    requires forall w :: w in all ==> all[w] == if w in some then some[w] else 0
    ensures Sum(all) == Sum(some)
    decreases all.Keys
  {
    if all.Keys != some.Keys {
      var w :| w in all.Keys && w !in some.Keys;
      SumRemove(all, w);
      SumWithZeros(all - {w}, some);
    } else {
      assert all == some;
    }
  }

  // A list with one entry that is not zero adds up to it.
  lemma {:induction false} TotalOfOne(counts: seq<nat>, r: nat)
    requires r < |counts| && forall k :: 0 <= k < |counts| && k != r ==> counts[k] == 0
    ensures Total(counts) == counts[r]
    decreases |counts|
  {
    var n := |counts| - 1;
    if r < n {
      TotalOfOne(counts[..n], r);
    } else {
      TotalOfZeros(counts[..n]);
    }
  }

  lemma {:induction false} TotalAtLeast(counts: seq<nat>, i: nat, r: nat)
    requires i < |counts| && r < |counts| && i != r
    ensures counts[i] + counts[r] <= Total(counts)
    decreases |counts|
  {
    var n := |counts| - 1;
    if i < n && r < n {
      TotalAtLeast(counts[..n], i, r);
    } else {
      TotalAtLeastOne(counts[..n], if i < n then i else r);
    }
  }

  lemma {:induction false} TotalAtLeastOne(counts: seq<nat>, i: nat)
    requires i < |counts|
    ensures counts[i] <= Total(counts)
    decreases |counts|
  {
    if i == |counts| - 1 {
    } else {
      TotalAtLeastOne(counts[..|counts| - 1], i);
    }
  }

  // Ones and zeros add up to at most as many as there are entries.
  lemma {:induction false} SumOfFlags<K(!new)>(m: map<K, nat>)
    requires forall k :: k in m ==> m[k] <= 1
    ensures Sum(m) <= |m.Keys|
    decreases m.Keys
  {
    if m == map[] {
    } else {
      var k :| k in m.Keys;
      SumRemove(m, k);
      SumOfFlags(m - {k});
      assert m.Keys == (m - {k}).Keys + {k};
    }
  }

  lemma SumOfTwo<K(!new)>(m: map<K, nat>, a: K, b: K)
    requires a in m && b in m && a != b
    ensures m[a] + m[b] <= Sum(m)
  {
    SumRemove(m, a);
    SumRemove(m - {a}, b);
  }

  lemma {:induction false} TotalOfFlags(counts: seq<nat>)
    requires forall k :: 0 <= k < |counts| ==> counts[k] <= 1
    ensures Total(counts) <= |counts|
    decreases |counts|
  {
    if counts == [] {
    } else {
      TotalOfFlags(counts[..|counts| - 1]);
    }
  }
}
