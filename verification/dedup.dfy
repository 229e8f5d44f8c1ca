/** Keeping the first occurrence of every element, in input order. */
module Dedup {
  import opened Sorting

  function FirstOccurrences<T(==)>(s: seq<T>): seq<T>
  {
    if s == [] then []
    else
      var init := s[..|s| - 1];
      var last := s[|s| - 1];
      if last in init then FirstOccurrences(init) else FirstOccurrences(init) + [last]
  }

  ghost predicate Distinct<T>(s: seq<T>)
  {
    forall i, j :: 0 <= i < j < |s| ==> s[i] != s[j]
  }

  // No element is lost, gained or repeated.
  lemma {:induction false} FirstOccurrencesDistinct<T>(s: seq<T>)
    ensures Distinct(FirstOccurrences(s))
    ensures forall x :: x in FirstOccurrences(s) <==> x in s
    ensures |FirstOccurrences(s)| <= |s|
  {
    if s == [] {
    } else {
      var init := s[..|s| - 1];
      FirstOccurrencesDistinct(init);
      assert s == init + [s[|s| - 1]];
    }
  }

  lemma FirstOccurrencesStep<T>(s: seq<T>, n: nat)
    requires n < |s|
    ensures FirstOccurrences(s[..n + 1]) ==
            if s[n] in s[..n] then FirstOccurrences(s[..n]) else FirstOccurrences(s[..n]) + [s[n]]
  {
    assert s[..n + 1][..n] == s[..n];
  }

  // ----- the order of the input

  function FirstIndex<T(==)>(s: seq<T>, x: T): (i: nat)
    requires x in s
    ensures i < |s| && s[i] == x && x !in s[..i]
  {
    if s[0] == x then 0 else 1 + FirstIndex(s[1..], x)
  }

  // r lists elements of s in the order in which they first occur in s, none of them twice.
  ghost predicate InOrderOf<T>(s: seq<T>, r: seq<T>)
  {
    && (forall i :: 0 <= i < |r| ==> r[i] in s)
    && forall i, j :: 0 <= i < j < |r| ==> FirstIndex(s, r[i]) < FirstIndex(s, r[j])
  }

  lemma FirstIndexInPrefix<T>(s: seq<T>, n: nat, x: T)
    requires n <= |s| && x in s[..n]
    ensures FirstIndex(s, x) == FirstIndex(s[..n], x) < n
  {
    var i, j := FirstIndex(s, x), FirstIndex(s[..n], x);
    assert s[j] == x && s[..n][..j] == s[..j];
  }

  // Appending a later element, new or not, keeps the order.
  lemma InOrderStep<T>(s: seq<T>, r: seq<T>, n: nat)
    requires n < |s| && InOrderOf(s[..n], r)
    ensures InOrderOf(s[..n + 1], r)
    ensures s[n] !in s[..n] ==> InOrderOf(s[..n + 1], r + [s[n]])
  {
    var more := s[..n + 1];
    assert more[..n] == s[..n] && more[n] == s[n];
    forall i | 0 <= i < |r|
      ensures r[i] in more && FirstIndex(more, r[i]) == FirstIndex(s[..n], r[i]) < n
    {
      FirstIndexInPrefix(more, n, r[i]);
    }
    if s[n] !in s[..n] {
      assert s[FirstIndex(more, s[n])] == s[n];
      assert FirstIndex(more, s[n]) >= n;
    }
  }

  lemma {:induction false} FirstOccurrencesInOrder<T>(s: seq<T>)
    ensures InOrderOf(s, FirstOccurrences(s))
  {
    if s == [] {
    } else {
      var n := |s| - 1;
      FirstOccurrencesInOrder(s[..n]);
      InOrderStep(s, FirstOccurrences(s[..n]), n);
      assert s[..n + 1] == s;
    }
  }

  // The elements and the order determine the list.
  lemma InOrderUnique<T>(s: seq<T>, r: seq<T>, t: seq<T>)
    requires InOrderOf(s, r) && InOrderOf(s, t) && forall x :: x in r <==> x in t
    ensures r == t
  {
    var a, b := Indices(s, r), Indices(s, t);
    forall n
      ensures n in a <==> n in b
    {
      SameIndices(s, r, t, n);
    }
    AscendingUnique(a, b);
    forall i | 0 <= i < |r|
      ensures r[i] == t[i]
    {
      assert r[i] == s[a[i]] && t[i] == s[b[i]];
    }
  }

  ghost function Indices<T>(s: seq<T>, r: seq<T>): (a: seq<nat>)
    requires InOrderOf(s, r)
    ensures |a| == |r| && StrictlyAscending(a) && forall i :: 0 <= i < |a| ==> a[i] == FirstIndex(s, r[i])
  {
    seq(|r|, i requires 0 <= i < |r| => FirstIndex(s, r[i]))
  }

  lemma SameIndices<T>(s: seq<T>, r: seq<T>, t: seq<T>, n: nat)
    requires InOrderOf(s, r) && InOrderOf(s, t) && forall x :: x in r <==> x in t
    ensures n in Indices(s, r) <==> n in Indices(s, t)
  {
    if n in Indices(s, r) {
      var i :| 0 <= i < |r| && Indices(s, r)[i] == n;
      assert r[i] in t;
      var j :| 0 <= j < |t| && t[j] == r[i];
      assert Indices(s, t)[j] == n;
    }
    if n in Indices(s, t) {
      var j :| 0 <= j < |t| && Indices(s, t)[j] == n;
      assert t[j] in r;
      var i :| 0 <= i < |r| && r[i] == t[j];
      assert Indices(s, r)[i] == n;
    }
  }
}
