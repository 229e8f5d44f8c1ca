/**
  The public set of IDs: additions are appended, and the first query afterwards sorts the
  list and drops repetitions in place.  Every query answers for the mathematical set.
*/
module Sets {
  import opened Words
  import opened Sorting
  import opened SetOps
  import opened Searches

  class Set {
    var ids: seq<UInt64>
    var sorted: bool

    ghost predicate Valid()
      reads this
    {
      sorted ==> StrictlyAscending(ids)
    }

    ghost function Contents(): set<UInt64>
      reads this
    {
      Elements(ids)
    }

    constructor (given: seq<UInt64>)
      ensures Valid() && Contents() == Elements(given)
      ensures forall x :: x in Contents() <==> x in given
    {
      ids, sorted := [], false;
      new;
      Add(given);
    }

    constructor Sorted(given: seq<UInt64>)
      requires StrictlyAscending(given)
      ensures Valid() && ids == given && sorted
    {
      ids, sorted := given, true;
    }

    method Add(given: seq<UInt64>)
      requires Valid()
      modifies this
      ensures Valid() && Contents() == old(Contents()) + Elements(given)
      ensures forall x :: x in Contents() <==> x in old(Contents()) || x in given
    {
      if |given| == 0 {
        return;
      }
      ids := ids + given;
      sorted := false;
    }

    method Finalize()
      requires Valid()
      modifies this
      ensures Valid() && sorted && Contents() == old(Contents())
      ensures old(sorted) ==> ids == old(ids)
    {
      if sorted {
        return;
      }
      ids := SortWords(ids);
      Compact();
      sorted := true;
    }

    // Drop repetitions from the sorted list, in place: the kept front ends before the cursor.
    method Compact()
      requires Ascending(ids)
      modifies this`ids
      ensures StrictlyAscending(ids) && Elements(ids) == Elements(old(ids))
    {
      ghost var ordered := ids;
      var w := 0;
      for i := 0 to |ids|
        invariant Compacting(ids, ordered, w, i)
      {
        CompactNext(ids, ordered, w, i);
        if w == 0 || ids[i] != ids[w - 1] {
          ids := ids[w := ids[i]];
          w := w + 1;
        }
      }
      assert ordered[..|ordered|] == ordered;
      ids := ids[..w];
    }

    method Len() returns (n: nat)
      requires Valid()
      modifies this
      ensures Valid() && Contents() == old(Contents()) && n == |Contents()|
    {
      Finalize();
      NoLonger(ids, ids);
      n := |ids|;
    }

    method Has(id: UInt64) returns (b: bool)
      requires Valid()
      modifies this
      ensures Valid() && Contents() == old(Contents()) && (b <==> id in Contents())
    {
      Finalize();
      b := ContainsSorted(ids, id);
    }

    method IDs() returns (out: seq<UInt64>)
      requires Valid()
      modifies this
      ensures Valid() && Contents() == old(Contents())
      ensures StrictlyAscending(out) && forall x :: x in out <==> x in Contents()
    {
      Finalize();
      out := ids;
    }
  }

  function SortWords(s: seq<UInt64>): (r: seq<UInt64>)
    ensures Ascending(r)
    ensures forall x :: x in r <==> x in s
  {
    var r := SortNumbers(s);
    MultisetOfElements(r, s);
    assert forall i :: 0 <= i < |r| ==> r[i] in s;
    r
  }

  // kept is what remains of the first i sorted entries without repetitions.
  ghost predicate Kept(ordered: seq<UInt64>, i: nat, kept: seq<UInt64>)
  {
    && i <= |ordered| && StrictlyAscending(kept)
    && Elements(kept) == Elements(ordered[..i])
    && (kept != [] ==> i > 0 && kept[|kept| - 1] == ordered[i - 1])
  }

  lemma SameNext(s: seq<UInt64>, t: seq<UInt64>, i: nat)
    requires i < |s| && |t| == |s| && s[i..] == t[i..]
    ensures s[i] == t[i] && s[i + 1..] == t[i + 1..]
  {
    assert s[i] == s[i..][0] && t[i] == t[i..][0];
    assert s[i + 1..] == s[i..][1..] && t[i + 1..] == t[i..][1..];
  }

  // Writing behind the cursor extends the front and leaves what is still to be read.
  lemma OverwriteNext(s: seq<UInt64>, w: nat, i: nat)
    requires w <= i < |s|
    ensures s[w := s[i]][..w + 1] == s[..w] + [s[i]]
    ensures s[w := s[i]][i + 1..] == s[i + 1..]
  {
  }

  // The front of the list is what remains of the first i entries; the rest is still to be read.
  ghost predicate Compacting(ids: seq<UInt64>, ordered: seq<UInt64>, w: nat, i: nat)
  {
    && w <= i <= |ids| == |ordered|
    && ids[i..] == ordered[i..] && Kept(ordered, i, ids[..w])
  }

  lemma CompactNext(ids: seq<UInt64>, ordered: seq<UInt64>, w: nat, i: nat)
    requires Ascending(ordered) && i < |ids| && Compacting(ids, ordered, w, i)
    ensures if w == 0 || ids[i] != ids[w - 1] then Compacting(ids[w := ids[i]], ordered, w + 1, i + 1)
            else Compacting(ids, ordered, w, i + 1)
  {
    SameNext(ids, ordered, i);
    KeptNext(ordered, i, ids[..w]);
    OverwriteNext(ids, w, i);
  }

  // An entry unlike the last one kept is above all kept so far; an equal one adds nothing.
  lemma KeptNext(ordered: seq<UInt64>, i: nat, kept: seq<UInt64>)
    requires Ascending(ordered) && i < |ordered| && Kept(ordered, i, kept)
    ensures Kept(ordered, i + 1,
                 if kept == [] || ordered[i] != kept[|kept| - 1] then kept + [ordered[i]] else kept)
  {
    ElementsSnoc(ordered, i);
    if kept == [] || ordered[i] != kept[|kept| - 1] {
      assert Elements(kept + [ordered[i]]) == Elements(kept) + {ordered[i]};
    } else {
      assert ordered[i] in Elements(kept);
      assert Elements(kept) + {ordered[i]} == Elements(kept);
    }
  }

  // The sorted IDs of all the sets, each set normalised on the way.
  method AllIDs(sets: seq<Set>) returns (raw: seq<seq<UInt64>>)
    requires forall k :: 0 <= k < |sets| ==> sets[k].Valid()
    modifies sets
    ensures |raw| == |sets|
    ensures forall k :: 0 <= k < |sets| ==> sets[k].Valid() && sets[k].Contents() == old(sets[k].Contents())
    ensures forall k :: 0 <= k < |sets| ==>
              StrictlyAscending(raw[k]) && forall x :: x in raw[k] <==> x in old(sets[k].Contents())
  {
    raw := [];
    for i := 0 to |sets|
      invariant |raw| == i
      invariant forall k :: 0 <= k < |sets| ==> sets[k].Valid() && sets[k].Contents() == old(sets[k].Contents())
      invariant forall k :: 0 <= k < i ==>
                  StrictlyAscending(raw[k]) && forall x :: x in raw[k] <==> x in old(sets[k].Contents())
    {
      var ids := sets[i].IDs();
      raw := raw + [ids];
    }
  }

  // The elements in all of the sets; none when there are no sets.
  method Intersect(sets: seq<Set>) returns (r: Set)
    requires forall k :: 0 <= k < |sets| ==> sets[k].Valid()
    modifies sets
    ensures fresh(r) && r.Valid()
    ensures forall k :: 0 <= k < |sets| ==> sets[k].Valid() && sets[k].Contents() == old(sets[k].Contents())
    ensures forall x: UInt64 :: x in r.Contents() <==>
              |sets| > 0 && forall k :: 0 <= k < |sets| ==> x in old(sets[k].Contents())
  {
    if |sets| == 0 {
      r := new Set.Sorted([]);
      return;
    }
    var raw := AllIDs(sets);
    var common := IntersectMany(raw);
    CommonElements(raw, common);
    r := new Set.Sorted(common);
  }

  lemma CommonElements(raw: seq<seq<UInt64>>, common: seq<UInt64>)
    requires |raw| > 0 && forall k :: 0 <= k < |raw| ==> StrictlyAscending(raw[k])
    requires Ascending(common) && multiset(common) == Meet(raw, |raw|)
    ensures StrictlyAscending(common)
    ensures forall x: UInt64 :: x in common <==> forall k :: 0 <= k < |raw| ==> x in raw[k]
  {
    forall x: UInt64
      ensures x in common <==> forall k :: 0 <= k < |raw| ==> x in raw[k]
    {
      MeetOfSets(raw, |raw|, x);
      assert x in common <==> x in multiset(common);
    }
    forall i, j | 0 <= i < j < |common|
      ensures common[i] < common[j]
    {
      MeetOfSets(raw, |raw|, common[i]);
      if common[i] == common[j] {
        TwiceInMultiset(common, i, j);
      }
    }
  }

  // The elements in any of the sets.
  method Union(sets: seq<Set>) returns (r: Set)
    requires forall k :: 0 <= k < |sets| ==> sets[k].Valid()
    modifies sets
    ensures fresh(r) && r.Valid()
    ensures forall k :: 0 <= k < |sets| ==> sets[k].Valid() && sets[k].Contents() == old(sets[k].Contents())
    ensures forall x: UInt64 :: x in r.Contents() <==>
              exists k :: 0 <= k < |sets| && x in old(sets[k].Contents())
  {
    var raw := AllIDs(sets);
    var all: seq<UInt64> := [];
    for i := 0 to |raw|
      invariant forall x: UInt64 :: x in all <==> exists k :: 0 <= k < i && x in raw[k]
    {
      all := all + raw[i];
    }
    r := new Set([]);
    r.ids := all;
    r.sorted := false;
    r.Finalize();
  }
}
