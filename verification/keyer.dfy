/**
  The exact dictionary from terms to dense IDs, built over a positional hash that is not
  injective: colliding terms walk a chain of candidate keys, the keys are numbered by the
  perfect hash, and the stored term is compared on every lookup.

  The positional hash is a field, so everything holds whatever it computes.
*/
module Keyers {
  import opened Words
  import opened Options
  import opened Dedup
  import opened Tables
  import opened CHDs
  import opened Sets
  import opened Sorting
  import Mixers

  type Term = string

  const MAX_PROBE: nat := 16
  const SMALL_MAX: nat := 4096
  const KEYS_PER_BUCKET: real := 3.0
  const BUILD_SEED: UInt64 := 0xADDB

  datatype KeyerError =
    | ProbeOverflow(term: Term)
    | HashFailed
    | NoTerm(id: nat)

  // The three hash functions the dictionary is built on.
  datatype Hashes = Hashes(positional: Term -> UInt64,
                           candidate: (UInt64, UInt64) -> UInt64,
                           mix: UInt64 -> UInt64)

  // The ones of the program, over any positional hash.
  function ProgramHashes(positional: Term -> UInt64): Hashes
  {
    Hashes(positional, Mixers.Candidate, Mixers.Mix)
  }

  // The key tried for a term at a given probe: its hash first, then the candidates.
  function Probe(hash: Hashes, t: Term, probe: nat): UInt64
    requires probe <= MAX_PROBE
  {
    if probe == 0 then hash.positional(t) else hash.candidate(hash.positional(t), probe)
  }

  // The first n candidates of a term.
  ghost function Offered(base: UInt64, n: nat): set<UInt64>
    requires n <= MAX_PROBE
  {
    if n == 0 then {} else Offered(base, n - 1) + {Mixers.Candidate(base, n)}
  }

  lemma {:induction false} OfferedAre(base: UInt64, n: nat, k: UInt64) returns (i: UInt64)
    requires n <= MAX_PROBE && k in Offered(base, n)
    ensures 1 <= i <= n && k == Mixers.Candidate(base, i)
  {
    if k == Mixers.Candidate(base, n) {
      i := n;
    } else {
      i := OfferedAre(base, n - 1, k);
    }
  }

  lemma {:induction false} OfferedSize(base: UInt64, n: nat)
    requires n <= MAX_PROBE
    ensures |Offered(base, n)| == n
  {
    if n == 0 {
    } else {
      OfferedSize(base, n - 1);
      if Mixers.Candidate(base, n) in Offered(base, n - 1) {
        var i := OfferedAre(base, n - 1, Mixers.Candidate(base, n));
        Mixers.CandidatesDistinct(base, i, n);
      }
    }
  }

  // A chain of the program never repeats a candidate: it is full only when sixteen different
  // keys are taken.
  lemma FullChainTakesSixteen(positional: Term -> UInt64, t: Term, taken: seq<UInt64>)
    requires ChainFull(ProgramHashes(positional), t, taken)
    ensures |taken| >= 16
  {
    var base := positional(t);
    OfferedSize(base, MAX_PROBE);
    forall k | k in Offered(base, MAX_PROBE)
      ensures k in taken
    {
      var i := OfferedAre(base, MAX_PROBE, k);
      assert k == Probe(ProgramHashes(positional), t, i);
    }
    DistinctWithin(Offered(base, MAX_PROBE), taken);
  }

  lemma {:induction false} DistinctWithin(keys: set<UInt64>, s: seq<UInt64>)
    requires forall k :: k in keys ==> k in s
    ensures |keys| <= |s|
    decreases |s|
  {
    if s == [] {
      assert keys == {};
    } else {
      var last := s[|s| - 1];
      assert s == s[..|s| - 1] + [last];
      DistinctWithin(keys - {last}, s[..|s| - 1]);
    }
  }

  // t gets the first key of its chain that is not among the keys already taken.
  ghost predicate FirstFree(hash: Hashes, t: Term, taken: seq<UInt64>, key: UInt64, probe: nat)
  {
    && probe <= 16 && key == Probe(hash, t, probe) && key !in taken
    && forall q :: 0 <= q < probe ==> Probe(hash, t, q) in taken
  }

  ghost predicate ChainFull(hash: Hashes, t: Term, taken: seq<UInt64>)
  {
    forall q :: 0 <= q <= 16 ==> Probe(hash, t, q) in taken
  }

  // keys[i] is the key of term i, at the given probe of its chain.
  ghost predicate Keyed(hash: Hashes, terms: seq<Term>, keys: seq<UInt64>, probes: seq<nat>)
  {
    && |keys| == |probes| <= |terms|
    && forall i :: 0 <= i < |keys| ==> FirstFree(hash, terms[i], keys[..i], keys[i], probes[i])
  }

  lemma KeyedDistinct(hash: Hashes, terms: seq<Term>, keys: seq<UInt64>, probes: seq<nat>)
    requires Keyed(hash, terms, keys, probes)
    ensures Distinct(keys)
  {
    forall i, j | 0 <= i < j < |keys|
      ensures keys[i] != keys[j]
    {
      assert keys[j] !in keys[..j];
      assert keys[..j][i] == keys[i];
    }
  }

  lemma KeyedStep(hash: Hashes, terms: seq<Term>, keys: seq<UInt64>, probes: seq<nat>, key: UInt64, probe: nat)
    requires Keyed(hash, terms, keys, probes) && |keys| < |terms|
    requires FirstFree(hash, terms[|keys|], keys, key, probe)
    ensures Keyed(hash, terms, keys + [key], probes + [probe])
  {
    forall i | 0 <= i < |keys| + 1
      ensures FirstFree(hash, terms[i], (keys + [key])[..i], (keys + [key])[i], (probes + [probe])[i])
    {
      assert (keys + [key])[..i] == keys[..i];
      assert keys[..|keys|] == keys;
    }
  }

  // How many terms needed a candidate.
  function Moved(probes: seq<nat>): nat
  {
    if probes == [] then 0
    else Moved(probes[..|probes| - 1]) + (if probes[|probes| - 1] > 0 then 1 else 0)
  }

  // They are the indices whose probe is not the first.
  lemma {:induction false} MovedIsCount(probes: seq<nat>)
    ensures Moved(probes) == |set i | 0 <= i < |probes| && probes[i] > 0|
    decreases |probes|
  {
    var moved := set i | 0 <= i < |probes| && probes[i] > 0;
    if probes == [] {
      assert moved == {};
    } else {
      var n := |probes| - 1;
      MovedIsCount(probes[..n]);
      assert moved == (set i | 0 <= i < n && probes[..n][i] > 0) + (if probes[n] > 0 then {n} else {});
    }
  }

  // longest is the greatest of the probes, or zero if there are none.
  ghost predicate Longest(probes: seq<nat>, longest: nat)
  {
    && (forall i :: 0 <= i < |probes| ==> probes[i] <= longest)
    && (longest == 0 || longest in probes)
  }

  // The probe statistics of a vocabulary whose terms all have their keys.
  ghost predicate Accounted(hash: Hashes, unique: seq<Term>, maxProbe: nat, collisions: nat)
  {
    exists keys, probes ::
      && Keyed(hash, unique, keys, probes) && |keys| == |unique|
      && Longest(probes, maxProbe)
      && collisions == |set i | 0 <= i < |probes| && probes[i] > 0|
  }

  lemma AccountedBy(hash: Hashes, unique: seq<Term>, keys: seq<UInt64>, probes: seq<nat>, longest: nat, moved: nat)
    requires Keyed(hash, unique, keys, probes) && |keys| == |unique|
    requires Longest(probes, longest) && moved == Moved(probes)
    ensures Accounted(hash, unique, longest, moved)
  {
    MovedIsCount(probes);
  }

  lemma AccountStep(probes: seq<nat>, longest: nat, probe: nat)
    requires Longest(probes, longest)
    ensures Longest(probes + [probe], if probe > longest then probe else longest)
    ensures Moved(probes + [probe]) == Moved(probes) + (if probe > 0 then 1 else 0)
  {
    assert (probes + [probe])[..|probes|] == probes;
    if probe <= longest && longest > 0 {
      assert longest in probes;
    }
  }

  // Some probe within the bound numbers this term id.
  ghost predicate Reachable(t: Table, hash: Hashes, maxProbe: nat, term: Term, id: nat)
    requires t.m > 0 ==> t.nb > 0
    requires maxProbe <= MAX_PROBE
  {
    exists p :: 0 <= p <= maxProbe && t.Find(Probe(hash, term, p)) == Some(id)
  }

  // None of the first upto probes numbers this term id.
  ghost predicate Missed(t: Table, hash: Hashes, term: Term, id: nat, upto: nat)
    requires t.m > 0 ==> t.nb > 0
    requires upto <= MAX_PROBE + 1
  {
    upto > 0 ==> Missed(t, hash, term, id, upto - 1) && t.Find(Probe(hash, term, upto - 1)) != Some(id)
  }

  lemma {:induction false} MissedAll(t: Table, hash: Hashes, term: Term, id: nat, upto: nat, p: nat)
    requires t.m > 0 ==> t.nb > 0
    requires p < upto <= MAX_PROBE + 1 && Missed(t, hash, term, id, upto)
    ensures t.Find(Probe(hash, term, p)) != Some(id)
  {
    if p == upto - 1 {
    } else {
      MissedAll(t, hash, term, id, upto - 1, p);
    }
  }

  lemma MissedIsUnreachable(t: Table, hash: Hashes, term: Term, id: nat, maxProbe: nat)
    requires t.m > 0 ==> t.nb > 0
    requires maxProbe <= MAX_PROBE && Missed(t, hash, term, id, maxProbe + 1)
    ensures !Reachable(t, hash, maxProbe, term, id)
  {
    forall p | 0 <= p <= maxProbe
      ensures t.Find(Probe(hash, term, p)) != Some(id)
    {
      MissedAll(t, hash, term, id, maxProbe + 1, p);
    }
  }

  class Keyer {
    const hash: Hashes
    var c: CHD?
    var small: Option<map<Term, nat>>
    var terms: seq<Term>
    var maxProbe: nat
    var collisions: nat

    ghost function Parts(): set<object?>
      reads this, c
    {
      if c == null then {} else {c, c.gpack, c.words, c.l1}
    }

    // The terms are distinct, and each is found under its position.
    ghost predicate Valid()
      reads this, c, Parts()
    {
      && Distinct(terms) && |terms| < 0x8000_0000 && maxProbe <= MAX_PROBE
      && match small
         case Some(m) =>
           && (forall t :: t in m <==> t in terms)
           && (forall i :: 0 <= i < |terms| ==> terms[i] in m && m[terms[i]] == i)
         case None =>
           if c == null then terms == []
           else
             && c.Valid()
             && forall i :: 0 <= i < |terms| ==> Reachable(c.View(), hash, maxProbe, terms[i], i)
    }

    constructor Empty(hash: Hashes)
      ensures Valid() && terms == [] && this.hash == hash && small == None && c == null
      ensures maxProbe == collisions == 0
    {
      this.hash := hash;
      c, small, terms, maxProbe, collisions := null, None, [], 0, 0;
    }

    // ----- queries

    method Lookup(term: Term) returns (id: nat, ok: bool)
      requires Valid()
      ensures ok <==> term in terms
      ensures ok ==> id < |terms| && terms[id] == term
      ensures forall i :: 0 <= i < |terms| && terms[i] == term ==> ok && id == i
      ensures !ok ==> id == 0
    {
      if small.Some? {
        if term in small.value {
          ghost var i :| 0 <= i < |terms| && terms[i] == term;
          return small.value[term], true;
        }
        return 0, false;
      }
      if c == null {
        return 0, false;
      }
      id, ok := ProbeChain(term);
    }

    // One probe: a hit on the number of another term is passed over.
    method TryProbe(term: Term, probe: nat) returns (id: nat, hit: bool)
      requires c != null && c.Valid() && probe <= MAX_PROBE
      ensures hit ==> id < |terms| && terms[id] == term
      ensures !hit ==> forall i :: 0 <= i < |terms| && terms[i] == term ==>
                                     c.View().Find(Probe(hash, term, probe)) != Some(i)
    {
      var found, ok := c.Lookup(Probe(hash, term, probe));
      hit := ok && found < |terms| && terms[found] == term;
      id := found;
    }

    // Replay the chain of the term.
    method ProbeChain(term: Term) returns (id: nat, ok: bool)
      requires c != null && c.Valid() && maxProbe <= MAX_PROBE
      requires forall i :: 0 <= i < |terms| ==> Reachable(c.View(), hash, maxProbe, terms[i], i)
      ensures ok <==> term in terms
      ensures ok ==> id < |terms| && terms[id] == term
      ensures !ok ==> id == 0
    {
      ghost var at: nat := if term in terms then var i :| 0 <= i < |terms| && terms[i] == term; i else |terms|;
      id, ok := ProbeAll(term, at);
      if !ok && at < |terms| {
        MissedIsUnreachable(c.View(), hash, term, at, maxProbe);
        assert false;
      }
    }

    // The loop over the chain; at is where the term is listed, if it is.
    method ProbeAll(term: Term, ghost at: nat) returns (id: nat, ok: bool)
      requires c != null && c.Valid() && maxProbe <= MAX_PROBE
      ensures ok ==> id < |terms| && terms[id] == term
      ensures !ok ==> id == 0
      ensures !ok && at < |terms| && terms[at] == term ==> Missed(c.View(), hash, term, at, maxProbe + 1)
    {
      for probe := 0 to maxProbe + 1
        invariant at < |terms| && terms[at] == term ==> Missed(c.View(), hash, term, at, probe)
      {
        var found, hit := TryProbe(term, probe);
        if hit {
          return found, true;
        }
      }
      return 0, false;
    }

    method TermOf(id: nat) returns (term: Term, ok: bool)
      ensures ok <==> id < |terms|
      ensures term == if ok then terms[id] else ""
    {
      if id >= |terms| {
        return "", false;
      }
      return terms[id], true;
    }

    // The IDs of the listed terms that are indexed, and the others in the order listed.
    method IDSet(asked: seq<Term>) returns (s: Set, missing: seq<Term>)
      requires Valid()
      ensures fresh(s) && s.Valid()
      ensures forall id: UInt64 :: id in s.Contents() <==> id < |terms| && terms[id] in asked
      ensures MissingFrom(asked, terms, missing)
      ensures forall t :: multiset(missing)[t] == if t in terms then 0 else multiset(asked)[t]
    {
      var ids: seq<UInt64> := [];
      missing := [];
      for i := 0 to |asked|
        invariant forall id: UInt64 :: id in ids <==> id < |terms| && terms[id] in asked[..i]
        invariant missing == NotAmong(asked[..i], terms)
      {
        NotAmongStep(asked, terms, i);
        ids, missing := PutTerm(asked, i, ids, missing);
      }
      assert asked[..|asked|] == asked;
      NotAmongIsMissing(asked, terms);
      NotAmongMultiset(asked, terms);
      s := new Set(ids);
    }

    // One term of the list.
    method PutTerm(asked: seq<Term>, i: nat, ids: seq<UInt64>, missing: seq<Term>)
      returns (more: seq<UInt64>, rest: seq<Term>)
      requires Valid() && i < |asked|
      requires forall id: UInt64 :: id in ids <==> id < |terms| && terms[id] in asked[..i]
      ensures forall id: UInt64 :: id in more <==> id < |terms| && terms[id] in asked[..i + 1]
      ensures rest == if asked[i] in terms then missing else missing + [asked[i]]
    {
      assert asked[..i + 1] == asked[..i] + [asked[i]];
      var id, ok := Lookup(asked[i]);
      if ok {
        more, rest := ids + [id], missing;
      } else {
        more, rest := ids, missing + [asked[i]];
      }
    }

    // ----- construction

    static method BuildKeyer(hash: Hashes, input: seq<Term>) returns (r: Result<Keyer, KeyerError>)
      requires |input| < 0x8000_0000
      ensures r.Ok? ==> r.value.Valid() && r.value.hash == hash
      ensures r.Ok? ==> forall t :: t in r.value.terms <==> t in input
      ensures |FirstOccurrences(input)| <= 4096 ==>
                r.Ok? && r.value.terms == FirstOccurrences(input) && r.value.maxProbe == r.value.collisions == 0
      ensures |FirstOccurrences(input)| > 4096 && r.Ok? ==>
                "" !in input && Accounted(hash, FirstOccurrences(input), r.value.maxProbe, r.value.collisions)
                && SizedFor(r.value.c, hash, |FirstOccurrences(input)|)
      ensures r.Err? ==> Justified(hash, input, r.error)
      ensures forall t :: |FirstOccurrences(input)| > 4096 && Overflows(hash, FirstOccurrences(input), t) ==>
                            r == Err(ProbeOverflow(t))
    {
      var unique := FirstOf(input);
      FirstOccurrencesDistinct(input);
      var k := new Keyer.Empty(hash);
      if |unique| == 0 {
        return Ok(k);
      }
      if |unique| <= SMALL_MAX {
        k.IndexSmall(unique);
        return Ok(k);
      }
      var e;
      ghost var keys, probes;
      e, keys, probes := k.IndexLarge(unique);
      if e == None {
        AccountedBy(hash, unique, keys, probes, k.maxProbe, k.collisions);
      }
      return if e == None then Ok(k) else Err(e.value);
    }

    method IndexSmall(unique: seq<Term>)
      requires Valid() && small == None && Distinct(unique) && |unique| < 0x8000_0000
      modifies this`terms, this`small
      ensures Valid() && terms == unique
    {
      var m: map<Term, nat> := map[];
      for i := 0 to |unique|
        invariant forall t :: t in m <==> t in unique[..i]
        invariant forall j :: 0 <= j < i ==> m[unique[j]] == j
      {
        m := m[unique[i] := i];
      }
      assert unique[..|unique|] == unique;
      terms := unique;
      small := Some(m);
    }

    method IndexLarge(unique: seq<Term>)
      returns (e: Option<KeyerError>, ghost keys: seq<UInt64>, ghost probes: seq<nat>)
      requires Valid() && small == None && terms == [] && c == null && maxProbe == 0
      requires 0 < |unique| < 0x8000_0000 && Distinct(unique)
      modifies this
      ensures e == None ==> Valid() && "" !in terms && forall t :: t in terms <==> t in unique
      ensures e == None ==> Keyed(hash, unique, keys, probes) && |keys| == |unique|
      ensures e == None ==> Longest(probes, maxProbe) && collisions == Moved(probes)
      ensures e == None ==> SizedFor(c, hash, |unique|)
      ensures e.Some? ==> FailureOf(hash, unique, e.value)
      ensures forall t :: Overflows(hash, unique, t) ==> e == Some(ProbeOverflow(t))
    {
      var given, longest, moved, chd;
      given, longest, moved, probes, chd, e := HashTerms(hash, unique);
      keys := given;
      if e.Some? {
        return;
      }
      var byId;
      byId, e := NumberTerms(chd, given, unique);
      if e.Some? {
        return;
      }
      NumberedReachable(chd.View(), hash, longest, keys, unique, probes, byId);
      Adopt(chd, byId, longest, moved);
    }

    // Install the numbered terms and the perfect hash.
    method Adopt(chd: CHD, byId: seq<Term>, longest: nat, moved: nat)
      requires small == None && Distinct(byId) && |byId| < 0x8000_0000 && longest <= MAX_PROBE && chd.Valid()
      requires forall i :: 0 <= i < |byId| ==> Reachable(chd.View(), hash, longest, byId[i], i)
      modifies this
      ensures Valid() && c == chd && terms == byId && maxProbe == longest && collisions == moved
    {
      c, maxProbe, collisions, terms := chd, longest, moved, byId;
    }
  }

  // The sizes for any vocabulary fit 32 bits.
  lemma SizesFit(n: nat)
    requires n < 0x8000_0000
    ensures TableSlots(n, KEYS_PER_BUCKET, DEFAULT_EPSILON) < 0x1_0000_0000
  {
    assert n as real / 3.0 <= n as real;
    assert n as real * (1.0 + 0.23) <= n as real * 1.5;
  }

  // Keys are assigned in one way only.
  lemma {:induction false} KeyedUnique(hash: Hashes, terms: seq<Term>, keys: seq<UInt64>, probes: seq<nat>,
                                       keys2: seq<UInt64>, probes2: seq<nat>, n: nat)
    requires Keyed(hash, terms, keys, probes) && Keyed(hash, terms, keys2, probes2)
    requires n <= |keys| && n <= |keys2|
    ensures SameFirst(keys, keys2, n)
  {
    if n == 0 {
    } else {
      KeyedUnique(hash, terms, keys, probes, keys2, probes2, n - 1);
      NextKeyUnique(hash, terms, keys, probes, keys2, probes2, n - 1);
    }
  }

  ghost predicate SameFirst(keys: seq<UInt64>, keys2: seq<UInt64>, n: nat)
  {
    n <= |keys| && n <= |keys2| && (n > 0 ==> keys[n - 1] == keys2[n - 1] && SameFirst(keys, keys2, n - 1))
  }

  lemma {:induction false} SameFirstSlices(keys: seq<UInt64>, keys2: seq<UInt64>, n: nat)
    requires SameFirst(keys, keys2, n)
    ensures keys[..n] == keys2[..n]
  {
    if n == 0 {
    } else {
      SameFirstSlices(keys, keys2, n - 1);
      assert keys[..n] == keys[..n - 1] + [keys[n - 1]] && keys2[..n] == keys2[..n - 1] + [keys2[n - 1]];
    }
  }

  lemma FirstFreeUnique(hash: Hashes, t: Term, taken: seq<UInt64>, key: UInt64, probe: nat, key2: UInt64, probe2: nat)
    requires FirstFree(hash, t, taken, key, probe) && FirstFree(hash, t, taken, key2, probe2)
    ensures key == key2 && probe == probe2
  {
  }

  lemma NextKeyUnique(hash: Hashes, terms: seq<Term>, keys: seq<UInt64>, probes: seq<nat>,
                      keys2: seq<UInt64>, probes2: seq<nat>, n: nat)
    requires Keyed(hash, terms, keys, probes) && Keyed(hash, terms, keys2, probes2)
    requires n < |keys| && n < |keys2| && SameFirst(keys, keys2, n)
    ensures keys[n] == keys2[n]
  {
    SameFirstSlices(keys, keys2, n);
    assert FirstFree(hash, terms[n], keys[..n], keys[n], probes[n]);
    assert FirstFree(hash, terms[n], keys2[..n], keys2[n], probes2[n]);
    FirstFreeUnique(hash, terms[n], keys[..n], keys[n], probes[n], keys2[n], probes2[n]);
  }

  // A run of keys that stops at a full chain is as long as any other.
  lemma StuckIsLongest(hash: Hashes, unique: seq<Term>, keys: seq<UInt64>, probes: seq<nat>,
                       keys2: seq<UInt64>, probes2: seq<nat>)
    requires Keyed(hash, unique, keys, probes) && Keyed(hash, unique, keys2, probes2)
    requires |keys| < |unique| && ChainFull(hash, unique[|keys|], keys)
    ensures |keys2| <= |keys|
  {
    if |keys| < |keys2| {
      KeyedUnique(hash, unique, keys, probes, keys2, probes2, |keys|);
      SameFirstSlices(keys, keys2, |keys|);
    }
  }

  // Assigning keys stops at the term that overflows, if there is one.
  lemma OverflowIsStuck(hash: Hashes, unique: seq<Term>, keys: seq<UInt64>, probes: seq<nat>, t: Term)
    requires Keyed(hash, unique, keys, probes)
    requires |keys| < |unique| ==> ChainFull(hash, unique[|keys|], keys)
    requires Overflows(hash, unique, t)
    ensures |keys| < |unique| && unique[|keys|] == t
  {
    var keys2, probes2 :| Keyed(hash, unique, keys2, probes2)
                          && |keys2| < |unique| && unique[|keys2|] == t && ChainFull(hash, t, keys2);
    StuckIsLongest(hash, unique, keys2, probes2, keys, probes);
    if |keys| < |unique| {
      StuckIsLongest(hash, unique, keys, probes, keys2, probes2);
    }
  }

  // The perfect hash of a vocabulary: three terms a bucket, 23 % spare slots, and the fixed seed.
  ghost predicate SizedFor(c: CHD?, hash: Hashes, n: nat)
    reads c
  {
    && c != null && c.mix == hash.mix && c.seed1 == 0xADDB
    && c.N == n && c.NB == BucketsFor(n, 3.0) && c.M == TableSlots(n, 3.0, 0.23)
  }

  // The keys of the terms and the perfect hash over them.
  method HashTerms(hash: Hashes, unique: seq<Term>)
    returns (keys: seq<UInt64>, longest: nat, moved: nat, ghost probes: seq<nat>, chd: CHD?, e: Option<KeyerError>)
    requires |unique| < 0x8000_0000
    ensures e.Some? ==> FailureOf(hash, unique, e.value)
    ensures forall t :: Overflows(hash, unique, t) ==> e == Some(ProbeOverflow(t))
    ensures e == None ==>
              && Keyed(hash, unique, keys, probes) && |keys| == |unique| && longest <= MAX_PROBE
              && Longest(probes, longest) && moved == Moved(probes)
              && chd != null && chd.Valid() && Perfect(chd.View(), keys)
    ensures e == None && unique != [] ==> SizedFor(chd, hash, |unique|)
  {
    var stuck;
    keys, longest, moved, stuck, probes := AssignKeys(hash, unique);
    forall t | Overflows(hash, unique, t)
      ensures stuck == Some(t)
    {
      OverflowIsStuck(hash, unique, keys, probes, t);
    }
    if stuck.Some? {
      return keys, longest, moved, probes, null, Some(ProbeOverflow(stuck.value));
    }
    SizesFit(|keys|);
    var built := CHD.Build(hash.mix, keys, KEYS_PER_BUCKET, BUILD_SEED);
    if built == None {
      return keys, longest, moved, probes, null, Some(HashFailed);
    }
    return keys, longest, moved, probes, built.value, None;
  }

  // The terms by number; an empty one is taken for a missing one.
  method NumberTerms(c: CHD, keys: seq<UInt64>, unique: seq<Term>) returns (byId: seq<Term>, e: Option<KeyerError>)
    requires c.Valid() && Perfect(c.View(), keys) && |keys| == |unique| && Distinct(unique)
    ensures e.Some? ==> e.value.NoTerm?
    ensures e == None <==> "" !in unique
    ensures e == None ==> Numbered(c.View(), keys, unique, byId) && Distinct(byId) && |byId| == |unique|
    ensures e == None ==> forall t :: t in byId <==> t in unique
  {
    byId := TermsById(c, keys, unique);
    NumberedTerms(c.View(), keys, unique, byId);
    for id := 0 to |byId|
      invariant "" !in byId[..id]
    {
      if byId[id] == "" {
        return byId, Some(NoTerm(id));
      }
    }
    assert byId[..|byId|] == byId;
    e := None;
  }

  // The listed terms that are not indexed, in order.
  function NotAmong(asked: seq<Term>, terms: seq<Term>): seq<Term>
  {
    if asked == [] then []
    else
      var init, t := asked[..|asked| - 1], asked[|asked| - 1];
      NotAmong(init, terms) + (if t in terms then [] else [t])
  }

  // missing lists what asked has at the ascending positions of all terms that are not indexed.
  ghost predicate MissingFrom(asked: seq<Term>, terms: seq<Term>, missing: seq<Term>)
  {
    exists at: seq<nat> :: MissingAt(asked, terms, missing, at)
  }

  ghost predicate MissingAt(asked: seq<Term>, terms: seq<Term>, missing: seq<Term>, at: seq<nat>)
  {
    && |at| == |missing| && StrictlyAscending(at)
    && (forall i :: 0 <= i < |at| ==> at[i] < |asked| && missing[i] == asked[at[i]])
    && (forall p: nat :: p in at <==> p < |asked| && asked[p] !in terms)
  }

  lemma {:induction false} NotAmongIsMissing(asked: seq<Term>, terms: seq<Term>)
    ensures MissingFrom(asked, terms, NotAmong(asked, terms))
    decreases |asked|
  {
    if asked == [] {
      assert MissingAt(asked, terms, [], []);
    } else {
      var n := |asked| - 1;
      NotAmongIsMissing(asked[..n], terms);
      var at :| MissingAt(asked[..n], terms, NotAmong(asked[..n], terms), at);
      MissingNext(asked, terms, NotAmong(asked[..n], terms), at, n);
    }
  }

  lemma MissingNext(asked: seq<Term>, terms: seq<Term>, missing: seq<Term>, at: seq<nat>, n: nat)
    requires |asked| == n + 1 && MissingAt(asked[..n], terms, missing, at)
    ensures MissingFrom(asked, terms, missing + if asked[n] in terms then [] else [asked[n]])
  {
    assert forall i :: 0 <= i < |at| ==> at[i] in at && asked[..n][at[i]] == asked[at[i]];
    if asked[n] in terms {
      assert MissingAt(asked, terms, missing + [], at);
    } else {
      assert MissingAt(asked, terms, missing + [asked[n]], at + [n]);
    }
  }

  // As often as asked for, for terms that are not indexed, and never for others.
  lemma {:induction false} NotAmongMultiset(asked: seq<Term>, terms: seq<Term>)
    ensures forall t :: multiset(NotAmong(asked, terms))[t] == if t in terms then 0 else multiset(asked)[t]
    decreases |asked|
  {
    if asked == [] {
    } else {
      var n := |asked| - 1;
      NotAmongMultiset(asked[..n], terms);
      assert asked == asked[..n] + [asked[n]];
    }
  }

  lemma NotAmongStep(asked: seq<Term>, terms: seq<Term>, i: nat)
    requires i < |asked|
    ensures NotAmong(asked[..i + 1], terms) ==
            if asked[i] in terms then NotAmong(asked[..i], terms) else NotAmong(asked[..i], terms) + [asked[i]]
  {
    assert asked[..i + 1][..i] == asked[..i];
    assert NotAmong(asked[..i], terms) + [] == NotAmong(asked[..i], terms);
  }

  // The term stored under each number.
  method TermsById(c: CHD, keys: seq<UInt64>, unique: seq<Term>) returns (byId: seq<Term>)
    requires c.Valid() && Perfect(c.View(), keys) && |keys| == |unique|
    ensures Numbered(c.View(), keys, unique, byId)
  {
    ghost var view := c.View();
    ghost var ids := IdsOf(view, keys);
    var slots := new Term[|unique|](i => "");
    for i := 0 to |keys|
      invariant forall j :: 0 <= j < i ==> slots[ids[j]] == unique[j]
    {
      var id, ok := NumberOf(c, keys, ids, i);
      slots[id] := unique[i];
    }
    byId := slots[..];
  }

  // Every key has its number, so the error branch for a key without one is dead.
  method NumberOf(c: CHD, keys: seq<UInt64>, ghost ids: seq<nat>, i: nat) returns (id: nat, ok: bool)
    requires c.Valid() && Perfect(c.View(), keys) && i < |keys| == |ids|
    requires ids[i] == IdOf(c.View(), keys, i)
    ensures ok && id == ids[i]
  {
    id, ok := c.Lookup(keys[i]);
  }

  lemma IdsOf(t: Table, keys: seq<UInt64>) returns (ids: seq<nat>)
    requires Perfect(t, keys)
    ensures |ids| == |keys| && Distinct(ids)
    ensures forall i :: 0 <= i < |keys| ==> ids[i] == IdOf(t, keys, i)
  {
    ids := seq(|keys|, i requires 0 <= i < |keys| => IdOf(t, keys, i));
    forall i, k | 0 <= i < k < |keys|
      ensures ids[i] != ids[k]
    {
      assert t.Find(keys[i]) != t.Find(keys[k]);
    }
  }

  // The number of key i.
  ghost function IdOf(t: Table, keys: seq<UInt64>, i: nat): (id: nat)
    requires Perfect(t, keys) && i < |keys|
    ensures id < |keys|
  {
    t.Find(keys[i]).value
  }

  ghost predicate Numbered(t: Table, keys: seq<UInt64>, unique: seq<Term>, byId: seq<Term>)
    requires Perfect(t, keys) && |keys| == |unique|
  {
    |byId| == |keys| && forall i :: 0 <= i < |keys| ==> byId[IdOf(t, keys, i)] == unique[i]
  }

  // The stored terms are the given ones, each once.
  lemma NumberedTerms(t: Table, keys: seq<UInt64>, unique: seq<Term>, byId: seq<Term>)
    requires Perfect(t, keys) && |keys| == |unique| && Distinct(unique)
    requires Numbered(t, keys, unique, byId)
    ensures Distinct(byId)
    ensures forall x :: x in byId <==> x in unique
  {
    forall id, id2 | 0 <= id < id2 < |byId|
      ensures byId[id] != byId[id2]
    {
      var i := KeyOfId(t, keys, id);
      var k := KeyOfId(t, keys, id2);
      assert unique[i] != unique[k];
    }
    forall x
      ensures x in byId <==> x in unique
    {
      if x in byId {
        var id :| 0 <= id < |byId| && byId[id] == x;
        var i := KeyOfId(t, keys, id);
      }
      if x in unique {
        var i :| 0 <= i < |unique| && unique[i] == x;
        assert byId[IdOf(t, keys, i)] == x;
      }
    }
  }

  lemma KeyOfId(t: Table, keys: seq<UInt64>, id: nat) returns (i: nat)
    requires Perfect(t, keys) && id < |keys|
    ensures i < |keys| && t.Find(keys[i]) == Some(id) && IdOf(t, keys, i) == id
  {
    assert Assigned(t, keys, id);
    i :| 0 <= i < |keys| && t.Find(keys[i]) == Some(id);
  }

  // Every stored term is reached by replaying its chain.
  lemma NumberedReachable(t: Table, hash: Hashes, maxProbe: nat, keys: seq<UInt64>, unique: seq<Term>,
                          probes: seq<nat>, byId: seq<Term>)
    requires Perfect(t, keys) && |keys| == |unique| && Numbered(t, keys, unique, byId)
    requires Keyed(hash, unique, keys, probes)
    requires maxProbe <= MAX_PROBE && forall i :: 0 <= i < |probes| ==> probes[i] <= maxProbe
    ensures forall id :: 0 <= id < |byId| ==> Reachable(t, hash, maxProbe, byId[id], id)
  {
    forall id | 0 <= id < |byId|
      ensures Reachable(t, hash, maxProbe, byId[id], id)
    {
      var i := KeyOfId(t, keys, id);
      assert FirstFree(hash, unique[i], keys[..i], keys[i], probes[i]);
      assert t.Find(Probe(hash, byId[id], probes[i])) == Some(id);
    }
  }

  // Why a large vocabulary is rejected.
  ghost predicate FailureOf(hash: Hashes, unique: seq<Term>, e: KeyerError)
  {
    match e
    case ProbeOverflow(t) => Overflows(hash, unique, t)
    case HashFailed =>
      exists keys, probes :: Keyed(hash, unique, keys, probes) && KeysExhausted(hash, unique, keys)
    case NoTerm(_) => "" in unique
  }

  ghost predicate KeysExhausted(hash: Hashes, unique: seq<Term>, keys: seq<UInt64>)
  {
    && |keys| == |unique|
    && Exhausted(hash.mix, TableSlots(|keys|, 3.0, 0.23), BucketsFor(|keys|, 3.0), 0xADDB, keys)
  }

  // The whole chain of t is taken by the keys of the terms before it.
  ghost predicate Overflows(hash: Hashes, unique: seq<Term>, t: Term)
  {
    exists keys, probes ::
      && Keyed(hash, unique, keys, probes)
      && |keys| < |unique| && unique[|keys|] == t
      && ChainFull(hash, t, keys)
  }

  ghost predicate Justified(hash: Hashes, input: seq<Term>, e: KeyerError)
  {
    && |FirstOccurrences(input)| > 4096
    && FailureOf(hash, FirstOccurrences(input), e)
  }

  // So the first sixteen terms of a vocabulary always get their keys.
  lemma OverflowIsLate(positional: Term -> UInt64, unique: seq<Term>, t: Term)
    requires Overflows(ProgramHashes(positional), unique, t)
    ensures exists i :: 16 <= i < |unique| && unique[i] == t
  {
    var keys, probes :| Keyed(ProgramHashes(positional), unique, keys, probes)
                        && |keys| < |unique| && unique[|keys|] == t
                        && ChainFull(ProgramHashes(positional), t, keys);
    FullChainTakesSixteen(positional, t, keys);
  }

  // The first occurrences, through a set of terms already seen.
  method FirstOf(input: seq<Term>) returns (unique: seq<Term>)
    ensures unique == FirstOccurrences(input)
  {
    var seen: set<Term> := {};
    unique := [];
    for i := 0 to |input|
      invariant forall t :: t in seen <==> t in input[..i]
      invariant unique == FirstOccurrences(input[..i])
    {
      FirstOccurrencesStep(input, i);
      if input[i] !in seen {
        seen := seen + {input[i]};
        unique := unique + [input[i]];
      }
    }
    assert input[..|input|] == input;
  }

  // The first free key of one chain.
  method FreeKey(hash: Hashes, t: Term, taken: set<UInt64>, ghost keys: seq<UInt64>)
    returns (key: UInt64, probe: nat, ok: bool)
    requires forall k :: k in taken <==> k in keys
    ensures ok ==> FirstFree(hash, t, keys, key, probe)
    ensures !ok ==> ChainFull(hash, t, keys)
  {
    probe := 0;
    key := hash.positional(t);
    while key in taken
      invariant probe <= MAX_PROBE && key == Probe(hash, t, probe)
      invariant forall q :: 0 <= q < probe ==> Probe(hash, t, q) in keys
      decreases MAX_PROBE - probe
    {
      probe := probe + 1;
      if probe > MAX_PROBE {
        return key, probe, false;
      }
      key := hash.candidate(hash.positional(t), probe);
    }
    ok := true;
  }

  // One more term in the statistics.
  method Account(longest: nat, moved: nat, probe: nat, ghost probes: seq<nat>) returns (longest2: nat, moved2: nat)
    requires Longest(probes, longest) && moved == Moved(probes)
    ensures Longest(probes + [probe], longest2) && moved2 == Moved(probes + [probe])
    ensures longest2 == longest || longest2 == probe
  {
    AccountStep(probes, longest, probe);
    longest2, moved2 := longest, moved;
    if probe > longest {
      longest2 := probe;
    }
    if probe > 0 {
      moved2 := moved + 1;
    }
  }

  // A distinct key for every term, or the first term whose chain is full.
  method AssignKeys(hash: Hashes, unique: seq<Term>)
    returns (keys: seq<UInt64>, longest: nat, moved: nat, stuck: Option<Term>, ghost probes: seq<nat>)
    ensures Keyed(hash, unique, keys, probes)
    ensures longest <= MAX_PROBE && Longest(probes, longest) && moved == Moved(probes)
    ensures stuck == None ==> |keys| == |unique|
    ensures stuck.Some? ==> |keys| < |unique| && stuck.value == unique[|keys|] && ChainFull(hash, stuck.value, keys)
  {
    var taken: set<UInt64> := {};
    keys, longest, moved, stuck, probes := [], 0, 0, None, [];
    for i := 0 to |unique|
      invariant |keys| == i && Keyed(hash, unique, keys, probes)
      invariant forall k :: k in taken <==> k in keys
      invariant longest <= MAX_PROBE && Longest(probes, longest) && moved == Moved(probes)
    {
      var key, probe, ok := FreeKey(hash, unique[i], taken, keys);
      if !ok {
        return keys, longest, moved, Some(unique[i]), probes;
      }
      KeyedStep(hash, unique, keys, probes, key, probe);
      taken := taken + {key};
      keys := keys + [key];
      longest, moved := Account(longest, moved, probe, probes);
      probes := probes + [probe];
    }
  }
}
