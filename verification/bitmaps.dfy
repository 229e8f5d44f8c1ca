/**
  Bit arrays packed in 64-bit words: which positions are set, how many lie below a
  position (the rank), and the two array primitives of the program, setBit and bitSet.
*/
module Bitmaps {
  import opened Words

  predicate BitAt(words: seq<UInt64>, p: nat)
  {
    p < 64 * |words| && Bit(words[p / 64], p % 64)
  }

  // Position p is digit p mod 64 of word p / 64, counted from the least significant one.
  lemma BitAtIsQuotient(words: seq<UInt64>, p: nat)
    ensures BitAt(words, p) <==> p / 64 < |words| && words[p / 64] / Pow2(p % 64) % 2 == 1
  {
    if p / 64 < |words| {
      BitIsQuotient(words[p / 64], p % 64);
    }
  }

  // Number of set positions below pos.
  function CountBelow(words: seq<UInt64>, pos: nat): (c: nat)
    ensures c <= pos
  {
    if pos == 0 then 0 else CountBelow(words, pos - 1) + Digit(BitAt(words, pos - 1))
  }

  function CountAll(words: seq<UInt64>): nat { WordsCount(words, |words|) }

  ghost function SetPositions(words: seq<UInt64>): set<nat>
  {
    SetBelow(words, 64 * |words|)
  }

  // ----- the primitives

  method SetBit(words: array<UInt64>, p: nat)
    requires p < 64 * words.Length
    modifies words
    ensures forall q: nat :: BitAt(words[..], q) <==> q == p || BitAt(old(words[..]), q)
  {
    ghost var before := words[..];
    words[p / 64] := Or(words[p / 64], Shl(1, p % 64));
    SetBitEffect(before, words[..], p);
  }

  lemma SetBitEffect(before: seq<UInt64>, after: seq<UInt64>, p: nat)
    requires p < 64 * |before|
    requires after == before[p / 64 := Or(before[p / 64], Shl(1, p % 64))]
    ensures forall q: nat :: BitAt(after, q) <==> q == p || BitAt(before, q)
  {
    forall q: nat
      ensures BitAt(after, q) <==> q == p || BitAt(before, q)
    {
      ShlOne(p % 64);
      BitOfPow2(p % 64, q % 64);
      BitOr(before[p / 64], Pow2(p % 64), q % 64);
    }
  }

  method TestBit(words: array<UInt64>, p: nat) returns (b: bool)
    requires p < 64 * words.Length
    ensures b <==> BitAt(words[..], p)
  {
    b := And(words[p / 64], Shl(1, p % 64)) != 0;
    ShlOne(p % 64);
    AndPow2(words[p / 64], p % 64);
  }

  // ----- counting

  lemma {:induction false} CountWithinWord(words: seq<UInt64>, w: nat, off: nat)
    requires w < |words| && off <= 64
    ensures CountBelow(words, 64 * w + off) == CountBelow(words, 64 * w) + BitCount(words[w], off)
  {
    if off == 0 {
    } else {
      CountWithinWord(words, w, off - 1);
      var p := 64 * w + off - 1;
      assert p / 64 == w && p % 64 == off - 1;
    }
  }

  // Set positions in the first w words, a word at a time.
  function WordsCount(words: seq<UInt64>, w: nat): nat
    requires w <= |words|
  {
    if w == 0 then 0 else WordsCount(words, w - 1) + PopCount(words[w - 1])
  }

  lemma {:induction false} WordsCountIsRank(words: seq<UInt64>, w: nat)
    requires w <= |words|
    ensures WordsCount(words, w) == CountBelow(words, 64 * w)
  {
    if w == 0 {
    } else {
      WordsCountIsRank(words, w - 1);
      CountWithinWord(words, w - 1, 64);
    }
  }

  lemma {:induction false} WordsCountMonotone(words: seq<UInt64>, v: nat, w: nat)
    requires v <= w <= |words|
    ensures WordsCount(words, v) <= WordsCount(words, w)
  {
    if v == w {
    } else {
      WordsCountMonotone(words, v, w - 1);
    }
  }

  // The digits of word w below off, counted through a mask, complete the rank.
  lemma PartialWordRank(words: seq<UInt64>, w: nat, off: nat)
    requires w < |words| && off < 64
    ensures CountBelow(words, 64 * w + off) == WordsCount(words, w) + PopCount(And(words[w], Pow2(off) - 1))
  {
    PopCountOfMasked(words[w], off);
    CountWithinWord(words, w, off);
    WordsCountIsRank(words, w);
  }

  lemma {:induction false} RankMonotone(words: seq<UInt64>, p: nat, q: nat)
    requires p <= q
    ensures CountBelow(words, p) <= CountBelow(words, q)
  {
    if p == q {
    } else {
      RankMonotone(words, p, q - 1);
    }
  }

  lemma RankWithinTotal(words: seq<UInt64>, p: nat)
    requires p <= 64 * |words|
    ensures CountBelow(words, p) <= CountAll(words)
  {
    RankMonotone(words, p, 64 * |words|);
    WordsCountIsRank(words, |words|);
  }

  // Rank separates set positions.
  lemma RankInjective(words: seq<UInt64>, p: nat, q: nat)
    requires BitAt(words, p) && p < q
    ensures CountBelow(words, p) < CountBelow(words, q)
  {
    assert CountBelow(words, p + 1) == CountBelow(words, p) + 1;
    RankMonotone(words, p + 1, q);
  }

  // Every number below the total is the rank of a set position.
  lemma {:induction false} RankOnto(words: seq<UInt64>, n: nat, id: nat) returns (p: nat)
    requires id < CountBelow(words, n)
    ensures p < n && BitAt(words, p) && CountBelow(words, p) == id
  {
    if id < CountBelow(words, n - 1) {
      p := RankOnto(words, n - 1, id);
    } else {
      p := n - 1;
    }
  }

  ghost function SetBelow(words: seq<UInt64>, n: nat): set<nat>
  {
    set p: nat | 0 <= p < n && BitAt(words, p)
  }

  lemma {:induction false} CountIsCardinality(words: seq<UInt64>, n: nat)
    ensures |SetBelow(words, n)| == CountBelow(words, n)
  {
    if n == 0 {
    } else {
      CountIsCardinality(words, n - 1);
      SetBelowStep(words, n - 1);
    }
  }

  lemma SetBelowStep(words: seq<UInt64>, n: nat)
    ensures n !in SetBelow(words, n)
    ensures SetBelow(words, n + 1) == SetBelow(words, n) + (if BitAt(words, n) then {n} else {})
  {
  }

  lemma CountAllIsCardinality(words: seq<UInt64>)
    ensures |SetPositions(words)| == CountAll(words)
  {
    CountIsCardinality(words, 64 * |words|);
    WordsCountIsRank(words, |words|);
  }

  // ----- bits set in two arrays

  // Bits set in both arrays, over their common length.
  function AndCount(a: seq<UInt64>, b: seq<UInt64>): nat
  {
    if a == [] || b == [] then 0
    else PopCount(And(a[0], b[0])) + AndCount(a[1..], b[1..])
  }

  lemma AndCountCons(x: UInt64, y: UInt64, a: seq<UInt64>, b: seq<UInt64>)
    ensures AndCount([x] + a, [y] + b) == PopCount(And(x, y)) + AndCount(a, b)
  {
    assert ([x] + a)[1..] == a && ([y] + b)[1..] == b;
  }

  lemma {:induction false} AndCountConcat(a: seq<UInt64>, b: seq<UInt64>, c: seq<UInt64>, d: seq<UInt64>)
    requires |a| == |b|
    ensures AndCount(a + c, b + d) == AndCount(a, b) + AndCount(c, d)
    decreases |a|
  {
    if a == [] {
      assert a + c == c && b + d == d;
    } else {
      AndCountConcat(a[1..], b[1..], c, d);
      assert a + c == [a[0]] + (a[1..] + c) && b + d == [b[0]] + (b[1..] + d);
      AndCountCons(a[0], b[0], a[1..] + c, b[1..] + d);
    }
  }

  function Shorter(a: seq<UInt64>, b: seq<UInt64>): nat { if |b| < |a| then |b| else |a| }

  function AndWords(a: seq<UInt64>, b: seq<UInt64>): (r: seq<UInt64>)
    ensures |r| == Shorter(a, b) && forall i :: 0 <= i < |r| ==> r[i] == And(a[i], b[i])
  {
    seq(Shorter(a, b), i requires 0 <= i < Shorter(a, b) => And(a[i], b[i]))
  }

  lemma AndCountSnoc(a: seq<UInt64>, b: seq<UInt64>, n: nat)
    requires n < |a| && n < |b|
    ensures AndCount(a[..n + 1], b[..n + 1]) == AndCount(a[..n], b[..n]) + PopCount(And(a[n], b[n]))
  {
    assert a[..n + 1] == a[..n] + [a[n]] && b[..n + 1] == b[..n] + [b[n]];
    AndCountConcat(a[..n], b[..n], [a[n]], [b[n]]);
    assert [a[n]][1..] == [];
  }

  lemma AndCountOfPrefix(a: seq<UInt64>, b: seq<UInt64>, n: nat)
    requires n <= |a| && n <= |b|
    ensures AndCount(a[..n], b[..n]) == WordsCount(AndWords(a, b), n)
  {
    CommonWordsCount(a, b, AndWords(a, b), n);
  }

  lemma {:induction false} CommonWordsCount(a: seq<UInt64>, b: seq<UInt64>, common: seq<UInt64>, n: nat)
    requires n <= |a| && n <= |b| && n <= |common|
    requires forall i {:trigger common[i]} :: 0 <= i < n ==> common[i] == And(a[i], b[i])
    ensures AndCount(a[..n], b[..n]) == WordsCount(common, n)
  {
    if n == 0 {
    } else {
      CommonWordsCount(a, b, common, n - 1);
      CommonWordsNext(a, b, common, n - 1);
    }
  }

  lemma CommonWordsNext(a: seq<UInt64>, b: seq<UInt64>, common: seq<UInt64>, n: nat)
    requires n < |a| && n < |b| && n < |common| && common[n] == And(a[n], b[n])
    requires AndCount(a[..n], b[..n]) == WordsCount(common, n)
    ensures AndCount(a[..n + 1], b[..n + 1]) == WordsCount(common, n + 1)
  {
    AndCountSnoc(a, b, n);
  }

  lemma AndCountOfShorter(a: seq<UInt64>, b: seq<UInt64>)
    ensures var n := Shorter(a, b); AndCount(a, b) == AndCount(a[..n], b[..n])
  {
    var n := Shorter(a, b);
    assert a == a[..n] + a[n..] && b == b[..n] + b[n..];
    AndCountConcat(a[..n], b[..n], a[n..], b[n..]);
  }

  ghost function CommonPositions(a: seq<UInt64>, b: seq<UInt64>): set<nat>
  {
    SetPositions(a) * SetPositions(b)
  }

  lemma BitAtAnd(a: seq<UInt64>, b: seq<UInt64>, p: nat)
    ensures BitAt(AndWords(a, b), p) <==> BitAt(a, p) && BitAt(b, p)
  {
    if p < 64 * Shorter(a, b) {
      BitAnd(a[p / 64], b[p / 64], p % 64);
    }
  }

  lemma InSetPositions(words: seq<UInt64>, p: nat)
    ensures p in SetPositions(words) <==> BitAt(words, p)
  {
  }

  lemma PositionsOfAnd(a: seq<UInt64>, b: seq<UInt64>)
    ensures SetPositions(AndWords(a, b)) == CommonPositions(a, b)
  {
    forall p: nat
      ensures p in SetPositions(AndWords(a, b)) <==> p in SetPositions(a) && p in SetPositions(b)
    {
      BitAtAnd(a, b, p);
      InSetPositions(AndWords(a, b), p);
      InSetPositions(a, p);
      InSetPositions(b, p);
    }
  }

  // The count of the conjunction is the size of the intersection.
  lemma AndCountIsCardinality(a: seq<UInt64>, b: seq<UInt64>)
    ensures AndCount(a, b) == |CommonPositions(a, b)|
  {
    AndCountOfShorter(a, b);
    AndCountOfPrefix(a, b, Shorter(a, b));
    CountAllIsCardinality(AndWords(a, b));
    PositionsOfAnd(a, b);
  }
}
