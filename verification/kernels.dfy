/**
  The bit kernels: three extractors of set positions and two conjunction counts, each
  fast form proved equal to the same simple meaning.
*/
module Kernels {
  import opened Words
  import opened Bitmaps
  import opened Sorting
  import opened Sums

  // ----- the meaning

  // The set positions below n, in ascending order.
  function PositionsBelow(words: seq<UInt64>, n: nat): seq<nat>
  {
    if n == 0 then [] else PositionsBelow(words, n - 1) + (if BitAt(words, n - 1) then [n - 1] else [])
  }

  function Extracted(words: seq<UInt64>): seq<nat> { PositionsBelow(words, 64 * |words|) }

  lemma {:induction false} PositionsElements(words: seq<UInt64>, n: nat, p: nat)
    ensures p in PositionsBelow(words, n) <==> p < n && BitAt(words, p)
  {
    if n == 0 {
    } else {
      PositionsElements(words, n - 1, p);
    }
  }

  lemma {:induction false} PositionsLength(words: seq<UInt64>, n: nat)
    ensures |PositionsBelow(words, n)| == CountBelow(words, n)
  {
    if n == 0 {
    } else {
      PositionsLength(words, n - 1);
    }
  }

  lemma {:induction false} PositionsAscend(words: seq<UInt64>, n: nat)
    ensures StrictlyAscending(PositionsBelow(words, n))
  {
    if n == 0 {
    } else {
      PositionsAscend(words, n - 1);
      var before := PositionsBelow(words, n - 1);
      forall p | p in before
        ensures p < n - 1
      {
        PositionsElements(words, n - 1, p);
      }
      AppendPosition(before, n - 1);
    }
  }

  lemma AppendPosition(s: seq<nat>, p: nat)
    requires StrictlyAscending(s) && forall q :: q in s ==> q < p
    ensures StrictlyAscending(s + [p]) && s + [] == s
  {
    assert forall i :: 0 <= i < |s| ==> s[i] in s;
  }

  // The list is strictly ascending, holds exactly the set positions, and is as long as
  // the population count.
  lemma PositionsAreExact(words: seq<UInt64>, n: nat)
    ensures StrictlyAscending(PositionsBelow(words, n))
    ensures forall p: nat :: p in PositionsBelow(words, n) <==> p < n && BitAt(words, p)
    ensures |PositionsBelow(words, n)| == CountBelow(words, n)
  {
    PositionsAscend(words, n);
    PositionsLength(words, n);
    forall p: nat
      ensures p in PositionsBelow(words, n) <==> p < n && BitAt(words, p)
    {
      PositionsElements(words, n, p);
    }
  }

  // Any strictly ascending list of exactly the set positions is the one extracted.
  lemma ExtractedIsUnique(words: seq<UInt64>, list: seq<nat>)
    requires StrictlyAscending(list) && forall p: nat :: p in list <==> BitAt(words, p)
    ensures list == Extracted(words) && |list| == CountAll(words)
  {
    PositionsAreExact(words, 64 * |words|);
    WordsCountIsRank(words, |words|);
    AscendingUnique(list, Extracted(words));
  }

  lemma PositionsFit(words: seq<UInt64>, n: nat)
    requires n <= 64 * |words|
    ensures |PositionsBelow(words, n)| <= CountAll(words)
  {
    PositionsAreExact(words, n);
    RankWithinTotal(words, n);
  }

  lemma {:induction false} NoPositionBetween(words: seq<UInt64>, lo: nat, hi: nat)
    requires lo <= hi && forall p :: lo <= p < hi ==> !BitAt(words, p)
    ensures PositionsBelow(words, hi) == PositionsBelow(words, lo)
  {
    if lo == hi {
    } else {
      NoPositionBetween(words, lo, hi - 1);
    }
  }

  // ----- the lowest set digit

  function TrailingZeros(w: nat): nat
    requires w > 0
  {
    if w % 2 == 1 then 0 else 1 + TrailingZeros(w / 2)
  }

  lemma {:induction false} LowestDigit(w: nat, j: nat)
    requires w > 0
    ensures Bit(w, TrailingZeros(w))
    ensures j < TrailingZeros(w) ==> !Bit(w, j)
    ensures Bit(w - 1, j) == (j < TrailingZeros(w) || (j > TrailingZeros(w) && Bit(w, j)))
  {
    if w % 2 == 1 {
      assert (w - 1) / 2 == w / 2;
    } else {
      assert (w - 1) / 2 == w / 2 - 1;
      LowestDigit(w / 2, if j == 0 then 0 else j - 1);
    }
  }

  // w & (w - 1) clears the lowest set digit and nothing else.
  lemma ClearLowest(w: nat, j: nat)
    requires w > 0
    ensures Bit(And(w, w - 1), j) <==> Bit(w, j) && j != TrailingZeros(w)
  {
    BitAnd(w, w - 1, j);
    LowestDigit(w, j);
  }

  lemma LowestInWord(w: UInt64)
    requires w > 0
    ensures TrailingZeros(w) < 64 && Bit(w, TrailingZeros(w))
    ensures forall j: nat :: j < TrailingZeros(w) ==> !Bit(w, j)
    ensures forall j: nat :: Bit(And(w, w - 1), j) <==> Bit(w, j) && j != TrailingZeros(w)
  {
    LowestDigit(w, 0);
    if TrailingZeros(w) >= 64 {
      WordBits(w, TrailingZeros(w));
    }
    forall j: nat
      ensures j < TrailingZeros(w) ==> !Bit(w, j)
      ensures Bit(And(w, w - 1), j) <==> Bit(w, j) && j != TrailingZeros(w)
    {
      LowestDigit(w, j);
      ClearLowest(w, j);
    }
  }

  // w holds the digits of word i that are at or above q.
  ghost predicate Remaining(w: nat, word: nat, q: nat)
  {
    forall j: nat :: Bit(w, j) <==> q <= j && Bit(word, j)
  }

  // Taking the lowest remaining digit of word i extends the list by one position.
  lemma TakeLowest(words: seq<UInt64>, i: nat, w: UInt64, q: nat)
    requires i < |words| && q <= 64 && w > 0 && Remaining(w, words[i], q)
    ensures var p := TrailingZeros(w);
            && q <= p < 64
            && PositionsBelow(words, 64 * i + p + 1) == PositionsBelow(words, 64 * i + q) + [64 * i + p]
            && Remaining(And(w, w - 1), words[i], p + 1)
  {
    var p := TrailingZeros(w);
    LowestInWord(w);
    RemainingAfter(w, words[i], q);
    SkipDigits(words, i, w, q);
    PositionHere(words, i, p);
  }

  lemma SkipDigits(words: seq<UInt64>, i: nat, w: UInt64, q: nat)
    requires i < |words| && q <= 64 && w > 0 && Remaining(w, words[i], q)
    requires q <= TrailingZeros(w) < 64
    ensures PositionsBelow(words, 64 * i + TrailingZeros(w)) == PositionsBelow(words, 64 * i + q)
  {
    forall k | 64 * i + q <= k < 64 * i + TrailingZeros(w)
      ensures !BitAt(words, k)
    {
      assert k / 64 == i && k % 64 == k - 64 * i;
      LowestDigit(w, k % 64);
    }
    NoPositionBetween(words, 64 * i + q, 64 * i + TrailingZeros(w));
  }

  lemma PositionHere(words: seq<UInt64>, i: nat, p: nat)
    requires i < |words| && p < 64 && Bit(words[i], p)
    ensures PositionsBelow(words, 64 * i + p + 1) == PositionsBelow(words, 64 * i + p) + [64 * i + p]
  {
    assert (64 * i + p) / 64 == i && (64 * i + p) % 64 == p;
  }

  lemma RemainingAfter(w: UInt64, word: nat, q: nat)
    requires w > 0 && Remaining(w, word, q)
    ensures q <= TrailingZeros(w) && Bit(word, TrailingZeros(w))
    ensures Remaining(And(w, w - 1), word, TrailingZeros(w) + 1)
  {
    var p, v := TrailingZeros(w), And(w, w - 1);
    LowestInWord(w);
    assert Bit(w, p) <==> q <= p && Bit(word, p);
    forall j: nat
      ensures Bit(v, j) <==> p + 1 <= j && Bit(word, j)
    {
      assert Bit(w, j) <==> q <= j && Bit(word, j);
      LowestDigit(w, j);
    }
  }

  // When nothing remains, the list reaches the end of the word.
  lemma NothingRemains(words: seq<UInt64>, i: nat, q: nat)
    requires i < |words| && q <= 64 && Remaining(0, words[i], q)
    ensures PositionsBelow(words, 64 * (i + 1)) == PositionsBelow(words, 64 * i + q)
  {
    forall k | 64 * i + q <= k < 64 * (i + 1)
      ensures !BitAt(words, k)
    {
      assert k / 64 == i && k % 64 == k - 64 * i;
      BitOfZero(k % 64);
    }
    NoPositionBetween(words, 64 * i + q, 64 * (i + 1));
  }

  // ----- extractors

  // The reference double loop.
  method ExtractSet(words: seq<UInt64>) returns (positions: seq<nat>)
    ensures positions == Extracted(words)
  {
    positions := [];
    for i := 0 to |words|
      invariant positions == PositionsBelow(words, 64 * i)
    {
      var word := words[i];
      if word == 0 {
        NothingRemains(words, i, 0);
        continue;
      }
      for j := 0 to 64
        invariant positions == PositionsBelow(words, 64 * i + j)
      {
        TestDigit(words, i, j);
        if And(word, Shl(1, j)) != 0 {
          positions := positions + [i * 64 + j];
        }
      }
    }
  }

  // Testing one digit with a shifted one decides whether its position is listed.
  lemma TestDigit(words: seq<UInt64>, i: nat, j: nat)
    requires i < |words| && j < 64
    ensures PositionsBelow(words, 64 * i + j + 1) ==
            PositionsBelow(words, 64 * i + j) + (if And(words[i], Shl(1, j)) != 0 then [64 * i + j] else [])
  {
    ShlOne(j);
    AndPow2(words[i], j);
    assert (64 * i + j) / 64 == i && (64 * i + j) % 64 == j;
  }

  // Trailing zeros and w & (w - 1), appending.
  method ExtractTrailing(words: seq<UInt64>) returns (out: seq<nat>)
    ensures out == Extracted(words)
  {
    out := [];
    for i := 0 to |words|
      invariant out == PositionsBelow(words, 64 * i)
    {
      var w := words[i];
      ghost var q: nat := 0;
      while w != 0
        invariant q <= 64 && Remaining(w, words[i], q)
        invariant out == PositionsBelow(words, 64 * i + q)
        decreases w
      {
        TakeLowest(words, i, w, q);
        var p := TrailingZeros(w);
        out := out + [i * 64 + p];
        w := And(w, w - 1);
        q := p + 1;
      }
      NothingRemains(words, i, q);
    }
  }

  // The first cnt entries of out are the set positions below n.
  ghost predicate Written(words: seq<UInt64>, n: nat, out: array<nat>, cnt: nat)
    reads out
  {
    cnt <= out.Length && out[..cnt] == PositionsBelow(words, n)
  }

  // The inner loop of the C kernels: the digits of one word, written to the output.
  method WriteWord(words: seq<UInt64>, i: nat, out: array<nat>, start: nat) returns (cnt: nat)
    requires i < |words| && CountAll(words) <= out.Length && Written(words, 64 * i, out, start)
    modifies out
    ensures Written(words, 64 * (i + 1), out, cnt)
  {
    cnt := start;
    var w := words[i];
    ghost var q: nat := 0;
    while w != 0
      invariant q <= 64 && Remaining(w, words[i], q)
      invariant Written(words, 64 * i + q, out, cnt)
      decreases w
    {
      w, q := WriteLowest(words, i, w, q, out, cnt);
      cnt := cnt + 1;
    }
    NothingRemains(words, i, q);
  }

  // The lowest digit of the word, and the word without it.
  method WriteLowest(words: seq<UInt64>, i: nat, w: UInt64, ghost q: nat, out: array<nat>, cnt: nat)
    returns (rest: UInt64, ghost next: nat)
    requires i < |words| && CountAll(words) <= out.Length && Written(words, 64 * i + q, out, cnt)
    requires q <= 64 && w > 0 && Remaining(w, words[i], q)
    modifies out
    ensures rest < w && next <= 64 && Remaining(rest, words[i], next)
    ensures Written(words, 64 * i + next, out, cnt + 1)
  {
    TakeInto(words, i, w, q, cnt, out.Length);
    var p := TrailingZeros(w);
    ghost var before := out[..cnt];
    out[cnt] := i * 64 + p;
    assert out[..cnt + 1] == before + [i * 64 + p];
    rest, next := And(w, w - 1), p + 1;
  }

  // The output has room for the digit taken.
  lemma TakeInto(words: seq<UInt64>, i: nat, w: UInt64, q: nat, cnt: nat, room: nat)
    requires i < |words| && q <= 64 && w > 0 && Remaining(w, words[i], q)
    requires CountAll(words) <= room && cnt == |PositionsBelow(words, 64 * i + q)|
    ensures cnt < room
    ensures var p := TrailingZeros(w);
            && q <= p < 64
            && PositionsBelow(words, 64 * i + (p + 1)) == PositionsBelow(words, 64 * i + q) + [i * 64 + p]
            && Remaining(And(w, w - 1), words[i], p + 1)
  {
    TakeLowest(words, i, w, q);
    PositionsFit(words, 64 * i + TrailingZeros(w) + 1);
  }

  method ExtractScalar(words: seq<UInt64>, out: array<nat>) returns (cnt: nat)
    requires CountAll(words) <= out.Length
    modifies out
    ensures cnt <= out.Length && out[..cnt] == Extracted(words)
  {
    cnt := 0;
    for i := 0 to |words|
      invariant Written(words, 64 * i, out, cnt)
    {
      cnt := WriteWord(words, i, out, cnt);
    }
  }

  // Which of the k words from i on are not zero, one digit each.
  function NonZeroMask(words: seq<UInt64>, i: nat, k: nat): nat
    requires i + k <= |words|
    decreases k
  {
    if k == 0 then 0 else Digit(words[i] != 0) + 2 * NonZeroMask(words, i + 1, k - 1)
  }

  lemma {:induction false} MaskDigit(words: seq<UInt64>, i: nat, k: nat, b: nat)
    requires i + k <= |words|
    ensures Bit(NonZeroMask(words, i, k), b) <==> b < k && words[i + b] != 0
    decreases k
  {
    if k == 0 {
      BitOfZero(b);
    } else if b > 0 {
      MaskDigit(words, i + 1, k - 1, b - 1);
    }
  }

  // m marks the words of the block that are not zero and at or after c.
  ghost predicate Marked(words: seq<UInt64>, i: nat, m: nat, c: nat)
    requires i + 8 <= |words|
  {
    forall b: nat :: Bit(m, b) <==> c <= b < 8 && words[i + b] != 0
  }

  // Words that are skipped hold no position.
  lemma {:induction false} SkipZeroWords(words: seq<UInt64>, lo: nat, hi: nat)
    requires lo <= hi <= |words| && forall i :: lo <= i < hi ==> words[i] == 0
    ensures PositionsBelow(words, 64 * hi) == PositionsBelow(words, 64 * lo)
  {
    if lo == hi {
    } else {
      SkipZeroWords(words, lo, hi - 1);
      NothingRemains(words, hi - 1, 0);
    }
  }

  lemma NextMarked(words: seq<UInt64>, i: nat, m: nat, c: nat)
    requires i + 8 <= |words| && c <= 8 && m > 0 && Marked(words, i, m, c)
    ensures var b := TrailingZeros(m);
            && c <= b < 8
            && PositionsBelow(words, 64 * (i + b)) == PositionsBelow(words, 64 * (i + c))
            && Marked(words, i, And(m, m - 1), b + 1)
  {
    var b := TrailingZeros(m);
    LowestDigit(m, 0);
    DropMark(words, i, m, c);
    forall k | i + c <= k < i + b
      ensures words[k] == 0
    {
      LowestDigit(m, k - i);
    }
    SkipZeroWords(words, i + c, i + b);
  }

  lemma DropMark(words: seq<UInt64>, i: nat, m: nat, c: nat)
    requires i + 8 <= |words| && c <= 8 && m > 0 && Marked(words, i, m, c)
    ensures TrailingZeros(m) < 8 && Marked(words, i, And(m, m - 1), TrailingZeros(m) + 1)
  {
    var b := TrailingZeros(m);
    LowestDigit(m, 0);
    forall j: nat {:trigger Bit(And(m, m - 1), j)}
      ensures Bit(And(m, m - 1), j) <==> b + 1 <= j < 8 && words[i + j] != 0
    {
      LowestDigit(m, j);
      ClearLowest(m, j);
    }
  }

  lemma NoneMarked(words: seq<UInt64>, i: nat, c: nat)
    requires i + 8 <= |words| && c <= 8 && Marked(words, i, 0, c)
    ensures PositionsBelow(words, 64 * (i + 8)) == PositionsBelow(words, 64 * (i + c))
  {
    forall k | i + c <= k < i + 8
      ensures words[k] == 0
    {
      BitOfZero(k - i);
    }
    SkipZeroWords(words, i + c, i + 8);
  }

  // Blocks of eight words, skipping the zero ones through a mask; then the tail.
  method ExtractAvx512(words: seq<UInt64>, out: array<nat>) returns (cnt: nat)
    requires CountAll(words) <= out.Length
    modifies out
    ensures cnt <= out.Length && out[..cnt] == Extracted(words)
  {
    cnt := 0;
    var i := 0;
    while i + 8 <= |words|
      invariant i <= |words| && Written(words, 64 * i, out, cnt)
    {
      cnt := WriteBlock(words, i, out, cnt);
      i := i + 8;
    }
    while i < |words|
      invariant i <= |words| && Written(words, 64 * i, out, cnt)
    {
      cnt := WriteWord(words, i, out, cnt);
      i := i + 1;
    }
  }

  method WriteBlock(words: seq<UInt64>, i: nat, out: array<nat>, start: nat) returns (cnt: nat)
    requires i + 8 <= |words| && CountAll(words) <= out.Length && Written(words, 64 * i, out, start)
    modifies out
    ensures Written(words, 64 * (i + 8), out, cnt)
  {
    cnt := start;
    var m := NonZeroMask(words, i, 8);
    ghost var c: nat := 0;
    forall b: nat
      ensures Bit(m, b) <==> c <= b < 8 && words[i + b] != 0
    {
      MaskDigit(words, i, 8, b);
    }
    while m != 0
      invariant c <= 8 && Marked(words, i, m, c)
      invariant Written(words, 64 * (i + c), out, cnt)
      decreases m
    {
      m, cnt, c := WriteMarked(words, i, m, c, out, cnt);
    }
    NoneMarked(words, i, c);
  }

  // The first marked word of the block, and the mask without it.
  method WriteMarked(words: seq<UInt64>, i: nat, m: nat, ghost c: nat, out: array<nat>, start: nat)
    returns (rest: nat, cnt: nat, ghost next: nat)
    requires i + 8 <= |words| && CountAll(words) <= out.Length && Written(words, 64 * (i + c), out, start)
    requires c <= 8 && m > 0 && Marked(words, i, m, c)
    modifies out
    ensures rest < m && next <= 8 && Marked(words, i, rest, next)
    ensures Written(words, 64 * (i + next), out, cnt)
  {
    NextMarked(words, i, m, c);
    var b := TrailingZeros(m);
    cnt := WriteWord(words, i + b, out, start);
    rest, next := And(m, m - 1), b + 1;
  }

  // ----- conjunction counts

  method AndPopcountScalar(a: seq<UInt64>, b: seq<UInt64>, n: nat) returns (s: nat)
    requires n <= |a| && n <= |b|
    ensures s == AndCount(a[..n], b[..n])
  {
    s := 0;
    for i := 0 to n
      invariant s == AndCount(a[..i], b[..i])
    {
      AndCountSnoc(a, b, i);
      s := s + PopCount(And(a[i], b[i]));
    }
  }

  // Eight accumulators, one per lane, then the tail.
  method AndPopcountLanes(a: seq<UInt64>, b: seq<UInt64>, n: nat) returns (s: nat)
    requires n <= |a| && n <= |b|
    ensures s == AndCount(a[..n], b[..n])
  {
    var i;
    s, i := CountBlocks(a, b, n, AndWords(a, b));
    s := CountTail(a, b, i, n, s, AndWords(a, b));
    AndCountOfPrefix(a, b, n);
  }

  method CountTail(a: seq<UInt64>, b: seq<UInt64>, lo: nat, n: nat, counted: nat, ghost common: seq<UInt64>)
    returns (s: nat)
    requires lo <= n <= |a| && n <= |b| && n <= |common|
    requires forall k {:trigger common[k]} :: 0 <= k < n ==> common[k] == And(a[k], b[k])
    requires counted == WordsCount(common, lo)
    ensures s == WordsCount(common, n)
  {
    s := counted;
    for i := lo to n
      invariant s == WordsCount(common, i)
    {
      s := s + PopCount(And(a[i], b[i]));
    }
  }

  // The vector loop and the sum of its lanes.
  method CountBlocks(a: seq<UInt64>, b: seq<UInt64>, n: nat, ghost common: seq<UInt64>) returns (s: nat, i: nat)
    requires n <= |a| && n <= |b| && n <= |common|
    requires forall k {:trigger common[k]} :: 0 <= k < n ==> common[k] == And(a[k], b[k])
    ensures i <= n && s == WordsCount(common, i)
  {
    var acc: seq<nat> := [0, 0, 0, 0, 0, 0, 0, 0];
    i := 0;
    ZeroLanes(acc, 8);
    while i + 8 <= n
      invariant i <= n && |acc| == 8
      invariant RangeTotal(acc, 0, 8) == WordsCount(common, i)
    {
      var next := AddLanes(a, b, i, acc);
      assert forall l :: 0 <= l < 8 ==> next[l] == acc[l] + PopCount(common[i + l]);
      LanesAddUp(common, i, acc, next, 8);
      acc := next;
      i := i + 8;
    }
    s := RangeTotal(acc, 0, 8);
  }

  lemma {:induction false} ZeroLanes(acc: seq<nat>, k: nat)
    requires k <= |acc| && forall l :: 0 <= l < |acc| ==> acc[l] == 0
    ensures RangeTotal(acc, 0, k) == 0
  {
    if k == 0 {
    } else {
      ZeroLanes(acc, k - 1);
    }
  }

  // One vector step: every lane adds the count of its word.
  function AddLanes(a: seq<UInt64>, b: seq<UInt64>, i: nat, acc: seq<nat>): (next: seq<nat>)
    requires |acc| == 8 && i + 8 <= |a| && i + 8 <= |b|
    ensures |next| == 8
    ensures forall l :: 0 <= l < 8 ==> next[l] == acc[l] + PopCount(And(a[i + l], b[i + l]))
  {
    seq(8, l requires 0 <= l < 8 => AddLane(a, b, i, acc, l))
  }

  function AddLane(a: seq<UInt64>, b: seq<UInt64>, i: nat, acc: seq<nat>, l: nat): nat
    requires |acc| == 8 && i + 8 <= |a| && i + 8 <= |b| && l < 8
  {
    acc[l] + PopCount(And(a[i + l], b[i + l]))
  }

  // The lanes together advance by the count of the next words.
  lemma {:induction false} LanesAddUp(words: seq<UInt64>, i: nat, acc: seq<nat>, next: seq<nat>, k: nat)
    requires k <= |acc| == |next| && i + |acc| <= |words|
    requires forall l :: 0 <= l < |acc| ==> next[l] == acc[l] + PopCount(words[i + l])
    ensures RangeTotal(next, 0, k) + WordsCount(words, i) == RangeTotal(acc, 0, k) + WordsCount(words, i + k)
  {
    if k == 0 {
    } else {
      LanesAddUp(words, i, acc, next, k - 1);
    }
  }
}
