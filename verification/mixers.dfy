/**
  The two 64-bit finalisers, splitmix64 in the perfect hash and the one behind the
  disambiguation candidates, are permutations of the words: each is given with its
  inverse.  Consequently the candidates of one term never repeat.
*/
module Mixers {
  import opened Words

  const GOLDEN: nat := 0x9E3779B97F4A7C15
  const GOLDEN_INVERSE: nat := 0xF1DE83E19937733D

  function Times(x: UInt64, c: UInt64): UInt64 { (x * c) % WORD_LIMIT }

  function XorShift(x: UInt64, s: nat): UInt64 { Xor(x, Shr(x, s)) }

  // One round: xor-shift, then multiply by an odd factor.
  function Round(x: UInt64, s: nat, c: UInt64): UInt64 { Times(XorShift(x, s), c) }

  // The splitmix64 finaliser.
  function Mix(x: UInt64): UInt64 { MixRounds(Offset(x)) }

  function Offset(x: UInt64): UInt64 { (x + GOLDEN) % WORD_LIMIT }

  function MixRounds(a: UInt64): UInt64
  {
    XorShift(Round(Round(a, 30, 0xBF58476D1CE4E5B9), 27, 0x94D049BB133111EB), 31)
  }

  function Mix64(x: UInt64): UInt64
  {
    XorShift(Round(Round(x, 33, 0xFF51AFD7ED558CCD), 33, 0xC4CEB9FE1A85EC53), 33)
  }

  // The i-th candidate key of a term whose positional hash is base.
  function Candidate(base: UInt64, i: UInt64): UInt64 { Mix64(ChainSource(base, i)) }

  function ChainSource(base: UInt64, i: UInt64): UInt64 { (base + Times(i, GOLDEN)) % WORD_LIMIT }

  // ----- inverses

  function UnXorShift(y: UInt64, s: nat): UInt64 { Xor(Xor(y, Shr(y, s)), Shr(y, 2 * s)) }

  function UnRound(y: UInt64, s: nat, d: UInt64): UInt64 { UnXorShift(Times(y, d), s) }

  function Unmix(y: UInt64): UInt64 { Unoffset(UnmixRounds(y)) }

  function Unoffset(x: UInt64): UInt64 { (x + WORD_LIMIT - GOLDEN) % WORD_LIMIT }

  function UnmixRounds(y: UInt64): UInt64
  {
    UnRound(UnRound(UnXorShift(y, 31), 27, 0x319642B2D24D8EC3), 30, 0x96DE1B173F119089)
  }

  function Unmix64(y: UInt64): UInt64
  {
    UnRound(UnRound(UnXorShift(y, 33), 33, 0x9CB4B2F8129337DB), 33, 0x4F74430C22A54005)
  }

  lemma XorShiftBit(x: UInt64, s: nat, j: nat)
    ensures Bit(XorShift(x, s), j) <==> Bit(x, j) != Bit(x, s + j)
  {
    BitXor(x, Shr(x, s), j);
    BitShr(x, s, j);
  }

  lemma UnXorShiftBit(y: UInt64, s: nat, j: nat)
    ensures Bit(UnXorShift(y, s), j) <==> (Bit(y, j) != Bit(y, s + j)) != Bit(y, 2 * s + j)
  {
    BitXor(Xor(y, Shr(y, s)), Shr(y, 2 * s), j);
    BitXor(y, Shr(y, s), j);
    BitShr(y, s, j);
    BitShr(y, 2 * s, j);
  }

  lemma XorShiftInverse(x: UInt64, s: nat)
    requires 22 <= s
    ensures UnXorShift(XorShift(x, s), s) == x
    ensures XorShift(UnXorShift(x, s), s) == x
  {
    var y, z := XorShift(x, s), UnXorShift(x, s);
    forall j: nat {:trigger Bit(x, j)} | 0 <= j < 64
      ensures Bit(UnXorShift(y, s), j) == Bit(x, j)
      ensures Bit(XorShift(z, s), j) == Bit(x, j)
    {
      WordBits(x, 3 * s + j);
      UnXorShiftBit(y, s, j);
      XorShiftBit(x, s, j);
      XorShiftBit(x, s, s + j);
      XorShiftBit(x, s, 2 * s + j);
      XorShiftBit(z, s, j);
      UnXorShiftBit(x, s, j);
      UnXorShiftBit(x, s, s + j);
    }
    SameWord(x, UnXorShift(y, s));
    SameWord(x, XorShift(z, s));
  }

  // Multiplying by c and then by its inverse modulo 2^64 gives the word back.
  lemma TimesInverse(x: UInt64, c: UInt64, d: UInt64)
    requires (c * d) % WORD_LIMIT == 1
    ensures Times(Times(x, c), d) == x
  {
    var q, r := (x * c) / WORD_LIMIT, (x * c) % WORD_LIMIT;
    var k := (c * d) / WORD_LIMIT;
    assert x * c == q * WORD_LIMIT + r && c * d == k * WORD_LIMIT + 1;
    calc {
      r * d;
      (x * c - q * WORD_LIMIT) * d;
      { Distribute(x * c, q * WORD_LIMIT, d); }
      (x * c) * d - (q * WORD_LIMIT) * d;
      { Reassociate(x, c, d); Reassociate(q, WORD_LIMIT, d); }
      x * (c * d) - q * (WORD_LIMIT * d);
      x * (k * WORD_LIMIT + 1) - q * d * WORD_LIMIT;
      x + (x * k - q * d) * WORD_LIMIT;
    }
    RemainderUnique(r * d, x * k - q * d, x);
  }

  lemma Distribute(a: int, b: int, d: int)
    ensures (a - b) * d == a * d - b * d
  {
  }

  lemma Reassociate(a: int, b: int, d: int)
    ensures (a * b) * d == a * (b * d)
  {
  }

  lemma RemainderUnique(y: int, t: int, x: UInt64)
    requires y == x + t * WORD_LIMIT
    ensures y % WORD_LIMIT == x
  {
  }

  ghost predicate Inverses(c: UInt64, d: UInt64)
  {
    (c * d) % WORD_LIMIT == 1 && (d * c) % WORD_LIMIT == 1
  }

  lemma RoundInverse(x: UInt64, s: nat, c: UInt64, d: UInt64)
    requires 22 <= s && Inverses(c, d)
    ensures UnRound(Round(x, s, c), s, d) == x
    ensures Round(UnRound(x, s, d), s, c) == x
  {
    TimesInverse(XorShift(x, s), c, d);
    TimesInverse(x, d, c);
    XorShiftInverse(x, s);
    XorShiftInverse(Times(x, d), s);
  }

  // Two rounds and a last xor-shift are undone by the inverse steps in reverse order.
  lemma FinaliserInverse(x: UInt64, s: nat, c: UInt64, d: UInt64, t: nat, e: UInt64, f: UInt64, u: nat)
    requires 22 <= s && 22 <= t && 22 <= u && Inverses(c, d) && Inverses(e, f)
    ensures UnRound(UnRound(UnXorShift(XorShift(Round(Round(x, s, c), t, e), u), u), t, f), s, d) == x
    ensures XorShift(Round(Round(UnRound(UnRound(UnXorShift(x, u), t, f), s, d), s, c), t, e), u) == x
  {
    XorShiftInverse(Round(Round(x, s, c), t, e), u);
    RoundInverse(Round(x, s, c), t, e, f);
    RoundInverse(x, s, c, d);
    XorShiftInverse(x, u);
    RoundInverse(UnXorShift(x, u), t, e, f);
    RoundInverse(UnRound(UnXorShift(x, u), t, f), s, c, d);
  }

  lemma MixRoundsInverse(x: UInt64)
    ensures UnmixRounds(MixRounds(x)) == x
    ensures MixRounds(UnmixRounds(x)) == x
  {
    FinaliserInverse(x, 30, 0xBF58476D1CE4E5B9, 0x96DE1B173F119089,
                     27, 0x94D049BB133111EB, 0x319642B2D24D8EC3, 31);
  }

  // The finaliser, step by step: shifting right is division.
  lemma MixUndone(x: UInt64)
    ensures var a: UInt64 := (x + 0x9E3779B97F4A7C15) % WORD_LIMIT;
            var b: UInt64 := Xor(a, a / 0x4000_0000) * 0xBF58476D1CE4E5B9 % WORD_LIMIT;
            var c: UInt64 := Xor(b, b / 0x800_0000) * 0x94D049BB133111EB % WORD_LIMIT;
            Mix(x) == Xor(c, c / 0x8000_0000)
    ensures Unmix(Mix(x)) == x
  {
    MixSteps(Offset(x));
    MixRoundsInverse(Offset(x));
    OffsetInverse(x);
  }

  lemma MixSteps(a: UInt64)
    ensures var b: UInt64 := Xor(a, a / 0x4000_0000) * 0xBF58476D1CE4E5B9 % WORD_LIMIT;
            var c: UInt64 := Xor(b, b / 0x800_0000) * 0x94D049BB133111EB % WORD_LIMIT;
            MixRounds(a) == Xor(c, c / 0x8000_0000)
  {
    ShiftPowers();
    ShrIsDivision(a, 30);
    var b := Round(a, 30, 0xBF58476D1CE4E5B9);
    ShrIsDivision(b, 27);
    var c := Round(b, 27, 0x94D049BB133111EB);
    ShrIsDivision(c, 31);
  }

  lemma ShiftPowers()
    ensures Pow2(27) == 0x800_0000 && Pow2(30) == 0x4000_0000
    ensures Pow2(31) == 0x8000_0000 && Pow2(33) == 0x2_0000_0000
  {
    assert Pow2(4) == 0x10;
    Pow2Sum(4, 4);
    Pow2Sum(8, 8);
    Pow2Sum(16, 8);
    assert Pow2(27) == 8 * Pow2(24);
    assert Pow2(30) == 8 * Pow2(27);
    assert Pow2(33) == 8 * Pow2(30);
  }

  lemma MixReached(y: UInt64)
    ensures Mix(Unmix(y)) == y
  {
    MixRoundsInverse(y);
    OffsetInverse(UnmixRounds(y));
  }

  // So mix never gives two words the same value.
  lemma MixInjective(x: UInt64, y: UInt64)
    requires x != y
    ensures Mix(x) != Mix(y)
  {
    MixUndone(x);
    MixUndone(y);
  }

  lemma OffsetInverse(x: UInt64)
    ensures Unoffset(Offset(x)) == x
    ensures Offset(Unoffset(x)) == x
  {
  }

  lemma Mix64Permutes(x: UInt64)
    ensures Unmix64(Mix64(x)) == x
    ensures Mix64(Unmix64(x)) == x
  {
    FinaliserInverse(x, 33, 0xFF51AFD7ED558CCD, 0x4F74430C22A54005,
                     33, 0xC4CEB9FE1A85EC53, 0x9CB4B2F8129337DB, 33);
  }

  // The finaliser of the candidates, step by step.
  lemma Mix64Steps(x: UInt64)
    ensures var a: UInt64 := Xor(x, x / 0x2_0000_0000) * 0xFF51AFD7ED558CCD % WORD_LIMIT;
            var b: UInt64 := Xor(a, a / 0x2_0000_0000) * 0xC4CEB9FE1A85EC53 % WORD_LIMIT;
            Mix64(x) == Xor(b, b / 0x2_0000_0000)
  {
    ShiftPowers();
    ShrIsDivision(x, 33);
    var a := Round(x, 33, 0xFF51AFD7ED558CCD);
    ShrIsDivision(a, 33);
    var b := Round(a, 33, 0xC4CEB9FE1A85EC53);
    ShrIsDivision(b, 33);
  }

  // The disambiguation chain of a term never proposes the same key twice.
  lemma CandidatesDistinct(base: UInt64, i: UInt64, j: UInt64)
    requires i != j
    ensures Candidate(base, i) != Candidate(base, j)
  {
    CandidateSource(base, i);
    CandidateSource(base, j);
    ChainInjective(base, i, j);
  }

  // Each candidate is one step of the odd constant further than the one before.
  lemma ChainSteps(base: UInt64, i: UInt64)
    ensures ChainSource(base, i) == (base + i * 0x9E3779B97F4A7C15) % WORD_LIMIT
  {
    StepSum(base, i, GOLDEN);
  }

  lemma StepSum(base: UInt64, i: UInt64, c: UInt64)
    ensures (base + Times(i, c)) % WORD_LIMIT == (base + i * c) % WORD_LIMIT
  {
    SumModulo(base, i * c);
  }

  lemma SumModulo(x: nat, y: nat)
    ensures (x + y % WORD_LIMIT) % WORD_LIMIT == (x + y) % WORD_LIMIT
  {
  }

  lemma ChainInjective(base: UInt64, i: UInt64, j: UInt64)
    requires i != j
    ensures ChainSource(base, i) != ChainSource(base, j)
  {
    StepsInjective(base, i, j, GOLDEN, GOLDEN_INVERSE);
  }

  // Steps of any invertible length lead from one base to different words.
  lemma StepsInjective(base: UInt64, i: UInt64, j: UInt64, c: UInt64, d: UInt64)
    requires i != j && (c * d) % WORD_LIMIT == 1
    ensures (base + Times(i, c)) % WORD_LIMIT != (base + Times(j, c)) % WORD_LIMIT
  {
    if (base + Times(i, c)) % WORD_LIMIT == (base + Times(j, c)) % WORD_LIMIT {
      SameStep(base, Times(i, c), Times(j, c));
      TimesInjective(i, j, c, d);
    }
  }

  lemma TimesInjective(x: UInt64, y: UInt64, c: UInt64, d: UInt64)
    requires (c * d) % WORD_LIMIT == 1
    requires Times(x, c) == Times(y, c)
    ensures x == y
  {
    TimesInverse(x, c, d);
    TimesInverse(y, c, d);
  }

  lemma CandidateSource(base: UInt64, i: UInt64)
    ensures Unmix64(Candidate(base, i)) == ChainSource(base, i)
  {
    Mix64Permutes(ChainSource(base, i));
  }

  lemma SameStep(base: UInt64, x: UInt64, y: UInt64)
    requires (base + x) % WORD_LIMIT == (base + y) % WORD_LIMIT
    ensures x == y
  {
  }
}
