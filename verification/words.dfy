/**
  64-bit machine words.

  A uint64 is the number it denotes.  Its binary digits are read by Bit, and the
  bitwise operators of the program are defined digit by digit; the lemmas say which
  digits each operator produces, and that digits determine the word.
*/
module Words {
  const WORD_LIMIT: nat := 0x1_0000_0000_0000_0000

  type UInt64 = n: nat | n < 0x1_0000_0000_0000_0000

  type UInt32 = n: nat | n < 0x1_0000_0000

  // The i-th binary digit, least significant first.
  predicate Bit(w: nat, i: nat)
  {
    if i == 0 then w % 2 == 1 else Bit(w / 2, i - 1)
  }

  function Digit(b: bool): nat { if b then 1 else 0 }

  function And(x: nat, y: nat): (r: nat)
    ensures r <= x && r <= y
  {
    if x == 0 || y == 0 then 0 else Digit(x % 2 == 1 && y % 2 == 1) + 2 * And(x / 2, y / 2)
  }

  function OrDigits(x: nat, y: nat): nat
    decreases x + y
  {
    if x == 0 && y == 0 then 0 else Digit(x % 2 == 1 || y % 2 == 1) + 2 * OrDigits(x / 2, y / 2)
  }

  function XorDigits(x: nat, y: nat): nat
    decreases x + y
  {
    if x == 0 && y == 0 then 0 else Digit(x % 2 != y % 2) + 2 * XorDigits(x / 2, y / 2)
  }

  function Or(x: UInt64, y: UInt64): UInt64
  {
    Pow2Of64();
    OrBound(x, y, 64);
    OrDigits(x, y)
  }

  function Xor(x: UInt64, y: UInt64): UInt64
  {
    Pow2Of64();
    XorBound(x, y, 64);
    XorDigits(x, y)
  }

  // One left shift doubles the word and drops the digit that leaves it.
  function Shl(w: UInt64, o: nat): UInt64
    decreases o
  {
    if o == 0 then w else Shl((2 * w) % WORD_LIMIT, o - 1)
  }

  function Shr(w: UInt64, o: nat): UInt64
    decreases w, o
  {
    if o == 0 then w else Shr(w / 2, o - 1)
  }

  function Pow2(k: nat): (p: nat)
    ensures p > 0
  {
    if k == 0 then 1 else 2 * Pow2(k - 1)
  }

  // Number of digits set among the n lowest ones.
  function BitCount(w: nat, n: nat): (c: nat)
    ensures c <= n
  {
    if n == 0 then 0 else BitCount(w, n - 1) + Digit(Bit(w, n - 1))
  }

  function PopCount(w: UInt64): (c: nat)
    ensures c <= 64
  {
    BitCount(w, 64)
  }

  // ----- powers of two

  lemma {:induction false} Pow2Sum(j: nat, k: nat)
    ensures Pow2(j + k) == Pow2(j) * Pow2(k)
  {
    if j == 0 {
    } else {
      Pow2Sum(j - 1, k);
    }
  }

  lemma {:induction false} Pow2Less(j: nat, k: nat)
    requires j < k
    ensures Pow2(j) < Pow2(k)
  {
    if j + 1 == k {
    } else {
      Pow2Less(j, k - 1);
    }
  }

  lemma Pow2Monotone(j: nat, k: nat)
    requires j <= k
    ensures Pow2(j) <= Pow2(k)
  {
    if j < k {
      Pow2Less(j, k);
    }
  }

  lemma Pow2Of64()
    ensures Pow2(64) == WORD_LIMIT
  {
    assert Pow2(4) == 16;
    Pow2Sum(4, 4);
    assert Pow2(8) == 0x100;
    Pow2Sum(8, 8);
    assert Pow2(16) == 0x1_0000;
    Pow2Sum(16, 16);
    assert Pow2(32) == 0x1_0000_0000;
    Pow2Sum(32, 32);
  }

  // ----- the digits each operator produces

  lemma {:induction false} BitOfZero(j: nat)
    ensures !Bit(0, j)
  {
    if j == 0 {
    } else {
      BitOfZero(j - 1);
    }
  }

  lemma {:induction false} BitAnd(x: nat, y: nat, j: nat)
    ensures Bit(And(x, y), j) <==> Bit(x, j) && Bit(y, j)
  {
    if x == 0 || y == 0 {
      BitOfZero(j);
    } else if j > 0 {
      BitAnd(x / 2, y / 2, j - 1);
    }
  }

  lemma {:induction false} BitOr(x: nat, y: nat, j: nat)
    ensures Bit(OrDigits(x, y), j) <==> Bit(x, j) || Bit(y, j)
  {
    if x == 0 && y == 0 {
      BitOfZero(j);
    } else if j > 0 {
      BitOr(x / 2, y / 2, j - 1);
    }
  }

  lemma {:induction false} BitXor(x: nat, y: nat, j: nat)
    ensures Bit(XorDigits(x, y), j) <==> Bit(x, j) != Bit(y, j)
  {
    if x == 0 && y == 0 {
      BitOfZero(j);
    } else if j > 0 {
      BitXor(x / 2, y / 2, j - 1);
    }
  }

  lemma {:induction false} OrBound(x: nat, y: nat, k: nat)
    requires x < Pow2(k) && y < Pow2(k)
    ensures OrDigits(x, y) < Pow2(k)
  {
    if k == 0 {
    } else {
      OrBound(x / 2, y / 2, k - 1);
    }
  }

  lemma {:induction false} XorBound(x: nat, y: nat, k: nat)
    requires x < Pow2(k) && y < Pow2(k)
    ensures XorDigits(x, y) < Pow2(k)
  {
    if k == 0 {
    } else {
      XorBound(x / 2, y / 2, k - 1);
    }
  }

  // Two words are equal exactly when their exclusive or is zero.
  lemma {:induction false} XorIsZero(x: nat, y: nat)
    ensures XorDigits(x, y) == 0 <==> x == y
    decreases x + y
  {
    if x == 0 && y == 0 {
    } else {
      XorIsZero(x / 2, y / 2);
    }
  }

  lemma {:induction false} BitOfRemainder(x: nat, k: nat, j: nat)
    ensures Bit(x % Pow2(k), j) <==> j < k && Bit(x, j)
  {
    if k == 0 {
      BitOfZero(j);
    } else {
      RemainderHalves(x, Pow2(k - 1));
      if j > 0 {
        BitOfRemainder(x / 2, k - 1, j - 1);
      }
    }
  }

  lemma RemainderHalves(x: nat, p: nat)
    requires p > 0
    ensures (x % (2 * p)) % 2 == x % 2
    ensures (x % (2 * p)) / 2 == (x / 2) % p
  {
    var q, r := SplitTwice(x, p);
  }

  lemma HalveTwice(x: nat, p: nat)
    requires p > 0
    ensures (x / 2) / p == x / (2 * p)
  {
    var q, r := SplitTwice(x, p);
  }

  // The quotient and remainder of x by 2p, and those of its half by p.
  lemma SplitTwice(x: nat, p: nat) returns (q: nat, r: nat)
    requires p > 0
    ensures q == x / (2 * p) && r == x % (2 * p)
    ensures r % 2 == x % 2
    ensures (x / 2) / p == q && (x / 2) % p == r / 2
  {
    var t;
    q, r, t := QuotientTwice(x, p);
    HalfOfSum(t, r);
    DivideSum(p, q, r / 2);
  }

  lemma QuotientTwice(x: nat, p: nat) returns (q: nat, r: nat, t: nat)
    requires p > 0
    ensures q == x / (2 * p) && r == x % (2 * p) && r < 2 * p
    ensures t == p * q && x == 2 * t + r
  {
    q, r, t := x / (2 * p), x % (2 * p), p * (x / (2 * p));
    TwiceTimes(p, q);
  }

  lemma TwiceTimes(p: nat, q: nat)
    ensures (2 * p) * q == 2 * (p * q)
  {
  }

  lemma HalfOfSum(t: nat, r: nat)
    ensures (2 * t + r) % 2 == r % 2 && (2 * t + r) / 2 == t + r / 2
  {
  }

  lemma DivideSum(p: nat, q: nat, r: nat)
    requires r < p
    ensures (p * q + r) / p == q && (p * q + r) % p == r
  {
    var d, m := (p * q + r) / p, (p * q + r) % p;
    assert p * q + r == p * d + m;
    assert p * (q - d) == m - r;
    if q - d >= 1 {
      MulAtLeast(p, q - d);
    } else if d - q >= 1 {
      MulAtLeast(p, d - q);
    }
  }

  lemma MulAtLeast(p: nat, x: nat)
    requires x >= 1
    ensures p * x >= p
  {
  }

  lemma BitOfRemainder64(x: nat, j: nat)
    ensures Bit(x % WORD_LIMIT, j) <==> j < 64 && Bit(x, j)
  {
    Pow2Of64();
    BitOfRemainder(x, 64, j);
  }

  lemma {:induction false} BitShl(w: UInt64, o: nat, j: nat)
    requires j < 64
    ensures Bit(Shl(w, o), j) <==> o <= j && Bit(w, j - o)
    decreases o
  {
    if o == 0 {
    } else {
      BitShl((2 * w) % WORD_LIMIT, o - 1, j);
      if o - 1 <= j {
        BitOfRemainder64(2 * w, j - (o - 1));
      }
    }
  }

  lemma {:induction false} BitShr(w: UInt64, o: nat, j: nat)
    ensures Bit(Shr(w, o), j) <==> Bit(w, o + j)
  {
    if o == 0 {
    } else {
      BitShr(w / 2, o - 1, j);
    }
  }

  // Shifting right divides by a power of two.
  lemma {:induction false} ShrIsDivision(w: UInt64, o: nat)
    ensures Shr(w, o) == w / Pow2(o)
    decreases o
  {
    if o == 0 {
    } else {
      ShrIsDivision(w / 2, o - 1);
      HalveTwice(w, Pow2(o - 1));
    }
  }

  // Shifting left multiplies by a power of two and keeps the low 64 digits.
  lemma {:induction false} ShlIsMultiplication(w: UInt64, o: nat)
    ensures Shl(w, o) == (w * Pow2(o)) % WORD_LIMIT
    decreases o
  {
    if o == 0 {
    } else {
      ShlIsMultiplication((2 * w) % WORD_LIMIT, o - 1);
      DoubledTimes(w, Pow2(o - 1));
    }
  }

  lemma DoubledTimes(w: nat, p: nat)
    ensures ((2 * w) % WORD_LIMIT * p) % WORD_LIMIT == (w * (2 * p)) % WORD_LIMIT
  {
    TimesModulo(2 * w, p);
    TwiceTimes(w, p);
    TimesTwice(w, p);
  }

  lemma TimesTwice(w: nat, p: nat)
    ensures w * (2 * p) == 2 * (w * p)
  {
  }

  lemma TimesModulo(x: nat, p: nat)
    ensures (x % WORD_LIMIT * p) % WORD_LIMIT == (x * p) % WORD_LIMIT
  {
    var q, r := x / WORD_LIMIT, x % WORD_LIMIT;
    SplitProduct(q, r, p);
    AddMultiple(r * p, q * p);
  }

  lemma SplitProduct(q: nat, r: nat, p: nat)
    ensures (q * WORD_LIMIT + r) * p == (q * p) * WORD_LIMIT + r * p
  {
    assert (q * WORD_LIMIT) * p == (q * p) * WORD_LIMIT;
  }

  lemma AddMultiple(x: nat, k: nat)
    ensures (x + k * WORD_LIMIT) % WORD_LIMIT == x % WORD_LIMIT
  {
  }

  // Digit j of a word is the remainder by two of its quotient by 2^j.
  lemma {:induction false} BitIsQuotient(w: nat, j: nat)
    ensures Bit(w, j) <==> w / Pow2(j) % 2 == 1
  {
    if j == 0 {
    } else {
      BitIsQuotient(w / 2, j - 1);
      HalveTwice(w, Pow2(j - 1));
    }
  }

  // A word has no digit beyond the 64th.
  lemma {:induction false} NoBitBeyond(w: nat, k: nat, j: nat)
    requires w < Pow2(k) && k <= j
    ensures !Bit(w, j)
  {
    if k == 0 {
      BitOfZero(j);
    } else {
      NoBitBeyond(w / 2, k - 1, j - 1);
    }
  }

  lemma WordBits(w: UInt64, j: nat)
    requires 64 <= j
    ensures !Bit(w, j)
  {
    Pow2Of64();
    NoBitBeyond(w, 64, j);
  }

  lemma Pow2InWord(a: nat)
    requires a < 64
    ensures Pow2(a) < WORD_LIMIT
  {
    Pow2Of64();
    Pow2Less(a, 64);
  }

  lemma {:induction false} ShlPow2(a: nat, o: nat)
    requires a + o < 64
    ensures Pow2(a) < WORD_LIMIT && Shl(Pow2(a), o) == Pow2(a + o)
    decreases o
  {
    Pow2InWord(a);
    if o > 0 {
      Pow2InWord(a + 1);
      ShlPow2(a + 1, o - 1);
    }
  }

  // 1 << o for an offset inside the word.
  lemma ShlOne(o: nat)
    requires o < 64
    ensures Shl(1, o) == Pow2(o)
  {
    ShlPow2(0, o);
  }

  lemma {:induction false} BitOfPow2(o: nat, j: nat)
    ensures Bit(Pow2(o), j) <==> o == j
  {
    if o == 0 {
      if j > 0 {
        BitOfZero(j - 1);
      }
    } else if j > 0 {
      BitOfPow2(o - 1, j - 1);
    }
  }

  // Testing a digit with a one-digit mask.
  lemma {:induction false} AndPow2(w: nat, o: nat)
    ensures And(w, Pow2(o)) != 0 <==> Bit(w, o)
  {
    if w == 0 {
      BitOfZero(o);
    } else if o > 0 {
      AndPow2(w / 2, o - 1);
    }
  }

  lemma {:induction false} BitOfMask(o: nat, j: nat)
    ensures Bit(Pow2(o) - 1, j) <==> j < o
  {
    if o == 0 {
      BitOfZero(j);
    } else {
      assert (Pow2(o) - 1) / 2 == Pow2(o - 1) - 1;
      if j > 0 {
        BitOfMask(o - 1, j - 1);
      }
    }
  }

  // ----- digits determine the word

  lemma SameWord(x: UInt64, y: UInt64)
    requires forall j {:trigger Bit(x, j)} :: 0 <= j < 64 ==> Bit(x, j) == Bit(y, j)
    ensures x == y
  {
    Pow2Of64();
    SameDigits(x, y, 64);
  }

  lemma {:induction false} SameDigits(x: nat, y: nat, k: nat)
    requires x < Pow2(k) && y < Pow2(k)
    requires forall j {:trigger Bit(x, j)} :: 0 <= j < k ==> Bit(x, j) == Bit(y, j)
    ensures x == y
  {
    if k == 0 {
    } else {
      assert Bit(x, 0) == Bit(y, 0);
      forall j: nat {:trigger Bit(x / 2, j)} | 0 <= j < k - 1
        ensures Bit(x / 2, j) == Bit(y / 2, j)
      {
        assert Bit(x, j + 1) == Bit(y, j + 1);
      }
      SameDigits(x / 2, y / 2, k - 1);
    }
  }

  // ----- exclusive or

  lemma XorSymmetric(x: UInt64, y: UInt64)
    ensures Xor(x, y) == Xor(y, x)
  {
    forall j: nat {:trigger Bit(Xor(x, y), j)} | 0 <= j < 64
      ensures Bit(Xor(x, y), j) == Bit(Xor(y, x), j)
    {
      BitXor(x, y, j);
      BitXor(y, x, j);
    }
    SameWord(Xor(x, y), Xor(y, x));
  }

  lemma XorCancels(x: UInt64, y: UInt64, s: UInt64)
    ensures Xor(x, s) == Xor(y, s) <==> x == y
  {
    if Xor(x, s) == Xor(y, s) {
      forall j: nat {:trigger Bit(x, j)} | 0 <= j < 64
        ensures Bit(x, j) == Bit(y, j)
      {
        BitXor(x, s, j);
        BitXor(y, s, j);
      }
      SameWord(x, y);
    }
  }

  // ----- counting digits

  lemma {:induction false} CountOfMasked(w: UInt64, o: nat, n: nat)
    ensures BitCount(And(w, Pow2(o) - 1), n) == BitCount(w, if n < o then n else o)
  {
    if n == 0 {
    } else {
      BitAnd(w, Pow2(o) - 1, n - 1);
      BitOfMask(o, n - 1);
      CountOfMasked(w, o, n - 1);
    }
  }

  // The population count of w & ((1 << o) - 1) counts the digits below o.
  lemma PopCountOfMasked(w: UInt64, o: nat)
    requires o <= 64
    ensures PopCount(And(w, Pow2(o) - 1)) == BitCount(w, o)
  {
    CountOfMasked(w, o, 64);
  }
}
