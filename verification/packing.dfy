/**
  Fixed-width fields packed one after another in 64-bit words, where a field may
  straddle two words.  Field says what number a run of digits denotes; Read is the
  shift-and-mask expression of the program and Write its or-in-place.
*/
module Packing {
  import opened Words
  import opened Bitmaps

  // The number whose digits are the positions start .. start + width.
  function Field(words: seq<UInt64>, start: nat, width: nat): nat
    decreases width
  {
    if width == 0 then 0 else Digit(BitAt(words, start)) + 2 * Field(words, start + 1, width - 1)
  }

  // Number of digits needed to write n (bits.Len32).
  function Length(n: nat): nat { if n == 0 then 0 else 1 + Length(n / 2) }

  lemma {:induction false} LengthBounds(n: nat)
    ensures n < Pow2(Length(n))
    ensures n > 0 ==> Pow2(Length(n) - 1) <= n
  {
    if n == 0 {
    } else {
      LengthBounds(n / 2);
    }
  }

  ghost predicate InBounds(words: seq<UInt64>, bp: nat, width: nat)
  {
    && 1 <= width < 64
    && bp / 64 < |words|
    && (bp % 64 + width > 64 ==> bp / 64 + 1 < |words|)
  }

  function Read(words: seq<UInt64>, bp: nat, width: nat): UInt64
    requires InBounds(words, bp, width)
  {
    var wi, off := bp / 64, bp % 64;
    var v := Shr(words[wi], off);
    var u := if off + width > 64 then Or(v, Shl(words[wi + 1], 64 - off)) else v;
    ShlOne(width);
    And(u, Shl(1, width) - 1)
  }

  method Write(words: array<UInt64>, bp: nat, width: nat, v: UInt64)
    requires InBounds(words[..], bp, width) && v < Pow2(width)
    modifies words
    ensures forall p: nat ::
              BitAt(words[..], p) <==> BitAt(old(words[..]), p) || (bp <= p < bp + width && Bit(v, p - bp))
  {
    ghost var before := words[..];
    var wi, off := bp / 64, bp % 64;
    words[wi] := Or(words[wi], Shl(v, off));
    ghost var middle := words[..];
    if off + width > 64 {
      words[wi + 1] := Or(words[wi + 1], Shr(v, 64 - off));
    }
    forall p: nat
      ensures BitAt(words[..], p) <==> BitAt(before, p) || (bp <= p < bp + width && Bit(v, p - bp))
    {
      WriteEffect(before, middle, words[..], bp, width, v, p);
    }
  }

  lemma WriteEffect(before: seq<UInt64>, middle: seq<UInt64>, after: seq<UInt64>,
                    bp: nat, width: nat, v: UInt64, p: nat)
    requires InBounds(before, bp, width) && v < Pow2(width)
    requires middle == before[bp / 64 := Or(before[bp / 64], Shl(v, bp % 64))]
    requires after == if bp % 64 + width > 64
                      then middle[bp / 64 + 1 := Or(middle[bp / 64 + 1], Shr(v, 64 - bp % 64))]
                      else middle
    ensures BitAt(after, p) <==> BitAt(before, p) || (bp <= p < bp + width && Bit(v, p - bp))
  {
    var wi, off := bp / 64, bp % 64;
    if bp + width <= p {
      NoBitBeyond(v, width, p - bp);
    }
    if p / 64 == wi {
      BitOr(before[wi], Shl(v, off), p % 64);
      BitShl(v, off, p % 64);
    } else if p / 64 == wi + 1 && wi + 1 < |before| {
      BitOr(before[wi + 1], Shr(v, 64 - off), p % 64);
      BitShr(v, 64 - off, p % 64);
    }
  }

  lemma {:induction false} FieldDigits(words: seq<UInt64>, start: nat, width: nat, k: nat)
    ensures Bit(Field(words, start, width), k) <==> k < width && BitAt(words, start + k)
    decreases width
  {
    if width == 0 {
      BitOfZero(k);
    } else if k > 0 {
      FieldDigits(words, start + 1, width - 1, k - 1);
    }
  }

  lemma {:induction false} FieldBound(words: seq<UInt64>, start: nat, width: nat)
    ensures Field(words, start, width) < Pow2(width)
    decreases width
  {
    if width == 0 {
    } else {
      FieldBound(words, start + 1, width - 1);
    }
  }

  // The program's read returns exactly the field, whether or not it straddles two words.
  lemma ReadIsField(words: seq<UInt64>, bp: nat, width: nat)
    requires InBounds(words, bp, width)
    ensures Read(words, bp, width) == Field(words, bp, width)
  {
    Pow2Of64();
    FieldBound(words, bp, width);
    Pow2Less(width, 64);
    var r, f: UInt64 := Read(words, bp, width), Field(words, bp, width);
    forall k: nat {:trigger Bit(r, k)} | 0 <= k < 64
      ensures Bit(r, k) == Bit(f, k)
    {
      FieldDigits(words, bp, width, k);
      ReadDigit(words, bp, width, k);
    }
    SameWord(r, f);
  }

  lemma ReadDigit(words: seq<UInt64>, bp: nat, width: nat, k: nat)
    requires InBounds(words, bp, width) && k < 64
    ensures Bit(Read(words, bp, width), k) <==> k < width && BitAt(words, bp + k)
  {
    var wi, off := bp / 64, bp % 64;
    var v := Shr(words[wi], off);
    var u := if off + width > 64 then Or(v, Shl(words[wi + 1], 64 - off)) else v;
    ShlOne(width);
    BitAnd(u, Pow2(width) - 1, k);
    BitOfMask(width, k);
    BitShr(words[wi], off, k);
    if off + width > 64 {
      BitOr(v, Shl(words[wi + 1], 64 - off), k);
      BitShl(words[wi + 1], 64 - off, k);
    }
    if off + k >= 64 {
      WordBits(words[wi], off + k);
      assert (bp + k) / 64 == wi + 1 && (bp + k) % 64 == k - (64 - off);
    } else {
      assert (bp + k) / 64 == wi && (bp + k) % 64 == off + k;
    }
  }

  // A field that holds the digits of v below Pow2(width) is v.
  lemma FieldOfDigits(words: seq<UInt64>, start: nat, width: nat, v: nat)
    requires v < Pow2(width)
    requires forall k: nat {:trigger Bit(v, k)} :: 0 <= k < width ==> (BitAt(words, start + k) <==> Bit(v, k))
    ensures Field(words, start, width) == v
  {
    FieldBound(words, start, width);
    forall k: nat {:trigger Bit(v, k)} | 0 <= k < width
      ensures Bit(v, k) == Bit(Field(words, start, width), k)
    {
      FieldDigits(words, start, width, k);
    }
    SameDigits(v, Field(words, start, width), width);
  }

  // ----- packing a whole table

  // The first done entries are stored, and nothing is set beyond them.
  ghost predicate Packed(words: seq<UInt64>, width: nat, entries: seq<nat>, done: nat)
    requires done <= |entries|
  {
    && (forall j, k: nat {:trigger Bit(entries[j], k)} ::
          0 <= j < done && k < width ==> (BitAt(words, j * width + k) <==> Bit(entries[j], k)))
    && (forall p: nat :: done * width <= p ==> !BitAt(words, p))
  }

  lemma Before(j: nat, done: nat, width: nat)
    requires j < done
    ensures (j + 1) * width <= done * width
  {
  }

  lemma PackedStep(before: seq<UInt64>, after: seq<UInt64>, width: nat, entries: seq<nat>, done: nat)
    requires done < |entries| && Packed(before, width, entries, done)
    requires forall p: nat ::
               BitAt(after, p) <==>
               BitAt(before, p) || (done * width <= p < done * width + width && Bit(entries[done], p - done * width))
    ensures Packed(after, width, entries, done + 1)
  {
    assert (done + 1) * width == done * width + width;
    forall j: nat, k: nat {:trigger Bit(entries[j], k)} | 0 <= j < done + 1 && k < width
      ensures BitAt(after, j * width + k) <==> Bit(entries[j], k)
    {
      if j < done {
        Before(j, done, width);
        assert (j + 1) * width == j * width + width;
        assert Bit(entries[j], k) <==> BitAt(before, j * width + k);
      } else {
        assert !BitAt(before, j * width + k);
      }
    }
  }

  lemma PackedFields(words: seq<UInt64>, width: nat, entries: seq<nat>)
    requires Packed(words, width, entries, |entries|)
    requires forall j :: 0 <= j < |entries| ==> entries[j] < Pow2(width)
    ensures forall j :: 0 <= j < |entries| ==> Field(words, j * width, width) == entries[j]
  {
    forall j | 0 <= j < |entries|
      ensures Field(words, j * width, width) == entries[j]
    {
      FieldOfDigits(words, j * width, width, entries[j]);
    }
  }
}
