/** Byte encodings of numbers and of word arrays. */
module Bytes {
  import opened Words

  type Byte = n: nat | n < 256

  function Pow256(k: nat): (p: nat)
    ensures p > 0
  {
    if k == 0 then 1 else 256 * Pow256(k - 1)
  }

  // The k low bytes of n, least significant first.
  function LittleEndian(n: nat, k: nat): (b: seq<Byte>)
    ensures |b| == k
  {
    if k == 0 then [] else [n % 256] + LittleEndian(n / 256, k - 1)
  }

  function FromLittleEndian(b: seq<Byte>): nat
  {
    if b == [] then 0 else b[0] + 256 * FromLittleEndian(b[1..])
  }

  // The k low bytes of n, most significant first.
  function BigEndian(n: nat, k: nat): (b: seq<Byte>)
    ensures |b| == k
    decreases k
  {
    if k == 0 then [] else BigEndian(n / 256, k - 1) + [n % 256]
  }

  function FromBigEndian(b: seq<Byte>): nat
  {
    if b == [] then 0 else 256 * FromBigEndian(b[..|b| - 1]) + b[|b| - 1]
  }

  lemma {:induction false} LittleEndianRead(n: nat, k: nat)
    requires n < Pow256(k)
    ensures FromLittleEndian(LittleEndian(n, k)) == n
  {
    if k == 0 {
    } else {
      LittleEndianRead(n / 256, k - 1);
      assert LittleEndian(n, k)[1..] == LittleEndian(n / 256, k - 1);
    }
  }

  lemma SplitByte(low: Byte, high: nat)
    ensures (low + 256 * high) % 256 == low && (low + 256 * high) / 256 == high
  {
  }

  lemma {:induction false} LittleEndianWritten(b: seq<Byte>)
    ensures FromLittleEndian(b) < Pow256(|b|)
    ensures LittleEndian(FromLittleEndian(b), |b|) == b
  {
    if b == [] {
    } else {
      LittleEndianWritten(b[1..]);
      SplitByte(b[0], FromLittleEndian(b[1..]));
    }
  }

  lemma {:induction false} BigEndianRead(n: nat, k: nat)
    requires n < Pow256(k)
    ensures FromBigEndian(BigEndian(n, k)) == n
    decreases k
  {
    if k == 0 {
    } else {
      BigEndianRead(n / 256, k - 1);
      var b := BigEndian(n, k);
      assert b[..|b| - 1] == BigEndian(n / 256, k - 1);
    }
  }

  lemma {:induction false} BigEndianWritten(b: seq<Byte>)
    ensures FromBigEndian(b) < Pow256(|b|)
    ensures BigEndian(FromBigEndian(b), |b|) == b
    decreases |b|
  {
    if b == [] {
    } else {
      var n := |b| - 1;
      BigEndianWritten(b[..n]);
      SplitByte(b[n], FromBigEndian(b[..n]));
      assert b == b[..n] + [b[n]];
    }
  }

  // ----- the order of the bytes

  // Byte i of the little-endian form is digit i to the base 256.
  lemma {:induction false} LittleEndianByte(n: nat, k: nat, i: nat)
    requires i < k
    ensures LittleEndian(n, k)[i] == n / Pow256(i) % 256
  {
    if i == 0 {
    } else {
      LittleEndianByte(n / 256, k - 1, i - 1);
      DropByte(n, Pow256(i - 1));
    }
  }

  // In the big-endian form it is the i-th from the end.
  lemma {:induction false} BigEndianByte(n: nat, k: nat, i: nat)
    requires i < k
    ensures BigEndian(n, k)[k - 1 - i] == n / Pow256(i) % 256
    decreases k
  {
    if i == 0 {
    } else {
      BigEndianByte(n / 256, k - 1, i - 1);
      DropByte(n, Pow256(i - 1));
    }
  }

  lemma DropByte(n: nat, b: nat)
    requires b > 0
    ensures (n / 256) / b == n / (256 * b)
  {
    var q := n / 256;
    var s, t := q / b, q % b;
    assert n == 256 * q + n % 256 && q == b * s + t;
    TimesByte(b, s);
    DivideSum(256 * b, s, 256 * t + n % 256);
  }

  lemma TimesByte(b: nat, s: nat)
    ensures (256 * b) * s == 256 * (b * s)
  {
  }

  lemma Pow256Values()
    ensures Pow256(2) == 0x1_0000
    ensures Pow256(4) == 0x1_0000_0000
    ensures Pow256(8) == WORD_LIMIT
  {
    assert Pow256(2) == 0x1_0000;
    assert Pow256(3) == 0x100_0000;
    assert Pow256(4) == 0x1_0000_0000;
    assert Pow256(5) == 0x100_0000_0000;
    assert Pow256(6) == 0x1_0000_0000_0000;
    assert Pow256(7) == 0x100_0000_0000_0000;
  }

  // A uint64 in eight bytes.
  function Word8(w: UInt64): (b: seq<Byte>)
    ensures |b| == 8
  {
    LittleEndian(w, 8)
  }

  function ReadWord8(b: seq<Byte>): UInt64
    requires |b| == 8
  {
    LittleEndianWritten(b);
    Pow256Values();
    FromLittleEndian(b)
  }

  lemma Word8Read(w: UInt64)
    ensures ReadWord8(Word8(w)) == w
  {
    Pow256Values();
    LittleEndianRead(w, 8);
  }

  lemma Word8Written(b: seq<Byte>)
    requires |b| == 8
    ensures Word8(ReadWord8(b)) == b
  {
    LittleEndianWritten(b);
  }

  // The memory of a word array, and the word array in a stretch of memory; bytes that do
  // not fill a last word are not part of it.
  function WordBytes(ws: seq<UInt64>): (b: seq<Byte>)
    ensures |b| == 8 * |ws|
  {
    if ws == [] then [] else Word8(ws[0]) + WordBytes(ws[1..])
  }

  function BytesWords(b: seq<Byte>): (ws: seq<UInt64>)
    ensures |ws| == |b| / 8
  {
    if |b| < 8 then [] else [ReadWord8(b[..8])] + BytesWords(b[8..])
  }

  lemma FirstWordRead(w: UInt64, tail: seq<Byte>)
    ensures BytesWords(Word8(w) + tail) == [w] + BytesWords(tail)
  {
    Word8Read(w);
    var b := Word8(w) + tail;
    assert b[..8] == Word8(w) && b[8..] == tail;
  }

  lemma {:induction false} WordBytesRead(ws: seq<UInt64>, rest: seq<Byte>)
    requires |rest| < 8
    ensures BytesWords(WordBytes(ws) + rest) == ws
  {
    if ws == [] {
      assert WordBytes(ws) + rest == rest;
    } else {
      WordBytesRead(ws[1..], rest);
      FirstWordRead(ws[0], WordBytes(ws[1..]) + rest);
      assert WordBytes(ws) + rest == Word8(ws[0]) + (WordBytes(ws[1..]) + rest);
    }
  }

  // Conversely every stretch of memory starts with the bytes of its words.
  lemma {:induction false} WordBytesPrefix(b: seq<Byte>)
    ensures WordBytes(BytesWords(b)) == b[..8 * (|b| / 8)]
  {
    if |b| < 8 {
    } else {
      Word8Written(b[..8]);
      WordBytesPrefix(b[8..]);
      assert |b[8..]| / 8 == |b| / 8 - 1;
      assert b[..8 * (|b| / 8)] == b[..8] + b[8..][..8 * (|b| / 8 - 1)];
      assert BytesWords(b)[1..] == BytesWords(b[8..]);
    }
  }

  // Byte j of word i of a word array in memory.
  lemma {:induction false} WordBytesByte(ws: seq<UInt64>, i: nat, j: nat)
    requires i < |ws| && j < 8
    ensures WordBytes(ws)[8 * i + j] == ws[i] / Pow256(j) % 256
  {
    if i == 0 {
      LittleEndianByte(ws[0], 8, j);
    } else {
      WordBytesByte(ws[1..], i - 1, j);
    }
  }
}
