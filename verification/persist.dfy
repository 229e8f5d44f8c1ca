/**
  The .sxset file format: what is written, what is accepted, and that accepted files are
  exactly the encodings of strictly ascending lists, up to trailing bytes.
*/
module Persist {
  import opened Words
  import opened Bytes
  import opened Options
  import opened Sorting
  import opened SetOps
  import opened Sets

  // "SXSET1"
  const MAGIC: seq<Byte> := [0x53, 0x58, 0x53, 0x45, 0x54, 0x31]
  // 'S'
  const SPARSE: Byte := 0x53

  datatype FileError = NotASetFile | UnknownType | Truncated | NotAscending

  // The bytes of a file holding the list.
  function Encode(ids: seq<UInt64>): seq<Byte>
    requires |ids| < WORD_LIMIT
  {
    MAGIC + [SPARSE] + Word8(|ids|) + WordBytes(ids)
  }

  // What the bytes of a file mean.
  function Decode(data: seq<Byte>): Result<seq<UInt64>, FileError>
  {
    if |data| < 15 || data[..6] != MAGIC then Err(NotASetFile)
    else if data[6] != SPARSE then Err(UnknownType)
    else
      var n := ReadWord8(data[7..15]);
      var body := data[15..];
      if n > |body| / 8 then Err(Truncated)
      else
        var ids := BytesWords(body[..8 * n]);
        if StrictlyAscendingList(ids) then Ok(ids) else Err(NotAscending)
  }

  predicate StrictlyAscendingList(ids: seq<UInt64>)
  {
    forall i :: 1 <= i < |ids| ==> ids[i - 1] < ids[i]
  }

  lemma {:induction false} NeighboursSuffice(ids: seq<UInt64>, i: nat, j: nat)
    requires StrictlyAscendingList(ids) && i < j < |ids|
    ensures ids[i] < ids[j]
  {
    if i + 1 == j {
    } else {
      NeighboursSuffice(ids, i, j - 1);
    }
  }

  lemma AscendingByNeighbours(ids: seq<UInt64>)
    ensures StrictlyAscendingList(ids) <==> StrictlyAscending(ids)
  {
    if StrictlyAscendingList(ids) {
      forall i, j | 0 <= i < j < |ids|
        ensures ids[i] < ids[j]
      {
        NeighboursSuffice(ids, i, j);
      }
    }
  }

  // A file is accepted as a list exactly when it starts with the encoding of that list and
  // the list is strictly ascending.
  lemma AcceptedExactly(data: seq<Byte>, ids: seq<UInt64>)
    requires |ids| < WORD_LIMIT
    ensures Decode(data) == Ok(ids) <==> Encode(ids) <= data && StrictlyAscending(ids)
  {
    AscendingByNeighbours(ids);
    if Decode(data) == Ok(ids) {
      AcceptedIsEncoded(data, ids);
    }
    if Encode(ids) <= data && StrictlyAscending(ids) {
      EncodedIsAccepted(data, ids);
    }
  }

  lemma WholeWordsWritten(body: seq<Byte>, n: nat)
    requires |body| == 8 * n
    ensures |BytesWords(body)| == n && WordBytes(BytesWords(body)) == body
  {
    WordBytesPrefix(body);
    assert body[..8 * (|body| / 8)] == body;
  }

  // The four parts of a file of n words.
  lemma CutApart(data: seq<Byte>, n: nat)
    requires 15 + 8 * n <= |data|
    ensures data[..6] + [data[6]] + data[7..15] + data[15..][..8 * n] == data[..15 + 8 * n]
  {
  }

  lemma AcceptedIsEncoded(data: seq<Byte>, ids: seq<UInt64>)
    requires |ids| < WORD_LIMIT && Decode(data) == Ok(ids)
    ensures Encode(ids) <= data
  {
    var n: nat := ReadWord8(data[7..15]);
    Word8Written(data[7..15]);
    WholeWordsWritten(data[15..][..8 * n], n);
    CutApart(data, n);
  }

  lemma EncodedIsAccepted(data: seq<Byte>, ids: seq<UInt64>)
    requires |ids| < WORD_LIMIT && Encode(ids) <= data && StrictlyAscendingList(ids)
    ensures Decode(data) == Ok(ids)
  {
    var e := Encode(ids);
    var n := |ids|;
    assert |e| == 15 + 8 * n;
    assert data[..6] == e[..6] == MAGIC;
    assert data[6] == e[6] == SPARSE;
    assert data[7..15] == e[7..15] == Word8(n);
    Word8Read(n);
    assert data[15..][..8 * n] == e[15..] == WordBytes(ids);
    WordBytesRead(ids, []);
    assert WordBytes(ids) + [] == WordBytes(ids);
  }

  // A file is rejected exactly when it starts with no encoding of an ascending list.
  lemma RejectedExactly(data: seq<Byte>)
    ensures Decode(data).Err? <==>
            !exists ids: seq<UInt64> :: |ids| < WORD_LIMIT && Encode(ids) <= data && StrictlyAscending(ids)
  {
    if Decode(data).Ok? {
      var ids := Decode(data).value;
      AcceptedExactly(data, ids);
    } else if exists ids: seq<UInt64> :: |ids| < WORD_LIMIT && Encode(ids) <= data && StrictlyAscending(ids) {
      var ids: seq<UInt64> :| |ids| < WORD_LIMIT && Encode(ids) <= data && StrictlyAscending(ids);
      AcceptedExactly(data, ids);
    }
  }

  // Why a file is rejected, byte by byte; the first reason that applies is given.
  lemma RejectedBecause(data: seq<Byte>)
    ensures Decode(data) == Err(NotASetFile) <==> !([0x53, 0x58, 0x53, 0x45, 0x54, 0x31] <= data && 15 <= |data|)
    ensures Decode(data) == Err(UnknownType) <==>
            [0x53, 0x58, 0x53, 0x45, 0x54, 0x31] <= data && 15 <= |data| && data[6] != 0x53
    ensures Decode(data) == Err(Truncated) <==>
            [0x53, 0x58, 0x53, 0x45, 0x54, 0x31, 0x53] <= data && 15 <= |data| < 15 + 8 * ReadWord8(data[7..15])
    ensures Decode(data) == Err(NotAscending) <==>
            [0x53, 0x58, 0x53, 0x45, 0x54, 0x31, 0x53] <= data && 15 <= |data|
            && 15 + 8 * ReadWord8(data[7..15]) <= |data|
            && !StrictlyAscending(BytesWords(data[15..15 + 8 * ReadWord8(data[7..15])]))
  {
    if 15 <= |data| {
      assert data[..7] == data[..6] + [data[6]];
      var n: nat := ReadWord8(data[7..15]);
      if 15 + 8 * n <= |data| {
        assert data[15..15 + 8 * n] == data[15..][..8 * n];
        AscendingByNeighbours(BytesWords(data[15..15 + 8 * n]));
      }
    }
  }

  // The file of the set that holds 5 and 258.
  lemma FileOfTwo()
    ensures Encode([5, 258]) ==
            [0x53, 0x58, 0x53, 0x45, 0x54, 0x31, 0x53, 2, 0, 0, 0, 0, 0, 0, 0]
            + [5, 0, 0, 0, 0, 0, 0, 0] + [2, 1, 0, 0, 0, 0, 0, 0]
  {
    SmallWord(2, 0);
    SmallWord(5, 0);
    SmallWord(2, 1);
    assert [5, 258][1..] == [258] && [258][1..] == [];
    assert WordBytes([5, 258]) == Word8(5) + Word8(258);
  }

  lemma SmallWord(low: Byte, high: Byte)
    ensures Word8(low + 256 * high) == [low, high, 0, 0, 0, 0, 0, 0]
  {
    var n := low + 256 * high;
    assert LittleEndian(0, 3) == [0, 0, 0];
    assert LittleEndian(0, 6) == [0, 0, 0] + LittleEndian(0, 3);
    assert LittleEndian(n, 8) == [low] + LittleEndian(high, 7);
    assert LittleEndian(high, 7) == [high] + LittleEndian(0, 6);
  }

  // ----- the buffered writer and the reader

  method WriteFile(s: Set) returns (file: seq<Byte>)
    requires s.Valid() && |s.ids| < WORD_LIMIT
    modifies s
    ensures s.Valid() && s.Contents() == old(s.Contents())
    ensures exists ids: seq<UInt64> :: |ids| < WORD_LIMIT && StrictlyAscending(ids)
              && (forall x :: x in ids <==> x in s.Contents()) && file == Encode(ids)
  {
    ghost var given := s.ids;
    var ids := s.IDs();
    assert Elements(ids) == Elements(given);
    NoLonger(ids, given);
    file := Write(ids);
  }

  // The buffered writes, one after another.
  method Write(ids: seq<UInt64>) returns (file: seq<Byte>)
    requires |ids| < WORD_LIMIT
    ensures file == Encode(ids)
  {
    file := MAGIC;
    file := file + [SPARSE];
    var buf := Word8(|ids|);
    file := file + buf;
    ghost var header := file;
    assert WordBytes(ids[..0]) == [];
    for i := 0 to |ids|
      invariant file == header + WordBytes(ids[..i])
    {
      buf := Word8(ids[i]);
      WordBytesSnoc(ids, i);
      file := file + buf;
    }
    assert ids[..|ids|] == ids;
  }

  lemma {:induction false} WordBytesSnoc(ids: seq<UInt64>, i: nat)
    requires i < |ids|
    ensures WordBytes(ids[..i + 1]) == WordBytes(ids[..i]) + Word8(ids[i])
    decreases i
  {
    if i == 0 {
      assert ids[..1][1..] == [];
    } else {
      WordBytesSnoc(ids[1..], i - 1);
      assert ids[..i + 1][1..] == ids[1..][..i];
      assert ids[..i][1..] == ids[1..][..i - 1];
    }
  }

  // A set already marked sorted, or the error.
  method ReadFile(data: seq<Byte>) returns (r: Result<Set, FileError>)
    ensures r.Ok? ==> fresh(r.value) && r.value.Valid() && r.value.sorted && Decode(data) == Ok(r.value.ids)
    ensures r.Err? ==> Decode(data) == Err(r.error)
  {
    if |data| < 15 || data[..6] != MAGIC {
      return Err(NotASetFile);
    }
    if data[6] != SPARSE {
      return Err(UnknownType);
    }
    var n := ReadWord8(data[7..15]);
    var body := data[15..];
    if n > |body| / 8 {
      return Err(Truncated);
    }
    var ids := ReadWords(body, n);
    var i := 1;
    while i < |ids|
      invariant 1 <= i
      invariant forall k :: 1 <= k < i && k < |ids| ==> ids[k - 1] < ids[k]
    {
      if ids[i - 1] >= ids[i] {
        return Err(NotAscending);
      }
      i := i + 1;
    }
    AscendingByNeighbours(ids);
    var s := new Set.Sorted(ids);
    r := Ok(s);
  }

  method ReadWords(body: seq<Byte>, n: nat) returns (ids: seq<UInt64>)
    requires 8 * n <= |body|
    ensures ids == BytesWords(body[..8 * n])
  {
    var words := new UInt64[n];
    for i := 0 to n
      invariant words[..i] == BytesWords(body[..8 * i])
    {
      words[i] := ReadWord8(body[8 * i..8 * i + 8]);
      BytesWordsSnoc(body, i);
      assert words[..i + 1] == words[..i] + [words[i]];
    }
    ids := words[..];
  }

  // Slices of a body and of what follows its first word.
  lemma DropWord(body: seq<Byte>, i: nat)
    requires 0 < i && 8 * i + 8 <= |body|
    ensures body[..8 * (i + 1)][8..] == body[8..][..8 * i] && body[..8 * i][8..] == body[8..][..8 * (i - 1)]
    ensures body[..8 * (i + 1)][..8] == body[..8 * i][..8]
    ensures body[8..][8 * (i - 1)..8 * (i - 1) + 8] == body[8 * i..8 * i + 8]
  {
  }

  lemma {:induction false} BytesWordsSnoc(body: seq<Byte>, i: nat)
    requires 8 * i + 8 <= |body|
    ensures BytesWords(body[..8 * (i + 1)]) == BytesWords(body[..8 * i]) + [ReadWord8(body[8 * i..8 * i + 8])]
    decreases i
  {
    if i == 0 {
      assert body[..8][8..] == [];
      assert body[..8][..8] == body[0..8];
    } else {
      BytesWordsSnoc(body[8..], i - 1);
      DropWord(body, i);
    }
  }
}
