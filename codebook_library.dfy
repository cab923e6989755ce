/** src/codebook_library.c: a library of packed Vorbis codebooks and its two
    on-disk layouts.

    - Current layout: `count` little-endian u32 offsets, then the codebooks
      back to back; offset i is where codebook i starts, and the last codebook
      ends at the end of the data.
    - Deprecated layout: the codebooks back to back, then a trailer of `count`
      u32 cumulative end offsets; the last word of the data is therefore the
      start of the trailer.

    The library is a class whose fields the operations update in place, as in
    the source. Allocation failures are not modelled. */
module CodebookLibrary {
  import opened Bytes
  import opened Wrappers

  /** CODEBOOK_SUCCESS 0, CODEBOOK_ERROR -1, CODEBOOK_CORRUPT -2 (codebook_library.h). */
  datatype Code = Success | Error | Corrupt
  {
    function Value(): int {
      match this
      case Success => 0
      case Error => -1
      case Corrupt => -2
    }
  }

  /** What a deserialisation leaves behind: the code, the codebook array and
      `codebook_count` (which the deprecated reader may leave different from
      the array length). */
  datatype Outcome = Outcome(code: Code, books: seq<seq<byte>>, count: nat)

  // -----------------------------------------------------------------------
  // Serialisation

  /** Offset table of the current layout: codebook i starts at ofs plus the
      sizes of the codebooks before it, each written as a u32 (truncated). */
  function OffsetTable(books: seq<seq<byte>>, ofs: nat): (t: seq<byte>)
    ensures |t| == 4 * |books|
  {
    if books == [] then []
    else OffsetTable(books[..|books| - 1], ofs) + U32Bytes((ofs + TotalSize(books[..|books| - 1])) % U32)
  }

  /** codebook_library_serialize: offsets, then codebooks. */
  function Serialized(books: seq<seq<byte>>): (d: seq<byte>)
    ensures |d| == 4 * |books| + TotalSize(books)
  {
    OffsetTable(books, 4 * |books|) + Concat(books)
  }

  /** Trailer of the deprecated layout: entry i is the end of codebook i. */
  function EndTable(books: seq<seq<byte>>): (t: seq<byte>)
    ensures |t| == 4 * |books|
  {
    if books == [] then [] else EndTable(books[..|books| - 1]) + U32Bytes(TotalSize(books) % U32)
  }

  /** codebook_library_serialize_deprecated: codebooks, then the end offsets. */
  function SerializedDeprecated(books: seq<seq<byte>>): (d: seq<byte>)
    ensures |d| == TotalSize(books) + 4 * |books|
  {
    Concat(books) + EndTable(books)
  }

  /** The freshly allocated (zeroed) codebook array of `count` entries. */
  function Unfilled(count: nat): (books: seq<seq<byte>>)
    ensures |books| == count && forall i :: 0 <= i < count ==> books[i] == []
  {
    seq(count, _ => [])
  }

  // -----------------------------------------------------------------------
  // Deserialisation, as functions of the data and the library's old state

  /** The loop of lines 78-90: codebooks count..1, each ending where the next
      one starts; `end` starts at the data size truncated to u32. */
  function FillBack(data: seq<byte>, i: nat, end: nat, books: seq<seq<byte>>): (r: (Code, seq<seq<byte>>))
    requires 4 * i <= |data| && end <= |data| && i <= |books|
    ensures |r.1| == |books| && r.0 != Error
    decreases i
  {
    if i == 0 then (Success, books)
    else
      var start := U32At(data, 4 * (i - 1));
      if end < start || start > |data| then (Corrupt, books)
      else FillBack(data, i - 1, start, books[i - 1 := data[start..end]])
  }

  /** codebook_library_deserialize (lines 61-92). */
  function Deserialized(data: Option<seq<byte>>, books0: seq<seq<byte>>, count0: nat): (r: Outcome)
    ensures r.code == Error <==> data.None? || |data.value| < 4
    ensures r.code == Error ==> r.books == books0 && r.count == count0
    ensures r.code == Success ==> r.count == U32At(data.value, 0) / 4 && |r.books| == r.count
  {
    if data.None? || |data.value| < 4 then Outcome(Error, books0, count0)
    else
      var d := data.value;
      var first := U32At(d, 0);
      var count := first / 4;
      if first > |d| || count * 4 > |d| then Outcome(Corrupt, books0, count0)
      else
        var r := FillBack(d, count, |d| % U32, Unfilled(count));
        Outcome(r.0, r.1, count)
  }

  /** The loop of lines 44-58: codebook i ends at trailer word i and starts
      where codebook i-1 ended; `filled` counts the codebooks copied. */
  function FillFront(data: seq<byte>, table: nat, count: nat, i: nat, start: nat, books: seq<seq<byte>>)
    : (r: (Code, seq<seq<byte>>, nat))
    requires table + 4 * count <= |data| && i <= count && count == |books| && start <= |data|
    ensures |r.1| == |books| && i <= r.2 <= count
    ensures r.0 != Error && (r.0 == Success <==> r.2 == count)
    decreases count - i
  {
    if i == count then (Success, books, i)
    else
      var end := U32At(data, table + 4 * i);
      if end < start || end > |data| then (Corrupt, books, i)
      else FillFront(data, table, count, i + 1, end, books[i := data[start..end]])
  }

  /** The number of trailer words the deprecated reader assumes: the bytes
      from the trailer start to the end, in words, truncated to u32. */
  function TrailerCount(len: nat, lastEnd: nat): (count: nat)
    requires lastEnd <= len
    ensures count < U32 && lastEnd + 4 * count <= len
  {
    var q := (len - lastEnd) / 4;
    assert 4 * q <= len - lastEnd;
    q % U32
  }

  /** A trailer of exactly n words is counted as n. */
  lemma TrailerCountExact(len: nat, lastEnd: nat, n: nat)
    requires len == lastEnd + 4 * n && n < U32
    ensures TrailerCount(len, lastEnd) == n
  {
    assert (len - lastEnd) / 4 == n;
  }

  /** One step of the forward fill that copies a codebook. */
  lemma FillFrontStep(data: seq<byte>, table: nat, count: nat, i: nat, start: nat, books: seq<seq<byte>>)
    requires table + 4 * count <= |data| && i < count && count == |books| && start <= |data|
    requires start <= U32At(data, table + 4 * i) <= |data|
    ensures var end := U32At(data, table + 4 * i);
            FillFront(data, table, count, i, start, books) == FillFront(data, table, count, i + 1, end, books[i := data[start..end]])
  {
  }

  /** codebook_count after adding n to it in 32-bit arithmetic. */
  function Grown(count0: nat, n: nat): (c: nat)
    ensures c < U32
  {
    (count0 + n) % U32
  }

  /** Counting one more codebook in 32-bit arithmetic. */
  lemma GrownSucc(count0: nat, n: nat)
    ensures (Grown(count0, n) + 1) % U32 == Grown(count0, n + 1)
  {
    Wrap32Succ(count0 + n);
  }

  /** codebook_library_deserialize_deprecated (lines 26-60): codebook_count
      grows from its old value by the number of codebooks copied. */
  function DeserializedDeprecated(data: Option<seq<byte>>, books0: seq<seq<byte>>, count0: nat): (r: Outcome)
    ensures r.code == Error <==> data.None? || |data.value| < 4
    ensures r.code == Error ==> r.books == books0 && r.count == count0
    ensures r.code == Success ==> r.count == (count0 + |r.books|) % U32
  {
    if data.None? || |data.value| < 4 then Outcome(Error, books0, count0)
    else
      var d := data.value;
      var lastEnd := U32At(d, |d| - 4);
      if lastEnd > |d| - 4 then Outcome(Corrupt, books0, count0)
      else
        var count := TrailerCount(|d|, lastEnd);
        var r := FillFront(d, lastEnd, count, 0, 0, Unfilled(count));
        Outcome(r.0, r.1, Grown(count0, r.2))
  }

  // -----------------------------------------------------------------------
  // Properties

  /** Serialising nothing produces no bytes, which the reader rejects. */
  lemma EmptyLibraryNotReadable(books0: seq<seq<byte>>, count0: nat)
    ensures Serialized([]) == [] && SerializedDeprecated([]) == []
    ensures Deserialized(Some(Serialized([])), books0, count0).code == Error
    ensures DeserializedDeprecated(Some(SerializedDeprecated([])), books0, count0).code == Error
  {
  }

  /** Offset word i of the current layout is 4*count plus the sizes before codebook i. */
  lemma {:induction false} OffsetTableAt(books: seq<seq<byte>>, ofs: nat, i: nat, rest: seq<byte>)
    requires i < |books|
    ensures U32At(OffsetTable(books, ofs) + rest, 4 * i) == (ofs + TotalSize(books[..i])) % U32
  {
    var n := |books| - 1;
    var front := books[..n];
    var w := U32Bytes((ofs + TotalSize(front)) % U32);
    assert OffsetTable(books, ofs) + rest == OffsetTable(front, ofs) + w + rest;
    if i == n {
      U32AtConcat(OffsetTable(front, ofs), (ofs + TotalSize(front)) % U32, rest);
    } else {
      assert front[..i] == books[..i];
      OffsetTableAt(front, ofs, i, w + rest);
      assert OffsetTable(front, ofs) + (w + rest) == OffsetTable(front, ofs) + w + rest;
    }
  }

  /** Trailer word i of the deprecated layout is the end of codebook i. */
  lemma {:induction false} EndTableAt(books: seq<seq<byte>>, i: nat, before: seq<byte>)
    requires i < |books|
    ensures U32At(before + EndTable(books), |before| + 4 * i) == TotalSize(books[..i + 1]) % U32
  {
    var n := |books| - 1;
    var front := books[..n];
    var v := TotalSize(books) % U32;
    assert before + EndTable(books) == (before + EndTable(front)) + U32Bytes(v) + [];
    if i == n {
      assert books[..i + 1] == books;
      U32AtConcat(before + EndTable(front), v, []);
    } else {
      assert front[..i + 1] == books[..i + 1];
      EndTableAt(front, i, before);
      var s := before + EndTable(front);
      assert (before + EndTable(books))[..|s|] == s;
      assert (before + EndTable(books))[|before| + 4 * i..|before| + 4 * i + 4] == s[|before| + 4 * i..|before| + 4 * i + 4];
    }
  }

  /** Below 2^32 no offset is truncated. */
  lemma OffsetTableAtSmall(books: seq<seq<byte>>, ofs: nat, i: nat, rest: seq<byte>)
    requires i < |books| && ofs + TotalSize(books) < U32
    ensures U32At(OffsetTable(books, ofs) + rest, 4 * i) == ofs + TotalSize(books[..i])
  {
    TotalSizePrefix(books, i);
    Fits32(ofs + TotalSize(books[..i]));
    OffsetTableAt(books, ofs, i, rest);
  }

  /** Below 2^32 no end offset is truncated. */
  lemma EndTableAtSmall(books: seq<seq<byte>>, i: nat, before: seq<byte>, at: nat)
    requires i < |books| && TotalSize(books) < U32 && at == |before|
    ensures at + 4 * i + 4 <= |before + EndTable(books)|
    ensures U32At(before + EndTable(books), at + 4 * i) == TotalSize(books[..i + 1])
  {
    EndTableAt(books, i, before);
    EndWordSmall(books, i);
  }

  /** The end of codebook i is below 2^32 when the total is. */
  lemma EndWordSmall(books: seq<seq<byte>>, i: nat)
    requires i < |books| && TotalSize(books) < U32
    ensures TotalSize(books[..i + 1]) % U32 == TotalSize(books[..i + 1])
  {
    TotalSizePrefix(books, i);
    Fits32(TotalSize(books[..i + 1]));
  }

  /** Offset word j of `d` holds the start of codebook j in the current layout. */
  ghost predicate CurrentWord(d: seq<byte>, books: seq<seq<byte>>, j: nat)
    requires j < |books|
  {
    4 * j + 4 <= |d| && U32At(d, 4 * j) == 4 * |books| + TotalSize(books[..j])
  }

  /** Codebook j occupies its place in `d` in the current layout: after the
      offset table and the codebooks before it. */
  ghost predicate CurrentSlice(d: seq<byte>, books: seq<seq<byte>>, j: nat)
    requires j < |books|
  {
    var start := 4 * |books| + TotalSize(books[..j]);
    var end := 4 * |books| + TotalSize(books[..j + 1]);
    start <= end <= |d| && d[start..end] == books[j]
  }

  /** Codebook j is laid out in `d` as the current layout places it. */
  ghost predicate CurrentEntry(d: seq<byte>, books: seq<seq<byte>>, j: nat)
    requires j < |books|
  {
    CurrentWord(d, books, j) && CurrentSlice(d, books, j)
  }

  lemma SerializedEntry(books: seq<seq<byte>>, j: nat)
    requires 4 * |books| + TotalSize(books) < U32 && j < |books|
    ensures CurrentEntry(Serialized(books), books, j)
  {
    SerializedWord(books, j);
    SerializedSlice(books, j);
  }

  lemma SerializedWord(books: seq<seq<byte>>, j: nat)
    requires 4 * |books| + TotalSize(books) < U32 && j < |books|
    ensures CurrentWord(Serialized(books), books, j)
  {
    OffsetTableAtSmall(books, 4 * |books|, j, Concat(books));
  }

  lemma SerializedSlice(books: seq<seq<byte>>, j: nat)
    requires j < |books|
    ensures CurrentSlice(Serialized(books), books, j)
  {
    TotalSizePrefix(books, j);
    SliceBehind(OffsetTable(books, 4 * |books|), books, j);
  }

  /** Codebook j sits in prefix + Concat(books) right after the prefix and
      the codebooks before it. */
  lemma SliceBehind(prefix: seq<byte>, books: seq<seq<byte>>, j: nat)
    requires j < |books|
    ensures var start := |prefix| + TotalSize(books[..j]);
            start + |books[j]| <= |prefix| + TotalSize(books) &&
            (prefix + Concat(books))[start..start + |books[j]|] == books[j]
  {
    ConcatAt(books, j);
    var s0 := TotalSize(books[..j]);
    var c := Concat(books);
    assert (prefix + c)[|prefix| + s0..|prefix| + s0 + |books[j]|] == c[s0..s0 + |books[j]|];
  }

  /** Codebook j sits in Concat(books) + suffix right after the codebooks
      before it. */
  lemma SliceInFront(books: seq<seq<byte>>, suffix: seq<byte>, j: nat)
    requires j < |books|
    ensures var start := TotalSize(books[..j]);
            start + |books[j]| <= TotalSize(books) &&
            (Concat(books) + suffix)[start..start + |books[j]|] == books[j]
  {
    ConcatAt(books, j);
    var s0 := TotalSize(books[..j]);
    var c := Concat(books);
    assert (c + suffix)[s0..s0 + |books[j]|] == c[s0..s0 + |books[j]|];
  }

  /** The backward fill of a buffer holding every codebook in the current
      layout copies codebooks i down to 1 and succeeds. */
  lemma {:induction false} FillBackSerialized(books: seq<seq<byte>>, d: seq<byte>, i: nat, end: nat, b: seq<seq<byte>>)
    requires |d| == 4 * |books| + TotalSize(books)
    requires forall j :: 0 <= j < |books| ==> CurrentEntry(d, books, j)
    requires i <= |books| && |b| == |books| && end == 4 * |books| + TotalSize(books[..i])
    requires forall j :: i <= j < |books| ==> b[j] == books[j]
    ensures end <= |d| && 4 * i <= |d|
    ensures FillBack(d, i, end, b) == (Success, books)
    decreases i
  {
    if i == 0 {
      TotalSizeWhole(books);
      assert b == books;
    } else {
      var start := 4 * |books| + TotalSize(books[..i - 1]);
      var b' := b[i - 1 := books[i - 1]];
      FillBackSerialized(books, d, i - 1, start, b');
      FillBackSerializedStep(books, d, i, end, b, start, b');
    }
  }

  /** The round of FillBackSerialized that copies codebook i-1, given the
      fill from there on. */
  lemma FillBackSerializedStep(books: seq<seq<byte>>, d: seq<byte>, i: nat, end: nat, b: seq<seq<byte>>,
                               start: nat, b': seq<seq<byte>>)
    requires |d| == 4 * |books| + TotalSize(books)
    requires forall j :: 0 <= j < |books| ==> CurrentEntry(d, books, j)
    requires 0 < i <= |books| && |b| == |books| && end == 4 * |books| + TotalSize(books[..i])
    requires start == 4 * |books| + TotalSize(books[..i - 1]) && b' == b[i - 1 := books[i - 1]]
    requires start <= |d| && 4 * (i - 1) <= |d| && FillBack(d, i - 1, start, b') == (Success, books)
    ensures end <= |d| && 4 * i <= |d|
    ensures FillBack(d, i, end, b) == (Success, books)
  {
    assert CurrentEntry(d, books, i - 1);
    if i < |books| {
      TotalSizePrefix(books, i);
    } else {
      TotalSizeWhole(books);
    }
    FillBackStep(d, i, end, b, start);
  }

  /** One round of the backward fill, whose start word is not past `end`. */
  lemma FillBackStep(d: seq<byte>, i: nat, end: nat, b: seq<seq<byte>>, start: nat)
    requires 0 < i <= |b| && 4 * i <= |d| && end <= |d|
    requires U32At(d, 4 * (i - 1)) == start && start <= end
    ensures FillBack(d, i, end, b) == FillBack(d, i - 1, start, b[i - 1 := d[start..end]])
  {
  }

  /** Deserialisation of a buffer whose first offset is 4*n and fits. */
  lemma DeserializedFits(d: seq<byte>, n: nat, books: seq<seq<byte>>, books0: seq<seq<byte>>, count0: nat)
    requires 4 <= |d| < U32 && U32At(d, 0) == 4 * n && 4 * n <= |d|
    requires FillBack(d, n, |d|, Unfilled(n)) == (Success, books)
    ensures Deserialized(Some(d), books0, count0) == Outcome(Success, books, n)
  {
    assert (4 * n) / 4 == n;
    Fits32(|d|);
  }

  /** The whole backward fill of a buffer holding every codebook in the
      current layout. */
  lemma FillBackAll(books: seq<seq<byte>>, d: seq<byte>)
    requires |d| == 4 * |books| + TotalSize(books)
    requires forall j :: 0 <= j < |books| ==> CurrentEntry(d, books, j)
    ensures 4 * |books| <= |d| && FillBack(d, |books|, |d|, Unfilled(|books|)) == (Success, books)
  {
    TotalSizeWhole(books);
    FillBackSerialized(books, d, |books|, |d|, Unfilled(|books|));
  }

  /** Round trip of the current layout: a library of at least one codebook,
      small enough for u32 offsets, reads back as itself. */
  lemma RoundTrip(books: seq<seq<byte>>, books0: seq<seq<byte>>, count0: nat)
    requires 1 <= |books| && 4 * |books| + TotalSize(books) < U32
    ensures Deserialized(Some(Serialized(books)), books0, count0) == Outcome(Success, books, |books|)
  {
    var d := Serialized(books);
    forall j | 0 <= j < |books|
      ensures CurrentEntry(d, books, j)
    {
      SerializedEntry(books, j);
    }
    assert books[..0] == [];
    SerializedWord(books, 0);
    FillBackAll(books, d);
    DeserializedFits(d, |books|, books, books0, count0);
  }

  /** Trailer word j of `d` holds the end of codebook j in the deprecated layout. */
  ghost predicate DeprecatedWord(d: seq<byte>, books: seq<seq<byte>>, j: nat)
    requires j < |books|
  {
    TotalSize(books) + 4 * j + 4 <= |d| && U32At(d, TotalSize(books) + 4 * j) == TotalSize(books[..j + 1])
  }

  /** Codebook j occupies its place in `d` in the deprecated layout: right
      after the codebooks before it. */
  ghost predicate DeprecatedSlice(d: seq<byte>, books: seq<seq<byte>>, j: nat)
    requires j < |books|
  {
    var start := TotalSize(books[..j]);
    var end := TotalSize(books[..j + 1]);
    start <= end <= TotalSize(books) && end <= |d| && d[start..end] == books[j]
  }

  /** Codebook j is laid out in `d` as the deprecated layout places it. */
  ghost predicate DeprecatedEntry(d: seq<byte>, books: seq<seq<byte>>, j: nat)
    requires j < |books|
  {
    DeprecatedWord(d, books, j) && DeprecatedSlice(d, books, j)
  }

  lemma SerializedDeprecatedEntry(books: seq<seq<byte>>, j: nat)
    requires 4 * |books| + TotalSize(books) < U32 && j < |books|
    ensures DeprecatedEntry(SerializedDeprecated(books), books, j)
  {
    SerializedDeprecatedWord(books, j);
    SerializedDeprecatedSlice(books, j);
  }

  lemma SerializedDeprecatedWord(books: seq<seq<byte>>, j: nat)
    requires TotalSize(books) < U32 && j < |books|
    ensures DeprecatedWord(SerializedDeprecated(books), books, j)
  {
    EndTableWord(books, j, Concat(books));
  }

  /** Trailer word j behind any run of TotalSize(books) bytes. */
  lemma EndTableWord(books: seq<seq<byte>>, j: nat, c: seq<byte>)
    requires TotalSize(books) < U32 && j < |books| && |c| == TotalSize(books)
    ensures DeprecatedWord(c + EndTable(books), books, j)
  {
    EndTableAtSmall(books, j, c, TotalSize(books));
  }

  lemma SerializedDeprecatedSlice(books: seq<seq<byte>>, j: nat)
    requires j < |books|
    ensures DeprecatedSlice(SerializedDeprecated(books), books, j)
  {
    TotalSizePrefix(books, j);
    SliceInFront(books, EndTable(books), j);
  }

  /** The forward fill of a buffer holding every codebook in the deprecated
      layout copies codebooks i..count-1 and succeeds with all of them copied. */
  lemma {:induction false} FillFrontSerialized(books: seq<seq<byte>>, d: seq<byte>, i: nat, b: seq<seq<byte>>)
    requires |d| == TotalSize(books) + 4 * |books|
    requires forall j :: 0 <= j < |books| ==> DeprecatedEntry(d, books, j)
    requires i <= |books| && |b| == |books|
    requires forall j :: 0 <= j < i ==> b[j] == books[j]
    ensures TotalSize(books[..i]) <= |d|
    ensures FillFront(d, TotalSize(books), |books|, i, TotalSize(books[..i]), b) == (Success, books, |books|)
    decreases |books| - i
  {
    var n := |books|;
    if i == n {
      assert b == books;
      assert books[..n] == books;
    } else {
      TotalSizePrefix(books, i);
      assert DeprecatedEntry(d, books, i);
      FillFrontSerialized(books, d, i + 1, b[i := books[i]]);
    }
  }

  /** Deprecated deserialisation of a buffer whose trailer of n words
      starts at `table`. */
  lemma DeprecatedTrailerFits(d: seq<byte>, n: nat, table: nat, books: seq<seq<byte>>, books0: seq<seq<byte>>, count0: nat)
    requires 1 <= n && 4 * n + table < U32
    requires |d| == table + 4 * n
    requires 4 <= |d| && U32At(d, |d| - 4) == table
    requires FillFront(d, table, n, 0, 0, Unfilled(n)) == (Success, books, n)
    ensures DeserializedDeprecated(Some(d), books0, count0) == Outcome(Success, books, Grown(count0, n))
  {
    assert (|d| - table) / 4 == n;
    Fits32(n);
  }

  /** The whole forward fill of a buffer holding every codebook in the
      deprecated layout. */
  lemma FillFrontAll(books: seq<seq<byte>>, d: seq<byte>)
    requires |d| == TotalSize(books) + 4 * |books|
    requires forall j :: 0 <= j < |books| ==> DeprecatedEntry(d, books, j)
    ensures FillFront(d, TotalSize(books), |books|, 0, 0, Unfilled(|books|)) == (Success, books, |books|)
  {
    assert books[..0] == [];
    FillFrontSerialized(books, d, 0, Unfilled(|books|));
  }

  /** The last word of a buffer holding every codebook in the deprecated
      layout is the start of its trailer. */
  lemma LastTrailerWord(books: seq<seq<byte>>, d: seq<byte>)
    requires 1 <= |books| && |d| == TotalSize(books) + 4 * |books|
    requires DeprecatedWord(d, books, |books| - 1)
    ensures 4 <= |d| && U32At(d, |d| - 4) == TotalSize(books)
  {
    TotalSizeWhole(books);
    assert |books| - 1 + 1 == |books|;
  }

  /** The serialised deprecated layout ends with the start of its trailer. */
  lemma SerializedDeprecatedTrailer(books: seq<seq<byte>>)
    requires 1 <= |books| && 4 * |books| + TotalSize(books) < U32
    ensures 4 <= |SerializedDeprecated(books)|
      && U32At(SerializedDeprecated(books), |SerializedDeprecated(books)| - 4) == TotalSize(books)
  {
    var v := TotalSize(books) % U32;
    assert EndTable(books) == EndTable(books[..|books| - 1]) + U32Bytes(v);
    LastWord(Concat(books), EndTable(books[..|books| - 1]), v);
    Fits32(TotalSize(books));
  }

  /** The last word of a buffer ending in the bytes of `v` is `v`. */
  lemma LastWord(a: seq<byte>, b: seq<byte>, v: nat)
    requires v < U32
    ensures var s := a + (b + U32Bytes(v));
      4 <= |s| && U32At(s, |s| - 4) == v
  {
    assert a + (b + U32Bytes(v)) == (a + b) + U32Bytes(v) + [];
    U32AtConcat(a + b, v, []);
  }

  /** The serialised deprecated layout fills forward into exactly the
      codebooks it was made from. */
  lemma SerializedDeprecatedFills(books: seq<seq<byte>>)
    requires 4 * |books| + TotalSize(books) < U32
    ensures FillFront(SerializedDeprecated(books), TotalSize(books), |books|, 0, 0, Unfilled(|books|)) == (Success, books, |books|)
  {
    var d := SerializedDeprecated(books);
    forall j | 0 <= j < |books|
      ensures DeprecatedEntry(d, books, j)
    {
      SerializedDeprecatedEntry(books, j);
    }
    FillFrontAll(books, d);
  }

  /** Round trip of the deprecated layout; codebook_count grows by the number
      of codebooks read. */
  lemma RoundTripDeprecated(books: seq<seq<byte>>, books0: seq<seq<byte>>, count0: nat)
    requires 1 <= |books| && 4 * |books| + TotalSize(books) < U32
    ensures DeserializedDeprecated(Some(SerializedDeprecated(books)), books0, count0)
         == Outcome(Success, books, Grown(count0, |books|))
  {
    SerializedDeprecatedTrailer(books);
    SerializedDeprecatedFills(books);
    TrailerCountExact(|SerializedDeprecated(books)|, TotalSize(books), |books|);
    DeprecatedTrailerFits(SerializedDeprecated(books), |books|, TotalSize(books), books, books0, count0);
  }

  /** A first offset beyond the data is reported as corruption and leaves the
      library untouched. */
  lemma FirstOffsetBeyondData(d: seq<byte>, books0: seq<seq<byte>>, count0: nat)
    requires |d| >= 4 && U32At(d, 0) > |d|
    ensures Deserialized(Some(d), books0, count0) == Outcome(Corrupt, books0, count0)
  {
  }

  /** A decreasing offset stops the backward fill with CODEBOOK_CORRUPT. */
  lemma DecreasingOffsetIsCorrupt(d: seq<byte>, books0: seq<seq<byte>>, count0: nat)
    requires |d| >= 8 && U32At(d, 0) == 8 && U32At(d, 4) < 8
    ensures Deserialized(Some(d), books0, count0).code == Corrupt
  {
    var b: seq<seq<byte>> := seq(2, _ => []);
    var r := FillBack(d, 2, |d| % U32, b);
    if U32At(d, 4) <= |d| % U32 {
      var b1 := b[1 := d[U32At(d, 4)..|d| % U32]];
      assert r == FillBack(d, 1, U32At(d, 4), b1);
    }
  }

  // -----------------------------------------------------------------------
  // The library object

  class Library {
    /** `codebooks`; each entry's length is its codebook_size. */
    var codebooks: seq<seq<byte>>
    /** `codebook_count` (u32). */
    var codebookCount: nat

    ghost predicate Valid()
      reads this
    {
      codebookCount <= |codebooks| && codebookCount < U32
      && forall i :: 0 <= i < |codebooks| ==> |codebooks[i]| < U32
    }

    constructor ()
      ensures codebooks == [] && codebookCount == 0 && Valid()
    {
      codebooks := [];
      codebookCount := 0;
    }

    /** codebook_library_clear: the array is released and the count zeroed. */
    method Clear()
      modifies this
      ensures codebooks == [] && codebookCount == 0 && Valid()
    {
      codebooks := [];
      codebookCount := 0;
    }

    /** codebook_library_deserialize. */
    method Deserialize(data: Option<seq<byte>>) returns (code: Code)
      modifies this
      ensures Outcome(code, codebooks, codebookCount) == Deserialized(data, old(codebooks), old(codebookCount))
    {
      if data.None? || |data.value| < 4 {
        return Error;
      }
      var d := data.value;
      var count := U32At(d, 0) / 4;
      if U32At(d, 0) > |d| || count * 4 > |d| {
        return Corrupt;
      }
      codebooks := Unfilled(count);
      codebookCount := count;
      var i: nat := count;
      var end: nat := |d| % U32;
      while i > 0
        invariant i <= count && end <= |d| && |codebooks| == count && codebookCount == count
        invariant FillBack(d, i, end, codebooks) == FillBack(d, count, |d| % U32, Unfilled(count))
      {
        var start := U32At(d, 4 * (i - 1));
        if end < start || start > |d| {
          return Corrupt;
        }
        codebooks := codebooks[i - 1 := d[start..end]];
        end := start;
        i := i - 1;
      }
      return Success;
    }

    /** codebook_library_deserialize_deprecated. */
    method DeserializeDeprecated(data: Option<seq<byte>>) returns (code: Code)
      requires codebookCount < U32
      modifies this
      ensures Outcome(code, codebooks, codebookCount) == DeserializedDeprecated(data, old(codebooks), old(codebookCount))
    {
      if data.None? || |data.value| < 4 {
        return Error;
      }
      var d := data.value;
      var lastEnd := U32At(d, |d| - 4);
      if lastEnd > |d| - 4 {
        return Corrupt;
      }
      var count := TrailerCount(|d|, lastEnd);
      codebooks := Unfilled(count);
      code := CopyForward(d, lastEnd, count);
    }

    /** The copy loop of codebook_library_deserialize_deprecated: codebook i
        runs from the previous end to trailer word i, and codebook_count
        grows by one per codebook copied. */
    method CopyForward(d: seq<byte>, lastEnd: nat, count: nat) returns (code: Code)
      requires lastEnd + 4 * count <= |d| && codebooks == Unfilled(count) && codebookCount < U32
      modifies this
      ensures var r := FillFront(d, lastEnd, count, 0, 0, Unfilled(count));
              code == r.0 && codebooks == r.1 && codebookCount == Grown(old(codebookCount), r.2)
    {
      ghost var count0 := codebookCount;
      var i: nat := 0;
      var start: nat := 0;
      while i < count
        invariant i <= count && start <= |d| && |codebooks| == count
        invariant codebookCount == Grown(count0, i)
        invariant FillFront(d, lastEnd, count, i, start, codebooks) == FillFront(d, lastEnd, count, 0, 0, Unfilled(count))
      {
        var end := U32At(d, lastEnd + 4 * i);
        if end < start || end > |d| {
          return Corrupt;
        }
        FillFrontStep(d, lastEnd, count, i, start, codebooks);
        codebooks := codebooks[i := d[start..end]];
        start := end;
        GrownSucc(count0, i);
        i := i + 1;
        codebookCount := (codebookCount + 1) % U32;
      }
      return Success;
    }

    /** codebook_library_serialize; `hasOut` is false when the caller passes a
        NULL data pointer. The offsets are u32 words, so they are truncated.
        The table size `4 * codebook_count` is a 32-bit product: from 2^30
        codebooks on it wraps and the copies overrun the allocation
        (undefined behaviour, excluded here). */
    method Serialize(hasOut: bool) returns (code: Code, data: seq<byte>)
      requires Valid() && codebookCount < 0x4000_0000
      ensures code == (if hasOut then Success else Error)
      ensures code == Success ==> data == Serialized(codebooks[..codebookCount])
    {
      if !hasOut {
        return Error, [];
      }
      var books := codebooks[..codebookCount];
      var ofs := 4 * codebookCount;
      var table: seq<byte> := [];
      var body: seq<byte> := [];
      for i := 0 to codebookCount
        invariant table == OffsetTable(books[..i], 4 * codebookCount)
        invariant body == Concat(books[..i])
        invariant ofs == 4 * codebookCount + TotalSize(books[..i])
      {
        assert books[..i + 1][..i] == books[..i];
        TotalSizePrefix(books, i);
        table := table + U32Bytes(ofs % U32);
        body := body + books[i];
        ofs := ofs + |books[i]|;
      }
      assert books[..codebookCount] == books;
      code, data := Success, table + body;
    }

    /** codebook_library_serialize_deprecated; the same 32-bit table size
        as Serialize. */
    method SerializeDeprecated(hasOut: bool) returns (code: Code, data: seq<byte>)
      requires Valid() && codebookCount < 0x4000_0000
      ensures code == (if hasOut then Success else Error)
      ensures code == Success ==> data == SerializedDeprecated(codebooks[..codebookCount])
    {
      if !hasOut {
        return Error, [];
      }
      var books := codebooks[..codebookCount];
      var ofs := 0;
      var table: seq<byte> := [];
      var body: seq<byte> := [];
      for i := 0 to codebookCount
        invariant table == EndTable(books[..i])
        invariant body == Concat(books[..i])
        invariant ofs == TotalSize(books[..i])
      {
        assert books[..i + 1][..i] == books[..i];
        TotalSizePrefix(books, i);
        body := body + books[i];
        ofs := ofs + |books[i]|;
        table := table + U32Bytes(ofs % U32);
      }
      assert books[..codebookCount] == books;
      code, data := Success, body + table;
    }
  }
}
