/** The resumable RIFF/RIFX chunk reader of riff.c: a data sync (a growable
    byte buffer with a consumed prefix), the chunk-info cursor describing the
    chunk being read, and the riff being filled with basic chunks and LIST
    chunks. Layout after chapter 2 of the Microsoft/IBM Multimedia
    Programming Interface and Data Specifications 1.0, with the Wwise byte
    orders XFIR and FFIR. Words are read as on a little-endian host.

    The state machine is given as pure step functions over snapshots of the
    three structures (`Sync`, `Tree`, `Info`); the classes below perform the
    same steps field by field and are proved to agree with them. */
module Riff {
  import opened Bytes
  import opened Wrappers

  /* Return codes of riff_consume_chunk and riff_data_sync_apply. */
  const UNRECOGNIZED: int := 2
  const CONSUMED: int := 1
  const INCOMPLETE: int := 0
  const ERROR: int := -1
  const CONSUME_MORE: int := -2
  const NOT_RIFF: int := -3
  const CORRUPTED: int := -4

  const INT_MAX: nat := 0x7FFF_FFFF
  /** Slack added whenever the data sync grows. */
  const BUFF_EXTRA: nat := 4096

  /** The four bytes of a character code. */
  function Fcc(s: string): (f: seq<byte>)
    requires |s| == 4 && forall i :: 0 <= i < 4 ==> s[i] as int < 256
    ensures |f| == 4
  {
    [s[0] as int, s[1] as int, s[2] as int, s[3] as int]
  }

  /* The type tables; a type is its 1-based position in its table. */
  const BasicTypes: seq<seq<byte>> :=
    [Fcc("cue "), Fcc("data"), Fcc("fmt "), Fcc("JUNK"), Fcc("labl"), Fcc("vorb")]
  const ListTypes: seq<seq<byte>> :=
    [Fcc("RIFF"), Fcc("RIFX"), Fcc("XFIR"), Fcc("FFIR"), Fcc("LIST")]
  const SubTypes: seq<seq<byte>> := [Fcc("adtl")]
  const DataTypes: seq<seq<byte>> := [Fcc("WAVE")]
  const Roots: seq<seq<byte>> := [Fcc("RIFF"), Fcc("RIFX"), Fcc("XFIR"), Fcc("FFIR")]

  const BASIC_DATA: nat := 2
  const BASIC_FMT: nat := 3
  const BASIC_VORB: nat := 6

  /** The 1-based position of the first entry of `table` equal to `fcc`, or
      0 when there is none. */
  ghost function FirstMatch(table: seq<seq<byte>>, fcc: seq<byte>): (k: nat)
    ensures k <= |table|
    ensures k == 0 <==> fcc !in table
    ensures k > 0 ==> table[k - 1] == fcc && fcc !in table[..k - 1]
  {
    if fcc !in table then 0
    else
      FirstIndexExists(table, fcc);
      var k :| 0 <= k < |table| && table[k] == fcc && fcc !in table[..k];
      k + 1
  }

  lemma {:induction false} FirstIndexExists(table: seq<seq<byte>>, fcc: seq<byte>)
    requires fcc in table
    ensures exists k :: 0 <= k < |table| && table[k] == fcc && fcc !in table[..k]
  {
    if table[0] == fcc {
      assert table[..0] == [];
    } else {
      FirstIndexExists(table[1..], fcc);
      var k :| 0 <= k < |table[1..]| && table[1..][k] == fcc && fcc !in table[1..][..k];
      assert table[..k + 1] == [table[0]] + table[1..][..k];
      assert table[k + 1] == fcc;
    }
  }

  /** The type lookups i_get_basic_type, i_get_list_type, i_get_sub_type
      and i_get_data_type, one loop over the table each. */
  method GetType(table: seq<seq<byte>>, fcc: seq<byte>) returns (k: nat)
    ensures k == FirstMatch(table, fcc)
  {
    var i := 1;
    while i <= |table|
      invariant 1 <= i <= |table| + 1
      invariant fcc !in table[..i - 1]
    {
      if fcc == table[i - 1] {
        FirstMatchIs(table, fcc, i);
        return i;
      }
      assert table[..i] == table[..i - 1] + [table[i - 1]];
      i := i + 1;
    }
    assert table[..i - 1] == table;
    return 0;
  }

  /** A position that matches with nothing matching before it is the first
      match. */
  lemma FirstMatchIs(table: seq<seq<byte>>, fcc: seq<byte>, k: nat)
    requires 0 < k <= |table| && table[k - 1] == fcc && fcc !in table[..k - 1]
    ensures FirstMatch(table, fcc) == k
  {
    assert table[k - 1] in table;
  }

  /** How the words and character codes of a RIFF are stored. */
  datatype ByteOrder = Unrecognized | RIFF | RIFX | XFIR | FFIR
  {
    function Value(): nat {
      match this
      case Unrecognized => 0
      case RIFF => 1
      case RIFX => 2
      case XFIR => 3
      case FFIR => 4
    }

    /** Character codes are stored reversed. */
    predicate CcReversed() {
      this == XFIR || this == FFIR
    }

    /** Data (sizes and chunk contents) are stored reversed. */
    predicate DataReversed() {
      this == RIFX || this == FFIR
    }
  }

  /** i_determine_byteorder: the byte order named by the root code. */
  function DetermineByteOrder(fcc: seq<byte>): (o: ByteOrder)
    ensures o.Value() == FirstMatch(Roots, fcc)
  {
    RootsFirstMatch(fcc);
    if fcc == Fcc("RIFF") then RIFF
    else if fcc == Fcc("RIFX") then RIFX
    else if fcc == Fcc("XFIR") then XFIR
    else if fcc == Fcc("FFIR") then FFIR
    else Unrecognized
  }

  lemma RootsFirstMatch(fcc: seq<byte>)
    ensures FirstMatch(Roots, fcc) ==
      if fcc == Roots[0] then 1 else if fcc == Roots[1] then 2
      else if fcc == Roots[2] then 3 else if fcc == Roots[3] then 4 else 0
  {
    if fcc == Roots[0] {
      FirstMatchIs(Roots, fcc, 1);
    } else if fcc == Roots[1] {
      assert Roots[..1] == [Roots[0]];
      FirstMatchIs(Roots, fcc, 2);
    } else if fcc == Roots[2] {
      assert Roots[..2] == [Roots[0], Roots[1]];
      FirstMatchIs(Roots, fcc, 3);
    } else if fcc == Roots[3] {
      assert Roots[..3] == [Roots[0], Roots[1], Roots[2]];
      FirstMatchIs(Roots, fcc, 4);
    }
  }

  /** The copy routines picked per byte order: a plain copy or a reversing
      one. */
  function Oriented(s: seq<byte>, reversed: bool): (r: seq<byte>)
    ensures |r| == |s|
  {
    if reversed then Reversed(s) else s
  }

  /** The 32-bit word stored at data[at..at+4] in byte order `o`. */
  function Word(data: seq<byte>, at: nat, o: ByteOrder): (v: nat)
    requires at + 4 <= |data|
    ensures v < U32
  {
    assert Pow256(4) == U32;
    LittleEndian(Oriented(data[at..at + 4], o.DataReversed()))
  }

  /** The character code stored at data[at..at+4] in byte order `o`. */
  function CcAt(data: seq<byte>, at: nat, o: ByteOrder): (cc: seq<byte>)
    requires at + 4 <= |data|
    ensures |cc| == 4
  {
    Oriented(data[at..at + 4], o.CcReversed())
  }

  /* Snapshots of the three structures. */

  datatype Basic = Basic(kind: nat, size: nat, data: seq<byte>)
  datatype ListChunk = ListChunk(size: nat, kind: nat, subType: nat,
                                 firstBasicIndex: nat, nBasics: nat)

  /** riffT: the chunks read so far and the header information. */
  datatype Tree = Tree(basics: seq<Basic>, lists: seq<ListChunk>, totalSize: nat, dataType: nat)

  /** riff_data_syncT: `data` is the whole allocation (`storage` bytes), of
      which the first `stored` are filled and the first `consumed` used up.
      `listEnd` counts the bytes left in the open LIST, as an unsigned 64-bit
      value. */
  datatype Sync = Sync(data: seq<byte>, storage: nat, stored: nat, consumed: nat,
                       listEnd: nat, byteorder: ByteOrder)

  /** riff_chunk_infoT. */
  datatype Info = Info(chunkcc: seq<byte>, chunksize: nat, chunkType: nat, chunkIndex: nat,
                       isBasic: bool, isList: bool)

  /** What one call of riff_consume_chunk returns and leaves behind. */
  datatype Step = Step(code: int, tree: Tree, info: Info, sync: Sync)

  const TreeCleared: Tree := Tree([], [], 0, 0)
  const SyncCleared: Sync := Sync([], 0, 0, 0, 0, Unrecognized)
  const InfoCleared: Info := Info([0, 0, 0, 0], 0, 0, 0, false, false)

  /** Bytes available for reading: the C computes it as a signed difference,
      negative once a skipped chunk ran past the stored bytes. */
  function Stor(s: Sync): int {
    s.stored - s.consumed
  }

  /** The stored, unconsumed bytes. */
  function Pending(s: Sync): seq<byte>
    requires s.stored <= |s.data|
  {
    if s.consumed <= s.stored then s.data[s.consumed..s.stored] else []
  }

  ghost predicate SyncValid(s: Sync) {
    |s.data| == s.storage < U32 && s.stored <= s.storage && s.listEnd < U64
  }

  /** Every LIST's children lie inside the basics read so far, and the
      children of the open LIST are the last basics read. */
  ghost predicate TreeValid(t: Tree, s: Sync) {
    (forall l :: l in t.lists ==> l.firstBasicIndex + l.nBasics <= |t.basics|)
    && (s.listEnd > 0 ==>
          (|t.lists| > 0
           && t.lists[|t.lists| - 1].firstBasicIndex + t.lists[|t.lists| - 1].nBasics == |t.basics|))
  }

  ghost predicate Consistent(t: Tree, s: Sync) {
    SyncValid(s) && TreeValid(t, s)
  }

  /** The header step reads 12 bytes after checking for 4 (undefined
      behaviour when 4 to 11 bytes are stored and the root is recognised). */
  predicate SetupDefined(s: Sync)
    requires s.stored <= |s.data|
  {
    s.byteorder != Unrecognized || Stor(s) < 4 || Stor(s) >= 12
    || DetermineByteOrder(s.data[s.consumed..s.consumed + 4]) == Unrecognized
  }

  /** i_setup_riff: read the root code, the total size and the form type. */
  ghost function Setup(t: Tree, i: Info, s: Sync): (r: Step)
    requires SyncValid(s) && SetupDefined(s) && s.byteorder == Unrecognized
    ensures r.code == INCOMPLETE || r.code == NOT_RIFF || r.code == CONSUME_MORE
    ensures r.code == CONSUME_MORE ==>
      r.sync.consumed == s.consumed + 12 && r.sync.byteorder != Unrecognized
      && r.tree.basics == t.basics && r.tree.lists == t.lists
  {
    if Stor(s) < 4 then Step(INCOMPLETE, t, i, s)
    else
      var c := s.consumed;
      var o := DetermineByteOrder(s.data[c..c + 4]);
      if o == Unrecognized then Step(NOT_RIFF, TreeCleared, i, SyncCleared)
      else
        Step(CONSUME_MORE,
             t.(totalSize := Word(s.data, c + 4, o),
                dataType := FirstMatch(DataTypes, CcAt(s.data, c + 8, o))),
             i, s.(byteorder := o, consumed := c + 12))
  }

  /** `list_end -= size + 8`: the sum wraps at 32 bits, the difference at
      64 bits. */
  function ShrinkListEnd(listEnd: nat, size: nat): (r: nat)
    ensures r < U64
  {
    (listEnd - (size + 8) % U32) % U64
  }

  /** i_add_basic_type: copy the chunk's data (reversed for data-reversed
      orders), append it, and count it as a child of the open LIST. */
  ghost function AddBasic(t: Tree, i: Info, s: Sync): (r: Step)
    requires Consistent(t, s) && 0 <= i.chunksize <= Stor(s)
    ensures r.code == CONSUMED && r.sync.consumed == s.consumed + i.chunksize
    ensures t.basics <= r.tree.basics && |r.tree.basics| == |t.basics| + 1
    ensures r.info.chunkIndex == |t.basics| && |r.tree.lists| == |t.lists|
  {
    var c := s.consumed;
    var size := i.chunksize;
    var basics := t.basics + [Basic(i.chunkType, size, Oriented(s.data[c..c + size], s.byteorder.DataReversed()))];
    var info := i.(chunkIndex := |basics| - 1);
    if s.listEnd > 0 then
      var l := t.lists[|t.lists| - 1];
      var first := if l.nBasics == 0 then |basics| - 1 else l.firstBasicIndex;
      var lists := t.lists[..|t.lists| - 1] + [l.(firstBasicIndex := first, nBasics := l.nBasics + 1)];
      Step(CONSUMED, t.(basics := basics, lists := lists), info,
           s.(consumed := c + size, listEnd := ShrinkListEnd(s.listEnd, size)))
    else
      Step(CONSUMED, t.(basics := basics), info, s.(consumed := c + size))
  }

  /** i_add_list_type: read the sub-type and open a new LIST. */
  ghost function AddList(t: Tree, i: Info, s: Sync): (r: Step)
    requires SyncValid(s) && Stor(s) >= 4
    ensures r.code == CONSUMED && r.sync.consumed == s.consumed + 4 && r.tree.basics == t.basics
    ensures t.lists <= r.tree.lists && |r.tree.lists| == |t.lists| + 1 && r.info.chunkIndex == |t.lists|
  {
    var c := s.consumed;
    var list := ListChunk(i.chunksize, i.chunkType, FirstMatch(SubTypes, CcAt(s.data, c, s.byteorder)), |t.basics|, 0);
    var lists := t.lists + [list];
    Step(CONSUMED, t.(lists := lists), i.(chunkIndex := |lists| - 1),
         s.(consumed := c + 4, listEnd := (i.chunksize - 4) % U32))
  }

  /** The chunk-header state: read code and size, then classify. */
  ghost function ReadHeader(t: Tree, i: Info, s: Sync): (r: Step)
    requires SyncValid(s)
    ensures r.tree == t
    ensures r.code == INCOMPLETE || r.code == CONSUME_MORE || r.code == UNRECOGNIZED
    ensures r.code == INCOMPLETE <==> Stor(s) < 8
    ensures r.code == CONSUME_MORE ==> r.sync.consumed == s.consumed + 8 && r.info.isBasic != r.info.isList
    ensures r.code == UNRECOGNIZED ==>
      r.info.isBasic == i.isBasic && r.info.isList == i.isList && r.sync.consumed >= s.consumed + 8
  {
    if Stor(s) < 8 then Step(INCOMPLETE, t, i, s)
    else
      var c := s.consumed;
      var cc := CcAt(s.data, c, s.byteorder);
      var size := Word(s.data, c + 4, s.byteorder);
      var kb := FirstMatch(BasicTypes, cc);
      var kl := FirstMatch(ListTypes, cc);
      var read := i.(chunkcc := cc, chunksize := size);
      if kb > 0 then
        Step(CONSUME_MORE, t, read.(isBasic := true, isList := false, chunkType := kb), s.(consumed := c + 8))
      else if kl > 0 then
        Step(CONSUME_MORE, t, read.(isBasic := false, isList := true, chunkType := kl), s.(consumed := c + 8))
      else
        Step(UNRECOGNIZED, t, read, s.(consumed := c + 8 + size))
  }

  /** riff_consume_chunk. */
  ghost function Consume(t: Tree, i: Info, s: Sync): (r: Step)
    requires Consistent(t, s) && SetupDefined(s)
    ensures r.code == CONSUMED ==> s.byteorder != Unrecognized && (i.isBasic || i.isList)
    ensures r.code == CONSUMED ==> |r.tree.basics| + |r.tree.lists| == |t.basics| + |t.lists| + 1
    ensures r.code != NOT_RIFF ==> t.basics <= r.tree.basics && |t.lists| <= |r.tree.lists|
  {
    if s.byteorder == Unrecognized then Setup(t, i, s)
    else if i.isBasic then
      if Stor(s) < i.chunksize then Step(INCOMPLETE, t, i, s) else AddBasic(t, i, s)
    else if i.isList then
      if s.listEnd > 0 then Step(NOT_RIFF, TreeCleared, i, SyncCleared)
      else if Stor(s) < 4 then Step(INCOMPLETE, t, i, s)
      else AddList(t, i, s)
    else ReadHeader(t, i, s)
  }

  /* Properties of one step. */

  /** Appending a basic chunk keeps the LIST bookkeeping consistent. */
  lemma AddBasicKeepsConsistent(t: Tree, i: Info, s: Sync)
    requires Consistent(t, s) && 0 <= i.chunksize <= Stor(s)
    ensures Consistent(AddBasic(t, i, s).tree, AddBasic(t, i, s).sync)
  {
    var nt := AddBasic(t, i, s).tree;
    var n := |t.lists|;
    if s.listEnd > 0 {
      forall l | l in nt.lists
        ensures l.firstBasicIndex + l.nBasics <= |nt.basics|
      {
        var k :| 0 <= k < n && nt.lists[k] == l;
        if k < n - 1 {
          assert nt.lists[k] == t.lists[k] && t.lists[k] in t.lists;
        }
      }
    }
  }

  /** Opening a LIST keeps the LIST bookkeeping consistent. */
  lemma AddListKeepsConsistent(t: Tree, i: Info, s: Sync)
    requires Consistent(t, s) && Stor(s) >= 4
    ensures Consistent(AddList(t, i, s).tree, AddList(t, i, s).sync)
  {
    var nt := AddList(t, i, s).tree;
    assert forall l :: l in nt.lists ==> l in t.lists || l == nt.lists[|nt.lists| - 1];
  }

  lemma SetupKeepsConsistent(t: Tree, i: Info, s: Sync)
    requires Consistent(t, s) && SetupDefined(s) && s.byteorder == Unrecognized
    ensures Consistent(Setup(t, i, s).tree, Setup(t, i, s).sync)
  {
  }

  lemma ReadHeaderKeepsConsistent(t: Tree, i: Info, s: Sync)
    requires Consistent(t, s)
    ensures Consistent(ReadHeader(t, i, s).tree, ReadHeader(t, i, s).sync)
  {
  }

  /** Every step keeps the buffer and the LIST bookkeeping consistent. */
  lemma ConsumeKeepsConsistent(t: Tree, i: Info, s: Sync)
    requires Consistent(t, s) && SetupDefined(s)
    ensures Consistent(Consume(t, i, s).tree, Consume(t, i, s).sync)
  {
    if s.byteorder == Unrecognized {
      SetupKeepsConsistent(t, i, s);
    } else if i.isBasic {
      if Stor(s) >= i.chunksize {
        AddBasicKeepsConsistent(t, i, s);
      }
    } else if i.isList {
      if s.listEnd == 0 && Stor(s) >= 4 {
        AddListKeepsConsistent(t, i, s);
      }
    } else {
      ReadHeaderKeepsConsistent(t, i, s);
    }
  }

  /** Too little data changes nothing. */
  lemma IncompleteChangesNothing(t: Tree, i: Info, s: Sync)
    requires Consistent(t, s) && SetupDefined(s)
    requires Consume(t, i, s).code == INCOMPLETE
    ensures Consume(t, i, s) == Step(INCOMPLETE, t, i, s)
  {
  }

  /** A step answers one of five codes: allocation failures are not
      modelled, and CORRUPTED is unreachable because `list_end` is unsigned. */
  lemma ConsumeCodes(t: Tree, i: Info, s: Sync)
    requires Consistent(t, s) && SetupDefined(s)
    ensures Consume(t, i, s).code in {UNRECOGNIZED, CONSUMED, INCOMPLETE, CONSUME_MORE, NOT_RIFF}
    ensures Consume(t, i, s).code == NOT_RIFF ==>
              Consume(t, i, s).tree == TreeCleared && Consume(t, i, s).sync == SyncCleared
  {
  }

  /** Without a byte order the step is the header step: INCOMPLETE under 4
      bytes, NOT_RIFF for an unknown root, else 12 bytes consumed. */
  lemma FirstStepIsSetup(t: Tree, i: Info, s: Sync)
    requires Consistent(t, s) && SetupDefined(s) && s.byteorder == Unrecognized
    ensures var r := Consume(t, i, s);
      (Stor(s) < 4 <==> r.code == INCOMPLETE)
      && (r.code == CONSUME_MORE ==> r.sync.consumed == s.consumed + 12 && r.sync.byteorder != Unrecognized)
      && (r.code == NOT_RIFF <==> Stor(s) >= 4 && DetermineByteOrder(s.data[s.consumed..s.consumed + 4]) == Unrecognized)
  {
  }

  /** The bytes a writer emits for a word in byte order `o`. */
  function WordBytes(v: nat, o: ByteOrder): (b: seq<byte>)
    requires v < U32
    ensures |b| == 4
  {
    Oriented(U32Bytes(v), o.DataReversed())
  }

  /** The bytes a writer emits for a character code in byte order `o`. */
  function CcBytes(cc: seq<byte>, o: ByteOrder): (b: seq<byte>)
    requires |cc| == 4
    ensures |b| == 4
  {
    Oriented(cc, o.CcReversed())
  }

  lemma OrientedTwice(s: seq<byte>, reversed: bool)
    ensures Oriented(Oriented(s, reversed), reversed) == s
  {
    if reversed {
      ReversedTwice(s);
    }
  }

  lemma WordOfWordBytes(data: seq<byte>, at: nat, v: nat, o: ByteOrder)
    requires v < U32 && at + 4 <= |data| && data[at..at + 4] == WordBytes(v, o)
    ensures Word(data, at, o) == v
  {
    OrientedTwice(U32Bytes(v), o.DataReversed());
    assert U32Bytes(v)[0..4] == U32Bytes(v);
    U32RoundTrip(v);
  }

  lemma CcOfCcBytes(data: seq<byte>, at: nat, cc: seq<byte>, o: ByteOrder)
    requires |cc| == 4 && at + 4 <= |data| && data[at..at + 4] == CcBytes(cc, o)
    ensures CcAt(data, at, o) == cc
  {
    OrientedTwice(cc, o.CcReversed());
  }

  /** A chunk header written in the riff's byte order is read back as the
      same code and size; a basic code arms the basic state, a list code the
      list state, and any other code skips header and payload. */
  lemma HeaderRoundTrip(t: Tree, i: Info, s: Sync, cc: seq<byte>, size: nat)
    requires Consistent(t, s) && s.byteorder != Unrecognized && !i.isBasic && !i.isList
    requires |cc| == 4 && size < U32 && Stor(s) >= 8
    requires s.data[s.consumed..s.consumed + 4] == CcBytes(cc, s.byteorder)
    requires s.data[s.consumed + 4..s.consumed + 8] == WordBytes(size, s.byteorder)
    ensures var r := Consume(t, i, s);
      r.info.chunkcc == cc && r.info.chunksize == size && r.tree == t
      && (cc in BasicTypes ==>
            (r.code == CONSUME_MORE && r.info.isBasic && !r.info.isList
             && r.sync.consumed == s.consumed + 8 && BasicTypes[r.info.chunkType - 1] == cc))
      && (cc !in BasicTypes && cc in ListTypes ==>
            (r.code == CONSUME_MORE && r.info.isList && !r.info.isBasic
             && r.sync.consumed == s.consumed + 8 && ListTypes[r.info.chunkType - 1] == cc))
      && (cc !in BasicTypes && cc !in ListTypes ==>
            (r.code == UNRECOGNIZED && r.sync.consumed == s.consumed + 8 + size))
  {
    CcOfCcBytes(s.data, s.consumed, cc, s.byteorder);
    WordOfWordBytes(s.data, s.consumed + 4, size, s.byteorder);
  }

  /** A root header written in byte order `o` sets that byte order, the
      total size and the form type. */
  lemma SetupRoundTrip(t: Tree, i: Info, s: Sync, o: ByteOrder, total: nat, form: seq<byte>)
    requires Consistent(t, s) && s.byteorder == Unrecognized && o != Unrecognized
    requires total < U32 && |form| == 4 && Stor(s) >= 12
    requires s.data[s.consumed..s.consumed + 4] == Roots[o.Value() - 1]
    requires s.data[s.consumed + 4..s.consumed + 8] == WordBytes(total, o)
    requires s.data[s.consumed + 8..s.consumed + 12] == CcBytes(form, o)
    ensures var r := Consume(t, i, s);
      r.code == CONSUME_MORE && r.sync.byteorder == o && r.tree.totalSize == total
      && r.tree.dataType == FirstMatch(DataTypes, form) && r.sync.consumed == s.consumed + 12
      && r.tree.basics == t.basics && r.tree.lists == t.lists
  {
    var fcc := s.data[s.consumed..s.consumed + 4];
    var o' := DetermineByteOrder(fcc);
    assert Roots[o.Value() - 1] in Roots;
    FirstMatchIs(Roots, fcc, o.Value());
    assert o' == o;
    WordOfWordBytes(s.data, s.consumed + 4, total, o);
    CcOfCcBytes(s.data, s.consumed + 8, form, o);
  }

  /** A basic chunk with enough data is appended with its payload (as
      written in the riff's byte order) and becomes the chunk's index; inside
      a LIST it is the LIST's newest child. */
  lemma BasicAppended(t: Tree, i: Info, s: Sync, payload: seq<byte>)
    requires Consistent(t, s) && s.byteorder != Unrecognized && i.isBasic
    requires i.chunksize == |payload| <= Stor(s)
    requires s.data[s.consumed..s.consumed + |payload|] == Oriented(payload, s.byteorder.DataReversed())
    ensures var r := Consume(t, i, s);
      r.code == CONSUMED
      && r.tree.basics == t.basics + [Basic(i.chunkType, |payload|, payload)]
      && r.info.chunkIndex == |t.basics|
      && r.sync.consumed == s.consumed + |payload|
      && (s.listEnd > 0 ==>
            |r.tree.lists| == |t.lists|
            && r.tree.lists[|t.lists| - 1].nBasics == t.lists[|t.lists| - 1].nBasics + 1
            && r.tree.lists[|t.lists| - 1].firstBasicIndex + r.tree.lists[|t.lists| - 1].nBasics == |t.basics| + 1)
      && (s.listEnd == 0 ==> r.tree.lists == t.lists)
  {
    OrientedTwice(payload, s.byteorder.DataReversed());
  }

  /** A LIST chunk outside a LIST opens a new, empty LIST starting at the
      next basic, with `size - 4` bytes of children to come; inside a LIST it
      is rejected. */
  lemma ListOpened(t: Tree, i: Info, s: Sync)
    requires Consistent(t, s) && s.byteorder != Unrecognized && !i.isBasic && i.isList
    ensures var r := Consume(t, i, s);
      (s.listEnd > 0 ==> r.code == NOT_RIFF)
      && (s.listEnd == 0 && Stor(s) >= 4 ==>
            r.code == CONSUMED && r.tree.basics == t.basics
            && r.tree.lists == t.lists + [ListChunk(i.chunksize, i.chunkType, r.tree.lists[|t.lists|].subType, |t.basics|, 0)]
            && r.info.chunkIndex == |t.lists|
            && r.sync.listEnd == (i.chunksize - 4) % U32
            && r.sync.consumed == s.consumed + 4)
  {
  }

  /** An unrecognised chunk announcing more bytes than are stored is
      skipped past the stored bytes: `consumed` ends beyond `stored`, and the
      next riff_data_sync_buffer subtracts them in unsigned arithmetic. */
  lemma UnknownChunkOverrunsStore(t: Tree, i: Info, s: Sync, cc: seq<byte>, size: nat)
    requires Consistent(t, s) && s.byteorder != Unrecognized && !i.isBasic && !i.isList
    requires |cc| == 4 && cc !in BasicTypes && cc !in ListTypes
    requires s.consumed <= s.stored && size < U32 && 8 <= Stor(s) < 8 + size
    requires s.data[s.consumed..s.consumed + 4] == CcBytes(cc, s.byteorder)
    requires s.data[s.consumed + 4..s.consumed + 8] == WordBytes(size, s.byteorder)
    ensures Consume(t, i, s).code == UNRECOGNIZED
    ensures Consume(t, i, s).sync.consumed > Consume(t, i, s).sync.stored
  {
    HeaderRoundTrip(t, i, s, cc, size);
  }

  /** The header step as evidently intended: an unrecognised chunk is
      skipped only once all of it is stored, as a basic chunk's data is
      copied only once all of it is stored; until then the step is
      INCOMPLETE and changes nothing. */
  ghost function ReadHeaderIntended(t: Tree, i: Info, s: Sync): (r: Step)
    requires SyncValid(s)
    ensures s.consumed <= s.stored ==> r.sync.consumed <= r.sync.stored
    ensures r.code == INCOMPLETE ==> r == Step(INCOMPLETE, t, i, s)
    ensures r.code != INCOMPLETE ==> r == ReadHeader(t, i, s)
    ensures Stor(s) >= 8 && Stor(s) >= 8 + Word(s.data, s.consumed + 4, s.byteorder) ==> r == ReadHeader(t, i, s)
  {
    if Stor(s) < 8 then Step(INCOMPLETE, t, i, s)
    else
      var c := s.consumed;
      var cc := CcAt(s.data, c, s.byteorder);
      var size := Word(s.data, c + 4, s.byteorder);
      if FirstMatch(BasicTypes, cc) == 0 && FirstMatch(ListTypes, cc) == 0 && Stor(s) < 8 + size
      then Step(INCOMPLETE, t, i, s)
      else ReadHeader(t, i, s)
  }

  /** The data sync: riff_data_syncT with its buffer operations. */
  class DataSync {
    var data: seq<byte>
    var storage: nat
    var stored: nat
    var consumed: nat
    var listEnd: nat
    var byteorder: ByteOrder

    function State(): Sync
      reads this
    {
      Sync(data, storage, stored, consumed, listEnd, byteorder)
    }

    ghost predicate Valid()
      reads this
    {
      SyncValid(State())
    }

    constructor ()
      ensures State() == SyncCleared
    {
      data, storage, stored, consumed, listEnd, byteorder := [], 0, 0, 0, 0, Unrecognized;
    }

    /** riff_data_sync_clear. */
    method Clear()
      modifies this
      ensures State() == SyncCleared
    {
      data, storage, stored, consumed, listEnd, byteorder := [], 0, 0, 0, 0, Unrecognized;
    }

    /** `RIFF_BUFF_MAX - RIFF_BUFF_EXTRA - stored`, computed in unsigned
        64-bit arithmetic. */
    static function GrowLimit(st: nat): (r: nat)
      ensures r < U64
    {
      (INT_MAX - BUFF_EXTRA - st) % U64
    }

    /** The 32-bit new size cannot wrap below the stored bytes (otherwise
        the reallocation would cut the buffer short: undefined behaviour). */
    ghost predicate GrowthDefined(size: nat)
      reads this
      requires consumed <= stored
    {
      var st := stored - consumed;
      size <= storage - st || size > GrowLimit(st) || st + size + BUFF_EXTRA < U32
    }

    /** riff_data_sync_buffer: drop the consumed prefix, then make room for
        `size` more bytes; answers where the caller may write them, or None
        after clearing the sync when the request is too large. */
    method Buffer(size: nat) returns (r: Option<nat>)
      requires Valid() && consumed <= stored && size < U32 && GrowthDefined(size)
      modifies this
      ensures Valid()
      ensures var st := old(stored) - old(consumed);
        r == (if size > old(storage) - st && size > GrowLimit(st) then None else Some(st))
      ensures r.None? ==> State() == SyncCleared
      ensures r.Some? ==>
        consumed == 0 && stored == r.value && data[..stored] == old(data[consumed..stored])
        && storage - stored >= size
        && storage == (if size <= old(storage) - r.value then old(storage) else r.value + size + BUFF_EXTRA)
        && listEnd == old(listEnd) && byteorder == old(byteorder)
    {
      if consumed > 0 {
        data := data[consumed..stored] + data[stored - consumed..];
        stored := stored - consumed;
        consumed := 0;
      }
      if size > storage - stored {
        if size > GrowLimit(stored) {
          Clear();
          return None;
        }
        var newSize := (stored + size + BUFF_EXTRA) % U32;
        Fits32(stored + size + BUFF_EXTRA);
        data := data[..stored] + Zeros(newSize - stored);
        storage := newSize;
      }
      return Some(stored);
    }

    /** riff_data_sync_apply: mark `size` more bytes as stored. */
    method Apply(size: nat) returns (code: int)
      requires Valid() && size < U32
      modifies this
      ensures Valid()
      ensures code == (if size + old(stored) > old(storage) then ERROR else 0)
      ensures code == ERROR ==> State() == old(State())
      ensures code == 0 ==> State() == old(State()).(stored := old(stored) + size)
    {
      if size + stored > storage {
        return ERROR;
      }
      stored := stored + size;
      return 0;
    }

    /** The caller's copy into the buffer returned by Buffer. */
    method Write(at: nat, bytes: seq<byte>)
      requires Valid() && at + |bytes| <= storage
      modifies this
      ensures Valid()
      ensures State() == old(State()).(data := old(data[..at]) + bytes + old(data[at + |bytes|..]))
    {
      data := data[..at] + bytes + data[at + |bytes|..];
    }

    /** One read step of process_wem.c's i_consume_next_chunk: reserve 4096
        bytes, receive what the file read produced, apply it. Success
        appends exactly those bytes to the pending ones. */
    method Feed(bytes: seq<byte>) returns (code: int)
      requires Valid() && consumed <= stored && |bytes| <= 4096 && GrowthDefined(4096)
      modifies this
      ensures Valid()
      ensures code == 0 ==> consumed <= stored && Pending(State()) == old(Pending(State())) + bytes
      ensures code == 0 ==> listEnd == old(listEnd) && byteorder == old(byteorder)
      ensures code != 0 ==> code == -1 && State() == SyncCleared
    {
      ghost var before := Pending(State());
      var at := Buffer(4096);
      if at.None? {
        return -1;
      }
      Write(at.value, bytes);
      assert data[..at.value] == before;
      code := Apply(|bytes|);
      assert data[..stored] == before + bytes;
    }
  }

  /** riff_chunk_infoT. */
  class ChunkInfo {
    var chunkcc: seq<byte>
    var chunksize: nat
    var chunkType: nat
    var chunkIndex: nat
    var isBasic: bool
    var isList: bool

    function State(): Info
      reads this
    {
      Info(chunkcc, chunksize, chunkType, chunkIndex, isBasic, isList)
    }

    constructor ()
      ensures State() == InfoCleared
    {
      chunkcc, chunksize, chunkType, chunkIndex, isBasic, isList := [0, 0, 0, 0], 0, 0, 0, false, false;
    }

    /** riff_chunk_info_clear. */
    method Clear()
      modifies this
      ensures State() == InfoCleared
    {
      chunkcc, chunksize, chunkType, chunkIndex, isBasic, isList := [0, 0, 0, 0], 0, 0, 0, false, false;
    }
  }

  /** riffT with the chunk reader. */
  class Riff {
    var basics: seq<Basic>
    var lists: seq<ListChunk>
    var totalSize: nat
    var dataType: nat

    function State(): Tree
      reads this
    {
      Tree(basics, lists, totalSize, dataType)
    }

    /** riff_init. */
    constructor ()
      ensures State() == TreeCleared
    {
      basics, lists, totalSize, dataType := [], [], 0, 0;
    }

    /** riff_clear. */
    method Clear()
      modifies this
      ensures State() == TreeCleared
    {
      basics, lists, totalSize, dataType := [], [], 0, 0;
    }

    /** i_setup_riff. */
    method SetupRiff(ds: DataSync) returns (code: int)
      requires SyncValid(ds.State()) && SetupDefined(ds.State()) && ds.byteorder == Unrecognized
      modifies this, ds
      ensures var r := Setup(old(State()), InfoCleared, old(ds.State()));
        code == r.code && State() == r.tree && ds.State() == r.sync
    {
      var stor := ds.stored - ds.consumed;
      if stor < 4 {
        return INCOMPLETE;
      }
      var c := ds.consumed;
      var o := DetermineByteOrder(ds.data[c..c + 4]);
      ds.byteorder := o;
      if o == Unrecognized {
        ds.Clear();
        Clear();
        return NOT_RIFF;
      }
      totalSize := Word(ds.data, c + 4, o);
      var datacc := CcAt(ds.data, c + 8, o);
      ds.consumed := c + 12;
      dataType := GetType(DataTypes, datacc);
      return CONSUME_MORE;
    }

    /** i_add_basic_type. */
    method AddBasicType(ds: DataSync, cktype: nat, cksize: nat) returns (code: int)
      requires Consistent(State(), ds.State()) && cksize <= Stor(ds.State())
      modifies this, ds
      ensures var r := AddBasic(old(State()), Info([], cksize, cktype, 0, true, false), old(ds.State()));
        code == r.code && State() == r.tree && ds.State() == r.sync
    {
      var c := ds.consumed;
      var basic := Basic(cktype, cksize, Oriented(ds.data[c..c + cksize], ds.byteorder.DataReversed()));
      ds.consumed := c + cksize;
      basics := basics + [basic];
      if ds.listEnd > 0 {
        var last := |lists| - 1;
        var list := lists[last];
        if list.nBasics == 0 {
          list := list.(firstBasicIndex := |basics| - 1);
        }
        list := list.(nBasics := list.nBasics + 1);
        lists := lists[..last] + [list];
        ds.listEnd := ShrinkListEnd(ds.listEnd, cksize);
      }
      return CONSUMED;
    }

    /** i_add_list_type. */
    method AddListType(ds: DataSync, cktype: nat, cksize: nat) returns (code: int)
      requires SyncValid(ds.State()) && Stor(ds.State()) >= 4
      modifies this, ds
      ensures var r := AddList(old(State()), Info([], cksize, cktype, 0, false, true), old(ds.State()));
        code == r.code && State() == r.tree && ds.State() == r.sync
    {
      var c := ds.consumed;
      var subcc := CcAt(ds.data, c, ds.byteorder);
      ds.consumed := c + 4;
      var subType := GetType(SubTypes, subcc);
      var list := ListChunk(cksize, cktype, subType, |basics|, 0);
      ds.listEnd := (cksize - 4) % U32;
      lists := lists + [list];
      return CONSUMED;
    }

    /** The chunk-header branch of riff_consume_chunk. */
    method ReadChunkHeader(sc: ChunkInfo, ds: DataSync) returns (code: int)
      requires SyncValid(ds.State())
      modifies sc, ds
      ensures var r := ReadHeader(State(), old(sc.State()), old(ds.State()));
        code == r.code && sc.State() == r.info && ds.State() == r.sync
    {
      var stor := ds.stored - ds.consumed;
      if stor < 8 {
        return INCOMPLETE;
      }
      var c := ds.consumed;
      sc.chunkcc := CcAt(ds.data, c, ds.byteorder);
      sc.chunksize := Word(ds.data, c + 4, ds.byteorder);
      ds.consumed := c + 8;
      var kb := GetType(BasicTypes, sc.chunkcc);
      if kb > 0 {
        sc.isBasic, sc.isList, sc.chunkType := true, false, kb;
      } else {
        var kl := GetType(ListTypes, sc.chunkcc);
        if kl > 0 {
          sc.isBasic, sc.isList, sc.chunkType := false, true, kl;
        } else {
          ds.consumed := ds.consumed + sc.chunksize;
          return UNRECOGNIZED;
        }
      }
      return CONSUME_MORE;
    }

    /** riff_consume_chunk: one step of the reader. */
    method ConsumeChunk(sc: ChunkInfo, ds: DataSync) returns (code: int)
      requires Consistent(State(), ds.State()) && SetupDefined(ds.State())
      modifies this, sc, ds
      ensures Step(code, State(), sc.State(), ds.State()) == Consume(old(State()), old(sc.State()), old(ds.State()))
    {
      var stor := ds.stored - ds.consumed;
      if ds.byteorder == Unrecognized {
        code := SetupRiff(ds);
      } else if sc.isBasic {
        if stor < sc.chunksize {
          return INCOMPLETE;
        }
        code := AddBasicType(ds, sc.chunkType, sc.chunksize);
        sc.chunkIndex := |basics| - 1;
      } else if sc.isList {
        if ds.listEnd > 0 {
          ds.Clear();
          Clear();
          return NOT_RIFF;
        }
        if stor < 4 {
          return INCOMPLETE;
        }
        code := AddListType(ds, sc.chunkType, sc.chunksize);
        sc.chunkIndex := |lists| - 1;
      } else {
        code := ReadChunkHeader(sc, ds);
      }
    }
  }
}
