/** The search for RIFFs embedded in a WSP or BNK buffer, shared by
    rifflist_scan (rifflist.c) and wsp_meta_init (wsp_meta.c): walk the
    buffer one byte at a time until a root code is found, read the size word
    after it and jump over the RIFF it announces. */
module RiffScan {
  import opened Bytes
  import Riff

  /** Where an embedded RIFF lies: its first byte, its length counting the
      8 header bytes, and the byte order its root code names. */
  datatype Geometry = Geometry(offset: nat, size: nat, byteorder: Riff.ByteOrder)

  /** What one pass of the scan loop does at a position. */
  datatype Step = Skip | Stop | Found(g: Geometry)

  /** riff_cc_byteorder: the byte order a root code names. */
  function CcByteOrder(fcc: seq<byte>): Riff.ByteOrder {
    if fcc == Riff.Fcc("RIFF") then Riff.RIFF
    else if fcc == Riff.Fcc("RIFX") then Riff.RIFX
    else if fcc == Riff.Fcc("XFIR") then Riff.XFIR
    else if fcc == Riff.Fcc("FFIR") then Riff.FFIR
    else Riff.Unrecognized
  }

  /** The scanners recognise the same root codes, with the same byte
      orders, as the RIFF reader. */
  lemma CcByteOrderAgrees(fcc: seq<byte>)
    ensures CcByteOrder(fcc) == Riff.DetermineByteOrder(fcc)
    ensures CcByteOrder(fcc) != Riff.Unrecognized <==> fcc in Riff.Roots
  {
  }

  /** The byte order named by the four bytes at `p`. */
  function RootAt(buf: seq<byte>, p: nat): Riff.ByteOrder
    requires p + 4 <= |buf|
  {
    CcByteOrder(buf[p..p + 4])
  }

  /** The size word after the root code at `p`, read as a 32-bit unsigned
      in the byte order `o` names (byte-swapped for RIFX and FFIR). */
  function SizeAt(buf: seq<byte>, p: nat, o: Riff.ByteOrder): (v: nat)
    requires p + 8 <= |buf|
    ensures v < U32
  {
    if o.DataReversed() then
      buf[p + 7] as int + 0x100 * buf[p + 6] as int + 0x1_0000 * buf[p + 5] as int + 0x100_0000 * buf[p + 4] as int
    else
      buf[p + 4] as int + 0x100 * buf[p + 5] as int + 0x1_0000 * buf[p + 6] as int + 0x100_0000 * buf[p + 7] as int
  }

  /** The size word is the RIFF reader's word at the same place. */
  lemma SizeAtIsWord(buf: seq<byte>, p: nat, o: Riff.ByteOrder)
    requires p + 8 <= |buf|
    ensures SizeAt(buf, p, o) == Riff.Word(buf, p + 4, o)
  {
    var w := buf[p + 4..p + 8];
    var r := Riff.Oriented(w, o.DataReversed());
    if o.DataReversed() {
      assert r == [w[3], w[2], w[1], w[0]];
    } else {
      assert r == [w[0], w[1], w[2], w[3]];
    }
    assert r[1..][1..][1..][1..] == [];
    assert LittleEndian(r[1..][1..][1..]) == r[3] as int;
    assert LittleEndian(r[1..][1..]) == r[2] as int + 0x100 * r[3] as int;
    assert LittleEndian(r) == r[0] as int + 0x100 * (r[1] as int + 0x100 * (r[2] as int + 0x100 * r[3] as int));
  }

  /** The four bytes that spell the root code of byte order `o`. */
  function RootBytes(o: Riff.ByteOrder): (b: seq<byte>)
    requires o != Riff.Unrecognized
    ensures |b| == 4 && CcByteOrder(b) == o
  {
    match o
    case RIFF => Riff.Fcc("RIFF")
    case RIFX => Riff.Fcc("RIFX")
    case XFIR => Riff.Fcc("XFIR")
    case FFIR => Riff.Fcc("FFIR")
  }

  /** One pass at `p`: an unrecognised code moves on by one byte; a root
      whose announced length (size word plus the 8 header bytes) overruns
      the buffer ends the scan; anything else is an embedded RIFF. The
      length is computed without 32-bit wrap-around. */
  function StepAt(buf: seq<byte>, p: nat): (s: Step)
    requires p + 4 <= |buf|
    ensures s.Skip? <==> RootAt(buf, p) == Riff.Unrecognized
    ensures s.Found? ==> s.g.offset == p && s.g.size >= 8 && p + s.g.size <= |buf|
  {
    var o := RootAt(buf, p);
    if o == Riff.Unrecognized then Skip
    else if p + 8 > |buf| then Stop
    else
      var size := SizeAt(buf, p, o) + 8;
      if p + size > |buf| then Stop else Found(Geometry(p, size, o))
  }

  /** The RIFFs found by a scan that looks at positions `p` and on while
      they are below `limit`. */
  function ScanFrom(buf: seq<byte>, p: nat, limit: nat): seq<Geometry>
    requires limit + 4 <= |buf|
    decreases |buf| - p
  {
    if p >= limit then []
    else match StepAt(buf, p)
      case Skip => ScanFrom(buf, p + 1, limit)
      case Stop => []
      case Found(g) => [g] + ScanFrom(buf, p + g.size, limit)
  }

  /** The scan reports RIFFs at or after its start, each at least 8 bytes
      long, so no more of them than one per 8 bytes left. */
  lemma {:induction false} ScanFromBounds(buf: seq<byte>, p: nat, limit: nat)
    requires limit + 4 <= |buf|
    ensures forall g :: g in ScanFrom(buf, p, limit) ==> p <= g.offset
    ensures p <= |buf| ==> 8 * |ScanFrom(buf, p, limit)| <= |buf| - p
    decreases |buf| - p
  {
    if p < limit {
      match StepAt(buf, p)
      case Skip => ScanFromBounds(buf, p + 1, limit);
      case Stop =>
      case Found(g) => ScanFromBounds(buf, p + g.size, limit);
    }
  }

  /** A RIFF found at `p` is a real one. */
  lemma StepEntry(buf: seq<byte>, p: nat)
    requires p + 4 <= |buf| && StepAt(buf, p).Found?
    ensures Entry(buf, StepAt(buf, p).g)
  {
  }

  /** The scan past a RIFF found at `p` goes on after its end. */
  lemma ScanFound(buf: seq<byte>, p: nat, limit: nat)
    requires limit + 4 <= |buf| && p < limit && StepAt(buf, p).Found?
    ensures ScanFrom(buf, p, limit) == [StepAt(buf, p).g] + ScanFrom(buf, p + StepAt(buf, p).g.size, limit)
  {
  }

  /** The scan past a position without a root code goes on at the next
      byte. */
  lemma ScanSkip(buf: seq<byte>, p: nat, limit: nat)
    requires limit + 4 <= |buf| && p < limit && StepAt(buf, p).Skip?
    ensures ScanFrom(buf, p, limit) == ScanFrom(buf, p + 1, limit)
  {
  }

  lemma AppendAssoc<T>(a: seq<T>, b: seq<T>, c: seq<T>)
    ensures (a + b) + c == a + (b + c)
  {
  }

  /** A RIFF found at `p`, with the loop's own view of the scan. */
  lemma ScanIntoFoundStep(buf: seq<byte>, p: nat, limit: nat, acc: seq<Geometry>, g: Geometry)
    requires limit + 4 <= |buf| && p < limit && StepAt(buf, p) == Found(g)
    ensures ScanInto(buf, p, limit, acc) == ScanInto(buf, p + g.size, limit, acc + [g])
  {
  }

  /** A scan that stops at `p` adds nothing to what it collected. */
  lemma ScanAppendStop(buf: seq<byte>, limit: nat, riffs: seq<Geometry>, p: nat)
    requires limit + 4 <= |buf| && p < limit && StepAt(buf, p).Stop?
    ensures riffs == riffs + ScanFrom(buf, p, limit)
  {
    assert ScanFrom(buf, p, limit) == [];
    assert riffs + [] == riffs;
  }

  /** The scan as a loop runs it: the RIFFs found from `p` on, appended
      to those already collected in `acc`. */
  function ScanInto(buf: seq<byte>, p: nat, limit: nat, acc: seq<Geometry>): seq<Geometry>
    requires limit + 4 <= |buf|
    decreases |buf| - p
  {
    if p >= limit then acc
    else match StepAt(buf, p)
      case Skip => ScanInto(buf, p + 1, limit, acc)
      case Stop => acc
      case Found(g) => ScanInto(buf, p + g.size, limit, acc + [g])
  }

  /** Collecting as the loop does yields the collected prefix followed by
      the scan from `p`. */
  lemma {:induction false} ScanIntoAppends(buf: seq<byte>, p: nat, limit: nat, acc: seq<Geometry>)
    requires limit + 4 <= |buf|
    ensures ScanInto(buf, p, limit, acc) == acc + ScanFrom(buf, p, limit)
    decreases |buf| - p
  {
    if p >= limit {
      assert acc + [] == acc;
    } else {
      var s := StepAt(buf, p);
      if s.Skip? {
        ScanIntoAppends(buf, p + 1, limit, acc);
        ScanIntoSkip(buf, p, limit, acc);
      } else if s.Stop? {
        ScanAppendStop(buf, limit, acc, p);
      } else {
        var g := s.g;
        ScanIntoAppends(buf, p + g.size, limit, acc + [g]);
        ScanIntoFound(buf, p, limit, acc, g);
      }
    }
  }

  /** The step of ScanIntoAppends past a position without a root code. */
  lemma ScanIntoSkip(buf: seq<byte>, p: nat, limit: nat, acc: seq<Geometry>)
    requires limit + 4 <= |buf| && p < limit && StepAt(buf, p).Skip?
    requires ScanInto(buf, p + 1, limit, acc) == acc + ScanFrom(buf, p + 1, limit)
    ensures ScanInto(buf, p, limit, acc) == acc + ScanFrom(buf, p, limit)
  {
  }

  /** The step of ScanIntoAppends over a RIFF found at `p`. */
  lemma ScanIntoFound(buf: seq<byte>, p: nat, limit: nat, acc: seq<Geometry>, g: Geometry)
    requires limit + 4 <= |buf| && p < limit && StepAt(buf, p) == Found(g)
    requires ScanInto(buf, p + g.size, limit, acc + [g]) == (acc + [g]) + ScanFrom(buf, p + g.size, limit)
    ensures ScanInto(buf, p, limit, acc) == acc + ScanFrom(buf, p, limit)
  {
    ScanIntoFoundStep(buf, p, limit, acc, g);
    ScanFound(buf, p, limit);
    AppendAssoc(acc, [g], ScanFrom(buf, p + g.size, limit));
  }

  /** One pass of the scan loops of rifflist_scan and wsp_meta_init at
      `offset`: skip a byte, record a RIFF and jump over it, or stop. */
  method ScanOne(buf: seq<byte>, limit: nat, riffs: seq<Geometry>, offset: nat)
    returns (riffs': seq<Geometry>, offset': nat, stop: bool)
    requires limit + 4 <= |buf| && offset < limit
    ensures offset < offset' <= |buf|
    ensures stop ==> riffs' == ScanInto(buf, offset, limit, riffs)
    ensures !stop ==> ScanInto(buf, offset', limit, riffs') == ScanInto(buf, offset, limit, riffs)
  {
    var step := StepAt(buf, offset);
    if step.Skip? {
      ScanIntoSkipStep(buf, offset, limit, riffs);
      return riffs, offset + 1, false;
    } else if step.Stop? {
      ScanIntoStopStep(buf, offset, limit, riffs);
      return riffs, offset + 1, true;
    } else {
      ScanIntoFoundStep(buf, offset, limit, riffs, step.g);
      return riffs + [step.g], offset + step.g.size, false;
    }
  }

  /** The loop's view of the scan past a position without a root code. */
  lemma ScanIntoSkipStep(buf: seq<byte>, p: nat, limit: nat, acc: seq<Geometry>)
    requires limit + 4 <= |buf| && p < limit && StepAt(buf, p).Skip?
    ensures ScanInto(buf, p, limit, acc) == ScanInto(buf, p + 1, limit, acc)
  {
  }

  /** The loop's view of the scan where it stops. */
  lemma ScanIntoStopStep(buf: seq<byte>, p: nat, limit: nat, acc: seq<Geometry>)
    requires limit + 4 <= |buf| && p < limit && StepAt(buf, p).Stop?
    ensures ScanInto(buf, p, limit, acc) == acc
  {
  }

  /** No root code starts anywhere in [a, b). */
  predicate NoRootBetween(buf: seq<byte>, a: nat, b: nat) {
    forall q :: a <= q < b && q + 4 <= |buf| ==> RootAt(buf, q) == Riff.Unrecognized
  }

  /** `g` describes a RIFF that lies wholly inside the buffer and whose
      header announces exactly its length. */
  predicate Entry(buf: seq<byte>, g: Geometry) {
    && g.offset + 8 <= |buf| && g.offset + g.size <= |buf|
    && g.byteorder != Riff.Unrecognized
    && RootAt(buf, g.offset) == g.byteorder
    && g.size == SizeAt(buf, g.offset, g.byteorder) + 8
  }

  /** `gs` lists, from position `p` on, RIFFs one after the other, with
      nothing but unrecognised codes before each. */
  predicate Layout(buf: seq<byte>, p: nat, gs: seq<Geometry>)
    decreases |gs|
  {
    gs == [] ||
    (&& p <= gs[0].offset
     && NoRootBetween(buf, p, gs[0].offset)
     && Entry(buf, gs[0])
     && Layout(buf, gs[0].offset + gs[0].size, gs[1..]))
  }

  /** A position without a root code extends the stretch before the next
      RIFF. */
  lemma LayoutSkip(buf: seq<byte>, p: nat, gs: seq<Geometry>)
    requires p + 4 <= |buf| && RootAt(buf, p) == Riff.Unrecognized
    requires Layout(buf, p + 1, gs)
    ensures Layout(buf, p, gs)
  {
    if gs != [] {
      assert NoRootBetween(buf, p, gs[0].offset);
    }
  }

  /** A RIFF at `p` heads the layout from `p`. */
  lemma LayoutFound(buf: seq<byte>, p: nat, g: Geometry, gs: seq<Geometry>)
    requires g.offset == p && Entry(buf, g)
    requires Layout(buf, p + g.size, gs)
    ensures Layout(buf, p, [g] + gs)
  {
    assert ([g] + gs)[1..] == gs;
  }

  /** Every RIFF the scan reports is real, and the scan misses no root code
      in the stretches it walks over. */
  lemma {:induction false} ScanLayout(buf: seq<byte>, p: nat, limit: nat)
    requires limit + 4 <= |buf|
    ensures Layout(buf, p, ScanFrom(buf, p, limit))
    decreases |buf| - p, 1
  {
    if p < limit {
      var s := StepAt(buf, p);
      if s.Skip? {
        ScanLayoutSkip(buf, p, limit);
      } else if s.Found? {
        ScanLayoutFound(buf, p, limit);
      }
    }
  }

  lemma {:induction false} ScanLayoutSkip(buf: seq<byte>, p: nat, limit: nat)
    requires limit + 4 <= |buf| && p < limit && StepAt(buf, p).Skip?
    ensures Layout(buf, p, ScanFrom(buf, p, limit))
    decreases |buf| - p, 0
  {
    ScanSkip(buf, p, limit);
    ScanLayout(buf, p + 1, limit);
    LayoutSkip(buf, p, ScanFrom(buf, p + 1, limit));
  }

  lemma {:induction false} ScanLayoutFound(buf: seq<byte>, p: nat, limit: nat)
    requires limit + 4 <= |buf| && p < limit && StepAt(buf, p).Found?
    ensures Layout(buf, p, ScanFrom(buf, p, limit))
    decreases |buf| - p, 0
  {
    var g := StepAt(buf, p).g;
    StepEntry(buf, p);
    ScanFound(buf, p, limit);
    ScanLayout(buf, p + g.size, limit);
    LayoutFound(buf, p, g, ScanFrom(buf, p + g.size, limit));
  }

  /** A layout is in increasing offset order, the RIFFs do not overlap and
      all of them start at or after `p`. */
  lemma {:induction false} LayoutOrdered(buf: seq<byte>, p: nat, gs: seq<Geometry>)
    requires Layout(buf, p, gs)
    ensures forall i :: 0 <= i < |gs| ==> p <= gs[i].offset && Entry(buf, gs[i])
    ensures forall i, j :: 0 <= i < j < |gs| ==> gs[i].offset + gs[i].size <= gs[j].offset
    decreases |gs|
  {
    if gs != [] {
      LayoutOrdered(buf, gs[0].offset + gs[0].size, gs[1..]);
      forall i, j | 0 <= i < j < |gs|
        ensures gs[i].offset + gs[i].size <= gs[j].offset
      {
        if i > 0 {
          assert gs[i] == gs[1..][i - 1] && gs[j] == gs[1..][j - 1];
        } else {
          assert gs[j] == gs[1..][j - 1];
        }
      }
      forall i | 0 <= i < |gs|
        ensures p <= gs[i].offset && Entry(buf, gs[i])
      {
        if i > 0 {
          assert gs[i] == gs[1..][i - 1];
        }
      }
    }
  }

  /** The reported RIFFs all start below the scan limit. */
  lemma {:induction false} ScanBelowLimit(buf: seq<byte>, p: nat, limit: nat)
    requires limit + 4 <= |buf|
    ensures forall g :: g in ScanFrom(buf, p, limit) ==> g.offset < limit
    decreases |buf| - p
  {
    if p < limit {
      match StepAt(buf, p)
      case Skip => ScanBelowLimit(buf, p + 1, limit);
      case Stop =>
      case Found(g) => ScanBelowLimit(buf, p + g.size, limit);
    }
  }

  /** A buffer holding one RIFF of byte order `o` with an n-byte body, and
      nothing else, scans back to that one RIFF. */
  lemma SingleRiff(o: Riff.ByteOrder, n: nat, body: seq<byte>, limit: nat)
    requires o != Riff.Unrecognized && n + 8 < U32 && |body| == n
    requires 0 < limit && limit + 4 <= n + 8
    ensures ScanFrom(RootBytes(o) + Riff.WordBytes(n, o) + body, 0, limit) == [Geometry(0, n + 8, o)]
  {
    var buf := RootBytes(o) + Riff.WordBytes(n, o) + body;
    assert buf[0..4] == RootBytes(o);
    assert buf[4..8] == Riff.WordBytes(n, o);
    Riff.WordOfWordBytes(buf, 4, n, o);
    SizeAtIsWord(buf, 0, o);
    assert RootAt(buf, 0) == o;
    assert StepAt(buf, 0) == Found(Geometry(0, n + 8, o));
  }

  /** The 32-bit `size += 8` of the two scanners. */
  function WrappedSize(word: nat): nat {
    (word + 8) % U32
  }

  /** One pass of rifflist_scan as written: the length is a 32-bit
      unsigned, so `+ 8` wraps, and the bound is checked against what is
      left of the buffer. */
  function RiffListStepAsWritten(buf: seq<byte>, p: nat): (s: Step)
    requires p + 8 <= |buf|
    ensures s.Skip? <==> RootAt(buf, p) == Riff.Unrecognized
    ensures s.Found? ==> s.g.offset == p && p + s.g.size <= |buf| && s.g.size < U32
  {
    var o := RootAt(buf, p);
    if o == Riff.Unrecognized then Skip
    else
      var size := WrappedSize(SizeAt(buf, p, o));
      if size > |buf| - p then Stop else Found(Geometry(p, size, o))
  }

  /** Where the scan goes after a step taken at `p`. */
  function NextOffset(p: nat, s: Step): nat {
    match s
    case Skip => p + 1
    case Stop => p
    case Found(g) => p + g.size
  }

  /** A size word of 0xFFFFFFF8 wraps the length to 0: the as-written
      rifflist_scan records an empty RIFF and stays where it is, so it
      would record it again forever; the scan without wrap-around stops. */
  lemma RiffListSizeWraps()
    ensures var buf := Riff.Fcc("RIFF") + U32Bytes(0xFFFF_FFF8) + [0];
      && RiffListStepAsWritten(buf, 0) == Found(Geometry(0, 0, Riff.RIFF))
      && NextOffset(0, RiffListStepAsWritten(buf, 0)) == 0
      && StepAt(buf, 0) == Stop
  {
    var buf := Riff.Fcc("RIFF") + U32Bytes(0xFFFF_FFF8) + [0];
    assert buf[0..4] == Riff.Fcc("RIFF");
    assert buf[4..8] == U32Bytes(0xFFFF_FFF8);
    assert SizeAt(buf, 0, Riff.RIFF) == 0xFFFF_FFF8;
  }

  /** Below 0xFFFFFFF8 the size word does not wrap, and the as-written pass
      and the one without wrap-around agree. */
  lemma RiffListStepsAgree(buf: seq<byte>, p: nat)
    requires p + 8 <= |buf|
    requires RootAt(buf, p) != Riff.Unrecognized ==> SizeAt(buf, p, RootAt(buf, p)) < U32 - 8
    ensures RiffListStepAsWritten(buf, p) == StepAt(buf, p)
  {
  }

  /** One pass of wsp_meta_init as written: offset and length are both
      32-bit unsigned, so `size += 8`, the bound `offset + size` and the
      jump `offset += size` all wrap. */
  function WspStepAsWritten(buf: seq<byte>, p: nat): (s: Step)
    requires p + 8 <= |buf|
    ensures s.Skip? <==> RootAt(buf, p) == Riff.Unrecognized
    ensures s.Found? ==> s.g.offset == p && s.g.size < U32 && (p + s.g.size) % U32 <= |buf|
  {
    var o := RootAt(buf, p);
    if o == Riff.Unrecognized then Skip
    else
      var size := WrappedSize(SizeAt(buf, p, o));
      if (p + size) % U32 > |buf| then Stop else Found(Geometry(p, size, o))
  }

  /** Where the as-written wsp_meta_init goes after a step at `p`. */
  function WspNextAsWritten(p: nat, s: Step): (q: nat)
    requires p < U32
    ensures q < U32
    ensures s.Stop? ==> q == p
    ensures s.Found? && p + s.g.size < U32 ==> q == p + s.g.size
  {
    match s
    case Skip => (p + 1) % U32
    case Stop => p
    case Found(g) => (p + g.size) % U32
  }

  /** A RIFF at offset 4 announcing 0xFFFFFFF4 bytes passes the wrapped
      bound check and is recorded; the as-written wsp_meta_init then sets its
      32-bit offset back to 0 while its read pointer, which does not wrap,
      moves far past the end of the buffer (the next read is undefined); the
      scan without wrap-around stops. */
  lemma WspOffsetWraps()
    ensures var buf := [0, 0, 0, 0] + Riff.Fcc("RIFF") + U32Bytes(0xFFFF_FFF4) + [0];
      && WspStepAsWritten(buf, 4) == Found(Geometry(4, 0xFFFF_FFFC, Riff.RIFF))
      && WspNextAsWritten(4, WspStepAsWritten(buf, 4)) == 0
      && StepAt(buf, 4) == Stop
  {
    var buf := [0, 0, 0, 0] + Riff.Fcc("RIFF") + U32Bytes(0xFFFF_FFF4) + [0];
    assert buf[4..8] == Riff.Fcc("RIFF");
    assert buf[8..12] == U32Bytes(0xFFFF_FFF4);
    assert SizeAt(buf, 4, Riff.RIFF) == 0xFFFF_FFF4;
  }

  /** While offset plus announced length stays below 2^32, the as-written
      wsp_meta_init pass agrees with the one without wrap-around. */
  lemma WspStepsAgree(buf: seq<byte>, p: nat)
    requires p + 8 <= |buf| && p < U32
    requires RootAt(buf, p) != Riff.Unrecognized ==> p + SizeAt(buf, p, RootAt(buf, p)) + 8 < U32
    ensures WspStepAsWritten(buf, p) == StepAt(buf, p)
    ensures WspNextAsWritten(p, StepAt(buf, p)) == NextOffset(p, StepAt(buf, p)) || p + 1 == U32
  {
    var o := RootAt(buf, p);
    if o != Riff.Unrecognized {
      var word := SizeAt(buf, p, o);
      assert WrappedSize(word) == word + 8;
      assert (p + (word + 8)) % U32 == p + (word + 8);
    }
  }
}
