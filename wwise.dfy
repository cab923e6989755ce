/** wwise.c: a WEM assembled from the fmt, vorb and data chunks of a riff.
    The fmt header keeps the raw bytes of wwise_fmtT (76 bytes); the vorb
    header keeps the named fields wwise.c writes (wwise.h declares a union
    whose members do not carry these names; the .c is what is modelled). */
module Wwise {
  import opened Bytes
  import opened Riff

  /** The answers of wwise_wem_init. */
  datatype WemCode = WemSuccess | WemError | WemDuplicate | WemIncomplete

  /** The vorb header fields wwise.c fills. */
  datatype Vorb = Vorb(sampleCount: nat, modSignal: nat, setupPacketOffset: nat,
                       audioStartOffset: nat, uid: nat, blocksize0: byte, blocksize1: byte)

  /** sizeof(wwise_fmtT). */
  const FMT_SIZE: nat := 76
  /** Size of the implicit vorb layout, also the vorb part of a long fmt. */
  const IMPLICIT_SIZE: nat := 42
  /** sizeof(wwise_vorb_extraT). */
  const EXTRA_SIZE: nat := 52
  /** An fmt chunk at least this long carries an implicit vorb at byte 24. */
  const FMT_WITH_VORB: nat := 66
  const FMT_VORB_AT: nat := 24

  const VorbCleared: Vorb := Vorb(0, 0, 0, 0, 0, 0, 0)

  function Min(a: nat, b: nat): nat {
    if a < b then a else b
  }

  /** The first `n` bytes of `data`, completed with zeros: what memcpy of at
      most `n` bytes into a zeroed structure of `n` bytes leaves there. */
  function Padded(data: seq<byte>, n: nat): (r: seq<byte>)
    ensures |r| == n
    ensures forall k :: 0 <= k < n ==> r[k] == (if k < |data| then data[k] else 0)
  {
    data[..Min(|data|, n)] + Zeros(n - Min(|data|, n))
  }

  /** i_init_vorb: 42 bytes are read with the implicit layout (mod_signal at
      4, setup offset at 16, audio offset at 20, uid at 36, block sizes at 40
      and 41); any other size with the extra layout from the bytes padded to
      52 (setup offset at 24, audio offset at 28, uid at 44, block sizes at 48
      and 49), which leaves mod_signal as it was. */
  function InitVorb(v: Vorb, data: seq<byte>): (r: Vorb)
    ensures |data| != IMPLICIT_SIZE ==> r.modSignal == v.modSignal
  {
    if |data| == IMPLICIT_SIZE then
      Vorb(U32At(data, 0), U32At(data, 4), U32At(data, 16), U32At(data, 20), U32At(data, 36), data[40], data[41])
    else
      var e := Padded(data, EXTRA_SIZE);
      Vorb(U32At(e, 0), v.modSignal, U32At(e, 24), U32At(e, 28), U32At(e, 44), e[48], e[49])
  }

  /** The 42 bytes a writer emits for an implicit vorb (skipped bytes zero). */
  function ImplicitBytes(v: Vorb): (b: seq<byte>)
    requires v.sampleCount < U32 && v.modSignal < U32 && v.setupPacketOffset < U32
    requires v.audioStartOffset < U32 && v.uid < U32
    ensures |b| == IMPLICIT_SIZE
  {
    U32Bytes(v.sampleCount) + U32Bytes(v.modSignal) + Zeros(8) + U32Bytes(v.setupPacketOffset)
    + U32Bytes(v.audioStartOffset) + Zeros(12) + U32Bytes(v.uid) + [v.blocksize0, v.blocksize1]
  }

  /** The 52 bytes a writer emits for an extra vorb (skipped bytes zero). */
  function ExtraBytes(v: Vorb): (b: seq<byte>)
    requires v.sampleCount < U32 && v.setupPacketOffset < U32 && v.audioStartOffset < U32 && v.uid < U32
    ensures |b| == EXTRA_SIZE
  {
    U32Bytes(v.sampleCount) + Zeros(20) + U32Bytes(v.setupPacketOffset)
    + U32Bytes(v.audioStartOffset) + Zeros(12) + U32Bytes(v.uid) + [v.blocksize0, v.blocksize1, 0, 0]
  }

  /** The word read at `at` from bytes that hold U32Bytes(v) there. */
  lemma WordAt(b: seq<byte>, at: nat, v: nat)
    requires v < U32 && at + 4 <= |b| && b[at..at + 4] == U32Bytes(v)
    ensures U32At(b, at) == v
  {
    assert U32Bytes(v)[0..4] == U32Bytes(v);
    U32RoundTrip(v);
  }

  /** Reading an implicit vorb back gives every field. */
  lemma ImplicitRoundTrip(w: Vorb, v: Vorb)
    requires v.sampleCount < U32 && v.modSignal < U32 && v.setupPacketOffset < U32
    requires v.audioStartOffset < U32 && v.uid < U32
    ensures InitVorb(w, ImplicitBytes(v)) == v
  {
    var b := ImplicitBytes(v);
    WordAt(b, 0, v.sampleCount);
    WordAt(b, 4, v.modSignal);
    WordAt(b, 16, v.setupPacketOffset);
    WordAt(b, 20, v.audioStartOffset);
    WordAt(b, 36, v.uid);
  }

  /** Reading an extra vorb back gives every field but mod_signal, which
      keeps its earlier value. */
  lemma ExtraRoundTrip(w: Vorb, v: Vorb)
    requires v.sampleCount < U32 && v.setupPacketOffset < U32 && v.audioStartOffset < U32 && v.uid < U32
    ensures InitVorb(w, ExtraBytes(v)) == v.(modSignal := w.modSignal)
  {
    var b := ExtraBytes(v);
    assert Padded(b, EXTRA_SIZE) == b;
    WordAt(b, 0, v.sampleCount);
    WordAt(b, 24, v.setupPacketOffset);
    WordAt(b, 28, v.audioStartOffset);
    WordAt(b, 44, v.uid);
  }

  /** A vorb chunk of any size but 42 is read as if it were zero-padded (or
      cut) to 52 bytes: the copy takes at most its own size. */
  lemma ExtraReadsPadded(w: Vorb, data: seq<byte>)
    requires |data| != IMPLICIT_SIZE
    ensures InitVorb(w, data) == InitVorb(w, Padded(data, EXTRA_SIZE))
  {
    assert Padded(Padded(data, EXTRA_SIZE), EXTRA_SIZE) == Padded(data, EXTRA_SIZE);
  }

  /** memcpy of min(|src|, |dst|) bytes of `src` over `dst` (i_init_fmt
      copies a chunk over the fmt this way): the bytes past the chunk keep
      their earlier contents. */
  function Overlay(dst: seq<byte>, src: seq<byte>): (r: seq<byte>)
    ensures |r| == |dst|
    ensures forall k :: 0 <= k < |dst| ==> r[k] == (if k < |src| then src[k] else dst[k])
  {
    src[..Min(|src|, |dst|)] + dst[Min(|src|, |dst|)..]
  }

  /** wwise_wemT: the fmt bytes, the vorb fields and the data chunk. */
  datatype Wem = Wem(fmt: seq<byte>, vorb: Vorb, data: seq<byte>)

  const WemCleared: Wem := Wem(Zeros(FMT_SIZE), VorbCleared, [])

  /** Every basic chunk holds as many bytes as it announces. */
  predicate WellSized(basics: seq<Basic>) {
    forall i :: 0 <= i < |basics| ==> |basics[i].data| == basics[i].size
  }

  /** The init_fmt/init_vorb/init_data flags and the WEM built so far;
      `duplicate` once a chunk repeats. */
  datatype Progress = Progress(fmtSeen: bool, vorbSeen: bool, dataSeen: bool, wem: Wem, duplicate: bool)

  /** One pass of wwise_wem_init's loop. The fmt is copied before a
      repeated vorb is noticed, so a duplicate can leave a new fmt behind. */
  function Visit(p: Progress, b: Basic): (q: Progress)
    requires |p.wem.fmt| == FMT_SIZE && |b.data| == b.size && !p.duplicate
    ensures |q.wem.fmt| == FMT_SIZE
  {
    if b.kind == BASIC_FMT then
      if p.fmtSeen then p.(duplicate := true)
      else
        var w := p.wem.(fmt := Overlay(p.wem.fmt, b.data));
        if b.size >= FMT_WITH_VORB then
          if p.vorbSeen then p.(fmtSeen := true, wem := w, duplicate := true)
          else p.(fmtSeen := true, vorbSeen := true,
                  wem := w.(vorb := InitVorb(w.vorb, b.data[FMT_VORB_AT..FMT_VORB_AT + IMPLICIT_SIZE])))
        else p.(fmtSeen := true, wem := w)
    else if b.kind == BASIC_VORB then
      if p.vorbSeen then p.(duplicate := true)
      else p.(vorbSeen := true, wem := p.wem.(vorb := InitVorb(p.wem.vorb, b.data)))
    else if b.kind == BASIC_DATA then
      if p.dataSeen then p.(duplicate := true)
      else p.(dataSeen := true, wem := p.wem.(data := b.data))
    else p
  }

  /** The loop over the basics, stopping at the first duplicate. */
  function Walk(basics: seq<Basic>, w: Wem): (p: Progress)
    requires WellSized(basics) && |w.fmt| == FMT_SIZE
    ensures |p.wem.fmt| == FMT_SIZE
  {
    if basics == [] then Progress(false, false, false, w, false)
    else
      var p := Walk(basics[..|basics| - 1], w);
      if p.duplicate then p else Visit(p, basics[|basics| - 1])
  }

  /** The answer once the loop is over. */
  function Outcome(p: Progress): WemCode {
    if p.duplicate then WemDuplicate
    else if !p.fmtSeen || !p.dataSeen || !p.vorbSeen then WemIncomplete
    else WemSuccess
  }

  /** wwise_wemT as an object. */
  class WwiseWem {
    var fmt: seq<byte>
    var vorb: Vorb
    var data: seq<byte>

    function State(): Wem
      reads this
    {
      Wem(fmt, vorb, data)
    }

    constructor ()
      ensures State() == WemCleared
    {
      fmt, vorb, data := Zeros(FMT_SIZE), VorbCleared, [];
    }

    /** wwise_wem_clear. */
    method Clear()
      modifies this
      ensures State() == WemCleared
    {
      fmt, vorb, data := Zeros(FMT_SIZE), VorbCleared, [];
    }
  }

  /** wwise_wem_init: WEM_ERROR for a missing argument; otherwise the chunks
      are read in order, the answer and the WEM are those of the walk. */
  method WemInit(wem: WwiseWem?, rf: Riff?) returns (code: WemCode)
    requires rf != null ==> WellSized(rf.basics)
    requires wem != null ==> |wem.fmt| == FMT_SIZE
    modifies wem
    ensures wem == null || rf == null ==> code == WemError
    ensures wem != null && rf != null ==>
      var p := Walk(rf.basics, old(wem.State()));
      code == Outcome(p) && wem.State() == p.wem
  {
    if wem == null || rf == null {
      return WemError;
    }
    var basics := rf.basics;
    ghost var w0 := wem.State();
    var fmtSeen, vorbSeen, dataSeen := false, false, false;
    for i := 0 to |basics|
      invariant WellSized(basics[..i])
      invariant Walk(basics[..i], w0) == Progress(fmtSeen, vorbSeen, dataSeen, wem.State(), false)
    {
      assert basics[..i + 1][..i] == basics[..i];
      var b := basics[i];
      if b.kind == BASIC_FMT {
        if fmtSeen {
          DuplicateSticks(basics, w0, i + 1);
          return WemDuplicate;
        }
        wem.fmt := Overlay(wem.fmt, b.data);
        fmtSeen := true;
        if b.size >= FMT_WITH_VORB {
          if vorbSeen {
            DuplicateSticks(basics, w0, i + 1);
            return WemDuplicate;
          }
          wem.vorb := InitVorb(wem.vorb, b.data[FMT_VORB_AT..FMT_VORB_AT + IMPLICIT_SIZE]);
          vorbSeen := true;
        }
      } else if b.kind == BASIC_VORB {
        if vorbSeen {
          DuplicateSticks(basics, w0, i + 1);
          return WemDuplicate;
        }
        wem.vorb := InitVorb(wem.vorb, b.data);
        vorbSeen := true;
      } else if b.kind == BASIC_DATA {
        if dataSeen {
          DuplicateSticks(basics, w0, i + 1);
          return WemDuplicate;
        }
        wem.data := b.data;
        dataSeen := true;
      }
    }
    assert basics[..|basics|] == basics;
    if !fmtSeen || !dataSeen || !vorbSeen {
      return WemIncomplete;
    }
    return WemSuccess;
  }

  /** Once a chunk repeats, the later chunks change nothing. */
  lemma {:induction false} DuplicateSticks(basics: seq<Basic>, w: Wem, j: nat)
    requires WellSized(basics) && |w.fmt| == FMT_SIZE && j <= |basics|
    requires Walk(basics[..j], w).duplicate
    ensures Walk(basics, w) == Walk(basics[..j], w)
  {
    if j < |basics| {
      var init := basics[..|basics| - 1];
      assert init[..j] == basics[..j];
      DuplicateSticks(init, w, j);
    } else {
      assert basics[..j] == basics;
    }
  }

  /** How many chunks of `basics` are of type `kind`. */
  function Count(basics: seq<Basic>, kind: nat): (n: nat)
    ensures n <= |basics|
  {
    if basics == [] then 0
    else Count(basics[..|basics| - 1], kind) + (if basics[|basics| - 1].kind == kind then 1 else 0)
  }

  /** A chunk that supplies the vorb header: a vorb chunk, or an fmt chunk
      long enough to carry one. */
  predicate SuppliesVorb(b: Basic) {
    b.kind == BASIC_VORB || (b.kind == BASIC_FMT && b.size >= FMT_WITH_VORB)
  }

  /** How many chunks of `basics` supply the vorb header. */
  function VorbSources(basics: seq<Basic>): (n: nat)
    ensures n <= |basics|
  {
    if basics == [] then 0
    else VorbSources(basics[..|basics| - 1]) + (if SuppliesVorb(basics[|basics| - 1]) then 1 else 0)
  }

  /** Some header appears twice. */
  predicate Repeated(basics: seq<Basic>) {
    Count(basics, BASIC_FMT) >= 2 || Count(basics, BASIC_DATA) >= 2 || VorbSources(basics) >= 2
  }

  /** The walk finds a duplicate exactly when an fmt, a data chunk or a vorb
      header appears twice; until then each flag says that its header
      appeared once. */
  lemma {:induction false} WalkCounts(basics: seq<Basic>, w: Wem)
    requires WellSized(basics) && |w.fmt| == FMT_SIZE
    ensures var p := Walk(basics, w);
      && (p.duplicate <==> Repeated(basics))
      && (!p.duplicate ==>
            && p.fmtSeen == (Count(basics, BASIC_FMT) == 1)
            && p.vorbSeen == (VorbSources(basics) == 1)
            && p.dataSeen == (Count(basics, BASIC_DATA) == 1))
  {
    if basics != [] {
      var init := basics[..|basics| - 1];
      assert WellSized(init);
      WalkCounts(init, w);
    }
  }

  /** wwise_wem_init's answer by the chunk counts: WEM_DUPLICATE when a
      header repeats, WEM_SUCCESS when fmt, vorb header and data each appear
      exactly once, WEM_INCOMPLETE otherwise. */
  lemma WemInitClassified(basics: seq<Basic>, w: Wem)
    requires WellSized(basics) && |w.fmt| == FMT_SIZE
    ensures var code := Outcome(Walk(basics, w));
      && (code == WemDuplicate <==> Repeated(basics))
      && (code == WemSuccess <==>
            Count(basics, BASIC_FMT) == 1 && VorbSources(basics) == 1 && Count(basics, BASIC_DATA) == 1)
      && (code == WemIncomplete <==>
            !Repeated(basics)
            && (Count(basics, BASIC_FMT) == 0 || VorbSources(basics) == 0 || Count(basics, BASIC_DATA) == 0))
  {
    WalkCounts(basics, w);
  }

  /** Without a duplicate, the WEM's data is the data chunk's, and stays
      as it was when there is no data chunk. */
  lemma {:induction false} WalkData(basics: seq<Basic>, w: Wem)
    requires WellSized(basics) && |w.fmt| == FMT_SIZE
    requires !Walk(basics, w).duplicate
    ensures var p := Walk(basics, w);
      && (p.dataSeen ==> exists i :: 0 <= i < |basics| && basics[i].kind == BASIC_DATA && p.wem.data == basics[i].data)
      && (!p.dataSeen ==> p.wem.data == w.data)
  {
    if basics != [] {
      var init := basics[..|basics| - 1];
      assert WellSized(init);
      WalkData(init, w);
      var p := Walk(init, w);
      if p.dataSeen {
        var i :| 0 <= i < |init| && init[i].kind == BASIC_DATA && p.wem.data == init[i].data;
        assert basics[i] == init[i];
      } else {
        assert basics[|basics| - 1] == basics[|basics| - 1];
      }
    }
  }
}
