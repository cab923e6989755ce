/** process_wem.c: the WEM reader of the conversion path. i_init_wem keeps
    the raw bytes of the first fmt, vorb and data chunks and classifies the
    vorb layout; i_consume_next_chunk drives the RIFF reader over a file and
    translates its answers into I_* codes. */
module ProcessWem {
  import opened Bytes
  import opened Wrappers
  import opened Riff
  import opened Errors
  import W = Wwise

  /** wwise_vorb_typeT. */
  datatype VorbType = VorbBasic | VorbExtra | VorbImplicit

  /** wwise_wemT as i_init_wem fills it: the 76 fmt bytes, the vorb layout,
      the 52 raw bytes of the vorb union, and the data chunk. */
  datatype Raw = Raw(fmt: seq<byte>, vorbType: VorbType, vorb: seq<byte>, data: seq<byte>)

  ghost predicate RawValid(w: Raw) {
    |w.fmt| == W.FMT_SIZE && |w.vorb| == W.EXTRA_SIZE
  }

  /** The layout of a standalone vorb chunk of `size` bytes. */
  function VorbTypeOf(size: nat): (t: VorbType)
    ensures t == VorbImplicit <==> size == W.IMPLICIT_SIZE
    ensures t == VorbBasic <==> size < 50 && size != W.IMPLICIT_SIZE
    ensures t == VorbExtra <==> size >= 50
  {
    if size == W.IMPLICIT_SIZE then VorbImplicit
    else if size < 50 then VorbBasic
    else VorbExtra
  }

  /** The vorb union inside the fmt bytes (offset 24, 52 bytes). */
  function FmtVorb(fmt: seq<byte>): (v: seq<byte>)
    requires |fmt| == W.FMT_SIZE
    ensures |v| == W.EXTRA_SIZE
  {
    fmt[W.FMT_VORB_AT..]
  }

  /** The init_fmt/init_vorb/init_data flags and the WEM filled so far. */
  datatype Intake = Intake(fmtSeen: bool, vorbSeen: bool, dataSeen: bool, wem: Raw)

  /** One pass of i_init_wem's loop. A later fmt, vorb or data chunk only
      warns, except that a first fmt of at least 66 bytes installs its vorb
      union whatever vorb came before. */
  function Take(p: Intake, b: Basic): (q: Intake)
    requires RawValid(p.wem)
    ensures RawValid(q.wem)
  {
    if b.kind == BASIC_FMT then
      if p.fmtSeen then p
      else
        var f := W.Overlay(p.wem.fmt, b.data);
        if b.size >= W.FMT_WITH_VORB then
          p.(fmtSeen := true, vorbSeen := true, wem := p.wem.(fmt := f, vorb := FmtVorb(f), vorbType := VorbImplicit))
        else p.(fmtSeen := true, wem := p.wem.(fmt := f))
    else if b.kind == BASIC_VORB then
      if p.vorbSeen then p
      else p.(vorbSeen := true, wem := p.wem.(vorb := W.Overlay(p.wem.vorb, b.data), vorbType := VorbTypeOf(b.size)))
    else if b.kind == BASIC_DATA then
      if p.dataSeen then p
      else p.(dataSeen := true, wem := p.wem.(data := b.data))
    else p
  }

  /** The loop of i_init_wem over the basics. */
  function Intakes(basics: seq<Basic>, w: Raw): (p: Intake)
    requires RawValid(w)
    ensures RawValid(p.wem)
  {
    if basics == [] then Intake(false, false, false, w)
    else Take(Intakes(basics[..|basics| - 1], w), basics[|basics| - 1])
  }

  /** wwise_wemT as an object. */
  class RawWem {
    var fmt: seq<byte>
    var vorbType: VorbType
    var vorb: seq<byte>
    var data: seq<byte>

    function State(): Raw
      reads this
    {
      Raw(fmt, vorbType, vorb, data)
    }
  }

  /** i_init_wem: the WEM becomes that of the walk; the answer is always
      I_SUCCESS. */
  method InitWem(wem: RawWem, rf: Riff) returns (code: int)
    requires RawValid(wem.State())
    modifies wem
    ensures code == I_SUCCESS
    ensures wem.State() == Intakes(rf.basics, old(wem.State())).wem
  {
    var basics := rf.basics;
    ghost var w0 := wem.State();
    var fmtSeen, vorbSeen, dataSeen := false, false, false;
    for i := 0 to |basics|
      invariant Intakes(basics[..i], w0) == Intake(fmtSeen, vorbSeen, dataSeen, wem.State())
    {
      assert basics[..i + 1][..i] == basics[..i];
      var b := basics[i];
      if b.kind == BASIC_FMT {
        if !fmtSeen {
          wem.fmt := W.Overlay(wem.fmt, b.data);
          if b.size >= W.FMT_WITH_VORB {
            wem.vorb := FmtVorb(wem.fmt);
            wem.vorbType := VorbImplicit;
            vorbSeen := true;
          }
          fmtSeen := true;
        }
      } else if b.kind == BASIC_VORB {
        if !vorbSeen {
          wem.vorb := W.Overlay(wem.vorb, b.data);
          wem.vorbType := VorbTypeOf(b.size);
          vorbSeen := true;
        }
      } else if b.kind == BASIC_DATA {
        if !dataSeen {
          wem.data := b.data;
          dataSeen := true;
        }
      }
    }
    assert basics[..|basics|] == basics;
    return I_SUCCESS;
  }

  /** The position of the first chunk of type `kind`, or |basics|. */
  function First(basics: seq<Basic>, kind: nat): (k: nat)
    ensures k <= |basics|
    ensures k < |basics| ==> basics[k].kind == kind
    ensures forall j :: 0 <= j < k && j < |basics| ==> basics[j].kind != kind
  {
    if basics == [] then 0
    else
      var init := basics[..|basics| - 1];
      var k := First(init, kind);
      if k < |init| then k
      else if basics[|basics| - 1].kind == kind then |init|
      else |basics|
  }

  /** Whether the first fmt chunk is long enough to carry the vorb. */
  predicate LongFmtFirst(basics: seq<Basic>) {
    var kf := First(basics, BASIC_FMT);
    kf < |basics| && basics[kf].size >= W.FMT_WITH_VORB
  }

  /** What i_init_wem leaves, chunk order aside: the first fmt chunk over
      the fmt; the vorb of that fmt (implicit) when it is at least 66 bytes
      long, otherwise the first vorb chunk over the vorb, typed by its size;
      the first data chunk. Headers without a chunk keep their contents. */
  function Expected(basics: seq<Basic>, w: Raw): (p: Intake)
    requires RawValid(w)
    ensures RawValid(p.wem)
  {
    var n := |basics|;
    var kf := First(basics, BASIC_FMT);
    var kv := First(basics, BASIC_VORB);
    var kd := First(basics, BASIC_DATA);
    var fmt := if kf < n then W.Overlay(w.fmt, basics[kf].data) else w.fmt;
    var data := if kd < n then basics[kd].data else w.data;
    if LongFmtFirst(basics) then
      Intake(true, true, kd < n, Raw(fmt, VorbImplicit, FmtVorb(fmt), data))
    else if kv < n then
      Intake(kf < n, true, kd < n, Raw(fmt, VorbTypeOf(basics[kv].size), W.Overlay(w.vorb, basics[kv].data), data))
    else
      Intake(kf < n, false, kd < n, Raw(fmt, w.vorbType, w.vorb, data))
  }

  /** i_init_wem's walk ends in the order-free description. */
  lemma {:induction false} IntakesFirst(basics: seq<Basic>, w: Raw)
    requires RawValid(w)
    ensures Intakes(basics, w) == Expected(basics, w)
  {
    if basics != [] {
      var init := basics[..|basics| - 1];
      IntakesFirst(init, w);
      TakeExpected(basics, w);
    }
  }

  /** One more chunk moves the description along. */
  lemma TakeExpected(basics: seq<Basic>, w: Raw)
    requires RawValid(w) && basics != []
    ensures Take(Expected(basics[..|basics| - 1], w), basics[|basics| - 1]) == Expected(basics, w)
  {
    var init := basics[..|basics| - 1];
    var b := basics[|basics| - 1];
    var kf := First(init, BASIC_FMT);
    if kf < |init| {
      assert basics[kf] == init[kf];
    }
    var kv := First(init, BASIC_VORB);
    if kv < |init| {
      assert basics[kv] == init[kv];
    }
    var kd := First(init, BASIC_DATA);
    if kd < |init| {
      assert basics[kd] == init[kd];
    }
  }

  /** Where wwise_wem_init finds no duplicate, i_init_wem sets the same
      flags and keeps the same fmt bytes and data chunk. */
  lemma {:induction false} AgreesWithWwise(basics: seq<Basic>, ww: W.Wem, w: Raw)
    requires W.WellSized(basics) && RawValid(w) && ww.fmt == w.fmt && ww.data == w.data
    requires !W.Walk(basics, ww).duplicate
    ensures var p := W.Walk(basics, ww);
      var q := Intakes(basics, w);
      && p.fmtSeen == q.fmtSeen && p.vorbSeen == q.vorbSeen && p.dataSeen == q.dataSeen
      && p.wem.fmt == q.wem.fmt && p.wem.data == q.wem.data
  {
    if basics != [] {
      var init := basics[..|basics| - 1];
      assert W.WellSized(init);
      AgreesWithWwise(init, ww, w);
      AgreesStep(W.Walk(init, ww), Intakes(init, w), basics[|basics| - 1]);
    }
  }

  /** One chunk keeps the two walks in step. */
  lemma AgreesStep(p: W.Progress, q: Intake, b: Basic)
    requires |p.wem.fmt| == W.FMT_SIZE && |b.data| == b.size && !p.duplicate && RawValid(q.wem)
    requires p.fmtSeen == q.fmtSeen && p.vorbSeen == q.vorbSeen && p.dataSeen == q.dataSeen
    requires p.wem.fmt == q.wem.fmt && p.wem.data == q.wem.data
    requires !W.Visit(p, b).duplicate
    ensures var p' := W.Visit(p, b);
      var q' := Take(q, b);
      && p'.fmtSeen == q'.fmtSeen && p'.vorbSeen == q'.vorbSeen && p'.dataSeen == q'.dataSeen
      && p'.wem.fmt == q'.wem.fmt && p'.wem.data == q'.wem.data
  {
  }

  /** How a read step of i_consume_next_chunk went: bytes applied to the
      sync, no buffer from riff_data_sync_buffer, ferror set by the read, or
      riff_data_sync_apply refusing the count. */
  datatype ReadOutcome = Fed | NoBuffer | ReadError | NotApplied

  /** What one turn of the loop sees: riff_consume_chunk's answer, whether
      the file is at its end, the chunk size in the chunk info, and how the
      read that follows an incomplete answer went. */
  datatype Turn = Turn(err: int, eof: bool, chunksize: nat, read: ReadOutcome)

  /** One turn: the answer it ends the loop with, or None to go on. */
  function Decide(t: Turn): (r: Option<int>)
    ensures t.err == CONSUMED ==> r == Some(I_SUCCESS)
    ensures t.err == CONSUME_MORE || t.err == UNRECOGNIZED ==> r == None
    ensures t.err == INCOMPLETE && t.eof ==> r == Some(if t.chunksize == 0 then I_SUCCESS else I_FILE_TRUNCATED)
  {
    if t.err == CONSUMED then Some(I_SUCCESS)
    else if t.err == CONSUME_MORE || t.err == UNRECOGNIZED then None
    else if t.err != INCOMPLETE then Some(ErrorCode(t.err))
    else if t.eof then Some(if t.chunksize != 0 then I_FILE_TRUNCATED else I_SUCCESS)
    else match t.read
      case Fed => None
      case NoBuffer => Some(I_BUFFER_ERROR)
      case ReadError => Some(I_IO_ERROR)
      case NotApplied => Some(I_BUFFER_ERROR)
  }

  /** The answer of the first turn that decides one, None when none does. */
  function FirstDecided(turns: seq<Turn>): (r: Option<int>)
  {
    if turns == [] then None
    else if Decide(turns[0]).Some? then Decide(turns[0])
    else FirstDecided(turns[1..])
  }

  /** i_consume_next_chunk over the turns the reader and the file produce:
      the answer of the first deciding turn; None when the turns run out
      first. */
  method ConsumeNextChunk(turns: seq<Turn>) returns (code: Option<int>)
    ensures code == FirstDecided(turns)
  {
    var i := 0;
    while i < |turns|
      invariant i <= |turns|
      invariant FirstDecided(turns) == FirstDecided(turns[i..])
    {
      assert turns[i..][1..] == turns[i + 1..];
      var t := turns[i];
      if t.err == CONSUMED {
        return Some(I_SUCCESS);
      } else if t.err == CONSUME_MORE {
        i := i + 1;
        continue;
      } else if t.err == UNRECOGNIZED {
        i := i + 1;
        continue;
      } else if t.err != INCOMPLETE {
        return Some(ErrorCode(t.err));
      } else if t.eof {
        if t.chunksize != 0 {
          return Some(I_FILE_TRUNCATED);
        }
        return Some(I_SUCCESS);
      } else if t.read == NoBuffer {
        return Some(I_BUFFER_ERROR);
      }
      if t.read == ReadError {
        return Some(I_IO_ERROR);
      } else if t.read == NotApplied {
        return Some(I_BUFFER_ERROR);
      }
      i := i + 1;
    }
    return None;
  }

  /** The answers riff_consume_chunk can give. */
  predicate ReaderAnswer(err: int) {
    err in {UNRECOGNIZED, CONSUMED, INCOMPLETE, ERROR, CONSUME_MORE, NOT_RIFF, CORRUPTED}
  }

  /** With answers the reader can give, the loop reports success exactly
      when its deciding turn is a consumed chunk, or the end of the file
      between chunks; every other deciding turn is a negative code. */
  lemma {:induction false} ConsumeNextChunkSucceeds(turns: seq<Turn>)
    requires forall i :: 0 <= i < |turns| ==> ReaderAnswer(turns[i].err)
    ensures FirstDecided(turns) == Some(I_SUCCESS) <==>
      exists k :: 0 <= k < |turns| && Decide(turns[k]).Some?
        && (forall j :: 0 <= j < k ==> Decide(turns[j]).None?)
        && (turns[k].err == CONSUMED || (turns[k].err == INCOMPLETE && turns[k].eof && turns[k].chunksize == 0))
    ensures FirstDecided(turns).Some? ==> FirstDecided(turns).value <= I_SUCCESS
  {
    if turns != [] {
      ConsumeNextChunkSucceeds(turns[1..]);
      if Decide(turns[0]).None? {
        if FirstDecided(turns) == Some(I_SUCCESS) {
          var k :| 0 <= k < |turns[1..]| && Decide(turns[1..][k]).Some?
            && (forall j :: 0 <= j < k ==> Decide(turns[1..][j]).None?)
            && (turns[1..][k].err == CONSUMED || (turns[1..][k].err == INCOMPLETE && turns[1..][k].eof && turns[1..][k].chunksize == 0));
          assert forall j :: 0 < j < k + 1 ==> turns[j] == turns[1..][j - 1];
        }
        forall k | 0 <= k < |turns| && Decide(turns[k]).Some? && (forall j :: 0 <= j < k ==> Decide(turns[j]).None?)
          ensures FirstDecided(turns[1..]) == Decide(turns[k])
        {
          FirstDecidedAt(turns[1..], k - 1);
        }
      }
    }
  }

  /** The first deciding turn gives the answer. */
  lemma {:induction false} FirstDecidedAt(turns: seq<Turn>, k: nat)
    requires k < |turns| && Decide(turns[k]).Some? && forall j :: 0 <= j < k ==> Decide(turns[j]).None?
    ensures FirstDecided(turns) == Decide(turns[k])
  {
    if k > 0 {
      FirstDecidedAt(turns[1..], k - 1);
    }
  }
}
