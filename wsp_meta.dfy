/** wsp_meta.c: the WEMs embedded in a WSP buffer, found by the shared RIFF
    scan, and the counting walks that convert or extract each of them. */
module WspMeta {
  import opened Bytes
  import opened Wrappers
  import opened RiffScan
  import opened Errors

  /** wsp_metaT: the geometries of the WEMs found so far. */
  class WspMeta {
    var wems: seq<Geometry>

    constructor ()
      ensures wems == []
    {
      wems := [];
    }

    /** wsp_meta_clear. */
    method Clear()
      modifies this
      ensures wems == []
    {
      wems := [];
    }
  }

  /** The scan of wsp_meta_init looks at every position strictly below
      size - 4. */
  function InitLimit(size: nat): nat
    requires size >= 4
  {
    size - 4
  }

  /** wsp_meta_init reads the size word after every root code it meets,
      while only the 4 bytes of the code are known to lie in the buffer: no
      root code may start where its size word would run past the end. */
  predicate SizeWordsInside(buf: seq<byte>)
    requires |buf| >= 4
  {
    NoRootBetween(buf, if |buf| >= 7 then |buf| - 7 else 0, InitLimit(|buf|))
  }

  /** wsp_meta_init: a missing wsp answers I_GENERIC_ERROR; a missing buffer
      or fewer than 4 bytes answers I_INSUFFICIENT_DATA; otherwise the WEMs
      the scan finds are appended to those already listed and the answer is
      I_SUCCESS, also when the scan stopped at a WEM overrunning the buffer. */
  method Init(wsp: WspMeta?, buffer: Option<seq<byte>>) returns (st: Status)
    requires buffer.Some? && |buffer.value| >= 4 ==> SizeWordsInside(buffer.value)
    modifies wsp
    ensures wsp == null ==> st == GenericError
    ensures wsp != null && (buffer.None? || |buffer.value| < 4) ==>
      st == Code(I_INSUFFICIENT_DATA) && wsp.wems == old(wsp.wems)
    ensures wsp != null && buffer.Some? && |buffer.value| >= 4 ==>
      st == Code(I_SUCCESS) && wsp.wems == old(wsp.wems) + ScanFrom(buffer.value, 0, InitLimit(|buffer.value|))
  {
    if wsp == null {
      return GenericError;
    }
    if buffer.None? || |buffer.value| < 4 {
      return Code(I_INSUFFICIENT_DATA);
    }
    var buf := buffer.value;
    var limit := |buf| - 4;
    var offset := 0;
    ghost var wems0 := wsp.wems;
    ScanIntoAppends(buf, 0, limit, wems0);
    while offset < limit
      invariant ScanInto(buf, offset, limit, wsp.wems) == wems0 + ScanFrom(buf, 0, limit)
      decreases |buf| - offset
    {
      var stop;
      wsp.wems, offset, stop := ScanOne(buf, limit, wsp.wems, offset);
      if stop {
        break;
      }
    }
    return Code(I_SUCCESS);
  }

  /** Every WEM wsp_meta_init lists lies inside the buffer behind its own
      root code, announces its own length, and the WEMs follow each other
      without overlap, in offset order. */
  lemma InitWellFormed(buf: seq<byte>)
    requires |buf| >= 4
    ensures var gs := ScanFrom(buf, 0, InitLimit(|buf|));
      && Layout(buf, 0, gs)
      && (forall i :: 0 <= i < |gs| ==> Entry(buf, gs[i]) && gs[i].offset < InitLimit(|buf|))
      && (forall i, j :: 0 <= i < j < |gs| ==> gs[i].offset + gs[i].size <= gs[j].offset)
  {
    var gs := ScanFrom(buf, 0, InitLimit(|buf|));
    ScanLayout(buf, 0, InitLimit(|buf|));
    LayoutOrdered(buf, 0, gs);
    ScanBelowLimit(buf, 0, InitLimit(|buf|));
    assert forall i :: 0 <= i < |gs| ==> gs[i] in gs;
  }

  /** The WEM counters of nestateT. */
  class State {
    var wemsToExtract: nat
    var wemsExtracted: nat
    var wemsToConvertExtract: nat
    var wemsConvertExtracted: nat

    constructor ()
      ensures wemsToExtract == 0 && wemsExtracted == 0 && wemsToConvertExtract == 0 && wemsConvertExtracted == 0
    {
      wemsToExtract, wemsExtracted, wemsToConvertExtract, wemsConvertExtracted := 0, 0, 0, 0;
    }
  }

  /** How many of the outcomes are successes. */
  function Successes(outcomes: seq<bool>): nat {
    if outcomes == [] then 0
    else Successes(outcomes[..|outcomes| - 1]) + (if outcomes[|outcomes| - 1] then 1 else 0)
  }

  /** There are no more successes than attempts, and none exactly when
      every attempt failed. */
  lemma {:induction false} SuccessesBounds(outcomes: seq<bool>)
    ensures Successes(outcomes) <= |outcomes|
    ensures Successes(outcomes) == 0 <==> forall i :: 0 <= i < |outcomes| ==> !outcomes[i]
    ensures Successes(outcomes) == |outcomes| <==> forall i :: 0 <= i < |outcomes| ==> outcomes[i]
  {
    if outcomes != [] {
      var init := outcomes[..|outcomes| - 1];
      SuccessesBounds(init);
      assert forall i :: 0 <= i < |init| ==> init[i] == outcomes[i];
    }
  }

  /** The answer of both walks: I_GENERIC_ERROR when nothing succeeded. */
  function WalkStatus(success: nat): (st: Status)
    ensures st == GenericError <==> success == 0
  {
    if success == 0 then GenericError else Code(I_SUCCESS)
  }

  /** wsp_meta_convert_wems: a missing buffer answers I_INSUFFICIENT_DATA
      and any other missing argument I_GENERIC_ERROR, counting nothing;
      otherwise every WEM is due for conversion, `converted[i]` (parsing,
      converting and writing WEM i all succeeded) counts it as converted,
      and the answer is I_GENERIC_ERROR exactly when none was. */
  method ConvertWems(wsp: WspMeta?, buffer: Option<seq<byte>>, state: State?, hasInput: bool,
                     outputRoot: Option<string>, converted: seq<bool>) returns (st: Status)
    requires wsp != null ==> |converted| == |wsp.wems|
    modifies state
    ensures buffer.None? ==> st == Code(I_INSUFFICIENT_DATA)
    ensures buffer.Some? && (wsp == null || state == null || !hasInput || outputRoot.None?) ==> st == GenericError
    ensures buffer.None? || wsp == null || !hasInput || outputRoot.None? ==>
      state != null ==> state.wemsToConvertExtract == old(state.wemsToConvertExtract)
                        && state.wemsConvertExtracted == old(state.wemsConvertExtracted)
    ensures buffer.Some? && wsp != null && state != null && hasInput && outputRoot.Some? ==>
      && state.wemsToConvertExtract == old(state.wemsToConvertExtract) + |wsp.wems|
      && state.wemsConvertExtracted == old(state.wemsConvertExtracted) + Successes(converted)
      && st == WalkStatus(Successes(converted))
    ensures state != null ==> state.wemsToExtract == old(state.wemsToExtract) && state.wemsExtracted == old(state.wemsExtracted)
  {
    if buffer.None? {
      return Code(I_INSUFFICIENT_DATA);
    }
    if wsp == null || state == null || !hasInput || outputRoot.None? {
      return GenericError;
    }
    state.wemsToConvertExtract := state.wemsToConvertExtract + |wsp.wems|;
    var success := 0;
    for i := 0 to |wsp.wems|
      invariant success == Successes(converted[..i])
      invariant state.wemsConvertExtracted == old(state.wemsConvertExtracted) + success
      invariant state.wemsToConvertExtract == old(state.wemsToConvertExtract) + |wsp.wems|
      invariant state.wemsToExtract == old(state.wemsToExtract) && state.wemsExtracted == old(state.wemsExtracted)
    {
      assert converted[..i + 1][..i] == converted[..i];
      if converted[i] {
        state.wemsConvertExtracted := state.wemsConvertExtracted + 1;
        success := success + 1;
      }
    }
    assert converted[..|wsp.wems|] == converted;
    st := WalkStatus(success);
  }

  /** wsp_meta_extract_wems: as wsp_meta_convert_wems, with `written[i]`
      (the output file of WEM i opened and all its bytes written) counting
      WEM i as extracted. */
  method ExtractWems(wsp: WspMeta?, buffer: Option<seq<byte>>, state: State?, hasInput: bool,
                     outputRoot: Option<string>, written: seq<bool>) returns (st: Status)
    requires wsp != null ==> |written| == |wsp.wems|
    modifies state
    ensures buffer.None? ==> st == Code(I_INSUFFICIENT_DATA)
    ensures buffer.Some? && (wsp == null || state == null || !hasInput || outputRoot.None?) ==> st == GenericError
    ensures buffer.None? || wsp == null || !hasInput || outputRoot.None? ==>
      state != null ==> state.wemsToExtract == old(state.wemsToExtract) && state.wemsExtracted == old(state.wemsExtracted)
    ensures buffer.Some? && wsp != null && state != null && hasInput && outputRoot.Some? ==>
      && state.wemsToExtract == old(state.wemsToExtract) + |wsp.wems|
      && state.wemsExtracted == old(state.wemsExtracted) + Successes(written)
      && st == WalkStatus(Successes(written))
    ensures state != null ==>
      state.wemsToConvertExtract == old(state.wemsToConvertExtract) && state.wemsConvertExtracted == old(state.wemsConvertExtracted)
  {
    if buffer.None? {
      return Code(I_INSUFFICIENT_DATA);
    }
    if wsp == null || state == null || !hasInput || outputRoot.None? {
      return GenericError;
    }
    state.wemsToExtract := state.wemsToExtract + |wsp.wems|;
    var success := 0;
    for i := 0 to |wsp.wems|
      invariant success == Successes(written[..i])
      invariant state.wemsExtracted == old(state.wemsExtracted) + success
      invariant state.wemsToExtract == old(state.wemsToExtract) + |wsp.wems|
      invariant state.wemsToConvertExtract == old(state.wemsToConvertExtract)
      invariant state.wemsConvertExtracted == old(state.wemsConvertExtracted)
    {
      assert written[..i + 1][..i] == written[..i];
      if written[i] {
        success := success + 1;
        state.wemsExtracted := state.wemsExtracted + 1;
      }
    }
    assert written[..|wsp.wems|] == written;
    st := WalkStatus(success);
  }
}
