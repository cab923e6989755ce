/** rifflist.c: the list of RIFFs embedded in a WSP or BNK buffer, and the
    filtered walk over it that extracts or converts each one. */
module RiffList {
  import opened Bytes
  import opened Wrappers
  import opened RiffScan
  import NeFilter

  /** rifflist_t: the geometries found by the last scan. */
  class RiffList {
    var riffs: seq<Geometry>

    constructor ()
      ensures riffs == []
    {
      riffs := [];
    }

    /** rifflist_clear. */
    method Clear()
      modifies this
      ensures riffs == []
    {
      riffs := [];
    }
  }

  /** rifflist_scan looks for a root code at every position strictly below
      size - 8. */
  function ScanLimit(size: nat): nat
    requires size >= 8
  {
    size - 8
  }

  /** rifflist_scan: a missing list or buffer, or fewer than 4 bytes,
      answers -1 and leaves the list alone; otherwise the list is replaced
      by what the scan finds and the answer is 0. */
  method Scan(list: RiffList?, buffer: Option<seq<byte>>) returns (code: int)
    requires list != null && buffer.Some? && |buffer.value| >= 4 ==> |buffer.value| >= 8
    modifies list
    ensures list == null || buffer.None? || |buffer.value| < 4 ==> code == -1
    ensures list != null && (buffer.None? || |buffer.value| < 4) ==> list.riffs == old(list.riffs)
    ensures list != null && buffer.Some? && |buffer.value| >= 4 ==>
      code == 0 && list.riffs == ScanFrom(buffer.value, 0, ScanLimit(|buffer.value|))
  {
    if list == null || buffer.None? || |buffer.value| < 4 {
      return -1;
    }
    var riffs := ScanBuffer(buffer.value, |buffer.value| - 8);
    list.riffs := riffs;
    code := 0;
  }

  /** The offset loop of rifflist_scan, collecting into a local list. */
  method ScanBuffer(buf: seq<byte>, limit: nat) returns (riffs: seq<Geometry>)
    requires limit + 4 <= |buf|
    ensures riffs == ScanFrom(buf, 0, limit)
  {
    riffs := [];
    var offset := 0;
    ScanIntoAppends(buf, 0, limit, []);
    assert [] + ScanFrom(buf, 0, limit) == ScanFrom(buf, 0, limit);
    while offset < limit
      invariant ScanInto(buf, offset, limit, riffs) == ScanFrom(buf, 0, limit)
      decreases |buf| - offset
    {
      var stop;
      riffs, offset, stop := ScanOne(buf, limit, riffs, offset);
      if stop {
        return;
      }
    }
  }

  /** The list rifflist_scan produces is in increasing offset order, its
      RIFFs lie inside the buffer and do not overlap, each starts with a
      root code and announces its own length, and no root code was passed
      over between them. */
  lemma ScanWellFormed(buf: seq<byte>)
    requires |buf| >= 8
    ensures var gs := ScanFrom(buf, 0, ScanLimit(|buf|));
      && Layout(buf, 0, gs)
      && (forall i :: 0 <= i < |gs| ==> Entry(buf, gs[i]) && gs[i].offset < |buf| - 8)
      && (forall i, j :: 0 <= i < j < |gs| ==> gs[i].offset + gs[i].size <= gs[j].offset)
  {
    var gs := ScanFrom(buf, 0, ScanLimit(|buf|));
    ScanLayout(buf, 0, ScanLimit(|buf|));
    LayoutOrdered(buf, 0, gs);
    ScanBelowLimit(buf, 0, ScanLimit(|buf|));
    assert forall i :: 0 <= i < |gs| ==> gs[i] in gs;
  }

  /** Index i is left out by the filter: the filter has entries and either
      lists i as a blacklist or does not list it as a whitelist. The index
      is looked up as a 32-bit value. */
  predicate Filtered(list: seq<nat>, t: NeFilter.FilterType, i: nat) {
    |list| > 0 &&
    ((i % U32 in list && t == NeFilter.Black) || (i % U32 !in list && t == NeFilter.White))
  }

  /** The indices below n that the filter lets through, in order. */
  function Kept(list: seq<nat>, t: NeFilter.FilterType, n: nat): seq<nat> {
    if n == 0 then []
    else Kept(list, t, n - 1) + (if Filtered(list, t, n - 1) then [] else [n - 1])
  }

  /** How many of the indices below n the filter lets through have
      outcome `v`. */
  function CountKept(list: seq<nat>, t: NeFilter.FilterType, outcomes: seq<bool>, v: bool, n: nat): nat
    requires n <= |outcomes|
  {
    if n == 0 then 0
    else CountKept(list, t, outcomes, v, n - 1) + (if !Filtered(list, t, n - 1) && outcomes[n - 1] == v then 1 else 0)
  }

  /** The indices let through are exactly those below n the filter does
      not leave out; with an empty filter that is all of them. */
  lemma {:induction false} KeptMembers(list: seq<nat>, t: NeFilter.FilterType, n: nat)
    ensures forall i: nat :: i in Kept(list, t, n) <==> i < n && !Filtered(list, t, i)
    ensures list == [] ==> |Kept(list, t, n)| == n
  {
    if n > 0 {
      KeptMembers(list, t, n - 1);
    }
  }

  /** Every index let through ends up counted once, as a success or as a
      failure. */
  lemma {:induction false} OutcomesSplit(list: seq<nat>, t: NeFilter.FilterType, outcomes: seq<bool>, n: nat)
    requires n <= |outcomes|
    ensures CountKept(list, t, outcomes, true, n) + CountKept(list, t, outcomes, false, n) == |Kept(list, t, n)|
  {
    if n > 0 {
      OutcomesSplit(list, t, outcomes, n - 1);
    }
  }

  /** nestate_stat_t. */
  class Stat {
    var nAssigned: nat
    var nSucceeded: nat
    var nFailed: nat

    constructor ()
      ensures nAssigned == 0 && nSucceeded == 0 && nFailed == 0
    {
      nAssigned, nSucceeded, nFailed := 0, 0, 0;
    }
  }

  /** The per-index loop shared by rifflist_convert and rifflist_extract:
      an index the filter leaves out is skipped; any other is assigned and
      counted as a success or a failure according to `outcomes[i]`, which
      stands for the conversion or the write of RIFF i. */
  method Tally(stat: Stat, filter: NeFilter.Filter, n: nat, outcomes: seq<bool>)
    requires |outcomes| == n
    modifies stat
    ensures stat.nAssigned == old(stat.nAssigned) + |Kept(filter.list, filter.filterType, n)|
    ensures stat.nSucceeded == old(stat.nSucceeded) + CountKept(filter.list, filter.filterType, outcomes, true, n)
    ensures stat.nFailed == old(stat.nFailed) + CountKept(filter.list, filter.filterType, outcomes, false, n)
  {
    var i := 0;
    while i < n
      invariant i <= n
      invariant stat.nAssigned == old(stat.nAssigned) + |Kept(filter.list, filter.filterType, i)|
      invariant stat.nSucceeded == old(stat.nSucceeded) + CountKept(filter.list, filter.filterType, outcomes, true, i)
      invariant stat.nFailed == old(stat.nFailed) + CountKept(filter.list, filter.filterType, outcomes, false, i)
    {
      var skip := false;
      if |filter.list| > 0 {
        var contained := NeFilter.Contains(filter, i);
        skip := (contained && filter.filterType == NeFilter.Black) || (!contained && filter.filterType == NeFilter.White);
      }
      if !skip {
        stat.nAssigned := stat.nAssigned + 1;
        if outcomes[i] {
          stat.nSucceeded := stat.nSucceeded + 1;
        } else {
          stat.nFailed := stat.nFailed + 1;
        }
      }
      i := i + 1;
    }
  }

  /** rifflist_extract: any missing argument answers -1 and counts
      nothing; otherwise each RIFF the filter lets through is assigned and
      counted as extracted or failed (`written[i]`: its output file could be
      opened and all riff_size bytes written), and the answer is 0. */
  method Extract(list: RiffList?, buffer: Option<seq<byte>>, stat: Stat?, filter: NeFilter.Filter?,
                 outputRoot: Option<string>, written: seq<bool>) returns (code: int)
    requires list != null ==> |written| == |list.riffs|
    modifies stat
    ensures list == null || buffer.None? || stat == null || filter == null || outputRoot.None? ==>
      code == -1 && (stat != null ==> stat.nAssigned == old(stat.nAssigned) && stat.nSucceeded == old(stat.nSucceeded) && stat.nFailed == old(stat.nFailed))
    ensures list != null && buffer.Some? && stat != null && filter != null && outputRoot.Some? ==>
      var ks := Kept(filter.list, filter.filterType, |list.riffs|);
      && code == 0
      && stat.nAssigned == old(stat.nAssigned) + |ks|
      && stat.nSucceeded == old(stat.nSucceeded) + CountKept(filter.list, filter.filterType, written, true, |list.riffs|)
      && stat.nFailed == old(stat.nFailed) + CountKept(filter.list, filter.filterType, written, false, |list.riffs|)
  {
    if buffer.None? || list == null || stat == null || filter == null || outputRoot.None? {
      return -1;
    }
    Tally(stat, filter, |list.riffs|, written);
    code := 0;
  }

  /** rifflist_convert: as rifflist_extract, with `converted[i]` standing
      for the parse, the comments, the conversion and the write of RIFF i
      all succeeding. */
  method Convert(list: RiffList?, buffer: Option<seq<byte>>, stat: Stat?, filter: NeFilter.Filter?,
                 outputRoot: Option<string>, converted: seq<bool>) returns (code: int)
    requires list != null ==> |converted| == |list.riffs|
    modifies stat
    ensures list == null || buffer.None? || stat == null || filter == null || outputRoot.None? ==>
      code == -1 && (stat != null ==> stat.nAssigned == old(stat.nAssigned) && stat.nSucceeded == old(stat.nSucceeded) && stat.nFailed == old(stat.nFailed))
    ensures list != null && buffer.Some? && stat != null && filter != null && outputRoot.Some? ==>
      var ks := Kept(filter.list, filter.filterType, |list.riffs|);
      && code == 0
      && stat.nAssigned == old(stat.nAssigned) + |ks|
      && stat.nSucceeded == old(stat.nSucceeded) + CountKept(filter.list, filter.filterType, converted, true, |list.riffs|)
      && stat.nFailed == old(stat.nFailed) + CountKept(filter.list, filter.filterType, converted, false, |list.riffs|)
  {
    if buffer.None? || list == null || stat == null || filter == null || outputRoot.None? {
      return -1;
    }
    Tally(stat, filter, |list.riffs|, converted);
    code := 0;
  }
}
