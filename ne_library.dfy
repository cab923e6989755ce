/** NeLibrary.c: in-place reversal of a byte buffer and of its elements,
    Python-like slicing with wrap-around indices, a bounded copy, and
    forward and backward search for a byte string. Buffers are arrays of
    bytes; a null pointer is a null array, and every length is an NeSz,
    below 2^32. */
module NeLibrary {
  import opened Bytes
  import opened NeMisc
  import opened Wrappers
  
  /** NeERGINVALID (-1) as NeSlice returns it, converted to NeSz. */
  const SLICE_INVALID: nat := SZ - 1
  /** NeERGNONE. */
  const SLICE_NONE: nat := 0
  /** NeERGINVALID as NeFind and NeRfind return it. */
  const FIND_INVALID: int := -1

  function Min(a: nat, b: nat): nat {
    if a < b then a else b
  }

  /** NeReverse: the first buflen bytes in the opposite order; a null or
      empty buffer is left alone. */
  method Reverse(buf: array?<byte>, buflen: nat)
    requires buf != null ==> buflen <= buf.Length && buflen < SZ
    modifies buf
    ensures buf != null ==> buf[..buflen] == Reversed(old(buf[..buflen])) && buf[buflen..] == old(buf[buflen..])
  {
    if buf == null || buflen == 0 {
      return;
    }
    ghost var b0 := buf[..];
    var i := 0;
    while i < buflen / 2
      invariant i <= buflen / 2 && buf.Length == |b0|
      invariant forall k :: 0 <= k < i ==> buf[k] == b0[buflen - 1 - k] && buf[buflen - 1 - k] == b0[k]
      invariant forall k :: i <= k < buflen - i ==> buf[k] == b0[k]
      invariant forall k :: buflen <= k < buf.Length ==> buf[k] == b0[k]
    {
      buf[i], buf[buflen - 1 - i] := buf[buflen - 1 - i], buf[i];
      i := i + 1;
    }
    assert buf[..buflen] == Reversed(b0[..buflen]);
    assert buf[buflen..] == b0[buflen..];
  }

  /** A run of `size`-byte elements in the opposite order, each element's
      bytes kept in order; a run no longer than one element is itself. */
  function ElementsReversed(s: seq<byte>, size: nat): (r: seq<byte>)
    ensures |r| == |s|
    decreases |s|
  {
    if size == 0 || |s| <= size then s else ElementsReversed(s[size..], size) + s[..size]
  }

  /** The run is a whole number of elements. */
  predicate Whole(s: seq<byte>, size: nat)
    decreases |s|
  {
    size > 0 && (|s| == 0 || (|s| >= size && Whole(s[size..], size)))
  }

  /** Peeling the first element off a run of at least one element. */
  lemma ElementsReversedFirst(s: seq<byte>, size: nat)
    requires 0 < size <= |s|
    ensures ElementsReversed(s, size) == ElementsReversed(s[size..], size) + s[..size]
  {
    if |s| == size {
      assert s[size..] == [] && s[..size] == s;
    }
  }

  lemma {:induction false} WholeAppend(x: seq<byte>, y: seq<byte>, size: nat)
    requires Whole(x, size) && Whole(y, size)
    ensures Whole(x + y, size)
    decreases |x|
  {
    if |x| > 0 {
      WholeAppend(x[size..], y, size);
      assert (x + y)[size..] == x[size..] + y;
    } else {
      assert x + y == y;
    }
  }

  /** Reversing the elements of x + y, x being whole elements, puts y's
      reversed elements first. */
  lemma {:induction false} ElementsReversedAppend(x: seq<byte>, y: seq<byte>, size: nat)
    requires Whole(x, size)
    ensures ElementsReversed(x + y, size) == ElementsReversed(y, size) + ElementsReversed(x, size)
    decreases |x|
  {
    if |x| == 0 {
      assert x + y == y;
    } else {
      ElementsReversedAppend(x[size..], y, size);
      ElementsReversedFirst(x + y, size);
      ElementsReversedFirst(x, size);
      assert (x + y)[size..] == x[size..] + y;
      assert (x + y)[..size] == x[..size];
    }
  }

  /** Reversing whole elements twice gives the run back. */
  lemma {:induction false} ElementsReversedTwice(s: seq<byte>, size: nat)
    requires Whole(s, size)
    ensures Whole(ElementsReversed(s, size), size)
    ensures ElementsReversed(ElementsReversed(s, size), size) == s
    decreases |s|
  {
    if |s| > 0 {
      var x, y := s[..size], s[size..];
      assert s == x + y;
      ElementsReversedFirst(s, size);
      ElementsReversedTwice(y, size);
      var ry := ElementsReversed(y, size);
      assert Whole(x, size) by { assert x[size..] == []; }
      WholeAppend(ry, x, size);
      ElementsReversedAppend(ry, x, size);
      assert ElementsReversed(x, size) == x;
    }
  }

  /** With one-byte elements, reversing the elements reverses the bytes. */
  lemma {:induction false} ElementsOfOneByte(s: seq<byte>)
    ensures ElementsReversed(s, 1) == Reversed(s)
    decreases |s|
  {
    if |s| > 1 {
      ElementsOfOneByte(s[1..]);
    }
  }

  /** The bytes taken by `count` elements of `size` bytes: count * size,
      built up one element at a time. */
  function Span(count: nat, size: nat): nat {
    if count == 0 then 0 else Span(count - 1, size) + size
  }

  lemma SpanSmall(count: nat, size: nat)
    requires count <= 1
    ensures Span(count, size) == if count == 0 then 0 else size
  {
  }

  lemma SpanLessTwo(count: nat, size: nat)
    requires count >= 2
    ensures Span(count, size) == Span(count - 2, size) + 2 * size
  {
  }

  /** The outer loop's bound elcount / 2, without division. */
  lemma Halves(n: nat, i: nat)
    ensures i < n / 2 ==> 2 * i + 2 <= n
    ensures i == n / 2 ==> n - 2 * i <= 1
  {
  }

  lemma {:induction false} SpanIsProduct(count: nat, size: nat)
    ensures Span(count, size) == count * size
  {
    if count > 0 {
      SpanIsProduct(count - 1, size);
      assert count * size == (count - 1) * size + size;
    }
  }

  /** Where byte k comes from once the first n bytes at a and at b have
      traded places. */
  function Traded(k: nat, a: nat, b: nat, n: nat): nat {
    if a <= k < a + n then b + (k - a) else if b <= k < b + n then a + (k - b) else k
  }

  /** s with its first n bytes at a and at b traded, one pair at a time. */
  ghost function Trade(s: seq<byte>, a: nat, b: nat, n: nat): (r: seq<byte>)
    requires a + n <= b && b + n <= |s|
    ensures |r| == |s|
    decreases n
  {
    if n == 0 then s else Trade(s[a := s[b]][b := s[a]], a + 1, b + 1, n - 1)
  }

  /** A trade moves byte Traded(k) to k. */
  lemma {:induction false} TradeAt(s: seq<byte>, a: nat, b: nat, n: nat)
    requires a + n <= b && b + n <= |s|
    ensures forall k :: 0 <= k < |s| ==> Trade(s, a, b, n)[k] == s[Traded(k, a, b, n)]
    decreases n
  {
    if n > 0 {
      TradeAt(s[a := s[b]][b := s[a]], a + 1, b + 1, n - 1);
    }
  }

  /** One swap of the inner loop, and the trade that is left to do. */
  lemma TradeStep(s: seq<byte>, t: seq<byte>, p: nat, q: nat, n: nat)
    requires p + n <= q && q + n <= |s| && n > 0 && t == s[p := s[q]][q := s[p]]
    ensures Trade(s, p, q, n) == Trade(t, p + 1, q + 1, n - 1)
  {
  }

  /** The inner loop of NeReverseElements: the size bytes at a and those
      at b trade places. */
  method SwapRuns(buf: array<byte>, a: nat, b: nat, size: nat, ghost b1: seq<byte>)
    requires a + size <= b && b + size <= buf.Length && buf[..] == b1
    modifies buf
    ensures buf[..] == Trade(b1, a, b, size)
  {
    var j := 0;
    ghost var p, q, rest := a, b, size;
    while j < size
      invariant j <= size && p == a + j && q == b + j && rest == size - j
      invariant Trade(buf[..], p, q, rest) == Trade(b1, a, b, size)
    {
      ghost var cur := buf[..];
      buf[a + j], buf[b + j] := buf[b + j], buf[a + j];
      assert buf[..] == cur[p := cur[q]][q := cur[p]];
      TradeStep(cur, buf[..], p, q, rest);
      j := j + 1;
      p, q, rest := p + 1, q + 1, rest - 1;
    }
  }

  /** The elements of s reversed from the ends inward: the last element,
      then the reversed middle, then the first; fewer than two elements
      stay as they are. */
  function ReversedFromEnds(s: seq<byte>, size: nat): (r: seq<byte>)
    requires size > 0
    ensures |r| == |s|
    decreases |s|
  {
    if |s| < 2 * size then s
    else s[|s| - size..] + ReversedFromEnds(s[size..|s| - size], size) + s[..size]
  }

  /** Dropping the last element keeps a run whole. */
  lemma {:induction false} WholeDropLast(s: seq<byte>, size: nat)
    requires Whole(s, size) && |s| >= size
    ensures Whole(s[..|s| - size], size)
    decreases |s|
  {
    if |s| == size {
      assert s[..0] == [];
    } else {
      WholeDropLast(s[size..], size);
      assert s[..|s| - size][size..] == s[size..][..|s| - 2 * size];
    }
  }

  /** Reversing from the ends and reversing front to back agree on whole
      elements. */
  lemma {:induction false} FromEndsAgrees(s: seq<byte>, size: nat)
    requires Whole(s, size)
    ensures ReversedFromEnds(s, size) == ElementsReversed(s, size)
    decreases |s|
  {
    if |s| >= 2 * size {
      var mid, last := s[size..|s| - size], s[|s| - size..];
      assert s[size..] == mid + last;
      WholeDropLast(s[size..], size);
      assert s[size..][..|s| - 2 * size] == mid;
      FromEndsAgrees(mid, size);
      ElementsReversedFirst(s, size);
      ElementsReversedAppend(mid, last, size);
    } else if |s| > 0 {
      assert s[size..] == [];
    }
  }

  /** count elements of size bytes are whole elements. */
  lemma {:induction false} SpanWhole(s: seq<byte>, count: nat, size: nat)
    requires size > 0 && |s| == Span(count, size)
    ensures Whole(s, size)
    decreases count
  {
    if count > 0 {
      SpanAdd(1, count - 1, size);
      SpanWhole(s[size..], count - 1, size);
    }
  }

  lemma {:induction false} SpanAdd(m: nat, n: nat, size: nat)
    ensures Span(m + n, size) == Span(m, size) + Span(n, size)
    decreases n
  {
    if n > 0 {
      SpanAdd(m, n - 1, size);
    }
  }

  /** What NeReverseElements' outer loop does from lo to hi: trade the
      first element with the last and go on inward while two elements are
      left. */
  ghost function RevFrom(s: seq<byte>, lo: nat, hi: nat, size: nat): (r: seq<byte>)
    requires size > 0 && lo <= hi <= |s|
    ensures |r| == |s|
    decreases hi - lo
  {
    if hi - lo < 2 * size then s
    else RevFrom(Trade(s, lo, hi - size, size), lo + size, hi - size, size)
  }

  /** One pass of the outer loop. */
  lemma RevFromStep(s: seq<byte>, t: seq<byte>, lo: nat, b: nat, hi: nat, size: nat)
    requires size > 0 && lo + 2 * size <= hi <= |s| && b == hi - size && t == Trade(s, lo, b, size)
    ensures RevFrom(s, lo, hi, size) == RevFrom(t, lo + size, hi - size, size)
  {
  }

  /** The runs a trade of the outer elements of [lo, hi) leaves. */
  lemma TradeOuter(s: seq<byte>, lo: nat, hi: nat, size: nat)
    requires size > 0 && lo + 2 * size <= hi <= |s|
    ensures var t := Trade(s, lo, hi - size, size);
      && t[..lo + size] == s[..lo] + s[hi - size..hi]
      && t[lo + size..hi - size] == s[lo + size..hi - size]
      && t[hi - size..] == s[lo..lo + size] + s[hi..]
  {
    TradeAt(s, lo, hi - size, size);
  }

  /** Reversing s[lo..hi] from the ends, spelled out in runs of s. */
  lemma FromEndsOfSlice(s: seq<byte>, lo: nat, hi: nat, size: nat)
    requires size > 0 && lo + 2 * size <= hi <= |s|
    ensures ReversedFromEnds(s[lo..hi], size)
      == s[hi - size..hi] + ReversedFromEnds(s[lo + size..hi - size], size) + s[lo..lo + size]
  {
    SliceParts(s[lo..hi], s, lo, hi, size);
  }

  lemma SliceParts(w: seq<byte>, s: seq<byte>, lo: nat, hi: nat, size: nat)
    requires lo + 2 * size <= hi <= |s| && w == s[lo..hi]
    ensures w[|w| - size..] == s[hi - size..hi]
    ensures w[..size] == s[lo..lo + size]
    ensures w[size..|w| - size] == s[lo + size..hi - size]
  {
    SubSlice(s, lo, hi, hi - lo - size, hi - lo);
    assert w[|w| - size..] == w[hi - lo - size..hi - lo];
    SubSlice(s, lo, hi, 0, size);
    assert w[..size] == w[0..size];
    SubSlice(s, lo, hi, size, hi - lo - size);
  }

  lemma SubSlice(s: seq<byte>, lo: nat, hi: nat, i: nat, j: nat)
    requires lo <= hi <= |s| && i <= j <= hi - lo
    ensures s[lo..hi][i..j] == s[lo + i..lo + j]
  {
    assert forall k :: 0 <= k < j - i ==> s[lo..hi][i..j][k] == s[lo + i + k];
  }

  /** The runs of the trade put back together. */
  lemma Regroup(x: seq<byte>, l: seq<byte>, m: seq<byte>, f: seq<byte>, y: seq<byte>, t1: seq<byte>, t3: seq<byte>)
    requires t1 == x + l && t3 == f + y
    ensures t1 + m + t3 == x + (l + m + f) + y
  {
  }

  /** Running the loop from lo to hi reverses s[lo..hi] from the ends and
      leaves the rest alone. */
  lemma {:induction false} RevFromReverses(s: seq<byte>, lo: nat, hi: nat, size: nat)
    requires size > 0 && lo <= hi <= |s|
    ensures RevFrom(s, lo, hi, size) == s[..lo] + ReversedFromEnds(s[lo..hi], size) + s[hi..]
    decreases hi - lo
  {
    if hi - lo < 2 * size {
      assert s == s[..lo] + s[lo..hi] + s[hi..];
    } else {
      var t := Trade(s, lo, hi - size, size);
      RevFromReverses(t, lo + size, hi - size, size);
      RevFromPass(s, t, lo, hi, size);
    }
  }

  /** The step case of RevFromReverses: one trade, then the rest of the
      loop on the middle. */
  lemma RevFromPass(s: seq<byte>, t: seq<byte>, lo: nat, hi: nat, size: nat)
    requires size > 0 && lo + 2 * size <= hi <= |s| && t == Trade(s, lo, hi - size, size)
    requires RevFrom(t, lo + size, hi - size, size)
      == t[..lo + size] + ReversedFromEnds(t[lo + size..hi - size], size) + t[hi - size..]
    ensures RevFrom(s, lo, hi, size) == s[..lo] + ReversedFromEnds(s[lo..hi], size) + s[hi..]
  {
    RevFromStep(s, t, lo, hi - size, hi, size);
    TradeOuter(s, lo, hi, size);
    FromEndsOfSlice(s, lo, hi, size);
    assert ReversedFromEnds(t[lo + size..hi - size], size) == ReversedFromEnds(s[lo + size..hi - size], size);
    Regroup(s[..lo], s[hi - size..hi], ReversedFromEnds(s[lo + size..hi - size], size), s[lo..lo + size], s[hi..],
      t[..lo + size], t[hi - size..]);
  }

  /** NeReverseElements (static): the first elcount elements of elsize
      bytes each in the opposite order, each element's bytes kept in
      order; anything after them is left alone. Pass i trades the element
      at i * elsize (a below) with the one at (elcount - 1 - i) * elsize
      (hi - elsize below). */
  method ReverseElements(buf: array?<byte>, elcount: nat, elsize: nat)
    requires buf != null ==> Span(elcount, elsize) <= buf.Length && elcount < SZ && elsize < SZ
    modifies buf
    ensures buf != null ==>
      var total := Span(elcount, elsize);
      buf[..total] == ElementsReversed(old(buf[..total]), elsize) && buf[total..] == old(buf[total..])
  {
    if buf == null || elcount == 0 || elsize == 0 {
      return;
    }
    ghost var b0 := buf[..];
    ghost var total := Span(elcount, elsize);
    var i: nat := 0;
    ghost var lo: nat, hi: nat, left: nat := 0, total, elcount;
    while i < elcount / 2
      invariant i <= elcount / 2 && lo <= hi <= total <= buf.Length
      invariant lo == Span(i, elsize) && hi == total - lo
      invariant left == elcount - 2 * i && hi - lo == Span(left, elsize)
      invariant RevFrom(buf[..], lo, hi, elsize) == RevFrom(b0, 0, total, elsize)
    {
      Halves(elcount, i);
      SpanLessTwo(left, elsize);
      SpanNext(i, elsize);
      ReversePass(buf, i, elcount, elsize, lo, hi, b0, total);
      i := i + 1;
      lo, hi, left := lo + elsize, hi - elsize, left - 2;
    }
    Halves(elcount, i);
    SpanSmall(left, elsize);
    SpanWhole(b0[..total], elcount, elsize);
    ReverseDone(buf[..], b0, total, elsize);
  }

  /** Pass i of the outer loop: the element at i * elsize trades places
      with the one at (elcount - 1 - i) * elsize. */
  method ReversePass(buf: array<byte>, i: nat, elcount: nat, elsize: nat, ghost lo: nat, ghost hi: nat,
                     ghost b0: seq<byte>, ghost total: nat)
    requires elsize > 0 && i < elcount && total == Span(elcount, elsize) <= buf.Length && total <= |b0|
    requires lo == Span(i, elsize) && hi == total - lo && lo + 2 * elsize <= hi
    requires RevFrom(buf[..], lo, hi, elsize) == RevFrom(b0, 0, total, elsize)
    modifies buf
    ensures RevFrom(buf[..], lo + elsize, hi - elsize, elsize) == RevFrom(b0, 0, total, elsize)
  {
    var a := Index(i, elsize);
    var b := Index(elcount - 1 - i, elsize);
    MirrorOffset(elcount, i, elsize);
    ghost var cur := buf[..];
    SwapRuns(buf, a, b, elsize, cur);
    RevFromStep(cur, buf[..], lo, b, hi, elsize);
  }

  lemma SpanNext(i: nat, size: nat)
    ensures Span(i + 1, size) == Span(i, size) + size
  {
  }

  /** NeIDX: where element i of `size` bytes starts. */
  method Index(i: nat, size: nat) returns (o: nat)
    ensures o == Span(i, size)
  {
    SpanIsProduct(i, size);
    o := i * size;
  }

  /** Element elcount - 1 - i ends where the last i elements start. */
  lemma MirrorOffset(n: nat, i: nat, size: nat)
    requires i < n
    ensures Span(n - 1 - i, size) == Span(n, size) - Span(i, size) - size
  {
    SpanAdd(n - 1 - i, i + 1, size);
  }

  /** The loop's final state: the whole reversal done. */
  lemma ReverseDone(after: seq<byte>, b0: seq<byte>, total: nat, size: nat)
    requires size > 0 && total <= |b0| && Whole(b0[..total], size)
    requires after == RevFrom(b0, 0, total, size)
    ensures after[..total] == ElementsReversed(b0[..total], size) && after[total..] == b0[total..]
  {
    RevFromReverses(b0, 0, total, size);
    FromEndsAgrees(b0[..total], size);
    assert b0[0..total] == b0[..total];
  }

  /** The bytes a slice from s to e names: src[s..e] forward, or src[e..s]
      backward when s is past e. */
  function SliceBytes(src: seq<byte>, s: nat, e: nat): (r: seq<byte>)
    requires s <= |src| && e <= |src|
    ensures |r| == if s <= e then e - s else s - e
  {
    if s > e then Reversed(src[e..s]) else src[s..e]
  }

  /** NeSmartMod(i, len, 1): the index a slice end stands for. */
  function SliceIndex(i: int, len: nat): (r: nat)
    requires IsOf(i) && 0 < len < SZ
    ensures r <= len
  {
    SmartMod(i, len, 1)
  }

  /** NeSlice: a null or empty source or destination answers NeERGINVALID;
      the ends are normalised with NeSmartMod(., srclen, 1), so -1 is the
      end of the source; equal ends answer NeERGNONE; otherwise up to
      dstlen bytes of the slice are written and their count returned. */
  method Slice(dst: array?<byte>, dstlen: nat, src: array?<byte>, srclen: nat, start: int, end: int)
    returns (n: nat)
    requires dst != null ==> dstlen <= dst.Length && dstlen < SZ
    requires src != null ==> srclen <= src.Length && srclen < SZ
    requires dst != src && IsOf(start) && IsOf(end)
    modifies dst
    ensures dst == null || src == null || srclen == 0 || dstlen == 0 ==>
      n == SLICE_INVALID && (dst != null ==> dst[..] == old(dst[..]))
    ensures dst != null && src != null && srclen > 0 && dstlen > 0 ==>
      var piece := SliceBytes(src[..srclen], SliceIndex(start, srclen), SliceIndex(end, srclen));
      && n == Min(dstlen, |piece|)
      && dst[..n] == piece[..n] && dst[n..] == old(dst[n..])
  {
    if src == null || dst == null || srclen == 0 || dstlen == 0 {
      return SLICE_INVALID;
    }
    var s := SliceIndex(start, srclen);
    var e := SliceIndex(end, srclen);
    ghost var piece := SliceBytes(src[..srclen], s, e);
    if s == e {
      return SLICE_NONE;
    }
    if s > e {
      n := CopyBackward(dst, dstlen, src, e, s);
      PieceBackward(src[..], srclen, s, e);
    } else {
      n := CopyForward(dst, dstlen, src, s, e);
      PieceForward(src[..], srclen, s, e, n);
    }
  }

  lemma PieceBackward(all: seq<byte>, srclen: nat, s: nat, e: nat)
    requires e < s <= srclen <= |all|
    ensures SliceBytes(all[..srclen], s, e) == Reversed(all[e..s])
  {
    assert all[..srclen][e..s] == all[e..s];
  }

  lemma PieceForward(all: seq<byte>, srclen: nat, s: nat, e: nat, n: nat)
    requires s <= e <= srclen <= |all| && n <= e - s
    ensures SliceBytes(all[..srclen], s, e)[..n] == all[s..s + n]
  {
    assert all[..srclen][s..e] == all[s..e];
    assert all[s..e][..n] == all[s..s + n];
  }

  /** NeSlice's loop for start < end: bytes from s up, while both the slice
      and dst last. */
  method CopyForward(dst: array<byte>, dstlen: nat, src: array<byte>, s: nat, e: nat) returns (n: nat)
    requires dstlen <= dst.Length && s <= e <= src.Length && dst != src
    modifies dst
    ensures n == Min(dstlen, e - s) && dst[..n] == src[s..s + n] && dst[n..] == old(dst[n..])
  {
    n := 0;
    var k := s;
    while k < e && n < dstlen
      invariant n <= dstlen && k == s + n <= e
      invariant dst[..n] == src[s..k]
      invariant forall j :: n <= j < dst.Length ==> dst[j] == old(dst[j])
    {
      dst[n] := src[k];
      assert dst[..n + 1] == dst[..n] + [src[k]];
      assert src[s..k + 1] == src[s..k] + [src[k]];
      k, n := k + 1, n + 1;
    }
    assert dst[n..] == old(dst[n..]);
  }

  /** NeSlice's loop for start > end: bytes from s - 1 down to e, while
      both the slice and dst last. */
  method CopyBackward(dst: array<byte>, dstlen: nat, src: array<byte>, e: nat, s: nat) returns (n: nat)
    requires dstlen <= dst.Length && e < s <= src.Length && dst != src
    modifies dst
    ensures n == Min(dstlen, s - e) && dst[..n] == Reversed(src[e..s])[..n] && dst[n..] == old(dst[n..])
  {
    n := 0;
    var k: int := s - 1;
    ghost var r := Reversed(src[e..s]);
    while k >= e && n < dstlen
      invariant n <= dstlen && k == s - 1 - n && n <= s - e
      invariant dst[..n] == r[..n]
      invariant forall j :: n <= j < dst.Length ==> dst[j] == old(dst[j])
    {
      dst[n] := src[k];
      assert r[n] == src[e..s][s - e - 1 - n] == src[k];
      assert dst[..n + 1] == dst[..n] + [src[k]];
      assert r[..n + 1] == r[..n] + [r[n]];
      k, n := k - 1, n + 1;
    }
    assert dst[n..] == old(dst[n..]);
  }

  /** A slice from 0 to -1 is the whole source, as the copy the header's
      commented-out NeCopy macro names. */
  lemma SliceWhole(src: seq<byte>)
    requires 0 < |src| < SZ
    ensures SliceBytes(src, SliceIndex(0, |src|), SliceIndex(-1, |src|)) == src
  {
    SmartModEnd(|src|);
    assert SliceIndex(0, |src|) == 0;
    assert src[0..|src|] == src;
  }

  /** Swapping the ends gives the same bytes backward. */
  lemma SliceSwapped(src: seq<byte>, s: nat, e: nat)
    requires s <= |src| && e <= |src|
    ensures SliceBytes(src, e, s) == Reversed(SliceBytes(src, s, e))
  {
    if s < e {
      ReversedTwice(src[s..e]);
    } else if s == e {
      assert src[s..e] == [];
    }
  }

  /** NeCopy: a null or empty argument copies nothing and answers 0;
      otherwise the first min(dstlen, srclen) bytes are copied and counted. */
  method Copy(dst: array?<byte>, dstlen: nat, src: array?<byte>, srclen: nat) returns (n: nat)
    requires dst != null ==> dstlen <= dst.Length && dstlen < SZ
    requires src != null ==> srclen <= src.Length && srclen < SZ
    requires dst != src
    modifies dst
    ensures dst == null || src == null || dstlen == 0 || srclen == 0 ==> n == 0
    ensures n <= dstlen && (dst != null ==> dst[n..] == old(dst[n..]))
    ensures dst != null && src != null && dstlen > 0 && srclen > 0 ==>
      n == Min(dstlen, srclen) && dst[..n] == src[..n]
  {
    if dst == null || src == null || dstlen == 0 || srclen == 0 {
      return 0;
    }
    n := Min(dstlen, srclen);
    var i := 0;
    while i < n
      invariant i <= n && dst[..i] == src[..i]
      invariant forall k :: i <= k < dst.Length ==> dst[k] == old(dst[k])
    {
      dst[i] := src[i];
      assert dst[..i + 1] == dst[..i] + [src[i]];
      i := i + 1;
    }
    assert dst[n..] == old(dst[n..]);
  }

  /** NeCopy copies what the whole-source slice copies. */
  lemma CopyIsWholeSlice(src: seq<byte>, dstlen: nat)
    requires 0 < |src| < SZ
    ensures var piece := SliceBytes(src, SliceIndex(0, |src|), SliceIndex(-1, |src|));
      Min(dstlen, |piece|) == Min(dstlen, |src|) && piece[..Min(dstlen, |src|)] == src[..Min(dstlen, |src|)]
  {
    SliceWhole(src);
  }

  /** The needle occurs in the hay at offset o. */
  predicate MatchAt(hay: seq<byte>, ndl: seq<byte>, o: nat) {
    o + |ndl| <= |hay| && hay[o..o + |ndl|] == ndl
  }

  /** The inner loop of NeFind and NeRfind: every needle byte is compared
      with the hay byte at offset o, without stopping early. */
  method MatchesAt(hay: array<byte>, haysz: nat, ndl: array<byte>, ndlsz: nat, o: nat) returns (cmp: bool)
    requires haysz <= hay.Length && ndlsz <= ndl.Length && o + ndlsz <= haysz
    ensures cmp <==> MatchAt(hay[..haysz], ndl[..ndlsz], o)
  {
    cmp := true;
    var i := 0;
    while i < ndlsz
      invariant i <= ndlsz
      invariant cmp <==> hay[o..o + i] == ndl[..i]
    {
      assert hay[o..o + i + 1] == hay[o..o + i] + [hay[o + i]];
      assert ndl[..i + 1] == ndl[..i] + [ndl[i]];
      cmp := cmp && ndl[i] == hay[o + i];
      i := i + 1;
    }
    assert hay[..haysz][o..o + ndlsz] == hay[o..o + ndlsz];
  }

  /** NeFind: a null pointer answers NeERGINVALID; an empty hay or needle,
      or a needle longer than the hay, answers haysz; otherwise the first
      offset from iof on where the needle occurs, or haysz if none does.
      An iof past the last possible offset would leave the C's `cmp`
      uninitialised, so it is excluded. */
  method Find(hay: array?<byte>, haysz: nat, ndl: array?<byte>, ndlsz: nat, iof: nat) returns (r: int)
    requires hay != null ==> haysz <= hay.Length && haysz < SZ
    requires ndl != null ==> ndlsz <= ndl.Length && ndlsz < SZ
    requires hay != null && ndl != null && 0 < ndlsz <= haysz ==> iof <= haysz - ndlsz
    ensures hay == null || ndl == null ==> r == FIND_INVALID
    ensures hay != null && ndl != null && (haysz == 0 || ndlsz == 0 || ndlsz > haysz) ==> r == haysz
    ensures hay != null && ndl != null && 0 < ndlsz <= haysz ==>
      var h, n := hay[..haysz], ndl[..ndlsz];
      && (r == haysz ==> forall o :: iof <= o <= haysz - ndlsz ==> !MatchAt(h, n, o))
      && (r != haysz ==> iof <= r <= haysz - ndlsz && MatchAt(h, n, r)
                         && forall o :: iof <= o < r ==> !MatchAt(h, n, o))
  {
    if hay == null || ndl == null {
      return FIND_INVALID;
    }
    if haysz == 0 || ndlsz == 0 || ndlsz > haysz {
      return haysz;
    }
    var o := iof;
    var cmp := false;
    while o < haysz - (ndlsz - 1)
      invariant iof <= o <= haysz - ndlsz + 1
      invariant forall p :: iof <= p < o ==> !MatchAt(hay[..haysz], ndl[..ndlsz], p)
      invariant !cmp && (o > iof || o < haysz - (ndlsz - 1))
    {
      cmp := MatchesAt(hay, haysz, ndl, ndlsz, o);
      if cmp {
        break;
      }
      o := o + 1;
    }
    if !cmp {
      return haysz;
    }
    return o;
  }

  /** The largest offset in [lo, o] where the needle occurs. */
  function LastMatch(hay: seq<byte>, ndl: seq<byte>, lo: nat, o: nat): (r: Option<nat>)
    ensures r.Some? ==>
      lo <= r.value <= o && MatchAt(hay, ndl, r.value) && forall p :: r.value < p <= o ==> !MatchAt(hay, ndl, p)
    ensures r.None? ==> forall p :: lo <= p <= o ==> !MatchAt(hay, ndl, p)
    decreases o
  {
    if o < lo then None
    else if MatchAt(hay, ndl, o) then Some(o)
    else if o == 0 then None
    else LastMatch(hay, ndl, lo, o - 1)
  }

  /** The backward search loop shared by NeRfind and its corrected form:
      offsets from iof down to lo. */
  method SearchDown(hay: array<byte>, haysz: nat, ndl: array<byte>, ndlsz: nat, iof: nat, lo: nat)
    returns (r: nat)
    requires haysz <= hay.Length && ndlsz <= ndl.Length && 0 < ndlsz <= haysz
    requires lo <= iof <= haysz - ndlsz
    ensures r == match LastMatch(hay[..haysz], ndl[..ndlsz], lo, iof) case Some(o) => o case None => haysz
  {
    var o: int := iof;
    var cmp := false;
    while o >= lo
      invariant lo - 1 <= o <= iof
      invariant forall p :: o < p <= iof ==> !MatchAt(hay[..haysz], ndl[..ndlsz], p)
      invariant !cmp
    {
      cmp := MatchesAt(hay, haysz, ndl, ndlsz, o);
      if cmp {
        break;
      }
      o := o - 1;
    }
    if !cmp {
      return haysz;
    }
    return o;
  }

  /** NeRfind: the checks of NeFind, then offsets from iof down to
      ndlsz - 1; the largest one where the needle occurs is returned, or
      haysz. Offsets below ndlsz - 1 are never tried. An iof below
      ndlsz - 1 would leave `cmp` uninitialised and one above
      haysz - ndlsz reads past the hay, so both are excluded. */
  method Rfind(hay: array?<byte>, haysz: nat, ndl: array?<byte>, ndlsz: nat, iof: nat) returns (r: int)
    requires hay != null ==> haysz <= hay.Length && haysz < SZ
    requires ndl != null ==> ndlsz <= ndl.Length && ndlsz < SZ
    requires hay != null && ndl != null && 0 < ndlsz <= haysz ==> ndlsz - 1 <= iof <= haysz - ndlsz
    ensures hay == null || ndl == null ==> r == FIND_INVALID
    ensures hay != null && ndl != null && (haysz == 0 || ndlsz == 0 || ndlsz > haysz) ==> r == haysz
    ensures hay != null && ndl != null && 0 < ndlsz <= haysz ==>
      r == match LastMatch(hay[..haysz], ndl[..ndlsz], ndlsz - 1, iof) case Some(o) => o case None => haysz
  {
    if hay == null || ndl == null {
      return FIND_INVALID;
    }
    if haysz == 0 || ndlsz == 0 || ndlsz > haysz {
      return haysz;
    }
    r := SearchDown(hay, haysz, ndl, ndlsz, iof, ndlsz - 1);
  }

  /** NeRfind as its header describes it, "the same as NeFind, searching
      backward": every offset from iof down to 0 is tried. */
  method RfindAll(hay: array?<byte>, haysz: nat, ndl: array?<byte>, ndlsz: nat, iof: nat) returns (r: int)
    requires hay != null ==> haysz <= hay.Length && haysz < SZ
    requires ndl != null ==> ndlsz <= ndl.Length && ndlsz < SZ
    requires hay != null && ndl != null && 0 < ndlsz <= haysz ==> iof <= haysz - ndlsz
    ensures hay == null || ndl == null ==> r == FIND_INVALID
    ensures hay != null && ndl != null && (haysz == 0 || ndlsz == 0 || ndlsz > haysz) ==> r == haysz
    ensures hay != null && ndl != null && 0 < ndlsz <= haysz ==>
      var h, n := hay[..haysz], ndl[..ndlsz];
      && (r == haysz ==> forall o :: 0 <= o <= iof ==> !MatchAt(h, n, o))
      && (r != haysz ==> 0 <= r <= iof && MatchAt(h, n, r) && forall o :: r < o <= iof ==> !MatchAt(h, n, o))
  {
    if hay == null || ndl == null {
      return FIND_INVALID;
    }
    if haysz == 0 || ndlsz == 0 || ndlsz > haysz {
      return haysz;
    }
    r := SearchDown(hay, haysz, ndl, ndlsz, iof, 0);
  }

  /** NeRfind as written misses a match at offset 0 for a two-byte needle:
      searching [1, 2, 0, 0] for [1, 2] from offset 2 tries offsets 2 and 1
      only and answers haysz, while the needle occurs at 0, which the
      corrected search finds. */
  lemma RfindMissesStart()
    ensures MatchAt([1, 2, 0, 0], [1, 2], 0)
    ensures LastMatch([1, 2, 0, 0], [1, 2], 1, 2) == None
    ensures LastMatch([1, 2, 0, 0], [1, 2], 0, 2) == Some(0)
  {
    var h: seq<byte> := [1, 2, 0, 0];
    var n: seq<byte> := [1, 2];
    assert h[0..2] == n;
    assert h[1..3] != n by { assert h[1..3][0] == 2; }
    assert h[2..4] != n by { assert h[2..4][0] == 0; }
  }
}
