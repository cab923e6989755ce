/** NeStr.c: counted byte strings. A `struct NeStr` holds a buffer pointer
    `cstr` and a `length`; the functions that build one allocate length + 1
    zeroed bytes, so a NUL follows the text. A struct the functions write
    through a pointer is a `Str` object; a struct passed by value is a
    `StrVal` snapshot of its two fields. Allocation is NeSafeAlloc as built
    with assertions on (src/common/NeLibrary.c:13-33): a failed allocation
    aborts and is not modelled. */
module NeStr {
  import opened Bytes
  import opened NeMisc
  import opened NeLibrary
  import opened Wrappers

  /** The byte that ends a C string. */
  const NUL: byte := 0

  /** `struct NeStr` as the functions receive it by value. */
  datatype StrVal = StrVal(cstr: array?<byte>, length: nat)

  /** `struct NeStr` as the functions update it through a pointer. */
  class Str {
    var cstr: array?<byte>
    var length: nat

    /** `struct NeStr s = {0}`. */
    constructor ()
      ensures cstr == null && length == 0
    {
      cstr := null;
      length := 0;
    }

    /** The struct's fields, as a by-value copy would hold them. */
    function Val(): (v: StrVal)
      reads this
      ensures v.cstr == cstr && v.length == length
    {
      StrVal(cstr, length)
    }
  }

  predicate NulFree(s: seq<byte>) {
    forall k :: 0 <= k < |s| ==> s[k] != NUL
  }

  /** The first `length` bytes of a string may be read. */
  predicate Readable(v: StrVal)
    reads v.cstr
  {
    v.length > 0 ==> v.cstr != null && v.length <= v.cstr.Length
  }

  /** The text of a string: its first `length` bytes. */
  function Text(v: StrVal): (t: seq<byte>)
    requires Readable(v)
    reads v.cstr
    ensures |t| == v.length
  {
    if v.length == 0 then [] else v.cstr[..v.length]
  }

  /** `s` holds the text `t` in a buffer of |t| + 1 bytes whose last byte is NUL. */
  predicate Holds(s: Str, t: seq<byte>)
    reads s, s.cstr
  {
    s.length == |t| && s.cstr != null && s.cstr[..] == t + [NUL]
  }

  /** What NeStrlen counts in `s`: the bytes before the first NUL, at most max. */
  function CLen(s: seq<byte>, max: nat): (n: nat)
    ensures n <= max && n <= |s|
    ensures NulFree(s[..n])
    ensures n < max && n < |s| ==> s[n] == NUL
    decreases max
  {
    if max == 0 || |s| == 0 || s[0] == NUL then 0
    else
      var n := 1 + CLen(s[1..], max - 1);
      assert forall k :: 1 <= k < n ==> s[k] == s[1..][..n - 1][k - 1];
      n
  }

  /** NeStrlen(cstr, max) reads only inside the buffer: the loop reads the
      byte at the count it ends with, so with no NUL among the first max
      bytes it reads cstr[max] too. */
  predicate Measurable(cstr: array?<byte>, max: nat)
    reads cstr
  {
    cstr != null && max > 0 ==> CLen(cstr[..], max) < cstr.Length
  }

  /** What NeStrlen(cstr, max) answers. */
  function Counted(cstr: array?<byte>, max: nat): (n: nat)
    reads cstr
    ensures n <= max
  {
    if cstr == null || max == 0 then 0 else CLen(cstr[..], max)
  }

  /** The bytes NeStrNew(str, cstr, maxlen) copies. */
  function Copied(cstr: array?<byte>, max: nat): (t: seq<byte>)
    requires Measurable(cstr, max)
    reads cstr
    ensures |t| == Counted(cstr, max) && NulFree(t)
  {
    if cstr == null || max == 0 then [] else cstr[..CLen(cstr[..], max)]
  }

  /** NeStrlen: a null pointer or a max of 0 counts 0; otherwise the bytes
      before the first NUL, at most max. */
  method Strlen(str: array?<byte>, max: nat) returns (n: nat)
    requires Measurable(str, max)
    ensures n == Counted(str, max)
  {
    if str == null || max == 0 {
      return 0;
    }
    n := 0;
    var a := str[0];
    assert str[0..] == str[..];
    while n < max && a != NUL
      invariant n <= max && n < str.Length && a == str[n]
      invariant CLen(str[..], max) == n + CLen(str[n..], max - n)
    {
      assert str[n..][1..] == str[n + 1..];
      n := n + 1;
      a := str[n];
    }
  }

  /** A count capped at the text's length finds the whole of a NUL-free text. */
  lemma {:induction false} CLenWhole(s: seq<byte>, m: nat)
    requires m <= |s| && NulFree(s[..m])
    ensures CLen(s, m) == m
    decreases m
  {
    if m > 0 {
      assert s[..m][0] == s[0];
      assert s[1..][..m - 1] == s[..m][1..];
      CLenWhole(s[1..], m - 1);
    }
  }

  /** NeStrlen of a buffer NeStrNew built counts the text back. */
  lemma {:induction false} CLenOfHeld(t: seq<byte>, m: nat)
    requires NulFree(t) && |t| <= m
    ensures CLen(t + [NUL], m) == |t|
    decreases |t|
  {
    if |t| > 0 {
      assert (t + [NUL])[1..] == t[1..] + [NUL];
      CLenOfHeld(t[1..], m - 1);
    }
  }

  /** NeSafeAlloc(cur, size, 1): size 0 answers NULL; otherwise a new
      zero-filled buffer (the old one is freed). */
  method AllocZeroed(size: nat) returns (r: array?<byte>)
    ensures size == 0 ==> r == null
    ensures size > 0 ==> r != null && fresh(r) && r[..] == Zeros(size)
  {
    if size == 0 {
      return null;
    }
    r := new byte[size](_ => 0);
  }

  /** NeSafeAlloc(cur, size, 0) with size > 0: malloc for a NULL cur,
      realloc otherwise. The bytes realloc keeps are the first
      min(size, old size); the rest are indeterminate, here `junk`. */
  method Realloc(cur: array?<byte>, size: nat, junk: byte) returns (r: array<byte>)
    requires size > 0
    ensures fresh(r) && r.Length == size
    ensures cur != null ==> r[..Min(size, cur.Length)] == cur[..Min(size, cur.Length)]
    ensures forall i :: (if cur == null then 0 else cur.Length) <= i < size ==> r[i] == junk
  {
    r := new byte[size](_ => junk);
    if cur != null {
      var m := Min(size, cur.Length);
      var i := 0;
      while i < m
        invariant i <= m && r[..i] == cur[..i]
        invariant forall j :: m <= j < size ==> r[j] == junk
      {
        r[i] := cur[i];
        assert r[..i + 1] == r[..i] + [cur[i]];
        i := i + 1;
      }
    }
  }

  /** NeStrNew: copies the first NeStrlen(cstr, maxlen) bytes into a new
      zeroed buffer one byte longer; a null `str` does nothing. The source
      asserts that the buffers differ. */
  method StrNew(str: Str?, cstr: array?<byte>, maxlen: nat)
    requires Measurable(cstr, maxlen)
    requires str != null ==> str.cstr != cstr && Counted(cstr, maxlen) + 1 < SZ
    modifies str
    ensures str != null ==> Holds(str, Copied(cstr, maxlen)) && fresh(str.cstr)
  {
    if str == null {
      return;
    }
    ghost var t := Copied(cstr, maxlen);
    var n := Strlen(cstr, maxlen);
    str.length := n;
    var buf := AllocZeroed(n + 1);
    str.cstr := buf;
    var i := 0;
    while i < n
      invariant str.cstr == buf && str.length == n
      invariant i <= n && buf[..i] == t[..i]
      invariant forall j :: i <= j < buf.Length ==> buf[j] == NUL
    {
      buf[i] := cstr[i];
      assert buf[..i + 1] == buf[..i] + [t[i]];
      i := i + 1;
    }
    assert buf[..] == buf[..n] + [buf[n]];
  }

  /** NeStrCopy: NeStrNew from the other string's buffer and length. */
  method StrCopy(out: Str?, src: StrVal)
    requires Measurable(src.cstr, src.length)
    requires out != null ==> out.cstr != src.cstr && Counted(src.cstr, src.length) + 1 < SZ
    modifies out
    ensures out != null ==> Holds(out, Copied(src.cstr, src.length)) && fresh(out.cstr)
  {
    StrNew(out, src.cstr, src.length);
  }

  /** A copy of a NUL-free text is the whole text. */
  lemma CopiedWhole(v: StrVal)
    requires Readable(v) && Measurable(v.cstr, v.length) && NulFree(Text(v))
    ensures Copied(v.cstr, v.length) == Text(v)
  {
    if v.cstr != null && v.length > 0 {
      CLenWhole(v.cstr[..], v.length);
    }
  }

  /** A string NeStrNew built is measured back by NeStrlen to the same text. */
  lemma CopiedOfHeld(s: Str, t: seq<byte>, max: nat)
    requires Holds(s, t) && NulFree(t) && |t| <= max
    ensures Measurable(s.cstr, max) && Copied(s.cstr, max) == t
  {
    if max > 0 {
      CLenOfHeld(t, max);
    }
  }

  /** NeStrSlice: an empty source, or ends that NeSmartMod(., length, 1)
      makes equal, leaves `out` as it was; otherwise `out` receives the
      bytes from start to end, backward when start is past end. */
  method StrSlice(out: Str?, str: StrVal, start: int, end: int)
    requires Readable(str) && str.length + 1 < SZ && IsOf(start) && IsOf(end)
    requires out != null && str.length > 0 && SliceIndex(start, str.length) != SliceIndex(end, str.length) ==>
      out.cstr != str.cstr
    modifies out
    ensures out != null && str.length > 0 && SliceIndex(start, str.length) != SliceIndex(end, str.length) ==>
      Holds(out, SliceBytes(Text(str), SliceIndex(start, str.length), SliceIndex(end, str.length)))
      && fresh(out.cstr)
    ensures out != null && (str.length == 0 || SliceIndex(start, str.length) == SliceIndex(end, str.length)) ==>
      out.cstr == old(out.cstr) && out.length == old(out.length)
  {
    if out == null || str.length == 0 {
      return;
    }
    ghost var t := Text(str);
    var s := SliceIndex(start, str.length);
    var e := SliceIndex(end, str.length);
    if s == e {
      return;
    }
    var rv := false;
    if s > e {
      s, e := e, s;
      rv := true;
    }
    out.length := e - s;
    var buf := AllocZeroed(out.length + 1);
    out.cstr := buf;
    if rv {
      SliceDown(buf, str.cstr, s, e);
      assert t[s..e] == str.cstr[s..e];
    } else {
      SliceUp(buf, str.cstr, s, e);
      assert t[s..e] == str.cstr[s..e];
    }
  }

  /** NeStrSlice's forward loop into a fresh zeroed buffer of e - s + 1 bytes. */
  method SliceUp(buf: array<byte>, src: array<byte>, s: nat, e: nat)
    requires s < e <= src.Length && buf.Length == e - s + 1 && buf != src
    requires buf[..] == Zeros(e - s + 1)
    modifies buf
    ensures buf[..] == src[s..e] + [NUL]
  {
    var k := s;
    var rv := 0;
    while k < e
      invariant s <= k <= e && rv == k - s
      invariant buf[..rv] == src[s..k]
      invariant forall j :: rv <= j < buf.Length ==> buf[j] == NUL
    {
      buf[rv] := src[k];
      assert buf[..rv + 1] == buf[..rv] + [src[k]];
      assert src[s..k + 1] == src[s..k] + [src[k]];
      k, rv := k + 1, rv + 1;
    }
    assert buf[..] == buf[..rv] + [buf[rv]];
  }

  /** NeStrSlice's backward loop: from e - 1 down to s. */
  method SliceDown(buf: array<byte>, src: array<byte>, s: nat, e: nat)
    requires s < e <= src.Length && buf.Length == e - s + 1 && buf != src
    requires buf[..] == Zeros(e - s + 1)
    modifies buf
    ensures buf[..] == Reversed(src[s..e]) + [NUL]
  {
    var k: int := e - 1;
    var rv := 0;
    ghost var r := Reversed(src[s..e]);
    while k >= s
      invariant k == e - 1 - rv && rv <= e - s
      invariant buf[..rv] == r[..rv]
      invariant forall j :: rv <= j < buf.Length ==> buf[j] == NUL
    {
      buf[rv] := src[k];
      assert r[rv] == src[s..e][e - s - 1 - rv] == src[k];
      assert buf[..rv + 1] == buf[..rv] + [src[k]];
      assert r[..rv + 1] == r[..rv] + [r[rv]];
      k, rv := k - 1, rv + 1;
    }
    assert buf[..] == buf[..rv] + [buf[rv]];
  }

  /** An index inside the text stands for itself. */
  lemma SliceIndexWithin(k: nat, len: nat)
    requires k < len < SZ
    ensures SliceIndex(k, len) == k
  {
    FloorModUnique(k, SZ, 0, k);
    FloorModUnique(k, len, 0, k);
  }

  /** Slicing from 0 to k and from k to -1 and joining the two gives the
      whole text back. */
  lemma SliceSplit(t: seq<byte>, k: nat)
    requires 0 < k < |t| < SZ
    ensures SliceBytes(t, SliceIndex(0, |t|), SliceIndex(k, |t|))
          + SliceBytes(t, SliceIndex(k, |t|), SliceIndex(-1, |t|)) == t
  {
    SmartModEnd(|t|);
    SliceIndexWithin(0, |t|);
    SliceIndexWithin(k, |t|);
    assert t[0..k] + t[k..|t|] == t;
  }

  /** Slicing from -1 to 0 gives the text backward. */
  lemma SliceBackward(t: seq<byte>)
    requires 0 < |t| < SZ
    ensures SliceBytes(t, SliceIndex(-1, |t|), SliceIndex(0, |t|)) == Reversed(t)
  {
    SmartModEnd(|t|);
    SliceIndexWithin(0, |t|);
    assert t[0..|t|] == t;
  }

  /** What NeStrJoin leaves in out: a copy of a when b is empty, a copy of b
      when only a is, otherwise the two texts back to back. The copies go
      through NeStrNew, so they stop at a NUL. */
  function JoinText(a: StrVal, b: StrVal): (t: seq<byte>)
    requires Readable(a) && Readable(b)
    requires b.length == 0 ==> Measurable(a.cstr, a.length)
    requires a.length == 0 && b.length > 0 ==> Measurable(b.cstr, b.length)
    reads a.cstr, b.cstr
  {
    if b.length == 0 then Copied(a.cstr, a.length)
    else if a.length == 0 then Copied(b.cstr, b.length)
    else Text(a) + Text(b)
  }

  /** NeStrJoin: out = a ++ b, of length a.length + b.length; when one side
      is empty, out is a copy of the other made by NeStrNew. */
  method StrJoin(out: Str?, a: StrVal, b: StrVal)
    requires Readable(a) && Readable(b) && a.length + b.length + 1 < SZ
    requires b.length == 0 ==> Measurable(a.cstr, a.length)
    requires a.length == 0 && b.length > 0 ==> Measurable(b.cstr, b.length)
    requires out != null && b.length == 0 ==> out.cstr != a.cstr
    requires out != null && b.length > 0 ==> out.cstr != b.cstr && (a.length > 0 ==> out.cstr != a.cstr)
    modifies out
    ensures out != null ==> Holds(out, JoinText(a, b)) && fresh(out.cstr)
  {
    if out == null {
      return;
    } else if b.length == 0 {
      StrNew(out, a.cstr, a.length);
      return;
    } else if a.length == 0 {
      StrNew(out, b.cstr, b.length);
      return;
    }
    ghost var t := Text(a) + Text(b);
    var len := a.length + b.length;
    out.length := len;
    var buf := AllocZeroed(len + 1);
    out.cstr := buf;
    var i := 0;
    while i < a.length
      invariant out.cstr == buf && out.length == len
      invariant i <= a.length && buf[..i] == t[..i]
      invariant forall j :: i <= j < buf.Length ==> buf[j] == NUL
    {
      buf[i] := a.cstr[i];
      assert buf[..i + 1] == buf[..i] + [t[i]];
      i := i + 1;
    }
    while i < len
      invariant out.cstr == buf && out.length == len
      invariant a.length <= i <= len && buf[..i] == t[..i]
      invariant forall j :: i <= j < buf.Length ==> buf[j] == NUL
    {
      buf[i] := b.cstr[i - a.length];
      assert t[i] == b.cstr[i - a.length];
      assert buf[..i + 1] == buf[..i] + [t[i]];
      i := i + 1;
    }
    assert buf[..] == buf[..i] + [buf[i]];
  }

  /** For NUL-free texts every branch of NeStrJoin gives the concatenation. */
  lemma JoinConcat(a: StrVal, b: StrVal)
    requires Readable(a) && Readable(b) && NulFree(Text(a)) && NulFree(Text(b))
    requires b.length == 0 ==> Measurable(a.cstr, a.length)
    requires a.length == 0 && b.length > 0 ==> Measurable(b.cstr, b.length)
    ensures JoinText(a, b) == Text(a) + Text(b)
    ensures |JoinText(a, b)| == a.length + b.length
  {
    if b.length == 0 {
      CopiedWhole(a);
    } else if a.length == 0 {
      CopiedWhole(b);
    }
  }

  /** Slicing a joined string at the first text's length gives each text back. */
  lemma JoinThenSlice(x: seq<byte>, y: seq<byte>)
    requires 0 < |x| && 0 < |y| && |x| + |y| < SZ
    ensures SliceBytes(x + y, SliceIndex(0, |x + y|), SliceIndex(|x|, |x + y|)) == x
    ensures SliceBytes(x + y, SliceIndex(|x|, |x + y|), SliceIndex(-1, |x + y|)) == y
  {
    var t := x + y;
    SmartModEnd(|t|);
    SliceIndexWithin(0, |t|);
    SliceIndexWithin(|x|, |t|);
    assert t[0..|x|] == x;
    assert t[|x|..|t|] == y;
  }

  /** The byte at `at` after NeSafeAlloc(cur, size, 0) with size > at: kept
      from cur when cur reached it, indeterminate (`junk`) otherwise. */
  function ReallocByte(cur: array?<byte>, at: nat, junk: byte): byte
    reads cur
  {
    if cur != null && at < cur.Length then cur[at] else junk
  }

  /** NeStrMerge as written: appends mg's text in place and keeps the earlier
      bytes; an empty mg or null str does nothing. The buffer is grown with
      NeSafeAlloc(., length + 1, 0), which does not clear, and the byte after
      the text is never written. */
  method StrMerge(str: Str?, mg: StrVal, junk: byte)
    requires Readable(mg)
    requires str != null ==> Readable(str.Val()) && str.length + mg.length + 1 < SZ
    requires str != null && mg.length > 0 ==> str.cstr != mg.cstr
    modifies str
    ensures str != null && mg.length > 0 ==>
      && str.length == old(str.length) + mg.length
      && str.cstr != null && fresh(str.cstr) && str.cstr.Length == str.length + 1
      && str.cstr[..str.length] == old(Text(str.Val())) + Text(mg)
      && str.cstr[str.length] == ReallocByte(old(str.cstr), str.length, junk)
    ensures str != null && mg.length == 0 ==> str.cstr == old(str.cstr) && str.length == old(str.length)
  {
    if str == null || mg.length == 0 {
      return;
    }
    ghost var before := Text(str.Val());
    ghost var t := before + Text(mg);
    ghost var cur := str.cstr;
    str.length := str.length + mg.length;
    var buf := Realloc(str.cstr, str.length + 1, junk);
    str.cstr := buf;
    MergeLoop(buf, str.length, mg, cur, before, junk);
  }

  /** NeStrMerge's copy loop over the positions length - mg.length up to length. */
  method MergeLoop(buf: array<byte>, length: nat, mg: StrVal, ghost cur: array?<byte>,
                   ghost before: seq<byte>, ghost junk: byte)
    requires Readable(mg) && mg.length <= length && buf.Length == length + 1 && buf != mg.cstr
    requires |before| == length - mg.length && buf[..length - mg.length] == before
    requires buf[length] == ReallocByte(cur, length, junk)
    modifies buf
    ensures buf[..length] == before + Text(mg) && buf[length] == ReallocByte(cur, length, junk)
  {
    ghost var t := before + Text(mg);
    var i := length - mg.length;
    while i < length
      invariant length - mg.length <= i <= length && buf[..i] == t[..i]
      invariant buf[length] == ReallocByte(cur, length, junk)
    {
      buf[i] := mg.cstr[i - length + mg.length];
      assert t[i] == mg.cstr[i - length + mg.length];
      assert buf[..i + 1] == buf[..i] + [t[i]];
      i := i + 1;
    }
  }

  /** Every buffer the other functions leave (text plus one NUL) is too
      short to reach the new end after a non-empty merge, so the byte after
      the merged text is whatever realloc left there. */
  lemma MergeEndIsJunk(s: Str, t: seq<byte>, mglen: nat, junk: byte)
    requires Holds(s, t) && mglen > 0
    ensures ReallocByte(s.cstr, |t| + mglen, junk) == junk
  {
  }

  /** NeStrMerge with the terminator written: the same append, then NUL
      after the text. */
  method StrMergeTerminated(str: Str?, mg: StrVal, junk: byte)
    requires Readable(mg)
    requires str != null ==> Readable(str.Val()) && str.length + mg.length + 1 < SZ
    requires str != null && mg.length > 0 ==> str.cstr != mg.cstr
    modifies str
    ensures str != null && mg.length > 0 ==> Holds(str, old(Text(str.Val())) + Text(mg)) && fresh(str.cstr)
    ensures str != null && mg.length == 0 ==> str.cstr == old(str.cstr) && str.length == old(str.length)
  {
    if str == null || mg.length == 0 {
      return;
    }
    ghost var before := Text(str.Val());
    ghost var cur := str.cstr;
    str.length := str.length + mg.length;
    var buf := Realloc(str.cstr, str.length + 1, junk);
    str.cstr := buf;
    MergeLoop(buf, str.length, mg, cur, before, junk);
    buf[str.length] := NUL;
    assert buf[..] == buf[..str.length] + [buf[str.length]];
  }

  /** NeStrDel: frees the buffer (NeSafeAlloc with size 0 answers NULL) and
      sets the length to 0. */
  method StrDel(str: Str?)
    modifies str
    ensures str != null ==> str.cstr == null && str.length == 0
  {
    if str == null {
      return;
    }
    str.cstr := null;
    str.length := 0;
  }

  /** A deleted string is a valid, empty one: a non-empty merge into it gives
      exactly the merged text. */
  lemma DeletedIsEmpty(s: Str)
    requires s.cstr == null && s.length == 0
    ensures Readable(s.Val()) && Text(s.Val()) == []
  {
  }

  /** A variadic argument of NeStrCmp: NULL, or the bytes before its NUL. */
  type Arg = Option<seq<byte>>

  /** An argument that ends the list: NULL or "". */
  predicate Stops(a: Arg) {
    a.None? || |a.value| == 0
  }

  /** The list holds a terminator, so the loop never reads past it. */
  predicate Terminated(args: seq<Arg>) {
    exists k :: 0 <= k < |args| && Stops(args[k])
  }

  /** The index of the first terminator. */
  function FirstStop(args: seq<Arg>): (k: nat)
    requires Terminated(args)
    ensures k < |args| && Stops(args[k])
    ensures forall j :: 0 <= j < k ==> !Stops(args[j])
  {
    if Stops(args[0]) then 0
    else
      assert Terminated(args[1..]) by {
        var k :| 0 <= k < |args| && Stops(args[k]);
        assert args[1..][k - 1] == args[k];
      }
      1 + FirstStop(args[1..])
  }

  /** strcasecmp's folding in the C locale: A-Z to a-z. */
  function Lower(c: byte): (l: byte)
    ensures 'A' as int <= c <= 'Z' as int ==> l == c + 32
    ensures !('A' as int <= c <= 'Z' as int) ==> l == c
  {
    if 65 <= c <= 90 then c + 32 else c
  }

  function Folded(s: seq<byte>): (r: seq<byte>)
    ensures |r| == |s| && forall i :: 0 <= i < |s| ==> r[i] == Lower(s[i])
  {
    if s == [] then [] else [Lower(s[0])] + Folded(s[1..])
  }

  /** strcmp(x, y) == 0, or strcasecmp(x, y) == 0 when `nocase`. */
  predicate Same(x: seq<byte>, y: seq<byte>, nocase: bool) {
    if nocase then Folded(x) == Folded(y) else x == y
  }

  /** No terminator comes at or before index k. */
  predicate Reached(args: seq<Arg>, k: nat) {
    k < |args| && forall j :: 0 <= j <= k ==> !Stops(args[j])
  }

  /** cmp equals some argument before the first terminator. */
  predicate Listed(cmp: seq<byte>, nocase: bool, args: seq<Arg>) {
    exists k :: 0 <= k < |args| && Reached(args, k) && Same(cmp, args[k].value, nocase)
  }

  /** NeStrCmp: 1 when cmp equals one of the arguments before the first NULL
      or "", compared case-insensitively when cse is non-zero; 0 otherwise. */
  method StrCmp(cmp: seq<byte>, cse: int, args: seq<Arg>) returns (i: int)
    requires Terminated(args)
    ensures i == 0 || i == 1
    ensures i == 1 <==> Listed(cmp, cse != 0, args)
  {
    var stop := FirstStop(args);
    var k := 0;
    while !Stops(args[k]) && !Same(cmp, args[k].value, cse != 0)
      invariant k <= stop
      invariant forall j :: 0 <= j < k ==> !Same(cmp, args[j].value, cse != 0)
      decreases stop - k
    {
      k := k + 1;
    }
    if Stops(args[k]) {
      i := 0;
      assert k == stop;
      forall j | 0 <= j < |args| && Reached(args, j)
        ensures !Same(cmp, args[j].value, cse != 0)
      {
        assert j < k;
      }
    } else {
      i := 1;
      assert Reached(args, k);
    }
  }

  /** A case-sensitive match is also a case-insensitive one. */
  lemma {:induction false} FoldedEqual(x: seq<byte>, y: seq<byte>)
    requires x == y
    ensures Folded(x) == Folded(y)
  {
  }

  /** Arguments after the first terminator are never consulted. */
  lemma ListedIgnoresTail(cmp: seq<byte>, nocase: bool, args: seq<Arg>, rest: seq<Arg>)
    requires Terminated(args)
    ensures Terminated(args + rest)
    ensures Listed(cmp, nocase, args + rest) == Listed(cmp, nocase, args)
  {
    var s := FirstStop(args);
    var all := args + rest;
    assert all[s] == args[s];
    if Listed(cmp, nocase, all) {
      var k :| 0 <= k < |all| && Reached(all, k) && Same(cmp, all[k].value, nocase);
      assert all[k] == args[k];
      assert Reached(args, k);
    }
    if Listed(cmp, nocase, args) {
      var k :| 0 <= k < |args| && Reached(args, k) && Same(cmp, args[k].value, nocase);
      assert Reached(all, k) by {
        forall j | 0 <= j <= k
          ensures !Stops(all[j])
        {
          assert all[j] == args[j];
        }
      }
    }
  }

  /** "WEM" against "wem": listed when case is ignored, not otherwise. */
  lemma CaseExample()
    ensures Listed([87, 69, 77], true, [Some([119, 101, 109]), None])
    ensures !Listed([87, 69, 77], false, [Some([119, 101, 109]), None])
  {
    var args: seq<Arg> := [Some([119, 101, 109]), None];
    assert Folded([87, 69, 77]) == [119, 101, 109] == Folded([119, 101, 109]);
    assert Reached(args, 0);
  }
}
