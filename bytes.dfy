/** Byte-level helpers shared by the binary-format modules: bytes, unsigned
    32-bit words stored little-endian (the layout every reader here assumes,
    since the program reads them with native loads on little-endian hosts),
    the 32-bit byte swap, and concatenation of byte strings. */
module Bytes {

  type byte = x: int | 0 <= x < 256

  /** 2^32: the modulus of the C `uint32_t` arithmetic. */
  const U32: nat := 0x1_0000_0000

  /** 2^64: the modulus of the C `uint64_t` arithmetic. */
  const U64: nat := 0x1_0000_0000_0000_0000

  /** 256^n. */
  function Pow256(n: nat): (p: nat)
    ensures p >= 1
  {
    if n == 0 then 1 else 0x100 * Pow256(n - 1)
  }

  /** The unsigned little-endian number spelled by `s`. */
  function LittleEndian(s: seq<byte>): (v: nat)
    ensures v < Pow256(|s|)
  {
    if s == [] then 0 else s[0] + 0x100 * LittleEndian(s[1..])
  }

  /** The n little-endian bytes of v, dropping what does not fit. */
  function LittleEndianBytes(v: nat, n: nat): (s: seq<byte>)
    ensures |s| == n
  {
    if n == 0 then [] else [v % 0x100] + LittleEndianBytes(v / 0x100, n - 1)
  }

  lemma {:induction false} LittleEndianRoundTrip(v: nat, n: nat)
    requires v < Pow256(n)
    ensures LittleEndian(LittleEndianBytes(v, n)) == v
  {
    if n > 0 {
      var s := LittleEndianBytes(v, n);
      assert s[1..] == LittleEndianBytes(v / 0x100, n - 1);
      LittleEndianRoundTrip(v / 0x100, n - 1);
    }
  }

  /** The unsigned 32-bit little-endian word stored at s[i..i+4]. */
  function U32At(s: seq<byte>, i: nat): (v: nat)
    requires i + 4 <= |s|
    ensures v < U32
  {
    assert Pow256(4) == U32;
    LittleEndian(s[i..i + 4])
  }

  /** The four little-endian bytes of a 32-bit word. */
  function U32Bytes(v: nat): (s: seq<byte>)
    requires v < U32
    ensures |s| == 4
  {
    LittleEndianBytes(v, 4)
  }

  lemma U32RoundTrip(v: nat)
    requires v < U32
    ensures U32At(U32Bytes(v), 0) == v
  {
    assert Pow256(4) == U32;
    assert U32Bytes(v)[0..4] == U32Bytes(v);
    LittleEndianRoundTrip(v, 4);
  }

  /** A value below 2^32 survives truncation to 32 bits. */
  lemma Fits32(x: nat)
    requires x < U32
    ensures x % U32 == x
  {
  }

  /** Incrementing a truncated counter is truncating the incremented one. */
  lemma Wrap32Succ(x: nat)
    ensures (x % U32 + 1) % U32 == (x + 1) % U32
  {
  }

  /** A word read inside a larger buffer. */
  lemma U32AtConcat(a: seq<byte>, v: nat, b: seq<byte>)
    requires v < U32
    ensures U32At(a + U32Bytes(v) + b, |a|) == v
  {
    var s := a + U32Bytes(v) + b;
    assert s[|a|..|a| + 4] == U32Bytes(v) == U32Bytes(v)[0..4];
    U32RoundTrip(v);
  }

  /** The 32-bit word of s[i..i+4] read little-endian, or big-endian (the
      byte-swapped word) when `swap`. */
  function U32Order(s: seq<byte>, i: nat, swap: bool): (v: nat)
    requires i + 4 <= |s|
    ensures v < U32
  {
    if swap then U32At([s[i + 3], s[i + 2], s[i + 1], s[i]], 0) else U32At(s, i)
  }

  /** The elements of `s` in the opposite order. */
  function Reversed<T>(s: seq<T>): (r: seq<T>)
    ensures |r| == |s|
    ensures forall i :: 0 <= i < |s| ==> r[i] == s[|s| - 1 - i]
  {
    if s == [] then [] else Reversed(s[1..]) + [s[0]]
  }

  /** Reversing twice gives the original back. */
  lemma ReversedTwice<T>(s: seq<T>)
    ensures Reversed(Reversed(s)) == s
  {
    var r := Reversed(Reversed(s));
    assert forall i :: 0 <= i < |s| ==> r[i] == s[i];
  }

  function Zeros(n: nat): (s: seq<byte>)
    ensures |s| == n && forall i :: 0 <= i < n ==> s[i] == 0
  {
    seq(n, _ => 0)
  }

  /** All byte strings of `ss`, back to back. */
  function Concat(ss: seq<seq<byte>>): (r: seq<byte>)
    ensures |r| == TotalSize(ss)
  {
    if ss == [] then [] else Concat(ss[..|ss| - 1]) + ss[|ss| - 1]
  }

  /** The sum of the lengths of `ss`. */
  function TotalSize(ss: seq<seq<byte>>): nat {
    if ss == [] then 0 else TotalSize(ss[..|ss| - 1]) + |ss[|ss| - 1]|
  }

  lemma {:induction false} TotalSizePrefix(ss: seq<seq<byte>>, i: nat)
    requires i < |ss|
    ensures TotalSize(ss[..i + 1]) == TotalSize(ss[..i]) + |ss[i]|
    ensures TotalSize(ss[..i + 1]) <= TotalSize(ss)
    decreases |ss| - i
  {
    assert ss[..i + 1][..i] == ss[..i];
    if i + 1 < |ss| {
      TotalSizePrefix(ss, i + 1);
    } else {
      assert ss[..i + 1] == ss;
    }
  }

  /** A slice inside the left operand of a concatenation. */
  lemma SliceLeft(x: seq<byte>, y: seq<byte>, lo: nat, hi: nat)
    requires lo <= hi <= |x|
    ensures (x + y)[lo..hi] == x[lo..hi]
  {
  }

  lemma TotalSizeWhole(ss: seq<seq<byte>>)
    ensures TotalSize(ss[..|ss|]) == TotalSize(ss) && TotalSize(ss[..0]) == 0
  {
    assert ss[..|ss|] == ss;
    assert ss[..0] == [];
  }

  /** Element i of `ss` sits in Concat(ss) right after the earlier elements. */
  lemma {:induction false} ConcatAt(ss: seq<seq<byte>>, i: nat)
    requires i < |ss|
    ensures TotalSize(ss[..i]) + |ss[i]| <= |Concat(ss)|
    ensures Concat(ss)[TotalSize(ss[..i])..TotalSize(ss[..i]) + |ss[i]|] == ss[i]
  {
    var last := |ss| - 1;
    var front := ss[..last];
    var c := Concat(front);
    assert Concat(ss) == c + ss[last];
    if i == last {
      assert ss[..i] == front;
      assert (c + ss[last])[|c|..|c| + |ss[last]|] == ss[last];
    } else {
      assert front[..i] == ss[..i] && front[i] == ss[i];
      ConcatAt(front, i);
      var lo := TotalSize(ss[..i]);
      SliceLeft(c, ss[last], lo, lo + |ss[i]|);
    }
  }
}

/** The failure-compatible wrapper used where the source passes or returns a
    pointer that may be NULL. */
module Wrappers {
  datatype Option<+T> = None | Some(value: T)
}
