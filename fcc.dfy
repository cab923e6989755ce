/** Four-character codes as nefcc.h lays them out: a reversal flag `r`, a
    length `n` of at most four, and four bytes. A code built from a string
    stores its characters forward from byte 0; one built in reverse stores
    them backward from byte 3. fcccmp (in nefcc.c and again in neutil.c)
    compares two codes. */
module Fcc {
  import opened Bytes

  datatype Fcc = Fcc(r: bool, n: nat, b: seq<byte>)
  {
    /** The C bit-field `n` holds 0..7, but only lengths up to four keep
        fcccmp's byte offsets inside the four bytes. */
    predicate Valid() {
      n <= 4 && |b| == 4
    }
  }

  /** fcc_chr: the characters forward from byte 0, zero bytes after. */
  function Chr(s: seq<byte>): (f: Fcc)
    requires |s| <= 4
    ensures f.Valid() && !f.r && f.n == |s|
  {
    Fcc(false, |s|, s + Zeros(4 - |s|))
  }

  /** fcc_chrB: the first character in byte 3, the next in byte 2, and so
      on, zero bytes before. */
  function ChrB(s: seq<byte>): (f: Fcc)
    requires |s| <= 4
    ensures f.Valid() && f.r && f.n == |s|
  {
    Fcc(true, |s|, Zeros(4 - |s|) + Reversed(s))
  }

  /** The characters a code stands for, read in the order it was built. */
  function Chars(f: Fcc): (s: seq<byte>)
    requires f.Valid()
    ensures |s| == f.n
  {
    if !f.r then f.b[..f.n] else Reversed(f.b[4 - f.n..])
  }

  /** The sign of memcmp over two runs of equal length: the first differing
      byte decides, compared as unsigned. */
  function MemCmp(x: seq<byte>, y: seq<byte>): (c: int)
    requires |x| == |y|
    ensures -1 <= c <= 1
    ensures c == 0 <==> x == y
    ensures c != 0 ==> exists i :: 0 <= i < |x| && x[..i] == y[..i] && x[i] != y[i] && (c < 0 <==> x[i] < y[i])
  {
    if |x| == 0 then 0
    else if x[0] < y[0] then (assert x[..0] == y[..0]; -1)
    else if x[0] > y[0] then (assert x[..0] == y[..0]; 1)
    else
      var c := MemCmp(x[1..], y[1..]);
      assert x == [x[0]] + x[1..] && y == [y[0]] + y[1..];
      if c != 0 then
        var i :| 0 <= i < |x[1..]| && x[1..][..i] == y[1..][..i] && x[1..][i] != y[1..][i] && (c < 0 <==> x[1..][i] < y[1..][i]);
        assert x[..i + 1] == [x[0]] + x[1..][..i] && y[..i + 1] == [y[0]] + y[1..][..i];
        c
      else c
  }

  /** The four bytes with bytes 0/3 and 1/2 swapped. */
  function Swapped(f: Fcc): (g: Fcc)
    requires f.Valid()
    ensures g.Valid() && g.r == f.r && g.n == f.n && g.b == Reversed(f.b)
  {
    f.(b := [f.b[3], f.b[2], f.b[1], f.b[0]])
  }

  /** fcccmp: different lengths answer a.n - b.n; when the reversal flags
      differ b's bytes are swapped first; then a forward `a` compares the
      first n bytes and a reversed `a` the last n. */
  function Compare(a: Fcc, b: Fcc): (c: int)
    requires a.Valid() && b.Valid()
    ensures a.n != b.n ==> c == a.n - b.n
  {
    if a.n != b.n then a.n - b.n
    else
      var b' := if a.r != b.r then Swapped(b) else b;
      if !a.r then MemCmp(a.b[..a.n], b'.b[..a.n])
      else MemCmp(a.b[4 - a.n..], b'.b[4 - b.n..])
  }

  lemma ReversedSlice(s: seq<byte>, k: nat)
    requires |s| == 4 && k <= 4
    ensures Reversed(s)[..k] == Reversed(s[4 - k..])
    ensures Reversed(s)[4 - k..] == Reversed(s[..k])
  {
  }

  lemma ReversedInjective(x: seq<byte>, y: seq<byte>)
    ensures Reversed(x) == Reversed(y) <==> x == y
  {
    if Reversed(x) == Reversed(y) {
      ReversedTwice(x);
      ReversedTwice(y);
    }
  }

  /** Two codes compare equal exactly when they have the same length and
      stand for the same characters, whichever way each was built. */
  lemma CompareZero(a: Fcc, b: Fcc)
    requires a.Valid() && b.Valid()
    ensures Compare(a, b) == 0 <==> a.n == b.n && Chars(a) == Chars(b)
  {
    if a.n == b.n {
      var n := a.n;
      if a.r && b.r {
        ReversedInjective(a.b[4 - n..], b.b[4 - n..]);
      } else if !a.r && b.r {
        ReversedSlice(b.b, n);
      } else if a.r && !b.r {
        ReversedSlice(b.b, n);
        ReversedInjective(a.b[4 - n..], Reversed(b.b[..n]));
        ReversedTwice(b.b[..n]);
      }
    }
  }

  /** fcccmp(x, x) == 0. */
  lemma CompareReflexive(a: Fcc)
    requires a.Valid()
    ensures Compare(a, a) == 0
  {
    CompareZero(a, a);
  }

  /** Equality under fcccmp does not depend on the order of the arguments. */
  lemma CompareZeroSymmetric(a: Fcc, b: Fcc)
    requires a.Valid() && b.Valid()
    ensures Compare(a, b) == 0 <==> Compare(b, a) == 0
  {
    CompareZero(a, b);
    CompareZero(b, a);
  }

  /** A code stands for the characters it was built from, forward or in
      reverse. */
  lemma CharsOfBuilt(s: seq<byte>)
    requires |s| <= 4
    ensures Chars(Chr(s)) == s && Chars(ChrB(s)) == s
  {
    var f := ChrB(s);
    assert f.b[4 - |s|..] == Reversed(s);
    ReversedTwice(s);
  }

  /** A forward "RIFF" and a reverse-built "RIFF" compare equal, in either
      order, and so do any two codes built from the same characters. */
  lemma ForwardMatchesReverse(s: seq<byte>)
    requires |s| <= 4
    ensures Compare(Chr(s), ChrB(s)) == 0 && Compare(ChrB(s), Chr(s)) == 0
  {
    CharsOfBuilt(s);
    CompareZero(Chr(s), ChrB(s));
    CompareZero(ChrB(s), Chr(s));
  }
}
