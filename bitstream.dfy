/** bitstream.c and bitstream.h: a bit cursor over a caller's byte stream.
    A position is a bitplot, a 61-bit byte index and a 3-bit bit index; bits
    are numbered least significant first within a byte, so stream bit j is
    bit j % 8 of byte j / 8. */
module BitStream {
  import opened Bytes
  import opened Wrappers

  /* Answers of the copy functions. */
  const TRUNCATED: int := -2
  const ERROR: int := -1
  const INCOMPLETE: int := 0
  const SUCCESS: int := 1

  /** 2^61, the range of the byte field. */
  const BYTES_MAX: nat := 0x2000_0000_0000_0000

  /** bitplotT. */
  datatype Bitplot = Bitplot(bit: nat, byte: nat) {
    ghost predicate Valid() {
      bit < 8 && byte < BYTES_MAX
    }
  }

  /** bitplot_new. */
  function New(b: nat): (p: Bitplot)
    requires b < U64
    ensures p.Valid() && Bits(p) == b
  {
    Bitplot(b % 8, b / 8)
  }

  /** bitplot_bits: the number of bits a position stands for. */
  function Bits(p: Bitplot): (n: nat)
    requires p.Valid()
    ensures n < U64
  {
    8 * p.byte + p.bit
  }

  /** A bit count survives the trip through a bitplot, and so does a
      bitplot through its bit count. */
  lemma BitplotRoundTrip(b: nat, p: Bitplot)
    requires b < U64 && p.Valid()
    ensures Bits(New(b)) == b
    ensures New(Bits(p)) == p
  {
    assert Bits(p) / 8 == p.byte && Bits(p) % 8 == p.bit;
  }

  /** x in unsigned 64-bit arithmetic. */
  function Wrap64(x: int): (r: nat)
    ensures r < U64 && (0 <= x < U64 ==> r == x)
  {
    x % U64
  }

  /** bitplot_add: the sum of two positions, in unsigned 64-bit arithmetic. */
  function Add(l: Bitplot, r: Bitplot): (p: Bitplot)
    requires l.Valid() && r.Valid()
    ensures p.Valid() && Bits(p) == Wrap64(Bits(l) + Bits(r))
  {
    New(Wrap64(Bits(l) + Bits(r)))
  }

  /** bitplot_sub: the difference of two positions, in unsigned 64-bit
      arithmetic. */
  function Sub(l: Bitplot, r: Bitplot): (p: Bitplot)
    requires l.Valid() && r.Valid()
    ensures p.Valid() && Bits(p) == Wrap64(Bits(l) - Bits(r))
  {
    New(Wrap64(Bits(l) - Bits(r)))
  }

  /** Subtracting a smaller position and adding it back is the identity. */
  lemma SubAdd(l: Bitplot, r: Bitplot)
    requires l.Valid() && r.Valid() && Bits(r) <= Bits(l)
    ensures Add(Sub(l, r), r) == l
  {
    var d := Bits(l) - Bits(r);
    var s := Sub(l, r);
    assert Bits(s) == d;
    assert Wrap64(Bits(s) + Bits(r)) == Bits(l);
    BitplotRoundTrip(Bits(l), l);
  }

  /** 1 << n for a bit index n. */
  function Mask(n: nat): (m: bv8)
    requires n < 8
  {
    if n == 0 then 1 else if n == 1 then 2 else if n == 2 then 4 else if n == 3 then 8
    else if n == 4 then 16 else if n == 5 then 32 else if n == 6 then 64 else 128
  }

  /** _bitval: bit n (0 is the least significant) of x. */
  function BitOf(x: bv8, n: nat): (v: nat)
    requires n < 8
    ensures v < 2
  {
    if x & Mask(n) == 0 then 0 else 1
  }

  /** _bitset: x with bit n replaced by v. */
  function SetBit(x: bv8, n: nat, v: nat): (y: bv8)
    requires n < 8 && v < 2
  {
    (x & !Mask(n)) | (if v == 1 then Mask(n) else 0)
  }

  /** Setting bit n gives it the new value and keeps the others. */
  lemma SetBitBits(x: bv8, n: nat, v: nat, m: nat)
    requires n < 8 && v < 2 && m < 8
    ensures BitOf(SetBit(x, n, v), m) == if m == n then v else BitOf(x, m)
  {
    if m == n {
      assert BitOf(SetBit(x, n, v), n) == v;
    } else {
      assert Mask(n) & Mask(m) == 0;
    }
  }

  /** Bit j of a byte stream. */
  function BitAt(s: seq<bv8>, j: nat): (v: nat)
    requires j < 8 * |s|
    ensures v < 2
  {
    BitOf(s[j / 8], j % 8)
  }

  /** Bit p of byte b is stream bit 8b + p. */
  lemma BitAtByte(s: seq<bv8>, b: nat, p: nat)
    requires b < |s| && p < 8
    ensures BitAt(s, 8 * b + p) == BitOf(s[b], p)
  {
    assert (8 * b + p) / 8 == b && (8 * b + p) % 8 == p;
  }

  /** Setting one bit of one byte changes that bit of the stream only. */
  lemma BitAtSet(s: seq<bv8>, i: nat, t: nat, v: nat, j: nat)
    requires i < |s| && t < 8 && v < 2 && j < 8 * |s|
    ensures BitAt(s[i := SetBit(s[i], t, v)], j) == if j == 8 * i + t then v else BitAt(s, j)
  {
    SetBitBits(s[i], t, v, j % 8);
  }

  /** The first `k` bits of `buf` are the stream bits from `from` on, the
      others are those of `buf0`. */
  ghost predicate CopiedOut(buf: seq<bv8>, buf0: seq<bv8>, src: seq<bv8>, from: nat, k: nat) {
    |buf| == |buf0| && k <= 8 * |buf| && from + k <= 8 * |src|
    && forall j :: 0 <= j < 8 * |buf| ==>
         BitAt(buf, j) == if j < k then BitAt(src, from + j) else BitAt(buf0, j)
  }

  /** Bits from..from+k of `st` are the first k bits of `buf`, the others
      are those of `st0`. */
  ghost predicate CopiedIn(st: seq<bv8>, st0: seq<bv8>, buf: seq<bv8>, from: nat, k: nat) {
    |st| == |st0| && from + k <= 8 * |st| && k <= 8 * |buf|
    && forall j :: 0 <= j < 8 * |st| ==>
         BitAt(st, j) == if from <= j < from + k then BitAt(buf, j - from) else BitAt(st0, j)
  }

  /** Copying one more bit out. */
  lemma CopyOneOut(buf: seq<bv8>, buf0: seq<bv8>, src: seq<bv8>, from: nat, k: nat, i: nat, t: nat)
    requires CopiedOut(buf, buf0, src, from, k) && k == 8 * i + t && t < 8 && i < |buf| && from + k < 8 * |src|
    ensures CopiedOut(buf[i := SetBit(buf[i], t, BitAt(src, from + k))], buf0, src, from, k + 1)
  {
    var v := BitAt(src, from + k);
    var buf' := buf[i := SetBit(buf[i], t, v)];
    forall j | 0 <= j < 8 * |buf|
      ensures BitAt(buf', j) == if j < k + 1 then BitAt(src, from + j) else BitAt(buf0, j)
    {
      BitAtSet(buf, i, t, v, j);
    }
  }

  /** Copying one more bit in. */
  lemma CopyOneIn(st: seq<bv8>, st0: seq<bv8>, buf: seq<bv8>, from: nat, k: nat, i: nat, t: nat)
    requires CopiedIn(st, st0, buf, from, k) && from + k == 8 * i + t && t < 8 && i < |st| && k < 8 * |buf|
    ensures CopiedIn(st[i := SetBit(st[i], t, BitAt(buf, k))], st0, buf, from, k + 1)
  {
    var v := BitAt(buf, k);
    var st' := st[i := SetBit(st[i], t, v)];
    forall j | 0 <= j < 8 * |st|
      ensures BitAt(st', j) == if from <= j < from + k + 1 then BitAt(buf, j - from) else BitAt(st0, j)
    {
      BitAtSet(st, i, t, v, j);
    }
  }

  /** bitstream_stateT. */
  class State {
    var length: Bitplot
    var position: Bitplot

    ghost predicate Valid()
      reads this
    {
      length.Valid() && position.Valid()
    }

    /** i_eos: the position is at or past the end. */
    predicate AtEnd()
      reads this
      requires Valid()
    {
      Bits(position) >= Bits(length)
    }

    constructor ()
      ensures Valid() && Bits(length) == 0 && Bits(position) == 0
    {
      length, position := Bitplot(0, 0), Bitplot(0, 0);
    }
  }

  /** bitstream_check: -1 for a missing state or stream or a stream at its
      end, 0 otherwise. */
  function Check(bs: State?, hasStream: bool): (r: int)
    reads bs
    requires bs != null ==> bs.Valid()
    ensures r == -1 <==> bs == null || !hasStream || bs.AtEnd()
    ensures r == 0 || r == -1
  {
    if bs == null || !hasStream || bs.AtEnd() then -1 else 0
  }

  /** bitstream_init: the length becomes `bits`, the position is left. */
  method Init(bs: State?, bits: nat) returns (r: int)
    requires bits < U64
    modifies bs
    ensures bs == null ==> r == -1
    ensures bs != null ==> r == 0 && bs.length == New(bits) && bs.position == old(bs.position)
  {
    if bs == null {
      return -1;
    }
    bs.length := New(bits);
    return 0;
  }

  /** bitstream_clear. */
  method Clear(bs: State?)
    modifies bs
    ensures bs != null ==> bs.Valid() && Bits(bs.length) == 0 && Bits(bs.position) == 0
  {
    if bs != null {
      bs.length, bs.position := Bitplot(0, 0), Bitplot(0, 0);
    }
  }

  /** bitstream_resize: as bitstream_init. */
  method Resize(bs: State?, bits: nat) returns (r: int)
    requires bits < U64
    modifies bs
    ensures bs == null ==> r == -1
    ensures bs != null ==> r == 0 && bs.length == New(bits) && bs.position == old(bs.position)
  {
    if bs == null {
      return -1;
    }
    bs.length := New(bits);
    return 0;
  }

  /** bitstream_grow: -1 and no change when the length would pass 2^64 - 1;
      otherwise the length grows by `bits`. The position is left. */
  method Grow(bs: State?, bits: nat) returns (r: int)
    requires bits < U64 && (bs != null ==> bs.Valid())
    modifies bs
    ensures bs == null ==> r == -1
    ensures bs != null ==> bs.Valid() && bs.position == old(bs.position)
    ensures bs != null ==> (r == -1 <==> Bits(old(bs.length)) + bits >= U64)
    ensures bs != null && r == -1 ==> bs.length == old(bs.length)
    ensures bs != null && r == 0 ==> Bits(bs.length) == Bits(old(bs.length)) + bits
  {
    if bs == null {
      return -1;
    }
    var n := Bits(bs.length);
    if U64 - 1 - n < bits {
      return -1;
    }
    r := Resize(bs, n + bits);
  }

  /** bitstream_shrink: -1 and no change when `bits` exceeds the length;
      otherwise the length shrinks by `bits`. The position is left. */
  method Shrink(bs: State?, bits: nat) returns (r: int)
    requires bits < U64 && (bs != null ==> bs.Valid())
    modifies bs
    ensures bs == null ==> r == -1
    ensures bs != null ==> bs.Valid() && bs.position == old(bs.position)
    ensures bs != null ==> (r == -1 <==> bits > Bits(old(bs.length)))
    ensures bs != null && r == -1 ==> bs.length == old(bs.length)
    ensures bs != null && r == 0 ==> Bits(bs.length) + bits == Bits(old(bs.length))
  {
    if bs == null {
      return -1;
    }
    var n := Bits(bs.length);
    if n < bits {
      return -1;
    }
    r := Resize(bs, n - bits);
  }

  /** bitstream_seek: past the end clamps to the end and answers 1;
      otherwise the position becomes `bits` and the answer is 0. */
  method Seek(bs: State?, bits: nat) returns (r: int)
    requires bits < U64 && (bs != null ==> bs.Valid())
    modifies bs
    ensures bs == null ==> r == -1
    ensures bs != null ==> bs.Valid() && bs.length == old(bs.length)
    ensures bs != null ==> (r == 1 <==> bits > Bits(bs.length)) && (r == 0 <==> bits <= Bits(bs.length))
    ensures bs != null ==> Bits(bs.position) == if bits > Bits(bs.length) then Bits(bs.length) else bits
  {
    if bs == null {
      return -1;
    }
    if bits > Bits(bs.length) {
      bs.position := bs.length;
      return 1;
    }
    bs.position := New(bits);
    return 0;
  }

  /** bitstream_seek_up: moves forward by `bits`, clamped to the end with
      answer 1. The room left is computed in unsigned 64-bit arithmetic, so
      a position already past the end is not clamped. */
  method SeekUp(bs: State?, bits: nat) returns (r: int)
    requires bits < U64 && (bs != null ==> bs.Valid())
    modifies bs
    ensures bs == null ==> r == -1
    ensures bs != null ==> bs.Valid() && bs.length == old(bs.length)
    ensures bs != null ==> var n := Bits(old(bs.position));
      && (r == 1 <==> bits > Wrap64(Bits(bs.length) - n))
      && (r == 1 ==> bs.position == bs.length)
      && (r == 0 ==> Bits(bs.position) == Wrap64(n + bits))
    ensures bs != null && Bits(old(bs.position)) <= Bits(bs.length) ==>
      Bits(bs.position) == if Bits(old(bs.position)) + bits > Bits(bs.length) then Bits(bs.length) else Bits(old(bs.position)) + bits
    ensures bs != null ==> r == 0 || r == 1
  {
    if bs == null {
      return -1;
    }
    var n := Bits(bs.position);
    if bits > Wrap64(Bits(bs.length) - n) {
      bs.position := bs.length;
      return 1;
    }
    bs.position := New(Wrap64(n + bits));
    return 0;
  }

  /** bitstream_seek_down: moves back by `bits`, clamped to the start with
      answer 1. */
  method SeekDown(bs: State?, bits: nat) returns (r: int)
    requires bits < U64 && (bs != null ==> bs.Valid())
    modifies bs
    ensures bs == null ==> r == -1
    ensures bs != null ==> bs.Valid() && bs.length == old(bs.length)
    ensures bs != null ==> (r == 1 <==> bits > Bits(old(bs.position))) && (r == 0 <==> bits <= Bits(old(bs.position)))
    ensures bs != null ==> Bits(bs.position) == if bits > Bits(old(bs.position)) then 0 else Bits(old(bs.position)) - bits
  {
    if bs == null {
      return -1;
    }
    var n := Bits(bs.position);
    if bits > n {
      bs.position := Bitplot(0, 0);
      return 1;
    }
    bs.position := New(n - bits);
    return 0;
  }

  /** The number of whole bytes `bits` bits need. */
  function WholeBytes(bits: nat): nat {
    (bits + 7) / 8
  }

  /** The stream bytes hold every bit up to the length. */
  ghost predicate Covers(bs: State, stream: array<bv8>)
    reads bs
  {
    bs.Valid() && Bits(bs.length) <= 8 * stream.Length
  }

  /** bitstream_copy_out: ERROR for a missing argument or a stream at its
      end; 0 bits succeed at once; fewer bits left than asked answers
      INCOMPLETE with the shortfall and changes nothing; otherwise the first
      `bits` bits of the buffer become the stream's bits from the position
      on, the buffer's other bits stay, and the position moves by `bits`.
      `copied` is None where the C leaves *copied alone. */
  method CopyOut(bs: State?, stream: array?<bv8>, buffer: array?<bv8>, bits: nat)
    returns (code: int, copied: Option<nat>)
    requires bits < U64
    requires bs != null && stream != null ==> Covers(bs, stream)
    requires bs != null ==> bs.Valid()
    requires buffer != null ==> WholeBytes(bits) <= buffer.Length
    requires stream != buffer
    modifies bs, buffer
    ensures bs != null ==> bs.Valid() && bs.length == old(bs.length)
    ensures bs == null || stream == null || buffer == null || old(bs.AtEnd()) ==>
      code == ERROR && copied == None
    ensures code != SUCCESS ==> (bs != null ==> bs.position == old(bs.position)) && (buffer != null ==> buffer[..] == old(buffer[..]))
    ensures bs != null && stream != null && buffer != null && !old(bs.AtEnd()) ==>
      var left := Bits(bs.length) - Bits(old(bs.position));
      && (code == INCOMPLETE <==> left < bits) && (code == INCOMPLETE ==> copied == Some(bits - left))
      && (code == SUCCESS <==> bits <= left)
      && (code == SUCCESS ==>
            copied == Some(bits) && Bits(bs.position) == Bits(old(bs.position)) + bits
            && CopiedOut(buffer[..], old(buffer[..]), stream[..], Bits(old(bs.position)), bits))
  {
    if bs == null || stream == null || bs.AtEnd() || buffer == null {
      return ERROR, None;
    }
    if bits == 0 {
      return SUCCESS, Some(0);
    }
    var left := Bits(bs.length) - Bits(bs.position);
    if left < bits {
      return INCOMPLETE, Some(bits - left);
    }
    var didCopy := ShiftOut(bs, stream, buffer, bits);
    return SUCCESS, Some(didCopy);
  }

  /** The loop of bitstream_copy_out: buffer byte by buffer byte, the bits
      from the position to the end of its stream byte, then the rest of the
      buffer byte from the next stream byte. */
  method ShiftOut(bs: State, stream: array<bv8>, buffer: array<bv8>, bits: nat) returns (didCopy: nat)
    requires bs.Valid() && stream != buffer && Bits(bs.position) + bits <= Bits(bs.length) <= 8 * stream.Length
    requires WholeBytes(bits) <= buffer.Length
    modifies bs, buffer
    ensures bs.Valid() && bs.length == old(bs.length) && didCopy == bits
    ensures Bits(bs.position) == Bits(old(bs.position)) + bits
    ensures CopiedOut(buffer[..], old(buffer[..]), stream[..], Bits(old(bs.position)), bits)
  {
    ghost var from := Bits(bs.position);
    ghost var buf0 := buffer[..];
    didCopy := 0;
    var bydx := 0;
    while didCopy < bits
      invariant didCopy <= bits && (didCopy < bits ==> didCopy == 8 * bydx)
      invariant bs.Valid() && bs.length == old(bs.length) && Bits(bs.position) == from + didCopy
      invariant CopiedOut(buffer[..], buf0, stream[..], from, didCopy)
      decreases bits - didCopy
    {
      var tb, pb := 0, bs.position.bit;
      tb, pb, didCopy := RunOut(bs, stream, buffer, bits, bydx, tb, pb, didCopy, buf0, from);
      if pb == 8 {
        pb := 0;
        bs.position := bs.position.(byte := bs.position.byte + 1);
      }
      if didCopy < bits {
        tb, pb, didCopy := RunOut(bs, stream, buffer, bits, bydx, tb, pb, didCopy, buf0, from);
      }
      bs.position := bs.position.(bit := pb);
      bydx := bydx + 1;
    }
  }

  /** One inner loop of bitstream_copy_out: stream bits into buffer byte
      `bydx` until the stream byte, the buffer byte or the request ends. */
  method RunOut(bs: State, stream: array<bv8>, buffer: array<bv8>, bits: nat, bydx: nat, tb: nat, pb: nat,
                didCopy: nat, ghost buf0: seq<bv8>, ghost from: nat)
    returns (tb': nat, pb': nat, didCopy': nat)
    requires stream != buffer && bs.Valid()
    requires WholeBytes(bits) <= buffer.Length && from + bits <= 8 * stream.Length
    requires tb <= 8 && pb <= 8 && didCopy == 8 * bydx + tb && didCopy <= bits
    requires 8 * bs.position.byte + pb == from + didCopy
    requires CopiedOut(buffer[..], buf0, stream[..], from, didCopy)
    modifies buffer
    ensures didCopy <= didCopy' <= bits && tb' == tb + (didCopy' - didCopy) && pb' == pb + (didCopy' - didCopy)
    ensures tb' <= 8 && pb' <= 8 && (pb' == 8 || tb' == 8 || didCopy' == bits)
    ensures CopiedOut(buffer[..], buf0, stream[..], from, didCopy')
  {
    tb', pb', didCopy' := tb, pb, didCopy;
    while pb' < 8 && tb' < 8 && didCopy' < bits
      invariant didCopy <= didCopy' <= bits && tb' == tb + (didCopy' - didCopy) && pb' == pb + (didCopy' - didCopy)
      invariant tb' <= 8 && pb' <= 8
      invariant CopiedOut(buffer[..], buf0, stream[..], from, didCopy')
    {
      ghost var before := buffer[..];
      CopyOneOut(before, buf0, stream[..], from, didCopy', bydx, tb');
      BitAtByte(stream[..], bs.position.byte, pb');
      buffer[bydx] := SetBit(buffer[bydx], tb', BitOf(stream[bs.position.byte], pb'));
      assert buffer[..] == before[bydx := SetBit(before[bydx], tb', BitAt(stream[..], from + didCopy'))];
      pb', tb', didCopy' := pb' + 1, tb' + 1, didCopy' + 1;
    }
  }

  /** bitstream_copy_in: as bitstream_copy_out with the stream written:
      fewer bits left than asked answers TRUNCATED with the shortfall and
      changes nothing; otherwise the stream's `bits` bits from the position
      on become the buffer's first bits, its other bits stay, and the
      position moves by `bits`. */
  method CopyIn(bs: State?, stream: array?<bv8>, buffer: array?<bv8>, bits: nat)
    returns (code: int, copied: Option<nat>)
    requires bits < U64
    requires bs != null && stream != null ==> Covers(bs, stream)
    requires bs != null ==> bs.Valid()
    requires buffer != null ==> WholeBytes(bits) <= buffer.Length
    requires stream != buffer
    modifies bs, stream
    ensures bs != null ==> bs.Valid() && bs.length == old(bs.length)
    ensures bs == null || stream == null || buffer == null || old(bs.AtEnd()) ==>
      code == ERROR && copied == None
    ensures code != SUCCESS ==> (bs != null ==> bs.position == old(bs.position)) && (stream != null ==> stream[..] == old(stream[..]))
    ensures bs != null && stream != null && buffer != null && !old(bs.AtEnd()) ==>
      var left := Bits(bs.length) - Bits(old(bs.position));
      && (code == TRUNCATED <==> left < bits) && (code == TRUNCATED ==> copied == Some(bits - left))
      && (code == SUCCESS <==> bits <= left)
      && (code == SUCCESS ==>
            copied == Some(bits) && Bits(bs.position) == Bits(old(bs.position)) + bits
            && CopiedIn(stream[..], old(stream[..]), buffer[..], Bits(old(bs.position)), bits))
  {
    if bs == null || stream == null || bs.AtEnd() || buffer == null {
      return ERROR, None;
    }
    if bits == 0 {
      return SUCCESS, Some(0);
    }
    var left := Bits(bs.length) - Bits(bs.position);
    if left < bits {
      return TRUNCATED, Some(bits - left);
    }
    var didCopy := ShiftIn(bs, stream, buffer, bits);
    return SUCCESS, Some(didCopy);
  }

  /** The loop of bitstream_copy_in. */
  method ShiftIn(bs: State, stream: array<bv8>, buffer: array<bv8>, bits: nat) returns (didCopy: nat)
    requires bs.Valid() && stream != buffer && Bits(bs.position) + bits <= Bits(bs.length) <= 8 * stream.Length
    requires WholeBytes(bits) <= buffer.Length
    modifies bs, stream
    ensures bs.Valid() && bs.length == old(bs.length) && didCopy == bits
    ensures Bits(bs.position) == Bits(old(bs.position)) + bits
    ensures CopiedIn(stream[..], old(stream[..]), buffer[..], Bits(old(bs.position)), bits)
  {
    ghost var from := Bits(bs.position);
    ghost var st0 := stream[..];
    didCopy := 0;
    var bydx := 0;
    while didCopy < bits
      invariant didCopy <= bits && (didCopy < bits ==> didCopy == 8 * bydx)
      invariant bs.Valid() && bs.length == old(bs.length) && Bits(bs.position) == from + didCopy
      invariant CopiedIn(stream[..], st0, buffer[..], from, didCopy)
      decreases bits - didCopy
    {
      var tb, pb := 0, bs.position.bit;
      tb, pb, didCopy := RunIn(bs, stream, buffer, bits, bydx, tb, pb, didCopy, st0, from);
      if pb == 8 {
        pb := 0;
        bs.position := bs.position.(byte := bs.position.byte + 1);
      }
      if didCopy < bits {
        tb, pb, didCopy := RunIn(bs, stream, buffer, bits, bydx, tb, pb, didCopy, st0, from);
      }
      bs.position := bs.position.(bit := pb);
      bydx := bydx + 1;
    }
  }

  /** One inner loop of bitstream_copy_in: bits of buffer byte `bydx` into
      the stream until the stream byte, the buffer byte or the request
      ends. */
  method RunIn(bs: State, stream: array<bv8>, buffer: array<bv8>, bits: nat, bydx: nat, tb: nat, pb: nat,
               didCopy: nat, ghost st0: seq<bv8>, ghost from: nat)
    returns (tb': nat, pb': nat, didCopy': nat)
    requires stream != buffer && bs.Valid()
    requires WholeBytes(bits) <= buffer.Length && from + bits <= 8 * stream.Length
    requires tb <= 8 && pb <= 8 && didCopy == 8 * bydx + tb && didCopy <= bits
    requires 8 * bs.position.byte + pb == from + didCopy
    requires CopiedIn(stream[..], st0, buffer[..], from, didCopy)
    modifies stream
    ensures didCopy <= didCopy' <= bits && tb' == tb + (didCopy' - didCopy) && pb' == pb + (didCopy' - didCopy)
    ensures tb' <= 8 && pb' <= 8 && (pb' == 8 || tb' == 8 || didCopy' == bits)
    ensures CopiedIn(stream[..], st0, buffer[..], from, didCopy')
  {
    tb', pb', didCopy' := tb, pb, didCopy;
    while pb' < 8 && tb' < 8 && didCopy' < bits
      invariant didCopy <= didCopy' <= bits && tb' == tb + (didCopy' - didCopy) && pb' == pb + (didCopy' - didCopy)
      invariant tb' <= 8 && pb' <= 8
      invariant CopiedIn(stream[..], st0, buffer[..], from, didCopy')
    {
      ghost var before := stream[..];
      var at := bs.position.byte;
      CopyOneIn(before, st0, buffer[..], from, didCopy', at, pb');
      BitAtByte(buffer[..], bydx, tb');
      stream[at] := SetBit(stream[at], pb', BitOf(buffer[bydx], tb'));
      assert stream[..] == before[at := SetBit(before[at], pb', BitAt(buffer[..], didCopy'))];
      pb', tb', didCopy' := pb' + 1, tb' + 1, didCopy' + 1;
    }
  }

  /** The bits of `out` from `to` on are `bits` bits of `src` from `from` on;
      its other bits are those of `out0`. */
  ghost predicate Transferred(out: seq<bv8>, out0: seq<bv8>, src: seq<bv8>, to: nat, from: nat, bits: nat) {
    |out| == |out0| && to + bits <= 8 * |out| && from + bits <= 8 * |src|
    && forall j :: 0 <= j < 8 * |out| ==>
         BitAt(out, j) == if to <= j < to + bits then BitAt(src, from + (j - to)) else BitAt(out0, j)
  }

  /** A copy out into a buffer followed by a copy in from it transfers the
      bits from one stream to the other. */
  lemma OutThenIn(buf: seq<bv8>, buf0: seq<bv8>, src: seq<bv8>, from: nat, out: seq<bv8>, out0: seq<bv8>, to: nat, bits: nat)
    requires CopiedOut(buf, buf0, src, from, bits) && CopiedIn(out, out0, buf, to, bits)
    ensures Transferred(out, out0, src, to, from, bits)
  {
    forall j | 0 <= j < 8 * |out| && to <= j < to + bits
      ensures BitAt(out, j) == BitAt(src, from + (j - to))
    {
      assert BitAt(out, j) == BitAt(buf, j - to);
    }
  }

  /** bitstream_copy: ERROR for a missing argument or either stream at its
      end; 0 bits succeed at once; otherwise the bits go through a zeroed
      buffer by copy_out and copy_in, and the first failing answer is
      returned. When the input has the bits but the output lacks room, the
      answer is TRUNCATED with the output unchanged, but the input position
      has already moved past the bits. */
  method Copy(outs: State?, out: array?<bv8>, ins: State?, inp: array?<bv8>, bits: nat)
    returns (code: int, copied: Option<nat>)
    requires bits < U64 && out != inp
    requires outs != null ==> outs.Valid()
    requires ins != null ==> ins.Valid()
    requires outs != null && ins != null ==> outs != ins
    requires outs != null && out != null ==> Covers(outs, out)
    requires ins != null && inp != null ==> Covers(ins, inp)
    modifies outs, out, ins
    ensures outs != null ==> outs.Valid() && outs.length == old(outs.length)
    ensures ins != null ==> ins.Valid() && ins.length == old(ins.length)
    ensures outs == null || out == null || ins == null || inp == null || old(ins.AtEnd()) || old(outs.AtEnd()) ==>
      code == ERROR && copied == None
    ensures outs != null && out != null && ins != null && inp != null && !old(ins.AtEnd()) && !old(outs.AtEnd()) ==>
      var leftIn := Bits(ins.length) - Bits(old(ins.position));
      var leftOut := Bits(outs.length) - Bits(old(outs.position));
      && (code == INCOMPLETE <==> leftIn < bits)
      && (code == TRUNCATED <==> bits <= leftIn && leftOut < bits)
      && (code == SUCCESS <==> bits <= leftIn && bits <= leftOut)
      && (code == INCOMPLETE ==>
            copied == Some(bits - leftIn) && ins.position == old(ins.position)
            && outs.position == old(outs.position) && out[..] == old(out[..]))
      && (code == TRUNCATED ==>
            copied == Some(bits - leftOut) && outs.position == old(outs.position) && out[..] == old(out[..])
            && Bits(ins.position) == Bits(old(ins.position)) + bits)
      && (code == SUCCESS ==>
            copied == Some(bits)
            && Bits(ins.position) == Bits(old(ins.position)) + bits
            && Bits(outs.position) == Bits(old(outs.position)) + bits
            && Transferred(out[..], old(out[..]), inp[..], Bits(old(outs.position)), Bits(old(ins.position)), bits))
  {
    if outs == null || out == null || ins == null || inp == null || ins.AtEnd() || outs.AtEnd() {
      return ERROR, None;
    }
    if bits == 0 {
      code, copied := SUCCESS, Some(0);
      assert Transferred(out[..], old(out[..]), inp[..], Bits(old(outs.position)), Bits(old(ins.position)), bits);
      return;
    }
    code, copied := Through(outs, out, ins, inp, bits);
  }

  /** The copy of bitstream_copy once its arguments are checked. */
  method Through(outs: State, out: array<bv8>, ins: State, inp: array<bv8>, bits: nat)
    returns (code: int, copied: Option<nat>)
    requires 0 < bits < U64 && out != inp && outs != ins
    requires outs.Valid() && ins.Valid() && Covers(outs, out) && Covers(ins, inp)
    requires !ins.AtEnd() && !outs.AtEnd()
    modifies outs, out, ins
    ensures outs.Valid() && outs.length == old(outs.length)
    ensures ins.Valid() && ins.length == old(ins.length)
    ensures
      var leftIn := Bits(ins.length) - Bits(old(ins.position));
      var leftOut := Bits(outs.length) - Bits(old(outs.position));
      && (code == INCOMPLETE <==> leftIn < bits)
      && (code == TRUNCATED <==> bits <= leftIn && leftOut < bits)
      && (code == SUCCESS <==> bits <= leftIn && bits <= leftOut)
      && (code == INCOMPLETE ==>
            copied == Some(bits - leftIn) && ins.position == old(ins.position)
            && outs.position == old(outs.position) && out[..] == old(out[..]))
      && (code == TRUNCATED ==>
            copied == Some(bits - leftOut) && outs.position == old(outs.position) && out[..] == old(out[..])
            && Bits(ins.position) == Bits(old(ins.position)) + bits)
      && (code == SUCCESS ==>
            copied == Some(bits)
            && Bits(ins.position) == Bits(old(ins.position)) + bits
            && Bits(outs.position) == Bits(old(outs.position)) + bits
            && Transferred(out[..], old(out[..]), inp[..], Bits(old(outs.position)), Bits(old(ins.position)), bits))
  {
    var buff := new bv8[WholeBytes(bits)](_ => 0);
    ghost var buf0 := buff[..];
    code, copied := CopyOut(ins, inp, buff, bits);
    if code == SUCCESS {
      ghost var buf1 := buff[..];
      code, copied := FromBuffer(outs, out, buff, bits);
      if code == SUCCESS {
        OutThenIn(buf1, buf0, inp[..], Bits(old(ins.position)), out[..], old(out[..]), Bits(old(outs.position)), bits);
      }
    }
  }

  /** The copy_in half of bitstream_copy: copy_in on arguments already
      known to be present. */
  method FromBuffer(outs: State, out: array<bv8>, buff: array<bv8>, bits: nat)
    returns (code: int, copied: Option<nat>)
    requires 0 < bits < U64 && out != buff && outs.Valid() && Covers(outs, out) && !outs.AtEnd()
    requires WholeBytes(bits) <= buff.Length
    modifies outs, out
    ensures outs.Valid() && outs.length == old(outs.length)
    ensures
      var leftOut := Bits(outs.length) - Bits(old(outs.position));
      && (code == TRUNCATED <==> leftOut < bits)
      && (code == SUCCESS <==> bits <= leftOut)
      && (code == TRUNCATED ==>
            copied == Some(bits - leftOut) && outs.position == old(outs.position) && out[..] == old(out[..]))
      && (code == SUCCESS ==>
            copied == Some(bits) && Bits(outs.position) == Bits(old(outs.position)) + bits
            && CopiedIn(out[..], old(out[..]), buff[..], Bits(old(outs.position)), bits))
  {
    code, copied := CopyIn(outs, out, buff, bits);
  }

  /** bitstream_copy as its header documents it: every answer other than
      SUCCESS leaves both streams unchanged. The room in the output is
      checked before anything is copied, so a TRUNCATED answer no longer
      moves the input position. */
  method CopyChecked(outs: State?, out: array?<bv8>, ins: State?, inp: array?<bv8>, bits: nat)
    returns (code: int, copied: Option<nat>)
    requires bits < U64 && out != inp
    requires outs != null ==> outs.Valid()
    requires ins != null ==> ins.Valid()
    requires outs != null && ins != null ==> outs != ins
    requires outs != null && out != null ==> Covers(outs, out)
    requires ins != null && inp != null ==> Covers(ins, inp)
    modifies outs, out, ins
    ensures outs != null ==> outs.Valid() && outs.length == old(outs.length)
    ensures ins != null ==> ins.Valid() && ins.length == old(ins.length)
    ensures code != SUCCESS ==>
      (outs != null ==> outs.position == old(outs.position)) && (ins != null ==> ins.position == old(ins.position))
      && (out != null ==> out[..] == old(out[..]))
    ensures outs == null || out == null || ins == null || inp == null || old(ins.AtEnd()) || old(outs.AtEnd()) ==>
      code == ERROR && copied == None
    ensures outs != null && out != null && ins != null && inp != null && !old(ins.AtEnd()) && !old(outs.AtEnd()) ==>
      var leftIn := Bits(ins.length) - Bits(old(ins.position));
      var leftOut := Bits(outs.length) - Bits(old(outs.position));
      && (code == INCOMPLETE <==> leftIn < bits)
      && (code == TRUNCATED <==> bits <= leftIn && leftOut < bits)
      && (code == SUCCESS <==> bits <= leftIn && bits <= leftOut)
      && (code == INCOMPLETE ==> copied == Some(bits - leftIn))
      && (code == TRUNCATED ==> copied == Some(bits - leftOut))
      && (code == SUCCESS ==>
            copied == Some(bits)
            && Bits(ins.position) == Bits(old(ins.position)) + bits
            && Bits(outs.position) == Bits(old(outs.position)) + bits
            && Transferred(out[..], old(out[..]), inp[..], Bits(old(outs.position)), Bits(old(ins.position)), bits))
  {
    if outs == null || out == null || ins == null || inp == null || ins.AtEnd() || outs.AtEnd() {
      return ERROR, None;
    }
    var leftIn := Bits(ins.length) - Bits(ins.position);
    var leftOut := Bits(outs.length) - Bits(outs.position);
    if bits <= leftIn && leftOut < bits {
      return TRUNCATED, Some(bits - leftOut);
    }
    code, copied := Copy(outs, out, ins, inp, bits);
  }
}
