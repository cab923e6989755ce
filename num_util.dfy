/** The numeric helpers the codebook code relies on: the count of set bits
    (lib_count_set in lib.c and common_lib.c, neutil_count_ones in
    neutil.c), the bit length `ilog` of section 9.2.1 of the Vorbis I
    specification (lib_count_bits, neutil_count_bits) and `lookup1_values`
    of its section 9.2.3 (lib_lookup1_values, neutil_lookup1). */
module NumUtil {

  function Pow2(k: nat): (p: nat)
    ensures p >= 1
  {
    if k == 0 then 1 else 2 * Pow2(k - 1)
  }

  /** base^exp. */
  function Pow(base: int, exp: nat): int {
    if exp == 0 then 1 else base * Pow(base, exp - 1)
  }

  /** The number of 1 bits in the binary form of x. */
  function PopCount(x: nat): (r: nat)
    ensures r == 0 <==> x == 0
  {
    if x == 0 then 0 else x % 2 + PopCount(x / 2)
  }

  /** The number of binary digits of x, 0 for 0. */
  function BitLength(x: nat): (r: nat)
    ensures x == 0 <==> r == 0
  {
    if x == 0 then 0 else 1 + BitLength(x / 2)
  }

  /** ilog as section 9.2.1 of the Vorbis I specification defines it: the
      position of the highest set bit, counting from 1. */
  lemma {:induction false} BitLengthBounds(x: nat)
    requires x > 0
    ensures Pow2(BitLength(x) - 1) <= x < Pow2(BitLength(x))
  {
    if x > 1 {
      BitLengthBounds(x / 2);
    }
  }

  /** The bounds pin the bit length down. */
  lemma {:induction false} BitLengthUnique(x: nat, r: nat)
    requires r > 0 && Pow2(r - 1) <= x < Pow2(r)
    ensures BitLength(x) == r
  {
    if r > 1 {
      BitLengthUnique(x / 2, r - 1);
    }
  }

  /** Every set bit takes one binary digit. */
  lemma {:induction false} PopCountAtMostLength(x: nat)
    ensures PopCount(x) <= BitLength(x)
  {
    if x > 0 {
      PopCountAtMostLength(x / 2);
    }
  }

  /** 2^k - 1 has k set bits, and 2^k has one. */
  lemma {:induction false} PopCountPowers(k: nat)
    ensures PopCount(Pow2(k) - 1) == k && PopCount(Pow2(k)) == 1
  {
    if k > 0 {
      PopCountPowers(k - 1);
      assert Pow2(k) % 2 == 0 && Pow2(k) / 2 == Pow2(k - 1);
      assert (Pow2(k) - 1) % 2 == 1 && (Pow2(k) - 1) / 2 == Pow2(k - 1) - 1;
    }
  }

  /** lib_count_set / neutil_count_ones: add the low bit and shift right
      until nothing is left. */
  method CountSet(v: nat) returns (r: nat)
    ensures r == PopCount(v)
  {
    r := 0;
    var x := v;
    while x != 0
      invariant r + PopCount(x) == PopCount(v)
    {
      r := r + x % 2;
      x := x / 2;
    }
  }

  /** lib_count_bits / neutil_count_bits: count right shifts while the
      number is positive. lib.c takes a signed long, so a negative number
      answers 0; neutil.c takes an unsigned long, which is never negative. */
  method CountBits(number: int) returns (r: nat)
    ensures number <= 0 ==> r == 0
    ensures number > 0 ==> 0 < r && Pow2(r - 1) <= number < Pow2(r)
  {
    r := 0;
    var x := number;
    while x > 0
      invariant x <= 0 ==> r == BitLength(if number <= 0 then 0 else number)
      invariant x > 0 ==> r + BitLength(x) == BitLength(number)
    {
      r := r + 1;
      x := x / 2;
    }
    if number > 0 {
      BitLengthBounds(number);
    }
  }

  /** Raising to a fixed power keeps order on naturals. */
  lemma {:induction false} PowMonotone(a: nat, b: nat, d: nat)
    requires a <= b
    ensures 0 <= Pow(a, d) <= Pow(b, d)
  {
    if d > 0 {
      PowMonotone(a, b, d - 1);
      assert a * Pow(a, d - 1) <= b * Pow(b, d - 1) by {
        assert a * Pow(a, d - 1) <= b * Pow(a, d - 1);
        assert b * Pow(a, d - 1) <= b * Pow(b, d - 1);
      }
    }
  }

  /** v <= v^d when d >= 1. */
  lemma {:induction false} PowAtLeastBase(v: nat, d: nat)
    requires d >= 1
    ensures v <= Pow(v, d)
  {
    if d > 1 {
      PowAtLeastBase(v, d - 1);
      PowMonotone(0, v, d - 1);
      if v > 0 {
        assert v * Pow(v, d - 1) >= Pow(v, d - 1);
      }
    }
  }

  /** The largest v from `from` on with v^d <= entries. */
  function RootFrom(entries: nat, d: nat, from: nat): (v: nat)
    requires d >= 1 && Pow(from, d) <= entries
    ensures Pow(v, d) <= entries < Pow(v + 1, d) && from <= v
    decreases entries - from
  {
    PowAtLeastBase(from + 1, d);
    if Pow(from + 1, d) > entries then from else RootFrom(entries, d, from + 1)
  }

  /** The answer of lookup1_values: the v of section 9.2.3 of the Vorbis I
      specification with v^d <= entries < (v+1)^d. */
  function Root(entries: nat, d: nat): (v: nat)
    requires d >= 1
    ensures Pow(v, d) <= entries < Pow(v + 1, d)
  {
    assert Pow(0, d) == 0 by { PowZero(d); }
    RootFrom(entries, d, 0)
  }

  lemma PowZero(d: nat)
    requires d >= 1
    ensures Pow(0, d) == 0
  {
  }

  /** Only one v meets the bounds of section 9.2.3. */
  lemma RootUnique(entries: nat, d: nat, v: nat)
    requires d >= 1 && Pow(v, d) <= entries < Pow(v + 1, d)
    ensures v == Root(entries, d)
  {
    var w := Root(entries, d);
    if v < w {
      PowMonotone(v + 1, w, d);
    } else if w < v {
      PowMonotone(w + 1, v, d);
    }
  }

  /** v^d above entries puts v above the root; (v+1)^d at most entries puts
      v below it. */
  lemma RootSide(entries: nat, d: nat, v: nat)
    requires d >= 1
    ensures Pow(v, d) > entries ==> v > Root(entries, d)
    ensures Pow(v + 1, d) <= entries ==> v < Root(entries, d)
  {
    var w := Root(entries, d);
    if v <= w {
      PowMonotone(v, w, d);
    }
    if v >= w {
      PowMonotone(w + 1, v + 1, d);
    }
  }

  /** The inner for loop: acc = vals^d and acc1 = (vals+1)^d. */
  method Powers(vals: int, d: nat) returns (acc: int, acc1: int)
    ensures acc == Pow(vals, d) && acc1 == Pow(vals + 1, d)
  {
    acc, acc1 := 1, 1;
    var i := 0;
    while i < d
      invariant i <= d && acc == Pow(vals, i) && acc1 == Pow(vals + 1, i)
    {
      acc := acc * vals;
      acc1 := acc1 * (vals + 1);
      i := i + 1;
    }
  }

  /** The starting point of lookup1_values: entries shifted right by
      (bits - 1) * (d - 1) / d, bits being the bit length of entries. For
      entries 0 the bit length is 0 and C's division, which truncates
      toward zero, makes the shift -(d - 1) / d == 0. */
  function FirstGuess(entries: nat, bits: nat, d: nat): nat
    requires d >= 1
  {
    if bits == 0 then entries else
    Quotient(entries, Pow2(Quotient(Product(bits - 1, d - 1), d)))
  }

  function Product(a: nat, b: nat): nat {
    a * b
  }

  /** Integer division of naturals: a right shift by k is a division by
      2^k. */
  function Quotient(a: nat, b: nat): nat
    requires b > 0
  {
    a / b
  }

  /** lib_lookup1_values / neutil_lookup1: start from
      entries >> ((bits - 1) * (d - 1) / d) and step down while vals^d is
      above entries, up while (vals+1)^d is not. */
  method Lookup1(entries: nat, d: nat) returns (v: nat)
    requires d >= 1
    ensures Pow(v, d) <= entries < Pow(v + 1, d)
    ensures v == Root(entries, d)
  {
    var bits := CountBits(entries);
    var vals: int := FirstGuess(entries, bits, d);
    ghost var root := Root(entries, d);
    while true
      invariant vals >= 0
      decreases if vals <= root then root - vals else vals - root
    {
      var acc, acc1 := Powers(vals, d);
      RootSide(entries, d, vals);
      if acc <= entries && acc1 > entries {
        RootUnique(entries, d, vals);
        return vals;
      } else if acc > entries {
        vals := vals - 1;
      } else {
        vals := vals + 1;
      }
    }
  }
}
