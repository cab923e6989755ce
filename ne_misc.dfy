/** NeMisc.c: the greatest common factor, the "smart" modulo that slices
    use to normalise indices, and the decimal digit count. NeOf is a signed
    64-bit offset and NeSz an unsigned 32-bit size (common/NeTypes.h). */
module NeMisc {

  const OF_MIN: int := -0x8000_0000_0000_0000
  const OF_MAX: int := 0x7FFF_FFFF_FFFF_FFFF
  const SZ: nat := 0x1_0000_0000

  /** A value of NeOf. */
  predicate IsOf(x: int) {
    OF_MIN <= x <= OF_MAX
  }

  function Abs(x: int): nat {
    if x < 0 then -x else x
  }

  /** C's `%` on signed operands: the magnitude is |a| mod |b| and the sign
      is that of a. */
  function CRem(a: int, b: int): (r: int)
    requires b != 0
    ensures Abs(r) < Abs(b)
    ensures a >= 0 ==> r >= 0
    ensures a < 0 ==> r <= 0
  {
    if a >= 0 then a % Abs(b) else -((-a) % Abs(b))
  }

  /** c divides x. */
  predicate Divides(c: int, x: int)
    requires c != 0
  {
    x % Abs(c) == 0
  }

  lemma {:induction false} MulAtLeast(m: nat, d: int)
    requires d >= 1
    ensures m * d >= m
  {
    if d > 1 {
      MulAtLeast(m, d - 1);
      assert m * d == m * (d - 1) + m;
    }
  }

  /** x == m * q + r with 0 <= r < m fixes x % m and x / m. */
  lemma FloorModUnique(x: int, m: nat, q: int, r: int)
    requires m > 0 && 0 <= r < m && x == m * q + r
    ensures x % m == r && x / m == q
  {
    var q', r' := x / m, x % m;
    assert m * (q - q') == r' - r by {
      assert x == m * q' + r';
    }
    SmallMultiple(m, q - q');
  }

  /** The only multiple of m strictly between -m and m is 0. */
  lemma SmallMultiple(m: nat, d: int)
    requires m > 0 && -(m as int) < m * d < m
    ensures d == 0
  {
    if d >= 1 {
      MulAtLeast(m, d);
    } else if d <= -1 {
      MulAtLeast(m, -d);
    }
  }

  lemma MulMod(c: nat, m: int)
    requires c > 0
    ensures (c * m) % c == 0
  {
    FloorModUnique(c * m, c, m, 0);
  }

  /** Adding a multiple of c does not change divisibility by c. */
  lemma ShiftMultiple(c: nat, x: int, y: int, m: int)
    requires c > 0 && x == y + c * m
    ensures x % c == 0 <==> y % c == 0
  {
    if y % c == 0 {
      var k := y / c;
      assert y == c * k;
      assert x == c * (k + m);
      MulMod(c, k + m);
    }
    if x % c == 0 {
      var k := x / c;
      assert x == c * k;
      assert y == c * (k - m);
      MulMod(c, k - m);
    }
  }

  /** The quotient that goes with CRem: C's division truncates. */
  function CQuot(a: int, b: int): int
    requires b != 0
  {
    if a >= 0 then a / Abs(b) else -((-a) / Abs(b))
  }

  lemma CRemQuot(a: int, b: int)
    requires b != 0
    ensures CRem(a, b) == a - Abs(b) * CQuot(a, b)
  {
    var d := Abs(b);
    if a >= 0 {
      assert a == d * (a / d) + a % d;
    } else {
      assert -a == d * ((-a) / d) + (-a) % d;
    }
  }

  /** If c divides b, it divides a exactly when it divides a's remainder
      by b. */
  lemma DividesRem(c: nat, a: int, b: int)
    requires c > 0 && b != 0 && b % c == 0
    ensures a % c == 0 <==> CRem(a, b) % c == 0
  {
    CRemQuot(a, b);
    var q := CQuot(a, b);
    var k := b / c;
    assert b == c * k;
    var sk := if b < 0 then -k else k;
    assert Abs(b) == c * sk;
    assert Abs(b) * q == c * (sk * q);
    ShiftMultiple(c, a, CRem(a, b), sk * q);
  }

  /** The positive common divisors of x and y. */
  ghost predicate SameCommonDivisors(x: int, y: int, x': int, y': int) {
    forall c: nat :: c > 0 ==> (x % c == 0 && y % c == 0 <==> x' % c == 0 && y' % c == 0)
  }

  /** NeGCF: a equal to b answers a, a zero argument answers 0, and
      otherwise Euclid's algorithm with C's remainder runs until the
      remainder is 0. The answer is a common divisor of both arguments that
      every other common divisor divides.
      C's `%` is undefined for INT64_MIN % -1, which the loop reaches only
      for the two pairs the precondition excludes. */
  method GCF(a: int, b: int) returns (r: int)
    requires IsOf(a) && IsOf(b)
    requires !(a == OF_MIN && b == -1) && !(a == -1 && b == OF_MIN)
    ensures a == b ==> r == a
    ensures a != b && (a == 0 || b == 0) ==> r == 0
    ensures a != 0 && b != 0 ==>
      r != 0 && Divides(r, a) && Divides(r, b)
      && forall c: nat :: c > 0 && a % c == 0 && b % c == 0 ==> Divides(c, r)
  {
    if a == b {
      if a != 0 {
        assert a % Abs(a) == 0 by { MulMod(Abs(a), if a < 0 then -1 else 1); }
      }
      return a;
    }
    if a == 0 || b == 0 {
      return 0;
    }
    var x, y := a, b;
    while y != 0
      invariant x != 0 && SameCommonDivisors(a, b, x, y)
      decreases Abs(y)
    {
      var t := y;
      forall c: nat | c > 0 && t % c == 0
        ensures x % c == 0 <==> CRem(x, t) % c == 0
      {
        DividesRem(c, x, t);
      }
      y := CRem(x, t);
      x := t;
    }
    r := x;
    assert r % Abs(r) == 0 by { MulMod(Abs(r), if r < 0 then -1 else 1); }
    assert a % Abs(r) == 0 && b % Abs(r) == 0;
  }

  /** The value a negative input contributes before `of` is added:
      mod - 1 - (t % mod), t being -(input + 1) cut to 32 bits. */
  function NegResidue(input: int, mod: nat): (v: nat)
    requires input < 0 && 0 < mod < SZ
    ensures v < mod
  {
    mod - 1 - ((-(input + 1)) % SZ) % mod
  }

  /** NeSmartMod: mod 0 answers 0; a non-negative input is cut to 32 bits
      and reduced mod `mod`; a negative input gives
      mod - 1 - (-(input + 1) mod `mod`) + of. The precondition keeps the final
      signed addition from overflowing. */
  function SmartMod(input: int, mod: nat, of: int): (r: int)
    requires IsOf(input) && mod < SZ && IsOf(of)
    requires input < 0 && mod > 0 ==> of + NegResidue(input, mod) <= OF_MAX
    ensures mod == 0 ==> r == 0
    ensures mod > 0 && input >= 0 ==> 0 <= r < mod && r == (input % SZ) % mod
    ensures mod > 0 && input < 0 ==> of <= r < of + mod
  {
    if mod == 0 then 0
    else if input >= 0 then (input % SZ) % mod
    else NegResidue(input, mod) + of
  }

  /** While the input's magnitude fits 32 bits, SmartMod with of = 0 is the
      floored modulo: in [0, mod) and congruent to the input. */
  lemma SmartModFloors(input: int, mod: nat)
    requires 0 < mod < SZ && 0 <= input + SZ && input < SZ
    ensures SmartMod(input, mod, 0) == input % mod
  {
    if input < 0 {
      var t := -(input + 1);
      assert t % SZ == t;
      var q := t / mod;
      assert t == mod * q + t % mod;
      assert input == mod * (-q - 1) + (mod - 1 - t % mod);
      FloorModUnique(input, mod, -q - 1, mod - 1 - t % mod);
    } else {
      assert input % SZ == input;
    }
  }

  /** With of = 1, as slices use it, -1 stands for the length itself. */
  lemma SmartModEnd(len: nat)
    requires 0 < len < SZ
    ensures SmartMod(-1, len, 1) == len
  {
  }

  /** A non-negative input of 32 bits or more is cut first: 2^32 mod 3 is 1,
      but SmartMod answers 0. */
  lemma SmartModCuts()
    ensures SmartMod(SZ, 3, 0) == 0 && SZ % 3 == 1
  {
  }

  function Pow10(k: nat): (p: nat)
    ensures p >= 1
  {
    if k == 0 then 1 else 10 * Pow10(k - 1)
  }

  /** The number of decimal digits of m, 0 for 0. */
  function Digits(m: nat): nat {
    if m == 0 then 0 else 1 + Digits(m / 10)
  }

  lemma {:induction false} DigitsBounds(m: nat)
    ensures m < Pow10(Digits(m))
    ensures m > 0 ==> Pow10(Digits(m) - 1) <= m
  {
    if m > 0 {
      DigitsBounds(m / 10);
    }
  }

  /** NeDigitCount: 1 for 0; otherwise the number of decimal digits of n,
      or for a negative n of -(n + 1), so -1 counts 0 digits. */
  method DigitCount(n: int) returns (c: nat)
    requires IsOf(n)
    ensures n == 0 ==> c == 1
    ensures n != 0 ==>
      var m := if n < 0 then -(n + 1) else n;
      m < Pow10(c) && (m > 0 ==> Pow10(c - 1) <= m) && (m == 0 <==> c == 0)
  {
    if n == 0 {
      return 1;
    }
    var m := if n < 0 then -(n + 1) else n;
    c := 0;
    var k := m;
    while k > 0
      invariant k >= 0 && c + Digits(k) == Digits(m)
    {
      c := c + 1;
      k := k / 10;
    }
    DigitsBounds(m);
  }
}
