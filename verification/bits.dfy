/** Bitwise operators on integers. `And`, `Or` and `Bit` work on
  * non-negative integers bit by bit; `JsAnd`, `JsOr` and `JsNot` are
  * JavaScript's `&`, `|` and `~`, which see the low 32 bits of their
  * operands and answer a signed 32-bit number. */
module Bits {
  import opened Base

  function Pow2(n: nat): (r: nat)
    ensures r > 0
  {
    if n == 0 then 1 else 2 * Pow2(n - 1)
  }

  lemma {:induction false} Pow2Add(a: nat, b: nat)
    ensures Pow2(a + b) == Pow2(a) * Pow2(b)
  {
    if b > 0 {
      Pow2Add(a, b - 1);
      assert Pow2(a + b) == 2 * Pow2(a + b - 1);
    }
  }

  lemma Pow2Values()
    ensures Pow2(1) == 2 && Pow2(2) == 4 && Pow2(3) == 8 && Pow2(4) == 16
    ensures Pow2(5) == 32 && Pow2(6) == 64 && Pow2(7) == 128 && Pow2(8) == TWO_8
    ensures Pow2(16) == TWO_16 && Pow2(24) == TWO_24 && Pow2(32) == TWO_32
  {
    Pow2Add(8, 8);
    Pow2Add(16, 8);
    Pow2Add(16, 16);
  }

  lemma {:induction false} Pow2Monotone(a: nat, b: nat)
    requires a <= b
    ensures Pow2(a) <= Pow2(b)
  {
    if a < b {
      Pow2Monotone(a, b - 1);
    }
  }

  /** Bit i, of weight 2^i, of a non-negative integer. */
  predicate Bit(a: nat, i: nat)
  {
    (a / Pow2(i)) % 2 == 1
  }

  lemma DivUnique(a: int, d: int, q: int, r: int)
    requires d > 0 && a == d * q + r && 0 <= r < d
    ensures a / d == q && a % d == r
  {
    var q', r' := a / d, a % d;
    assert d * (q - q') == r' - r;
    if q > q' {
      MulAtLeast(d, q - q');
    } else if q < q' {
      MulAtLeast(d, q' - q);
    }
  }

  lemma MulAtLeast(d: int, k: int)
    requires d > 0 && k >= 1
    ensures d * k >= d
  {
  }

  /** Bit i + 1 of a is bit i of a / 2. */
  lemma BitHalf(a: nat, i: nat)
    ensures Bit(a, i + 1) == Bit(a / 2, i)
  {
    var p := Pow2(i);
    var q, s := a / 2, (a / 2) / p;
    var t := q % p;
    assert q == p * s + t;
    assert a == (2 * p) * s + (2 * t + a % 2);
    DivUnique(a, 2 * p, s, 2 * t + a % 2);
  }

  lemma BitZero(a: nat)
    ensures Bit(a, 0) == (a % 2 == 1)
  {
  }

  /** A number below 2^w has no bit at w or above. */
  lemma BitAbove(a: nat, w: nat, i: nat)
    requires a < Pow2(w) && w <= i
    ensures !Bit(a, i)
  {
    Pow2Monotone(w, i);
    DivUnique(a, Pow2(i), 0, a);
  }

  /** Two numbers below 2^w with the same w low bits are equal. */
  lemma {:induction false} BitsEqual(a: nat, b: nat, w: nat)
    requires a < Pow2(w) && b < Pow2(w)
    requires forall i :: 0 <= i < w ==> Bit(a, i) == Bit(b, i)
    ensures a == b
  {
    if w > 0 {
      BitZero(a);
      BitZero(b);
      forall i | 0 <= i < w - 1
        ensures Bit(a / 2, i) == Bit(b / 2, i)
      {
        BitHalf(a, i);
        BitHalf(b, i);
      }
      BitsEqual(a / 2, b / 2, w - 1);
    }
  }

  /** A number below 2^w is zero exactly when none of its w bits is set. */
  lemma NonZeroBit(a: nat, w: nat)
    requires a < Pow2(w)
    ensures a != 0 <==> exists i :: 0 <= i < w && Bit(a, i)
  {
    if forall i :: 0 <= i < w ==> !Bit(a, i) {
      forall i | 0 <= i < w
        ensures Bit(a, i) == Bit(0, i)
      {
      }
      BitsEqual(a, 0, w);
    }
  }

  function And(a: nat, b: nat): (r: nat)
    decreases a
  {
    if a == 0 || b == 0 then 0
    else 2 * And(a / 2, b / 2) + (if a % 2 == 1 && b % 2 == 1 then 1 else 0)
  }

  function Or(a: nat, b: nat): (r: nat)
    decreases a + b
  {
    if a == 0 then b
    else if b == 0 then a
    else 2 * Or(a / 2, b / 2) + (if a % 2 == 1 || b % 2 == 1 then 1 else 0)
  }

  /** Bit i of a & b is set exactly when it is set in both. */
  lemma {:induction false} AndBit(a: nat, b: nat, i: nat)
    ensures Bit(And(a, b), i) == (Bit(a, i) && Bit(b, i))
    decreases i
  {
    if a == 0 || b == 0 {
      assert a / Pow2(i) == 0 || b / Pow2(i) == 0;
    } else if i == 0 {
      BitZero(a);
      BitZero(b);
      BitZero(And(a, b));
    } else {
      var c := And(a, b);
      assert c / 2 == And(a / 2, b / 2);
      BitHalf(c, i - 1);
      BitHalf(a, i - 1);
      BitHalf(b, i - 1);
      AndBit(a / 2, b / 2, i - 1);
    }
  }

  /** Bit i of a | b is set exactly when it is set in either. */
  lemma {:induction false} OrBit(a: nat, b: nat, i: nat)
    ensures Bit(Or(a, b), i) == (Bit(a, i) || Bit(b, i))
    decreases i
  {
    if a == 0 {
      assert a / Pow2(i) == 0;
    } else if b == 0 {
      assert b / Pow2(i) == 0;
    } else if i == 0 {
      BitZero(a);
      BitZero(b);
      BitZero(Or(a, b));
    } else {
      var c := Or(a, b);
      assert c / 2 == Or(a / 2, b / 2);
      BitHalf(c, i - 1);
      BitHalf(a, i - 1);
      BitHalf(b, i - 1);
      OrBit(a / 2, b / 2, i - 1);
    }
  }

  lemma {:induction false} AndBound(a: nat, b: nat)
    ensures And(a, b) <= a && And(a, b) <= b
    decreases a
  {
    if a != 0 && b != 0 {
      AndBound(a / 2, b / 2);
    }
  }

  lemma {:induction false} OrBound(a: nat, b: nat, w: nat)
    requires a < Pow2(w) && b < Pow2(w)
    ensures Or(a, b) < Pow2(w)
    decreases a + b
  {
    if a != 0 && b != 0 {
      OrBound(a / 2, b / 2, w - 1);
    }
  }

  /** The w-bit complement of a flips each of its w low bits. */
  lemma {:induction false} ComplementBit(a: nat, w: nat, i: nat)
    requires a < Pow2(w) && i < w
    ensures Bit(Pow2(w) - 1 - a, i) == !Bit(a, i)
    decreases w
  {
    var c := Pow2(w) - 1 - a;
    assert c == 2 * (Pow2(w - 1) - 1 - a / 2) + (1 - a % 2);
    if i == 0 {
      BitZero(a);
      BitZero(c);
    } else {
      assert c / 2 == Pow2(w - 1) - 1 - a / 2;
      BitHalf(c, i - 1);
      BitHalf(a, i - 1);
      ComplementBit(a / 2, w - 1, i - 1);
    }
  }

  /** Dividing by a product is dividing twice. */
  lemma DivDiv(a: nat, p: nat, q: nat)
    requires p > 0 && q > 0
    ensures a / (p * q) == (a / p) / q
  {
    var s, t := (a / p) / q, (a / p) % q;
    assert a / p == q * s + t;
    assert a == (p * q) * s + (p * t + a % p) by {
      assert a == p * (a / p) + a % p;
    }
    assert p * t + a % p < p * q by {
      assert p * t <= p * (q - 1);
    }
    DivUnique(a, p * q, s, p * t + a % p);
  }

  /** a / 2^k, the bits of a from k upwards. */
  function Above(a: nat, k: nat): nat
  {
    DivNonNegative(a, Pow2(k));
    a / Pow2(k)
  }

  lemma DivNonNegative(a: nat, p: int)
    requires p > 0
    ensures a / p >= 0
  {
  }

  /** Rounding a down to a multiple of 2^k: the result is a multiple of
    * 2^k, at most a, and less than 2^k below it. */
  lemma AboveTimes(a: nat, k: nat)
    ensures Above(a, k) * Pow2(k) <= a < Above(a, k) * Pow2(k) + Pow2(k)
    ensures (Above(a, k) * Pow2(k)) % Pow2(k) == 0
  {
    var p := Pow2(k);
    assert a == p * (a / p) + a % p;
    DivUnique(Above(a, k) * p, p, Above(a, k), 0);
  }

  /** Bit j of a / 2^k is bit j + k of a. */
  lemma BitDiv(a: nat, k: nat, j: nat)
    ensures Bit(Above(a, k), j) == Bit(a, j + k)
  {
    Pow2Add(k, j);
    DivDiv(a, Pow2(k), Pow2(j));
    assert Pow2(j + k) == Pow2(k) * Pow2(j);
  }

  /** a * 2^k has the bits of a moved up by k places and none below k. */
  lemma BitMul(a: nat, k: nat, i: nat)
    ensures Bit(a * Pow2(k), i) == (i >= k && Bit(a, i - k))
  {
    var P := Pow2(k);
    if i >= k {
      var Q := Pow2(i - k);
      Pow2Add(k, i - k);
      assert Pow2(i) == P * Q;
      MulDivBoth(a, P, Q);
    } else {
      var R := Pow2(i);
      var m := Pow2(k - i - 1);
      Pow2Add(i, k - i);
      assert Pow2(k - i) == 2 * m;
      assert P == R * (2 * m);
      MulDivEven(a, R, m);
    }
  }

  lemma MulDivBoth(a: nat, p: nat, q: nat)
    requires p > 0 && q > 0
    ensures (a * p) / (p * q) == a / q
  {
    DivDiv(a * p, p, q);
    DivUnique(a * p, p, a, 0);
  }

  lemma MulDivEven(a: nat, r: nat, m: nat)
    requires r > 0
    ensures ((a * (r * (2 * m))) / r) % 2 == 0
  {
    assert a * (r * (2 * m)) == r * (2 * (a * m));
    DivUnique(a * (r * (2 * m)), r, 2 * (a * m), 0);
  }

  /** Or of two numbers without a common bit is their sum. */
  lemma {:induction false} OrDisjoint(a: nat, b: nat)
    requires forall i :: 0 <= i ==> !(Bit(a, i) && Bit(b, i))
    ensures Or(a, b) == a + b
    decreases a + b
  {
    if a != 0 && b != 0 {
      BitZero(a);
      BitZero(b);
      forall i | 0 <= i
        ensures !(Bit(a / 2, i) && Bit(b / 2, i))
      {
        BitHalf(a, i);
        BitHalf(b, i);
      }
      OrDisjoint(a / 2, b / 2);
    }
  }

  /** 2^k has exactly one bit set, bit k. */
  lemma PowerBit(k: nat, i: nat)
    ensures Bit(Pow2(k), i) == (i == k)
  {
    if i < k {
      Pow2Add(i, k - i);
      assert Pow2(k - i) == 2 * Pow2(k - i - 1);
      DivUnique(Pow2(k), Pow2(i), Pow2(k - i), 0);
    } else if i == k {
      DivUnique(Pow2(k), Pow2(i), 1, 0);
    } else {
      assert Pow2(k + 1) == 2 * Pow2(k);
      BitAbove(Pow2(k), k + 1, i);
    }
  }

  /** Masking with the single bit 2^k leaves something exactly when bit k
    * is set. */
  lemma AndPowerBit(a: nat, k: nat)
    ensures (And(a, Pow2(k)) != 0) == Bit(a, k)
  {
    var c := And(a, Pow2(k));
    AndBound(a, Pow2(k));
    assert Pow2(k + 1) == 2 * Pow2(k);
    forall i | 0 <= i < k + 1
      ensures Bit(c, i) == (i == k && Bit(a, k))
    {
      AndBit(a, Pow2(k), i);
      PowerBit(k, i);
    }
    NonZeroBit(c, k + 1);
    if Bit(a, k) {
      assert Bit(c, k);
    }
  }

  /** a & (2^w - 1) keeps the w low bits: it is a mod 2^w. */
  lemma {:induction false} AndLowBits(a: nat, w: nat)
    ensures And(a, Pow2(w) - 1) == a % Pow2(w)
    decreases a
  {
    if a != 0 && w != 0 {
      var m := Pow2(w) - 1;
      var h := Pow2(w - 1);
      assert m % 2 == 1 && m / 2 == h - 1;
      AndLowBits(a / 2, w - 1);
      assert And(a, m) == 2 * ((a / 2) % h) + a % 2;
      ModDouble(a, h);
    }
  }

  /** a mod 2h from a / 2 mod h and the low bit. */
  lemma ModDouble(a: nat, h: nat)
    requires h > 0
    ensures a % (2 * h) == 2 * ((a / 2) % h) + a % 2
  {
    var q := (a / 2) / h;
    var t := (a / 2) % h;
    assert a / 2 == h * q + t;
    assert a == (2 * h) * q + (2 * t + a % 2);
    DivUnique(a, 2 * h, q, 2 * t + a % 2);
  }

  // ---------------------------------------------------------------------
  // JavaScript's 32-bit operators
  // ---------------------------------------------------------------------

  /** The 32-bit pattern a bitwise operator sees for the number x. */
  function Pattern(x: int): (u: nat)
    ensures u < TWO_32
    ensures ToInt32(u) == ToInt32(x)
  {
    ToInt32Congruent(x % TWO_32, x);
    x % TWO_32
  }

  /** Reading back the pattern of a signed 32-bit result gives the bits. */
  lemma PatternOfInt32(u: nat)
    requires u < TWO_32
    ensures Pattern(ToInt32(u)) == u
  {
  }

  /** A non-negative number below 2^31 is its own pattern and its own
    * signed reading. */
  lemma SmallValue(x: int)
    requires 0 <= x < TWO_31
    ensures Pattern(x) == x && ToInt32(x) == x
  {
  }

  /** `x & y` */
  function JsAnd(x: int, y: int): (r: int)
    ensures Pattern(r) == And(Pattern(x), Pattern(y))
  {
    AndBound(Pattern(x), Pattern(y));
    ToInt32(And(Pattern(x), Pattern(y)))
  }

  /** `x | y` */
  function JsOr(x: int, y: int): (r: int)
    ensures Pattern(r) == Or(Pattern(x), Pattern(y))
  {
    Pow2Values();
    OrBound(Pattern(x), Pattern(y), 32);
    ToInt32(Or(Pattern(x), Pattern(y)))
  }

  /** `~x` */
  function JsNot(x: int): (r: int)
    ensures Pattern(r) == TWO_32 - 1 - Pattern(x)
  {
    ToInt32(TWO_32 - 1 - Pattern(x))
  }

  /** `x << s` */
  function JsShl(x: int, s: nat): (r: int)
    requires s < 32
    ensures Pattern(r) == (Pattern(x) * Pow2(s)) % TWO_32
  {
    ToInt32(Pattern(x) * Pow2(s))
  }

  /** `x >> s`, the sign-propagating shift. */
  function JsShr(x: int, s: nat): (r: int)
    requires s < 32
  {
    ToInt32(x) / Pow2(s)
  }

  /** `(x >> s) & 0xff` is the octet of x that starts at bit s, for the
    * shifts 0, 8, 16 and 24 that take a 32-bit value apart. */
  lemma ShiftMaskOctet(x: int, s: nat)
    requires s <= 24
    ensures JsAnd(JsShr(x, s), 0xff) == (x / Pow2(s)) % TWO_8
  {
    var y := JsShr(x, s);
    Pow2Values();
    AndLowBits(Pattern(y), 8);
    OctetOfShift(x, s);
    var c := And(Pattern(y), 0xff);
    assert c == Pattern(y) % TWO_8;
    assert JsAnd(y, 0xff) == ToInt32(c);
  }

  lemma OctetOfShift(x: int, s: nat)
    requires s <= 24
    ensures Pattern(JsShr(x, s)) % TWO_8 == (x / Pow2(s)) % TWO_8
  {
    var t := ToInt32(x);
    WrappedShift(x, s);
    PatternOctet(t / Pow2(s));
  }

  /** `(x >> 16) & 0xffff` and `x & 0xffff` are the high and the low half
    * of an unsigned 32-bit x, although for x >= 2^31 the shift works on a
    * negative number. */
  lemma SixteenBitHalves(x: int)
    requires 0 <= x < TWO_32
    ensures JsAnd(JsShr(x, 16), 0xffff) == x / TWO_16
    ensures JsAnd(x, 0xffff) == x % TWO_16
  {
    HighHalf(x);
    LowMask(x);
    NatPattern(x);
  }

  lemma NatPattern(x: int)
    requires 0 <= x < TWO_32
    ensures Pattern(x) == x
  {
    DivUnique(x, TWO_32, 0, x);
  }

  /** `y & 0xffff` is the low half of the 32-bit pattern of y. */
  lemma LowMask(y: int)
    ensures JsAnd(y, 0xffff) == Pattern(y) % TWO_16
  {
    Pow2Values();
    AndLowBits(Pattern(y), 16);
    SmallValue(0xffff);
    SmallValue(Pattern(y) % TWO_16);
  }

  lemma HighHalf(x: int)
    requires 0 <= x < TWO_32
    ensures JsAnd(JsShr(x, 16), 0xffff) == x / TWO_16
  {
    LowMask(JsShr(x, 16));
    if x < TWO_31 {
      SmallShift(x);
    } else {
      HighPattern(x);
    }
  }

  /** Below 2^31 the shift is a plain division. */
  lemma SmallShift(x: int)
    requires 0 <= x < TWO_31
    ensures Pattern(JsShr(x, 16)) % TWO_16 == x / TWO_16
  {
    Pow2Values();
    SmallValue(x);
    var h := x / TWO_16;
    assert JsShr(x, 16) == h;
    SmallValue(h);
    DivUnique(h, TWO_16, 0, h);
  }

  /** For x >= 2^31 the arithmetic shift gives a negative number whose
    * pattern still holds the high half of x in its low 16 bits. */
  lemma HighPattern(x: int)
    requires TWO_31 <= x < TWO_32
    ensures Pattern(JsShr(x, 16)) % TWO_16 == x / TWO_16
  {
    Pow2Values();
    var y := JsShr(x, 16);
    var h := x / TWO_16;
    assert ToInt32(x) == x - TWO_32;
    DivUnique(x - TWO_32, TWO_16, h - TWO_16, x % TWO_16);
    assert y == h - TWO_16;
    DivUnique(y, TWO_32, -1, y + TWO_32);
    assert Pattern(y) == TWO_16 * (TWO_16 - 1) + h;
    DivUnique(Pattern(y), TWO_16, TWO_16 - 1, h);
  }

  /** Shifting the 32-bit signed reading of x by s <= 24 leaves the same
    * low octet as shifting x. */
  lemma WrappedShift(x: int, s: nat)
    requires s <= 24
    ensures (ToInt32(x) / Pow2(s)) % TWO_8 == (x / Pow2(s)) % TWO_8
  {
    var p := Pow2(s);
    var n := Pow2(24 - s);
    var t := ToInt32(x);
    var k := (t - x) / TWO_32;
    assert t == x + k * TWO_32;
    Pow2Add(s, 24 - s);
    Pow2TwentyFour();
    ShiftedWrap(x, p, n, k);
  }

  lemma Pow2TwentyFour()
    ensures Pow2(24) == TWO_24
  {
    Pow2Values();
  }

  /** The low octet of a number is the low octet of its 32-bit pattern. */
  lemma PatternOctet(y: int)
    ensures Pattern(y) % TWO_8 == y % TWO_8
  {
    var a, u := y / TWO_32, y % TWO_32;
    var b, c := u / TWO_8, u % TWO_8;
    assert y == TWO_8 * (TWO_24 * a + b) + c;
    DivUnique(y, TWO_8, TWO_24 * a + b, c);
  }

  /** Adding a multiple of 2^32 before a shift by s <= 24 leaves the low
    * octet of the result unchanged. */
  lemma ShiftedWrap(x: int, p: nat, n: nat, k: int)
    requires p > 0 && p * n == TWO_24
    ensures ((x + k * TWO_32) / p) % TWO_8 == (x / p) % TWO_8
  {
    var j := k * (TWO_8 * n);
    assert k * TWO_32 == p * j by {
      assert TWO_32 == TWO_8 * TWO_24;
    }
    DivUnique(x + k * TWO_32, p, x / p + j, x % p);
    DivUnique(x / p + j, TWO_8, (x / p) / TWO_8 + k * n, (x / p) % TWO_8);
  }
}
