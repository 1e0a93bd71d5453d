/** floatuntidf: an unsigned 128-bit integer to binary64, rounding to nearest, ties to even; and what
    converting there and back does. */
module Rounding {
  import opened Powers
  import opened Conversions

  type UInt128 = a: nat | a < 0x1_0000_0000_0000_0000_0000_0000_0000_0000

  const MANTISSA_DIGITS: nat := 53

  /** __clzti2: leading zeros by 64-bit halves. */
  function LeadingZeros(a: UInt128): int {
    var high, low := a / TWO_64, a % TWO_64;
    if high == 0 then 64 + (64 - BitWidth(low)) else 64 - BitWidth(high)
  }

  /** `x | bit`. */
  function OrBit(x: nat, bit: bool): nat { if bit && x % 2 == 0 then x + 1 else x }

  /** The leading 55 bits of `a`, the last of them or-ed with everything below. */
  function Sticky(a: nat, sd: nat): nat
    requires sd > 53
  {
    if sd == 54 then 2 * a
    else if sd == 55 then a
    else
      var high := Shr(a, sd - 55);
      OrBit(high, a != Shl(high, sd - 55))
  }

  /** The rounding step: or P into R, add one, drop Q and R. */
  function DropTwo(t: nat): nat { (OrBit(t, t / 4 % 2 == 1) + 1) / 4 }

  /** The significand and exponent before packing. */
  function Parts(a: UInt128): (nat, nat)
    requires a > 0
  {
    SignificantDigits(a);
    var sd: nat := 128 - LeadingZeros(a);
    var e := sd - 1;
    if sd > MANTISSA_DIGITS then
      var t := DropTwo(Sticky(a, sd));
      if t / (2 * TWO_52) % 2 == 1 then (t / 2, e + 1) else (t, e)
    else (Shl(a, MANTISSA_DIGITS - sd), e)
  }

  /** The two 32-bit words of the result, put together. */
  function Packed(t: nat, e: nat): nat {
    var high := (e + 1023) * 0x10_0000 + t / TWO_32 % 0x10_0000;
    var low := t % TWO_32;
    high * TWO_32 + low
  }

  function FloatUnsigned(a: UInt128): Rep {
    if a == 0 then 0
    else
      PartsDenote(a);
      var (t, e) := Parts(a);
      PackedFields(t, e);
      Packed(t, e)
  }

  // ---- What rounding to nearest even means ----

  /** The distance between neighbouring binary64 numbers around `a`. */
  function Ulp(a: nat): nat { if BitWidth(a) <= 53 then 1 else Pow2(BitWidth(a) - 53) }

  /** `k` units is the multiple of the unit nearest to `a`, the even one of two. */
  ghost predicate NearestEven(a: nat, unit: nat, k: nat) {
    && -1 * unit <= 2 * (k * unit - a) <= unit
    && (2 * (k * unit - a) == unit || 2 * (k * unit - a) == -1 * unit ==> k % 2 == 0)
  }

  lemma {:induction false} SignificantDigits(a: UInt128)
    ensures 128 - LeadingZeros(a) == BitWidth(a) <= 128
  {
    Literal64();
    var high := a / TWO_64;
    ShrUnique(a, 64, high);
    if high > 0 {
      BitWidthShr(a, 64);
      WidthAtMost(high, 64);
    } else {
      WidthAtMost(a, 64);
    }
  }

  lemma {:induction false} WidthAtMost(x: nat, n: nat)
    requires x < Pow2(n)
    ensures BitWidth(x) <= n
  {
    if x > 0 {
      BitWidthBounds(x);
      if BitWidth(x) > n { Pow2Monotone(n, BitWidth(x) - 1); }
    }
  }

  /** The two dropped bits say on which side of the middle the remainder lies. */
  ghost predicate Classifies(t: nat, rem: nat, unit: nat) {
    && (t % 4 == 0 <==> rem == 0)
    && (t % 4 <= 1 <==> 2 * rem < unit)
    && (t % 4 == 2 <==> 2 * rem == unit)
    && (t % 4 == 3 <==> 2 * rem > unit)
  }

  /** `t` holds the quotient by the unit, and tells on which side of the middle the rest is. */
  ghost predicate Tells(t: nat, a: nat, q: nat, unit: nat) {
    t / 4 == q && q * unit <= a && Classifies(t, a - q * unit, unit)
  }

  lemma {:induction false} StickyClassifies(a: nat, sd: nat)
    requires sd > 53
    ensures Tells(Sticky(a, sd), a, Shr(a, sd - 53), Pow2(sd - 53))
  {
    if sd == 54 {
      StickyOne(a);
    } else if sd == 55 {
      StickyTwo(a);
    } else {
      StickyDeep(a, sd - 55);
    }
  }

  lemma {:induction false} StickyOne(a: nat)
    ensures Tells(2 * a, a, Shr(a, 1), Pow2(1))
  {
    assert Shr(a, 1) == a / 2 && Pow2(1) == 2;
  }

  lemma {:induction false} StickyTwo(a: nat)
    ensures Tells(a, a, Shr(a, 2), Pow2(2))
  {
    TwoMore(a, 0);
    assert Shr(a, 0) == a && Pow2(0) == 1;
  }

  lemma {:induction false} StickyDeep(a: nat, n: nat)
    requires n > 0
    ensures Tells(Sticky(a, n + 55), a, Shr(a, n + 2), Pow2(n + 2))
  {
    var high, p := Shr(a, n), Pow2(n);
    ShlIsProduct(high, n);
    ShrBounds(a, n);
    TwoMore(a, n);
    StickyLow(a, high, p);
  }

  lemma {:induction false} TwoMore(a: nat, n: nat)
    ensures Shr(a, n + 2) == Shr(a, n) / 4 && Pow2(n + 2) == 4 * Pow2(n)
  {
    assert Shr(a, n + 2) == Shr(a, n + 1) / 2 && Shr(a, n + 1) == Shr(a, n) / 2;
    assert Pow2(n + 2) == 2 * Pow2(n + 1);
  }

  lemma {:induction false} StickyLow(a: nat, high: nat, p: nat)
    requires p > 0 && high * p <= a < (high + 1) * p
    ensures Tells(OrBit(high, a != high * p), a, high / 4, 4 * p)
  {
    var q, z, l := high / 4, high % 4, a - high * p;
    assert high == 4 * q + z;
    assert high * p == q * (4 * p) + z * p;
    assert (high + 1) * p == high * p + p;
    LowBits(z, l, p);
    assert a - q * (4 * p) == z * p + l;
    assert OrBit(high, l != 0) % 4 == OrBit(z, l != 0) && OrBit(high, l != 0) / 4 == q;
  }

  lemma {:induction false} LowBits(z: nat, l: nat, p: nat)
    requires z < 4 && l < p
    ensures Classifies(OrBit(z, l != 0), z * p + l, 4 * p) && OrBit(z, l != 0) < 4
  {
    assert z == 0 || z == 1 || z == 2 || z == 3;
  }

  /** So the rounding step picks the nearest multiple, the even one of two. */
  lemma {:induction false} DropTwoRounds(a: nat, t: nat, unit: nat)
    requires unit > 0 && unit % 2 == 0
    requires var q := t / 4; q * unit <= a < (q + 1) * unit && Classifies(t, a - q * unit, unit)
    ensures NearestEven(a, unit, DropTwo(t)) && t / 4 <= DropTwo(t) <= t / 4 + 1
  {
    var q := t / 4;
    assert (q + 1) * unit == q * unit + unit;
    assert DropTwo(t) == if t % 4 == 3 || (t % 4 == 2 && q % 2 == 1) then q + 1 else q;
  }

  // ---- The result ----

  /** The rounded integer, in units of Ulp(a). */
  function Rounded(a: nat): nat { if BitWidth(a) <= 53 then a else DropTwo(Sticky(a, BitWidth(a))) }

  function Units(k: nat, unit: nat): nat { k * unit }

  function RoundedInteger(a: nat): nat { Units(Rounded(a), Ulp(a)) }

  lemma {:induction false} TopBits(a: nat)
    requires BitWidth(a) > 53
    ensures TWO_52 <= Shr(a, BitWidth(a) - 53) < 2 * TWO_52
  {
    var sd := BitWidth(a);
    var q := Shr(a, sd - 53);
    BitWidthBounds(a);
    ShrBounds(a, sd - 53);
    Pow2Monotone(sd - 53, sd - 1);
    BitWidthShr(a, sd - 53);
    BitWidthBounds(q);
    Literal52();
  }

  lemma {:induction false} RoundedIsNearest(a: nat)
    ensures NearestEven(a, Ulp(a), Rounded(a))
    ensures BitWidth(a) > 53 ==> TWO_52 <= Rounded(a) <= 2 * TWO_52
  {
    var sd := BitWidth(a);
    if sd > 53 {
      TopBits(a);
      StickyClassifies(a, sd);
      ShrBounds(a, sd - 53);
      assert Pow2(sd - 53) == 2 * Pow2(sd - 54);
      DropTwoRounds(a, Sticky(a, sd), Pow2(sd - 53));
    }
  }

  /** A short integer is shifted up to full width without change. */
  lemma {:induction false} NarrowDenotes(a: nat)
    requires 0 < BitWidth(a) <= 53 && a > 0
    ensures var sd := BitWidth(a); var t := Shl(a, 53 - sd);
            TWO_52 <= t < 2 * TWO_52 && t * Pow2(sd + 1021) == a * Pow2(1074)
  {
    var sd := BitWidth(a);
    BitWidthBounds(a);
    ShlIsProduct(a, 53 - sd);
    Literal52();
    Pow2Add(sd - 1, 53 - sd);
    Pow2Add(sd, 53 - sd);
    MulLess(Pow2(sd - 1), a, Pow2(53 - sd));
    MulLess(a, Pow2(sd), Pow2(53 - sd));
    Pow2Add(53 - sd, sd + 1021);
    MulAssoc(a, Pow2(53 - sd), Pow2(sd + 1021));
  }

  lemma {:induction false} WideDenotes(a: nat)
    requires BitWidth(a) > 53
    ensures var sd, k := BitWidth(a), Rounded(a);
            && k * Pow2(sd + 1021) == (k * Ulp(a)) * Pow2(1074)
            && (k == 2 * TWO_52 ==> TWO_52 * Pow2(sd + 1022) == (k * Ulp(a)) * Pow2(1074))
  {
    var sd, k := BitWidth(a), Rounded(a);
    Pow2Add(sd - 53, 1074);
    MulAssoc(k, Pow2(sd - 53), Pow2(1074));
    if k == 2 * TWO_52 {
      assert TWO_52 * (2 * Pow2(sd + 1021)) == (2 * TWO_52) * Pow2(sd + 1021);
    }
  }

  /** Significand and exponent denote the rounded integer, also when rounding carries. */
  lemma {:induction false} PartsDenote(a: UInt128)
    requires a > 0
    ensures var (t, e) := Parts(a);
            TWO_52 <= t < 2 * TWO_52 && e <= 128 && t * Pow2(e + 1022) == (Rounded(a) * Ulp(a)) * Pow2(1074)
  {
    SignificantDigits(a);
    if BitWidth(a) <= 53 {
      BitWidthBounds(a);
      NarrowDenotes(a);
    } else {
      WideParts(a);
      WideDenotes(a);
    }
  }

  /** A carry out of the top bit moves into the exponent. */
  lemma {:induction false} WideParts(a: UInt128)
    requires BitWidth(a) > 53 && a > 0
    ensures TWO_52 <= Rounded(a) <= 2 * TWO_52
    ensures Parts(a) == if Rounded(a) == 2 * TWO_52 then (TWO_52, BitWidth(a)) else (Rounded(a), BitWidth(a) - 1)
  {
    SignificantDigits(a);
    RoundedIsNearest(a);
    CarryBit(Rounded(a));
  }

  lemma {:induction false} CarryBit(t: nat)
    requires t <= 2 * TWO_52
    ensures t / (2 * TWO_52) % 2 == 1 <==> t == 2 * TWO_52
  {
  }

  lemma {:induction false} PackedFields(t: nat, e: nat)
    requires TWO_52 <= t < 2 * TWO_52 && e <= 128
    ensures Packed(t, e) == (e + 1023) * TWO_52 + (t - TWO_52) < TWO_63
    ensures BiasedExponent(Packed(t, e)) == e + 1023 && Fraction(Packed(t, e)) == t - TWO_52
  {
  }

  /** The result is a finite, non-negative number whose value is the nearest multiple of the spacing
      of binary64 numbers around the argument, the even one of two. */
  lemma {:induction false} FloatRounds(a: UInt128)
    requires a > 0
    ensures FloatUnsigned(a) < TWO_63 && Finite(FloatUnsigned(a))
    ensures exists k: nat :: NearestEven(a, Ulp(a), k) && Scaled(FloatUnsigned(a)) == (k * Ulp(a)) * Pow2(1074)
  {
    RoundedIsNearest(a);
    FloatDenotes(a);
  }

  /** The fields of a pattern determine its value. */
  lemma {:induction false} FieldsDenote(b: Rep, t: nat, e: nat)
    requires b < TWO_63 && TWO_52 <= t < 2 * TWO_52 && e <= 128
    requires BiasedExponent(b) == e + 1023 && Fraction(b) == t - TWO_52
    ensures !Sign(b) && Finite(b) && Scaled(b) == t * Pow2(e + 1022)
  {
    assert TWO_52 + Fraction(b) == t && BiasedExponent(b) - 1 == e + 1022;
  }

  lemma {:induction false} FloatFields(a: UInt128)
    requires a > 0
    ensures var (t, e), b := Parts(a), FloatUnsigned(a);
            && TWO_52 <= t < 2 * TWO_52 && e <= 128
            && b < TWO_63 && BiasedExponent(b) == e + 1023 && Fraction(b) == t - TWO_52
  {
    PartsDenote(a);
    PackedFields(Parts(a).0, Parts(a).1);
  }

  lemma {:induction false} FloatDenotes(a: UInt128)
    requires a > 0
    ensures var b := FloatUnsigned(a);
            b < TWO_63 && !Sign(b) && Finite(b) && Scaled(b) == (Rounded(a) * Ulp(a)) * Pow2(1074)
  {
    PartsDenote(a);
    FloatFields(a);
    FieldsDenote(FloatUnsigned(a), Parts(a).0, Parts(a).1);
  }

  /** Converting back gives `r`, or the largest integer when `r` is out of range. */
  ghost predicate GoesBackTo(b: Rep, r: nat) { FixUnsigned(b) == if r < TWO_128 then r else TWO_128 - 1 }

  /** There and back: the rounded integer, or the largest integer when rounding left the range. */
  lemma {:induction false} ThereAndBack(a: UInt128)
    requires a > 0
    ensures GoesBackTo(FloatUnsigned(a), RoundedInteger(a))
  {
    FloatDenotes(a);
    FixWhole(FloatUnsigned(a), RoundedInteger(a));
  }

  /** A pattern whose value is the integer `r` converts to `r`, or saturates. */
  lemma {:induction false} FixWhole(b: Rep, r: nat)
    requires !Sign(b) && Scaled(b) == r * Pow2(1074)
    ensures GoesBackTo(b, r)
  {
    FixUnsignedTruncates(b);
    WholeBelow(b, r);
    if r < TWO_128 { TruncatesWhole(b, r, FixUnsigned(b)); }
  }

  lemma {:induction false} WholeBelow(b: Rep, r: nat)
    requires Scaled(b) == r * Pow2(1074)
    ensures Below(b, 128) <==> r < TWO_128
  {
    WholeInRange(Scaled(b), r);
  }

  lemma {:induction false} WholeInRange(x: nat, r: nat)
    requires x == r * Pow2(1074)
    ensures x < Pow2(128 + 1074) <==> r < TWO_128
  {
    Literal128();
    Pow2Add(128, 1074);
    MulLess(r, TWO_128, Pow2(1074));
  }

  lemma {:induction false} TruncatesWhole(b: Rep, r: nat, q: nat)
    requires Scaled(b) == r * Pow2(1074) && Truncates(b, q)
    ensures q == r
  {
    MulLess(q, r + 1, Pow2(1074));
    MulLess(r, q + 1, Pow2(1074));
    MulLess(q, r, Pow2(1074));
  }

  /** The round trip is the identity exactly on multiples of the spacing and the largest integer. */
  lemma {:induction false} RoundTripMultiples(a: UInt128)
    ensures FixUnsigned(FloatUnsigned(a)) == a <==> (exists k: nat :: a == k * Ulp(a)) || a == TWO_128 - 1
  {
    if a == 0 {
      assert a == 0 * Ulp(a);
      ExponentIsUnbiased(0);
    } else {
      ThereAndBack(a);
      RoundedIsNearest(a);
      var k, u := Rounded(a), Ulp(a);
      if j: nat :| a == j * u {
        NearestOfMultiple(a, u, j, k);
      }
      if a == TWO_128 - 1 { LargestRounds(a); }
    }
  }

  lemma {:induction false} NearestOfMultiple(a: nat, unit: nat, j: nat, k: nat)
    requires unit > 0 && a == j * unit && NearestEven(a, unit, k)
    ensures k == j
  {
    if k > j { MulGap(j, k, unit); }
    if k < j { MulGap(k, j, unit); }
  }

  lemma {:induction false} LargestRounds(a: nat)
    requires a == TWO_128 - 1
    ensures Rounded(a) * Ulp(a) >= TWO_128
  {
    Literal128();
    BitWidthBounds(a);
    WidthAtMost(a, 128);
    if BitWidth(a) < 128 { Pow2Monotone(BitWidth(a), 127); }
    RoundedIsNearest(a);
    Pow2Add(53, 75);
    Literal52();
    Pow2Monotone(2, 75);
    NearestBelowMultiple(a, Pow2(75), Pow2(53), Rounded(a));
  }

  lemma {:induction false} NearestBelowMultiple(a: nat, unit: nat, j: nat, k: nat)
    requires unit > 2 && a + 1 == j * unit && NearestEven(a, unit, k)
    ensures k * unit >= j * unit
  {
    if k < j { MulGap(k, j, unit); } else { MulLess(j, k, unit); }
  }
}
