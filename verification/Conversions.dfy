/** Conversions between binary64 bit patterns and 128-bit integers.

    Patterns and integers are naturals; masks are remainders and shifts are products and quotients by
    powers of two.  Every width the C code relies on is written out. */
module Conversions {
  import opened Powers

  /** A 64-bit pattern. */
  type Rep = a: nat | a < 0x1_0000_0000_0000_0000

  const SIGNIFICAND_BITS: nat := 52
  const EXPONENT_BIAS: nat := 1023

  // ---- The meaning of a pattern (IEEE 754-2008, section 3.4) ----

  function Sign(a: Rep): bool { a >= TWO_63 }
  function Magnitude(a: Rep): nat { a % TWO_63 }
  function BiasedExponent(a: Rep): nat { Magnitude(a) / TWO_52 }
  function Fraction(a: Rep): nat { Magnitude(a) % TWO_52 }
  predicate Finite(a: Rep) { BiasedExponent(a) < 2047 }

  /** The magnitude of the value in units of 2^-1074, the least positive binary64 number. */
  function Scaled(a: Rep): nat {
    if BiasedExponent(a) == 0 then Fraction(a)
    else (TWO_52 + Fraction(a)) * Pow2(BiasedExponent(a) - 1)
  }

  /** `r` is the magnitude of the value with its fractional part cut off. */
  ghost predicate Truncates(a: Rep, r: nat) {
    r * Pow2(1074) <= Scaled(a) < (r + 1) * Pow2(1074)
  }

  // ---- fixunsdfti and fixdfti ----

  /** Conversion to a 32-bit int keeps the low bits. */
  function ToInt32(x: nat): int {
    var low := x % TWO_32;
    if low < 0x8000_0000 then low else low - TWO_32
  }

  /** The exponent as the code computes it: 64-bit wrapping subtraction, then narrowed to int. */
  function Exponent(a: Rep): int {
    ToInt32((Magnitude(a) / TWO_52 + TWO_64 - EXPONENT_BIAS) % TWO_64)
  }

  function Significand(a: Rep): nat { Fraction(a) + TWO_52 }

  function FixUnsigned(a: Rep): nat {
    var exponent, significand := Exponent(a), Significand(a);
    if Sign(a) || exponent < 0 then 0
    else if exponent >= 128 then TWO_128 - 1
    else if exponent < SIGNIFICAND_BITS then Shr(significand, SIGNIFICAND_BITS - exponent)
    else Shl(significand, exponent - SIGNIFICAND_BITS) % TWO_128
  }

  datatype Defined<T> = Undefined | Value(value: T)

  /** The signed conversion; C gives a left shift a meaning only if the result is representable. */
  function FixSigned(a: Rep): Defined<int> {
    var exponent, significand := Exponent(a), Significand(a);
    var sign := if Sign(a) then -1 else 1;
    if exponent < 0 then Value(0)
    else if exponent >= 128 then Value(if sign == 1 then TWO_127 - 1 else -1 * TWO_127)
    else if exponent < SIGNIFICAND_BITS then Value(sign * Shr(significand, SIGNIFICAND_BITS - exponent))
    else
      var shifted := Shl(significand, exponent - SIGNIFICAND_BITS);
      if shifted < TWO_127 then Value(sign * shifted) else Undefined
  }

  /** The wrapped and narrowed exponent is the true one. */
  lemma {:induction false} ExponentIsUnbiased(a: Rep)
    ensures Exponent(a) == BiasedExponent(a) - EXPONENT_BIAS
    ensures BiasedExponent(a) < 2048
  {
    FieldFits(Magnitude(a));
    WrappedDifference(BiasedExponent(a));
  }

  lemma {:induction false} FieldFits(m: nat)
    requires m < TWO_63
    ensures m / TWO_52 < 2048
  {
  }

  /** The difference, wrapped to 64 bits and narrowed to 32, is the difference. */
  lemma {:induction false} WrappedDifference(x: nat)
    requires x < 2048
    ensures ToInt32((x + TWO_64 - EXPONENT_BIAS) % TWO_64) == x - EXPONENT_BIAS
  {
    if x >= EXPONENT_BIAS {
      assert (x + TWO_64 - EXPONENT_BIAS) % TWO_64 == x - EXPONENT_BIAS;
    } else {
      var wrapped := x + TWO_64 - EXPONENT_BIAS;
      assert wrapped % TWO_64 == wrapped;
      assert wrapped == 0xFFFF_FFFF * TWO_32 + (x + TWO_32 - EXPONENT_BIAS);
      assert wrapped % TWO_32 == x + TWO_32 - EXPONENT_BIAS;
    }
  }

  // ---- Truncation ----

  lemma {:induction false} SmallValue(a: Rep)
    requires BiasedExponent(a) < EXPONENT_BIAS
    ensures Truncates(a, 0)
  {
    BelowByExponent(a, 0);
  }

  lemma {:induction false} RightShiftTruncates(a: Rep, e: nat)
    requires BiasedExponent(a) == e + EXPONENT_BIAS && e < 52
    ensures Truncates(a, Shr(Significand(a), 52 - e))
  {
    var s := Significand(a);
    Pow2Add(52 - e, e + 1022);
    ShrBounds(s, 52 - e);
    Scale(Shr(s, 52 - e), Pow2(52 - e), s, Pow2(e + 1022));
  }

  lemma {:induction false} LeftShiftExact(a: Rep, e: nat)
    requires BiasedExponent(a) == e + EXPONENT_BIAS && e >= 52
    ensures Scaled(a) == Shl(Significand(a), e - 52) * Pow2(1074)
    ensures Truncates(a, Shl(Significand(a), e - 52))
  {
    var s, k := Significand(a), Pow2(e - 52);
    ShlIsProduct(s, e - 52);
    Pow2Add(e - 52, 1074);
    MulAssoc(s, k, Pow2(1074));
    MulLess(s * k, s * k + 1, Pow2(1074));
  }

  /** No bit is lost on the left below exponent 128, and bit 127 is only reached at exponent 127. */
  lemma {:induction false} LeftShiftFits(a: Rep, e: nat)
    requires 52 <= e < 128
    ensures Shl(Significand(a), e - 52) < TWO_128
    ensures Shl(Significand(a), e - 52) < TWO_127 <==> e < 127
  {
    var s, k := Significand(a), Pow2(e - 52);
    ShlIsProduct(s, e - 52);
    Literal52();
    Literal128();
    Pow2Add(53, e - 52);
    Pow2Add(52, e - 52);
    MulLess(s, Pow2(53), k);
    MulLess(Pow2(52), s, k);
    Pow2Monotone(e + 1, 128);
    if e < 127 { Pow2Monotone(e + 1, 127); }
  }

  lemma {:induction false} NormalBounds(s: nat, f: nat)
    requires TWO_52 <= s < 2 * TWO_52 && f > 0
    ensures Pow2(51 + f) <= s * Pow2(f - 1) < Pow2(52 + f)
  {
    Literal52();
    Pow2Add(53, f - 1);
    Pow2Add(52, f - 1);
    MulLess(s, Pow2(53), Pow2(f - 1));
    MulLess(Pow2(52), s, Pow2(f - 1));
  }

  /** The value is below 2^n. */
  ghost predicate Below(a: Rep, n: nat) { Scaled(a) < Pow2(n + 1074) }

  lemma {:induction false} BelowByExponent(a: Rep, n: nat)
    ensures Below(a, n) <==> BiasedExponent(a) < EXPONENT_BIAS + n
  {
    var f := BiasedExponent(a);
    if f == 0 {
      Literal52();
      Pow2Monotone(52, n + 1074);
    } else {
      NormalBounds(TWO_52 + Fraction(a), f);
      if f < 1023 + n { Pow2Monotone(52 + f, n + 1074); } else { Pow2Monotone(n + 1074, 51 + f); }
    }
  }

  /** The unsigned conversion truncates toward zero and saturates at both ends. */
  lemma {:induction false} FixUnsignedTruncates(a: Rep)
    ensures Sign(a) ==> FixUnsigned(a) == 0
    ensures !Sign(a) && Below(a, 128) ==> Truncates(a, FixUnsigned(a))
    ensures !Sign(a) && !Below(a, 128) ==> FixUnsigned(a) == TWO_128 - 1
  {
    ExponentIsUnbiased(a);
    BelowByExponent(a, 128);
    var e := Exponent(a);
    if !Sign(a) && e < 128 { FixUnsignedInRange(a, e); }
  }

  lemma {:induction false} FixUnsignedInRange(a: Rep, e: int)
    requires !Sign(a) && e == Exponent(a) && e < 128
    ensures Truncates(a, FixUnsigned(a))
  {
    ExponentIsUnbiased(a);
    if e < 0 {
      SmallValue(a);
    } else if e < 52 {
      RightShiftTruncates(a, e);
    } else {
      LeftShiftTruncates(a, e);
    }
  }

  lemma {:induction false} LeftShiftTruncates(a: Rep, e: nat)
    requires BiasedExponent(a) == e + EXPONENT_BIAS && 52 <= e < 128
    ensures Truncates(a, Shl(Significand(a), e - 52) % TWO_128)
  {
    LeftShiftFits(a, e);
    LeftShiftExact(a, e);
    NoWrap(Shl(Significand(a), e - 52));
  }

  lemma {:induction false} NoWrap(x: nat)
    requires x < TWO_128
    ensures x % TWO_128 == x
  {
  }

  // ---- Monotonicity ----

  lemma {:induction false} ScaledMonotone(a: Rep, b: Rep)
    requires a <= b < TWO_63
    ensures Scaled(a) <= Scaled(b)
  {
    var f, g := BiasedExponent(a), BiasedExponent(b);
    if f == g {
      if f > 0 { MulLess(TWO_52 + Fraction(a), TWO_52 + Fraction(b), Pow2(f - 1)); }
    } else {
      NormalBounds(TWO_52 + Fraction(b), g);
      if f == 0 {
        Literal52();
        Pow2Monotone(52, 51 + g);
      } else {
        NormalBounds(TWO_52 + Fraction(a), f);
        Pow2Monotone(52 + f, 51 + g);
      }
    }
  }

  lemma {:induction false} FixUnsignedFits(a: Rep)
    ensures FixUnsigned(a) < TWO_128
  {
    ExponentIsUnbiased(a);
    var e := Exponent(a);
    if 0 <= e < 52 { ShrSmall(Significand(a), 52 - e); }
  }

  /** Larger patterns never convert to smaller integers, across exponents, the change from right to
      left shifts, and saturation. */
  lemma {:induction false} FixUnsignedMonotone(a: Rep, b: Rep)
    requires a <= b < TWO_63
    ensures FixUnsigned(a) <= FixUnsigned(b)
  {
    FixUnsignedTruncates(a);
    FixUnsignedTruncates(b);
    FixUnsignedFits(a);
    ScaledMonotone(a, b);
    if Below(b, 128) { TruncatesOrdered(a, FixUnsigned(a), b, FixUnsigned(b)); }
  }

  lemma {:induction false} TruncatesOrdered(a: Rep, q: nat, b: Rep, r: nat)
    requires Truncates(a, q) && Truncates(b, r) && Scaled(a) <= Scaled(b)
    ensures q <= r
  {
    MulLess(q, r + 1, Pow2(1074));
  }

  // ---- The signed conversion ----

  /** The same value with the other sign. */
  function Flip(a: Rep): Rep { if Sign(a) then a - TWO_63 else a + TWO_63 }

  lemma {:induction false} MagnitudeTwice(a: Rep)
    ensures Magnitude(a) < TWO_63 && Magnitude(Magnitude(a)) == Magnitude(a)
  {
  }

  lemma {:induction false} FlipFacts(a: Rep)
    ensures Sign(Flip(a)) != Sign(a) && Magnitude(Flip(a)) == Magnitude(a)
  {
  }

  /** Patterns of one magnitude differ in the sign only. */
  lemma {:induction false} SameMagnitude(a: Rep, p: Rep)
    requires Magnitude(p) == Magnitude(a)
    ensures Exponent(p) == Exponent(a) && Significand(p) == Significand(a) && Scaled(p) == Scaled(a)
  {
    assert BiasedExponent(p) == BiasedExponent(a) && Fraction(p) == Fraction(a);
  }

  lemma {:induction false} MagnitudeFacts(a: Rep)
    ensures var p := Magnitude(a);
            !Sign(p) && Exponent(p) == Exponent(a) && Significand(p) == Significand(a) && Scaled(p) == Scaled(a)
    ensures Sign(Flip(a)) != Sign(a) && Magnitude(Flip(a)) == Magnitude(a)
  {
    MagnitudeTwice(a);
    FlipFacts(a);
    SameMagnitude(a, Magnitude(a));
  }

  function SignOf(a: Rep): int { if Sign(a) then -1 else 1 }

  /** The signed conversion has no defined result exactly for magnitudes from 2^127 up to 2^128. */
  lemma {:induction false} FixSignedDefined(a: Rep)
    ensures FixSigned(a).Undefined? <==> !Below(a, 127) && Below(a, 128)
  {
    ExponentIsUnbiased(a);
    BelowByExponent(a, 127);
    BelowByExponent(a, 128);
    var e := Exponent(a);
    if 52 <= e < 128 { LeftShiftFits(a, e); }
  }

  /** The least such magnitude, 2^127. */
  lemma {:induction false} FixSignedUndefined()
    ensures FixSigned(0x47E0_0000_0000_0000).Undefined?
  {
    var a: Rep := 0x47E0_0000_0000_0000;
    ExponentIsUnbiased(a);
    assert BiasedExponent(a) == 1150;
    LeftShiftFits(a, 127);
  }

  /** Within range the signed conversion is the unsigned one of the magnitude with the sign put back. */
  lemma {:induction false} FixSignedIsUnsigned(a: Rep)
    requires Exponent(a) < 127
    ensures FixSigned(a) == Value(SignOf(a) * FixUnsigned(Magnitude(a)))
  {
    MagnitudeFacts(a);
    if Exponent(a) >= 52 { ShiftedLeft(a, Magnitude(a)); }
  }

  lemma {:induction false} ShiftedLeft(a: Rep, p: Rep)
    requires 52 <= Exponent(a) < 127 && !Sign(p) && Exponent(p) == Exponent(a) && Significand(p) == Significand(a)
    ensures var shifted := Shl(Significand(a), Exponent(a) - 52);
            shifted < TWO_127 && FixUnsigned(p) == shifted && FixSigned(a) == Value(SignOf(a) * shifted)
  {
    LeftShiftFits(a, Exponent(a));
    NoWrap(Shl(Significand(a), Exponent(a) - 52));
  }

  /** The signed conversion truncates toward zero below 2^127; from 2^128 on, infinities and NaNs
      included, it gives the largest or least integer by sign. */
  lemma {:induction false} FixSignedTruncates(a: Rep)
    ensures Below(a, 127) ==>
              Truncates(a, FixUnsigned(Magnitude(a))) && FixSigned(a) == Value(SignOf(a) * FixUnsigned(Magnitude(a)))
    ensures !Below(a, 128) ==> FixSigned(a) == Value(if Sign(a) then -1 * TWO_127 else TWO_127 - 1)
  {
    ExponentIsUnbiased(a);
    BelowByExponent(a, 127);
    BelowByExponent(a, 128);
    if Below(a, 127) {
      FixSignedIsUnsigned(a);
      MagnitudeFacts(a);
      FixUnsignedInRange(Magnitude(a), Exponent(a));
    }
  }

  /** Flipping the sign bit negates the result. */
  lemma {:induction false} FixSignedOdd(a: Rep)
    requires Below(a, 127)
    ensures FixSigned(a).Value? && FixSigned(Flip(a)) == Value(-1 * FixSigned(a).value)
  {
    MagnitudeFacts(a);
    ExponentIsUnbiased(a);
    ExponentIsUnbiased(Flip(a));
    BelowByExponent(a, 127);
    FixSignedIsUnsigned(a);
    FixSignedIsUnsigned(Flip(a));
  }
}
