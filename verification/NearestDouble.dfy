/** The conversion from 128-bit integers compared with every binary64 number. */
module NearestDouble {
  import opened Powers
  import opened Conversions
  import opened Rounding

  /** The argument in the units that values are measured in. */
  function InUnits(a: nat): nat { a * Pow2(1074) }

  function Distance(x: nat, y: nat): nat { if x < y then y - x else x - y }

  /** Two different numbers, equally near to `x`. */
  predicate Tied(y: nat, z: nat, x: nat) { y != z && Distance(y, x) == Distance(z, x) }

  ghost predicate NonNegative(b: Rep) { Finite(b) && !Sign(b) }

  // ---- Multiples of the spacing ----

  /** `k` units is at most half a unit off. */
  ghost predicate HalfAway(x: nat, unit: nat, k: nat) { 2 * Distance(k * unit, x) <= unit }

  lemma {:induction false} OtherMultiple(x: nat, unit: nat, k: nat, j: nat)
    requires HalfAway(x, unit, k) && j != k
    ensures Distance(j * unit, x) >= Distance(k * unit, x)
    ensures Distance(j * unit, x) == Distance(k * unit, x) ==> 2 * Distance(k * unit, x) == unit
  {
    if j > k { MulGap(k, j, unit); } else { MulGap(j, k, unit); }
  }

  /** Measuring in finer units scales the distance. */
  lemma {:induction false} DistanceScaled(x: nat, y: nat, p: nat)
    ensures Distance(x * p, y * p) == Distance(x, y) * p
  {
    if x < y { Difference(y, x, p); } else { Difference(x, y, p); }
  }

  lemma {:induction false} Difference(x: nat, y: nat, p: nat)
    requires x >= y
    ensures x * p >= y * p && x * p - y * p == (x - y) * p
  {
    assert x == y + (x - y);
    assert (y + (x - y)) * p == y * p + (x - y) * p;
  }

  lemma {:induction false} SameProduct(x: nat, y: nat, p: nat)
    requires p > 0
    ensures x * p == y * p <==> x == y
  {
    MulLess(x, y, p);
    MulLess(y, x, p);
  }

  lemma {:induction false} NearestScaled(a: nat, u: nat, k: nat, p: nat)
    requires NearestEven(a, u, k) && p > 0
    ensures HalfAway(a * p, u * p, k)
    ensures 2 * Distance(k * (u * p), a * p) == u * p ==> k % 2 == 0
  {
    var d := Distance(k * u, a);
    MulAssoc(k, u, p);
    DistanceScaled(k * u, a, p);
    MulAssoc(2, d, p);
    MulLess(2 * d, u, p);
    SameProduct(2 * d, u, p);
  }

  // ---- Where the binary64 numbers are ----

  /** From the power of two below `a` on, they are multiples of the spacing around `a`. */
  lemma {:induction false} LargeIsMultiple(b: Rep, w: nat) returns (j: nat)
    requires w > 53 && BiasedExponent(b) >= w + 1022
    ensures Scaled(b) == j * Pow2(w + 1021)
  {
    var n := BiasedExponent(b) - 1 - (w + 1021);
    Pow2Add(n, w + 1021);
    MulAssoc(Significand(b), Pow2(n), Pow2(w + 1021));
    j := Significand(b) * Pow2(n);
  }

  /** Smaller ones are below it. */
  lemma {:induction false} SmallIsBelow(b: Rep, w: nat)
    requires w > 53 && BiasedExponent(b) < w + 1022
    ensures Scaled(b) < TWO_52 * Pow2(w + 1021)
  {
    var e := BiasedExponent(b);
    assert Pow2(w + 1021) == 2 * Pow2(w + 1020);
    if e > 0 {
      Pow2Monotone(e - 1, w + 1020);
      SmallProduct(Significand(b), Pow2(e - 1), Pow2(w + 1020));
    } else {
      SmallProduct(Fraction(b), 1, Pow2(w + 1020));
    }
  }

  lemma {:induction false} SmallProduct(s: nat, p: nat, q: nat)
    requires s < 2 * TWO_52 && 0 < p <= q
    ensures s * p < TWO_52 * (2 * q)
  {
    MulLess(s, 2 * TWO_52, p);
    assert (2 * TWO_52) * p <= (2 * TWO_52) * q;
  }

  lemma {:induction false} PowerBelow(a: nat)
    requires BitWidth(a) > 53
    ensures TWO_52 * Pow2(BitWidth(a) + 1021) <= InUnits(a)
  {
    var w := BitWidth(a);
    BitWidthBounds(a);
    Literal52();
    Pow2Add(52, w + 1021);
    Pow2Add(w - 1, 1074);
    MulLess(Pow2(w - 1), a, Pow2(1074));
  }

  // ---- The nearest ----

  lemma {:induction false} WideHalfAway(a: UInt128)
    requires BitWidth(a) > 53
    ensures HalfAway(InUnits(a), Pow2(BitWidth(a) + 1021), Rounded(a))
    ensures 2 * Distance(Rounded(a) * Pow2(BitWidth(a) + 1021), InUnits(a)) == Pow2(BitWidth(a) + 1021) ==>
              Rounded(a) % 2 == 0
  {
    RoundedIsNearest(a);
    Pow2Add(BitWidth(a) - 53, 1074);
    NearestScaled(a, Ulp(a), Rounded(a), Pow2(1074));
  }

  lemma {:induction false} WideValue(a: UInt128)
    requires BitWidth(a) > 53 && a > 0
    ensures Scaled(FloatUnsigned(a)) == Rounded(a) * Pow2(BitWidth(a) + 1021)
  {
    FloatDenotes(a);
    WideDenotes(a);
  }

  lemma {:induction false} EvenFraction(a: UInt128)
    requires BitWidth(a) > 53 && a > 0 && Rounded(a) % 2 == 0
    ensures Fraction(FloatUnsigned(a)) % 2 == 0
  {
    WideParts(a);
    FloatFields(a);
    EvenLess(Parts(a).0);
  }

  lemma {:induction false} EvenLess(t: nat)
    requires t >= TWO_52 && t % 2 == 0
    ensures (t - TWO_52) % 2 == 0
  {
  }

  /** The conversion gives the binary64 number nearest to the integer: no finite non-negative one is
      nearer, and of two equally near ones it is the one with an even fraction. */
  lemma {:induction false} FloatIsNearest(a: UInt128, b: Rep)
    requires NonNegative(b)
    ensures NonNegative(FloatUnsigned(a))
    ensures Distance(Scaled(FloatUnsigned(a)), InUnits(a)) <= Distance(Scaled(b), InUnits(a))
    ensures Tied(Scaled(FloatUnsigned(a)), Scaled(b), InUnits(a)) ==> Fraction(FloatUnsigned(a)) % 2 == 0
  {
    if a > 0 {
      FloatDenotes(a);
      if BitWidth(a) > 53 {
        WideValue(a);
        WideNearest(a, b);
        if Rounded(a) % 2 == 0 { EvenFraction(a); }
      } else {
        assert Rounded(a) * Ulp(a) == a;
      }
    }
  }

  lemma {:induction false} WideNearest(a: UInt128, b: Rep)
    requires BitWidth(a) > 53
    ensures var k, x := Rounded(a) * Pow2(BitWidth(a) + 1021), InUnits(a);
            && Distance(k, x) <= Distance(Scaled(b), x)
            && (Tied(k, Scaled(b), x) ==> Rounded(a) % 2 == 0)
  {
    var w := BitWidth(a);
    WideHalfAway(a);
    if BiasedExponent(b) >= w + 1022 {
      var j := LargeIsMultiple(b, w);
      if j != Rounded(a) { OtherMultiple(InUnits(a), Pow2(w + 1021), Rounded(a), j); }
    } else {
      SmallIsBelow(b, w);
      PowerBelow(a);
      if TWO_52 != Rounded(a) { OtherMultiple(InUnits(a), Pow2(w + 1021), Rounded(a), TWO_52); }
    }
  }

  // ---- There and back ----

  /** Some binary64 number is the integer. */
  ghost predicate Representable(a: nat) { exists b: Rep :: NonNegative(b) && Scaled(b) == InUnits(a) }

  /** An integer that is a binary64 number converts to it. */
  lemma {:induction false} RepresentableIsMultiple(a: UInt128, b: Rep)
    requires a > 0 && NonNegative(b) && Scaled(b) == InUnits(a)
    ensures a == Rounded(a) * Ulp(a)
  {
    var v := ValueIsNearest(a, b);
    NoDistance(v, Rounded(a) * Ulp(a), a, Pow2(1074));
  }

  lemma {:induction false} ValueIsNearest(a: UInt128, b: Rep) returns (v: nat)
    requires a > 0 && NonNegative(b)
    ensures v == (Rounded(a) * Ulp(a)) * Pow2(1074) && Distance(v, InUnits(a)) <= Distance(Scaled(b), InUnits(a))
  {
    FloatDenotes(a);
    FloatIsNearest(a, b);
    v := Scaled(FloatUnsigned(a));
  }

  lemma {:induction false} NoDistance(v: nat, r: nat, a: nat, p: nat)
    requires p > 0 && v == r * p && Distance(v, a * p) <= Distance(a * p, a * p)
    ensures r == a
  {
    SameProduct(r, a, p);
  }

  lemma {:induction false} MultipleIsRepresentable(a: UInt128, k: nat)
    requires a > 0 && a == k * Ulp(a)
    ensures Representable(a)
  {
    FloatDenotes(a);
    RoundedIsNearest(a);
    NearestOfMultiple(a, Ulp(a), k, Rounded(a));
    assert NonNegative(FloatUnsigned(a)) && Scaled(FloatUnsigned(a)) == InUnits(a);
  }

  lemma {:induction false} RepresentableExactly(a: UInt128)
    ensures Representable(a) <==> exists k: nat :: a == k * Ulp(a)
  {
    if a == 0 {
      assert NonNegative(0) && Scaled(0) == InUnits(0) && a == 0 * Ulp(a);
    } else {
      if b: Rep :| NonNegative(b) && Scaled(b) == InUnits(a) { RepresentableIsMultiple(a, b); }
      if k: nat :| a == k * Ulp(a) { MultipleIsRepresentable(a, k); }
    }
  }

  /** There and back is the identity exactly on the integers that are binary64 numbers and on the largest. */
  lemma {:induction false} RoundTripExact(a: UInt128)
    ensures FixUnsigned(FloatUnsigned(a)) == a <==> Representable(a) || a == TWO_128 - 1
  {
    RoundTripMultiples(a);
    RepresentableExactly(a);
  }
}
