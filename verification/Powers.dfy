/** Powers of two and the few facts about products that shifting needs. */
module Powers {

  function Pow2(n: nat): (p: nat)
    ensures p > 0
  {
    if n == 0 then 1 else 2 * Pow2(n - 1)
  }

  lemma {:induction false} Pow2Add(m: nat, n: nat)
    ensures Pow2(m + n) == Pow2(m) * Pow2(n)
  {
    if m > 0 {
      Pow2Add(m - 1, n);
      Doubled(Pow2(m - 1), Pow2(n));
    }
  }

  lemma {:induction false} Doubled(x: nat, y: nat)
    ensures 2 * (x * y) == (2 * x) * y
  {
  }

  lemma {:induction false} Pow2Monotone(m: nat, n: nat)
    requires m <= n
    ensures Pow2(m) <= Pow2(n)
  {
    if m < n { Pow2Monotone(m, n - 1); }
  }

  lemma {:induction false} MulLess(x: nat, y: nat, k: nat)
    requires k > 0
    ensures x < y <==> x * k < y * k
    ensures x <= y <==> x * k <= y * k
  {
  }

  lemma {:induction false} MulGap(k: nat, j: nat, unit: nat)
    requires k < j
    ensures k * unit + unit <= j * unit
  {
    assert (k + 1) * unit == k * unit + unit;
    if unit > 0 { MulLess(k + 1, j, unit); }
  }

  /** Bounds survive scaling. */
  lemma {:induction false} Scale(r: nat, d: nat, x: nat, k: nat)
    requires k > 0 && r * d <= x < (r + 1) * d
    ensures r * (d * k) <= x * k < (r + 1) * (d * k)
  {
    MulLess(r * d, x, k);
    MulLess(x, (r + 1) * d, k);
    MulAssoc(r, d, k);
    MulAssoc(r + 1, d, k);
  }

  lemma {:induction false} MulAssoc(x: nat, y: nat, z: nat)
    ensures (x * y) * z == x * (y * z)
  {
  }

  // ---- Shifts ----

  function Shl(x: nat, n: nat): nat { if n == 0 then x else 2 * Shl(x, n - 1) }

  function Shr(x: nat, n: nat): nat { if n == 0 then x else Shr(x, n - 1) / 2 }

  lemma {:induction false} ShlIsProduct(x: nat, n: nat)
    ensures Shl(x, n) == x * Pow2(n)
  {
    if n > 0 {
      ShlIsProduct(x, n - 1);
      assert 2 * (x * Pow2(n - 1)) == x * (2 * Pow2(n - 1));
    }
  }

  lemma {:induction false} ShrBounds(x: nat, n: nat)
    ensures Shr(x, n) * Pow2(n) <= x < (Shr(x, n) + 1) * Pow2(n)
  {
    if n > 0 {
      ShrBounds(x, n - 1);
      var q, p := Shr(x, n - 1), Pow2(n - 1);
      var h := q / 2;
      MulAssoc(h, 2, p);
      MulAssoc(h + 1, 2, p);
      MulLess(2 * h, q, p);
      MulLess(q + 1, 2 * h + 2, p);
      assert h * 2 == 2 * h && (h + 1) * 2 == 2 * h + 2;
    }
  }

  lemma {:induction false} ShrSmall(x: nat, n: nat)
    ensures Shr(x, n) <= x
  {
    if n > 0 { ShrSmall(x, n - 1); }
  }

  /** The quotient by a power of two is determined by its bounds. */
  lemma {:induction false} ShrUnique(x: nat, n: nat, q: nat)
    requires q * Pow2(n) <= x < (q + 1) * Pow2(n)
    ensures Shr(x, n) == q
  {
    ShrBounds(x, n);
    var p, d := Shr(x, n), Pow2(n);
    MulLess(p, q + 1, d);
    MulLess(q, p + 1, d);
  }

  // ---- Bit width ----

  function BitWidth(n: nat): nat { if n == 0 then 0 else 1 + BitWidth(n / 2) }

  lemma {:induction false} BitWidthBounds(n: nat)
    requires n > 0
    ensures BitWidth(n) > 0 && Pow2(BitWidth(n) - 1) <= n < Pow2(BitWidth(n))
  {
    if n > 1 { BitWidthBounds(n / 2); }
  }

  lemma {:induction false} BitWidthShr(x: nat, n: nat)
    requires Shr(x, n) > 0
    ensures BitWidth(x) == n + BitWidth(Shr(x, n))
  {
    if n > 0 { BitWidthShr(x, n - 1); }
  }

  const TWO_32: nat := 0x1_0000_0000
  const TWO_52: nat := 0x10_0000_0000_0000
  const TWO_63: nat := 0x8000_0000_0000_0000
  const TWO_64: nat := 0x1_0000_0000_0000_0000
  const TWO_127: nat := 0x8000_0000_0000_0000_0000_0000_0000_0000
  const TWO_128: nat := 0x1_0000_0000_0000_0000_0000_0000_0000_0000

  lemma {:induction false} Literal16()
    ensures Pow2(16) == 0x1_0000
  {
    assert Pow2(8) == 0x100;
    Pow2Add(8, 8);
  }

  lemma {:induction false} Literal32()
    ensures Pow2(32) == TWO_32
  {
    Literal16();
    Pow2Add(16, 16);
  }

  lemma {:induction false} Literal52()
    ensures Pow2(52) == TWO_52 && Pow2(53) == 2 * TWO_52
  {
    Literal16();
    Literal32();
    Pow2Add(32, 16);
    Pow2Add(48, 4);
  }

  lemma {:induction false} Literal64()
    ensures Pow2(64) == TWO_64
  {
    Literal32();
    Pow2Add(32, 32);
  }

  lemma {:induction false} Literal128()
    ensures Pow2(127) == TWO_127 && Pow2(128) == TWO_128
  {
    Literal64();
    Pow2Add(64, 64);
    assert Pow2(128) == 2 * Pow2(127);
  }
}
