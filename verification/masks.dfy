/** Rounding an address up with a mask. */
module Masks {
  /** The least multiple of `a` that is at least `x`. */
  function AlignUp(x: nat, a: nat): (r: nat)
    requires a > 0
    ensures x <= r < x + a
  {
    if x % a == 0 then x else x - x % a + a
  }

  function Pow2(k: nat): (p: nat)
    ensures p > 0
  {
    if k == 0 then 1 else 2 * Pow2(k - 1)
  }

  /** `x & ~m`, bit by bit. */
  function AndNot(x: nat, m: nat): nat {
    if x == 0 then 0 else 2 * AndNot(x / 2, m / 2) + (if m % 2 == 1 then 0 else x % 2)
  }

  lemma {:induction false} AndNotZero(x: nat)
    ensures AndNot(x, 0) == x
    decreases x
  {
    if x > 0 { AndNotZero(x / 2); }
  }

  lemma HalfMod(x: nat, p: nat)
    requires p > 0
    ensures x % (2 * p) == 2 * ((x / 2) % p) + x % 2
  {
    var q, r := (x / 2) / p, (x / 2) % p;
    assert x / 2 == p * q + r;
    assert x == (2 * p) * q + (2 * r + x % 2);
    ModIs(x, 2 * p, q, 2 * r + x % 2);
  }

  lemma ModIs(x: nat, m: nat, q: nat, r: nat)
    requires m > 0 && x == m * q + r && r < m
    ensures x % m == r && x / m == q
  {
    var a, b := x / m, x % m;
    assert x == m * a + b;
    if a < q { StepGap(m, a, q); }
    if q < a { StepGap(m, q, a); }
  }

  lemma StepGap(m: nat, a: nat, b: nat)
    requires a < b
    ensures m * a + m <= m * b
  {
    assert m * b == m * a + m * (b - a);
    assert m * (b - a) == m + m * (b - a - 1);
  }

  lemma AndNotStep(x: nat, p: nat)
    requires p > 0
    ensures AndNot(x, 2 * p - 1) == 2 * AndNot(x / 2, p - 1)
  {
    assert (2 * p - 1) / 2 == p - 1 && (2 * p - 1) % 2 == 1;
  }

  /** Masking off the low bits below a power of two subtracts the remainder. */
  lemma {:induction false} AndNotMask(x: nat, k: nat)
    ensures AndNot(x, Pow2(k) - 1) == x - x % Pow2(k)
    decreases k
  {
    hide AndNot;
    if k == 0 {
      AndNotZero(x);
    } else {
      var p := Pow2(k - 1);
      AndNotMask(x / 2, k - 1);
      AndNotStep(x, p);
      HalfMod(x, p);
      var r, s := (x / 2) % p, x % (2 * p);
      assert AndNot(x / 2, p - 1) == x / 2 - r;
      assert s == 2 * r + x % 2;
    }
  }

  /** Rounding up by adding `p - 1` and subtracting the remainder. */
  lemma RoundingUp(raw: nat, p: nat)
    requires p > 0
    ensures raw + (p - 1) - (raw + (p - 1)) % p == AlignUp(raw, p)
  {
    var q, r := raw / p, raw % p;
    assert raw == p * q + r;
    if r == 0 {
      ModIs(raw + (p - 1), p, q, p - 1);
    } else {
      Distribute(p, q);
      ModIs(raw + (p - 1), p, q + 1, r - 1);
    }
  }

  lemma Distribute(p: nat, q: nat)
    ensures p * (q + 1) == p * q + p
  {
  }

  /** The address computation of malloc yields the least multiple of a power-of-two alignment. */
  lemma MaskIsAlignUp(raw: nat, k: nat)
    ensures Aligned(raw, Pow2(k)) == AlignUp(raw, Pow2(k))
  {
    hide AndNot, Pow2, AlignUp;
    AndNotMask(raw + (Pow2(k) - 1), k);
    RoundingUp(raw, Pow2(k));
  }

  /** AlignUp is a multiple of the alignment, and the least one. */
  lemma AlignUpLeast(x: nat, a: nat, m: nat)
    requires a > 0
    ensures AlignUp(x, a) % a == 0
    ensures x <= a * m ==> AlignUp(x, a) <= a * m
  {
    var q, r := x / a, x % a;
    assert x == a * q + r;
    var up := if r == 0 then q else q + 1;
    assert a * (q + 1) == a * q + a;
    ModIs(AlignUp(x, a), a, up, 0);
    if x <= a * m && m < up { StepGap(a, m, up); }
  }

  /** Masking takes away at most the mask. */
  lemma {:induction false} AndNotBounds(x: nat, m: nat)
    ensures AndNot(x, m) <= x <= AndNot(x, m) + m
    decreases x
  {
    if x > 0 { AndNotBounds(x / 2, m / 2); }
  }

  /** The address computation of malloc, for every alignment. */
  function Aligned(raw: nat, a: nat): (r: nat)
    requires a > 0
    ensures raw <= r < raw + a
    ensures a == 1 ==> r == raw
  {
    AndNotBounds(raw + (a - 1), a - 1);
    AndNotZero(raw);
    AndNot(raw + (a - 1), a - 1)
  }

  /** An alignment that is no power of two is not reached: 5 is no multiple of 3. */
  lemma NoPowerInput()
    ensures Aligned(5, 3) == 5
  {
    assert AndNot(1, 0) == 1 by { AndNotZero(1); }
    assert AndNot(3, 1) == 2 * AndNot(1, 0);
    assert AndNot(7, 2) == 2 * AndNot(3, 1) + 1;
  }
}
