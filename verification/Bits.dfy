/** Rounding up to an alignment with masks, on unbounded non-negative integers as in Python. */
module Bits {

  function Pow2(k: nat): (p: nat)
    ensures p >= 1
  {
    if k == 0 then 1 else 2 * Pow2(k - 1)
  }

  /** The low `k` bits of `x`. */
  function Low(x: nat, k: nat): (r: nat)
    ensures r < Pow2(k)
    decreases k
  {
    if k == 0 then 0 else 2 * Low(x / 2, k - 1) + x % 2
  }

  /** `x >> k` */
  function Shr(x: nat, k: nat): nat
    decreases k
  {
    if k == 0 then x else Shr(x / 2, k - 1)
  }

  /** The operator `x & ~m`, where `~m` has infinitely many leading ones. */
  function AndNot(x: nat, m: nat): nat {
    if x == 0 then 0
    else 2 * AndNot(x / 2, m / 2) + (if x % 2 == 1 && m % 2 == 0 then 1 else 0)
  }

  /** `align` of tools/relfile.py and tools/dolfile.py: `(value + alignment - 1) & ~(alignment - 1)`, where the mask
      for the alignment 0 is 0. */
  function Align(value: nat, alignment: nat): nat {
    if alignment == 0 then 0 else AndNot(value + alignment - 1, alignment - 1)
  }

  lemma {:induction false} AndNotZero(x: nat)
    ensures AndNot(x, 0) == x
  {
    if x > 0 { AndNotZero(x / 2); }
  }

  /** `x & ~(2^k - 1)` clears the low `k` bits. */
  lemma {:induction false} AndNotLowMask(x: nat, k: nat)
    ensures AndNot(x, Pow2(k) - 1) + Low(x, k) == x
    decreases k
  {
    if k == 0 {
      AndNotZero(x);
    } else {
      AndNotLowMask(x / 2, k - 1);
    }
  }

  /** The bits above the low `k` are a multiple of `2^k`. */
  lemma {:induction false} HighIsMultiple(x: nat, k: nat)
    ensures x - Low(x, k) == Shr(x, k) * Pow2(k)
    decreases k
  {
    if k > 0 {
      HighIsMultiple(x / 2, k - 1);
      MulTwice(Shr(x, k), Pow2(k - 1));
    }
  }

  lemma MulTwice(x: int, p: int)
    ensures x * (2 * p) == 2 * (x * p)
  {
  }

  lemma DivModUnique(x: int, d: int, q: int, r: int)
    requires 0 <= r < d && x == q * d + r
    ensures x / d == q && x % d == r
  {
    MulAway(x / d - q, d);
    assert (x / d - q) * d == r - x % d;
  }

  /** A product with a positive number is at least that number away from zero. */
  lemma MulAway(k: int, d: int)
    requires d >= 0
    ensures k >= 1 ==> k * d >= d
    ensures k <= -1 ==> k * d <= 0 - d
  {
    if k >= 1 { MulNonNegative(k - 1, d); }
    if k <= -1 { MulNonNegative(-k - 1, d); }
  }

  lemma MulNonNegative(a: int, b: int)
    requires a >= 0 && b >= 0
    ensures a * b >= 0
  {
  }

  /** For a power of two, `Align` is the least multiple of the alignment that is not below the value. */
  lemma AlignIsLeastMultiple(value: nat, k: nat)
    ensures value <= Align(value, Pow2(k)) < value + Pow2(k)
    ensures Align(value, Pow2(k)) % Pow2(k) == 0
    ensures forall m: nat | m >= value && m % Pow2(k) == 0 :: Align(value, Pow2(k)) <= m
  {
    var p, a := Pow2(k), Align(value, Pow2(k));
    AlignCut(value, k);
    forall m: nat | m >= value && m % p == 0 ensures a <= m {
      NoMultipleBetween(a, m, p);
    }
  }

  lemma AlignCut(value: nat, k: nat)
    ensures value <= Align(value, Pow2(k)) < value + Pow2(k)
    ensures Align(value, Pow2(k)) % Pow2(k) == 0
  {
    var p, x := Pow2(k), value + Pow2(k) - 1;
    AndNotLowMask(x, k);
    HighIsMultiple(x, k);
    DivModUnique(Align(value, p), p, Shr(x, k), 0);
  }

  lemma NoMultipleBetween(a: nat, m: nat, p: nat)
    requires p >= 1 && a % p == 0 && m % p == 0 && m > a - p
    ensures a <= m
  {
    MulAway(a / p - m / p, p);
    assert (a / p - m / p) * p == a - m;
  }

  predicate IsPow2(a: nat) {
    a == 1 || (a > 1 && a % 2 == 0 && IsPow2(a / 2))
  }

  lemma {:induction false} Exponent(a: nat) returns (k: nat)
    requires IsPow2(a)
    ensures a == Pow2(k)
  {
    if a == 1 {
      k := 0;
    } else {
      k := Exponent(a / 2);
      k := k + 1;
    }
  }

  lemma AlignRounds(value: nat, a: nat)
    requires IsPow2(a)
    ensures value <= Align(value, a) < value + a && Align(value, a) % a == 0
  {
    var k := Exponent(a);
    AlignCut(value, k);
  }
}
