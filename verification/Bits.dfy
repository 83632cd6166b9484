/** Words as natural numbers: shifts, masks, and the pieces of a word. */
module Bits {
  import opened Arith

  function Pow2(n: nat): (p: nat)
    ensures p >= 1
  {
    PowPositive(2, n);
    Pow(2, n)
  }

  function Shl(x: nat, n: nat): nat { x * Pow2(n) }

  function Shr(x: nat, n: nat): nat { x / Pow2(n) }

  /** The bitwise and of two words. */
  function And(a: nat, b: nat): nat {
    if a == 0 || b == 0 then 0 else (if a % 2 == 1 && b % 2 == 1 then 1 else 0) + 2 * And(a / 2, b / 2)
  }

  /** The mask of n bits: `(1 << n) - 1`. */
  function Mask(n: nat): nat { Pow2(n) - 1 }

  lemma MaskHalves(n: nat)
    requires n > 0
    ensures Mask(n) % 2 == 1 && Mask(n) / 2 == Mask(n - 1) && Pow2(n) == 2 * Pow2(n - 1)
  {
    var p := Pow2(n - 1);
    assert Pow2(n) == 2 * p;
    OddHalf(p);
  }

  lemma OddHalf(p: nat)
    requires p >= 1
    ensures (2 * p - 1) % 2 == 1 && (2 * p - 1) / 2 == p - 1
  {
  }

  lemma {:induction false} ModDouble(x: nat, p: nat)
    requires p > 0
    ensures x % (2 * p) == x % 2 + 2 * (x / 2 % p)
  {
    ModProduct(x, 2, p);
  }

  /** Masking keeps the low bits. */
  lemma {:induction false} AndMask(x: nat, n: nat)
    ensures And(x, Mask(n)) == x % Pow2(n)
  {
    if n == 0 {
    } else {
      MaskHalves(n);
      ModDouble(x, Pow2(n - 1));
      AndMask(x / 2, n - 1);
    }
  }

  /** A multiple of 2^n has no bit in common with a number below 2^n. */
  lemma {:induction false} AndHighLow(h: nat, n: nat, low: nat)
    requires low < Pow2(n)
    ensures And(Shl(h, n), low) == 0
  {
    if n == 0 {
    } else {
      var p := Pow2(n - 1);
      assert Shl(h, n) == 2 * Shl(h, n - 1) by { assert h * (2 * p) == 2 * (h * p); }
      AndHighLow(h, n - 1, low / 2);
    }
  }

  /** The low m + n bits are the low m bits and, above them, the next n bits. */
  lemma {:induction false} SplitLowBits(x: nat, m: nat, n: nat)
    ensures x % Pow2(m + n) == x % Pow2(m) + Shl(Shr(x, m) % Pow2(n), m)
  {
    PowSum(2, m, n);
    ModProduct(x, Pow2(m), Pow2(n));
  }

  // ---------- single bits ----------

  /** Bit k of a word. */
  predicate HasBit(x: nat, k: nat) {
    if k == 0 then x % 2 == 1 else HasBit(x / 2, k - 1)
  }

  lemma {:induction false} ZeroHasNoBit(k: nat)
    ensures !HasBit(0, k)
  {
    if k == 0 {
    } else {
      ZeroHasNoBit(k - 1);
    }
  }

  lemma {:induction false} AndHalves(a: nat, b: nat)
    requires a > 0 && b > 0
    ensures And(a, b) / 2 == And(a / 2, b / 2) && (And(a, b) % 2 == 1 <==> a % 2 == 1 && b % 2 == 1)
  {
  }

  /** The bitwise and works on every bit. */
  lemma {:induction false} AndBits(a: nat, b: nat, k: nat)
    ensures HasBit(And(a, b), k) <==> HasBit(a, k) && HasBit(b, k)
  {
    if a == 0 || b == 0 {
      ZeroHasNoBit(k);
    } else {
      AndHalves(a, b);
      if k > 0 { AndBits(a / 2, b / 2, k - 1); }
    }
  }

  /** The mask of n bits has the low n bits. */
  lemma {:induction false} MaskBits(n: nat, k: nat)
    ensures HasBit(Mask(n), k) <==> k < n
  {
    if n == 0 {
      ZeroHasNoBit(k);
    } else {
      MaskHalves(n);
      if k > 0 { MaskBits(n - 1, k - 1); }
    }
  }

  lemma {:induction false} ShlBits(x: nat, n: nat, k: nat)
    ensures HasBit(Shl(x, n), k) <==> k >= n && HasBit(x, k - n)
  {
    if n == 0 {
    } else {
      var p := Pow2(n - 1);
      assert Shl(x, n) == 2 * Shl(x, n - 1) by { assert x * (2 * p) == 2 * (x * p); }
      if k > 0 { ShlBits(x, n - 1, k - 1); }
    }
  }

  lemma {:induction false} DivDouble(x: nat, p: nat)
    requires p > 0
    ensures x / (2 * p) == x / 2 / p
  {
    var q, r := x / 2 / p, x / 2 % p;
    assert x == 2 * p * q + (2 * r + x % 2) by { assert 2 * (p * q) == 2 * p * q; }
    DivModUnique(x, 2 * p, q, 2 * r + x % 2);
  }

  lemma {:induction false} ShrBits(x: nat, n: nat, k: nat)
    ensures HasBit(Shr(x, n), k) <==> HasBit(x, n + k)
  {
    if n == 0 {
    } else {
      DivDouble(x, Pow2(n - 1));
      ShrBits(x / 2, n - 1, k);
    }
  }
}
