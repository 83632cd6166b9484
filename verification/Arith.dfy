/** Facts about products, quotients and powers that the proofs share. */
module Arith {
  lemma MulMonotone(b: int, x: int, y: int)
    requires b >= 0 && x <= y
    ensures b * x <= b * y
  {
  }

  /** Quotient and remainder are unique. */
  lemma {:induction false} DivModUnique(a: int, d: int, q: int, r: int)
    requires d > 0 && a == d * q + r && 0 <= r < d
    ensures a / d == q && a % d == r
  {
    var q' := a / d;
    assert a == d * q' + a % d;
    assert d * (q' + 1) == d * q' + d && d * (q + 1) == d * q + d;
    if q' < q { MulMonotone(d, q' + 1, q); }
    if q < q' { MulMonotone(d, q + 1, q'); }
  }

  function Pow(b: nat, e: nat): nat {
    if e == 0 then 1 else b * Pow(b, e - 1)
  }

  lemma {:induction false} PowPositive(b: nat, e: nat)
    requires b > 0
    ensures Pow(b, e) > 0
  {
    if e == 0 {
    } else {
      PowPositive(b, e - 1);
      MulMonotone(b, 1, Pow(b, e - 1));
    }
  }

  lemma {:induction false} PowSum(b: nat, e: nat, f: nat)
    ensures Pow(b, e + f) == Pow(b, e) * Pow(b, f)
  {
    if e == 0 {
    } else {
      PowSum(b, e - 1, f);
      MulAssoc(b, Pow(b, e - 1), Pow(b, f));
    }
  }

  lemma MulAssoc(a: int, b: int, c: int)
    ensures a * b * c == a * (b * c)
  {
  }

  lemma Nested(p: int, q: int, a: int, b: int, c: int)
    ensures p * (q * a + b) + c == p * q * a + (p * b + c)
  {
  }

  /** The remainder by a product: first by one factor, then of the quotient by the other. */
  lemma {:induction false} ModProduct(x: nat, p: nat, q: nat)
    requires p > 0 && q > 0
    ensures p * q > 0
    ensures x % (p * q) == x % p + p * (x / p % q)
  {
    var h, l := x / p, x % p;
    var a, b := h / q, h % q;
    Nested(p, q, a, b, l);
    MulMonotone(p, b + 1, q);
    assert p * (b + 1) == p * b + p;
    MulMonotone(p, 0, b);
    DivModUnique(x, p * q, a, p * b + l);
  }
}
