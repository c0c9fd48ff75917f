/** Congruence modulo q as a named relation, for algebra in which the remainder
    operator itself should stay out of sight. */
module Congruence {
  import opened ModArith

  ghost predicate Eq(a: int, b: int, q: Modulus)
  {
    a % q == b % q
  }

  lemma EqMul(a: int, b: int, c: int, d: int, q: Modulus)
    requires Eq(a, b, q) && Eq(c, d, q)
    ensures Eq(a * c, b * d, q)
  {
    MulCong(a, b, c, d, q);
  }

  lemma EqAdd(a: int, b: int, c: int, d: int, q: Modulus)
    requires Eq(a, b, q) && Eq(c, d, q)
    ensures Eq(a + c, b + d, q) && Eq(a - c, b - d, q)
  {
    AddCong(a, b, c, d, q);
  }

  lemma EqScale(k: int, a: int, b: int, q: Modulus)
    requires Eq(a, b, q)
    ensures Eq(k * a, k * b, q) && Eq(a * k, b * k, q)
  {
    MulCong(k, k, a, b, q);
    MulCong(a, b, k, k, q);
  }

  lemma EqMod(a: int, q: Modulus)
    ensures Eq(a % q, a, q)
  {
    ModMod(a, q);
  }

  lemma EqTrans(a: int, b: int, c: int, q: Modulus)
    requires Eq(a, b, q) && Eq(b, c, q)
    ensures Eq(a, c, q)
  {}

  lemma EqSame(a: int, q: Modulus)
    ensures Eq(a, a, q)
  {}

  lemma EqSym(a: int, b: int, q: Modulus)
    requires Eq(a, b, q)
    ensures Eq(b, a, q)
  {}

  /** Reduced values are equal when they are congruent. */
  lemma EqReduced(a: int, b: int, q: Modulus)
    requires Eq(a, b, q) && 0 <= a < q && 0 <= b < q
    ensures a == b
  {
    SmallMod(a, q);
    SmallMod(b, q);
  }

  lemma EqDifference(a: int, b: int, q: Modulus)
    ensures Eq(a, b, q) <==> (a - b) % q == 0
  {
    if Eq(a, b, q) {
      AddCong(a, b, b, b, q);
    }
    if (a - b) % q == 0 {
      AddCong(a - b, 0, b, b, q);
    }
  }

  /** Dividing by the scale recovers the reduced coordinate. */
  lemma Unscale(X: int, x: int, s: int, i: int, q: Modulus)
    requires Eq(X, x * s, q) && Eq(s * i, 1, q) && 0 <= x < q
    ensures X * i % q == x
  {
    hide Eq;
    EqScale(i, X, x * s, q);
    EqScale(x, s * i, 1, q);
    assert x * s * i == x * (s * i);
    EqTrans(X * i, x * (s * i), x, q);
    EqMod(X * i, q);
    EqTrans(X * i % q, X * i, x, q);
    EqReduced(X * i % q, x, q);
  }
}
