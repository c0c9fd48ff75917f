/** Integers modulo a variable modulus.  Two integers are congruent when their
    remainders are equal, so congruence is an equality and chains by itself. */
module ModArith {

  type Modulus = q: int | 1 < q witness 2

  function Pow(b: int, n: nat): int
  {
    if n == 0 then 1 else b * Pow(b, n - 1)
  }

  function Exp2(n: nat): (r: nat)
    ensures r >= 1
  {
    if n == 0 then 1 else 2 * Exp2(n - 1)
  }

  lemma {:induction false} Exp2Monotone(a: nat, b: nat)
    requires a <= b
    ensures Exp2(a) <= Exp2(b)
    decreases b
  {
    if a < b {
      Exp2Monotone(a, b - 1);
    }
  }

  /** int.bit_length of a number that is not negative. */
  function BitLength(n: nat): nat
  {
    if n == 0 then 0 else 1 + BitLength(n / 2)
  }

  lemma BitLengthBounds(n: nat)
    ensures n < Exp2(BitLength(n))
    ensures n > 0 ==> BitLength(n) >= 1 && Exp2(BitLength(n) - 1) <= n
  {
    if n > 0 {
      BitLengthBounds(n / 2);
    }
  }

  // ----- remainders

  lemma RemainderUnique(k: int, r: int, q: Modulus)
    requires 0 <= r < q
    ensures (k * q + r) % q == r
    ensures (k * q + r) / q == k
  {
    var x := k * q + r;
    var d, m := x / q, x % q;
    assert x == q * d + m;
    assert (k - d) * q == m - r;
    if k - d >= 1 {
      MulGrows(k - d, q);
      assert false;
    } else if d - k >= 1 {
      assert (d - k) * q == r - m;
      MulGrows(d - k, q);
      assert false;
    }
  }

  lemma MulGrows(k: int, q: int)
    requires k >= 1 && q >= 0
    ensures k * q >= q
  {
    assert k * q == (k - 1) * q + q;
    assert (k - 1) * q >= 0;
  }

  lemma MulLe(a: int, b: int, k: int)
    requires a <= b && k >= 0
    ensures a * k <= b * k
  {
    var d := b - a;
    assert d * k >= 0;
    assert b * k == a * k + d * k;
  }

  lemma AddMultiple(a: int, k: int, q: Modulus)
    ensures (a + k * q) % q == a % q
  {
    var d, m := a / q, a % q;
    assert a + k * q == (d + k) * q + m;
    RemainderUnique(d + k, m, q);
  }

  /** A product from the half of its first factor. */
  lemma HalvedProduct(u: nat, a: nat)
    ensures u * a >= 0 && u / 2 * a >= 0 && 0 * a == 0
    ensures u * a == u / 2 * a + u / 2 * a + (if u % 2 == 1 then a else 0)
  {
    var h, b := u / 2, u % 2;
    assert u == h + h + b;
    DistributeThree(h, b, a);
    assert b == 0 || b == 1;
  }

  lemma DistributeThree(h: nat, b: nat, a: nat)
    ensures (h + h + b) * a == h * a + h * a + b * a && h * a >= 0
  {}

  /** Congruence from an explicit quotient. */
  lemma CongFrom(a: int, b: int, k: int, q: Modulus)
    requires a - b == k * q
    ensures a % q == b % q
  {
    AddMultiple(b, k, q);
  }

  /** The explicit quotient of a congruence. */
  lemma Quotient(a: int, b: int, q: Modulus) returns (k: int)
    requires a % q == b % q
    ensures a - b == k * q
  {
    k := a / q - b / q;
    assert a == q * (a / q) + a % q && b == q * (b / q) + b % q;
  }

  lemma ModMod(a: int, q: Modulus)
    ensures (a % q) % q == a % q
  {
    RemainderUnique(0, a % q, q);
  }

  lemma SmallMod(a: int, q: Modulus)
    requires 0 <= a < q
    ensures a % q == a
  {
    RemainderUnique(0, a, q);
  }

  lemma AddCong(a: int, b: int, c: int, d: int, q: Modulus)
    requires a % q == b % q && c % q == d % q
    ensures (a + c) % q == (b + d) % q
    ensures (a - c) % q == (b - d) % q
  {
    var k := Quotient(a, b, q);
    var l := Quotient(c, d, q);
    CongFrom(a + c, b + d, k + l, q);
    assert (k - l) * q == k * q - l * q;
    CongFrom(a - c, b - d, k - l, q);
  }

  lemma MulCong(a: int, b: int, c: int, d: int, q: Modulus)
    requires a % q == b % q && c % q == d % q
    ensures (a * c) % q == (b * d) % q
  {
    var k := Quotient(a, b, q);
    var l := Quotient(c, d, q);
    assert a * c - b * d == a * (c - d) + d * (a - b);
    assert a * (l * q) + d * (k * q) == (a * l + d * k) * q;
    CongFrom(a * c, b * d, a * l + d * k, q);
  }

  /** Reducing both factors first does not change a product modulo q. */
  lemma MulReduce(a: int, c: int, q: Modulus)
    ensures ((a % q) * (c % q)) % q == (a * c) % q
    ensures ((a % q) * c) % q == (a * c) % q
    ensures (a * (c % q)) % q == (a * c) % q
  {
    ModMod(a, q);
    ModMod(c, q);
    MulCong(a % q, a, c % q, c, q);
    MulCong(a % q, a, c, c, q);
    MulCong(a, a, c % q, c, q);
  }

  lemma AddReduce(a: int, c: int, q: Modulus)
    ensures (a % q + c % q) % q == (a + c) % q
    ensures (a % q + c) % q == (a + c) % q
    ensures (a + c % q) % q == (a + c) % q
    ensures (a % q - c % q) % q == (a - c) % q
    ensures (a % q - c) % q == (a - c) % q
    ensures (a - c % q) % q == (a - c) % q
  {
    ModMod(a, q);
    ModMod(c, q);
    AddCong(a % q, a, c % q, c, q);
    AddCong(a % q, a, c, c, q);
    AddCong(a, a, c % q, c, q);
  }

  /** A unit cancels modulo q. */
  lemma CancelUnit(u: int, v: int, a: int, b: int, q: Modulus)
    requires (u * v) % q == 1 % q
    requires (u * a) % q == (u * b) % q
    ensures a % q == b % q
  {
    MulCong(v, v, u * a, u * b, q);
    MulCong(u * v, 1, a, a, q);
    MulCong(u * v, 1, b, b, q);
    assert v * (u * a) == (u * v) * a && v * (u * b) == (u * v) * b;
  }

  lemma HalveQuotient(k: nat, m: nat)
    requires m >= 1
    ensures k / m >= 0 && k / (2 * m) == k / m / 2
  {
    var d, r := k / m, k % m;
    assert k == d * m + r;
    assert d == 2 * (d / 2) + d % 2;
    assert d * m == d / 2 * (2 * m) + d % 2 * m;
    RemainderUnique(d / 2, d % 2 * m + r, 2 * m);
  }

  lemma SmallQuotient(k: nat, m: nat)
    requires k < m
    ensures k / m == 0
  {}

  // ----- powers

  lemma FirstPower(z: int)
    ensures Pow(z, 1) == z
  {
    assert Pow(z, 1) == z * Pow(z, 0);
  }

  lemma PowAdd(b: int, m: nat, n: nat)
    ensures Pow(b, m + n) == Pow(b, m) * Pow(b, n)
  {
    if m > 0 {
      PowAdd(b, m - 1, n);
    }
  }

  lemma PowMul(b: int, m: nat, n: nat)
    ensures m * n >= 0
    ensures Pow(b, m * n) == Pow(Pow(b, m), n)
    decreases n
  {
    if n > 0 {
      PowMul(b, m, n - 1);
      assert m * n == m + m * (n - 1);
      PowAdd(b, m, m * (n - 1));
    }
  }

  lemma PowCong(a: int, b: int, n: nat, q: Modulus)
    requires a % q == b % q
    ensures Pow(a, n) % q == Pow(b, n) % q
  {
    if n > 0 {
      PowCong(a, b, n - 1, q);
      MulCong(a, b, Pow(a, n - 1), Pow(b, n - 1), q);
    }
  }

  /** One squaring step of a modular power. */
  lemma PowDouble(b: int, n: nat, x: int, y: int, q: Modulus)
    requires Pow(b, n) % q == x % q
    requires (x * x) % q == y % q
    ensures Pow(b, 2 * n) % q == y % q
  {
    PowAdd(b, n, n);
    MulCong(Pow(b, n), x, Pow(b, n), x, q);
  }

  lemma Exp2Add(m: nat, n: nat)
    ensures Exp2(m + n) == Exp2(m) * Exp2(n)
  {
    if m > 0 {
      Exp2Add(m - 1, n);
    }
  }
}
