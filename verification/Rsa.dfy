/** RSA keys and the blinded CRT private operation. */
module Rsa {
  import opened Options
  import opened ModArith
  import opened Congruence
  import opened Primes

  // ----- greatest common divisors

  /** g = gcd(a, b) = a x + b y. */
  datatype Bezout = Bezout(g: nat, x: int, y: int)

  function ExtendedGcd(a: nat, b: nat): (r: Bezout)
    requires a > 0 || b > 0
    ensures r.g >= 1 && a * r.x + b * r.y == r.g
    ensures a % r.g == 0 && b % r.g == 0
    decreases b
  {
    if b == 0 then Bezout(a, 1, 0)
    else
      var s := ExtendedGcd(b, a % b);
      GcdStep(a, b, s);
      Bezout(s.g, s.y, s.x - a / b * s.y)
  }

  lemma GcdStep(a: nat, b: nat, s: Bezout)
    requires b > 0 && s.g >= 1 && b * s.x + a % b * s.y == s.g && b % s.g == 0 && a % b % s.g == 0
    ensures a * s.y + b * (s.x - a / b * s.y) == s.g && a % s.g == 0
  {
    var q, m := a / b, a % b;
    assert a == b * q + m;
    BezoutIdentity(a, b, q, m, s.x, s.y);
    if s.g > 1 {
      SmallMod(0, s.g);
      MulCong(b, 0, q, q, s.g);
      AddCong(b * q, 0, m, 0, s.g);
    }
  }

  lemma BezoutIdentity(a: int, b: int, q: int, m: int, x: int, y: int)
    requires a == b * q + m
    ensures a * y + b * (x - q * y) == b * x + m * y
  {
    assert a * y == b * q * y + m * y;
    assert b * (x - q * y) == b * x - b * q * y;
  }

  function Gcd(a: nat, b: nat): nat
    requires a > 0 || b > 0
  {
    ExtendedGcd(a, b).g
  }

  /** math.lcm of positive numbers. */
  function Lcm(a: nat, b: nat): int
    requires a > 0 && b > 0
  {
    a / Gcd(a, b) * b
  }

  lemma LcmMultiple(a: nat, b: nat)
    requires a > 0 && b > 0
    ensures Lcm(a, b) == b * (a / Gcd(a, b)) == a * (b / Gcd(a, b))
    ensures a / Gcd(a, b) >= 0 && b / Gcd(a, b) >= 0
  {
    var g := ExtendedGcd(a, b).g;
    ExactDivision(a, g);
    ExactDivision(b, g);
    assert a / g * (g * (b / g)) == g * (a / g) * (b / g);
  }

  lemma ExactDivision(a: nat, g: nat)
    requires g >= 1 && a % g == 0
    ensures a == g * (a / g) && a / g >= 0
  {
    assert a == g * (a / g) + a % g;
  }

  /** pow(r, -1, n); None when r is not coprime to n. */
  function InverseMod(r: nat, n: nat): (i: Option<int>)
    requires n > 1
    ensures i.Some? <==> Gcd(r, n) == 1
    ensures i.Some? ==> 0 <= i.value < n && r * i.value % n == 1
  {
    var b := ExtendedGcd(r, n);
    if b.g != 1 then None
    else
      BezoutInverse(r, n, b);
      Some(b.x % n)
  }

  lemma BezoutInverse(r: nat, n: Modulus, b: Bezout)
    requires r * b.x + n * b.y == 1
    ensures r * (b.x % n) % n == 1
  {
    MulReduce(r, b.x, n);
    assert r * b.x - 1 == -b.y * n;
    CongFrom(r * b.x, 1, -b.y, n);
    SmallMod(1, n);
  }

  // ----- keys

  const MIN_KEY_BITS: nat := 1024

  datatype Key = Key(n: nat, e: nat, d: nat, p: nat, q: nat, dmp1: nat, dmq1: nat, iqmp: nat)

  /** _check_public_numbers. */
  predicate PublicNumbers(n: nat, e: nat)
  {
    n >= Exp2(MIN_KEY_BITS - 1) && n % 2 != 0 && e >= 3 && e % 2 != 0 && e < n
  }

  /** _check_private_numbers; p and q above one keep the remainders defined. */
  predicate PrivateNumbers(k: Key)
  {
    && PublicNumbers(k.n, k.e)
    && k.p * k.q == k.n
    && k.p > 1 && k.q > 1
    && k.dmp1 == k.d % (k.p - 1) && k.dmq1 == k.d % (k.q - 1)
    && k.iqmp * k.q % k.p == 1
    && k.e * k.d % Lcm(k.p - 1, k.q - 1) == 1
  }

  /** The facts about one prime factor that the private operation needs. */
  ghost predicate Factor(e: nat, d: nat, p: nat, dp: nat)
  {
    Prime(p) && p > 2 && e >= 1 && dp == d % (p - 1) && e * d % (p - 1) == 1
  }

  lemma OddFactor(p: nat, q: nat)
    requires p * q % 2 != 0
    ensures p % 2 != 0 && q % 2 != 0
  {
    if p % 2 == 0 {
      MulCong(p, 0, q, q, 2);
    }
    if q % 2 == 0 {
      MulCong(p, p, q, 0, 2);
    }
  }

  lemma OneModMultiple(x: nat, m: nat, l: nat, t: nat)
    requires m > 1 && l == m * t && l > 0 && x % l == 1
    ensures x % m == 1
  {
    var k := x / l;
    assert x == l * k + 1;
    assert l * k == t * k * m by { assert m * t * k == t * k * m; }
    RemainderUnique(t * k, 1, m);
  }

  lemma KeyFactors(k: Key)
    requires PrivateNumbers(k) && Prime(k.p) && Prime(k.q)
    ensures Factor(k.e, k.d, k.p, k.dmp1) && Factor(k.e, k.d, k.q, k.dmq1) && k.q % k.p != 0
  {
    var a, b := k.p - 1, k.q - 1;
    OddFactor(k.p, k.q);
    LcmMultiple(a, b);
    OneModMultiple(k.e * k.d, a, Lcm(a, b), b / Gcd(a, b));
    OneModMultiple(k.e * k.d, b, Lcm(a, b), a / Gcd(a, b));
    SmallMod(0, k.p);
    if k.q % k.p == 0 {
      MulCong(k.iqmp, k.iqmp, k.q, 0, k.p);
    }
  }

  // ----- the primitives

  function Rsaep(k: Key, m: nat): int
    requires k.n > 0
  {
    Pow(m, k.e) % k.n
  }

  /** _rsadp after the draw of the blinding factor r; None when the fault check fires or
      the factor is not invertible. */
  function Rsadp(k: Key, c: nat, r: nat): Option<int>
    requires k.n > 1 && k.p > 0 && k.q > 0
  {
    var blinded := c * (Pow(r, k.e) % k.n) % k.n;
    var m1 := Pow(blinded % k.p, k.dmp1) % k.p;
    var m2 := Pow(blinded % k.q, k.dmq1) % k.q;
    var h := k.iqmp * (m1 - m2) % k.p;
    var i :- InverseMod(r, k.n);
    var m := (m2 + h * k.q) * i % k.n;
    if Pow(m, k.e) % k.n != c % k.n then None else Some(m)
  }

  // ----- modulo one prime

  lemma {:induction false} PowBase(a: int, b: int, n: nat)
    ensures Pow(a * b, n) == Pow(a, n) * Pow(b, n)
  {
    if n > 0 {
      PowBase(a, b, n - 1);
      FourFactors(a, b, Pow(a, n - 1), Pow(b, n - 1));
    }
  }

  /** Reducing modulo a multiple of p first changes nothing modulo p. */
  lemma ReduceFirst(x: int, p: Modulus, q: nat)
    requires p * q > 1
    ensures x % (p * q) % p == x % p
  {
    var n := p * q;
    assert x == n * (x / n) + x % n;
    assert n * (x / n) == q * (x / n) * p by { assert p * q * (x / n) == q * (x / n) * p; }
    CongFrom(x, x % n, q * (x / n), p);
  }

  /** a^(e d) is a modulo p, for every a. */
  lemma PowRoundTrip(a: int, e: nat, d: nat, p: nat, dp: nat)
    requires Factor(e, d, p, dp)
    ensures e * d >= 0 && Eq(Pow(a, e * d), a, p)
  {
    MulLe(0, e, d);
    var k := e * d / (p - 1);
    DivNonNegative(e * d, p - 1);
    assert e * d == k * (p - 1) + 1;
    PowReduced(a, p, 1, k);
    assert Pow(a, 1) == a;
  }

  lemma DivNonNegative(x: nat, m: nat)
    requires m >= 1
    ensures x / m >= 0 && x == x / m * m + x % m
  {
    assert x == m * (x / m) + x % m;
  }

  /** The reduced exponent gives the full power: dp is never zero. */
  lemma ReducedExponent(a: int, e: nat, d: nat, p: nat, dp: nat)
    requires Factor(e, d, p, dp)
    ensures dp > 0 && Eq(Pow(a, dp), Pow(a, d), p)
  {
    if dp == 0 {
      SmallMod(0, p - 1);
      MulCong(e, e, d, 0, p - 1);
      assert false;
    }
    DivNonNegative(d, p - 1);
    PowReduced(a, p, dp, d / (p - 1));
  }

  /** One half of the CRT computation: the unblinded power times r. */
  lemma HalfPower(c: nat, r: nat, e: nat, d: nat, p: nat, q: nat, n: nat, dp: nat)
    requires Factor(e, d, p, dp) && q >= 1 && n == p * q && n > 1
    ensures Eq(Pow(c * (Pow(r, e) % n) % n % p, dp) % p, Pow(c, d) * r, p)
  {
    var re := Pow(r, e);
    var b := c * (re % n) % n % p;
    MulReduce(c, re, n);
    ReduceFirst(c * re, p, q);
    assert b == c * re % p;
    hide Factor;
    PowCong(b, c * re, dp, p) by { ModMod(c * re, p); }
    ReducedExponent(c * re, e, d, p, dp);
    PowBase(c, re, d);
    PowMul(r, e, d);
    PowRoundTrip(r, e, d, p, dp);
    hide Eq;
    EqScale(Pow(c, d), Pow(r, e * d), r, p);
    EqMod(Pow(b, dp), p);
    PowEq(b, c * re, dp, p);
    EqTrans(Pow(b, dp) % p, Pow(b, dp), Pow(c * re, dp), p);
    EqTrans(Pow(b, dp) % p, Pow(c * re, dp), Pow(c * re, d), p);
    EqTrans(Pow(b, dp) % p, Pow(c * re, d), Pow(c, d) * r, p);
  }

  lemma PowEq(a: int, b: int, k: nat, p: Modulus)
    requires Pow(a, k) % p == Pow(b, k) % p
    ensures Eq(Pow(a, k), Pow(b, k), p)
  {}

  // ----- both primes

  /** Congruent modulo both primes, so congruent modulo the product. */
  lemma Combine(x: int, y: int, p: nat, q: nat)
    requires Prime(p) && Prime(q) && q % p != 0 && Eq(x, y, p) && Eq(x, y, q)
    ensures p * q > 1 && Eq(x, y, p * q)
  {
    var t := Quotient(x, y, q);
    EqDifference(x, y, p);
    Euclid(t, q, p);
    var s := t / p;
    assert t == s * p;
    assert t * q == s * (p * q);
    MulGrows(p, q);
    CongFrom(x, y, s, p * q);
  }

  /** Garner's recombination. */
  lemma Garner(m1: int, m2: int, x: int, iqmp: int, p: nat, q: nat)
    requires Prime(p) && Prime(q) && q % p != 0 && iqmp * q % p == 1 && Eq(m1, x, p) && Eq(m2, x, q)
    ensures p * q > 1 && Eq(m2 + iqmp * (m1 - m2) % p * q, x, p * q)
  {
    var h := iqmp * (m1 - m2) % p;
    SmallMod(1, p);
    assert Eq(iqmp * q, 1, p);
    GarnerP(m1, m2, x, iqmp, h, p, q);
    CongFrom(m2 + h * q, m2, h, q);
    EqTrans(m2 + h * q, m2, x, q);
    Combine(m2 + h * q, x, p, q);
  }

  lemma GarnerP(m1: int, m2: int, x: int, iqmp: int, h: int, p: Modulus, q: nat)
    requires Eq(iqmp * q, 1, p) && Eq(m1, x, p) && h == iqmp * (m1 - m2) % p
    ensures Eq(m2 + h * q, x, p)
  {
    hide Eq;
    var d := m1 - m2;
    EqMod(iqmp * d, p);
    EqScale(q, h, iqmp * d, p);
    EqScale(d, iqmp * q, 1, p);
    GarnerProducts(iqmp, d, q, h);
    EqTrans(h * q, d * (iqmp * q), d, p);
    EqSame(m2, p);
    EqAdd(m2, m2, h * q, d, p);
    EqTrans(m2 + h * q, m1, x, p);
  }

  lemma GarnerProducts(iqmp: int, d: int, q: int, h: int)
    ensures h * q == q * h && q * (iqmp * d) == d * (iqmp * q)
  {}

  /** Unblinding. */
  lemma Unblind(y: int, x: int, r: int, i: int, n: Modulus)
    requires Eq(y, x * r, n) && r * i % n == 1
    ensures y * i % n == x % n
  {
    SmallMod(1, n);
    assert Eq(r * i, 1, n);
    EqScale(i, y, x * r, n);
    EqScale(x, r * i, 1, n);
    assert x * r * i == x * (r * i);
  }

  /** For every key that passes the checks and has prime factors, every c and every
      blinding factor coprime to n, the private operation returns c^d mod n and the
      fault check does not fire. */
  lemma RsadpCorrect(k: Key, c: nat, r: nat)
    requires PrivateNumbers(k) && Prime(k.p) && Prime(k.q)
    requires k.n > 1 && Gcd(r, k.n) == 1
    ensures Rsadp(k, c, r) == Some(Pow(c, k.d) % k.n)
  {
    KeyFactors(k);
    var x := Pow(c, k.d);
    var i := InverseMod(r, k.n).value;
    hide Factor, Pow, InverseMod, PublicNumbers, Lcm;
    var blinded := c * (Pow(r, k.e) % k.n) % k.n;
    var m1 := Pow(blinded % k.p, k.dmp1) % k.p;
    var m2 := Pow(blinded % k.q, k.dmq1) % k.q;
    HalfPower(c, r, k.e, k.d, k.p, k.q, k.n, k.dmp1);
    assert k.q * k.p == k.n;
    HalfPower(c, r, k.e, k.d, k.q, k.p, k.n, k.dmq1);
    Garner(m1, m2, x * r, k.iqmp, k.p, k.q);
    Unblind(m2 + k.iqmp * (m1 - m2) % k.p * k.q, x, r, i, k.n);
    PublicUndoesPrivate(k, c);
  }

  /** The public operation undoes the private one. */
  lemma PublicUndoesPrivate(k: Key, c: nat)
    requires PrivateNumbers(k) && Prime(k.p) && Prime(k.q) && k.n > 1
    ensures Pow(Pow(c, k.d) % k.n, k.e) % k.n == c % k.n
  {
    KeyFactors(k);
    hide Factor, PublicNumbers, Lcm;
    PowRoundTrip(c, k.e, k.d, k.p, k.dmp1);
    PowRoundTrip(c, k.e, k.d, k.q, k.dmq1);
    PowMul(c, k.d, k.e);
    assert k.d * k.e == k.e * k.d;
    Combine(Pow(c, k.e * k.d), c, k.p, k.q);
    ModMod(Pow(c, k.d), k.n);
    PowCong(Pow(c, k.d) % k.n, Pow(c, k.d), k.e, k.n);
  }

  /** The private operation undoes the public one. */
  lemma PrivateUndoesPublic(k: Key, m: nat, r: nat)
    requires PrivateNumbers(k) && Prime(k.p) && Prime(k.q) && k.n > 1 && Gcd(r, k.n) == 1 && m < k.n
    ensures Rsaep(k, m) >= 0 && Rsadp(k, Rsaep(k, m), r) == Some(m)
  {
    var c := Rsaep(k, m);
    RsadpCorrect(k, c, r);
    hide PrivateNumbers, Rsadp;
    PublicThenPrivate(k, m);
    ModMod(Pow(m, k.e), k.n);
    PowCong(c, Pow(m, k.e), k.d, k.n);
    SmallMod(m, k.n);
  }

  lemma PublicThenPrivate(k: Key, m: nat)
    requires PrivateNumbers(k) && Prime(k.p) && Prime(k.q) && k.n > 1
    ensures Pow(Pow(m, k.e), k.d) % k.n == m % k.n
  {
    KeyFactors(k);
    hide Factor, PublicNumbers, Lcm, Rsadp;
    PowRoundTrip(m, k.e, k.d, k.p, k.dmp1);
    PowRoundTrip(m, k.e, k.d, k.q, k.dmq1);
    PowMul(m, k.e, k.d);
    Combine(Pow(m, k.e * k.d), m, k.p, k.q);
  }
}
