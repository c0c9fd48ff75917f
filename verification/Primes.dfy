/** Prime moduli: inverses, Euclid's lemma and Fermat's little theorem. */
module Primes {
  import opened ModArith

  predicate Divides(d: int, n: int)
    requires d != 0
  {
    n % d == 0
  }

  ghost predicate Prime(p: int)
  {
    p >= 2 && forall d: int :: 2 <= d < p ==> !Divides(d, p)
  }

  // ----- inverses

  /** The inverse of a modulo a prime p, by repeated division. */
  function Inverse(a: int, p: int): (r: int)
    requires Prime(p) && 0 < a < p
    ensures 0 <= r < p && a * r % p == 1
    decreases a
  {
    if a == 1 then 1
    else
      assert !Divides(a, p);
      var q, m := p / a, p % a;
      InverseStep(a, p, Inverse(m, p));
      -q * Inverse(m, p) % p
  }

  lemma InverseStep(a: int, p: int, i: int)
    requires 1 < a < p && p % a * i % p == 1
    ensures a * (-(p / a) * i % p) % p == 1
  {
    var q, m := p / a, p % a;
    assert p == q * a + m;
    MulReduce(a, -q * i, p);
    InverseIdentity(a, p, q, m, i);
    CongFrom(a * (-q * i), m * i, -i, p);
  }

  lemma InverseIdentity(a: int, p: int, q: int, m: int, i: int)
    requires p == q * a + m
    ensures a * (-q * i) - m * i == -i * p
  {
    assert i * p == i * (q * a) + i * m;
  }

  /** A prime that divides a product divides a factor. */
  lemma Euclid(a: int, b: int, p: int)
    requires Prime(p) && a * b % p == 0
    ensures a % p == 0 || b % p == 0
  {
    if a % p != 0 {
      var i := Inverse(a % p, p);
      UndoFactor(a, b, i, p);
    }
  }

  lemma UndoFactor(a: int, b: int, i: int, p: Modulus)
    requires a % p * i % p == 1 && a * b % p == 0
    ensures b % p == 0
  {
    ModMod(a, p);
    SmallMod(0, p);
    SmallMod(1, p);
    MulReduce(a, i, p);
    CancelUnit(a, i, b, 0, p);
  }

  lemma NonZeroProduct(a: int, b: int, p: int)
    requires Prime(p) && a % p != 0 && b % p != 0
    ensures a * b % p != 0
  {
    if a * b % p == 0 {
      Euclid(a, b, p);
    }
  }

  lemma TwoNonZero(p: int)
    requires p > 2
    ensures 2 % p != 0
  {
    SmallMod(2, p);
  }

  /** A unit cancels from a congruence modulo a prime. */
  lemma Cancel(a: int, x: int, y: int, p: int)
    requires Prime(p) && a % p != 0 && a * x % p == a * y % p
    ensures x % p == y % p
  {
    var i := Inverse(a % p, p);
    MulReduce(a, i, p);
    SmallMod(1, p);
    CancelUnit(a, i, x, y, p);
  }

  // ----- Fermat's little theorem

  function Product(s: seq<int>): int
  {
    if s == [] then 1 else s[0] * Product(s[1..])
  }

  lemma {:induction false} ProductSplit(s: seq<int>, k: nat)
    requires k < |s|
    ensures Product(s) == s[k] * Product(s[..k] + s[k + 1..])
  {
    if k == 0 {
      assert s[..0] + s[1..] == s[1..];
    } else {
      ProductSplit(s[1..], k - 1);
      var rest := s[..k] + s[k + 1..];
      assert rest[1..] == s[1..][..k - 1] + s[1..][k..];
      Swap(s[0], s[k], Product(rest[1..]));
    }
  }

  lemma Swap(a: int, b: int, c: int)
    ensures a * (b * c) == b * (a * c)
  {}

  /** A product does not depend on the order of its factors. */
  lemma {:induction false} ProductPermuted(s: seq<int>, t: seq<int>)
    requires multiset(s) == multiset(t)
    ensures Product(s) == Product(t)
    decreases |s|
  {
    assert |s| == |multiset(s)| && |t| == |multiset(t)|;
    if s != [] {
      assert s[0] in multiset(t);
      var k :| 0 <= k < |t| && t[k] == s[0];
      var rest := t[..k] + t[k + 1..];
      RemoveOne(s, t, k);
      ProductPermuted(s[1..], rest);
      ProductSplit(t, k);
    }
  }

  lemma RemoveOne(s: seq<int>, t: seq<int>, k: nat)
    requires multiset(s) == multiset(t) && s != [] && k < |t| && t[k] == s[0]
    ensures multiset(s[1..]) == multiset(t[..k] + t[k + 1..])
  {
    assert s == [s[0]] + s[1..];
    assert t == t[..k] + [t[k]] + t[k + 1..];
    assert multiset(t[..k] + t[k + 1..]) == multiset(t[..k]) + multiset(t[k + 1..]);
    assert multiset(s[1..]) == multiset(s) - multiset{s[0]};
  }

  ghost predicate Distinct(s: seq<int>)
  {
    forall i, j :: 0 <= i < j < |s| ==> s[i] != s[j]
  }

  lemma {:induction false} OnceEach(s: seq<int>, x: int)
    requires Distinct(s)
    ensures multiset(s)[x] == if x in s then 1 else 0
  {
    if s != [] {
      OnceEach(s[1..], x);
      assert s == [s[0]] + s[1..];
    }
  }

  /** Distinct sequences with the same members are permutations of each other. */
  lemma SameMembers(s: seq<int>, t: seq<int>)
    requires Distinct(s) && Distinct(t) && forall x :: x in s <==> x in t
    ensures multiset(s) == multiset(t)
  {
    forall x ensures multiset(s)[x] == multiset(t)[x] {
      OnceEach(s, x);
      OnceEach(t, x);
    }
  }

  function Units(p: int): seq<int>
    requires p >= 1
  {
    seq(p - 1, i requires 0 <= i < p - 1 => i + 1)
  }

  function Scaled(a: int, s: seq<int>, p: int): seq<int>
    requires p >= 1
  {
    seq(|s|, i requires 0 <= i < |s| => a * s[i] % p)
  }

  lemma {:induction false} ScaledProduct(a: int, s: seq<int>, p: Modulus)
    ensures Product(Scaled(a, s, p)) % p == Pow(a, |s|) * Product(s) % p
  {
    if s != [] {
      var t := Scaled(a, s, p);
      assert t[1..] == Scaled(a, s[1..], p);
      ScaledProduct(a, s[1..], p);
      ModMod(a * s[0], p);
      MulCong(t[0], a * s[0], Product(t[1..]), Pow(a, |s| - 1) * Product(s[1..]), p);
      FourFactors(a, s[0], Pow(a, |s| - 1), Product(s[1..]));
    }
  }

  lemma FourFactors(a: int, b: int, c: int, d: int)
    ensures a * b * (c * d) == a * c * (b * d)
  {}

  lemma UnitMembers(p: int, x: int)
    requires p >= 1
    ensures x in Units(p) <==> 1 <= x < p
  {
    if 1 <= x < p {
      assert Units(p)[x - 1] == x;
    }
  }

  /** Multiplication by a unit permutes the units. */
  lemma ScaledUnits(a: int, p: int)
    requires Prime(p) && a % p != 0
    ensures multiset(Scaled(a, Units(p), p)) == multiset(Units(p))
  {
    var u, t := Units(p), Scaled(a, Units(p), p);
    forall i, j | 0 <= i < j < |t| ensures t[i] != t[j] {
      if t[i] == t[j] {
        Cancel(a, u[i], u[j], p);
        SmallMod(u[i], p);
        SmallMod(u[j], p);
      }
    }
    forall x ensures x in t <==> x in u {
      UnitMembers(p, x);
      if x in t {
        var i :| 0 <= i < |t| && t[i] == x;
        ScaledUnit(a, u[i], p);
      }
      if 1 <= x < p {
        var y := Preimage(a, x, p);
        assert u[y - 1] == y && t[y - 1] == x;
      }
    }
    SameMembers(t, u);
  }

  lemma ScaledUnit(a: int, x: int, p: int)
    requires Prime(p) && a % p != 0 && 1 <= x < p
    ensures 1 <= a * x % p < p
  {
    SmallMod(x, p);
    if a * x % p == 0 {
      Euclid(a, x, p);
    }
  }

  lemma Preimage(a: int, x: int, p: int) returns (y: int)
    requires Prime(p) && a % p != 0 && 1 <= x < p
    ensures 1 <= y < p && a * y % p == x
  {
    var i := Inverse(a % p, p);
    y := i * x % p;
    PreimageMaps(a, x, i, p);
    SmallMod(0, p);
    TimesZero(a, y);
  }

  lemma TimesZero(a: int, y: int)
    ensures y == 0 ==> a * y == 0
  {}

  lemma PreimageMaps(a: int, x: int, i: int, p: Modulus)
    requires a % p * i % p == 1 && 0 <= x < p
    ensures a * (i * x % p) % p == x
  {
    MulReduce(a, i, p);
    MulReduce(a, i * x, p);
    assert a * (i * x) == a * i * x;
    SmallMod(1, p);
    MulCong(a * i, 1, x, x, p);
    SmallMod(x, p);
  }

  lemma {:induction false} ProductOfUnits(s: seq<int>, p: int)
    requires Prime(p) && forall i :: 0 <= i < |s| ==> 1 <= s[i] < p
    ensures Product(s) % p != 0
  {
    if s == [] {
      SmallMod(1, p);
    } else {
      ProductOfUnits(s[1..], p);
      SmallMod(s[0], p);
      if Product(s) % p == 0 {
        Euclid(s[0], Product(s[1..]), p);
      }
    }
  }

  /** Fermat's little theorem. */
  lemma Fermat(a: int, p: int)
    requires Prime(p) && a % p != 0
    ensures Pow(a, p - 1) % p == 1
  {
    hide Product, Scaled, Pow;
    var u := Units(p);
    ScaledProduct(a, u, p);
    ScaledUnits(a, p);
    ProductPermuted(Scaled(a, u, p), u);
    ProductOfUnits(u, p);
    CancelProduct(Product(u), Pow(a, p - 1), p);
  }

  lemma CancelProduct(u: int, x: int, p: int)
    requires Prime(p) && u % p != 0 && u % p == x * u % p
    ensures x % p == 1
  {
    assert u * x == x * u && u * 1 == u;
    Cancel(u, x, 1, p);
    SmallMod(1, p);
  }

  /** Exponents may be reduced modulo p - 1. */
  lemma PowReduced(a: int, p: int, m: nat, k: nat)
    requires Prime(p)
    ensures k * (p - 1) >= 0
    ensures a % p != 0 ==> Pow(a, k * (p - 1) + m) % p == Pow(a, m) % p
    ensures a % p == 0 && m > 0 ==> Pow(a, k * (p - 1) + m) % p == Pow(a, m) % p == 0
  {
    MulLe(0, k, p - 1);
    if a % p != 0 {
      PowAdd(a, k * (p - 1), m);
      PowMul(a, p - 1, k);
      assert (p - 1) * k == k * (p - 1);
      Fermat(a, p);
      SmallMod(1, p);
      PowCong(Pow(a, p - 1), 1, k, p);
      PowOne(k);
      MulCong(Pow(a, k * (p - 1)), 1, Pow(a, m), Pow(a, m), p);
    } else if m > 0 {
      PowZero(a, m, p);
      PowZero(a, k * (p - 1) + m, p);
    }
  }

  lemma PowOne(k: nat)
    ensures Pow(1, k) == 1
  {}

  lemma PowZero(a: int, m: nat, p: Modulus)
    requires a % p == 0 && m > 0
    ensures Pow(a, m) % p == 0
  {
    SmallMod(0, p);
    MulCong(a, 0, Pow(a, m - 1), Pow(a, m - 1), p);
  }
}
