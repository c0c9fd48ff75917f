/** The twisted Edwards curve of eddsa.py: the affine law is complete and closed, the
    extended formulas compute it, and the fixed-length ladder is double-and-add. */
module EdCurve {
  import opened ModArith
  import opened Primes
  import opened Congruence

  /** -x^2 + y^2 = 1 + d x^2 y^2 over a prime field; i is a square root of -1. */
  datatype Ed = Ed(p: int, d: int, i: int) {
    ghost predicate Valid()
    {
      && Prime(p) && p % 8 == 5
      && Eq(i * i, -1, p)
      && forall t: int :: !IsSquareOf(d, t)
    }

    ghost predicate IsSquareOf(v: int, t: int)
      requires Prime(p)
    {
      Eq(t * t, v, p)
    }
  }

  datatype Point = Point(x: int, y: int)

  datatype Extended = Extended(x: int, y: int, t: int, z: int)

  const Identity: Point := Point(0, 1)

  /** pow(v, p - 2, p). */
  function Recip(c: Ed, v: int): int
    requires c.p > 2
  {
    Pow(v, c.p - 2) % c.p
  }

  /** _point_add. */
  function Add(c: Ed, P: Point, R: Point): Point
    requires c.p > 2
  {
    var u := c.d * P.x * R.x * P.y * R.y % c.p;
    Point((P.x * R.y + P.y * R.x) * Recip(c, 1 + u) % c.p, (P.y * R.y + P.x * R.x) * Recip(c, 1 - u) % c.p)
  }

  /** _ext_add. */
  function ExtAdd(c: Ed, P: Extended, R: Extended): Extended
    requires c.p > 2
  {
    var p := c.p;
    var a := P.x * R.x % p;
    var b := P.y * R.y % p;
    var k := c.d * P.t * R.t % p;
    var d := P.z * R.z % p;
    var e := ((P.x + P.y) * (R.x + R.y) - a - b) % p;
    var f := (d - k) % p;
    var g := (d + k) % p;
    var h := (b + a) % p;
    Extended(e * f % p, g * h % p, e * h % p, f * g % p)
  }

  // ----- the curve

  ghost predicate OnCurve(c: Ed, x: int, y: int)
    requires c.p > 2
  {
    Eq(y * y - x * x, 1 + c.d * (x * y * (x * y)), c.p)
  }

  ghost predicate Good(c: Ed, P: Point)
    requires c.p > 2
  {
    0 <= P.x < c.p && 0 <= P.y < c.p && OnCurve(c, P.x, P.y)
  }

  lemma RecipEq(c: Ed, v: int)
    requires Prime(c.p) && c.p > 2 && v % c.p != 0
    ensures Eq(v * Recip(c, v), 1, c.p)
  {
    Fermat(v, c.p);
    MulReduce(v, Pow(v, c.p - 2), c.p);
    SmallMod(1, c.p);
  }

  /** A square that is d times a square makes d a square. */
  lemma QuotientRoot(c: Ed, t: int, z: int) returns (root: int)
    requires Prime(c.p) && c.p > 2 && Eq(t * t, c.d * (z * z), c.p) && z % c.p != 0
    ensures c.IsSquareOf(c.d, root)
  {
    RecipEq(c, z);
    var r := Recip(c, z);
    root := t * r;
    hide Eq, Recip;
    EqMul(z * r, 1, z * r, 1, c.p);
    EqScale(r * r, t * t, c.d * (z * z), c.p);
    EqScale(c.d, z * r * (z * r), 1, c.p);
    SquaredProducts(r, t, z, c.d);
    EqTrans(t * r * (t * r), c.d * (z * r * (z * r)), c.d, c.p);
  }

  lemma SquaredProducts(r: int, t: int, z: int, d: int)
    ensures r * r * (t * t) == t * r * (t * r) && r * r * (d * (z * z)) == d * (z * r * (z * r))
  {
    assert z * r * (z * r) == r * r * (z * z);
  }

  lemma QuotientSquare(c: Ed, t: int, z: int)
    requires c.Valid() && c.p > 2 && Eq(t * t, c.d * (z * z), c.p)
    ensures z % c.p == 0
  {
    if z % c.p != 0 {
      var root := QuotientRoot(c, t, z);
    }
  }

  /** The square of i x1 + s y1 along a point with u = d q1 q2 = e, e^2 = 1. */
  lemma SquareIdentity(i: int, x1: int, y1: int, x2: int, y2: int, d: int, e: int, s: int, q: Modulus)
    requires Eq(i * i, -1, q) && e * e == 1 && s * s == 1
    requires Eq(y1 * y1 - x1 * x1, 1 + d * (x1 * y1 * (x1 * y1)), q)
    requires Eq(y2 * y2 - x2 * x2, 1 + d * (x2 * y2 * (x2 * y2)), q)
    requires Eq(d * (x1 * y1 * (x2 * y2)), e, q)
    ensures var t, z := i * x1 + s * e * y1, x1 * y1 * (i * x2 + s * y2);
            Eq(t * t, d * (z * z), q)
  {
    hide Eq;
    var q1, q2 := x1 * y1, x2 * y2;
    EqScale(x1 * x1, i * i, -1, q);
    EqAdd(x1 * x1 * (i * i), -(x1 * x1), y1 * y1, y1 * y1, q) by { EqSame(y1 * y1, q); }
    EqTrans(x1 * x1 * (i * i) + y1 * y1, y1 * y1 - x1 * x1, 1 + d * (q1 * q1), q);
    SecondSide(i, x2, y2, d, q1, q2, e, q);
    EqScale(2 * s * (i * q1), d * (q1 * q2), e, q);
    EqSym(d * (q1 * q1) * (x2 * x2 * (i * i) + y2 * y2), 1 + d * (q1 * q1), q);
    EqTrans(x1 * x1 * (i * i) + y1 * y1, 1 + d * (q1 * q1), d * (q1 * q1) * (x2 * x2 * (i * i) + y2 * y2), q);
    EqSym(2 * s * (i * q1) * (d * (q1 * q2)), 2 * s * (i * q1) * e, q);
    EqAdd(x1 * x1 * (i * i) + y1 * y1, d * (q1 * q1) * (x2 * x2 * (i * i) + y2 * y2),
          2 * s * (i * q1) * e, 2 * s * (i * q1) * (d * (q1 * q2)), q);
    ExpandLeft(i, x1, y1, e, s);
    ExpandRight(i, x2, y2, d, q1, s);
  }

  /** d q1^2 (y2^2 - x2^2) = d q1^2 + 1. */
  lemma SecondSide(i: int, x2: int, y2: int, d: int, q1: int, q2: int, e: int, q: Modulus)
    requires Eq(i * i, -1, q) && e * e == 1 && q2 == x2 * y2
    requires Eq(y2 * y2 - x2 * x2, 1 + d * (q2 * q2), q) && Eq(d * (q1 * q2), e, q)
    ensures Eq(d * (q1 * q1) * (x2 * x2 * (i * i) + y2 * y2), 1 + d * (q1 * q1), q)
  {
    hide Eq;
    var k := d * (q1 * q1);
    EqScale(x2 * x2, i * i, -1, q);
    EqSame(y2 * y2, q);
    EqAdd(x2 * x2 * (i * i), -(x2 * x2), y2 * y2, y2 * y2, q);
    EqTrans(x2 * x2 * (i * i) + y2 * y2, y2 * y2 - x2 * x2, 1 + d * (q2 * q2), q);
    EqScale(k, x2 * x2 * (i * i) + y2 * y2, 1 + d * (q2 * q2), q);
    EqMul(d * (q1 * q2), e, d * (q1 * q2), e, q);
    CrossSquares(d, q1, q2);
    EqSame(k, q);
    EqAdd(k, k, d * (q1 * q2) * (d * (q1 * q2)), 1, q);
    OnePlus(k, d * (q2 * q2));
    EqTrans(k * (x2 * x2 * (i * i) + y2 * y2), k * (1 + d * (q2 * q2)), 1 + k, q);
  }

  lemma OnePlus(k: int, v: int)
    ensures k * (1 + v) == k + k * v
  {}

  lemma CrossSquares(d: int, q1: int, q2: int)
    ensures d * (q1 * q1) * (d * (q2 * q2)) == d * (q1 * q2) * (d * (q1 * q2))
  {
    assert q1 * q1 * (q2 * q2) == q1 * q2 * (q1 * q2);
    assert d * (q1 * q1) * (d * (q2 * q2)) == d * d * (q1 * q1 * (q2 * q2));
    assert d * (q1 * q2) * (d * (q1 * q2)) == d * d * (q1 * q2 * (q1 * q2));
  }

  lemma ExpandLeft(i: int, x: int, y: int, e: int, s: int)
    requires e * e == 1 && s * s == 1
    ensures (i * x + s * e * y) * (i * x + s * e * y) == x * x * (i * i) + y * y + 2 * s * (i * (x * y)) * e
  {
    var v := s * e;
    assert v * v == (s * s) * (e * e) == 1;
    assert (v * y) * (v * y) == v * v * (y * y);
    assert (i * x) * (i * x) == x * x * (i * i);
    assert (i * x) * (v * y) == v * (i * (x * y));
    assert 2 * (v * (i * (x * y))) == 2 * s * (i * (x * y)) * e;
  }

  lemma ExpandRight(i: int, x: int, y: int, d: int, q1: int, s: int)
    requires s * s == 1
    ensures var z := q1 * (i * x + s * y);
            d * (z * z) == d * (q1 * q1) * (x * x * (i * i) + y * y) + 2 * s * (i * q1) * (d * (q1 * (x * y)))
  {
    var w := i * x + s * y;
    assert w * w == x * x * (i * i) + y * y + 2 * s * (i * (x * y)) by { ExpandLeft(i, x, y, 1, s); }
    assert q1 * w * (q1 * w) == q1 * q1 * (w * w);
    assert d * (q1 * q1 * (w * w)) == d * (q1 * q1) * (w * w);
    assert d * (q1 * q1) * (2 * s * (i * (x * y))) == 2 * s * (i * q1) * (d * (q1 * (x * y))) by {
      Rearrange(d, q1, s, i, x * y);
    }
  }

  lemma Rearrange(d: int, q: int, s: int, i: int, r: int)
    ensures d * (q * q) * (2 * s * (i * r)) == 2 * s * (i * q) * (d * (q * r))
  {
    assert d * (q * q) * (2 * s * (i * r)) == 2 * (d * s * i) * (q * q * r);
    assert 2 * s * (i * q) * (d * (q * r)) == 2 * (d * s * i) * (q * (q * r));
  }

  /** The denominators never vanish on the curve: the law is complete. */
  lemma Complete(c: Ed, x1: int, y1: int, x2: int, y2: int, e: int)
    requires c.Valid() && c.p > 2 && OnCurve(c, x1, y1) && OnCurve(c, x2, y2) && (e == 1 || e == -1)
    ensures !Eq(c.d * (x1 * y1 * (x2 * y2)), e, c.p)
  {
    if Eq(c.d * (x1 * y1 * (x2 * y2)), e, c.p) {
      FactorsNonZero(c, x1 * y1, x2, y2, e);
      var plus, minus := c.i * x2 + y2, c.i * x2 - y2;
      SquareIdentity(c.i, x1, y1, x2, y2, c.d, e, 1, c.p);
      SquareIdentity(c.i, x1, y1, x2, y2, c.d, e, -1, c.p);
      QuotientSquare(c, c.i * x1 + e * y1, x1 * y1 * plus);
      QuotientSquare(c, c.i * x1 - e * y1, x1 * y1 * minus);
      Euclid(x1 * y1, plus, c.p);
      Euclid(x1 * y1, minus, c.p);
      DoubleVanishes(c.i * x2, y2, c.p);
      assert false;
    }
  }

  lemma DoubleVanishes(a: int, y: int, p: int)
    requires Prime(p) && p > 2 && (a + y) % p == 0 && (a - y) % p == 0
    ensures y % p == 0
  {
    SmallMod(0, p);
    AddCong(a + y, 0, a - y, 0, p);
    assert (a + y) - (a - y) == 2 * y;
    SmallMod(2, p);
    Euclid(2, y, p);
  }

  lemma FactorsNonZero(c: Ed, q1: int, x2: int, y2: int, e: int)
    requires c.Valid() && c.p > 2 && (e == 1 || e == -1) && Eq(c.d * (q1 * (x2 * y2)), e, c.p)
    ensures q1 % c.p != 0 && y2 % c.p != 0
  {
    SmallMod(0, c.p);
    SmallMod(1, c.p);
    UnitResidue(e, c.p);
    if q1 % c.p == 0 {
      MulCong(q1, 0, x2 * y2, x2 * y2, c.p);
      MulCong(c.d, c.d, q1 * (x2 * y2), 0, c.p);
    }
    if y2 % c.p == 0 {
      MulCong(x2, x2, y2, 0, c.p);
      MulCong(q1, q1, x2 * y2, 0, c.p);
      MulCong(c.d, c.d, q1 * (x2 * y2), 0, c.p);
    }
  }

  lemma UnitResidue(e: int, p: Modulus)
    requires e == 1 || e == -1
    ensures e % p != 0
  {
    if e == 1 {
      SmallMod(1, p);
    } else {
      RemainderUnique(-1, p - 1, p);
    }
  }

  /** 1 + u and 1 - u are units. */
  lemma Denominators(c: Ed, P: Point, R: Point, u: int)
    requires c.Valid() && c.p > 2 && OnCurve(c, P.x, P.y) && OnCurve(c, R.x, R.y)
    requires Eq(u, c.d * (P.x * P.y * (R.x * R.y)), c.p)
    ensures (1 + u) % c.p != 0 && (1 - u) % c.p != 0
  {
    Complete(c, P.x, P.y, R.x, R.y, 1);
    Complete(c, P.x, P.y, R.x, R.y, -1);
    EqDifference(u, -1, c.p);
    EqDifference(1, u, c.p);
  }

  // ----- the sum of two points is on the curve

  /** The closure identity: with S and C the numerators and u the product term,
      C^2 (1 + u)^2 - S^2 (1 - u)^2 = (1 - u^2)^2 + d S^2 C^2 on the curve. */
  lemma ClosureIdentity(x1: int, y1: int, x2: int, y2: int, d: int, q: Modulus)
    requires Eq(y1 * y1 - x1 * x1, 1 + d * (x1 * y1 * (x1 * y1)), q)
    requires Eq(y2 * y2 - x2 * x2, 1 + d * (x2 * y2 * (x2 * y2)), q)
    ensures var S, C, u := x1 * y2 + y1 * x2, y1 * y2 + x1 * x2, d * (x1 * y1 * (x2 * y2));
            Eq(C * C * ((1 + u) * (1 + u)) - S * S * ((1 - u) * (1 - u)),
               (1 - u * u) * (1 - u * u) + d * (S * C * (S * C)), q)
  {
    hide Eq;
    var S, C := x1 * y2 + y1 * x2, y1 * y2 + x1 * x2;
    var q1, q2 := x1 * y1, x2 * y2;
    var f1, f2 := y1 * y1 - x1 * x1, y2 * y2 - x2 * x2;
    var s1, s2 := x1 * x1 + y1 * y1, x2 * x2 + y2 * y2;
    Numerators(x1, y1, x2, y2);
    SquaredSum(x1, y1);
    SquaredSum(x2, y2);
    ClosureChain(S, C, d, q1, q2, f1, f2, s1, s2, q);
  }

  lemma ClosureChain(S: int, C: int, d: int, q1: int, q2: int, f1: int, f2: int, s1: int, s2: int, q: Modulus)
    requires Eq(f1, 1 + d * (q1 * q1), q) && Eq(f2, 1 + d * (q2 * q2), q)
    requires C * C - S * S == f1 * f2 && C * C + S * S == s1 * s2 + 4 * (q1 * q2) && S * C == q1 * s2 + q2 * s1
    requires s1 * s1 == f1 * f1 + 4 * (q1 * q1) && s2 * s2 == f2 * f2 + 4 * (q2 * q2)
    ensures var u := d * (q1 * q2);
            Eq(C * C * ((1 + u) * (1 + u)) - S * S * ((1 - u) * (1 - u)),
               (1 - u * u) * (1 - u * u) + d * (S * C * (S * C)), q)
  {
    hide Eq;
    var u, w := d * (q1 * q2), C * C - S * S;
    var e1, e2 := 1 + d * (q1 * q1), 1 + d * (q2 * q2);
    EqMul(f1, e1, f2, e2, q);
    EqMul(f1, e1, f1, e1, q);
    EqMul(f2, e2, f2, e2, q);
    LeftSide(C * C, S * S, u);
    EqScale(1 + u * u, w, e1 * e2, q);
    EqSame(2 * u * (C * C + S * S), q);
    EqAdd(w * (1 + u * u), e1 * e2 * (1 + u * u), 2 * u * (C * C + S * S), 2 * u * (C * C + S * S), q);
    RightSide(d, q1, q2, s1, s2, f1, f2, e1, e2, S * C, q);
    var left := w * (1 + u * u) + 2 * u * (C * C + S * S);
    var middle := e1 * e2 * (1 + u * u) + 2 * u * (s1 * s2 + 4 * (q1 * q2));
    EqTrans(left, middle, (1 - u * u) * (1 - u * u) + d * (S * C * (S * C)), q);
  }

  lemma Numerators(x1: int, y1: int, x2: int, y2: int)
    ensures var S, C, q1, q2 := x1 * y2 + y1 * x2, y1 * y2 + x1 * x2, x1 * y1, x2 * y2;
            && C * C - S * S == (y1 * y1 - x1 * x1) * (y2 * y2 - x2 * x2)
            && C * C + S * S == (x1 * x1 + y1 * y1) * (x2 * x2 + y2 * y2) + 4 * (q1 * q2)
            && S * C == q1 * (x2 * x2 + y2 * y2) + q2 * (x1 * x1 + y1 * y1)
  {
    var a, b, c, e := x1 * y2, y1 * x2, y1 * y2, x1 * x2;
    NumeratorTerms(x1, y1, x2, y2);
    assert (c + e) * (c + e) == c * c + 2 * (c * e) + e * e;
    assert (a + b) * (a + b) == a * a + 2 * (a * b) + b * b;
    assert (a + b) * (c + e) == a * c + a * e + b * c + b * e;
  }

  lemma NumeratorTerms(x1: int, y1: int, x2: int, y2: int)
    ensures var a, b, c, e := x1 * y2, y1 * x2, y1 * y2, x1 * x2;
            && a * a == (x1 * x1) * (y2 * y2) && b * b == (y1 * y1) * (x2 * x2)
            && c * c == (y1 * y1) * (y2 * y2) && e * e == (x1 * x1) * (x2 * x2)
            && a * b == (x1 * y1) * (x2 * y2) && c * e == (x1 * y1) * (x2 * y2)
            && a * c == (x1 * y1) * (y2 * y2) && b * e == (x1 * y1) * (x2 * x2)
            && a * e == (x2 * y2) * (x1 * x1) && b * c == (x2 * y2) * (y1 * y1)
  {
    Regroup(x1, y2, x1, y2);
    Regroup(y1, x2, y1, x2);
    Regroup(y1, y2, y1, y2);
    Regroup(x1, x2, x1, x2);
    Regroup(x1, y2, y1, x2);
    Regroup(y1, y2, x1, x2);
    Regroup(x1, y2, y1, y2);
    Regroup(y1, x2, x1, x2);
    Regroup(x1, y2, x1, x2);
    Regroup(y1, x2, y1, y2);
  }

  lemma Regroup(a: int, b: int, c: int, d: int)
    ensures (a * b) * (c * d) == (a * c) * (b * d) == (c * a) * (d * b)
  {}

  lemma SquaredSum(x: int, y: int)
    ensures (x * x + y * y) * (x * x + y * y) == (y * y - x * x) * (y * y - x * x) + 4 * (x * y * (x * y))
  {
    Regroup(x, y, x, y);
    var a, b := x * x, y * y;
    assert (a + b) * (a + b) == (b - a) * (b - a) + 4 * (a * b);
  }

  lemma LeftSide(cc: int, ss: int, u: int)
    ensures cc * ((1 + u) * (1 + u)) - ss * ((1 - u) * (1 - u)) == (cc - ss) * (1 + u * u) + 2 * u * (cc + ss)
  {
    assert (1 + u) * (1 + u) == 1 + 2 * u + u * u && (1 - u) * (1 - u) == 1 - 2 * u + u * u;
    var v := u * u;
    assert cc * (1 + 2 * u + v) == cc + 2 * (u * cc) + cc * v;
    assert ss * (1 - 2 * u + v) == ss - 2 * (u * ss) + ss * v;
  }

  /** e1 e2 (1 + u^2) + 2 u (s1 s2 + 4 q1 q2) = (1 - u^2)^2 + d (q1 s2 + q2 s1)^2. */
  lemma RightSide(d: int, q1: int, q2: int, s1: int, s2: int, f1: int, f2: int, e1: int, e2: int, sc: int, q: Modulus)
    requires Eq(f1 * f1, e1 * e1, q) && Eq(f2 * f2, e2 * e2, q)
    requires s1 * s1 == f1 * f1 + 4 * (q1 * q1) && s2 * s2 == f2 * f2 + 4 * (q2 * q2)
    requires e1 == 1 + d * (q1 * q1) && e2 == 1 + d * (q2 * q2) && sc == q1 * s2 + q2 * s1
    ensures var u := d * (q1 * q2);
            Eq(e1 * e2 * (1 + u * u) + 2 * u * (s1 * s2 + 4 * (q1 * q2)), (1 - u * u) * (1 - u * u) + d * (sc * sc), q)
  {
    hide Eq;
    var u, a, b := d * (q1 * q2), d * (q1 * q1), d * (q2 * q2);
    EqScale(a, f2 * f2, e2 * e2, q);
    EqScale(b, f1 * f1, e1 * e1, q);
    EqAdd(a * (f2 * f2), a * (e2 * e2), b * (f1 * f1), b * (e1 * e1), q);
    var rest := (1 - u * u) * (1 - u * u) + 2 * u * (s1 * s2) + 8 * (d * (q1 * q2 * (q1 * q2)));
    EqSame(rest, q);
    EqAdd(rest, rest, a * (f2 * f2) + b * (f1 * f1), a * (e2 * e2) + b * (e1 * e1), q);
    SquareOfCross(d, q1, q2, s1, s2, f1, f2, sc);
    CrossSquares(d, q1, q2);
    ScalarPart(a, b, u);
    assert 2 * u * (4 * (q1 * q2)) == 8 * (d * (q1 * q2 * (q1 * q2)));
    EqSym(rest + (a * (f2 * f2) + b * (f1 * f1)), rest + (a * (e2 * e2) + b * (e1 * e1)), q);
  }

  lemma SquareOfCross(d: int, q1: int, q2: int, s1: int, s2: int, f1: int, f2: int, sc: int)
    requires s1 * s1 == f1 * f1 + 4 * (q1 * q1) && s2 * s2 == f2 * f2 + 4 * (q2 * q2) && sc == q1 * s2 + q2 * s1
    ensures d * (sc * sc) == d * (q1 * q1) * (f2 * f2) + d * (q2 * q2) * (f1 * f1)
                             + 2 * (d * (q1 * q2)) * (s1 * s2) + 8 * (d * (q1 * q2 * (q1 * q2)))
  {
    assert sc * sc == q1 * s2 * (q1 * s2) + 2 * (q1 * s2 * (q2 * s1)) + q2 * s1 * (q2 * s1);
    assert q1 * s2 * (q1 * s2) == q1 * q1 * (s2 * s2) && q2 * s1 * (q2 * s1) == q2 * q2 * (s1 * s1);
    assert q1 * s2 * (q2 * s1) == q1 * q2 * (s1 * s2);
    assert q1 * q1 * (4 * (q2 * q2)) == 4 * (q1 * q2 * (q1 * q2)) == q2 * q2 * (4 * (q1 * q1));
    DistributeFour(d, q1 * q1, q2 * q2, f1 * f1, f2 * f2, q1 * q2 * (q1 * q2), q1 * q2, s1 * s2);
  }

  lemma DistributeFour(d: int, a: int, b: int, f1: int, f2: int, v: int, r: int, s: int)
    requires a * (4 * b) == 4 * v == b * (4 * a)
    ensures d * (a * (f2 + 4 * b) + 2 * (r * s) + b * (f1 + 4 * a)) == d * a * f2 + d * b * f1 + 2 * (d * r) * s + 8 * (d * v)
  {
    assert a * (f2 + 4 * b) == a * f2 + 4 * v && b * (f1 + 4 * a) == b * f1 + 4 * v;
  }

  lemma ScalarPart(a: int, b: int, u: int)
    requires a * b == u * u
    ensures (1 + a) * (1 + b) * (1 + u * u)
         == (1 - u * u) * (1 - u * u) + (a * ((1 + b) * (1 + b)) + b * ((1 + a) * (1 + a)))
  {
    var v := u * u;
    assert (1 + a) * (1 + b) == 1 + a + b + v;
    assert a * ((1 + b) * (1 + b)) == a + 2 * v + v * b by { assert a * (b * b) == (a * b) * b; }
    assert b * ((1 + a) * (1 + a)) == b + 2 * v + v * a by { assert b * (a * a) == (a * b) * a; }
    assert (1 - v) * (1 - v) == 1 - 2 * v + v * v;
    assert (1 + a + b + v) * (1 + v) == 1 + a + b + v + v + a * v + b * v + v * v;
  }

  /** Scaling the closure identity by the squared reciprocals. */
  lemma ScaledClosure(S: int, C: int, u: int, d: int, i: int, j: int, q: Modulus)
    requires Eq(C * C * ((1 + u) * (1 + u)) - S * S * ((1 - u) * (1 - u)),
                (1 - u * u) * (1 - u * u) + d * (S * C * (S * C)), q)
    requires Eq((1 + u) * i, 1, q) && Eq((1 - u) * j, 1, q)
    ensures Eq(C * j * (C * j) - S * i * (S * i), 1 + d * (S * i * (C * j) * (S * i * (C * j))), q)
  {
    hide Eq;
    var a, b := (1 + u) * i, (1 - u) * j;
    var k := i * j * (i * j);
    EqMul(a, 1, a, 1, q);
    EqMul(b, 1, b, 1, q);
    EqMul(a * a, 1, b * b, 1, q);
    EqScale(C * j * (C * j), a * a, 1, q);
    EqScale(S * i * (S * i), b * b, 1, q);
    EqAdd(C * j * (C * j) * (a * a), C * j * (C * j), S * i * (S * i) * (b * b), S * i * (S * i), q);
    ScaleLeft(S, C, u, i, j);
    ScaleRight(S, C, u, d, i, j);
    var left := C * C * ((1 + u) * (1 + u)) - S * S * ((1 - u) * (1 - u));
    var right := (1 - u * u) * (1 - u * u) + d * (S * C * (S * C));
    EqScale(k, left, right, q);
    EqSame(d * (S * i * (C * j) * (S * i * (C * j))), q);
    EqAdd(a * a * (b * b), 1, d * (S * i * (C * j) * (S * i * (C * j))), d * (S * i * (C * j) * (S * i * (C * j))), q);
    EqSym(k * left, C * j * (C * j) - S * i * (S * i), q);
    EqTrans(C * j * (C * j) - S * i * (S * i), k * left, k * right, q);
    EqTrans(C * j * (C * j) - S * i * (S * i), k * right, 1 + d * (S * i * (C * j) * (S * i * (C * j))), q);
  }

  lemma ScaleLeft(S: int, C: int, u: int, i: int, j: int)
    ensures var a, b, k := (1 + u) * i, (1 - u) * j, i * j * (i * j);
            k * (C * C * ((1 + u) * (1 + u)) - S * S * ((1 - u) * (1 - u)))
            == C * j * (C * j) * (a * a) - S * i * (S * i) * (b * b)
  {
    ScaleSquare(C, 1 + u, i, j);
    ScaleSquare(S, 1 - u, j, i);
    Regroup(i, j, i, j);
    Regroup(j, i, j, i);
  }

  lemma ScaleSquare(v: int, w: int, i: int, j: int)
    ensures i * j * (i * j) * (v * v * (w * w)) == v * j * (v * j) * (w * i * (w * i))
  {
    Regroup(i, j, v, w);
    assert i * j * (v * w) == v * j * (w * i);
    Regroup(v, w, v, w);
    Regroup(i * j, v * w, i * j, v * w);
    Regroup(v * j, w * i, v * j, w * i);
  }

  lemma ScaleRight(S: int, C: int, u: int, d: int, i: int, j: int)
    ensures var a, b, k := (1 + u) * i, (1 - u) * j, i * j * (i * j);
            k * ((1 - u * u) * (1 - u * u) + d * (S * C * (S * C)))
            == a * a * (b * b) + d * (S * i * (C * j) * (S * i * (C * j)))
  {
    var k := i * j * (i * j);
    assert (1 + u) * (1 - u) == 1 - u * u;
    Regroup(1 + u, i, 1 - u, j);
    Regroup(i * j, 1 - u * u, i * j, 1 - u * u);
    var a, b := (1 + u) * i, (1 - u) * j;
    assert a * b == (1 - u * u) * (i * j);
    Regroup(a, b, a, b);
    Regroup(S, i, C, j);
    Regroup(i * j, S * C, i * j, S * C);
    var r := S * i * (C * j);
    assert r == S * C * (i * j);
    assert r * r == S * C * (S * C) * k;
    assert k * (d * (S * C * (S * C))) == d * (r * r);
  }

  /** The product term that Add reduces. */
  lemma ProductTerm(c: Ed, P: Point, R: Point)
    requires c.p > 2
    ensures Eq(c.d * P.x * R.x * P.y * R.y % c.p, c.d * (P.x * P.y * (R.x * R.y)), c.p)
  {
    EqMod(c.d * P.x * R.x * P.y * R.y, c.p);
    Regroup(P.x, P.y, R.x, R.y);
    assert c.d * P.x * R.x * P.y * R.y == c.d * (P.x * R.x * (P.y * R.y));
  }

  lemma UnitsCongruent(u0: int, u: int, i: int, j: int, q: Modulus)
    requires Eq(u0, u, q) && Eq((1 + u0) * i, 1, q) && Eq((1 - u0) * j, 1, q)
    ensures Eq((1 + u) * i, 1, q) && Eq((1 - u) * j, 1, q)
  {
    hide Eq;
    EqSame(1, q);
    EqSym(u0, u, q);
    EqAdd(1, 1, u, u0, q);
    EqScale(i, 1 + u, 1 + u0, q);
    EqTrans((1 + u) * i, (1 + u0) * i, 1, q);
    EqScale(j, 1 - u, 1 - u0, q);
    EqTrans((1 - u) * j, (1 - u0) * j, 1, q);
  }

  /** The coordinates of a sum: numerators over denominators. */
  lemma SumCoordinates(c: Ed, P: Point, R: Point) returns (i: int, j: int)
    requires c.Valid() && c.p > 2 && OnCurve(c, P.x, P.y) && OnCurve(c, R.x, R.y)
    ensures var u := c.d * (P.x * P.y * (R.x * R.y));
            Eq((1 + u) * i, 1, c.p) && Eq((1 - u) * j, 1, c.p)
    ensures Eq(Add(c, P, R).x, (P.x * R.y + P.y * R.x) * i, c.p)
    ensures Eq(Add(c, P, R).y, (P.y * R.y + P.x * R.x) * j, c.p)
  {
    hide Eq, Recip;
    var u0 := c.d * P.x * R.x * P.y * R.y % c.p;
    ProductTerm(c, P, R);
    Denominators(c, P, R, u0);
    RecipEq(c, 1 + u0);
    RecipEq(c, 1 - u0);
    i, j := Recip(c, 1 + u0), Recip(c, 1 - u0);
    UnitsCongruent(u0, c.d * (P.x * P.y * (R.x * R.y)), i, j, c.p);
    EqMod((P.x * R.y + P.y * R.x) * i, c.p);
    EqMod((P.y * R.y + P.x * R.x) * j, c.p);
  }

  lemma OnCurveCongruent(c: Ed, x: int, y: int, x': int, y': int)
    requires c.p > 2 && Eq(x', x, c.p) && Eq(y', y, c.p) && OnCurve(c, x, y)
    ensures OnCurve(c, x', y')
  {
    hide Eq;
    EqMul(x', x, x', x, c.p);
    EqMul(y', y, y', y, c.p);
    EqAdd(y' * y', y * y, x' * x', x * x, c.p);
    EqMul(x', x, y', y, c.p);
    EqMul(x' * y', x * y, x' * y', x * y, c.p);
    EqScale(c.d, x' * y' * (x' * y'), x * y * (x * y), c.p);
    EqSame(1, c.p);
    EqAdd(1, 1, c.d * (x' * y' * (x' * y')), c.d * (x * y * (x * y)), c.p);
    EqSym(1 + c.d * (x' * y' * (x' * y')), 1 + c.d * (x * y * (x * y)), c.p);
    EqTrans(y' * y' - x' * x', y * y - x * x, 1 + c.d * (x * y * (x * y)), c.p);
    EqTrans(y' * y' - x' * x', 1 + c.d * (x * y * (x * y)), 1 + c.d * (x' * y' * (x' * y')), c.p);
  }

  /** The sum of two points of the curve is on the curve. */
  lemma AddGood(c: Ed, P: Point, R: Point)
    requires c.Valid() && c.p > 2 && Good(c, P) && Good(c, R)
    ensures Good(c, Add(c, P, R))
  {
    var i, j := SumCoordinates(c, P, R);
    var u, r := c.d * (P.x * P.y * (R.x * R.y)), Add(c, P, R);
    var S, C := P.x * R.y + P.y * R.x, P.y * R.y + P.x * R.x;
    ClosureIdentity(P.x, P.y, R.x, R.y, c.d, c.p);
    ScaledClosure(S, C, u, c.d, i, j, c.p);
    OnCurveCongruent(c, S * i, C * j, r.x, r.y);
  }

  // ----- extended coordinates

  ghost predicate Represents(c: Ed, E: Extended, P: Point)
    requires c.p > 2
  {
    && E.z % c.p != 0
    && Eq(E.x, P.x * E.z, c.p) && Eq(E.y, P.y * E.z, c.p) && Eq(E.t, P.x * P.y * E.z, c.p)
  }

  /** The intermediate values of _ext_add, for z = z1 z2. */
  lemma ExtParts(c: Ed, A: Extended, B: Extended, P: Point, R: Point)
    requires c.p > 2 && Represents(c, A, P) && Represents(c, B, R)
    ensures var p, z := c.p, A.z * B.z;
            var u := c.d * (P.x * P.y * (R.x * R.y));
            var a, b, k, d := A.x * B.x % p, A.y * B.y % p, c.d * A.t * B.t % p, A.z * B.z % p;
            && Eq(((A.x + A.y) * (B.x + B.y) - a - b) % p, (P.x * R.y + P.y * R.x) * z, p)
            && Eq((d - k) % p, (1 - u) * z, p) && Eq((d + k) % p, (1 + u) * z, p)
            && Eq((b + a) % p, (P.y * R.y + P.x * R.x) * z, p)
  {
    hide Eq;
    var p, z := c.p, A.z * B.z;
    var u := c.d * (P.x * P.y * (R.x * R.y));
    var a, b, k, d := A.x * B.x % p, A.y * B.y % p, c.d * A.t * B.t % p, A.z * B.z % p;
    PairProduct(A.x, B.x, P.x, R.x, A.z, B.z, p);
    PairProduct(A.y, B.y, P.y, R.y, A.z, B.z, p);
    PairProduct(A.t, B.t, P.x * P.y, R.x * R.y, A.z, B.z, p);
    PairProduct(A.x, B.y, P.x, R.y, A.z, B.z, p);
    PairProduct(A.y, B.x, P.y, R.x, A.z, B.z, p);
    EqMod(z, p);
    TermK(c.d, A.t, B.t, P.x * P.y * (R.x * R.y), z, p);
    SumAndDifference(d, z, k, u * z, p);
    assert z - u * z == (1 - u) * z && z + u * z == (1 + u) * z;
    EqMod(A.x * B.x, p);
    EqMod(A.y * B.y, p);
    EqTrans(a, A.x * B.x, P.x * R.x * z, p);
    EqTrans(b, A.y * B.y, P.y * R.y * z, p);
    SumAndDifference(b, P.y * R.y * z, a, P.x * R.x * z, p);
    assert P.y * R.y * z + P.x * R.x * z == (P.y * R.y + P.x * R.x) * z;
    CrossTerm(A.x, A.y, B.x, B.y, a, b, P.x * R.y * z, P.y * R.x * z, p);
    assert P.x * R.y * z + P.y * R.x * z == (P.x * R.y + P.y * R.x) * z;
  }

  lemma PairProduct(a: int, b: int, x: int, y: int, z1: int, z2: int, q: Modulus)
    requires Eq(a, x * z1, q) && Eq(b, y * z2, q)
    ensures Eq(a * b, x * y * (z1 * z2), q)
  {
    hide Eq;
    EqMul(a, x * z1, b, y * z2, q);
    Regroup(x, z1, y, z2);
  }

  lemma TermK(d: int, t1: int, t2: int, r: int, z: int, q: Modulus)
    requires Eq(t1 * t2, r * z, q)
    ensures Eq(d * t1 * t2 % q, d * r * z, q)
  {
    hide Eq;
    EqScale(d, t1 * t2, r * z, q);
    EqMod(d * t1 * t2, q);
    assert d * t1 * t2 == d * (t1 * t2) && d * (r * z) == d * r * z;
    EqTrans(d * t1 * t2 % q, d * (t1 * t2), d * r * z, q);
  }

  lemma SumAndDifference(a: int, x: int, b: int, y: int, q: Modulus)
    requires Eq(a, x, q) && Eq(b, y, q)
    ensures Eq((a - b) % q, x - y, q) && Eq((a + b) % q, x + y, q)
  {
    hide Eq;
    EqAdd(a, x, b, y, q);
    EqMod(a - b, q);
    EqMod(a + b, q);
    EqTrans((a - b) % q, a - b, x - y, q);
    EqTrans((a + b) % q, a + b, x + y, q);
  }

  lemma CrossTerm(x1: int, y1: int, x2: int, y2: int, a: int, b: int, v: int, w: int, q: Modulus)
    requires a == x1 * x2 % q && b == y1 * y2 % q && Eq(x1 * y2, v, q) && Eq(y1 * x2, w, q)
    ensures Eq(((x1 + y1) * (x2 + y2) - a - b) % q, v + w, q)
  {
    hide Eq;
    EqMod(x1 * x2, q);
    EqMod(y1 * y2, q);
    var s := (x1 + y1) * (x2 + y2);
    EqSame(s, q);
    EqAdd(s, s, a, x1 * x2, q);
    EqAdd(s - a, s - x1 * x2, b, y1 * y2, q);
    assert s - x1 * x2 - y1 * y2 == x1 * y2 + y1 * x2;
    EqAdd(x1 * y2, v, y1 * x2, w, q);
    EqTrans(s - a - b, x1 * y2 + y1 * x2, v + w, q);
    EqMod(s - a - b, q);
    EqTrans((s - a - b) % q, s - a - b, v + w, q);
  }

  /** The four products of _ext_add divide out to the affine sum. */
  lemma ExtQuotients(e: int, f: int, g: int, h: int, S: int, C: int, u: int, z: int, i: int, j: int, x: int, y: int, q: Modulus)
    requires Eq(e, S * z, q) && Eq(f, (1 - u) * z, q) && Eq(g, (1 + u) * z, q) && Eq(h, C * z, q)
    requires Eq((1 + u) * i, 1, q) && Eq((1 - u) * j, 1, q) && Eq(x, S * i, q) && Eq(y, C * j, q)
    ensures Eq(e, x * g, q) && Eq(h, y * f, q)
  {
    QuotientOf(e, S, z, g, 1 + u, i, x, q);
    QuotientOf(h, C, z, f, 1 - u, j, y, q);
  }

  lemma QuotientOf(e: int, S: int, z: int, g: int, v: int, i: int, x: int, q: Modulus)
    requires Eq(e, S * z, q) && Eq(g, v * z, q) && Eq(v * i, 1, q) && Eq(x, S * i, q)
    ensures Eq(e, x * g, q)
  {
    hide Eq;
    EqMul(x, S * i, g, v * z, q);
    Regroup(S, i, v, z);
    EqScale(S * z, v * i, 1, q);
    assert S * i * (v * z) == S * z * (v * i) by { Regroup(S, i, z, v); }
    EqTrans(x * g, S * z * (v * i), S * z, q);
    EqSym(x * g, S * z, q);
    EqTrans(e, S * z, x * g, q);
  }

  /** _ext_add adds, with no exceptional case. */
  lemma ExtAddRepresents(c: Ed, A: Extended, B: Extended, P: Point, R: Point)
    requires c.Valid() && c.p > 2 && Good(c, P) && Good(c, R) && Represents(c, A, P) && Represents(c, B, R)
    ensures Represents(c, ExtAdd(c, A, B), Add(c, P, R))
  {
    hide Eq, Add, Good;
    var p, z := c.p, A.z * B.z;
    var u, r := c.d * (P.x * P.y * (R.x * R.y)), Add(c, P, R);
    var S, C := P.x * R.y + P.y * R.x, P.y * R.y + P.x * R.x;
    var i, j := GoodSum(c, P, R);
    ExtParts(c, A, B, P, R);
    var a, b, k, d := A.x * B.x % p, A.y * B.y % p, c.d * A.t * B.t % p, A.z * B.z % p;
    var e, f, g, h := ((A.x + A.y) * (B.x + B.y) - a - b) % p, (d - k) % p, (d + k) % p, (b + a) % p;
    ExtQuotients(e, f, g, h, S, C, u, z, i, j, r.x, r.y, p);
    NonZeroProduct(A.z, B.z, p);
    UnitNonZero(1 + u, i, p);
    UnitNonZero(1 - u, j, p);
    ScaledNonZero(f, 1 - u, z, p);
    ScaledNonZero(g, 1 + u, z, p);
    ExtProducts(e, f, g, h, r.x, r.y, p);
  }

  lemma GoodSum(c: Ed, P: Point, R: Point) returns (i: int, j: int)
    requires c.Valid() && c.p > 2 && Good(c, P) && Good(c, R)
    ensures var u := c.d * (P.x * P.y * (R.x * R.y));
            Eq((1 + u) * i, 1, c.p) && Eq((1 - u) * j, 1, c.p)
    ensures Eq(Add(c, P, R).x, (P.x * R.y + P.y * R.x) * i, c.p)
    ensures Eq(Add(c, P, R).y, (P.y * R.y + P.x * R.x) * j, c.p)
  {
    hide Eq, Add;
    i, j := SumCoordinates(c, P, R);
  }

  lemma UnitNonZero(v: int, i: int, p: int)
    requires Prime(p) && Eq(v * i, 1, p)
    ensures v % p != 0
  {
    SmallMod(1, p);
    SmallMod(0, p);
    if v % p == 0 {
      MulCong(v, 0, i, i, p);
    }
  }

  lemma ScaledNonZero(f: int, v: int, z: int, p: int)
    requires Prime(p) && Eq(f, v * z, p) && v % p != 0 && z % p != 0
    ensures f % p != 0
  {
    NonZeroProduct(v, z, p);
  }

  lemma ExtProducts(e: int, f: int, g: int, h: int, x: int, y: int, p: int)
    requires Prime(p) && p > 2 && Eq(e, x * g, p) && Eq(h, y * f, p) && f % p != 0 && g % p != 0
    ensures f * g % p % p != 0
    ensures Eq(e * f % p, x * (f * g % p), p) && Eq(g * h % p, y * (f * g % p), p)
    ensures Eq(e * h % p, x * y * (f * g % p), p)
  {
    NonZeroProduct(f, g, p);
    ModMod(f * g, p);
    hide Eq;
    EqScale(f, e, x * g, p);
    EqScale(g, h, y * f, p);
    EqMul(e, x * g, h, y * f, p);
    ProductForms(x, y, f, g);
    ReduceBoth(e * f, x, f * g, p);
    ReduceBoth(g * h, y, f * g, p);
    ReduceBoth(e * h, x * y, f * g, p);
  }

  lemma ProductForms(x: int, y: int, f: int, g: int)
    ensures f * (x * g) == x * (f * g) && g * (y * f) == y * (f * g) && f * (x * g) == x * g * f && g * (y * f) == y * f * g
    ensures x * g * (y * f) == x * y * (f * g)
  {
    Regroup(x, g, y, f);
  }

  lemma ReduceBoth(v: int, x: int, w: int, q: Modulus)
    requires Eq(v, x * w, q)
    ensures Eq(v % q, x * (w % q), q)
  {
    hide Eq;
    EqMod(v, q);
    EqMod(w, q);
    EqScale(x, w % q, w, q);
    EqSym(x * (w % q), x * w, q);
    EqTrans(v % q, v, x * w, q);
    EqTrans(v % q, x * w, x * (w % q), q);
  }

  // ----- scalar multiplication

  /** Left-to-right affine double-and-add. */
  function Multiple(c: Ed, k: nat, P: Point): Point
    requires c.p > 2
  {
    if k == 0 then Identity
    else
      var double := Add(c, Multiple(c, k / 2, P), Multiple(c, k / 2, P));
      if k % 2 == 1 then Add(c, double, P) else double
  }

  lemma IdentityGood(c: Ed)
    requires c.p > 2
    ensures Good(c, Identity) && Represents(c, Extended(0, 1, 0, 1), Identity)
  {
    SmallMod(1, c.p);
  }

  lemma {:induction false} MultipleGood(c: Ed, k: nat, P: Point)
    requires c.Valid() && c.p > 2 && Good(c, P)
    ensures Good(c, Multiple(c, k, P))
  {
    hide Good, Add;
    if k == 0 {
      IdentityGood(c);
    } else {
      MultipleGood(c, k / 2, P);
      var half := Multiple(c, k / 2, P);
      AddGood(c, half, half);
      AddGood(c, Add(c, half, half), P);
    }
  }

  /** The state of the ladder after the bits above position i. */
  ghost predicate Climbing(c: Ed, k: nat, P: Point, i: nat, acc: Extended, pt: Extended)
  {
    && c.Valid() && c.p > 2 && Good(c, P) && Represents(c, pt, P)
    && Represents(c, acc, Multiple(c, k / Exp2(i), P))
  }

  lemma ClimbStart(c: Ed, k: nat, P: Point, bits: nat)
    requires c.Valid() && c.p > 2 && Good(c, P) && k < Exp2(bits)
    ensures Climbing(c, k, P, bits, Extended(0, 1, 0, 1), Extended(P.x, P.y, P.x * P.y % c.p, 1))
  {
    IdentityGood(c);
    SmallQuotient(k, Exp2(bits));
    SmallMod(1, c.p);
    EqMod(P.x * P.y, c.p);
  }

  lemma ClimbStep(c: Ed, k: nat, P: Point, i: nat, acc: Extended, pt: Extended)
    requires Climbing(c, k, P, i + 1, acc, pt)
    ensures k / Exp2(i) >= 0
    ensures Climbing(c, k, P, i, if k / Exp2(i) % 2 == 1 then ExtAdd(c, ExtAdd(c, acc, acc), pt) else ExtAdd(c, acc, acc), pt)
  {
    hide ExtAdd, Add, Represents, Good, Exp2;
    DoubleExp(i);
    HalveQuotient(k, Exp2(i));
    var half := Multiple(c, k / Exp2(i + 1), P);
    MultipleGood(c, k / Exp2(i + 1), P);
    AddGood(c, half, half);
    ExtAddRepresents(c, acc, acc, half, half);
    ExtAddRepresents(c, ExtAdd(c, acc, acc), pt, Add(c, half, half), P);
    MultipleStep(c, k / Exp2(i), P);
  }

  lemma DoubleExp(i: nat)
    ensures Exp2(i + 1) == 2 * Exp2(i)
  {}

  lemma MultipleStep(c: Ed, k: nat, P: Point)
    requires c.Valid() && c.p > 2
    ensures var double := Add(c, Multiple(c, k / 2, P), Multiple(c, k / 2, P));
            k > 0 ==> Multiple(c, k, P) == if k % 2 == 1 then Add(c, double, P) else double
    ensures k == 0 ==> Multiple(c, k, P) == Identity && Add(c, Identity, Identity) == Identity
  {
    if k == 0 {
      OneRecip(c);
    }
  }

  lemma OneRecip(c: Ed)
    requires c.Valid() && c.p > 2
    ensures Add(c, Identity, Identity) == Identity
  {
    SmallMod(0, c.p);
    SmallMod(1, c.p);
    PowOne(c.p - 2);
  }

  /** _scalarmult: 256 iterations give affine double-and-add for every scalar that fits. */
  method ScalarMult(c: Ed, k: nat, P: Point) returns (r: Point)
    requires c.Valid() && c.p > 2 && Good(c, P) && k < Exp2(256)
    ensures r == Multiple(c, k, P)
  {
    hide Climbing, ExtAdd, Recip, Multiple, Good, Exp2;
    var acc, pt := Extended(0, 1, 0, 1), Extended(P.x, P.y, P.x * P.y % c.p, 1);
    ClimbStart(c, k, P, 256);
    var i := 256;
    while i > 0
      invariant 0 <= i <= 256 && Climbing(c, k, P, i, acc, pt)
    {
      i := i - 1;
      ClimbStep(c, k, P, i, acc, pt);
      acc := ExtAdd(c, acc, acc);
      var cand := ExtAdd(c, acc, pt);
      if k / Exp2(i) % 2 == 1 {
        acc := cand;
      }
    }
    ClimbDone(c, k, P, acc, pt);
    var zinv := Recip(c, acc.z);
    r := Point(acc.x * zinv % c.p, acc.y * zinv % c.p);
  }

  lemma ClimbDone(c: Ed, k: nat, P: Point, acc: Extended, pt: Extended)
    requires Climbing(c, k, P, 0, acc, pt)
    ensures Multiple(c, k, P) == Point(acc.x * Recip(c, acc.z) % c.p, acc.y * Recip(c, acc.z) % c.p)
  {
    hide Multiple, Recip;
    assert k / Exp2(0) == k;
    var m := Multiple(c, k, P);
    MultipleGood(c, k, P);
    RecipEq(c, acc.z);
    Unscale(acc.x, m.x, acc.z, Recip(c, acc.z), c.p);
    Unscale(acc.y, m.y, acc.z, Recip(c, acc.z), c.p);
  }
}
