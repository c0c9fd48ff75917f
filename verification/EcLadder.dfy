/** The masked Jacobian ladder returns what affine double-and-add returns, for every
    scalar and every affine point. */
module EcLadder {
  import opened Options
  import opened ModArith
  import opened Primes
  import opened Congruence
  import opened EcAlgebra
  import opened Ec

  // ----- affine points

  /** A point with reduced coordinates on the curve with coefficients a and b. */
  ghost predicate Good(c: Curve, b: int, P: Point)
    requires c.Valid()
  {
    P == Infinity || (0 <= P.x < c.p && 0 <= P.y < c.p && OnCurve(P.x, P.y, c.a, b, c.p))
  }

  /** A reciprocal turns the computed quotient into the slope equation. */
  lemma SlopeEquation(d: int, e: int, i: int, lam: int, q: Modulus)
    requires Eq(d * i, 1, q) && Eq(lam, e * i, q)
    ensures Eq(d * lam, e, q)
  {
    hide Eq;
    EqScale(d, lam, e * i, q);
    EqScale(e, d * i, 1, q);
    assert d * (e * i) == e * (d * i);
    EqTrans(d * lam, d * (e * i), e, q);
  }

  lemma InvertEq(v: int, p: int)
    requires Prime(p) && v % p != 0
    ensures Invert(v, p).Some? && Eq(v * Invert(v, p).value, 1, p)
  {
    var i := Inverse(v % p, p);
    MulReduce(v, i, p);
    SmallMod(1, p);
  }

  lemma TangentSlope(c: Curve, x: int, y: int)
    requires c.Valid() && 2 * y % c.p != 0
    ensures var lam := (3 * x * x + c.a) * Invert(2 * y, c.p).value % c.p;
            Eq(2 * y * lam, 3 * (x * x) + c.a, c.p)
  {
    InvertEq(2 * y, c.p);
    hide Eq, Invert;
    var i := Invert(2 * y, c.p).value;
    EqMod((3 * x * x + c.a) * i, c.p);
    assert 3 * x * x == 3 * (x * x);
    SlopeEquation(2 * y, 3 * (x * x) + c.a, i, (3 * x * x + c.a) * i % c.p, c.p);
  }

  lemma ChordSlope(c: Curve, x1: int, y1: int, x2: int, y2: int)
    requires c.Valid() && (x2 - x1) % c.p != 0
    ensures (x2 - x1) % c.p % c.p != 0
    ensures var i := Invert((x2 - x1) % c.p, c.p).value;
            && Eq((x2 - x1) * i, 1, c.p)
            && Eq((y2 - y1) * i % c.p * (x2 - x1), y2 - y1, c.p)
  {
    var d := x2 - x1;
    ModMod(d, c.p);
    InvertEq(d % c.p, c.p);
    var i := Invert(d % c.p, c.p).value;
    MulReduce(d, i, c.p);
    hide Eq, Invert;
    ReduceFactor(d, i, c.p);
    EqMod((y2 - y1) * i, c.p);
    SlopeEquation(d, y2 - y1, i, (y2 - y1) * i % c.p, c.p);
    var lam := (y2 - y1) * i % c.p;
    assert d * lam == lam * d;
  }

  lemma ReduceFactor(d: int, i: int, q: Modulus)
    requires Eq(d % q * i, 1, q)
    ensures Eq(d * i, 1, q)
  {
    MulReduce(d, i, q);
  }

  /** The reduced coordinates of a chord are congruent to the unreduced ones. */
  lemma ChordReduced(c: Curve, lam: int, x1: int, y1: int, x2: int)
    requires c.Valid()
    ensures var r := Chord(c, lam, x1, y1, x2);
            var x3 := lam * lam - x1 - x2;
            && r != Infinity && 0 <= r.x < c.p && 0 <= r.y < c.p
            && Eq(r.x, x3, c.p) && Eq(r.y, lam * (x1 - x3) - y1, c.p)
  {
    hide Eq;
    var x3 := lam * lam - x1 - x2;
    var x := x3 % c.p;
    EqMod(x3, c.p);
    EqMod(lam * (x1 - x) - y1, c.p);
    EqSame(x1, c.p);
    EqSame(y1, c.p);
    EqAdd(x1, x1, x, x3, c.p);
    EqScale(lam, x1 - x, x1 - x3, c.p);
    EqAdd(lam * (x1 - x), lam * (x1 - x3), y1, y1, c.p);
    EqTrans((lam * (x1 - x) - y1) % c.p, lam * (x1 - x) - y1, lam * (x1 - x3) - y1, c.p);
  }

  lemma OnCurveCongruent(x: int, y: int, x': int, y': int, a: int, b: int, q: Modulus)
    requires Eq(x', x, q) && Eq(y', y, q) && OnCurve(x, y, a, b, q)
    ensures OnCurve(x', y', a, b, q)
  {
    hide Eq;
    EqMul(y', y, y', y, q);
    EqMul(x', x, x', x, q);
    EqMul(x' * x', x * x, x', x, q);
    EqScale(a, x', x, q);
    EqSame(b, q);
    EqAdd(x' * x' * x', x * x * x, a * x', a * x, q);
    EqAdd(x' * x' * x' + a * x', x * x * x + a * x, b, b, q);
    EqSym(Cubic(x', a, b), Cubic(x, a, b), q);
    EqTrans(y' * y', y * y, Cubic(x, a, b), q);
    EqTrans(y' * y', Cubic(x, a, b), Cubic(x', a, b), q);
  }

  /** Two points of a curve over the same abscissa are equal or opposite. */
  lemma SameAbscissa(c: Curve, b: int, x: int, y1: int, y2: int)
    requires c.Valid() && Good(c, b, Affine(x, y1)) && Good(c, b, Affine(x, y2))
    ensures y1 == y2 || (y1 + y2) % c.p == 0
    ensures (y1 + y2) % c.p != 0 ==> 2 * y1 % c.p != 0
  {
    var p := c.p;
    EqSym(y2 * y2, Cubic(x, c.a, b), p);
    EqTrans(y1 * y1, Cubic(x, c.a, b), y2 * y2, p);
    EqDifference(y1 * y1, y2 * y2, p);
    SquareDifference(y1, y2);
    Euclid(y1 - y2, y1 + y2, p);
    if (y1 - y2) % p == 0 {
      EqDifference(y1, y2, p);
      EqReduced(y1, y2, p);
    }
  }

  lemma SquareDifference(a: int, b: int)
    ensures (a - b) * (a + b) == a * a - b * b
  {}

  /** The tangent at a point. */
  lemma DoubleGood(c: Curve, b: int, x: int, y: int)
    requires c.Valid() && Good(c, b, Affine(x, y)) && 2 * y % c.p != 0
    ensures var lam := (3 * x * x + c.a) * Invert(2 * y, c.p).value % c.p;
            Good(c, b, Chord(c, lam, x, y, x))
  {
    var lam := (3 * x * x + c.a) * Invert(2 * y, c.p).value % c.p;
    TangentSlope(c, x, y);
    ChordReduced(c, lam, x, y, x);
    hide OnCurve, Eq, Invert, Chord;
    var x3, r := lam * lam - x - x, Chord(c, lam, x, y, x);
    TangentCloses(x, y, c.a, b, lam, c.p);
    OnCurveCongruent(x3, lam * (x - x3) - y, r.x, r.y, c.a, b, c.p);
  }

  lemma ChordGood(c: Curve, b: int, x1: int, y1: int, x2: int, y2: int)
    requires c.Valid() && Good(c, b, Affine(x1, y1)) && Good(c, b, Affine(x2, y2)) && x1 != x2
    ensures (x2 - x1) % c.p != 0 && (x2 - x1) % c.p % c.p != 0
    ensures var lam := (y2 - y1) * Invert((x2 - x1) % c.p, c.p).value % c.p;
            Good(c, b, Chord(c, lam, x1, y1, x2))
  {
    if (x2 - x1) % c.p == 0 {
      EqDifference(x2, x1, c.p);
      EqReduced(x2, x1, c.p);
    }
    ChordSlope(c, x1, y1, x2, y2);
    var i := Invert((x2 - x1) % c.p, c.p).value;
    var lam := (y2 - y1) * i % c.p;
    ChordReduced(c, lam, x1, y1, x2);
    hide OnCurve, Eq, Invert, Chord;
    var x3, r := lam * lam - x1 - x2, Chord(c, lam, x1, y1, x2);
    ChordCloses(x1, y1, x2, y2, c.a, b, lam, i, c.p);
    OnCurveCongruent(x3, lam * (x1 - x3) - y1, r.x, r.y, c.a, b, c.p);
  }

  /** Addition of points of one curve never raises and stays on the curve. */
  lemma AddGood(c: Curve, b: int, P: Point, R: Point)
    requires c.Valid() && Good(c, b, P) && Good(c, b, R)
    ensures PointAdd(c, P, R).Some? && Good(c, b, PointAdd(c, P, R).value)
  {
    hide OnCurve, Chord;
    if P != Infinity && R != Infinity {
      if P.x == R.x {
        SameAbscissa(c, b, P.x, P.y, R.y);
        if (P.y + R.y) % c.p != 0 {
          DoubleGood(c, b, P.x, P.y);
        }
      } else {
        ChordGood(c, b, P.x, P.y, R.x, R.y);
      }
    }
  }

  lemma {:induction false} MultipleGood(c: Curve, b: int, k: nat, P: Point)
    requires c.Valid() && Good(c, b, P)
    ensures DoubleAndAdd(c, k, P).Some? && Good(c, b, DoubleAndAdd(c, k, P).value)
  {
    hide Good, PointAdd;
    if k == 0 {
      InfinityGood(c, b);
    } else {
      MultipleGood(c, b, k / 2, P);
      var half := DoubleAndAdd(c, k / 2, P).value;
      AddGood(c, b, half, half);
      AddGood(c, b, PointAdd(c, half, half).value, P);
    }
  }

  lemma InfinityGood(c: Curve, b: int)
    requires c.Valid()
    ensures Good(c, b, Infinity)
  {}

  /** Every affine point is on the curve with its own constant term. */
  function OwnConstant(c: Curve, P: Point): int
    requires P != Infinity
  {
    P.y * P.y - P.x * P.x * P.x - c.a * P.x
  }

  lemma OnOwnCurve(c: Curve, P: Point)
    requires c.Valid() && P != Infinity && 0 <= P.x < c.p && 0 <= P.y < c.p
    ensures Good(c, OwnConstant(c, P), P)
  {}

  // ----- Jacobian coordinates

  ghost predicate Represents(c: Curve, j: Jacobian, P: Point)
    requires c.Valid()
  {
    if P == Infinity then j.z == 0
    else
      && j.z % c.p != 0
      && Eq(j.x, P.x * (j.z * j.z), c.p)
      && Eq(j.y, P.y * (j.z * j.z * j.z), c.p)
  }

  /** The coordinates of _jdouble, without the intermediate reductions. */
  lemma DoubleFormula(c: Curve, j: Jacobian)
    requires c.Valid()
    ensures var r := JDouble(c, j);
            var s, m := 4 * (j.x * (j.y * j.y)), 3 * (j.x * j.x) + c.a * (j.z * j.z * (j.z * j.z));
            && 0 <= r.z < c.p && Eq(r.z, 2 * (j.y * j.z), c.p)
            && Eq(r.x, m * m - 2 * s, c.p)
            && Eq(r.y, m * (s - r.x) - 8 * (j.y * j.y * (j.y * j.y)), c.p)
  {
    hide Eq;
    var p := c.p;
    var xx, yy, zz := j.x * j.x % p, j.y * j.y % p, j.z * j.z % p;
    var yyyy := yy * yy % p;
    var s0, m0 := 2 * ((j.x + yy) * (j.x + yy) - xx - yyyy) % p, (3 * xx + c.a * zz * zz) % p;
    var s, m := 4 * (j.x * (j.y * j.y)), 3 * (j.x * j.x) + c.a * (j.z * j.z * (j.z * j.z));
    DoubleFormulaS(j.x, j.y, xx, yy, yyyy, s0, p);
    DoubleFormulaM(c.a, j.x, j.z, xx, zz, m0, p);
    FourthPower(j.y, yy, yyyy, p);
    TwiceProduct(j.y, j.z, yy, zz, JDouble(c, j).z, p);
    var t := (m0 * m0 - 2 * s0) % p;
    EqMod(m0 * m0 - 2 * s0, p);
    EqMul(m0, m, m0, m, p);
    EqScale(2, s0, s, p);
    EqAdd(m0 * m0, m * m, 2 * s0, 2 * s, p);
    EqTrans(t, m0 * m0 - 2 * s0, m * m - 2 * s, p);
    DoubleFormulaY(m0, m, s0, s, t, yyyy, j.y * j.y * (j.y * j.y), p);
  }

  lemma DoubleFormulaY(m0: int, m: int, s0: int, s: int, t: int, e0: int, e: int, q: Modulus)
    requires Eq(m0, m, q) && Eq(s0, s, q) && Eq(e0, e, q)
    ensures Eq((m0 * (s0 - t) - 8 * e0) % q, m * (s - t) - 8 * e, q)
  {
    hide Eq;
    EqSame(t, q);
    EqAdd(s0, s, t, t, q);
    EqMul(m0, m, s0 - t, s - t, q);
    EqScale(8, e0, e, q);
    EqAdd(m0 * (s0 - t), m * (s - t), 8 * e0, 8 * e, q);
    EqMod(m0 * (s0 - t) - 8 * e0, q);
    EqTrans((m0 * (s0 - t) - 8 * e0) % q, m0 * (s0 - t) - 8 * e0, m * (s - t) - 8 * e, q);
  }

  lemma FourthPower(y: int, yy: int, yyyy: int, q: Modulus)
    requires yy == y * y % q && yyyy == yy * yy % q
    ensures Eq(yyyy, y * y * (y * y), q)
  {
    hide Eq;
    EqMod(y * y, q);
    EqMod(yy * yy, q);
    EqMul(yy, y * y, yy, y * y, q);
    EqTrans(yyyy, yy * yy, y * y * (y * y), q);
  }

  /** 2 ((x + y^2)^2 - x^2 - y^4) = 4 x y^2. */
  lemma DoubleFormulaS(x: int, y: int, xx: int, yy: int, yyyy: int, s: int, q: Modulus)
    requires xx == x * x % q && yy == y * y % q && yyyy == yy * yy % q
    requires s == 2 * ((x + yy) * (x + yy) - xx - yyyy) % q
    ensures Eq(s, 4 * (x * (y * y)), q)
  {
    hide Eq;
    EqMod(x * x, q);
    EqMod(y * y, q);
    EqMod(yy * yy, q);
    SquareOfSum(x, yy);
    TwiceFromSquares(x, yy, xx, yyyy, q);
    EqScale(2, (x + yy) * (x + yy) - xx - yyyy, 2 * (x * yy), q);
    EqMod(2 * ((x + yy) * (x + yy) - xx - yyyy), q);
    EqTrans(s, 2 * ((x + yy) * (x + yy) - xx - yyyy), 2 * (2 * (x * yy)), q);
    EqScale(4 * x, yy, y * y, q);
    assert 2 * (2 * (x * yy)) == 4 * x * yy && 4 * x * (y * y) == 4 * (x * (y * y));
    EqTrans(s, 4 * x * yy, 4 * (x * (y * y)), q);
  }

  lemma SquareOfSum(x: int, y: int)
    ensures (x + y) * (x + y) - x * x - y * y == 2 * (x * y)
  {}

  /** (a + b)^2 - a^2 - b^2 with reduced squares. */
  lemma TwiceFromSquares(a: int, b: int, aa: int, bb: int, q: Modulus)
    requires Eq(aa, a * a, q) && Eq(bb, b * b, q)
    ensures Eq((a + b) * (a + b) - aa - bb, 2 * (a * b), q)
    ensures Eq((a + b) * (a + b) - bb - aa, 2 * (a * b), q)
  {
    hide Eq;
    EqSame((a + b) * (a + b), q);
    EqAdd((a + b) * (a + b), (a + b) * (a + b), aa, a * a, q);
    EqAdd((a + b) * (a + b) - aa, (a + b) * (a + b) - a * a, bb, b * b, q);
    SquareOfSum(a, b);
  }

  lemma TwiceProduct(a: int, b: int, aa: int, bb: int, w: int, q: Modulus)
    requires aa == a * a % q && bb == b * b % q && w == ((a + b) * (a + b) - aa - bb) % q
    ensures Eq(w, 2 * (a * b), q)
  {
    hide Eq;
    EqMod(a * a, q);
    EqMod(b * b, q);
    TwiceFromSquares(a, b, aa, bb, q);
    EqMod((a + b) * (a + b) - aa - bb, q);
    EqTrans(w, (a + b) * (a + b) - aa - bb, 2 * (a * b), q);
  }

  lemma DoubleFormulaM(a: int, x: int, z: int, xx: int, zz: int, m: int, q: Modulus)
    requires xx == x * x % q && zz == z * z % q && m == (3 * xx + a * zz * zz) % q
    ensures Eq(m, 3 * (x * x) + a * (z * z * (z * z)), q)
  {
    hide Eq;
    EqMod(x * x, q);
    EqMod(z * z, q);
    EqScale(3, xx, x * x, q);
    EqMul(zz, z * z, zz, z * z, q);
    EqScale(a, zz * zz, z * z * (z * z), q);
    EqAdd(3 * xx, 3 * (x * x), a * (zz * zz), a * (z * z * (z * z)), q);
    assert a * zz * zz == a * (zz * zz);
    EqMod(3 * xx + a * zz * zz, q);
    EqTrans(m, 3 * xx + a * (zz * zz), 3 * (x * x) + a * (z * z * (z * z)), q);
  }

  lemma EqZero(a: int, b: int, q: Modulus)
    requires Eq(a, b, q)
    ensures a % q == 0 <==> b % q == 0
  {}

  lemma ReducedZero(a: int, q: Modulus)
    requires 0 <= a < q && a % q == 0
    ensures a == 0
  {
    SmallMod(a, q);
  }

  // ----- doubling represents doubling

  lemma DoubleZ(Y: int, Z: int, y: int, w: int, p: int)
    requires Prime(p) && p > 2 && Eq(Y, y * (Z * Z * Z), p) && Z % p != 0 && Eq(w, 2 * (Y * Z), p)
    ensures w % p == 0 <==> 2 * y % p == 0
  {
    EqZero(w, 2 * (Y * Z), p);
    EqZero(Y, y * (Z * Z * Z), p);
    CubeNonZero(Z, p);
    TwoNonZero(p);
    SmallMod(0, p);
    if y % p == 0 {
      MulReduce(y, Z * Z * Z, p);
      MulReduce(Y, Z, p);
      MulReduce(2, Y * Z, p);
      MulReduce(2, y, p);
    } else {
      NonZeroProduct(y, Z * Z * Z, p);
      NonZeroProduct(Y, Z, p);
      NonZeroProduct(2, Y * Z, p);
      NonZeroProduct(2, y, p);
    }
  }

  lemma CubeNonZero(Z: int, p: int)
    requires Prime(p) && Z % p != 0
    ensures Z * Z * Z % p != 0
  {
    NonZeroProduct(Z, Z, p);
    NonZeroProduct(Z * Z, Z, p);
  }

  /** _jdouble doubles. */
  lemma DoubleRepresents(c: Curve, b: int, j: Jacobian, P: Point)
    requires c.Valid() && Good(c, b, P) && Represents(c, j, P)
    ensures PointAdd(c, P, P).Some? && Represents(c, JDouble(c, j), PointAdd(c, P, P).value)
  {
    hide JDouble, OnCurve, Chord;
    AddGood(c, b, P, P);
    DoubleFormula(c, j);
    var w := JDouble(c, j).z;
    if P == Infinity {
      EqZero(w, 2 * (j.y * j.z), c.p);
      SmallMod(0, c.p);
      ReducedZero(w, c.p);
    } else {
      DoubleZ(j.y, j.z, P.y, w, c.p);
      if 2 * P.y % c.p == 0 {
        ReducedZero(w, c.p);
      } else {
        DoubleTangent(c, j, P.x, P.y);
      }
    }
  }

  lemma DoubleTangent(c: Curve, j: Jacobian, x: int, y: int)
    requires c.Valid() && Represents(c, j, Affine(x, y)) && 2 * y % c.p != 0
    ensures var lam := (3 * x * x + c.a) * Invert(2 * y, c.p).value % c.p;
            Represents(c, JDouble(c, j), Chord(c, lam, x, y, x))
  {
    var p := c.p;
    var lam := (3 * x * x + c.a) * Invert(2 * y, p).value % p;
    var r := JDouble(c, j);
    var w := r.z;
    DoubleFormula(c, j);
    DoubleZ(j.y, j.z, y, w, p);
    TangentSlope(c, x, y);
    ChordReduced(c, lam, x, y, x);
    hide Eq, JDouble, Chord, Invert;
    DoubleTangentCore(j, x, y, c.a, lam, r, p);
    ScaledChord(r, Chord(c, lam, x, y, x), lam * lam - x - x, lam * (x - (lam * lam - x - x)) - y, p);
  }

  lemma DoubleTangentCore(j: Jacobian, x: int, y: int, a: int, lam: int, r: Jacobian, q: Modulus)
    requires Eq(j.x, x * (j.z * j.z), q) && Eq(j.y, y * (j.z * j.z * j.z), q)
    requires Eq(2 * y * lam, 3 * (x * x) + a, q) && Eq(r.z, 2 * (j.y * j.z), q)
    requires var s, m := 4 * (j.x * (j.y * j.y)), 3 * (j.x * j.x) + a * (j.z * j.z * (j.z * j.z));
             Eq(r.x, m * m - 2 * s, q) && Eq(r.y, m * (s - r.x) - 8 * (j.y * j.y * (j.y * j.y)), q)
    ensures var x3 := lam * lam - x - x;
            Eq(r.x, x3 * (r.z * r.z), q) && Eq(r.y, (lam * (x - x3) - y) * (r.z * r.z * r.z), q)
  {
    hide Eq;
    var w := r.z;
    var s, m := 4 * (j.x * (j.y * j.y)), 3 * (j.x * j.x) + a * (j.z * j.z * (j.z * j.z));
    DoubleS(j.x, j.y, j.z, x, w, q);
    DoubleM(j.x, j.y, j.z, x, y, a, lam, w, q);
    DoubleE(j.y, j.z, y, w, q);
    EqScale(2, s, x * (w * w), q);
    assert 2 * (x * (w * w)) == (x + x) * (w * w);
    Assemble(lam, w, x, y, x + x, m, s, 2 * s, 8 * (j.y * j.y * (j.y * j.y)), r.x, r.y, q);
    assert lam * lam - (x + x) == lam * lam - x - x;
  }

  /** Replaces the unreduced affine coordinates by the reduced ones. */
  lemma ScaledChord(r: Jacobian, P: Point, x3: int, y3: int, q: Modulus)
    requires P != Infinity && Eq(P.x, x3, q) && Eq(P.y, y3, q)
    requires Eq(r.x, x3 * (r.z * r.z), q) && Eq(r.y, y3 * (r.z * r.z * r.z), q)
    ensures Eq(r.x, P.x * (r.z * r.z), q) && Eq(r.y, P.y * (r.z * r.z * r.z), q)
  {
    hide Eq;
    EqScale(r.z * r.z, P.x, x3, q);
    EqSym(P.x * (r.z * r.z), x3 * (r.z * r.z), q);
    EqTrans(r.x, x3 * (r.z * r.z), P.x * (r.z * r.z), q);
    EqScale(r.z * r.z * r.z, P.y, y3, q);
    EqSym(P.y * (r.z * r.z * r.z), y3 * (r.z * r.z * r.z), q);
    EqTrans(r.y, y3 * (r.z * r.z * r.z), P.y * (r.z * r.z * r.z), q);
  }

  // ----- mixed addition represents addition

  /** The intermediate values of _jadd_mixed. */
  function AddDistance(c: Curve, j: Jacobian, x2: int): int
    requires c.p > 0
  {
    (x2 * (j.z * j.z % c.p) - j.x) % c.p
  }

  function AddRise(c: Curve, j: Jacobian, y2: int): int
    requires c.p > 0
  {
    2 * (y2 * j.z % c.p * (j.z * j.z % c.p) - j.y) % c.p
  }

  /** The coordinates of _jadd_mixed, without the intermediate reductions. */
  lemma AddFormula(c: Curve, j: Jacobian, x2: int, y2: int)
    requires c.Valid()
    ensures var (r, degenerate) := JAddMixed(c, j, x2, y2);
            var h, m := AddDistance(c, j, x2), AddRise(c, j, y2);
            var jj, v := 4 * (h * (h * h)), 4 * (j.x * (h * h));
            && (degenerate <==> h == 0 && m == 0)
            && 0 <= r.z < c.p && Eq(r.z, 2 * (j.z * h), c.p)
            && Eq(r.x, m * m - (jj + 2 * v), c.p)
            && Eq(r.y, m * (v - r.x) - 8 * (j.y * (h * h * h)), c.p)
  {
    hide Eq;
    var p := c.p;
    var zz, h, m := j.z * j.z % p, AddDistance(c, j, x2), AddRise(c, j, y2);
    var hh := h * h % p;
    var i := 4 * hh % p;
    var jj0, v0 := h * i % p, j.x * i % p;
    var jj, v := 4 * (h * (h * h)), 4 * (j.x * (h * h));
    FourSquares(h, hh, i, p);
    ScaledFour(h, h, i, jj0, p);
    ScaledFour(j.x, h, i, v0, p);
    TwiceProduct(j.z, h, zz, hh, JAddMixed(c, j, x2, y2).0.z, p);
    var x3 := (m * m - jj0 - 2 * v0) % p;
    AddFormulaX(m, jj0, jj, v0, v, x3, p);
    AddFormulaY(m, v0, v, x3, j.y, jj0, h, p);
  }

  lemma FourSquares(h: int, hh: int, i: int, q: Modulus)
    requires hh == h * h % q && i == 4 * hh % q
    ensures Eq(i, 4 * (h * h), q)
  {
    hide Eq;
    EqMod(h * h, q);
    EqMod(4 * hh, q);
    EqScale(4, hh, h * h, q);
    EqTrans(i, 4 * hh, 4 * (h * h), q);
  }

  lemma ScaledFour(x: int, h: int, i: int, v: int, q: Modulus)
    requires Eq(i, 4 * (h * h), q) && v == x * i % q
    ensures Eq(v, 4 * (x * (h * h)), q)
  {
    hide Eq;
    EqMod(x * i, q);
    EqScale(x, i, 4 * (h * h), q);
    assert x * (4 * (h * h)) == 4 * (x * (h * h));
    EqTrans(v, x * i, 4 * (x * (h * h)), q);
  }

  lemma AddFormulaX(m: int, jj0: int, jj: int, v0: int, v: int, x3: int, q: Modulus)
    requires Eq(jj0, jj, q) && Eq(v0, v, q) && x3 == (m * m - jj0 - 2 * v0) % q
    ensures Eq(x3, m * m - (jj + 2 * v), q)
  {
    hide Eq;
    EqScale(2, v0, v, q);
    EqSame(m * m, q);
    EqAdd(m * m, m * m, jj0, jj, q);
    EqAdd(m * m - jj0, m * m - jj, 2 * v0, 2 * v, q);
    EqMod(m * m - jj0 - 2 * v0, q);
    EqTrans(x3, m * m - jj0 - 2 * v0, m * m - jj - 2 * v, q);
  }

  lemma AddFormulaY(m: int, v0: int, v: int, x3: int, y: int, jj0: int, h: int, q: Modulus)
    requires Eq(v0, v, q) && Eq(jj0, 4 * (h * (h * h)), q)
    ensures Eq((m * (v0 - x3) - 2 * y * jj0) % q, m * (v - x3) - 8 * (y * (h * h * h)), q)
  {
    hide Eq;
    var jj := 4 * (h * (h * h));
    EqSame(x3, q);
    EqAdd(v0, v, x3, x3, q);
    EqScale(m, v0 - x3, v - x3, q);
    EqScale(2 * y, jj0, jj, q);
    EqAdd(m * (v0 - x3), m * (v - x3), 2 * y * jj0, 2 * y * jj, q);
    EightCubes(y, h);
    EqMod(m * (v0 - x3) - 2 * y * jj0, q);
    EqTrans((m * (v0 - x3) - 2 * y * jj0) % q, m * (v0 - x3) - 2 * y * jj0, m * (v - x3) - 2 * y * jj, q);
  }

  lemma EightCubes(y: int, h: int)
    ensures 2 * y * (4 * (h * (h * h))) == 8 * (y * (h * h * h))
  {
    assert h * (h * h) == h * h * h;
  }

  lemma DistanceEq(c: Curve, j: Jacobian, x1: int, x2: int)
    requires c.Valid() && Eq(j.x, x1 * (j.z * j.z), c.p)
    ensures Eq(AddDistance(c, j, x2), (x2 - x1) * (j.z * j.z), c.p)
  {
    hide Eq;
    var zz := j.z * j.z % c.p;
    EqMod(j.z * j.z, c.p);
    EqScale(x2, zz, j.z * j.z, c.p);
    EqSame(j.x, c.p);
    EqAdd(x2 * zz, x2 * (j.z * j.z), j.x, j.x, c.p);
    EqMod(x2 * zz - j.x, c.p);
    EqTrans(AddDistance(c, j, x2), x2 * zz - j.x, x2 * (j.z * j.z) - j.x, c.p);
    AddH(j.x, j.z, x1, x2, AddDistance(c, j, x2), c.p);
  }

  lemma RiseEq(c: Curve, j: Jacobian, y1: int, y2: int)
    requires c.Valid() && Eq(j.y, y1 * (j.z * j.z * j.z), c.p)
    ensures Eq(AddRise(c, j, y2), 2 * (y2 - y1) * (j.z * j.z * j.z), c.p)
  {
    hide Eq;
    var zz, yz := j.z * j.z % c.p, y2 * j.z % c.p;
    EqMod(j.z * j.z, c.p);
    EqMod(y2 * j.z, c.p);
    EqMul(yz, y2 * j.z, zz, j.z * j.z, c.p);
    assert y2 * j.z * (j.z * j.z) == y2 * (j.z * j.z * j.z);
    EqSame(j.y, c.p);
    EqAdd(yz * zz, y2 * (j.z * j.z * j.z), j.y, j.y, c.p);
    EqScale(2, yz * zz - j.y, y2 * (j.z * j.z * j.z) - j.y, c.p);
    EqMod(2 * (yz * zz - j.y), c.p);
    EqTrans(AddRise(c, j, y2), 2 * (yz * zz - j.y), 2 * (y2 * (j.z * j.z * j.z) - j.y), c.p);
    AddR(j.y, j.z, y1, y2, AddRise(c, j, y2), c.p);
  }

  /** A reduced multiple of a unit vanishes exactly when the other factor does. */
  lemma VanishesWith(h: int, d: int, u: int, p: int)
    requires Prime(p) && 0 <= h < p && Eq(h, d * u, p) && u % p != 0
    ensures h == 0 <==> d % p == 0
  {
    EqZero(h, d * u, p);
    SmallMod(h, p);
    SmallMod(0, p);
    if d % p == 0 {
      MulReduce(d, u, p);
    } else {
      NonZeroProduct(d, u, p);
    }
  }

  lemma ReducedEqual(x: int, y: int, q: Modulus)
    requires 0 <= x < q && 0 <= y < q
    ensures (x - y) % q == 0 <==> x == y
  {
    SmallMod(0, q);
    if (x - y) % q == 0 {
      EqDifference(x, y, q);
      EqReduced(x, y, q);
    }
  }

  /** The flag is set exactly when the points coincide. */
  lemma DegenerateIffEqual(c: Curve, j: Jacobian, P: Point, x2: int, y2: int)
    requires c.Valid() && P != Infinity && Represents(c, j, P)
    requires 0 <= P.x < c.p && 0 <= P.y < c.p && 0 <= x2 < c.p && 0 <= y2 < c.p
    ensures AddDistance(c, j, x2) == 0 <==> x2 == P.x
    ensures AddRise(c, j, y2) == 0 <==> y2 == P.y
  {
    hide Eq;
    NonZeroProduct(j.z, j.z, c.p);
    CubeNonZero(j.z, c.p);
    TwoNonZero(c.p);
    DistanceEq(c, j, P.x, x2);
    VanishesWith(AddDistance(c, j, x2), x2 - P.x, j.z * j.z, c.p);
    ReducedEqual(x2, P.x, c.p);
    RiseEq(c, j, P.y, y2);
    TwiceDifference(y2, P.y, c.p);
    VanishesWith(AddRise(c, j, y2), 2 * (y2 - P.y), j.z * j.z * j.z, c.p);
    ReducedEqual(y2, P.y, c.p);
  }

  lemma TwiceDifference(y: int, y': int, p: int)
    requires Prime(p) && p > 2
    ensures 2 * (y - y') % p == 0 <==> (y - y') % p == 0
  {
    TwoNonZero(p);
    SmallMod(0, p);
    if (y - y') % p == 0 {
      MulReduce(2, y - y', p);
    } else {
      NonZeroProduct(2, y - y', p);
    }
  }

  /** _jadd_mixed adds, unless it reports that the points coincide. */
  lemma AddRepresents(c: Curve, b: int, j: Jacobian, P: Point, R: Point)
    requires c.Valid() && Good(c, b, P) && Good(c, b, R) && P != Infinity && R != Infinity && Represents(c, j, P)
    ensures JAddMixed(c, j, R.x, R.y).1 <==> P == R
    ensures PointAdd(c, P, R).Some?
    ensures P != R ==> Represents(c, JAddMixed(c, j, R.x, R.y).0, PointAdd(c, P, R).value)
  {
    AddFormula(c, j, R.x, R.y);
    DegenerateIffEqual(c, j, P, R.x, R.y);
    AddGood(c, b, P, R);
    hide JAddMixed, OnCurve, Chord, AddDistance, AddRise;
    if P != R {
      if P.x == R.x {
        SameAbscissa(c, b, P.x, P.y, R.y);
        var w := JAddMixed(c, j, R.x, R.y).0.z;
        EqZero(w, 2 * (j.z * 0), c.p);
        SmallMod(0, c.p);
        ReducedZero(w, c.p);
      } else {
        ChordGood(c, b, P.x, P.y, R.x, R.y);
        AddChord(c, j, P.x, P.y, R.x, R.y);
      }
    }
  }

  lemma AddChord(c: Curve, j: Jacobian, x1: int, y1: int, x2: int, y2: int)
    requires c.Valid() && Represents(c, j, Affine(x1, y1)) && (x2 - x1) % c.p != 0 && (x2 - x1) % c.p % c.p != 0
    ensures var lam := (y2 - y1) * Invert((x2 - x1) % c.p, c.p).value % c.p;
            Represents(c, JAddMixed(c, j, x2, y2).0, Chord(c, lam, x1, y1, x2))
  {
    var p := c.p;
    var lam := (y2 - y1) * Invert((x2 - x1) % p, p).value % p;
    var r := JAddMixed(c, j, x2, y2).0;
    var h, m := AddDistance(c, j, x2), AddRise(c, j, y2);
    AddFormula(c, j, x2, y2);
    DistanceEq(c, j, x1, x2);
    RiseEq(c, j, y1, y2);
    ChordSlope(c, x1, y1, x2, y2);
    ChordReduced(c, lam, x1, y1, x2);
    AddZ(j.z, x2 - x1, h, r.z, p);
    hide Eq, JAddMixed, Chord, Invert, AddDistance, AddRise;
    AddChordCore(j, x1, y1, x2, y2, lam, h, m, r, p);
    ScaledChord(r, Chord(c, lam, x1, y1, x2), lam * lam - x1 - x2, lam * (x1 - (lam * lam - x1 - x2)) - y1, p);
  }

  lemma AddZ(Z: int, d: int, h: int, w: int, p: int)
    requires Prime(p) && p > 2 && Z % p != 0 && d % p != 0
    requires Eq(h, d * (Z * Z), p) && Eq(w, 2 * (Z * h), p)
    ensures w % p != 0
  {
    NonZeroProduct(Z, Z, p);
    NonZeroProduct(d, Z * Z, p);
    EqZero(h, d * (Z * Z), p);
    NonZeroProduct(Z, h, p);
    TwoNonZero(p);
    NonZeroProduct(2, Z * h, p);
    EqZero(w, 2 * (Z * h), p);
  }

  lemma AddChordCore(j: Jacobian, x1: int, y1: int, x2: int, y2: int, lam: int, h: int, m: int, r: Jacobian, q: Modulus)
    requires Eq(j.x, x1 * (j.z * j.z), q) && Eq(j.y, y1 * (j.z * j.z * j.z), q)
    requires Eq(lam * (x2 - x1), y2 - y1, q)
    requires Eq(h, (x2 - x1) * (j.z * j.z), q) && Eq(m, 2 * (y2 - y1) * (j.z * j.z * j.z), q)
    requires var jj, v := 4 * (h * (h * h)), 4 * (j.x * (h * h));
             && Eq(r.z, 2 * (j.z * h), q)
             && Eq(r.x, m * m - (jj + 2 * v), q)
             && Eq(r.y, m * (v - r.x) - 8 * (j.y * (h * h * h)), q)
    ensures var x3 := lam * lam - x1 - x2;
            Eq(r.x, x3 * (r.z * r.z), q) && Eq(r.y, (lam * (x1 - x3) - y1) * (r.z * r.z * r.z), q)
  {
    hide Eq;
    var w := r.z;
    var jj, v := 4 * (h * (h * h)), 4 * (j.x * (h * h));
    AddM(j.z, x1, y1, x2, y2, lam, h, m, w, q);
    AddV(j.x, j.z, x1, x2 - x1, h, w, q);
    AddE(j.y, j.z, y1, h, w, q);
    EqScale(2, v, x1 * (w * w), q);
    EqAdd(jj, (x2 - x1) * (w * w), 2 * v, 2 * (x1 * (w * w)), q);
    SumOfAbscissas(x1, x2, w * w);
    Assemble(lam, w, x1, y1, x1 + x2, m, v, jj + 2 * v, 8 * (j.y * (h * h * h)), r.x, r.y, q);
    assert lam * lam - (x1 + x2) == lam * lam - x1 - x2;
  }

  lemma SumOfAbscissas(x1: int, x2: int, ww: int)
    ensures (x2 - x1) * ww + 2 * (x1 * ww) == (x1 + x2) * ww
  {}

  // ----- the ladder

  /** One iteration: double, add with the two patches, keep the sum when the bit is set. */
  function LadderStep(c: Curve, acc: Jacobian, twice: Jacobian, px: int, py: int, bit: bool): Jacobian
    requires c.p > 0
  {
    var d := JDouble(c, acc);
    var (sum, degenerate) := JAddMixed(c, d, px, py);
    var patched := if degenerate then twice else sum;
    var added := if d.z == 0 then Jacobian(px, py, 1) else patched;
    if bit then added else d
  }

  lemma OneRepresents(c: Curve, P: Point)
    requires c.Valid() && P != Infinity
    ensures Represents(c, Jacobian(P.x, P.y, 1), P)
  {
    SmallMod(1, c.p);
  }

  lemma StepRepresents(c: Curve, b: int, acc: Jacobian, A: Point, twice: Jacobian, P: Point, bit: bool)
    requires c.Valid() && Good(c, b, A) && Good(c, b, P) && P != Infinity && Represents(c, acc, A)
    requires PointAdd(c, P, P).Some? && Represents(c, twice, PointAdd(c, P, P).value)
    ensures PointAdd(c, A, A).Some?
    ensures var D := PointAdd(c, A, A).value;
            && PointAdd(c, D, P).Some?
            && Represents(c, LadderStep(c, acc, twice, P.x, P.y, bit), if bit then PointAdd(c, D, P).value else D)
  {
    DoubleRepresents(c, b, acc, A);
    AddGood(c, b, A, A);
    var D := PointAdd(c, A, A).value;
    AddGood(c, b, D, P);
    AddInfinity(c, P);
    OneRepresents(c, P);
    hide JDouble, JAddMixed, Good, PointAdd;
    if D == Infinity {
      assert Represents(c, JDouble(c, acc), D);
    } else {
      NotInfinite(c, JDouble(c, acc), D);
      AddRepresents(c, b, JDouble(c, acc), D, P);
    }
  }

  lemma AddInfinity(c: Curve, P: Point)
    requires c.Valid()
    ensures PointAdd(c, Infinity, P) == Some(P)
  {}

  lemma NotInfinite(c: Curve, j: Jacobian, P: Point)
    requires c.Valid() && P != Infinity && Represents(c, j, P)
    ensures j.z != 0
  {
    SmallMod(0, c.p);
  }

  /** The conversion at the end of _scalar_mult. */
  function ToAffine(c: Curve, j: Jacobian): Option<Point>
    requires Prime(c.p)
  {
    if j.z == 0 then Some(Infinity)
    else
      var zinv :- Invert(j.z, c.p);
      var zinv2 := zinv * zinv % c.p;
      Some(Affine(j.x * zinv2 % c.p, j.y * zinv2 * zinv % c.p))
  }

  lemma ToAffineIs(c: Curve, b: int, j: Jacobian, P: Point)
    requires c.Valid() && Good(c, b, P) && Represents(c, j, P)
    ensures ToAffine(c, j) == Some(P)
  {
    if P != Infinity {
      NotInfinite(c, j, P);
      InvertEq(j.z, c.p);
      var i := Invert(j.z, c.p).value;
      var i2 := i * i % c.p;
      hide Eq, Invert, OnCurve;
      EqMod(i * i, c.p);
      UnitSquare(j.z, i, i2, c.p);
      Unscale(j.x, P.x, j.z * j.z, i2, c.p);
      UnitCube(j.z, i, i2, c.p);
      Unscale(j.y, P.y, j.z * j.z * j.z, i2 * i, c.p);
      assert j.y * i2 * i == j.y * (i2 * i);
    }
  }

  lemma UnitSquare(z: int, i: int, i2: int, q: Modulus)
    requires Eq(z * i, 1, q) && Eq(i2, i * i, q)
    ensures Eq(z * z * i2, 1, q)
  {
    hide Eq;
    EqScale(z * z, i2, i * i, q);
    EqMul(z * i, 1, z * i, 1, q);
    assert z * z * (i * i) == z * i * (z * i);
    EqTrans(z * z * i2, z * i * (z * i), 1, q);
  }

  lemma UnitCube(z: int, i: int, i2: int, q: Modulus)
    requires Eq(z * i, 1, q) && Eq(z * z * i2, 1, q)
    ensures Eq(z * z * z * (i2 * i), 1, q)
  {
    hide Eq;
    EqMul(z * z * i2, 1, z * i, 1, q);
    assert z * z * i2 * (z * i) == z * z * z * (i2 * i);
  }

  /** The state of the ladder after the bits above position i. */
  ghost predicate Climbing(c: Curve, b: int, k: nat, P: Point, i: nat, acc: Jacobian, twice: Jacobian)
  {
    && c.Valid() && P != Infinity && Good(c, b, P)
    && DoubleAndAdd(c, k / Exp2(i), P).Some?
    && Good(c, b, DoubleAndAdd(c, k / Exp2(i), P).value)
    && Represents(c, acc, DoubleAndAdd(c, k / Exp2(i), P).value)
    && PointAdd(c, P, P).Some? && Represents(c, twice, PointAdd(c, P, P).value)
  }

  lemma ClimbStart(c: Curve, k: nat, P: Point)
    requires c.Valid() && P != Infinity && 0 <= P.x < c.p && 0 <= P.y < c.p && k <= c.n
    ensures Climbing(c, OwnConstant(c, P), k, P, BitLength(c.n), Jacobian(1, 1, 0), JDouble(c, Jacobian(P.x, P.y, 1)))
  {
    hide JDouble, PointAdd, Good;
    var b := OwnConstant(c, P);
    OnOwnCurve(c, P);
    OneRepresents(c, P);
    DoubleRepresents(c, b, Jacobian(P.x, P.y, 1), P);
    BitLengthBounds(c.n);
    SmallQuotient(k, Exp2(BitLength(c.n)));
    InfinityGood(c, b);
  }

  lemma ClimbStep(c: Curve, b: int, k: nat, P: Point, i: nat, acc: Jacobian, twice: Jacobian)
    requires Climbing(c, b, k, P, i + 1, acc, twice)
    ensures Climbing(c, b, k, P, i, LadderStep(c, acc, twice, P.x, P.y, k / Exp2(i) % 2 == 1), twice)
  {
    hide LadderStep, PointAdd, Represents, Good, Exp2;
    NextBit(k, i);
    var half := DoubleAndAdd(c, k / Exp2(i + 1), P).value;
    StepRepresents(c, b, acc, half, twice, P, k / Exp2(i) % 2 == 1);
    MultipleGood(c, b, k / Exp2(i), P);
    DoubleAndAddStep(c, k / Exp2(i), P);
  }

  lemma DoubleAndAddStep(c: Curve, k: nat, P: Point)
    requires c.Valid() && DoubleAndAdd(c, k / 2, P).Some?
    requires PointAdd(c, DoubleAndAdd(c, k / 2, P).value, DoubleAndAdd(c, k / 2, P).value).Some?
    ensures var half := DoubleAndAdd(c, k / 2, P).value;
            var double := PointAdd(c, half, half).value;
            DoubleAndAdd(c, k, P) == if k % 2 == 1 then PointAdd(c, double, P) else Some(double)
  {}

  lemma NextBit(k: nat, i: nat)
    ensures k / Exp2(i) >= 0 && k / Exp2(i + 1) == k / Exp2(i) / 2
  {
    HalveQuotient(k, Exp2(i));
  }

  lemma ClimbDone(c: Curve, b: int, k: nat, P: Point, acc: Jacobian, twice: Jacobian)
    requires Climbing(c, b, k, P, 0, acc, twice)
    ensures ToAffine(c, acc) == DoubleAndAdd(c, k, P) && DoubleAndAdd(c, k, P).Some?
  {
    hide Represents, Good, ToAffine, DoubleAndAdd;
    assert k / Exp2(0) == k;
    ToAffineIs(c, b, acc, DoubleAndAdd(c, k, P).value);
  }

  /** _scalar_mult: for every scalar up to the order and every affine point the fixed
      number of iterations gives the result of affine double-and-add, which never
      raises; other scalars are refused. */
  method ScalarMult(c: Curve, k: int, P: Point) returns (r: Option<Point>)
    requires c.Valid() && P != Infinity && 0 <= P.x < c.p && 0 <= P.y < c.p
    ensures k < 0 || k > c.n ==> r == None
    ensures 0 <= k <= c.n ==> r == DoubleAndAdd(c, k, P) && r.Some?
  {
    hide Climbing, LadderStep, ToAffine, DoubleAndAdd, JDouble;
    if k < 0 || k > c.n {
      return None;
    }
    var acc := Jacobian(1, 1, 0);
    var twice := JDouble(c, Jacobian(P.x, P.y, 1));
    var i := BitLength(c.n);
    ghost var b := OwnConstant(c, P);
    ClimbStart(c, k, P);
    while i > 0
      invariant 0 <= i && Climbing(c, b, k, P, i, acc, twice)
    {
      i := i - 1;
      ClimbStep(c, b, k, P, i, acc, twice);
      acc := LadderStep(c, acc, twice, P.x, P.y, k / Exp2(i) % 2 == 1);
    }
    ClimbDone(c, b, k, P, acc, twice);
    r := ToAffine(c, acc);
  }
}
