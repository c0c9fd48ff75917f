/** The field algebra behind the ladder: each Jacobian formula, multiplied out, is the
    affine chord-and-tangent formula scaled by powers of the new z. */
module EcAlgebra {
  import opened ModArith
  import opened Congruence

  // ----- shared end of both formulas

  /** From m = lam w, s = x w^2, n = sum w^2 and e = y w^3 the new coordinates. */
  lemma Assemble(lam: int, w: int, x: int, y: int, sum: int, m: int, s: int, n: int, e: int,
                 t: int, u: int, q: Modulus)
    requires Eq(m, lam * w, q) && Eq(s, x * (w * w), q) && Eq(n, sum * (w * w), q) && Eq(e, y * (w * w * w), q)
    requires Eq(t, m * m - n, q) && Eq(u, m * (s - t) - e, q)
    ensures Eq(t, (lam * lam - sum) * (w * w), q)
    ensures Eq(u, (lam * (x - (lam * lam - sum)) - y) * (w * w * w), q)
  {
    hide Eq;
    var x3 := lam * lam - sum;
    EqMul(m, lam * w, m, lam * w, q);
    EqAdd(m * m, (lam * w) * (lam * w), n, sum * (w * w), q);
    SquareOut(lam, w, sum);
    EqTrans(t, m * m - n, x3 * (w * w), q);
    EqAdd(s, x * (w * w), t, x3 * (w * w), q);
    EqMul(m, lam * w, s - t, x * (w * w) - x3 * (w * w), q);
    EqAdd(m * (s - t), (lam * w) * (x * (w * w) - x3 * (w * w)), e, y * (w * w * w), q);
    CubeOut(lam, w, x, x3, y);
    EqTrans(u, m * (s - t) - e, (lam * (x - x3) - y) * (w * w * w), q);
  }

  lemma SquareOut(lam: int, w: int, sum: int)
    ensures (lam * w) * (lam * w) - sum * (w * w) == (lam * lam - sum) * (w * w)
  {}

  lemma CubeOut(lam: int, w: int, x: int, x3: int, y: int)
    ensures (lam * w) * (x * (w * w) - x3 * (w * w)) - y * (w * w * w) == (lam * (x - x3) - y) * (w * w * w)
  {
    var ww := w * w;
    assert x * ww - x3 * ww == (x - x3) * ww;
    assert (lam * w) * ((x - x3) * ww) == lam * (x - x3) * (w * ww);
  }

  // ----- doubling

  /** 4 X Y^2 = x w^2. */
  lemma DoubleS(X: int, Y: int, Z: int, x: int, w: int, q: Modulus)
    requires Eq(X, x * (Z * Z), q) && Eq(w, 2 * (Y * Z), q)
    ensures Eq(4 * (X * (Y * Y)), x * (w * w), q)
  {
    hide Eq;
    var v := 2 * (Y * Z);
    EqMul(w, v, w, v, q);
    EqScale(x, w * w, v * v, q);
    EqScale(4 * (Y * Y), X, x * (Z * Z), q);
    DoubleSIdentity(X, Y, Z, x);
    EqSym(x * (w * w), x * (v * v), q);
    EqTrans(4 * (X * (Y * Y)), x * (v * v), x * (w * w), q);
  }

  lemma DoubleSIdentity(X: int, Y: int, Z: int, x: int)
    ensures x * (2 * (Y * Z) * (2 * (Y * Z))) == 4 * (Y * Y) * (x * (Z * Z))
    ensures 4 * (X * (Y * Y)) == 4 * (Y * Y) * X
  {
    var b := Y * Z;
    assert 2 * b * (2 * b) == 4 * (b * b);
    assert b * b == (Y * Y) * (Z * Z);
  }

  /** 3 X^2 + a Z^4 = lam w, where lam is the slope of the tangent. */
  lemma DoubleM(X: int, Y: int, Z: int, x: int, y: int, a: int, lam: int, w: int, q: Modulus)
    requires Eq(X, x * (Z * Z), q) && Eq(Y, y * (Z * Z * Z), q) && Eq(w, 2 * (Y * Z), q)
    requires Eq(2 * y * lam, 3 * (x * x) + a, q)
    ensures Eq(3 * (X * X) + a * (Z * Z * (Z * Z)), lam * w, q)
  {
    hide Eq;
    var zz := Z * Z;
    var z4 := zz * zz;
    EqMul(X, x * zz, X, x * zz, q);
    EqScale(3, X * X, x * zz * (x * zz), q);
    EqSame(a * z4, q);
    EqAdd(3 * (X * X), 3 * (x * zz * (x * zz)), a * z4, a * z4, q);
    EqScale(z4, 2 * y * lam, 3 * (x * x) + a, q);
    EqScale(2 * Z, Y, y * (Z * Z * Z), q);
    EqTrans2(w, 2 * (Y * Z), 2 * Z * Y, 2 * Z * (y * (Z * Z * Z)), q);
    EqScale(lam, w, 2 * Z * (y * (Z * Z * Z)), q);
    DoubleMIdentity(Z, x, y, a, lam);
    EqSym(lam * w, lam * (2 * Z * (y * (Z * Z * Z))), q);
    EqSym(z4 * (2 * y * lam), z4 * (3 * (x * x) + a), q);
    EqTrans(3 * (X * X) + a * z4, z4 * (3 * (x * x) + a), lam * (2 * Z * (y * (Z * Z * Z))), q);
    EqTrans(3 * (X * X) + a * z4, lam * (2 * Z * (y * (Z * Z * Z))), lam * w, q);
  }

  lemma EqTrans2(a: int, b: int, b': int, c: int, q: Modulus)
    requires Eq(a, b, q) && b == b' && Eq(b', c, q)
    ensures Eq(a, c, q)
  {}

  lemma DoubleMIdentity(Z: int, x: int, y: int, a: int, lam: int)
    ensures var z4 := Z * Z * (Z * Z);
            && 3 * (x * (Z * Z) * (x * (Z * Z))) + a * z4 == z4 * (3 * (x * x) + a)
            && z4 * (2 * y * lam) == lam * (2 * Z * (y * (Z * Z * Z)))
  {
    var zz := Z * Z;
    var z4 := zz * zz;
    assert x * zz * (x * zz) == (x * x) * z4;
    assert Z * (Z * Z * Z) == z4;
    assert 2 * Z * (y * (Z * Z * Z)) == 2 * y * (Z * (Z * Z * Z));
    assert lam * (2 * y * z4) == z4 * (2 * y * lam);
  }

  /** 8 Y^4 = y w^3. */
  lemma DoubleE(Y: int, Z: int, y: int, w: int, q: Modulus)
    requires Eq(Y, y * (Z * Z * Z), q) && Eq(w, 2 * (Y * Z), q)
    ensures Eq(8 * (Y * Y * (Y * Y)), y * (w * w * w), q)
  {
    hide Eq;
    var v := 2 * (Y * Z);
    EqMul(w, v, w, v, q);
    EqMul(w * w, v * v, w, v, q);
    EqScale(y, w * w * w, v * v * v, q);
    EqScale(8 * (Y * Y * Y), Y, y * (Z * Z * Z), q);
    DoubleEIdentity(Y, Z, y);
    EqSym(y * (w * w * w), y * (v * v * v), q);
    EqTrans(8 * (Y * Y * (Y * Y)), y * (v * v * v), y * (w * w * w), q);
  }

  lemma DoubleEIdentity(Y: int, Z: int, y: int)
    ensures 8 * (Y * Y * (Y * Y)) == 8 * (Y * Y * Y) * Y
    ensures 8 * (Y * Y * Y) * (y * (Z * Z * Z)) == y * (2 * (Y * Z) * (2 * (Y * Z)) * (2 * (Y * Z)))
  {
    var b := Y * Z;
    assert 2 * b * (2 * b) * (2 * b) == 8 * (b * b * b);
    assert b * b == (Y * Y) * (Z * Z);
    assert b * b * b == (Y * Y * Y) * (Z * Z * Z);
  }

  // ----- mixed addition

  /** The difference of the abscissas, scaled. */
  lemma AddH(X: int, Z: int, x1: int, x2: int, h: int, q: Modulus)
    requires Eq(X, x1 * (Z * Z), q) && Eq(h, x2 * (Z * Z) - X, q)
    ensures Eq(h, (x2 - x1) * (Z * Z), q)
  {
    hide Eq;
    EqSame(x2 * (Z * Z), q);
    EqAdd(x2 * (Z * Z), x2 * (Z * Z), X, x1 * (Z * Z), q);
    assert x2 * (Z * Z) - x1 * (Z * Z) == (x2 - x1) * (Z * Z);
    EqTrans(h, x2 * (Z * Z) - X, (x2 - x1) * (Z * Z), q);
  }

  /** 2 (y2 Z^3 - Y) = 2 (y2 - y1) Z^3. */
  lemma AddR(Y: int, Z: int, y1: int, y2: int, r: int, q: Modulus)
    requires Eq(Y, y1 * (Z * Z * Z), q) && Eq(r, 2 * (y2 * (Z * Z * Z) - Y), q)
    ensures Eq(r, 2 * (y2 - y1) * (Z * Z * Z), q)
  {
    hide Eq;
    var z3 := Z * Z * Z;
    EqSame(y2 * z3, q);
    EqAdd(y2 * z3, y2 * z3, Y, y1 * z3, q);
    EqScale(2, y2 * z3 - Y, y2 * z3 - y1 * z3, q);
    assert 2 * (y2 * z3 - y1 * z3) == 2 * (y2 - y1) * z3;
    EqTrans(r, 2 * (y2 * z3 - Y), 2 * (y2 - y1) * z3, q);
  }

  /** r = lam w, where lam is the slope of the chord. */
  lemma AddM(Z: int, x1: int, y1: int, x2: int, y2: int, lam: int, h: int, r: int, w: int, q: Modulus)
    requires Eq(h, (x2 - x1) * (Z * Z), q) && Eq(r, 2 * (y2 - y1) * (Z * Z * Z), q) && Eq(w, 2 * (Z * h), q)
    requires Eq(lam * (x2 - x1), y2 - y1, q)
    ensures Eq(r, lam * w, q)
  {
    hide Eq;
    var d, z3 := x2 - x1, Z * Z * Z;
    EqScale(2 * Z, h, d * (Z * Z), q);
    EqTrans2(w, 2 * (Z * h), 2 * Z * h, 2 * Z * (d * (Z * Z)), q);
    EqScale(lam, w, 2 * Z * (d * (Z * Z)), q);
    EqScale(2 * z3, lam * d, y2 - y1, q);
    AddMIdentity(Z, d, lam, y2 - y1);
    EqTrans(lam * w, lam * (2 * Z * (d * (Z * Z))), 2 * (y2 - y1) * z3, q);
    EqSym(lam * w, 2 * (y2 - y1) * z3, q);
    EqTrans(r, 2 * (y2 - y1) * z3, lam * w, q);
  }

  lemma AddMIdentity(Z: int, d: int, lam: int, e: int)
    ensures lam * (2 * Z * (d * (Z * Z))) == 2 * (Z * Z * Z) * (lam * d)
    ensures 2 * (Z * Z * Z) * e == 2 * e * (Z * Z * Z)
  {
    assert 2 * Z * (d * (Z * Z)) == 2 * d * (Z * Z * Z);
    assert lam * (2 * d * (Z * Z * Z)) == 2 * (Z * Z * Z) * (lam * d);
  }

  /** 4 X h^2 = x1 w^2 and 4 h^3 = (x2 - x1) w^2. */
  lemma AddV(X: int, Z: int, x1: int, d: int, h: int, w: int, q: Modulus)
    requires Eq(X, x1 * (Z * Z), q) && Eq(h, d * (Z * Z), q) && Eq(w, 2 * (Z * h), q)
    ensures Eq(4 * (X * (h * h)), x1 * (w * w), q)
    ensures Eq(4 * (h * (h * h)), d * (w * w), q)
  {
    assert 2 * (Z * h) == 2 * (h * Z);
    DoubleS(X, h, Z, x1, w, q);
    DoubleS(h, h, Z, d, w, q);
  }

  /** 2 Y (4 h^3) = y1 w^3. */
  lemma AddE(Y: int, Z: int, y1: int, h: int, w: int, q: Modulus)
    requires Eq(Y, y1 * (Z * Z * Z), q) && Eq(w, 2 * (Z * h), q)
    ensures Eq(8 * (Y * (h * h * h)), y1 * (w * w * w), q)
  {
    hide Eq;
    var v := 2 * (Z * h);
    EqMul(w, v, w, v, q);
    EqMul(w * w, v * v, w, v, q);
    EqScale(y1, w * w * w, v * v * v, q);
    EqScale(8 * (h * h * h), Y, y1 * (Z * Z * Z), q);
    assert 2 * (Z * h) == 2 * (h * Z);
    DoubleEIdentity(h, Z, y1);
    assert 8 * (Y * (h * h * h)) == 8 * (h * h * h) * Y;
    EqSym(y1 * (w * w * w), y1 * (v * v * v), q);
    EqTrans(8 * (Y * (h * h * h)), y1 * (v * v * v), y1 * (w * w * w), q);
  }

  // ----- the curve equation

  function Cubic(x: int, a: int, b: int): int { x * x * x + a * x + b }

  ghost predicate OnCurve(x: int, y: int, a: int, b: int, q: Modulus)
  {
    Eq(y * y, Cubic(x, a, b), q)
  }

  /** The curve equation along a line through (x, y), in powers of the distance. */
  lemma AlongLine(x: int, y: int, a: int, b: int, lam: int, u: int)
    ensures Cubic(x + u, a, b) - (y + lam * u) * (y + lam * u)
         == (Cubic(x, a, b) - y * y) + u * (3 * (x * x) + a - 2 * y * lam) + u * u * (3 * x - lam * lam) + u * u * u
  {
    assert (y + lam * u) * (y + lam * u) == y * y + u * (2 * y * lam) + u * u * (lam * lam);
    assert (x + u) * (x + u) == x * x + 2 * (x * u) + u * u;
    assert (x + u) * (x + u) * (x + u) == x * x * x + 3 * (x * x * u) + 3 * (x * (u * u)) + u * u * u;
  }

  lemma DropMultiples(y: int, f: int, e: int, u: int, g: int, q: Modulus)
    requires f - y == e + u * g && Eq(e, 0, q) && Eq(g, 0, q)
    ensures Eq(y, f, q)
  {
    hide Eq;
    EqScale(u, g, 0, q);
    EqAdd(e, 0, u * g, 0, q);
    EqSame(f, q);
    EqAdd(f, f, e + u * g, 0, q);
  }

  lemma EqToZero(a: int, b: int, q: Modulus)
    requires Eq(a, b, q)
    ensures Eq(b - a, 0, q) && Eq(a - b, 0, q)
  {
    EqSame(a, q);
    EqSame(b, q);
    EqAdd(a, b, b, b, q);
    EqAdd(b, b, a, b, q);
  }

  /** The mirror of the third point of a tangent is on the curve. */
  lemma TangentCloses(x: int, y: int, a: int, b: int, lam: int, q: Modulus)
    requires OnCurve(x, y, a, b, q) && Eq(2 * y * lam, 3 * (x * x) + a, q)
    ensures var x3 := lam * lam - x - x;
            OnCurve(x3, lam * (x - x3) - y, a, b, q)
  {
    hide Eq, Cubic;
    var x3 := lam * lam - x - x;
    var u, y3 := x3 - x, lam * (x - x3) - y;
    AlongLine(x, y, a, b, lam, u);
    EqToZero(y * y, Cubic(x, a, b), q);
    EqToZero(2 * y * lam, 3 * (x * x) + a, q);
    MirrorSquare(lam, x, x3, y);
    ThirdPower(u, x, lam);
    DropMultiples(y3 * y3, Cubic(x3, a, b), Cubic(x, a, b) - y * y, u, 3 * (x * x) + a - 2 * y * lam, q);
  }

  lemma MirrorSquare(lam: int, x: int, x3: int, y: int)
    ensures var y3 := lam * (x - x3) - y;
            y3 * y3 == (y + lam * (x3 - x)) * (y + lam * (x3 - x))
  {
    var l := y + lam * (x3 - x);
    assert lam * (x - x3) - y == -l;
  }

  lemma ThirdPower(u: int, x: int, lam: int)
    requires u == lam * lam - x - x - x
    ensures u * u * (3 * x - lam * lam) + u * u * u == 0
  {
    assert 3 * x - lam * lam == -u;
    assert u * u * (-u) == -(u * u * u);
  }

  /** The mirror of the third point of a chord is on the curve. */
  lemma ChordCloses(x1: int, y1: int, x2: int, y2: int, a: int, b: int, lam: int, i: int, q: Modulus)
    requires OnCurve(x1, y1, a, b, q) && OnCurve(x2, y2, a, b, q)
    requires Eq(lam * (x2 - x1), y2 - y1, q) && Eq((x2 - x1) * i, 1, q)
    ensures var x3 := lam * lam - x1 - x2;
            OnCurve(x3, lam * (x1 - x3) - y1, a, b, q)
  {
    hide Eq, Cubic;
    var x3, d := lam * lam - x1 - x2, x2 - x1;
    var u, y3, c := x3 - x1, lam * (x1 - x3) - y1, 3 * (x1 * x1) + a - 2 * y1 * lam;
    AlongLine(x1, y1, a, b, lam, u);
    AlongLine(x1, y1, a, b, lam, d);
    EqToZero(y1 * y1, Cubic(x1, a, b), q);
    SecondOnLine(y1, y2, lam, d, Cubic(x2, a, b), q);
    ChordFactor(u, d, x1, lam, c);
    ChordFactor(d, u, x1, lam, c);
    CancelDistance(d, c - d * u, Cubic(x1, a, b) - y1 * y1, i, q);
    MirrorSquare(lam, x1, x3, y1);
    DropMultiples(y3 * y3, Cubic(x3, a, b), Cubic(x1, a, b) - y1 * y1, u, c - d * u, q);
  }

  lemma SecondOnLine(y1: int, y2: int, lam: int, d: int, f: int, q: Modulus)
    requires Eq(y2 * y2, f, q) && Eq(lam * d, y2 - y1, q)
    ensures Eq(f - (y1 + lam * d) * (y1 + lam * d), 0, q)
  {
    hide Eq;
    var l := y1 + lam * d;
    EqSame(y1, q);
    EqAdd(y1, y1, lam * d, y2 - y1, q);
    EqMul(l, y2, l, y2, q);
    EqTrans(l * l, y2 * y2, f, q);
    EqToZero(l * l, f, q);
  }

  lemma ChordFactor(u: int, d: int, x1: int, lam: int, c: int)
    requires u + d == lam * lam - 3 * x1
    ensures u * c + u * u * (3 * x1 - lam * lam) + u * u * u == u * (c - d * u)
    ensures u * c + u * u * (3 * x1 - lam * lam) + u * u * u == u * (c - u * d)
  {
    assert 3 * x1 - lam * lam == -u - d;
    assert u * u * (-u - d) == -(u * u * u) - u * (d * u);
  }

  lemma CancelDistance(d: int, g: int, e: int, i: int, q: Modulus)
    requires Eq(e + d * g, 0, q) && Eq(e, 0, q) && Eq(d * i, 1, q)
    ensures Eq(g, 0, q)
  {
    hide Eq;
    EqAdd(e + d * g, 0, e, 0, q);
    EqScale(i, d * g, 0, q);
    EqScale(g, d * i, 1, q);
    assert i * (d * g) == g * (d * i);
    EqSym(g * (d * i), g * 1, q);
    EqTrans(g, g * (d * i), 0, q);
  }
}
