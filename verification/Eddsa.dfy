/** The algebra of Ed25519: strict point encoding, clamping and the verification equation.
    Encodings are the little-endian integers of their 32 bytes. */
module Eddsa {
  import opened Options
  import opened ModArith
  import opened Primes
  import opened Congruence
  import opened EdCurve

  /** The curve, the base point and the prime order of the base point. */
  datatype Scheme = Scheme(c: Ed, B: Point, L: nat) {
    ghost predicate Valid()
    {
      && c.Valid() && c.p > 2 && c.p < Exp2(255) && Good(c, B)
      && Prime(L) && SizedOrder(L)
    }
  }

  /** The order lies between an eighth of 2^255 and a third of 2^254. */
  ghost predicate SizedOrder(L: nat)
  {
    L > 2 && 3 * L < Exp2(254) && Exp2(255) < 8 * L
  }

  // ----- points as integers

  /** _encode_point. */
  function Encode(P: Point): int
  {
    P.y + Exp2(255) * (P.x % 2)
  }

  /** x^2 from the curve equation. */
  function SquareOfX(c: Ed, y: int): int
    requires c.p > 2
  {
    (y * y - 1) * Recip(c, c.d * y * y + 1) % c.p
  }

  /** The candidate square root, corrected by the root of -1 when needed. */
  function Root(c: Ed, xx: int): Option<int>
    requires c.p > 2
  {
    var x := Pow(xx, (c.p + 3) / 8) % c.p;
    if (x * x - xx) % c.p == 0 then Some(x)
    else
      var x' := x * c.i % c.p;
      if (x' * x' - xx) % c.p == 0 then Some(x') else None
  }

  /** _decode_point_strict of 32 bytes. */
  function Decode(c: Ed, e: int): Option<Point>
    requires c.p > 2
  {
    var y, sign := e % Exp2(255), e / Exp2(255);
    if y >= c.p then None
    else
      var x :- Root(c, SquareOfX(c, y));
      if x == 0 && sign != 0 then None
      else Some(Point(if x % 2 != sign then c.p - x else x, y))
  }

  // ----- square roots

  /** The fourth power of the candidate root of a square. */
  lemma FourthPower(c: Ed, x: int, xx: int)
    requires c.Valid() && c.p > 2 && Eq(xx, x * x, c.p)
    ensures var w := Pow(xx, (c.p + 3) / 8) % c.p;
            Eq(w * w * (w * w), x * x * (x * x), c.p)
  {
    var m := (c.p + 3) / 8;
    assert 4 * (2 * m) == (c.p - 1) + 4;
    hide Eq;
    var w := Pow(xx, m) % c.p;
    EqMod(Pow(xx, m), c.p);
    PowEq(xx, x * x, m, c.p);
    EqTrans(w, Pow(xx, m), Pow(x * x, m), c.p);
    assert Pow(x, 2) == x * x by { PowTwo(x); }
    PowMul(x, 2, m);
    PowEq(w, Pow(x, 2 * m), 4, c.p);
    PowMul(x, 2 * m, 4);
    PowReduced(x, c.p, 4, 1);
    PowFour(x);
    PowFour(w);
    PowSame(Pow(x, 4 * (2 * m)), Pow(x, 4), c.p);
    assert 2 * m * 4 == 4 * (2 * m);
    EqTrans(Pow(w, 4), Pow(x, 4 * (2 * m)), Pow(x, 4), c.p);
  }

  lemma PowTwo(x: int)
    ensures Pow(x, 2) == x * x
  {
    assert Pow(x, 1) == x * Pow(x, 0);
  }

  lemma PowFour(x: int)
    ensures Pow(x, 4) == x * x * (x * x)
  {
    PowAdd(x, 2, 2);
    PowTwo(x);
  }

  lemma PowEq(a: int, b: int, n: nat, q: Modulus)
    requires Eq(a, b, q)
    ensures Eq(Pow(a, n), Pow(b, n), q)
  {
    PowCong(a, b, n, q);
  }

  lemma PowSame(a: int, b: int, q: Modulus)
    requires a % q == b % q
    ensures Eq(a, b, q)
  {}

  /** The root of a square is found, and is one of the two roots. */
  lemma RootFound(c: Ed, x: int, xx: int)
    requires c.Valid() && c.p > 2 && 0 <= x < c.p && Eq(xx, x * x, c.p)
    ensures Root(c, xx).Some?
    ensures Root(c, xx).value == x || Root(c, xx).value == c.p - x
    ensures 0 <= Root(c, xx).value < c.p
  {
    var w := Pow(xx, (c.p + 3) / 8) % c.p;
    FourthPower(c, x, xx);
    RootCases(c, w, x, xx);
  }

  lemma RootCases(c: Ed, w: int, x: int, xx: int)
    requires c.Valid() && c.p > 2 && 0 <= x < c.p && Eq(xx, x * x, c.p) && 0 <= w < c.p
    requires Eq(w * w * (w * w), x * x * (x * x), c.p)
    ensures (w * w - xx) % c.p == 0 ==> w == x || w == c.p - x
    ensures (w * w - xx) % c.p != 0 ==>
              var v := w * c.i % c.p;
              (v * v - xx) % c.p == 0 && (v == x || v == c.p - x)
  {
    EqDifference(w * w, xx, c.p);
    if (w * w - xx) % c.p == 0 {
      EqTrans(w * w, xx, x * x, c.p);
      SameSquare(c.p, w, x);
    } else {
      OppositeSquare(c, w, x, xx);
      var v := w * c.i % c.p;
      EqDifference(v * v, xx, c.p);
      EqTrans(v * v, xx, x * x, c.p);
      SameSquare(c.p, v, x);
    }
  }

  /** Equal squares have equal or opposite roots. */
  lemma SameSquare(p: int, v: int, x: int)
    requires Prime(p) && p > 2 && 0 <= v < p && 0 <= x < p && Eq(v * v, x * x, p)
    ensures v == x || v == p - x
  {
    EqDifference(v * v, x * x, p);
    assert (v - x) * (v + x) == v * v - x * x;
    Euclid(v - x, v + x, p);
    EqDifference(v, x, p);
    if (v - x) % p == 0 {
      EqReduced(v, x, p);
    } else {
      EqDifference(v, -x, p);
      CongFrom(p - x, -x, 1, p);
      if x > 0 {
        EqReduced(v, p - x, p);
      }
    }
  }

  /** When w^2 is not x^2 it is -x^2, and the root of -1 corrects it. */
  lemma OppositeSquare(c: Ed, w: int, x: int, xx: int)
    requires c.Valid() && c.p > 2 && Eq(xx, x * x, c.p) && !Eq(w * w, xx, c.p)
    requires Eq(w * w * (w * w), x * x * (x * x), c.p)
    ensures var v := w * c.i % c.p; Eq(v * v, xx, c.p)
  {
    var p, a, b := c.p, w * w, x * x;
    EqDifference(a * a, b * b, p);
    assert (a - b) * (a + b) == a * a - b * b;
    Euclid(a - b, a + b, p);
    EqDifference(a, b, p);
    EqDifference(a, -b, p);
    hide Eq;
    var v := w * c.i % p;
    EqMod(w * c.i, p);
    EqMul(v, w * c.i, v, w * c.i, p);
    EqMul(a, -b, c.i * c.i, -1, p);
    assert w * c.i * (w * c.i) == a * (c.i * c.i) by { EdCurve.Regroup(w, c.i, w, c.i); }
    EqTrans(v * v, a * (c.i * c.i), b, p);
    EqSym(xx, b, p);
    EqTrans(v * v, b, xx, p);
  }

  // ----- the encoding is a bijection between strict encodings and points

  /** On the curve, x^2 is the quotient that decoding computes. */
  lemma SquareOfXIs(c: Ed, x: int, y: int)
    requires c.Valid() && c.p > 2 && OnCurve(c, x, y)
    ensures Eq(SquareOfX(c, y), x * x, c.p)
  {
    hide Eq, Recip;
    var v := c.d * y * y + 1;
    DenominatorOfX(c, x, y);
    RecipEq(c, v);
    CurveEquation(c, x, y);
    DivideBy(y * y - 1, x * x, v, Recip(c, v), c.p);
  }

  lemma DivideBy(n: int, xx: int, v: int, r: int, q: Modulus)
    requires Eq(n, xx * v, q) && Eq(v * r, 1, q)
    ensures Eq(n * r % q, xx, q)
  {
    hide Eq;
    EqScale(r, n, xx * v, q);
    EqScale(xx, v * r, 1, q);
    assert xx * v * r == xx * (v * r);
    EqMod(n * r, q);
    EqTrans(n * r % q, n * r, xx * (v * r), q);
    EqTrans(n * r % q, xx * (v * r), xx, q);
  }

  /** y^2 - 1 = x^2 (d y^2 + 1). */
  lemma CurveEquation(c: Ed, x: int, y: int)
    requires c.p > 2
    ensures OnCurve(c, x, y) <==> Eq(y * y - 1, x * x * (c.d * y * y + 1), c.p)
  {
    var e := c.d * (x * y * (x * y));
    assert x * x * (c.d * y * y + 1) == e + x * x by {
      EdCurve.Regroup(x, y, x, y);
      assert x * x * (c.d * y * y) == c.d * (x * x * (y * y));
    }
    EqDifference(y * y - x * x, 1 + e, c.p);
    EqDifference(y * y - 1, e + x * x, c.p);
  }

  /** d y^2 + 1 never vanishes, since d would be a square. */
  lemma DenominatorOfX(c: Ed, x: int, y: int)
    requires c.Valid() && c.p > 2
    ensures (c.d * y * y + 1) % c.p != 0
  {
    UnitResidue(-1, c.p);
    SmallMod(0, c.p);
    if (c.d * y * y + 1) % c.p == 0 {
      EqDifference(c.d * y * y, -1, c.p);
      assert c.d * y * y == c.d * (y * y);
      EqSym(c.d * (y * y), -1, c.p);
      EqTrans(c.i * c.i, -1, c.d * (y * y), c.p);
      QuotientSquare(c, c.i, y);
      MulCong(y, 0, y, y, c.p);
      MulCong(c.d, c.d, y * y, 0, c.p);
    }
  }

  lemma EncodeParts(c: Ed, P: Point)
    requires c.p > 2 && c.p < Exp2(255) && 0 <= P.y < c.p
    ensures Encode(P) >= 0 && Encode(P) % Exp2(255) == P.y && Encode(P) / Exp2(255) == P.x % 2
  {
    hide Exp2;
    RemainderUnique(P.x % 2, P.y, Exp2(255));
  }

  /** Decoding the encoding of a point gives the point. */
  lemma DecodeEncode(c: Ed, P: Point)
    requires c.Valid() && c.p > 2 && c.p < Exp2(255) && Good(c, P)
    ensures Encode(P) >= 0 && Decode(c, Encode(P)) == Some(P)
  {
    hide Exp2, Root, SquareOfX, Ed.Valid, OnCurve, Encode, Eq;
    EncodeParts(c, P);
    GoodSquare(c, P);
    var xx := SquareOfX(c, P.y);
    RootFound(c, P.x, xx);
    OddPrime(c);
  }

  lemma GoodSquare(c: Ed, P: Point)
    requires c.Valid() && c.p > 2 && Good(c, P)
    ensures Eq(SquareOfX(c, P.y), P.x * P.x, c.p)
  {
    SquareOfXIs(c, P.x, P.y);
  }

  lemma OddPrime(c: Ed)
    requires c.Valid()
    ensures c.p % 2 == 1
  {}

  /** Whatever decodes is the only encoding of a point of the curve. */
  lemma DecodeUnique(c: Ed, e: nat)
    requires c.Valid() && c.p > 2 && c.p < Exp2(255) && e < 2 * Exp2(255) && Decode(c, e).Some?
    ensures Good(c, Decode(c, e).value) && Encode(Decode(c, e).value) == e
  {
    hide Exp2, Root, SquareOfX, OnCurve, Ed.Valid, Decode;
    DecodedShape(c, e);
    DecodedOnCurve(c, Decode(c, e).value.x, e % Exp2(255));
    RebuildEncoding(e, Exp2(255));
  }

  lemma RebuildEncoding(e: nat, m: nat)
    requires m >= 1
    ensures e == e % m + m * (e / m)
  {}

  /** A decoded point has the ordinate and the parity of its encoding. */
  lemma DecodedShape(c: Ed, e: nat)
    requires c.Valid() && c.p > 2 && e < 2 * Exp2(255) && Decode(c, e).Some?
    ensures var P := Decode(c, e).value;
            && 0 <= P.x < c.p && 0 <= e % Exp2(255) == P.y < c.p && P.x % 2 == e / Exp2(255)
            && Eq(P.x * P.x, SquareOfX(c, P.y), c.p)
  {
    hide Exp2, Root, SquareOfX, Ed.Valid, Eq;
    var xx, sign := SquareOfX(c, e % Exp2(255)), e / Exp2(255);
    SignBit(e, Exp2(255));
    RootSquares(c, xx);
    OddPrime(c);
    ChosenRoot(Root(c, xx).value, sign, xx, c.p);
  }

  lemma ChosenRoot(x: int, sign: int, xx: int, p: Modulus)
    requires 0 <= x < p && p % 2 == 1 && (sign == 0 || sign == 1) && (x == 0 ==> sign == 0) && Eq(x * x, xx, p)
    ensures var r := if x % 2 != sign then p - x else x;
            0 <= r < p && r % 2 == sign && Eq(r * r, xx, p)
  {
    hide Eq;
    NegatedRoot(x, xx, p);
    ChosenParity(x, sign, p);
  }

  lemma ChosenParity(x: int, sign: int, p: int)
    requires 0 <= x < p && p % 2 == 1 && (sign == 0 || sign == 1) && (x == 0 ==> sign == 0)
    ensures var r := if x % 2 != sign then p - x else x;
            0 <= r < p && r % 2 == sign
  {}

  lemma NegatedRoot(x: int, xx: int, p: Modulus)
    requires Eq(x * x, xx, p)
    ensures Eq((p - x) * (p - x), xx, p)
  {
    hide Eq;
    NegatedSquare(x, p);
    EqTrans((p - x) * (p - x), x * x, xx, p);
  }

  lemma SignBit(e: nat, m: nat)
    requires m >= 1 && e < 2 * m
    ensures e / m == 0 || e / m == 1
  {
    var d, r := e / m, e % m;
    assert e == m * d + r;
    if d >= 2 {
      MulLe(2, d, m);
    } else if d < 0 {
      MulLe(d, -1, m);
    }
  }

  lemma RootSquares(c: Ed, xx: int)
    requires c.p > 2 && Root(c, xx).Some?
    ensures 0 <= Root(c, xx).value < c.p && Eq(Root(c, xx).value * Root(c, xx).value, xx, c.p)
  {
    var x := Root(c, xx).value;
    EqDifference(x * x, xx, c.p);
  }

  lemma NegatedSquare(x: int, p: Modulus)
    ensures Eq((p - x) * (p - x), x * x, p)
  {
    assert (p - x) * (p - x) - x * x == (p - 2 * x) * p;
    CongFrom((p - x) * (p - x), x * x, p - 2 * x, p);
  }

  lemma DecodedOnCurve(c: Ed, x: int, y: int)
    requires c.Valid() && c.p > 2 && Eq(x * x, SquareOfX(c, y), c.p)
    ensures OnCurve(c, x, y)
  {
    var v, n := c.d * y * y + 1, y * y - 1;
    DenominatorOfX(c, x, y);
    RecipEq(c, v);
    CurveEquation(c, x, y);
    hide Eq, Recip, OnCurve;
    var r := Recip(c, v);
    EqMod(n * r, c.p);
    EqTrans(x * x, SquareOfX(c, y), n * r, c.p);
    EqScale(v, x * x, n * r, c.p);
    EqScale(n, v * r, 1, c.p);
    assert n * r * v == n * (v * r);
    EqTrans(x * x * v, n * (v * r), n, c.p);
    EqSym(x * x * v, n, c.p);
  }

  // ----- clamping

  /** _clamp: bits 0 to 2 cleared, bit 254 set, higher bits cleared. */
  function Clamp(h: int): nat
  {
    Exp2(254) + h % Exp2(254) / 8 * 8
  }

  /** A clamped scalar is never a multiple of the group order, nor is eight times it. */
  lemma ClampedNotMultiple(L: nat, h: int)
    requires Prime(L) && SizedOrder(L)
    ensures Exp2(254) <= Clamp(h) < Exp2(255)
    ensures Clamp(h) % L != 0 && 8 * Clamp(h) % L != 0
  {
    ClampRange(h);
    var a := Clamp(h);
    if a % L == 0 {
      MultiplesInRange(L, a / L, a);
      assert false;
    }
    SmallMod(2, L);
    NonZeroProduct(2, a, L);
    NonZeroProduct(2, 2 * a, L);
    NonZeroProduct(2, 2 * (2 * a), L);
    assert 2 * (2 * (2 * a)) == 8 * a;
  }

  lemma ClampRange(h: int)
    ensures Exp2(254) <= Clamp(h) < Exp2(255) && Clamp(h) % 8 == 0
  {
    hide Exp2;
    Exp2Add(3, 251);
    Exp2Add(1, 254);
    Exp2At4();
    ClampArith(h % Exp2(254), Exp2(254), Exp2(251));
  }

  lemma ClampArith(r: nat, m: nat, k: nat)
    requires r < m && m == 8 * k
    ensures m <= m + r / 8 * 8 < 2 * m && (m + r / 8 * 8) % 8 == 0
  {}

  /** Multiples of an odd number by 4 to 7 are not divisible by eight. */
  lemma MultiplesInRange(L: nat, t: int, a: nat)
    requires SizedOrder(L) && Prime(L) && a % L == 0 && t == a / L && Exp2(254) <= a < Exp2(255)
    ensures a % 8 != 0
  {
    hide Exp2, Prime, Divides;
    OddOrder(L);
    assert a == L * t;
    if t <= 3 {
      MulLe(t, 3, L);
      assert false;
    }
    if t >= 8 {
      MulLe(8, t, L);
      assert false;
    }
    SmallMultiples(L, t);
  }

  lemma SmallMultiples(L: nat, t: int)
    requires L % 2 == 1 && 4 <= t <= 7
    ensures L * t % 8 != 0
  {}

  lemma OddOrder(L: nat)
    requires Prime(L) && L > 2
    ensures L % 2 == 1
  {
    assert !Divides(2, L);
  }

  // ----- signatures

  /** Multiples of the base point add, and L is its order. */
  ghost predicate GroupLaws(S: Scheme)
  {
    && S.Valid()
    && (forall i: nat, j: nat :: AddLaw(S, i, j))
    && (forall i: nat :: OrderLaw(S, i))
  }

  ghost predicate AddLaw(S: Scheme, i: nat, j: nat)
    requires S.c.p > 2
  {
    Add(S.c, Multiple(S.c, i, S.B), Multiple(S.c, j, S.B)) == Multiple(S.c, i + j, S.B)
  }

  ghost predicate OrderLaw(S: Scheme, i: nat)
    requires S.c.p > 2 && S.L > 0
  {
    Multiple(S.c, i, S.B) == Identity <==> i % S.L == 0
  }

  /** So a multiple of a multiple is the multiple by the product. */
  lemma {:induction false} MultipleOfMultiple(S: Scheme, u: nat, a: nat)
    requires GroupLaws(S)
    ensures S.c.p > 2 && u * a >= 0 && Multiple(S.c, u, Multiple(S.c, a, S.B)) == Multiple(S.c, u * a, S.B)
    decreases u
  {
    hide Add, GroupLaws, Exp2;
    SchemeFacts(S);
    HalvedProduct(u, a);
    if u > 0 {
      hide Multiple;
      MultipleOfMultiple(S, u / 2, a);
      DoubledMultiple(S, u, Multiple(S.c, a, S.B), a, u / 2 * a);
    }
  }

  /** One step of double-and-add on a multiple of the base point. */
  lemma DoubledMultiple(S: Scheme, u: nat, A: Point, a: nat, m: nat)
    requires GroupLaws(S) && u > 0 && S.c.p > 2 && A == Multiple(S.c, a, S.B)
    requires Multiple(S.c, u / 2, A) == Multiple(S.c, m, S.B)
    ensures Multiple(S.c, u, A) == Multiple(S.c, m + m + (if u % 2 == 1 then a else 0), S.B)
  {
    hide Add, GroupLaws;
    Sum(S, m, m);
    Sum(S, m + m, a);
  }

  lemma Sum(S: Scheme, i: nat, j: nat)
    requires GroupLaws(S)
    ensures S.c.p > 2 && Add(S.c, Multiple(S.c, i, S.B), Multiple(S.c, j, S.B)) == Multiple(S.c, i + j, S.B)
  {
    hide Add, Multiple, OrderLaw;
    assert AddLaw(S, i, j);
  }

  /** Congruent scalars give the same multiple. */
  lemma Periodic(S: Scheme, i: nat, j: nat)
    requires GroupLaws(S) && i <= j && i % S.L == j % S.L
    ensures Multiple(S.c, i, S.B) == Multiple(S.c, j, S.B)
  {
    hide Multiple, Add, Exp2;
    var d: nat := j - i;
    AddCong(j, i, i, i, S.L);
    assert OrderLaw(S, d) && OrderLaw(S, 0) && AddLaw(S, i, d) && AddLaw(S, i, 0);
    SmallMod(0, S.L);
  }

  /** The rejection of small-order keys never fires on an honest key. */
  lemma HonestKeyAccepted(S: Scheme, h: int)
    requires GroupLaws(S)
    ensures var A := Multiple(S.c, Clamp(h), S.B);
            Good(S.c, A) && Good(S.c, Multiple(S.c, 8, A)) && Multiple(S.c, 8, A) != Identity
  {
    hide Multiple, Add, Exp2, Good, Clamp;
    var a := Clamp(h);
    var A := Multiple(S.c, a, S.B);
    MultipleGood(S.c, a, S.B);
    ClampedNotMultiple(S.L, h);
    MultipleOfMultiple(S, 8, a);
    assert OrderLaw(S, 8 * a);
    MultipleGood(S.c, 8, A);
  }

  /** Multiples of the base point are equal exactly for congruent scalars. */
  lemma EqualMultiples(S: Scheme, i: nat, j: nat)
    requires GroupLaws(S)
    ensures S.c.p > 2 && S.L > 0
    ensures Multiple(S.c, i, S.B) == Multiple(S.c, j, S.B) <==> i % S.L == j % S.L
  {
    hide Multiple, Add, Exp2, GroupLaws;
    SchemeFacts(S);
    if i % S.L == j % S.L {
      if i <= j {
        Periodic(S, i, j);
      } else {
        Periodic(S, j, i);
      }
    }
    if Multiple(S.c, i, S.B) == Multiple(S.c, j, S.B) {
      var m: nat := S.L - i % S.L;
      Sum(S, i, m);
      Sum(S, j, m);
      Completed(i, S.L);
      Vanishes(S, i + m);
      Vanishes(S, j + m);
      SameResidue(i, j, m, S.L);
    }
  }

  lemma Vanishes(S: Scheme, i: nat)
    requires GroupLaws(S)
    ensures S.c.p > 2 && S.L > 0 && (Multiple(S.c, i, S.B) == Identity <==> i % S.L == 0)
  {
    hide Multiple, AddLaw;
    assert OrderLaw(S, i);
  }

  lemma Completed(i: nat, L: nat)
    requires L > 1
    ensures (i + (L - i % L)) % L == 0
  {
    AddReduce(i, L - i % L, L);
    AddMultiple(0, 1, L);
    SmallMod(0, L);
  }

  lemma SameResidue(i: nat, j: nat, m: nat, L: nat)
    requires L > 1 && (i + m) % L == (j + m) % L
    ensures i % L == j % L
  {
    AddCong(i + m, j + m, m, m, L);
  }

  /** A factor of eight cancels modulo the order. */
  lemma EightCancels(L: nat, u: int, v: int)
    requires Prime(L) && SizedOrder(L)
    ensures 8 * u % L == 8 * v % L <==> u % L == v % L
  {
    hide Exp2, Prime;
    if u % L == v % L {
      MulCong(8, 8, u, v, L);
    }
    if 8 * u % L == 8 * v % L {
      AddCong(8 * u, 8 * v, 8 * v, 8 * v, L);
      SmallMod(0, L);
      SmallMod(2, L);
      var d := u - v;
      if d % L != 0 {
        NonZeroProduct(2, d, L);
        NonZeroProduct(2, 2 * d, L);
        NonZeroProduct(2, 2 * (2 * d), L);
      }
      AddCong(d, 0, v, v, L);
    }
  }

  /** The cofactored equation between multiples of the base point holds exactly for the
      scalar the signer computes. */
  lemma EquationIff(S: Scheme, a: nat, r: nat, k: nat, s: nat)
    requires GroupLaws(S) && s < S.L
    ensures S.c.p > 2 && S.L > 0 && k * a >= 0
    ensures Multiple(S.c, 8 * s, S.B)
         == Multiple(S.c, 8, Add(S.c, Multiple(S.c, r, S.B), Multiple(S.c, k, Multiple(S.c, a, S.B))))
       <==> s == (r + k * a) % S.L
  {
    hide Multiple, Add, Exp2, GroupLaws, Prime;
    SchemeFacts(S);
    MultipleOfMultiple(S, k, a);
    var t: nat := r + k * a;
    Sum(S, r, k * a);
    MultipleOfMultiple(S, 8, t);
    EqualMultiples(S, 8 * s, 8 * t);
    EightCancels(S.L, s, t);
    SmallMod(s, S.L);
  }

  lemma SchemeFacts(S: Scheme)
    requires GroupLaws(S)
    ensures S.c.Valid() && S.c.p > 2 && S.c.p < Exp2(255) && S.L > 0 && Prime(S.L) && SizedOrder(S.L) && Good(S.c, S.B)
  {}

  // ----- the constants of Ed25519

  const P25519: int := 0x7FFFFFFFFFFFFFFFFFFFFFFFFFFFFFFFFFFFFFFFFFFFFFFFFFFFFFFFFFFFFFED
  const L25519: nat := 0x1000000000000000000000000000000014DEF9DEA2F79CD65812631A5CF5D3ED

  lemma Exp2Join(m: nat, n: nat, a: int, b: int)
    requires Exp2(m) == a && Exp2(n) == b
    ensures Exp2(m + n) == a * b
  {
    Exp2Add(m, n);
  }

  lemma Exp2At4()
    ensures Exp2(4) == 16 && Exp2(2) == 4 && Exp2(3) == 8 && Exp2(1) == 2
  {}

  lemma Exp2At252()
    ensures Exp2(252) == 0x1000000000000000000000000000000000000000000000000000000000000000
    ensures Exp2(2) == 4 && Exp2(3) == 8
  {
    hide Exp2;
    Exp2At4();
    Exp2Join(4, 4, 0x10, 0x10);
    Exp2Join(8, 8, 0x100, 0x100);
    Exp2Join(16, 16, 0x10000, 0x10000);
    Exp2Join(32, 32, 0x1_0000_0000, 0x1_0000_0000);
    Exp2Join(64, 64, 0x1_0000_0000_0000_0000, 0x1_0000_0000_0000_0000);
    Exp2Join(128, 64, 0x1_0000_0000_0000_0000_0000_0000_0000_0000, 0x1_0000_0000_0000_0000);
    Exp2Join(192, 32, 0x1_0000_0000_0000_0000_0000_0000_0000_0000_0000_0000_0000_0000, 0x1_0000_0000);
    Exp2Join(224, 16, 0x1_0000_0000_0000_0000_0000_0000_0000_0000_0000_0000_0000_0000_0000_0000, 0x10000);
    Exp2Join(240, 8, 0x1_0000_0000_0000_0000_0000_0000_0000_0000_0000_0000_0000_0000_0000_0000_0000, 0x100);
    Exp2Join(248, 4, 0x1_0000_0000_0000_0000_0000_0000_0000_0000_0000_0000_0000_0000_0000_0000_0000_00, 0x10);
  }

  /** The modulus and the order of eddsa.py have the sizes that the proofs use. */
  lemma Ed25519Constants()
    ensures P25519 % 8 == 5 && P25519 == Exp2(255) - 19
    ensures SizedOrder(L25519)
  {
    hide Exp2;
    Exp2At252();
    Exp2Add(252, 2);
    Exp2Add(252, 3);
  }
}
