/** ECDSA over the curves of Ec: every signature verifies, and so does its twin.  The
    group laws of the curve are premises. */
module Ecdsa {
  import opened Options
  import opened ModArith
  import opened Primes
  import opened Congruence
  import opened Ec
  import opened EcAlgebra
  import opened EcLadder

  ghost predicate AddLaw(c: Curve, G: Point, i: nat, j: nat)
    requires c.Valid() && c.n >= 1
  {
    var a, b := DoubleAndAdd(c, i, G), DoubleAndAdd(c, j, G);
    a.Some? && b.Some? && PointAdd(c, a.value, b.value) == DoubleAndAdd(c, (i + j) % c.n, G)
  }

  /** G generates a group of order n: the multiples of G add with scalars modulo n. */
  ghost predicate GroupLaws(c: Curve, G: Point)
  {
    && c.Valid() && c.n > 1
    && (forall i: nat, j: nat :: i < c.n && j < c.n ==> AddLaw(c, G, i, j))
  }

  lemma Generated(c: Curve, G: Point)
    requires GroupLaws(c, G)
    ensures c.Valid() && c.n > 1
  {}

  lemma Sum(c: Curve, G: Point, i: nat, j: nat)
    requires GroupLaws(c, G) && i < c.n && j < c.n
    ensures c.Valid() && DoubleAndAdd(c, i, G).Some? && DoubleAndAdd(c, j, G).Some?
    ensures PointAdd(c, DoubleAndAdd(c, i, G).value, DoubleAndAdd(c, j, G).value) == DoubleAndAdd(c, (i + j) % c.n, G)
    ensures DoubleAndAdd(c, (i + j) % c.n, G).Some?
  {
    hide PointAdd, DoubleAndAdd;
    var t := (i + j) % c.n;
    assert AddLaw(c, G, i, j) && AddLaw(c, G, t, t);
  }

  /** So a multiple of a multiple is the multiple by the product. */
  lemma {:induction false} MultipleOfMultiple(c: Curve, G: Point, u: nat, d: nat)
    requires GroupLaws(c, G) && d < c.n
    ensures c.Valid() && DoubleAndAdd(c, d, G).Some? && u * d >= 0
    ensures DoubleAndAdd(c, u, DoubleAndAdd(c, d, G).value) == DoubleAndAdd(c, u * d % c.n, G)
    decreases u
  {
    hide PointAdd, GroupLaws;
    HalvedProduct(u, d);
    Sum(c, G, d, d);
    assert c.n > 1 by { Generated(c, G); }
    HalvedResidue(u / 2 * d, d, c.n);
    if u == 0 {
      SmallMod(0, c.n);
    } else {
      var m: nat := u / 2 * d % c.n;
      MultipleOfMultiple(c, G, u / 2, d);
      hide DoubleAndAdd;
      DoubledMultiple(c, G, u, d, m);
    }
  }

  /** One step of double-and-add on a multiple of G. */
  lemma DoubledMultiple(c: Curve, G: Point, u: nat, d: nat, m: nat)
    requires GroupLaws(c, G) && d < c.n && m < c.n && u > 0 && c.Valid() && DoubleAndAdd(c, d, G).Some?
    requires DoubleAndAdd(c, u / 2, DoubleAndAdd(c, d, G).value) == DoubleAndAdd(c, m, G)
    ensures DoubleAndAdd(c, u, DoubleAndAdd(c, d, G).value)
         == DoubleAndAdd(c, if u % 2 == 1 then ((m + m) % c.n + d) % c.n else (m + m) % c.n, G)
  {
    hide PointAdd, GroupLaws;
    Sum(c, G, m, m);
    Sum(c, G, (m + m) % c.n, d);
  }

  lemma HalvedResidue(h: int, d: int, n: Modulus)
    ensures var m := h % n;
            && (h + h) % n == (m + m) % n && (h + h + d) % n == ((m + m) % n + d) % n
  {
    AddReduce(h, h, n);
    AddReduce(h + h, d, n);
  }

  datatype Signature = Signature(r: int, s: int)

  /** One turn of the loop of sign_ecdsa, with the nonce k; None tries the next nonce. */
  function Attempt(c: Curve, G: Point, d: nat, z: nat, k: nat): Option<Signature>
    requires Prime(c.p) && Prime(c.n)
  {
    var point :- DoubleAndAdd(c, k, G);
    if point == Infinity then None
    else
      var r := point.x % c.n;
      if r == 0 then None
      else
        var i :- Invert(k, c.n);
        var s := i * ((z + r * d) % c.n) % c.n;
        if s == 0 then None
        else Some(Signature(r, if s > c.n / 2 then c.n - s else s))
  }

  /** sign_ecdsa over the candidate nonces; None when they are used up. */
  function Sign(c: Curve, G: Point, d: nat, z: nat, nonces: seq<nat>): Option<Signature>
    requires Prime(c.p) && Prime(c.n)
  {
    if nonces == [] then None
    else match Attempt(c, G, d, z, nonces[0])
      case Some(sig) => Some(sig)
      case None => Sign(c, G, d, z, nonces[1..])
  }

  /** verify_ecdsa for the public point Q. */
  predicate Verify(c: Curve, G: Point, Q: Point, z: nat, sig: Signature)
    requires Prime(c.p) && Prime(c.n)
  {
    1 <= sig.r < c.n && 1 <= sig.s < c.n
    && match Invert(sig.s, c.n)
       case None => false
       case Some(w) =>
         var u1: nat, u2: nat := z * w % c.n, sig.r * w % c.n;
         Recovered(c, DoubleAndAdd(c, u1, G), DoubleAndAdd(c, u2, Q), sig.r)
  }

  predicate Recovered(c: Curve, a: Option<Point>, b: Option<Point>, r: int)
    requires Prime(c.p) && c.n >= 1
  {
    a.Some? && b.Some?
    && match PointAdd(c, a.value, b.value)
       case None => false
       case Some(point) => point != Infinity && point.x % c.n == r
  }

  /** If s k = z + r d and w s = 1 then w z + w r d is k. */
  lemma RecoverNonce(n: Modulus, d: int, z: int, r: int, s: int, k: int, w: int)
    requires Eq(s * k, z + r * d, n) && Eq(s * w, 1, n)
    ensures Eq(z * w % n + r * w % n * d, k, n)
  {
    hide Eq;
    EqMod(z * w, n);
    EqMod(r * w, n);
    EqScale(d, r * w % n, r * w, n);
    EqAdd(z * w % n, z * w, r * w % n * d, r * w * d, n);
    EqScale(w, s * k, z + r * d, n);
    EqScale(k, s * w, 1, n);
    Regroup(w, s, k, z, r, d);
    EqSym(w * (s * k), z * w + r * w * d, n);
    EqTrans(z * w + r * w * d, w * (s * k), k, n);
    EqTrans(z * w % n + r * w % n * d, z * w + r * w * d, k, n);
  }

  lemma Regroup(w: int, s: int, k: int, z: int, r: int, d: int)
    ensures w * (s * k) == k * (s * w) && w * (z + r * d) == z * w + r * w * d
  {}

  /** The signing equation. */
  lemma SigningEquation(n: int, k: int, e: int)
    requires Prime(n) && k % n != 0
    ensures Eq(Invert(k, n).value * (e % n) % n * k, e, n)
  {
    InvertEq(k, n);
    hide Eq;
    var i := Invert(k, n).value;
    var s := i * (e % n) % n;
    EqMod(i * (e % n), n);
    EqMod(e, n);
    EqScale(i, e % n, e, n);
    EqTrans(s, i * (e % n), i * e, n);
    EqScale(k, s, i * e, n);
    EqScale(e, k * i, 1, n);
    assert i * e * k == e * (k * i);
    EqTrans(s * k, e * (k * i), e, n);
  }

  /** The point recomputed by verification is the multiple by u1 + u2 d. */
  lemma VerifyPoint(c: Curve, G: Point, d: nat, u1: nat, u2: nat, t: nat)
    requires GroupLaws(c, G) && d < c.n && u1 < c.n && u2 < c.n && t < c.n
    requires Eq(u1 + u2 * d, t, c.n)
    ensures DoubleAndAdd(c, d, G).Some?
    ensures var a, b := DoubleAndAdd(c, u1, G), DoubleAndAdd(c, u2, DoubleAndAdd(c, d, G).value);
            a.Some? && b.Some? && PointAdd(c, a.value, b.value) == DoubleAndAdd(c, t, G) && DoubleAndAdd(c, t, G).Some?
  {
    hide PointAdd, DoubleAndAdd;
    var m: nat := u2 * d % c.n;
    AddReduce(u1, u2 * d, c.n);
    SmallMod(t, c.n);
    MultipleOfMultiple(c, G, u2, d);
    Sum(c, G, u1, m);
  }

  /** Opposite multiples have the same abscissa. */
  lemma OppositeAbscissa(c: Curve, G: Point, k: nat)
    requires GroupLaws(c, G) && 0 < k < c.n && DoubleAndAdd(c, k, G) != Some(Infinity)
    ensures DoubleAndAdd(c, k, G).Some? && DoubleAndAdd(c, c.n - k, G).Some?
    ensures DoubleAndAdd(c, c.n - k, G).value != Infinity
    ensures DoubleAndAdd(c, c.n - k, G).value.x == DoubleAndAdd(c, k, G).value.x
  {
    hide PointAdd, DoubleAndAdd;
    assert AddLaw(c, G, k, k) && AddLaw(c, G, c.n - k, k);
    var P, R := DoubleAndAdd(c, k, G).value, DoubleAndAdd(c, c.n - k, G).value;
    assert (k + (c.n - k)) % c.n == 0;
    assert AddLaw(c, G, k, c.n - k);
    NoMultiple(c, G);
    ChordIsFinite(c, P, R);
  }

  lemma NoMultiple(c: Curve, G: Point)
    requires c.Valid()
    ensures DoubleAndAdd(c, 0, G) == Some(Infinity)
  {}

  lemma ChordIsFinite(c: Curve, P: Point, R: Point)
    requires Prime(c.p) && P != Infinity && PointAdd(c, P, R) == Some(Infinity)
    ensures R != Infinity && R.x == P.x
  {}

  /** Every signature verifies, and so does (r, n - s). */
  lemma SignedVerifies(c: Curve, G: Point, d: nat, z: nat, k: nat)
    requires c.Valid() && Prime(c.n) && GroupLaws(c, G) && 0 < d < c.n && 0 < k < c.n
    requires Attempt(c, G, d, z, k).Some?
    ensures var sig := Attempt(c, G, d, z, k).value;
            && DoubleAndAdd(c, d, G).Some?
            && Verify(c, G, DoubleAndAdd(c, d, G).value, z, sig)
            && Verify(c, G, DoubleAndAdd(c, d, G).value, z, Signature(sig.r, c.n - sig.s))
  {
    hide GroupLaws, PointAdd, DoubleAndAdd, Recovered, Invert;
    SmallMod(k, c.n);
    var sig, r := Attempt(c, G, d, z, k).value, DoubleAndAdd(c, k, G).value.x % c.n;
    var s := Invert(k, c.n).value * ((z + r * d) % c.n) % c.n;
    SigningEquation(c.n, k, z + r * d);
    VerifiesWith(c, G, d, z, k, r, s);
    NegatedEquation(s, k, z + r * d, c.n);
    OppositeAbscissa(c, G, k);
    VerifiesWith(c, G, d, z, c.n - k, r, c.n - s);
  }

  lemma NegatedEquation(s: int, k: int, e: int, n: Modulus)
    requires Eq(s * k, e, n)
    ensures Eq((n - s) * (n - k), e, n)
  {
    assert (n - s) * (n - k) - s * k == (n - s - k) * n;
    CongFrom((n - s) * (n - k), s * k, n - s - k, n);
  }

  /** Any s with s k = z + r d verifies when r belongs to the multiple by k. */
  lemma VerifiesWith(c: Curve, G: Point, d: nat, z: nat, k: nat, r: int, s: int)
    requires c.Valid() && Prime(c.n) && GroupLaws(c, G) && 0 < d < c.n && 0 < k < c.n && 1 <= s < c.n && 1 <= r < c.n
    requires Eq(s * k, z + r * d, c.n)
    requires DoubleAndAdd(c, k, G).Some? && DoubleAndAdd(c, k, G).value != Infinity && DoubleAndAdd(c, k, G).value.x % c.n == r
    ensures DoubleAndAdd(c, d, G).Some? && Verify(c, G, DoubleAndAdd(c, d, G).value, z, Signature(r, s))
  {
    hide GroupLaws, PointAdd, DoubleAndAdd;
    SmallMod(s, c.n);
    InvertEq(s, c.n);
    var w := Invert(s, c.n).value;
    RecoverNonce(c.n, d, z, r, s, k, w);
    VerifyPoint(c, G, d, z * w % c.n, r * w % c.n, k);
  }

  /** The same for the whole nonce loop. */
  lemma {:induction false} SignVerifies(c: Curve, G: Point, d: nat, z: nat, nonces: seq<nat>)
    requires c.Valid() && Prime(c.n) && GroupLaws(c, G) && 0 < d < c.n
    requires forall i :: 0 <= i < |nonces| ==> 0 < nonces[i] < c.n
    requires Sign(c, G, d, z, nonces).Some?
    ensures var sig := Sign(c, G, d, z, nonces).value;
            && DoubleAndAdd(c, d, G).Some?
            && Verify(c, G, DoubleAndAdd(c, d, G).value, z, sig)
            && Verify(c, G, DoubleAndAdd(c, d, G).value, z, Signature(sig.r, c.n - sig.s))
            && 1 <= sig.s <= c.n / 2
  {
    hide GroupLaws, Verify, DoubleAndAdd;
    if Attempt(c, G, d, z, nonces[0]).Some? {
      SignedVerifies(c, G, d, z, nonces[0]);
      LowS(c, G, d, z, nonces[0]);
    } else {
      SignVerifies(c, G, d, z, nonces[1..]);
    }
  }

  lemma LowS(c: Curve, G: Point, d: nat, z: nat, k: nat)
    requires Prime(c.p) && Prime(c.n) && Attempt(c, G, d, z, k).Some?
    ensures 1 <= Attempt(c, G, d, z, k).value.s <= c.n / 2
  {
    hide DoubleAndAdd, Invert;
  }

  // ----- exactly what is accepted

  /** t is the scalar with s t = z + r d, and the abscissa of its multiple is r modulo n. */
  ghost predicate Opens(c: Curve, G: Point, d: nat, z: nat, sig: Signature, t: nat)
    requires c.Valid() && c.n > 1
  {
    && t < c.n && Eq(sig.s * t, z + sig.r * d, c.n)
    && DoubleAndAdd(c, t, G).Some? && DoubleAndAdd(c, t, G).value != Infinity
    && DoubleAndAdd(c, t, G).value.x % c.n == sig.r
  }

  /** Under the key of the scalar d a pair is accepted exactly when both numbers are in range
      and r belongs to the scalar that s determines. */
  lemma VerifyIff(c: Curve, G: Point, d: nat, z: nat, sig: Signature)
    requires Prime(c.n) && GroupLaws(c, G) && d < c.n
    ensures c.Valid() && DoubleAndAdd(c, d, G).Some?
    ensures Verify(c, G, DoubleAndAdd(c, d, G).value, z, sig)
       <==> 1 <= sig.r < c.n && 1 <= sig.s < c.n && exists t: nat :: Opens(c, G, d, z, sig, t)
  {
    Sum(c, G, d, d);
    Generated(c, G);
    hide GroupLaws, PointAdd, DoubleAndAdd, Opens, Verify, Prime;
    if 1 <= sig.r < c.n && 1 <= sig.s < c.n {
      var t := Recompute(c, G, d, z, sig);
      forall t' | Opens(c, G, d, z, sig, t') ensures Opens(c, G, d, z, sig, t) {
        OneScalar(c, G, d, z, sig, t, t');
      }
    } else {
      OutOfRange(c, G, DoubleAndAdd(c, d, G).value, z, sig);
    }
  }

  lemma OutOfRange(c: Curve, G: Point, Q: Point, z: nat, sig: Signature)
    requires Prime(c.p) && Prime(c.n) && !(1 <= sig.r < c.n && 1 <= sig.s < c.n)
    ensures !Verify(c, G, Q, z, sig)
  {}

  /** The scalar whose multiple verification recomputes. */
  lemma Recompute(c: Curve, G: Point, d: nat, z: nat, sig: Signature) returns (t: nat)
    requires Prime(c.n) && GroupLaws(c, G) && d < c.n && 1 <= sig.r < c.n && 1 <= sig.s < c.n
    ensures c.Valid() && DoubleAndAdd(c, d, G).Some? && t < c.n && Eq(sig.s * t, z + sig.r * d, c.n)
    ensures Verify(c, G, DoubleAndAdd(c, d, G).value, z, sig) <==> Opens(c, G, d, z, sig, t)
  {
    Sum(c, G, d, d);
    Generated(c, G);
    hide GroupLaws, PointAdd, DoubleAndAdd, Opens, Prime, Eq;
    SmallMod(sig.s, c.n);
    InvertEq(sig.s, c.n);
    var w := Invert(sig.s, c.n).value;
    var u1: nat, u2: nat := z * w % c.n, sig.r * w % c.n;
    t := (u1 + u2 * d) % c.n;
    ScalarOf(c.n, d, z, sig.r, sig.s, w, t);
    VerifyPoint(c, G, d, u1, u2, t);
    OpensIs(c, G, d, z, sig, t);
  }

  lemma OpensIs(c: Curve, G: Point, d: nat, z: nat, sig: Signature, t: nat)
    requires c.Valid() && c.n > 1 && t < c.n && Eq(sig.s * t, z + sig.r * d, c.n) && DoubleAndAdd(c, t, G).Some?
    ensures Opens(c, G, d, z, sig, t) <==> DoubleAndAdd(c, t, G).value != Infinity && DoubleAndAdd(c, t, G).value.x % c.n == sig.r
  {
    hide DoubleAndAdd, Eq;
  }

  /** The scalar that verification recomputes satisfies s t = z + r d. */
  lemma ScalarOf(n: Modulus, d: int, z: int, r: int, s: int, w: int, t: int)
    requires Eq(s * w, 1, n) && t == (z * w % n + r * w % n * d) % n
    ensures Eq(s * t, z + r * d, n) && Eq(z * w % n + r * w % n * d, t, n)
  {
    var e := z + r * d;
    EqMod(z * w % n + r * w % n * d, n);
    EqSym(t, z * w % n + r * w % n * d, n);
    ProductsReduced(n, d, z, r, w);
    hide Eq;
    EqTrans(t, z * w % n + r * w % n * d, w * e, n);
    EqScale(s, t, w * e, n);
    EqScale(e, s * w, 1, n);
    assert s * (w * e) == e * (s * w);
    EqTrans(s * t, s * (w * e), e, n);
  }

  lemma ProductsReduced(n: Modulus, d: int, z: int, r: int, w: int)
    ensures Eq(z * w % n + r * w % n * d, w * (z + r * d), n)
  {
    hide Eq;
    EqMod(z * w, n);
    EqMod(r * w, n);
    EqScale(d, r * w % n, r * w, n);
    EqAdd(z * w % n, z * w, r * w % n * d, r * w * d, n);
    assert z * w + r * w * d == w * (z + r * d);
  }

  lemma OneScalar(c: Curve, G: Point, d: nat, z: nat, sig: Signature, t: nat, t': nat)
    requires c.Valid() && Prime(c.n) && c.n > 1 && 1 <= sig.s < c.n && t < c.n && Eq(sig.s * t, z + sig.r * d, c.n)
    requires Opens(c, G, d, z, sig, t')
    ensures t == t'
  {
    hide DoubleAndAdd, Prime;
    var n := c.n;
    SmallMod(sig.s, n);
    InvertEq(sig.s, n);
    var w := Invert(sig.s, n).value;
    RecoverNonce(n, d, z, sig.r, sig.s, t, w);
    RecoverNonce(n, d, z, sig.r, sig.s, t', w);
    SmallMod(t, n);
    SmallMod(t', n);
  }

  // ----- over the ladder

  ghost predicate Reduced(c: Curve, P: Point)
  {
    P != Infinity && 0 <= P.x < c.p && 0 <= P.y < c.p
  }

  /** One turn of the loop of sign_ecdsa with the scalar multiplication it calls. */
  method TryNonce(c: Curve, G: Point, d: nat, z: nat, k: nat) returns (sig: Option<Signature>)
    requires c.Valid() && Prime(c.n) && Reduced(c, G) && 0 < k < c.n
    ensures sig == Attempt(c, G, d, z, k)
  {
    hide DoubleAndAdd, Inverse;
    var result := ScalarMult(c, k, G);
    var point := result.value;
    if point == Infinity {
      return None;
    }
    var r := point.x % c.n;
    if r == 0 {
      return None;
    }
    SmallMod(k, c.n);
    var s := Invert(k, c.n).value * ((z + r * d) % c.n) % c.n;
    if s == 0 {
      return None;
    }
    sig := Some(Signature(r, if s > c.n / 2 then c.n - s else s));
  }

  /** verify_ecdsa with the scalar multiplications it calls. */
  method VerifyEcdsa(c: Curve, G: Point, Q: Point, z: nat, sig: Signature) returns (ok: bool)
    requires c.Valid() && Prime(c.n) && Reduced(c, G) && Reduced(c, Q)
    ensures ok == Verify(c, G, Q, z, sig)
  {
    hide DoubleAndAdd, PointAdd;
    if !(1 <= sig.r < c.n && 1 <= sig.s < c.n) {
      return false;
    }
    SmallMod(sig.s, c.n);
    var w := Invert(sig.s, c.n).value;
    var a := ScalarMult(c, z * w % c.n, G);
    var b := ScalarMult(c, sig.r * w % c.n, Q);
    var sum := PointAdd(c, a.value, b.value);
    ok := sum.Some? && sum.value != Infinity && sum.value.x % c.n == sig.r;
  }
}
