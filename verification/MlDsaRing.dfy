/** The ring of ML-DSA: Z_q[X]/(X^256 + 1) with q = 8380417, its transform, and
    the identity behind signature verification. */
module MlDsaRing {
  import opened ModArith
  import opened Ntt
  import opened NttProduct
  import opened MlDsaRounding

  /** zeta = 1753 is a 512-th root of unity; 8347681 is the inverse of 256. */
  const R: Ring := Ring(8380417, 1753, 8, 1, 8347681)

  lemma RingSize()
    ensures R.N() == 256 && Exp2(8) == 256
  {
    assert R.Size(4) == 16;
    assert R.Size(8) == 256;
    assert Exp2(4) == 16;
    assert Exp2(8) == 256;
  }

  lemma RootPowers(z: int, q: Modulus)
    requires z == 1753 && q == Q
    ensures Pow(z, 256) % q == (-1) % q
  {
    hide Pow;
    FirstPower(z);
    PowDouble(z, 1, 1753, 3073009, q);
    PowDouble(z, 2, 3073009, 3602218, q);
    PowDouble(z, 4, 3602218, 5010068, q);
    PowDouble(z, 8, 5010068, 7778734, q);
    PowDouble(z, 16, 7778734, 5178923, q);
    PowDouble(z, 32, 5178923, 3765607, q);
    PowDouble(z, 64, 3765607, 4808194, q);
    PowDouble(z, 128, 4808194, 8380416, q);
  }

  lemma ValidFrom(r: Ring)
    requires r == R
    ensures r.Valid()
  {
    RingSize();
    RootPowers(r.zeta, r.q);
    assert Exp2(r.bits) == 256;
  }

  /** The premises of the transform, checked by repeated squaring. */
  lemma RingValid()
    ensures R.Valid()
  {
    ValidFrom(R);
  }

  function NttOf(f: Poly): Poly
  {
    RingSize();
    Forward(R, f)
  }

  function InvOf(f: Poly): Poly
  {
    RingSize();
    Inverse(R, f)
  }

  function PolyAdd(f: Poly, g: Poly): Poly
  {
    seq(256, i requires 0 <= i < 256 => (f[i] + g[i]) % Q)
  }

  function PolySub(f: Poly, g: Poly): Poly
  {
    seq(256, i requires 0 <= i < 256 => (f[i] - g[i]) % Q)
  }

  function PolyMulNtt(f: Poly, g: Poly): Poly
  {
    PointMul(f, g, Q)
  }

  ghost predicate Residues(f: Poly)
  {
    forall i :: 0 <= i < 256 ==> 0 <= f[i] < Q
  }

  // ----- the transform on this ring

  lemma NttIsLinear(g: Poly, a: int, x: Poly, b: int, y: Poly)
    requires IsLinear(g, a, x, b, y, Q)
    ensures IsLinear(NttOf(g), a, NttOf(x), b, NttOf(y), Q)
  {
    RingValid();
    RingSize();
    ForwardLinear(R, g, a, x, b, y);
  }

  lemma NttResidues(f: Poly)
    ensures Residues(NttOf(f)) && Residues(InvOf(f))
  {
    RingSize();
    FwdCanonical(R, f, 1, R.bits);
  }

  lemma NttAdd(f: Poly, g: Poly)
    ensures NttOf(PolyAdd(f, g)) == PolyAdd(NttOf(f), NttOf(g))
    ensures NttOf(PolySub(f, g)) == PolySub(NttOf(f), NttOf(g))
  {
    hide NttOf;
    NttIsLinear(PolyAdd(f, g), 1, f, 1, g);
    NttIsLinear(PolySub(f, g), 1, f, -1, g);
    NttResidues(PolyAdd(f, g));
    NttResidues(PolySub(f, g));
  }

  /** The transform only depends on the residues of its input. */
  lemma NttReduced(f: Poly, g: Poly)
    requires forall i :: 0 <= i < 256 ==> f[i] % Q == g[i] % Q
    ensures NttOf(f) == NttOf(g)
  {
    hide NttOf;
    NttIsLinear(f, 1, g, 0, g);
    NttResidues(f);
    NttResidues(g);
  }

  lemma NttRoundTrip(f: Poly)
    ensures InvOf(NttOf(f)) == ReducedQ(f) && NttOf(InvOf(f)) == ReducedQ(f)
  {
    RingValid();
    RingSize();
    InverseForward(R, f);
    ForwardInverse(R, f);
  }

  /** _ntt_inv(_poly_mul_ntt(_ntt(f), _ntt(g))) is the product in the ring. */
  lemma NttOfProduct(f: Poly, g: Poly)
    ensures InvOf(PolyMulNtt(NttOf(f), NttOf(g))) == ReducedQ(RingMul(f, g))
  {
    RingValid();
    RingSize();
    ForwardRingMul(R, f, g);
    NttRoundTrip(RingMul(f, g));
  }

  // ----- matrix rows

  /** One row of _mat_vec_ntt, from a running sum. */
  function DotNtt(acc: Poly, row: seq<Poly>, v: seq<Poly>): Poly
    requires |row| == |v|
    decreases |row|
  {
    if row == [] then acc else DotNtt(PolyAdd(acc, PolyMulNtt(row[0], v[0])), row[1..], v[1..])
  }

  function ZeroPoly(): Poly { seq(256, i => 0) }

  function RowTimes(row: seq<Poly>, v: seq<Poly>): Poly
    requires |row| == |v|
  {
    DotNtt(ZeroPoly(), row, v)
  }

  function NttAll(v: seq<Poly>): (r: seq<Poly>)
    ensures |r| == |v|
  {
    seq(|v|, i requires 0 <= i < |v| => NttOf(v[i]))
  }

  /** Entry j of a matrix row applied to a vector, over the integers. */
  function DotAt(row: seq<Poly>, v: seq<Poly>, j: nat): int
    requires |row| == |v| && j < 256
  {
    if row == [] then 0 else row[0][j] * v[0][j] + DotAt(row[1..], v[1..], j)
  }

  lemma {:induction false} DotValue(acc: Poly, row: seq<Poly>, v: seq<Poly>, j: nat)
    requires |row| == |v| && j < 256
    ensures DotNtt(acc, row, v)[j] % Q == (acc[j] + DotAt(row, v, j)) % Q
    decreases |row|
  {
    if row != [] {
      var next := PolyAdd(acc, PolyMulNtt(row[0], v[0]));
      DotValue(next, row[1..], v[1..], j);
      DotStep(acc[j], row[0][j] * v[0][j], DotAt(row[1..], v[1..], j));
    }
  }

  lemma DotStep(a: int, p: int, d: int)
    ensures ((a + p % Q) % Q + d) % Q == (a + (p + d)) % Q
  {}

  lemma {:induction false} DotResidues(acc: Poly, row: seq<Poly>, v: seq<Poly>)
    requires |row| == |v| && Residues(acc)
    ensures Residues(DotNtt(acc, row, v))
    decreases |row|
  {
    if row != [] {
      DotResidues(PolyAdd(acc, PolyMulNtt(row[0], v[0])), row[1..], v[1..]);
    }
  }

  /** v is x + c s, entry j of every component, modulo q. */
  ghost predicate MixedAt(v: seq<Poly>, x: seq<Poly>, s: seq<Poly>, c: int, j: nat)
    requires j < 256
  {
    |v| == |x| == |s| && forall l :: 0 <= l < |v| ==> v[l][j] % Q == (x[l][j] + c * s[l][j]) % Q
  }

  lemma {:induction false} DotMixed(row: seq<Poly>, v: seq<Poly>, x: seq<Poly>, s: seq<Poly>, c: int, j: nat)
    requires j < 256 && MixedAt(v, x, s, c, j) && |row| == |v|
    ensures DotAt(row, v, j) % Q == (DotAt(row, x, j) + c * DotAt(row, s, j)) % Q
    decreases |row|, 1
  {
    if row != [] {
      DotMixedRow(row, v, x, s, c, j);
    }
  }

  lemma {:induction false} DotMixedRow(row: seq<Poly>, v: seq<Poly>, x: seq<Poly>, s: seq<Poly>, c: int, j: nat)
    requires j < 256 && MixedAt(v, x, s, c, j) && |row| == |v| >= 1
    ensures DotAt(row, v, j) % Q == (DotAt(row, x, j) + c * DotAt(row, s, j)) % Q
    decreases |row|, 0
  {
    hide MixedAt, DotAt;
    MixedTail(v, x, s, c, j);
    DotMixed(row[1..], v[1..], x[1..], s[1..], c, j);
    DotCons(row, v, j);
    DotCons(row, x, j);
    DotCons(row, s, j);
    MixedStep(row[0][j], v[0][j], x[0][j], s[0][j], c,
              DotAt(row[1..], v[1..], j), DotAt(row[1..], x[1..], j), DotAt(row[1..], s[1..], j));
  }

  lemma DotCons(row: seq<Poly>, v: seq<Poly>, j: nat)
    requires j < 256 && |row| == |v| >= 1
    ensures DotAt(row, v, j) == row[0][j] * v[0][j] + DotAt(row[1..], v[1..], j)
  {}

  lemma MixedTail(v: seq<Poly>, x: seq<Poly>, s: seq<Poly>, c: int, j: nat)
    requires j < 256 && MixedAt(v, x, s, c, j) && |v| >= 1
    ensures |v| == |x| == |s| && MixedAt(v[1..], x[1..], s[1..], c, j)
    ensures v[0][j] % Q == (x[0][j] + c * s[0][j]) % Q
  {
    forall l | 0 <= l < |v| - 1 ensures v[1..][l][j] % Q == (x[1..][l][j] + c * s[1..][l][j]) % Q {
      assert v[1..][l] == v[l + 1];
    }
  }

  lemma MixedStep(a: int, v: int, x: int, s: int, c: int, V: int, X: int, S: int)
    requires v % Q == (x + c * s) % Q && V % Q == (X + c * S) % Q
    ensures (a * v + V) % Q == ((a * x + X) + c * (a * s + S)) % Q
  {
    MulCong(a, a, v, x + c * s, Q);
    AddCong(a * v, a * (x + c * s), V, X + c * S, Q);
    assert a * (x + c * s) + (X + c * S) == (a * x + X) + c * (a * s + S);
  }

  // ----- the verification identity

  /** The subtrahend of _verify_mu: c times 2^d t1 in the transform domain. */
  function ScaledT1(cHat: Poly, t1Hat: Poly): Poly
  {
    seq(256, j requires 0 <= j < 256 => (cHat[j] * t1Hat[j] * 8192) % Q)
  }

  lemma IdentityAt(az: int, ay: int, as1: int, c: int, s2: int, t: int, t1: int, t0: int)
    requires az % Q == (ay + c * as1) % Q
    requires t % Q == (as1 + s2) % Q
    requires t % Q == (8192 * t1 + t0) % Q
    ensures (az - c * t1 * 8192) % Q == ((ay - c * s2) + c * t0) % Q
  {
    AddCong(as1 + s2, 8192 * t1 + t0, s2, s2, Q);
    MulCong(c, c, as1, 8192 * t1 + t0 - s2, Q);
    AddCong(ay, ay, c * as1, c * (8192 * t1 + t0 - s2), Q);
    AddCong(az, ay + c * (8192 * t1 + t0 - s2), c * t1 * 8192, c * t1 * 8192, Q);
    assert c * (8192 * t1 + t0 - s2) == c * t1 * 8192 + c * t0 - c * s2;
  }

  /** What the signer and the key generator leave behind for one matrix row. */
  ghost predicate RowSetting(row: seq<Poly>, y: seq<Poly>, z: seq<Poly>, s1: seq<Poly>, c: Poly,
                             s2: Poly, t1: Poly, t0: Poly)
  {
    && |row| == |y| == |z| == |s1|
    && (forall l :: 0 <= l < |z| ==> z[l] == PolyAdd(y[l], InvOf(PolyMulNtt(NttOf(c), NttOf(s1[l])))))
    && (forall j :: 0 <= j < 256 ==>
          PolyAdd(InvOf(RowTimes(row, NttAll(s1))), s2)[j] % Q == (8192 * t1[j] + t0[j]) % Q)
  }

  lemma NttOfZ(y: Poly, s: Poly, c: Poly, j: nat)
    requires j < 256
    ensures NttOf(PolyAdd(y, InvOf(PolyMulNtt(NttOf(c), NttOf(s)))))[j] % Q
         == (NttOf(y)[j] + NttOf(c)[j] * NttOf(s)[j]) % Q
  {
    hide NttOf, InvOf;
    var p := PolyMulNtt(NttOf(c), NttOf(s));
    NttAdd(y, InvOf(p));
    NttRoundTrip(p);
  }

  lemma NttOfT(row: seq<Poly>, s1: seq<Poly>, s2: Poly, t: Poly, t1: Poly, t0: Poly, j: nat)
    requires |row| == |s1| && j < 256
    requires t == PolyAdd(InvOf(RowTimes(row, NttAll(s1))), s2)
    requires forall i :: 0 <= i < 256 ==> t[i] % Q == (8192 * t1[i] + t0[i]) % Q
    ensures NttOf(t)[j] % Q == (DotAt(row, NttAll(s1), j) + NttOf(s2)[j]) % Q
    ensures NttOf(t)[j] % Q == (8192 * NttOf(t1)[j] + NttOf(t0)[j]) % Q
  {
    hide NttOf, InvOf, DotNtt, DotAt;
    var d := RowTimes(row, NttAll(s1));
    NttAdd(InvOf(d), s2);
    NttRoundTrip(d);
    DotValue(ZeroPoly(), row, NttAll(s1), j);
    NttIsLinear(t, 8192, t1, 1, t0);
  }

  /** Entry j of the polynomial _verify_mu transforms back. */
  lemma VerifierAt(row: seq<Poly>, y: seq<Poly>, z: seq<Poly>, s1: seq<Poly>, c: Poly,
                   s2: Poly, t1: Poly, t0: Poly, j: nat)
    requires RowSetting(row, y, z, s1, c, s2, t1, t0) && j < 256
    ensures PolySub(RowTimes(row, NttAll(z)), ScaledT1(NttOf(c), NttOf(t1)))[j]
         == ((DotAt(row, NttAll(y), j) - NttOf(c)[j] * NttOf(s2)[j]) + NttOf(c)[j] * NttOf(t0)[j]) % Q
  {
    hide NttOf, InvOf, DotNtt, DotAt, PolyMulNtt;
    var t := PolyAdd(InvOf(RowTimes(row, NttAll(s1))), s2);
    NttOfT(row, s1, s2, t, t1, t0, j);
    forall l | 0 <= l < |z|
      ensures NttAll(z)[l][j] % Q == (NttAll(y)[l][j] + NttOf(c)[j] * NttAll(s1)[l][j]) % Q
    {
      NttOfZ(y[l], s1[l], c, j);
    }
    DotMixed(row, NttAll(z), NttAll(y), NttAll(s1), NttOf(c)[j], j);
    DotValue(ZeroPoly(), row, NttAll(z), j);
    IdentityAt(RowTimes(row, NttAll(z))[j], DotAt(row, NttAll(y), j), DotAt(row, NttAll(s1), j), NttOf(c)[j],
               NttOf(s2)[j], NttOf(t)[j], NttOf(t1)[j], NttOf(t0)[j]);
    AddReduce(RowTimes(row, NttAll(z))[j], NttOf(c)[j] * NttOf(t1)[j] * 8192, Q);
  }

  /** The verifier's w' is w - c s2 + c t0. */
  lemma VerifierRow(row: seq<Poly>, y: seq<Poly>, z: seq<Poly>, s1: seq<Poly>, c: Poly,
                    s2: Poly, t1: Poly, t0: Poly)
    requires RowSetting(row, y, z, s1, c, s2, t1, t0)
    ensures InvOf(PolySub(RowTimes(row, NttAll(z)), ScaledT1(NttOf(c), NttOf(t1))))
         == PolyAdd(PolySub(InvOf(RowTimes(row, NttAll(y))), InvOf(PolyMulNtt(NttOf(c), NttOf(s2)))),
                    InvOf(PolyMulNtt(NttOf(c), NttOf(t0))))
  {
    hide NttOf, InvOf, RowTimes, DotAt, ScaledT1;
    var d, p2, p0 := RowTimes(row, NttAll(y)), PolyMulNtt(NttOf(c), NttOf(s2)), PolyMulNtt(NttOf(c), NttOf(t0));
    var w := PolyAdd(PolySub(InvOf(d), InvOf(p2)), InvOf(p0));
    NttAdd(PolySub(InvOf(d), InvOf(p2)), InvOf(p0));
    NttAdd(InvOf(d), InvOf(p2));
    NttRoundTrip(d);
    NttRoundTrip(p2);
    NttRoundTrip(p0);
    var v := PolySub(RowTimes(row, NttAll(z)), ScaledT1(NttOf(c), NttOf(t1)));
    forall j | 0 <= j < 256 ensures v[j] == NttOf(w)[j] {
      VerifierAt(row, y, z, s1, c, s2, t1, t0, j);
      RowValue(row, y, j);
      WEntry(d[j], DotAt(row, NttAll(y), j), NttOf(c)[j] * NttOf(s2)[j], NttOf(c)[j] * NttOf(t0)[j]);
    }
    assert v == NttOf(w);
    NttRoundTrip(w);
    assert ReducedQ(w) == w;
  }

  lemma RowValue(row: seq<Poly>, y: seq<Poly>, j: nat)
    requires |row| == |y| && j < 256
    ensures RowTimes(row, NttAll(y))[j] % Q == DotAt(row, NttAll(y), j) % Q
  {
    DotValue(ZeroPoly(), row, NttAll(y), j);
  }

  lemma WEntry(d: int, dot: int, p2: int, p0: int)
    requires d % Q == dot % Q
    ensures ((d % Q - (p2 % Q) % Q) % Q + (p0 % Q) % Q) % Q == ((dot - p2) + p0) % Q
  {}
}
