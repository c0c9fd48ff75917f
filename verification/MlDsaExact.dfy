/** Exactly which attempts _sign_mu returns and which signatures _verify_mu accepts, stated in
    the ring and without transforms. */
module MlDsaExact {
  import opened ModArith
  import opened Options
  import opened NttProduct
  import opened MlDsaRounding
  import opened MlDsaCodec
  import opened MlDsaRing
  import opened MlDsaSampling
  import opened MlDsaKeys
  import opened MlDsa

  // ----- one row of w' in the ring

  /** Coefficient j of a row of ring elements times a vector; the matrix is given by its
      transform. */
  function RingDot(row: seq<Poly>, v: seq<Poly>, j: nat): int
    requires |row| == |v| && j < 256
  {
    if row == [] then 0 else RingMul(InvOf(row[0]), v[0])[j] + RingDot(row[1..], v[1..], j)
  }

  function RingDotPoly(row: seq<Poly>, v: seq<Poly>): Poly
    requires |row| == |v|
  {
    seq(256, j requires 0 <= j < 256 => RingDot(row, v, j))
  }

  /** Coefficient j of A z - c t1 2^13. */
  function Recomputed(row: seq<Poly>, z: seq<Poly>, c: Poly, t1: Poly, j: nat): int
    requires |row| == |z| && j < 256
  {
    RingDot(row, z, j) - 8192 * RingMul(Centred(c), t1)[j]
  }

  lemma ProductTransforms(f: Poly, g: Poly)
    ensures NttOf(RingMul(f, g)) == PolyMulNtt(NttOf(f), NttOf(g))
  {
    hide NttOf, InvOf, RingMul, PointMul;
    NttOfProduct(f, g);
    NttRoundTrip(RingMul(f, g));
    NttRoundTrip(PolyMulNtt(NttOf(f), NttOf(g)));
    NttReduced(ReducedQ(RingMul(f, g)), RingMul(f, g));
    PointResidues(NttOf(f), NttOf(g));
  }

  lemma PointResidues(f: Poly, g: Poly)
    ensures ReducedQ(PolyMulNtt(f, g)) == PolyMulNtt(f, g)
  {}

  lemma CentredTransforms(c: Poly)
    ensures NttOf(Centred(c)) == NttOf(c)
  {
    hide NttOf, ModPm;
    forall j | 0 <= j < 256 ensures Centred(c)[j] % Q == c[j] % Q {
      ModPmCong(c[j]);
    }
    NttReduced(Centred(c), c);
  }

  lemma ZeroTransforms(j: nat)
    requires j < 256
    ensures NttOf(ZeroPoly())[j] % Q == 0
  {
    hide NttOf;
    NttIsLinear(ZeroPoly(), 0, ZeroPoly(), 0, ZeroPoly());
  }

  /** The transform of a row times a vector is the dot product of transforms. */
  lemma {:induction false} RingDotTransforms(row: seq<Poly>, v: seq<Poly>, j: nat)
    requires |row| == |v| && j < 256
    ensures NttOf(RingDotPoly(row, v))[j] % Q == DotAt(row, NttAll(v), j) % Q
    decreases |row|
  {
    if row == [] {
      assert RingDotPoly(row, v) == ZeroPoly();
      ZeroTransforms(j);
    } else {
      hide NttOf, InvOf, RingMul;
      RingDotTransforms(row[1..], v[1..], j);
      FirstTransforms(row, v, j);
      assert NttAll(v)[1..] == NttAll(v[1..]);
      AddCong(row[0][j] * NttOf(v[0])[j], row[0][j] * NttOf(v[0])[j],
              NttOf(RingDotPoly(row[1..], v[1..]))[j], DotAt(row[1..], NttAll(v[1..]), j), Q);
    }
  }

  lemma FirstTransforms(row: seq<Poly>, v: seq<Poly>, j: nat)
    requires |row| == |v| >= 1 && j < 256
    ensures NttOf(RingDotPoly(row, v))[j] % Q
         == (row[0][j] * NttOf(v[0])[j] + NttOf(RingDotPoly(row[1..], v[1..]))[j]) % Q
  {
    hide NttOf, InvOf, RingMul;
    var f, rest := RingMul(InvOf(row[0]), v[0]), RingDotPoly(row[1..], v[1..]);
    assert forall i :: 0 <= i < 256 ==> RingDotPoly(row, v)[i] == f[i] + rest[i];
    NttIsLinear(RingDotPoly(row, v), 1, f, 1, rest);
    ProductTransforms(InvOf(row[0]), v[0]);
    NttRoundTrip(row[0]);
    FirstFactor(row[0][j], NttOf(v[0])[j], NttOf(rest)[j]);
  }

  lemma FirstFactor(a: int, b: int, s: int)
    ensures (1 * (a % Q * b % Q) + 1 * s) % Q == (a * b + s) % Q
  {
    MulReduce(a, b, Q);
    ModMod(a * b, Q);
    AddCong(a % Q * b % Q, a * b, s, s, Q);
  }

  /** What _verify_mu recomputes in a row is A z - c t1 2^13 in the ring, modulo q. */
  lemma VerifierPolyIs(row: seq<Poly>, z: seq<Poly>, c: Poly, t1: Poly, j: nat)
    requires |row| == |z| && j < 256
    ensures VerifierPoly(row, z, c, t1)[j] == Recomputed(row, z, c, t1, j) % Q
  {
    hide NttOf, InvOf, RingMul, RingDot, DotAt, RowTimes;
    var w: Poly := seq(256, i requires 0 <= i < 256 => Recomputed(row, z, c, t1, i));
    var v := PolySub(RowTimes(row, NttAll(z)), ScaledT1(NttOf(c), NttOf(t1)));
    forall i | 0 <= i < 256 ensures NttOf(w)[i] == v[i] {
      RecomputedTransforms(row, z, c, t1, w, i);
    }
    assert NttOf(w) == v;
    NttRoundTrip(w);
  }

  lemma RecomputedTransforms(row: seq<Poly>, z: seq<Poly>, c: Poly, t1: Poly, w: Poly, i: nat)
    requires |row| == |z| && i < 256
    requires w == seq(256, j requires 0 <= j < 256 => Recomputed(row, z, c, t1, j))
    ensures NttOf(w)[i] == PolySub(RowTimes(row, NttAll(z)), ScaledT1(NttOf(c), NttOf(t1)))[i]
  {
    hide NttOf, InvOf, RingMul, RingDot, DotAt, RowTimes;
    var d, f := RingDotPoly(row, z), RingMul(Centred(c), t1);
    NttIsLinear(w, 1, d, -8192, f);
    NttResidues(w);
    RingDotTransforms(row, z, i);
    RowValue(row, z, i);
    ProductTransforms(Centred(c), t1);
    CentredTransforms(c);
    SubtrahendEntry(NttOf(d)[i], RowTimes(row, NttAll(z))[i], NttOf(c)[i] * NttOf(t1)[i], NttOf(w)[i]);
  }

  lemma SubtrahendEntry(d: int, dot: int, m: int, w: int)
    requires d % Q == dot % Q && 0 <= w < Q && w % Q == (1 * d + -8192 * (m % Q)) % Q
    ensures w == (dot - m * 8192 % Q) % Q
  {
    SmallMod(w, Q);
    MulReduce(m, 8192, Q);
    AddCong(d, dot, 8192 * (m % Q), m * 8192, Q);
    AddReduce(dot, m * 8192, Q);
  }

  // ----- acceptance

  /** The high bits that the hints recover from A z - c t1 2^13. */
  function ExpectedW1(p: Params, A: Matrix, sig: Signature, c: Poly, t1: seq<Poly>): (w1: seq<Poly>)
    requires HasShape(A, |A|, |sig.z|) && |sig.h| == |t1| == |A| && IsGamma2(p.gamma2)
  {
    seq(|A|, i requires 0 <= i < |A| => HintedRow(A[i], sig.z, sig.h[i], c, t1[i], p.gamma2))
  }

  function HintedRow(row: seq<Poly>, z: seq<Poly>, h: Poly, c: Poly, t1: Poly, gamma2: int): Poly
    requires |row| == |z| && IsGamma2(gamma2)
  {
    seq(256, j requires 0 <= j < 256 => UseHint(h[j], Recomputed(row, z, c, t1, j), gamma2))
  }

  lemma HintedRowIs(row: seq<Poly>, z: seq<Poly>, h: Poly, c: Poly, t1: Poly, gamma2: int)
    requires |row| == |z| && IsGamma2(gamma2)
    ensures UseHintPoly(h, VerifierPoly(row, z, c, t1), gamma2) == HintedRow(row, z, h, c, t1, gamma2)
  {
    hide VerifierPoly, Recomputed, Decompose;
    forall j | 0 <= j < 256
      ensures UseHint(h[j], VerifierPoly(row, z, c, t1)[j], gamma2) == UseHint(h[j], Recomputed(row, z, c, t1, j), gamma2)
    {
      var x := Recomputed(row, z, c, t1, j);
      VerifierPolyIs(row, z, c, t1, j);
      ModMod(x, Q);
      DecomposeResidue(x % Q, x, gamma2);
    }
  }

  lemma RecoveredIsExpected(p: Params, A: Matrix, sig: Signature, c: Poly, t1: seq<Poly>)
    requires HasShape(A, |A|, |sig.z|) && |sig.h| == |t1| == |A| && IsGamma2(p.gamma2)
    ensures RecoveredAll(A, sig, c, t1, p.gamma2) == ExpectedW1(p, A, sig, c, t1)
  {
    hide VerifierPoly, UseHintPoly, HintedRow;
    forall i | 0 <= i < |A|
      ensures RecoveredAll(A, sig, c, t1, p.gamma2)[i] == ExpectedW1(p, A, sig, c, t1)[i]
    {
      HintedRowIs(A[i], sig.z, sig.h[i], c, t1[i], p.gamma2);
    }
  }

  /** Every centred coefficient lies below the bound. */
  ghost predicate Short(z: seq<Poly>, bound: int)
  {
    forall i, j :: 0 <= i < |z| && 0 <= j < 256 ==> -bound < ModPm(z[i][j]) < bound
  }

  /** The conditions of FIPS 204 for a decoded signature with challenge c under the matrix A:
      z is short, and the challenge hash is that of mu and the recovered high bits. */
  ghost predicate Accepted(p: Params, H: Shake, t1: seq<Poly>, mu: seq<int>, sig: Signature, c: Poly, A: Matrix)
  {
    && HasShape(A, p.k, p.ell) && |t1| == |sig.h| == p.k && |sig.z| == p.ell && IsGamma2(p.gamma2)
    && Short(sig.z, p.gamma1 - p.beta)
    && sig.ctilde == H.h(mu + W1Encode(p, ExpectedW1(p, A, sig, c, t1)), p.ctilde)
  }

  /** The samplers of the challenge and of the matrix give c and A. */
  ghost predicate Sampled(p: Params, H: Shake, pk: PublicKey, sig: Signature, c: Poly, A: Matrix)
    requires p.Known() && H.Valid()
  {
    p.tau <= 256 && Challenge(p, H, sig.ctilde) == Some(c) && ExpandA(H, pk.rho, p.k, p.ell) == Some(A)
  }

  lemma PartsIff(p: Params, H: Shake, pk: PublicKey, mu: seq<int>, sig: Signature)
    requires p.Known() && H.Valid() && |pk.t1| == p.k && |sig.z| == p.ell && |sig.h| == p.k
    ensures VerifyMuParts(p, H, pk, mu, sig) == Some(true)
       <==> exists c: Poly, A: Matrix :: Sampled(p, H, pk, sig, c, A) && Accepted(p, H, pk.t1, mu, sig, c, A)
    ensures (exists c: Poly, A: Matrix :: Sampled(p, H, pk, sig, c, A)) ==> VerifyMuParts(p, H, pk, mu, sig).Some?
  {
    hide Params.Known, Challenge, ExpandA, Accepted, Shake.Valid, VerifyMuParts;
    forall c: Poly, A: Matrix | Sampled(p, H, pk, sig, c, A)
      ensures VerifyMuParts(p, H, pk, mu, sig).Some?
      ensures VerifyMuParts(p, H, pk, mu, sig) == Some(true) <==> Accepted(p, H, pk.t1, mu, sig, c, A)
    {
      PartsWith(p, H, pk, mu, sig, c, A);
    }
    if VerifyMuParts(p, H, pk, mu, sig) == Some(true) {
      AcceptedSampled(p, H, pk, mu, sig);
    }
  }

  lemma KnownFacts(p: Params)
    requires p.Known()
    ensures IsGamma2(p.gamma2) && p.tau <= 256 && p.gamma2 > 0
  {
    KnownSizes(p);
  }

  lemma PartsWith(p: Params, H: Shake, pk: PublicKey, mu: seq<int>, sig: Signature, c: Poly, A: Matrix)
    requires p.Known() && H.Valid() && |pk.t1| == p.k && |sig.z| == p.ell && |sig.h| == p.k
    requires Sampled(p, H, pk, sig, c, A)
    ensures VerifyMuParts(p, H, pk, mu, sig).Some?
    ensures VerifyMuParts(p, H, pk, mu, sig) == Some(true) <==> Accepted(p, H, pk.t1, mu, sig, c, A)
  {
    KnownFacts(p);
    hide Params.Known, IsGamma2, Challenge, ExpandA, RecoveredAll, ExpectedW1, W1Encode, Short, NormOk, Shake.Valid;
    NormsIff(sig.z, p.gamma1 - p.beta);
    RecoveredIsExpected(p, A, sig, c, pk.t1);
  }

  lemma AcceptedSampled(p: Params, H: Shake, pk: PublicKey, mu: seq<int>, sig: Signature)
    requires p.Known() && H.Valid() && |pk.t1| == p.k && |sig.z| == p.ell && |sig.h| == p.k
    requires VerifyMuParts(p, H, pk, mu, sig) == Some(true)
    ensures exists c: Poly, A: Matrix :: Sampled(p, H, pk, sig, c, A)
  {
    KnownFacts(p);
    hide Params.Known, IsGamma2, Challenge, ExpandA, RecoveredAll, W1Encode, NormOk, Shake.Valid;
    var c, A := Challenge(p, H, sig.ctilde).value, ExpandA(H, pk.rho, p.k, p.ell).value;
    assert Sampled(p, H, pk, sig, c, A);
  }

  lemma NormsIff(z: seq<Poly>, bound: int)
    ensures (forall i :: 0 <= i < |z| ==> NormOk(z[i], bound)) <==> Short(z, bound)
  {
    hide ModPm;
    if Short(z, bound) {
      forall i | 0 <= i < |z| ensures NormOk(z[i], bound) {}
    }
    if forall i :: 0 <= i < |z| ==> NormOk(z[i], bound) {
      forall i, j | 0 <= i < |z| && 0 <= j < 256 ensures -bound < ModPm(z[i][j]) < bound {
        assert NormOk(z[i], bound);
      }
    }
  }

  /** _verify_mu accepts exactly the bytes that decode to a signature fulfilling those
      conditions; it answers whenever the samplers do. */
  lemma VerifyMuIff(p: Params, H: Shake, pk: PublicKey, mu: seq<int>, data: seq<int>)
    requires p.Known() && H.Valid() && |pk.t1| == p.k && |data| == p.SigSize()
    ensures VerifyMu(p, H, pk, mu, data) == Some(true)
       <==> exists sig: Signature, c: Poly, A: Matrix ::
              SigDecode(p, data) == Some(sig) && Sampled(p, H, pk, sig, c, A) && Accepted(p, H, pk.t1, mu, sig, c, A)
    ensures SigDecode(p, data) == None ==> VerifyMu(p, H, pk, mu, data) == Some(false)
    ensures (exists sig: Signature, c: Poly, A: Matrix :: SigDecode(p, data) == Some(sig) && Sampled(p, H, pk, sig, c, A))
            ==> VerifyMu(p, H, pk, mu, data).Some?
  {
    hide Params.Known, Sampled, Accepted, VerifyMuParts, SigDecode, Params.SigSize;
    if SigDecode(p, data).Some? {
      SigDecodeShape(p, data);
      PartsIff(p, H, pk, mu, SigDecode(p, data).value);
    }
  }

  /** _verify_internal accepts exactly the byte strings of the right length that do so for
      the hash of the public key and the message. */
  lemma VerifyInternalIff(p: Params, H: Shake, pkData: seq<int>, data: seq<int>, mPrime: seq<int>)
    requires p.Known() && H.Valid() && |pkData| == 32 + 320 * p.k
    ensures VerifyInternal(p, H, pkData, data, mPrime) == Some(true)
       <==> |data| == p.SigSize() && exists sig: Signature, c: Poly, A: Matrix ::
              && SigDecode(p, data) == Some(sig) && Sampled(p, H, PkDecode(p, pkData), sig, c, A)
              && Accepted(p, H, PkDecode(p, pkData).t1, H.h(H.h(pkData, 64) + mPrime, 64), sig, c, A)
  {
    hide Params.Known, Sampled, Accepted, VerifyMu, SigDecode, Params.SigSize;
    if |data| == p.SigSize() {
      VerifyMuIff(p, H, PkDecode(p, pkData), H.h(H.h(pkData, 64) + mPrime, 64), data);
    }
  }

  /** A signature accepted for two message representatives has one challenge hash for both. */
  lemma OneChallenge(p: Params, H: Shake, pk: PublicKey, mu: seq<int>, mu': seq<int>, data: seq<int>)
    requires p.Known() && H.Valid() && |pk.t1| == p.k && |data| == p.SigSize()
    requires VerifyMu(p, H, pk, mu, data) == Some(true) && VerifyMu(p, H, pk, mu', data) == Some(true)
    ensures exists w1: seq<Poly> :: p.gamma2 > 0 && H.h(mu + W1Encode(p, w1), p.ctilde) == H.h(mu' + W1Encode(p, w1), p.ctilde)
  {
    KnownFacts(p);
    hide Params.Known, IsGamma2, VerifyMu, SigDecode, Params.SigSize, ExpectedW1, W1Encode, Challenge, ExpandA, ModPm;
    VerifyMuIff(p, H, pk, mu, data);
    VerifyMuIff(p, H, pk, mu', data);
    var sig: Signature, c: Poly, A: Matrix :|
      SigDecode(p, data) == Some(sig) && Sampled(p, H, pk, sig, c, A) && Accepted(p, H, pk.t1, mu, sig, c, A);
    var sig': Signature, c': Poly, A': Matrix :|
      SigDecode(p, data) == Some(sig') && Sampled(p, H, pk, sig', c', A') && Accepted(p, H, pk.t1, mu', sig', c', A');
    var w1 := ExpectedW1(p, A, sig, c, pk.t1);
    assert H.h(mu + W1Encode(p, w1), p.ctilde) == H.h(mu' + W1Encode(p, w1), p.ctilde);
  }

  // ----- signing

  lemma ModPmResidue(x: int, y: int)
    requires x % Q == y % Q
    ensures ModPm(x) == ModPm(y)
  {}

  /** A coefficient of the challenge times a polynomial. */
  function RingTimes(c: Poly, s: Poly, j: nat): int
    requires j < 256
  {
    RingMul(Centred(c), s)[j]
  }

  lemma TimesCIs(c: Poly, s: Poly, j: nat)
    requires j < 256
    ensures TimesC(c, s)[j] == RingTimes(c, s, j) % Q
  {
    hide NttOf, InvOf, RingMul, PolyMulNtt;
    CentredTransforms(c);
    NttOfProduct(Centred(c), s);
  }

  lemma CommitIs(row: seq<Poly>, y: seq<Poly>, j: nat)
    requires |row| == |y| && j < 256
    ensures CommitRow(row, y)[j] == RingDot(row, y, j) % Q
  {
    hide NttOf, InvOf, RingDot, DotAt, RowTimes;
    var w, v := RingDotPoly(row, y), RowTimes(row, NttAll(y));
    forall i | 0 <= i < 256 ensures NttOf(w)[i] % Q == v[i] % Q {
      RingDotTransforms(row, y, i);
      RowValue(row, y, i);
    }
    InverseOfTransform(w, v);
  }

  /** Equal transforms come from equal residues. */
  lemma InverseOfTransform(w: Poly, v: Poly)
    requires forall i :: 0 <= i < 256 ==> NttOf(w)[i] % Q == v[i] % Q
    ensures InvOf(v) == ReducedQ(w)
  {
    hide NttOf, InvOf;
    NttRoundTrip(v);
    NttResidues(w);
    NttResidues(v);
    assert NttOf(InvOf(v)) == NttOf(w) by {
      assert ReducedQ(v) == NttOf(w);
    }
    NttRoundTrip(w);
    NttRoundTrip(InvOf(v));
    assert ReducedQ(InvOf(v)) == InvOf(v);
  }

  /** w - c s2 and c t0 of row i in the ring. */
  function Residual(A: Matrix, y: seq<Poly>, c: Poly, s2: seq<Poly>, i: nat, j: nat): int
    requires i < |A| == |s2| && |A[i]| == |y| && j < 256
  {
    RingDot(A[i], y, j) - RingTimes(c, s2[i], j)
  }

  /** The high bits of A y. */
  function RingHighs(A: Matrix, y: seq<Poly>, gamma2: int): (w1: seq<Poly>)
    requires HasShape(A, |A|, |y|) && gamma2 > 0
  {
    seq(|A|, i requires 0 <= i < |A| => HighRow(A[i], y, gamma2))
  }

  function HighRow(row: seq<Poly>, y: seq<Poly>, gamma2: int): Poly
    requires |row| == |y| && gamma2 > 0
  {
    seq(256, j requires 0 <= j < 256 => HighBits(RingDot(row, y, j), gamma2))
  }

  lemma HighsAre(A: Matrix, y: seq<Poly>, gamma2: int)
    requires HasShape(A, |A|, |y|) && gamma2 > 0
    ensures HighAll(CommitAll(A, y), gamma2) == RingHighs(A, y, gamma2)
  {
    hide CommitRow, RingDot, Decompose;
    forall i, j | 0 <= i < |A| && 0 <= j < 256
      ensures HighBits(CommitRow(A[i], y)[j], gamma2) == HighBits(RingDot(A[i], y, j), gamma2)
    {
      CommitIs(A[i], y, j);
      ModMod(RingDot(A[i], y, j), Q);
      DecomposeResidue(RingDot(A[i], y, j) % Q, RingDot(A[i], y, j), gamma2);
    }
    assert forall i :: 0 <= i < |A| ==> HighPoly(CommitRow(A[i], y), gamma2) == HighRow(A[i], y, gamma2);
  }

  /** The signature of one attempt with mask y and challenge c, and the bounds it keeps:
      z = y + c s1 is short, the low bits of w - c s2 stay clear of the edge, c t0 is short,
      and there are at most omega hints. */
  ghost predicate Signs(p: Params, A: Matrix, sk: SecretKey, y: seq<Poly>, c: Poly, sig: Signature)
    requires IsGamma2(p.gamma2)
  {
    && HasShape(A, p.k, p.ell) && |y| == |sk.s1| == |sig.z| == p.ell && |sk.s2| == |sk.t0| == |sig.h| == p.k
    && (forall i, j :: 0 <= i < p.ell && 0 <= j < 256 ==> ZEntry(p, sk, y, c, sig, i, j))
    && (forall i, j :: 0 <= i < p.k && 0 <= j < 256 ==> HintEntry(p, A, sk, y, c, sig, i, j))
    && HintCount(sig.h) <= p.omega
  }

  ghost predicate ZEntry(p: Params, sk: SecretKey, y: seq<Poly>, c: Poly, sig: Signature, i: nat, j: nat)
    requires i < |y| == |sk.s1| == |sig.z| && j < 256
  {
    sig.z[i][j] == ModPm(y[i][j] + RingTimes(c, sk.s1[i], j)) && -(p.gamma1 - p.beta) < sig.z[i][j] < p.gamma1 - p.beta
  }

  ghost predicate HintEntry(p: Params, A: Matrix, sk: SecretKey, y: seq<Poly>, c: Poly, sig: Signature, i: nat, j: nat)
    requires i < |A| == |sk.s2| == |sk.t0| == |sig.h| && |A[i]| == |y| && j < 256 && IsGamma2(p.gamma2)
  {
    var r, t := Residual(A, y, c, sk.s2, i, j), RingTimes(c, sk.t0[i], j);
    && -(p.gamma2 - p.beta) < LowBits(r, p.gamma2) < p.gamma2 - p.beta
    && 0 - p.gamma2 < ModPm(t) < p.gamma2
    && sig.h[i][j] == MakeHint(-t, r + t, p.gamma2)
  }

  lemma ZIs(y: Poly, c: Poly, s: Poly, j: nat)
    requires j < 256
    ensures ModPm(PolyAdd(y, TimesC(c, s))[j]) == ModPm(y[j] + RingTimes(c, s, j))
  {
    hide TimesC, RingTimes, ModPm;
    TimesCIs(c, s, j);
    AddReduce(y[j], RingTimes(c, s, j), Q);
    ModMod(y[j] + RingTimes(c, s, j), Q);
    ModPmResidue(PolyAdd(y, TimesC(c, s))[j], y[j] + RingTimes(c, s, j));
  }

  /** The rounded values of row i depend only on residues. */
  lemma RowIs(row: seq<Poly>, y: seq<Poly>, c: Poly, s2: Poly, t0: Poly, j: nat, gamma2: int)
    requires |row| == |y| && j < 256 && IsGamma2(gamma2) && gamma2 > 0
    ensures var r, t := RingDot(row, y, j) - RingTimes(c, s2, j), RingTimes(c, t0, j);
            var w := CommitRow(row, y);
            && ModPm(LowPoly(Remainder(w, c, s2), gamma2)[j]) == LowBits(r, gamma2)
            && ModPm(TimesC(c, t0)[j]) == ModPm(t)
            && HintPoly(Remainder(w, c, s2), TimesC(c, t0), gamma2)[j] == MakeHint(-t, r + t, gamma2)
  {
    hide TimesC, RingTimes, RingDot, CommitRow, ModPm, LowBits, MakeHint, Remainder, LowPoly, HintPoly, IsGamma2;
    CommitIs(row, y, j);
    TimesCIs(c, s2, j);
    TimesCIs(c, t0, j);
    RemainderAt(CommitRow(row, y), c, s2, j);
    var rest, ct0 := Remainder(CommitRow(row, y), c, s2), TimesC(c, t0);
    EntryIs(RingDot(row, y, j), RingTimes(c, s2, j), RingTimes(c, t0, j), rest[j], ct0[j], gamma2);
    RoundedAt(rest, ct0, j, gamma2);
  }

  lemma RoundedAt(rest: Poly, ct0: Poly, j: nat, gamma2: int)
    requires j < 256 && gamma2 > 0
    ensures LowPoly(rest, gamma2)[j] == LowBits(rest[j], gamma2)
    ensures HintPoly(rest, ct0, gamma2)[j] == MakeHint(-ct0[j], rest[j] + ct0[j], gamma2)
  {
    hide LowBits, MakeHint;
  }

  lemma RemainderAt(w: Poly, c: Poly, s2: Poly, j: nat)
    requires j < 256
    ensures Remainder(w, c, s2)[j] == (w[j] - TimesC(c, s2)[j]) % Q
  {
    hide TimesC;
  }

  lemma EntryIs(d: int, x: int, t: int, r: int, ct0: int, gamma2: int)
    requires IsGamma2(gamma2) && r == (d % Q - x % Q) % Q && ct0 == t % Q
    ensures ModPm(LowBits(r, gamma2)) == LowBits(d - x, gamma2)
    ensures ModPm(ct0) == ModPm(t)
    ensures MakeHint(-ct0, r + ct0, gamma2) == MakeHint(-t, d - x + t, gamma2)
  {
    hide ModPm, Decompose, MakeHint;
    ModMod(t, Q);
    ModPmResidue(ct0, t);
    ResidualResidue(d, x);
    DecomposeResidue(r, d - x, gamma2);
    LowIsSmall(d - x, gamma2);
    HintResidue(r, d - x, t, gamma2);
  }

  lemma ResidualResidue(d: int, x: int)
    ensures (d % Q - x % Q) % Q % Q == (d - x) % Q
  {
    ModMod(d, Q);
    ModMod(x, Q);
    AddCong(d % Q, d, x % Q, x, Q);
    ModMod(d % Q - x % Q, Q);
  }

  lemma LowIsSmall(r: int, gamma2: int)
    requires IsGamma2(gamma2)
    ensures ModPm(LowBits(r, gamma2)) == LowBits(r, gamma2)
  {
    hide Decompose;
    DecomposeSplits(r, gamma2);
    ModPmSmall(LowBits(r, gamma2));
  }

  lemma HintResidue(rq: int, r: int, t: int, gamma2: int)
    requires rq % Q == r % Q && gamma2 > 0
    ensures MakeHint(-(t % Q), rq + t % Q, gamma2) == MakeHint(-t, r + t, gamma2)
  {
    hide Decompose;
    ModMod(t, Q);
    AddCong(rq, r, t % Q, t, Q);
    DecomposeResidue(rq + t % Q, r + t, gamma2);
    assert rq + t % Q + -(t % Q) == rq && r + t + -t == r;
    DecomposeResidue(rq, r, gamma2);
  }

  lemma PassesIff(p: Params, A: Matrix, sk: SecretKey, y: seq<Poly>, c: Poly, sig: Signature)
    requires p.Known() && SkShape(p, sk) && HasShape(A, p.k, p.ell) && |y| == p.ell && IsGamma2(p.gamma2)
    ensures Signs(p, A, sk, y, c, sig)
       <==> && Passes(p, CommitAll(A, y), c, sk, Masked(y, c, sk.s1))
            && sig.z == CentredAll(Masked(y, c, sk.s1)) && sig.h == Hints(CommitAll(A, y), c, sk.s2, sk.t0, p.gamma2)
  {
    hide Params.Known, TimesC, RingTimes, RingDot, CommitRow, ModPm, Decompose, HintCount, LowPoly, HintPoly,
      MakeHint, Remainder, LowBits;
    var w := CommitAll(A, y);
    forall i, j | 0 <= i < p.ell && 0 <= j < 256
      ensures ModPm(Masked(y, c, sk.s1)[i][j]) == ModPm(y[i][j] + RingTimes(c, sk.s1[i], j))
    {
      ZIs(y[i], c, sk.s1[i], j);
    }
    forall i, j | 0 <= i < p.k && 0 <= j < 256
      ensures RowEntry(p, A, sk, y, c, i, j)
    {
      RowIs(A[i], y, c, sk.s2[i], sk.t0[i], j, p.gamma2);
    }
    PassesEntries(p, A, sk, y, c, sig);
  }

  /** What RowIs says of one entry. */
  ghost predicate RowEntry(p: Params, A: Matrix, sk: SecretKey, y: seq<Poly>, c: Poly, i: nat, j: nat)
    requires i < |A| == |sk.s2| == |sk.t0| && |A[i]| == |y| && j < 256 && p.gamma2 > 0
  {
    var r, t := Residual(A, y, c, sk.s2, i, j), RingTimes(c, sk.t0[i], j);
    var rest := Remainder(CommitRow(A[i], y), c, sk.s2[i]);
    && ModPm(LowPoly(rest, p.gamma2)[j]) == LowBits(r, p.gamma2)
    && ModPm(TimesC(c, sk.t0[i])[j]) == ModPm(t)
    && HintPoly(rest, TimesC(c, sk.t0[i]), p.gamma2)[j] == MakeHint(-t, r + t, p.gamma2)
  }

  lemma PassesEntries(p: Params, A: Matrix, sk: SecretKey, y: seq<Poly>, c: Poly, sig: Signature)
    requires SkShape(p, sk) && HasShape(A, p.k, p.ell) && |y| == p.ell && IsGamma2(p.gamma2)
    requires forall i, j :: 0 <= i < p.ell && 0 <= j < 256 ==>
               ModPm(Masked(y, c, sk.s1)[i][j]) == ModPm(y[i][j] + RingTimes(c, sk.s1[i], j))
    requires forall i, j :: 0 <= i < p.k && 0 <= j < 256 ==> RowEntry(p, A, sk, y, c, i, j)
    ensures Signs(p, A, sk, y, c, sig)
       <==> && Passes(p, CommitAll(A, y), c, sk, Masked(y, c, sk.s1))
            && sig.z == CentredAll(Masked(y, c, sk.s1)) && sig.h == Hints(CommitAll(A, y), c, sk.s2, sk.t0, p.gamma2)
  {
    hide TimesC, RingTimes, RingDot, CommitRow, ModPm, Decompose, HintCount, LowPoly, HintPoly, MakeHint, Remainder,
      LowBits, Residual, PolyAdd;
    if Signs(p, A, sk, y, c, sig) {
      SignsPasses(p, A, sk, y, c, sig);
    }
    if Passes(p, CommitAll(A, y), c, sk, Masked(y, c, sk.s1))
       && sig.z == CentredAll(Masked(y, c, sk.s1)) && sig.h == Hints(CommitAll(A, y), c, sk.s2, sk.t0, p.gamma2) {
      PassesSigns(p, A, sk, y, c, sig);
    }
  }

  lemma SignsPasses(p: Params, A: Matrix, sk: SecretKey, y: seq<Poly>, c: Poly, sig: Signature)
    requires SkShape(p, sk) && HasShape(A, p.k, p.ell) && |y| == p.ell && IsGamma2(p.gamma2)
    requires forall i, j :: 0 <= i < p.ell && 0 <= j < 256 ==>
               ModPm(Masked(y, c, sk.s1)[i][j]) == ModPm(y[i][j] + RingTimes(c, sk.s1[i], j))
    requires forall i, j :: 0 <= i < p.k && 0 <= j < 256 ==> RowEntry(p, A, sk, y, c, i, j)
    requires Signs(p, A, sk, y, c, sig)
    ensures Passes(p, CommitAll(A, y), c, sk, Masked(y, c, sk.s1))
    ensures sig.z == CentredAll(Masked(y, c, sk.s1)) && sig.h == Hints(CommitAll(A, y), c, sk.s2, sk.t0, p.gamma2)
  {
    hide TimesC, RingTimes, RingDot, CommitRow, ModPm, Decompose, HintCount, LowPoly, HintPoly, MakeHint, Remainder,
      LowBits, Residual, PolyAdd;
    var z, w := Masked(y, c, sk.s1), CommitAll(A, y);
    forall i | 0 <= i < p.ell ensures NormOk(z[i], p.gamma1 - p.beta) && sig.z[i] == Centred(z[i]) {
      forall j | 0 <= j < 256
        ensures -(p.gamma1 - p.beta) < ModPm(z[i][j]) < p.gamma1 - p.beta && sig.z[i][j] == ModPm(z[i][j])
      {
        assert ZEntry(p, sk, y, c, sig, i, j);
      }
    }
    forall i | 0 <= i < p.k
      ensures NormOk(LowPoly(Remainder(w[i], c, sk.s2[i]), p.gamma2), p.gamma2 - p.beta)
      ensures NormOk(TimesC(c, sk.t0[i]), p.gamma2)
      ensures sig.h[i] == HintPoly(Remainder(w[i], c, sk.s2[i]), TimesC(c, sk.t0[i]), p.gamma2)
    {
      var low, ct0 := LowPoly(Remainder(w[i], c, sk.s2[i]), p.gamma2), TimesC(c, sk.t0[i]);
      forall j | 0 <= j < 256
        ensures -(p.gamma2 - p.beta) < ModPm(low[j]) < p.gamma2 - p.beta && 0 - p.gamma2 < ModPm(ct0[j]) < p.gamma2
        ensures sig.h[i][j] == HintPoly(Remainder(w[i], c, sk.s2[i]), ct0, p.gamma2)[j]
      {
        assert HintEntry(p, A, sk, y, c, sig, i, j) && RowEntry(p, A, sk, y, c, i, j);
      }
    }
    assert sig.h == Hints(w, c, sk.s2, sk.t0, p.gamma2);
  }

  lemma PassesSigns(p: Params, A: Matrix, sk: SecretKey, y: seq<Poly>, c: Poly, sig: Signature)
    requires SkShape(p, sk) && HasShape(A, p.k, p.ell) && |y| == p.ell && IsGamma2(p.gamma2)
    requires forall i, j :: 0 <= i < p.ell && 0 <= j < 256 ==>
               ModPm(Masked(y, c, sk.s1)[i][j]) == ModPm(y[i][j] + RingTimes(c, sk.s1[i], j))
    requires forall i, j :: 0 <= i < p.k && 0 <= j < 256 ==> RowEntry(p, A, sk, y, c, i, j)
    requires Passes(p, CommitAll(A, y), c, sk, Masked(y, c, sk.s1))
    requires sig.z == CentredAll(Masked(y, c, sk.s1)) && sig.h == Hints(CommitAll(A, y), c, sk.s2, sk.t0, p.gamma2)
    ensures Signs(p, A, sk, y, c, sig)
  {
    hide TimesC, RingTimes, RingDot, CommitRow, ModPm, Decompose, HintCount, LowPoly, HintPoly, MakeHint, Remainder,
      LowBits, Residual, PolyAdd;
    var z, w := Masked(y, c, sk.s1), CommitAll(A, y);
    forall i, j | 0 <= i < p.ell && 0 <= j < 256 ensures ZEntry(p, sk, y, c, sig, i, j) {
      assert NormOk(z[i], p.gamma1 - p.beta);
    }
    forall i, j | 0 <= i < p.k && 0 <= j < 256 ensures HintEntry(p, A, sk, y, c, sig, i, j) {
      assert RowEntry(p, A, sk, y, c, i, j);
      assert NormOk(LowPoly(Remainder(w[i], c, sk.s2[i]), p.gamma2), p.gamma2 - p.beta);
      assert NormOk(TimesC(c, sk.t0[i]), p.gamma2);
    }
  }

  /** An attempt with mask y returns exactly the signature whose challenge comes from the hash
      of mu and the high bits of A y and which keeps the bounds; with that challenge it tries
      again exactly when no signature does. */
  lemma AttemptIff(p: Params, H: Shake, A: Matrix, sk: SecretKey, mu: seq<int>, y: seq<Poly>, sig: Signature)
    requires p.Known() && H.Valid() && SkShape(p, sk) && HasShape(A, p.k, p.ell) && |y| == p.ell
    ensures IsGamma2(p.gamma2) && p.tau <= 256
    ensures Attempt(p, H, A, sk, mu, y) == Some(Done(sig))
       <==> && sig.ctilde == H.h(mu + W1Encode(p, RingHighs(A, y, p.gamma2)), p.ctilde)
            && Challenge(p, H, sig.ctilde).Some? && Signs(p, A, sk, y, Challenge(p, H, sig.ctilde).value, sig)
  {
    KnownFacts(p);
    hide Params.Known, IsGamma2, Challenge, W1Encode, Shake.Valid, Passes, Masked, Signs, CommitAll, HighAll, RingHighs,
      CentredAll, Hints;
    HighsAre(A, y, p.gamma2);
    var ctilde := H.h(mu + W1Encode(p, RingHighs(A, y, p.gamma2)), p.ctilde);
    if Challenge(p, H, ctilde).Some? {
      PassesIff(p, A, sk, y, Challenge(p, H, ctilde).value, sig);
    }
  }

  // ----- the loop

  /** Attempt number u of a loop that starts with nonce kappa: every attempt uses ell nonces. */
  function AttemptAt(p: Params, H: Shake, A: Matrix, sk: SecretKey, mu: seq<int>, rhoPP: seq<int>, kappa: nat, u: nat): Option<Trial>
    requires p.Known() && H.Valid() && SkShape(p, sk) && HasShape(A, p.k, p.ell)
  {
    UsedNonces(u, p.ell);
    Attempt(p, H, A, sk, mu, MaskVec(p, H, rhoPP, kappa + u * p.ell, p.ell))
  }

  lemma UsedNonces(u: nat, ell: nat)
    ensures u * ell >= 0 && (u + 1) * ell == u * ell + ell && 0 * ell == 0
  {}

  /** Attempt t is the first that does not try again, its nonces fit two bytes, and it
      returns the signature. */
  ghost predicate FirstDone(p: Params, H: Shake, A: Matrix, sk: SecretKey, mu: seq<int>, rhoPP: seq<int>, kappa: nat,
                            sig: Signature, t: nat)
    requires p.Known() && H.Valid() && SkShape(p, sk) && HasShape(A, p.k, p.ell)
  {
    && kappa + t * p.ell + p.ell <= 65536
    && (forall u: nat :: u < t ==> AttemptAt(p, H, A, sk, mu, rhoPP, kappa, u) == Some(Again))
    && AttemptAt(p, H, A, sk, mu, rhoPP, kappa, t) == Some(Done(sig))
  }

  lemma LaterAttempt(p: Params, H: Shake, A: Matrix, sk: SecretKey, mu: seq<int>, rhoPP: seq<int>, kappa: nat, u: nat)
    requires p.Known() && H.Valid() && SkShape(p, sk) && HasShape(A, p.k, p.ell)
    ensures AttemptAt(p, H, A, sk, mu, rhoPP, kappa, u + 1) == AttemptAt(p, H, A, sk, mu, rhoPP, kappa + p.ell, u)
  {
    hide Attempt, MaskVec, Params.Known;
    UsedNonces(u, p.ell);
    assert kappa + (u + 1) * p.ell == kappa + p.ell + u * p.ell;
  }

  lemma FirstDoneShift(p: Params, H: Shake, A: Matrix, sk: SecretKey, mu: seq<int>, rhoPP: seq<int>, kappa: nat, next: nat,
                       sig: Signature, t: nat)
    requires p.Known() && H.Valid() && SkShape(p, sk) && HasShape(A, p.k, p.ell) && next == kappa + p.ell
    requires AttemptAt(p, H, A, sk, mu, rhoPP, kappa, 0) == Some(Again)
    ensures FirstDone(p, H, A, sk, mu, rhoPP, kappa, sig, t + 1) <==> FirstDone(p, H, A, sk, mu, rhoPP, next, sig, t)
  {
    hide AttemptAt, Params.Known, SkShape, HasShape, Shake.Valid;
    UsedNonces(t, p.ell);
    LaterAttempt(p, H, A, sk, mu, rhoPP, kappa, t);
    forall u: nat | u < t
      ensures AttemptAt(p, H, A, sk, mu, rhoPP, kappa, u + 1) == AttemptAt(p, H, A, sk, mu, rhoPP, next, u)
    {
      LaterAttempt(p, H, A, sk, mu, rhoPP, kappa, u);
    }
    if FirstDone(p, H, A, sk, mu, rhoPP, kappa, sig, t + 1) {
      forall u: nat | u < t ensures AttemptAt(p, H, A, sk, mu, rhoPP, next, u) == Some(Again) {
        assert AttemptAt(p, H, A, sk, mu, rhoPP, kappa, u + 1) == Some(Again);
      }
    }
    if FirstDone(p, H, A, sk, mu, rhoPP, next, sig, t) {
      forall u: nat | u < t + 1 ensures AttemptAt(p, H, A, sk, mu, rhoPP, kappa, u) == Some(Again) {
        if u > 0 {
          assert AttemptAt(p, H, A, sk, mu, rhoPP, next, u - 1) == Some(Again);
        }
      }
    }
  }

  /** The loop of _sign_mu returns exactly the signature of the first attempt that keeps the
      bounds. */
  lemma {:induction false} SignFromIff(p: Params, H: Shake, A: Matrix, sk: SecretKey, mu: seq<int>, rhoPP: seq<int>, kappa: nat,
                                       sig: Signature)
    requires p.Known() && H.Valid() && SkShape(p, sk) && HasShape(A, p.k, p.ell)
    ensures SignFrom(p, H, A, sk, mu, rhoPP, kappa) == Some(sig)
       <==> exists t: nat :: FirstDone(p, H, A, sk, mu, rhoPP, kappa, sig, t)
    decreases 65536 - kappa
  {
    SomeNonces(p);
    hide AttemptAt, FirstDone, SignFrom, Params.Known, SkShape, HasShape, Shake.Valid;
    var next := kappa + p.ell;
    SignFromStep(p, H, A, sk, mu, rhoPP, kappa, next);
    if next > 65536 {
      forall t: nat ensures !FirstDone(p, H, A, sk, mu, rhoPP, kappa, sig, t) {
        TooLate(p, H, A, sk, mu, rhoPP, kappa, sig, t);
      }
    } else if AttemptAt(p, H, A, sk, mu, rhoPP, kappa, 0) == Some(Again) {
      SignFromIff(p, H, A, sk, mu, rhoPP, next, sig);
      AgainShifts(p, H, A, sk, mu, rhoPP, kappa, next, sig);
    } else {
      NoLater(p, H, A, sk, mu, rhoPP, kappa, sig);
    }
  }

  lemma SignFromStep(p: Params, H: Shake, A: Matrix, sk: SecretKey, mu: seq<int>, rhoPP: seq<int>, kappa: nat, next: nat)
    requires p.Known() && H.Valid() && SkShape(p, sk) && HasShape(A, p.k, p.ell) && next == kappa + p.ell
    ensures SignFrom(p, H, A, sk, mu, rhoPP, kappa)
         == if next > 65536 then None
            else match AttemptAt(p, H, A, sk, mu, rhoPP, kappa, 0)
                 case None => None
                 case Some(Again) => SignFrom(p, H, A, sk, mu, rhoPP, next)
                 case Some(Done(s)) => Some(s)
  {
    hide Attempt, MaskVec, Params.Known, SkShape, HasShape, Shake.Valid;
    UsedNonces(0, p.ell);
  }

  lemma TooLate(p: Params, H: Shake, A: Matrix, sk: SecretKey, mu: seq<int>, rhoPP: seq<int>, kappa: nat, sig: Signature, t: nat)
    requires p.Known() && H.Valid() && SkShape(p, sk) && HasShape(A, p.k, p.ell) && kappa + p.ell > 65536
    ensures !FirstDone(p, H, A, sk, mu, rhoPP, kappa, sig, t)
  {
    hide AttemptAt, Params.Known, SkShape, HasShape, Shake.Valid;
    UsedNonces(t, p.ell);
  }

  lemma SomeNonces(p: Params)
    requires p.Known()
    ensures p.ell >= 1
  {}

  lemma AgainShifts(p: Params, H: Shake, A: Matrix, sk: SecretKey, mu: seq<int>, rhoPP: seq<int>, kappa: nat, next: nat,
                    sig: Signature)
    requires p.Known() && H.Valid() && SkShape(p, sk) && HasShape(A, p.k, p.ell) && next == kappa + p.ell
    requires AttemptAt(p, H, A, sk, mu, rhoPP, kappa, 0) == Some(Again)
    ensures (exists t: nat :: FirstDone(p, H, A, sk, mu, rhoPP, kappa, sig, t))
       <==> exists t: nat :: FirstDone(p, H, A, sk, mu, rhoPP, next, sig, t)
  {
    hide AttemptAt, Params.Known, SkShape, HasShape, Shake.Valid;
    forall t: nat | FirstDone(p, H, A, sk, mu, rhoPP, kappa, sig, t)
      ensures exists t': nat :: FirstDone(p, H, A, sk, mu, rhoPP, next, sig, t')
    {
      assert t > 0;
      FirstDoneShift(p, H, A, sk, mu, rhoPP, kappa, next, sig, t - 1);
    }
    forall t: nat | FirstDone(p, H, A, sk, mu, rhoPP, next, sig, t)
      ensures exists t': nat :: FirstDone(p, H, A, sk, mu, rhoPP, kappa, sig, t')
    {
      FirstDoneShift(p, H, A, sk, mu, rhoPP, kappa, next, sig, t);
    }
  }

  lemma NoLater(p: Params, H: Shake, A: Matrix, sk: SecretKey, mu: seq<int>, rhoPP: seq<int>, kappa: nat, sig: Signature)
    requires p.Known() && H.Valid() && SkShape(p, sk) && HasShape(A, p.k, p.ell) && kappa + p.ell <= 65536
    requires AttemptAt(p, H, A, sk, mu, rhoPP, kappa, 0) != Some(Again)
    ensures (exists t: nat :: FirstDone(p, H, A, sk, mu, rhoPP, kappa, sig, t))
       <==> AttemptAt(p, H, A, sk, mu, rhoPP, kappa, 0) == Some(Done(sig))
  {
    hide AttemptAt, Params.Known, SkShape, HasShape, Shake.Valid;
    UsedNonces(0, p.ell);
    forall t: nat | FirstDone(p, H, A, sk, mu, rhoPP, kappa, sig, t) ensures t == 0 {}
    if AttemptAt(p, H, A, sk, mu, rhoPP, kappa, 0) == Some(Done(sig)) {
      assert FirstDone(p, H, A, sk, mu, rhoPP, kappa, sig, 0);
    }
  }
}
