/** Completeness of ML-DSA: every signature _sign_internal returns under a key
    pair of _keygen_internal is accepted by _verify_internal. */
module MlDsaComplete {
  import opened ModArith
  import opened BitPack
  import opened NttProduct
  import opened MlDsaRounding
  import opened MlDsaRing
  import opened Options
  import opened MlDsaCodec
  import opened MlDsaKeys
  import opened MlDsaSampling
  import opened MlDsa

  // ----- keys

  /** What key generation guarantees about the parts of a key pair. */
  ghost predicate GoodKeys(p: Params, H: Shake, pair: KeyPair, s1: seq<Poly>, s2: seq<Poly>)
    requires H.Valid()
  {
    && |s1| == p.ell && |s2| == p.k && |pair.pk.t1| == |pair.sk.t0| == p.k
    && pair.sk.rho == pair.pk.rho
    && pair.sk.tr == H.h(PkEncode(pair.pk), 64)
    && (forall i :: 0 <= i < p.k ==> Bounded(s2[i], p.eta))
    && ExpandA(H, pair.pk.rho, p.k, p.ell).Some?
    && var A := ExpandA(H, pair.pk.rho, p.k, p.ell).value;
       forall i :: 0 <= i < p.k ==> Rounded(TPoly(A[i], s1, s2[i]), pair.pk.t1[i], pair.sk.t0[i])
  }

  ghost predicate GoodPair(p: Params, H: Shake, pair: KeyPair)
    requires H.Valid()
  {
    PkWellFormed(p, pair.pk) && SkWellFormed(p, pair.sk) && GoodKeys(p, H, pair, pair.sk.s1, pair.sk.s2)
  }

  /** t is 2^13 t1 + t0 modulo q. */
  ghost predicate Rounded(t: Poly, t1: Poly, t0: Poly)
  {
    forall j :: 0 <= j < 256 ==> t[j] % Q == (8192 * t1[j] + t0[j]) % Q
  }

  lemma SmallInWindow(f: Poly, eta: nat, w: nat)
    requires Bounded(f, eta) && (eta == 2 || eta == 4) && w == (if eta == 2 then 3 else 4)
    ensures InWindow(f, eta, w)
  {
    assert Exp2(3) == 8 && Exp2(4) == 16;
    forall i | 0 <= i < 256 ensures ModPm(f[i]) == f[i] {
      ModPmSmall(f[i]);
    }
  }

  lemma RoundedParts(t: Poly)
    requires Residues(t)
    ensures Fits(HighPart(t), 10) && InWindow(LowPart(t), 4096, 13)
    ensures Rounded(t, HighPart(t), LowPart(t))
  {
    hide Power2Round, ModPm;
    assert Exp2(10) == 1024;
    Exp2Add(3, 10);
    assert Exp2(3) == 8;
    forall j | 0 <= j < 256
      ensures 0 <= HighPart(t)[j] < 1024 && -4096 < ModPm(LowPart(t)[j]) <= 4096
      ensures 8192 * HighPart(t)[j] + LowPart(t)[j] == t[j] % Q
    {
      Power2RoundSplits(t[j]);
      ModPmSmall(LowPart(t)[j]);
    }
    forall j | 0 <= j < 256 ensures t[j] % Q == (8192 * HighPart(t)[j] + LowPart(t)[j]) % Q {
      ModMod(t[j], Q);
    }
  }

  lemma TPolyResidues(row: seq<Poly>, s1: seq<Poly>, s2: Poly)
    requires |row| == |s1|
    ensures Residues(TPoly(row, s1, s2))
  {}

  lemma SecretsInWindow(p: Params, s: seq<Poly>, n: nat)
    requires p.Known() && |s| == n && forall i :: 0 <= i < n ==> Bounded(s[i], p.eta)
    ensures AllInWindow(s, n, p.eta, p.SBits())
  {
    KnownSizes(p);
    hide Params.Known, Params.SBits, Bounded, InWindow;
    forall i | 0 <= i < n ensures InWindow(s[i], p.eta, p.SBits()) {
      SmallInWindow(s[i], p.eta, p.SBits());
    }
  }

  lemma VectorRounded(A: Matrix, s1: seq<Poly>, s2: seq<Poly>)
    requires HasShape(A, |s2|, |s1|)
    ensures var t := TVec(A, s1, s2);
            && AllInWindow(LowParts(t), |s2|, 4096, 13)
            && forall i :: 0 <= i < |s2| ==> Fits(HighParts(t)[i], 10) && Rounded(TPoly(A[i], s1, s2[i]), HighParts(t)[i], LowParts(t)[i])
  {
    hide HighPart, LowPart, TPoly, InWindow, Fits, Rounded;
    var t := TVec(A, s1, s2);
    forall i | 0 <= i < |s2|
      ensures Fits(HighParts(t)[i], 10) && InWindow(LowParts(t)[i], 4096, 13)
      ensures Rounded(TPoly(A[i], s1, s2[i]), HighParts(t)[i], LowParts(t)[i])
    {
      TPolyResidues(A[i], s1, s2[i]);
      RoundedParts(TPoly(A[i], s1, s2[i]));
    }
  }

  lemma AssembledGood(p: Params, H: Shake, rho: seq<int>, key: seq<int>, A: Matrix, s1: seq<Poly>, s2: seq<Poly>)
    requires p.Known() && H.Valid() && |rho| == 32 && |key| == 32 && |s1| == p.ell && |s2| == p.k
    requires ExpandA(H, rho, p.k, p.ell) == Some(A)
    requires (forall i :: 0 <= i < p.ell ==> Bounded(s1[i], p.eta)) && (forall i :: 0 <= i < p.k ==> Bounded(s2[i], p.eta))
    ensures HasShape(A, |s2|, |s1|)
    ensures GoodPair(p, H, AssembleKeys(H, rho, key, A, s1, s2))
  {
    hide Params.Known, Params.SBits, HighParts, LowParts, TVec, TPoly, Bounded, ExpandA, Fits, Rounded, AllInWindow, PkEncode;
    SecretsInWindow(p, s1, p.ell);
    SecretsInWindow(p, s2, p.k);
    VectorRounded(A, s1, s2);
    WindowCount(LowParts(TVec(A, s1, s2)), p.k, 4096, 13);
  }

  lemma WindowCount(ps: seq<Poly>, n: nat, offset: int, w: nat)
    requires AllInWindow(ps, n, offset, w)
    ensures |ps| == n
  {}

  lemma HashLength(H: Shake, d: seq<int>, n: nat)
    requires H.Valid()
    ensures |H.h(d, n)| == n && Fits(H.h(d, n), 8)
  {}

  /** Key generation yields encodable keys that satisfy GoodKeys. */
  lemma KeysAreGood(p: Params, H: Shake, seed: seq<int>, pair: KeyPair)
    requires p.Known() && H.Valid() && KeyGenParts(p, H, seed) == Some(pair)
    ensures GoodPair(p, H, pair)
  {
    assert p.eta == 2 || p.eta == 4 by { KnownSizes(p); }
    hide Params.Known, AssembleKeys, GoodPair, ExpandA, ExpandS, Bounded, Shake.Valid;
    var g := H.h(seed + [p.k, p.ell], 128);
    HashLength(H, seed + [p.k, p.ell], 128);
    var rho2, A := g[32..96], ExpandA(H, g[..32], p.k, p.ell).value;
    var s1, s2 := ExpandS(H, rho2, 0, p.ell, p.eta).value, ExpandS(H, rho2, p.ell, p.k, p.eta).value;
    ExpandSBounded(H, rho2, 0, p.ell, p.eta);
    ExpandSBounded(H, rho2, p.ell, p.k, p.eta);
    AssembledGood(p, H, g[..32], g[96..], A, s1, s2);
  }

  // ----- one row

  lemma NttOfReduced(f: Poly)
    ensures NttOf(ReducedQ(f)) == NttOf(f) && NttOf(Centred(f)) == NttOf(f)
  {
    forall i | 0 <= i < 256 ensures ReducedQ(f)[i] % Q == f[i] % Q && Centred(f)[i] % Q == f[i] % Q {
      ModMod(f[i], Q);
      ModPmCong(f[i]);
    }
    NttReduced(ReducedQ(f), f);
    NttReduced(Centred(f), f);
  }

  /** c s2 has coefficients of size at most beta. */
  lemma SecretTimesC(p: Params, c: Poly, s2: Poly)
    requires p.Known() && (forall k :: 0 <= k < 256 ==> Ternary(c[k])) && Weight(c, 0) == p.tau && Bounded(s2, p.eta)
    ensures var s := RingMul(Centred(c), s2);
            forall j :: 0 <= j < 256 ==> TimesC(c, ReducedQ(s2))[j] == s[j] % Q && 0 - p.beta <= s[j] <= p.beta
  {
    KnownSizes(p);
    hide Params.Known, NttOf, InvOf, RingMul, Ternary, Weight, Bounded;
    NttOfReduced(c);
    NttOfReduced(s2);
    NttOfProduct(Centred(c), s2);
    forall j | 0 <= j < 256 ensures 0 - p.beta <= RingMul(Centred(c), s2)[j] <= p.beta {
      ChallengeNorm(c, s2, p.tau, p.eta, j);
    }
  }

  lemma NttAllReduced(s: seq<Poly>)
    ensures NttAll(ReducedAll(s)) == NttAll(s)
  {
    hide NttOf;
    forall l | 0 <= l < |s| ensures NttOf(ReducedQ(s[l])) == NttOf(s[l]) {
      NttOfReduced(s[l]);
    }
  }

  /** The decoded key satisfies the setting of the verification identity. */
  lemma SettingHolds(row: seq<Poly>, y: seq<Poly>, c: Poly, s1: seq<Poly>, s2: Poly, t1: Poly, t0: Poly)
    requires |row| == |y| == |s1| && Rounded(TPoly(row, s1, s2), t1, t0)
    ensures RowSetting(row, y, Masked(y, c, ReducedAll(s1)), ReducedAll(s1), c, ReducedQ(s2), t1, ReducedQ(t0))
  {
    hide NttOf, InvOf, RowTimes, PolyMulNtt;
    NttAllReduced(s1);
    var r := InvOf(RowTimes(row, NttAll(s1)));
    forall j | 0 <= j < 256
      ensures PolyAdd(r, ReducedQ(s2))[j] % Q == (8192 * t1[j] + ReducedQ(t0)[j]) % Q
    {
      assert TPoly(row, s1, s2)[j] == (r[j] + s2[j]) % Q;
      TEntry(r[j], s2[j], t1[j], t0[j]);
    }
  }

  lemma TEntry(r: int, s2: int, t1: int, t0: int)
    requires ((r + s2) % Q) % Q == (8192 * t1 + t0) % Q
    ensures ((r + s2 % Q) % Q) % Q == (8192 * t1 + t0 % Q) % Q
  {}

  lemma RowRecovered(p: Params, row: seq<Poly>, y: seq<Poly>, c: Poly, s1: seq<Poly>, s2: Poly, t1: Poly, t0: Poly)
    requires p.Known() && |row| == |y| == |s1| && Rounded(TPoly(row, s1, s2), t1, t0)
    requires (forall k :: 0 <= k < 256 ==> Ternary(c[k])) && Weight(c, 0) == p.tau && Bounded(s2, p.eta)
    requires var w := CommitRow(row, y);
             && NormOk(LowPoly(Remainder(w, c, ReducedQ(s2)), p.gamma2), p.gamma2 - p.beta)
             && NormOk(TimesC(c, ReducedQ(t0)), p.gamma2)
    ensures IsGamma2(p.gamma2)
    ensures var w := CommitRow(row, y);
            var h := HintPoly(Remainder(w, c, ReducedQ(s2)), TimesC(c, ReducedQ(t0)), p.gamma2);
            UseHintPoly(h, VerifierPoly(row, Masked(y, c, ReducedAll(s1)), c, t1), p.gamma2) == HighPoly(w, p.gamma2)
  {
    KnownSizes(p);
    assert 0 <= p.beta < p.gamma2;
    SecretTimesC(p, c, s2);
    hide Params.Known, NttOf, InvOf, RowTimes, PolyMulNtt, RingMul, NormOk, LowPoly, HighPoly, HintPoly, UseHintPoly,
      ScaledT1, Rounded, RowSetting, Ternary, Weight, Bounded;
    SettingHolds(row, y, c, s1, s2, t1, t0);
    VerifierRow(row, y, Masked(y, c, ReducedAll(s1)), ReducedAll(s1), c, ReducedQ(s2), t1, ReducedQ(t0));
    RowAccepts(CommitRow(row, y), TimesC(c, ReducedQ(s2)), TimesC(c, ReducedQ(t0)), RingMul(Centred(c), s2),
               p.beta, p.gamma2);
  }

  // ----- one accepted attempt

  lemma {:induction false} PositionsCount(h: seq<Poly>)
    requires AreHints(h)
    ensures |Positions(h)| == HintCount(h)
    decreases |h|
  {
    if h != [] {
      IndicesWeight(h[0], 0);
      assert AreHints(h[1..]) by {
        forall i | 0 <= i < |h| - 1 ensures IsHint(h[1..][i]) { assert h[1..][i] == h[i + 1]; }
      }
      PositionsCount(h[1..]);
    }
  }

  lemma {:induction false} IndicesWeight(f: Poly, from: nat)
    requires IsHint(f) && from <= 256
    ensures |Indices(f, from)| == Weight(f, from)
    decreases 256 - from
  {
    if from < 256 {
      IndicesWeight(f, from + 1);
    }
  }

  lemma CentredWindow(p: Params, z: Poly)
    requires p.Known() && NormOk(z, p.gamma1 - p.beta) && Residues(z)
    ensures InWindow(Centred(z), p.gamma1, p.ZBits())
    ensures ReducedQ(Centred(z)) == z
  {
    KnownSizes(p);
    hide Params.Known, Params.ZBits, Exp2;
    forall i | 0 <= i < 256
      ensures p.gamma1 - Exp2(p.ZBits()) < ModPm(Centred(z)[i]) <= p.gamma1 && Centred(z)[i] % Q == z[i]
    {
      ModPmSmall(Centred(z)[i]);
      ModPmCong(z[i]);
      SmallMod(z[i], Q);
    }
  }

  lemma HintsAreHints(w: seq<Poly>, c: Poly, s2: seq<Poly>, t0: seq<Poly>, gamma2: int)
    requires |w| == |s2| == |t0| && gamma2 > 0
    ensures AreHints(Hints(w, c, s2, t0, gamma2))
  {
    hide HighBits, TimesC, Remainder;
  }

  lemma MaskedRow(y: seq<Poly>, c: Poly, s1: seq<Poly>, i: nat)
    requires |y| == |s1| && i < |y|
    ensures Residues(Masked(y, c, s1)[i])
  {
    hide TimesC;
  }

  lemma EncodableParts(p: Params, ctilde: seq<int>, z: seq<Poly>, h: seq<Poly>)
    requires p.Known() && |ctilde| == p.ctilde && |z| == p.ell && |h| == p.k
    requires forall i :: 0 <= i < p.ell ==> NormOk(z[i], p.gamma1 - p.beta) && Residues(z[i])
    requires AreHints(h) && HintCount(h) <= p.omega
    ensures WellFormed(p, Signature(ctilde, CentredAll(z), h))
    ensures Canonical(Signature(ctilde, CentredAll(z), h)) == Signature(ctilde, z, h)
  {
    hide Params.Known, Params.ZBits, NormOk, Residues, InWindow, HintCount, Positions, AreHints, Centred;
    PositionsCount(h);
    forall i | 0 <= i < p.ell
      ensures InWindow(CentredAll(z)[i], p.gamma1, p.ZBits()) && ReducedQ(CentredAll(z)[i]) == z[i]
    {
      CentredWindow(p, z[i]);
    }
    assert Canonical(Signature(ctilde, CentredAll(z), h)).z == z;
  }

  lemma KnownBounds(p: Params)
    requires p.Known()
    ensures p.tau <= 256 && p.gamma2 > 0 && p.ell >= 1 && p.k >= 1
  {}

  /** An accepted attempt is encodable, and decoding restores z exactly. */
  lemma AttemptWellFormed(p: Params, H: Shake, A: Matrix, sk: SecretKey, mu: seq<int>, y: seq<Poly>, sig: Signature)
    requires p.Known() && H.Valid() && SkShape(p, sk) && HasShape(A, p.k, p.ell) && |y| == p.ell
    requires Attempt(p, H, A, sk, mu, y) == Some(Done(sig))
    ensures WellFormed(p, sig)
    ensures Challenge(p, H, sig.ctilde).Some?
    ensures var c := Challenge(p, H, sig.ctilde).value;
            Canonical(sig) == Signature(sig.ctilde, Masked(y, c, sk.s1), Hints(CommitAll(A, y), c, sk.s2, sk.t0, p.gamma2))
  {
    KnownBounds(p);
    hide Params.Known, WellFormed, Canonical, NormOk, CommitAll, Masked, Hints, HintCount, AreHints, Challenge, CentredAll,
      Residues, W1Encode, HighAll;
    var w := CommitAll(A, y);
    var c := Challenge(p, H, sig.ctilde).value;
    var z, h := Masked(y, c, sk.s1), Hints(w, c, sk.s2, sk.t0, p.gamma2);
    HintsAreHints(w, c, sk.s2, sk.t0, p.gamma2);
    forall i | 0 <= i < p.ell ensures Residues(z[i]) {
      MaskedRow(y, c, sk.s1, i);
    }
    EncodableParts(p, sig.ctilde, z, h);
  }

  /** The decoded secret key of a key pair. */
  function Decoded(sk: SecretKey): SecretKey
  {
    SecretKey(sk.rho, sk.key, sk.tr, ReducedAll(sk.s1), ReducedAll(sk.s2), ReducedAll(sk.t0))
  }

  /** What the verifier recomputes in row i from an accepted attempt. */
  lemma RecoveredRow(p: Params, H: Shake, pair: KeyPair, A: Matrix, y: seq<Poly>, c: Poly, i: nat)
    requires p.Known() && H.Valid() && GoodPair(p, H, pair) && ExpandA(H, pair.pk.rho, p.k, p.ell) == Some(A) && |y| == p.ell
    requires (forall k :: 0 <= k < 256 ==> Ternary(c[k])) && Weight(c, 0) == p.tau && i < p.k
    requires SkShape(p, Decoded(pair.sk))
    requires Passes(p, CommitAll(A, y), c, Decoded(pair.sk), Masked(y, c, Decoded(pair.sk).s1))
    ensures IsGamma2(p.gamma2) && |pair.pk.t1| == p.k
    ensures var sk, w := Decoded(pair.sk), CommitAll(A, y);
            var u := VerifierPoly(A[i], Masked(y, c, sk.s1), c, pair.pk.t1[i]);
            UseHintPoly(Hints(w, c, sk.s2, sk.t0, p.gamma2)[i], u, p.gamma2) == HighPoly(w[i], p.gamma2)
  {
    KnownSizes(p);
    hide Params.Known, TPoly, NormOk, LowPoly, HighPoly, HintPoly, UseHintPoly, VerifierPoly, TimesC, Masked, CommitRow,
      Rounded, Bounded, ExpandA, Ternary, Weight, HintCount, Remainder, PkWellFormed, SkWellFormed, PkEncode, Shake.Valid;
    assert NormOk(LowPoly(Remainder(CommitAll(A, y)[i], c, Decoded(pair.sk).s2[i]), p.gamma2), p.gamma2 - p.beta);
    RowRecovered(p, A[i], y, c, pair.sk.s1, pair.sk.s2[i], pair.pk.t1[i], pair.sk.t0[i]);
  }

  /** The verifier recovers the signer's w1 from an accepted attempt. */
  lemma AttemptRecovered(p: Params, H: Shake, pair: KeyPair, A: Matrix, y: seq<Poly>, c: Poly)
    requires p.Known() && H.Valid() && GoodPair(p, H, pair) && ExpandA(H, pair.pk.rho, p.k, p.ell) == Some(A) && |y| == p.ell
    requires (forall k :: 0 <= k < 256 ==> Ternary(c[k])) && Weight(c, 0) == p.tau
    requires SkShape(p, Decoded(pair.sk))
    requires Passes(p, CommitAll(A, y), c, Decoded(pair.sk), Masked(y, c, Decoded(pair.sk).s1))
    ensures IsGamma2(p.gamma2) && |pair.pk.t1| == p.k
    ensures var sk, w := Decoded(pair.sk), CommitAll(A, y);
            var sig := Signature([], Masked(y, c, sk.s1), Hints(w, c, sk.s2, sk.t0, p.gamma2));
            RecoveredAll(A, sig, c, pair.pk.t1, p.gamma2) == HighAll(w, p.gamma2)
  {
    KnownBounds(p);
    hide Params.Known, HighPoly, UseHintPoly, VerifierPoly, Masked, Hints, ExpandA, Ternary, Weight, Passes, GoodPair,
      Shake.Valid, Decoded, CommitAll;
    RecoveredRow(p, H, pair, A, y, c, 0);
    forall i | 0 <= i < p.k
      ensures UseHintPoly(Hints(CommitAll(A, y), c, Decoded(pair.sk).s2, Decoded(pair.sk).t0, p.gamma2)[i],
                          VerifierPoly(A[i], Masked(y, c, Decoded(pair.sk).s1), c, pair.pk.t1[i]), p.gamma2)
           == HighPoly(CommitAll(A, y)[i], p.gamma2)
    {
      RecoveredRow(p, H, pair, A, y, c, i);
    }
  }

  lemma ChallengeShape(p: Params, H: Shake, ctilde: seq<int>)
    requires p.Known() && H.Valid() && Challenge(p, H, ctilde).Some?
    ensures var c := Challenge(p, H, ctilde).value;
            (forall k :: 0 <= k < 256 ==> Ternary(c[k])) && Weight(c, 0) == p.tau
  {
    ChallengeWeight(H.stream256(ctilde), p.tau);
  }

  /** The verifier accepts an accepted attempt, decoded. */
  lemma AttemptVerifies(p: Params, H: Shake, pair: KeyPair, A: Matrix, mu: seq<int>, y: seq<Poly>, sig: Signature)
    requires p.Known() && H.Valid() && GoodPair(p, H, pair) && ExpandA(H, pair.pk.rho, p.k, p.ell) == Some(A) && |y| == p.ell
    requires SkShape(p, Decoded(pair.sk)) && Attempt(p, H, A, Decoded(pair.sk), mu, y) == Some(Done(sig))
    ensures |pair.pk.t1| == p.k && |Canonical(sig).z| == p.ell && |Canonical(sig).h| == p.k
    ensures VerifyMuParts(p, H, pair.pk, mu, Canonical(sig)) == Some(true)
  {
    KnownBounds(p);
    hide Params.Known, NormOk, CommitAll, Masked, Hints, HintCount, Challenge, CentredAll, Decoded, Ternary, Weight,
      W1Encode, HighAll, GoodPair, RecoveredAll, Canonical, LowPoly, Remainder, TimesC, ExpandA;
    var sk := Decoded(pair.sk);
    AttemptWellFormed(p, H, A, sk, mu, y, sig);
    ChallengeShape(p, H, sig.ctilde);
    var c := Challenge(p, H, sig.ctilde).value;
    AttemptRecovered(p, H, pair, A, y, c);
    IgnoresCtilde(p, A, sig.ctilde, Masked(y, c, sk.s1), Hints(CommitAll(A, y), c, sk.s2, sk.t0, p.gamma2), c, pair.pk.t1);
  }

  lemma IgnoresCtilde(p: Params, A: Matrix, ctilde: seq<int>, z: seq<Poly>, h: seq<Poly>, c: Poly, t1: seq<Poly>)
    requires HasShape(A, |A|, |z|) && |h| == |t1| == |A| && IsGamma2(p.gamma2)
    ensures RecoveredAll(A, Signature(ctilde, z, h), c, t1, p.gamma2) == RecoveredAll(A, Signature([], z, h), c, t1, p.gamma2)
  {}

  /** Whatever the signing loop returns comes from one accepted attempt. */
  lemma {:induction false} SignFromAttempt(p: Params, H: Shake, A: Matrix, sk: SecretKey, mu: seq<int>, rhoPP: seq<int>,
                                           kappa: nat, sig: Signature) returns (y: seq<Poly>)
    requires p.Known() && H.Valid() && SkShape(p, sk) && HasShape(A, p.k, p.ell)
    requires SignFrom(p, H, A, sk, mu, rhoPP, kappa) == Some(sig)
    ensures |y| == p.ell && Attempt(p, H, A, sk, mu, y) == Some(Done(sig))
    decreases 65536 - kappa
  {
    hide Params.Known, Attempt, MaskVec, Shake.Valid, SkShape, HasShape;
    KnownBounds(p);
    y := ExpandMask(p, H, rhoPP, kappa).value;
    if Attempt(p, H, A, sk, mu, y).value.Again? {
      y := SignFromAttempt(p, H, A, sk, mu, rhoPP, kappa + p.ell, sig);
    }
  }

  /** So it is well formed and verifies. */
  lemma SignFromVerifies(p: Params, H: Shake, pair: KeyPair, A: Matrix, mu: seq<int>, rhoPP: seq<int>, kappa: nat, sig: Signature)
    requires p.Known() && H.Valid() && GoodPair(p, H, pair) && ExpandA(H, pair.pk.rho, p.k, p.ell) == Some(A)
    requires SkShape(p, Decoded(pair.sk)) && SignFrom(p, H, A, Decoded(pair.sk), mu, rhoPP, kappa) == Some(sig)
    ensures WellFormed(p, sig)
    ensures |pair.pk.t1| == p.k && |Canonical(sig).z| == p.ell && |Canonical(sig).h| == p.k
    ensures VerifyMuParts(p, H, pair.pk, mu, Canonical(sig)) == Some(true)
  {
    hide Params.Known, Attempt, VerifyMuParts, WellFormed, Canonical, GoodPair, Decoded, ExpandA, SignFrom;
    var y := SignFromAttempt(p, H, A, Decoded(pair.sk), mu, rhoPP, kappa, sig);
    AttemptWellFormed(p, H, A, Decoded(pair.sk), mu, y, sig);
    AttemptVerifies(p, H, pair, A, mu, y, sig);
  }

  lemma GoodShape(p: Params, H: Shake, pair: KeyPair)
    requires H.Valid() && GoodPair(p, H, pair)
    ensures SkShape(p, Decoded(pair.sk)) && PkWellFormed(p, pair.pk) && SkWellFormed(p, pair.sk)
    ensures pair.sk.rho == pair.pk.rho && pair.sk.tr == H.h(PkEncode(pair.pk), 64)
  {}

  /** Completeness: for every seed, message representative mu and randomness, a signature
      returned by _sign_mu under a generated key is accepted by _verify_mu. */
  lemma Completeness(p: Params, H: Shake, seed: seq<int>, mu: seq<int>, rnd: seq<int>,
                     pk: seq<int>, sk: seq<int>, sig: seq<int>)
    requires p.Known() && H.Valid()
    requires KeyGen(p, H, seed) == Some((pk, sk))
    requires |sk| == SkSize(p) && SignMu(p, H, sk, mu, rnd) == Some(sig)
    ensures |pk| == 32 + 320 * p.k && |sig| == p.SigSize()
    ensures VerifyMu(p, H, PkDecode(p, pk), mu, sig) == Some(true)
  {
    hide Params.Known, KeyGenParts, PkWellFormed, SkWellFormed, PkEncode, SkEncode, PkDecode, SkDecode, SkSize, GoodPair,
      SigEncode, SigDecode, WellFormed, Canonical, SignFrom, VerifyMuParts, ExpandA, Params.SigSize;
    var pair := KeyGenParts(p, H, seed).value;
    KeysAreGood(p, H, seed, pair);
    GoodShape(p, H, pair);
    PkRoundTrip(p, pair.pk);
    SkRoundTrip(p, pair.sk);
    var parts := SignMuParts(p, H, Decoded(pair.sk), mu, rnd).value;
    var A := ExpandA(H, pair.pk.rho, p.k, p.ell).value;
    SignFromVerifies(p, H, pair, A, mu, H.h(Decoded(pair.sk).key + rnd + mu, 64), 0, parts);
    SigRoundTrip(p, parts);
  }

  /** The same for _sign_internal and _verify_internal: the hash of the public key that the
      secret key carries makes both compute the same mu. */
  lemma CompletenessInternal(p: Params, H: Shake, seed: seq<int>, mPrime: seq<int>, rnd: seq<int>,
                             pk: seq<int>, sk: seq<int>, sig: seq<int>)
    requires p.Known() && H.Valid()
    requires KeyGen(p, H, seed) == Some((pk, sk))
    requires |sk| == SkSize(p) && SignInternal(p, H, sk, mPrime, rnd) == Some(sig)
    ensures |pk| == 32 + 320 * p.k
    ensures VerifyInternal(p, H, pk, sig, mPrime) == Some(true)
  {
    hide Params.Known, KeyGenParts, PkWellFormed, SkWellFormed, PkEncode, SkEncode, PkDecode, SkDecode, SkSize, GoodPair,
      SignMu, VerifyMu, Params.SigSize;
    var pair := KeyGenParts(p, H, seed).value;
    KeysAreGood(p, H, seed, pair);
    GoodShape(p, H, pair);
    PkRoundTrip(p, pair.pk);
    SkRoundTrip(p, pair.sk);
    Completeness(p, H, seed, H.h(H.h(pk, 64) + mPrime, 64), rnd, pk, sk, sig);
  }

  /** Generated keys have the lengths the entry points select a parameter set by. */
  lemma KeyLengths(p: Params, H: Shake, seed: seq<int>)
    requires p.Known() && H.Valid() && KeyGen(p, H, seed).Some?
    ensures |KeyGen(p, H, seed).value.0| == 32 + 320 * p.k
    ensures |KeyGen(p, H, seed).value.1| == SkSize(p)
  {
    hide Params.Known, KeyGenParts, PkWellFormed, SkWellFormed, PkEncode, SkEncode, SkSize, GoodPair;
    var pair := KeyGenParts(p, H, seed).value;
    KeysAreGood(p, H, seed, pair);
    GoodShape(p, H, pair);
    PkRoundTrip(p, pair.pk);
    SkRoundTrip(p, pair.sk);
  }
}
