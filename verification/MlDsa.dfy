/** Key generation, signing and verification of ML-DSA, and the proof that every
    signature the signer returns is accepted. */
module MlDsa {
  import opened ModArith
  import opened BitPack
  import opened NttProduct
  import opened MlDsaRounding
  import opened MlDsaRing
  import opened Options
  import opened MlDsaCodec
  import opened MlDsaKeys
  import opened MlDsaSampling

  /** SHAKE as functions of the input: h is _h (SHAKE256 with a chosen length), and
      stream128 and stream256 are the prefixes the samplers read. */
  datatype Shake = Shake(h: (seq<int>, nat) -> seq<int>, stream128: seq<int> -> seq<int>, stream256: seq<int> -> seq<int>)
  {
    ghost predicate Valid()
    {
      && (forall d, n: nat :: |h(d, n)| == n && Fits(h(d, n), 8))
      && (forall d :: Fits(stream128(d), 8))
      && (forall d :: Fits(stream256(d), 8))
    }
  }

  type Matrix = seq<seq<Poly>>

  // ----- expansion

  function ExpandRow(H: Shake, rho: seq<int>, i: nat, n: nat): (r: Option<seq<Poly>>)
    ensures r.Some? ==> |r.value| == n
    decreases n
  {
    if n == 0 then Some([])
    else
      var init :- ExpandRow(H, rho, i, n - 1);
      var last :- RejNtt(H.stream128(rho + [n - 1, i]), []);
      Some(init + [last])
  }

  /** _expand_a: k rows of ell polynomials. */
  function ExpandA(H: Shake, rho: seq<int>, k: nat, ell: nat): (r: Option<Matrix>)
    ensures r.Some? ==> |r.value| == k && forall i :: 0 <= i < k ==> |r.value[i]| == ell
    decreases k
  {
    if k == 0 then Some([])
    else
      var init :- ExpandA(H, rho, k - 1, ell);
      var last :- ExpandRow(H, rho, k - 1, ell);
      Some(init + [last])
  }

  lemma {:induction false} RowAt(H: Shake, rho: seq<int>, i: nat, n: nat, j: nat)
    requires ExpandRow(H, rho, i, n).Some? && j < n
    ensures RejNtt(H.stream128(rho + [j, i]), []) == Some(ExpandRow(H, rho, i, n).value[j])
    decreases n
  {
    hide RejNtt;
    if j < n - 1 {
      RowAt(H, rho, i, n - 1, j);
    }
  }

  /** Entry (i, j) of the matrix is sampled from rho, j and i. */
  lemma {:induction false} MatrixAt(H: Shake, rho: seq<int>, k: nat, ell: nat, i: nat, j: nat)
    requires ExpandA(H, rho, k, ell).Some? && i < k && j < ell
    ensures RejNtt(H.stream128(rho + [j, i]), []) == Some(ExpandA(H, rho, k, ell).value[i][j])
    decreases k
  {
    hide RejNtt, ExpandRow;
    if i < k - 1 {
      MatrixAt(H, rho, k - 1, ell, i, j);
    } else {
      RowAt(H, rho, k - 1, ell, j);
    }
  }

  function TwoBytes(n: nat): seq<int> { [n % 256, n / 256] }

  /** One vector of _expand_s, with nonces from first on. */
  function ExpandS(H: Shake, seed: seq<int>, first: nat, n: nat, eta: nat): (r: Option<seq<Poly>>)
    ensures r.Some? ==> |r.value| == n
    decreases n
  {
    if n == 0 then Some([])
    else
      var init :- ExpandS(H, seed, first, n - 1, eta);
      var last :- RejBounded(H.stream256(seed + TwoBytes(first + n - 1)), eta, []);
      Some(init + [last])
  }

  /** Secret i is sampled from the seed and the nonce first + i. */
  lemma {:induction false} SecretAt(H: Shake, seed: seq<int>, first: nat, n: nat, eta: nat, i: nat)
    requires ExpandS(H, seed, first, n, eta).Some? && i < n
    ensures RejBounded(H.stream256(seed + TwoBytes(first + i)), eta, []) == Some(ExpandS(H, seed, first, n, eta).value[i])
    decreases n
  {
    hide RejBounded;
    if i < n - 1 {
      SecretAt(H, seed, first, n - 1, eta, i);
    }
  }

  lemma {:induction false} ExpandSBounded(H: Shake, seed: seq<int>, first: nat, n: nat, eta: nat)
    requires H.Valid() && (eta == 2 || eta == 4) && ExpandS(H, seed, first, n, eta).Some?
    ensures forall i :: 0 <= i < n ==> Bounded(ExpandS(H, seed, first, n, eta).value[i], eta)
    decreases n
  {
    if n > 0 {
      ExpandSBounded(H, seed, first, n - 1, eta);
      RejBoundedRange(H.stream256(seed + TwoBytes(first + n - 1)), eta, []);
    }
  }

  function MaskPoly(p: Params, H: Shake, seed: seq<int>): Poly
  {
    ToOffset(Unpack(H.h(seed, 32 * p.ZBits()), p.ZBits(), 256), p.gamma1)
  }

  function MaskVec(p: Params, H: Shake, rhoPP: seq<int>, kappa: nat, n: nat): (y: seq<Poly>)
    ensures |y| == n
  {
    if n == 0 then []
    else MaskVec(p, H, rhoPP, kappa, n - 1) + [MaskPoly(p, H, rhoPP + TwoBytes(kappa + n - 1))]
  }

  /** Coefficient j of mask i is gamma1 minus a value of z_bits bits from the stream of the
      seed and the nonce kappa + i. */
  lemma {:induction false} MaskAt(p: Params, H: Shake, rhoPP: seq<int>, kappa: nat, n: nat, i: nat, j: nat)
    requires i < n && j < 256
    ensures MaskVec(p, H, rhoPP, kappa, n)[i][j]
         == (p.gamma1 - Unpack(H.h(rhoPP + TwoBytes(kappa + i), 32 * p.ZBits()), p.ZBits(), 256)[j]) % Q
    decreases n
  {
    hide Unpack;
    if i < n - 1 {
      MaskAt(p, H, rhoPP, kappa, n - 1, i, j);
    }
  }

  /** _expand_mask: to_bytes(2) overflows once kappa + i passes 65535. */
  function ExpandMask(p: Params, H: Shake, rhoPP: seq<int>, kappa: nat): (r: Option<seq<Poly>>)
    ensures r.Some? ==> |r.value| == p.ell
  {
    if kappa + p.ell > 65536 then None
    else Some(MaskVec(p, H, rhoPP, kappa, p.ell))
  }

  function Challenge(p: Params, H: Shake, ctilde: seq<int>): Option<Poly>
    requires H.Valid() && p.tau <= 256
  {
    SampleInBall(H.stream256(ctilde), p.tau)
  }

  // ----- pieces of the two algorithms, one matrix row at a time

  function CommitRow(row: seq<Poly>, y: seq<Poly>): Poly
    requires |row| == |y|
  {
    InvOf(RowTimes(row, NttAll(y)))
  }

  function TimesC(c: Poly, s: Poly): Poly
  {
    InvOf(PolyMulNtt(NttOf(c), NttOf(s)))
  }

  function HighPoly(f: Poly, gamma2: int): Poly
    requires gamma2 > 0
  {
    seq(256, j requires 0 <= j < 256 => HighBits(f[j], gamma2))
  }

  function LowPoly(f: Poly, gamma2: int): Poly
    requires gamma2 > 0
  {
    seq(256, j requires 0 <= j < 256 => LowBits(f[j], gamma2))
  }

  function HintPoly(r: Poly, ct0: Poly, gamma2: int): Poly
    requires gamma2 > 0
  {
    seq(256, j requires 0 <= j < 256 => MakeHint(-ct0[j], r[j] + ct0[j], gamma2))
  }

  function UseHintPoly(h: Poly, w: Poly, gamma2: int): Poly
    requires IsGamma2(gamma2)
  {
    seq(256, j requires 0 <= j < 256 => UseHint(h[j], w[j], gamma2))
  }

  /** _norm_ok. */
  predicate NormOk(f: seq<int>, bound: int)
  {
    forall j :: 0 <= j < |f| ==> -bound < ModPm(f[j]) < bound
  }

  method CheckNorm(vec: seq<int>, bound: int) returns (ok: bool)
    ensures ok == NormOk(vec, bound)
  {
    for i := 0 to |vec|
      invariant NormOk(vec[..i], bound)
    {
      var t := vec[i] % Q;
      if t > (Q - 1) / 2 {
        t := t - Q;
      }
      assert t == ModPm(vec[i]);
      if t < 0 {
        t := -t;
      }
      if t >= bound {
        return false;
      }
      assert vec[..i + 1] == vec[..i] + [vec[i]];
    }
    assert vec[..|vec|] == vec;
    ok := true;
  }

  /** The two tests of the signer on one row, and what the verifier recomputes. */
  lemma RowAccepts(w: Poly, cs2: Poly, ct0: Poly, s: Poly, beta: int, gamma2: int)
    requires IsGamma2(gamma2) && 0 <= beta < gamma2
    requires forall j :: 0 <= j < 256 ==> cs2[j] == s[j] % Q && -beta <= s[j] <= beta
    requires NormOk(LowPoly(PolySub(w, cs2), gamma2), gamma2 - beta) && NormOk(ct0, gamma2)
    ensures var r := PolySub(w, cs2);
            UseHintPoly(HintPoly(r, ct0, gamma2), PolyAdd(r, ct0), gamma2) == HighPoly(w, gamma2)
  {
    hide NormOk, HighBits, LowBits, MakeHint, UseHint, ModPm, Decompose;
    var r := PolySub(w, cs2);
    forall j | 0 <= j < 256
      ensures UseHintPoly(HintPoly(r, ct0, gamma2), PolyAdd(r, ct0), gamma2)[j] == HighPoly(w, gamma2)[j]
    {
      NormAll(LowPoly(r, gamma2), gamma2 - beta, j);
      NormAll(ct0, gamma2, j);
      EntryAccepts(w[j], cs2[j], ct0[j], s[j], beta, gamma2);
    }
  }

  ghost predicate NormAt(f: seq<int>, bound: int, j: nat)
    requires j < |f|
  {
    -bound < ModPm(f[j]) < bound
  }

  lemma NormAll(f: seq<int>, bound: int, j: nat)
    requires NormOk(f, bound) && j < |f|
    ensures NormAt(f, bound, j)
  {}

  lemma EntryAccepts(w: int, cs2: int, ct0: int, s: int, beta: int, gamma2: int)
    requires IsGamma2(gamma2) && 0 <= beta < gamma2
    requires cs2 == s % Q && -beta <= s <= beta
    requires -(gamma2 - beta) < ModPm(LowBits((w - cs2) % Q, gamma2)) < gamma2 - beta
    requires -gamma2 < ModPm(ct0) < gamma2
    ensures var r := (w - cs2) % Q;
            UseHint(MakeHint(-ct0, r + ct0, gamma2), (r + ct0) % Q, gamma2) == HighBits(w, gamma2)
  {
    hide Decompose, ModPm;
    var r := (w - cs2) % Q;
    var wp, z := (r + ct0) % Q, -ModPm(ct0);
    DecomposeSplits(r, gamma2);
    ModPmSmall(LowBits(r, gamma2));
    LowBitsAbsorb(r, s, beta, gamma2);
    EntryResidues(w, cs2, ct0, s);
    DecomposeResidue(r + s, w, gamma2);
    DecomposeResidue(r + ct0, wp, gamma2);
    DecomposeResidue(r + ct0 - ct0, wp + z, gamma2);
    DecomposeResidue(wp + z, r, gamma2);
    HintRecovers(z, wp, gamma2);
  }

  lemma EntryResidues(w: int, cs2: int, ct0: int, s: int)
    requires cs2 == s % Q
    ensures var r := (w - cs2) % Q;
            var wp, z := (r + ct0) % Q, -ModPm(ct0);
            && (r + s) % Q == w % Q
            && (r + ct0) % Q == wp % Q
            && (r + ct0 - ct0) % Q == (wp + z) % Q == r % Q
  {
    var r, c := (w - cs2) % Q, ModPm(ct0);
    DifferenceBack(w, s);
    assert (ct0 - c) % Q == 0;
    hide ModPm;
    SumLessCentred(r, ct0, c);
  }

  lemma DifferenceBack(w: int, s: int)
    ensures ((w - s % Q) % Q + s) % Q == w % Q
  {}

  lemma SumLessCentred(r: int, ct0: int, c: int)
    requires 0 <= r < Q && (ct0 - c) % Q == 0
    ensures ((r + ct0) % Q - c) % Q == r % Q
    ensures ((r + ct0) % Q) % Q == (r + ct0) % Q
  {}

  // ----- key generation

  predicate HasShape(A: Matrix, k: nat, ell: nat)
  {
    |A| == k && forall i :: 0 <= i < k ==> |A[i]| == ell
  }

  function TPoly(row: seq<Poly>, s1: seq<Poly>, s2: Poly): Poly
    requires |row| == |s1|
  {
    PolyAdd(CommitRow(row, s1), s2)
  }

  function TVec(A: Matrix, s1: seq<Poly>, s2: seq<Poly>): (t: seq<Poly>)
    requires HasShape(A, |s2|, |s1|)
    ensures |t| == |s2|
  {
    seq(|s2|, i requires 0 <= i < |s2| => TPoly(A[i], s1, s2[i]))
  }

  function HighPart(t: Poly): Poly { seq(256, j requires 0 <= j < 256 => Power2Round(t[j]).0) }

  function LowPart(t: Poly): Poly { seq(256, j requires 0 <= j < 256 => Power2Round(t[j]).1) }

  function HighParts(t: seq<Poly>): (r: seq<Poly>)
    ensures |r| == |t|
  {
    seq(|t|, i requires 0 <= i < |t| => HighPart(t[i]))
  }

  function LowParts(t: seq<Poly>): (r: seq<Poly>)
    ensures |r| == |t|
  {
    seq(|t|, i requires 0 <= i < |t| => LowPart(t[i]))
  }

  datatype KeyPair = KeyPair(pk: PublicKey, sk: SecretKey)

  function AssembleKeys(H: Shake, rho: seq<int>, key: seq<int>, A: Matrix, s1: seq<Poly>, s2: seq<Poly>): KeyPair
    requires HasShape(A, |s2|, |s1|)
  {
    var t := TVec(A, s1, s2);
    var pk := PublicKey(rho, HighParts(t));
    KeyPair(pk, SecretKey(rho, key, H.h(PkEncode(pk), 64), s1, s2, LowParts(t)))
  }

  /** _keygen_internal before the two keys are encoded. */
  function KeyGenParts(p: Params, H: Shake, seed: seq<int>): (r: Option<KeyPair>)
    requires H.Valid()
  {
    var g := H.h(seed + [p.k, p.ell], 128);
    var rho, rho2, key := g[..32], g[32..96], g[96..];
    var A :- ExpandA(H, rho, p.k, p.ell);
    var s1 :- ExpandS(H, rho2, 0, p.ell, p.eta);
    var s2 :- ExpandS(H, rho2, p.ell, p.k, p.eta);
    Some(AssembleKeys(H, rho, key, A, s1, s2))
  }

  /** _keygen_internal. */
  function KeyGen(p: Params, H: Shake, seed: seq<int>): Option<(seq<int>, seq<int>)>
    requires H.Valid()
  {
    var pair :- KeyGenParts(p, H, seed);
    Some((PkEncode(pair.pk), SkEncode(p, pair.sk)))
  }

  // ----- signing

  function W1Encode(p: Params, w1: seq<Poly>): seq<int>
    requires p.gamma2 > 0
  {
    Join(PackAll(w1, p.W1Bits()))
  }

  function CommitAll(A: Matrix, y: seq<Poly>): (w: seq<Poly>)
    requires HasShape(A, |A|, |y|)
    ensures |w| == |A|
  {
    seq(|A|, i requires 0 <= i < |A| => CommitRow(A[i], y))
  }

  function HighAll(w: seq<Poly>, gamma2: int): (r: seq<Poly>)
    requires gamma2 > 0
    ensures |r| == |w|
  {
    seq(|w|, i requires 0 <= i < |w| => HighPoly(w[i], gamma2))
  }

  function Masked(y: seq<Poly>, c: Poly, s1: seq<Poly>): (z: seq<Poly>)
    requires |y| == |s1|
    ensures |z| == |y|
  {
    seq(|y|, i requires 0 <= i < |y| => PolyAdd(y[i], TimesC(c, s1[i])))
  }

  function Remainder(w: Poly, c: Poly, s2: Poly): Poly
  {
    PolySub(w, TimesC(c, s2))
  }

  function Hints(w: seq<Poly>, c: Poly, s2: seq<Poly>, t0: seq<Poly>, gamma2: int): (h: seq<Poly>)
    requires |w| == |s2| == |t0| && gamma2 > 0
    ensures |h| == |w|
  {
    seq(|w|, i requires 0 <= i < |w| => HintPoly(Remainder(w[i], c, s2[i]), TimesC(c, t0[i]), gamma2))
  }

  function CentredAll(z: seq<Poly>): (r: seq<Poly>)
    ensures |r| == |z|
  {
    seq(|z|, i requires 0 <= i < |z| => Centred(z[i]))
  }

  /** sum(sum(1 for x in p if x) for p in h). */
  function HintCount(h: seq<Poly>): nat
  {
    if h == [] then 0 else Weight(h[0], 0) + HintCount(h[1..])
  }

  /** The rejection tests of _sign_mu, in order. */
  predicate Passes(p: Params, w: seq<Poly>, c: Poly, sk: SecretKey, z: seq<Poly>)
    requires |w| == |sk.s2| == |sk.t0| && p.gamma2 > 0
  {
    && (forall i :: 0 <= i < |z| ==> NormOk(z[i], p.gamma1 - p.beta))
    && (forall i :: 0 <= i < |w| ==> NormOk(LowPoly(Remainder(w[i], c, sk.s2[i]), p.gamma2), p.gamma2 - p.beta))
    && (forall i :: 0 <= i < |w| ==> NormOk(TimesC(c, sk.t0[i]), p.gamma2))
    && HintCount(Hints(w, c, sk.s2, sk.t0, p.gamma2)) <= p.omega
  }

  predicate SkShape(p: Params, sk: SecretKey)
  {
    |sk.s1| == p.ell && |sk.s2| == |sk.t0| == p.k
  }

  datatype Trial = Again | Done(sig: Signature)

  /** One pass of the loop of _sign_mu. */
  function Attempt(p: Params, H: Shake, A: Matrix, sk: SecretKey, mu: seq<int>, y: seq<Poly>): Option<Trial>
    requires p.Known() && H.Valid() && SkShape(p, sk) && HasShape(A, p.k, p.ell) && |y| == p.ell
  {
    var w := CommitAll(A, y);
    var ctilde := H.h(mu + W1Encode(p, HighAll(w, p.gamma2)), p.ctilde);
    var c :- Challenge(p, H, ctilde);
    var z := Masked(y, c, sk.s1);
    if Passes(p, w, c, sk, z)
    then Some(Done(Signature(ctilde, CentredAll(z), Hints(w, c, sk.s2, sk.t0, p.gamma2))))
    else Some(Again)
  }

  /** The loop of _sign_mu from a given kappa on. */
  function SignFrom(p: Params, H: Shake, A: Matrix, sk: SecretKey, mu: seq<int>, rhoPP: seq<int>, kappa: nat): Option<Signature>
    requires p.Known() && H.Valid() && SkShape(p, sk) && HasShape(A, p.k, p.ell)
    decreases 65536 - kappa
  {
    var y :- ExpandMask(p, H, rhoPP, kappa);
    var trial :- Attempt(p, H, A, sk, mu, y);
    match trial
    case Done(sig) => Some(sig)
    case Again => SignFrom(p, H, A, sk, mu, rhoPP, kappa + p.ell)
  }

  /** _sign_mu on a decoded key. */
  function SignMuParts(p: Params, H: Shake, sk: SecretKey, mu: seq<int>, rnd: seq<int>): Option<Signature>
    requires p.Known() && H.Valid() && SkShape(p, sk)
  {
    var rhoPP := H.h(sk.key + rnd + mu, 64);
    var A :- ExpandA(H, sk.rho, p.k, p.ell);
    SignFrom(p, H, A, sk, mu, rhoPP, 0)
  }

  /** _sign_mu: mu is the message representative. */
  function SignMu(p: Params, H: Shake, data: seq<int>, mu: seq<int>, rnd: seq<int>): Option<seq<int>>
    requires p.Known() && H.Valid() && |data| == SkSize(p)
  {
    var sig :- SignMuParts(p, H, SkDecode(p, data), mu, rnd);
    Some(SigEncode(p, sig))
  }

  /** _sign_internal. */
  function SignInternal(p: Params, H: Shake, data: seq<int>, mPrime: seq<int>, rnd: seq<int>): Option<seq<int>>
    requires p.Known() && H.Valid() && |data| == SkSize(p)
  {
    SignMu(p, H, data, H.h(SkDecode(p, data).tr + mPrime, 64), rnd)
  }

  /** The loop of _sign_mu; it stops at the latest when the nonce overflows. */
  method SignLoop(p: Params, H: Shake, sk: SecretKey, mu: seq<int>, rnd: seq<int>) returns (r: Option<Signature>)
    requires p.Known() && H.Valid() && SkShape(p, sk)
    ensures r == SignMuParts(p, H, sk, mu, rnd)
  {
    var rhoPP := H.h(sk.key + rnd + mu, 64);
    var A :- ExpandA(H, sk.rho, p.k, p.ell);
    var kappa := 0;
    while true
      invariant SignFrom(p, H, A, sk, mu, rhoPP, 0) == SignFrom(p, H, A, sk, mu, rhoPP, kappa)
      decreases 65536 - kappa
    {
      var y :- ExpandMask(p, H, rhoPP, kappa);
      kappa := kappa + p.ell;
      var trial :- Attempt(p, H, A, sk, mu, y);
      match trial {
        case Done(sig) => return Some(sig);
        case Again =>
      }
    }
  }

  // ----- verification

  function VerifierPoly(row: seq<Poly>, z: seq<Poly>, c: Poly, t1: Poly): Poly
    requires |row| == |z|
  {
    InvOf(PolySub(RowTimes(row, NttAll(z)), ScaledT1(NttOf(c), NttOf(t1))))
  }

  function RecoveredAll(A: Matrix, sig: Signature, c: Poly, t1: seq<Poly>, gamma2: int): (w1: seq<Poly>)
    requires HasShape(A, |A|, |sig.z|) && |sig.h| == |t1| == |A| && IsGamma2(gamma2)
    ensures |w1| == |A|
  {
    seq(|A|, i requires 0 <= i < |A| => UseHintPoly(sig.h[i], VerifierPoly(A[i], sig.z, c, t1[i]), gamma2))
  }

  /** _verify_mu on a decoded signature. */
  function VerifyMuParts(p: Params, H: Shake, pk: PublicKey, mu: seq<int>, sig: Signature): Option<bool>
    requires p.Known() && H.Valid() && |pk.t1| == p.k && |sig.z| == p.ell && |sig.h| == p.k
  {
    if !(forall i :: 0 <= i < p.ell ==> NormOk(sig.z[i], p.gamma1 - p.beta)) then Some(false)
    else
      var c :- Challenge(p, H, sig.ctilde);
      var A :- ExpandA(H, pk.rho, p.k, p.ell);
      KnownSizes(p);
      var w1 := RecoveredAll(A, sig, c, pk.t1, p.gamma2);
      Some(H.h(mu + W1Encode(p, w1), p.ctilde) == sig.ctilde)
  }

  lemma SigDecodeShape(p: Params, data: seq<int>)
    requires SigDecode(p, data).Some?
    ensures |SigDecode(p, data).value.z| == p.ell && |SigDecode(p, data).value.h| == p.k
  {
    hide HintDecode, Params.ZSize;
    var tail := data[p.ctilde..][p.ell * p.ZSize()..][..p.omega + p.k];
    HintRowCount(tail, p.omega);
  }

  /** _verify_mu. */
  function VerifyMu(p: Params, H: Shake, pk: PublicKey, mu: seq<int>, sigData: seq<int>): Option<bool>
    requires p.Known() && H.Valid() && |pk.t1| == p.k && |sigData| == p.SigSize()
  {
    match SigDecode(p, sigData)
    case None => Some(false)
    case Some(sig) => SigDecodeShape(p, sigData); VerifyMuParts(p, H, pk, mu, sig)
  }

  /** _verify_internal. */
  function VerifyInternal(p: Params, H: Shake, pkData: seq<int>, sigData: seq<int>, mPrime: seq<int>): Option<bool>
    requires p.Known() && H.Valid() && |pkData| == 32 + 320 * p.k
  {
    if |sigData| != p.SigSize() then Some(false)
    else
      VerifyMu(p, H, PkDecode(p, pkData), H.h(H.h(pkData, 64) + mPrime, 64), sigData)
  }
}
