/** Ed25519 on bytes: signing and verification as eddsa.py runs them, over its 256-bit
    ladder, and the proof that every signature is accepted. */
module Ed25519 {
  import opened Options
  import opened ModArith
  import opened BitPack
  import opened Primes
  import opened EdCurve
  import opened Eddsa

  /** SHA-512 is any function to 64 bytes. */
  ghost predicate IsHash(H: seq<int> -> seq<int>)
  {
    forall d :: |H(d)| == 64 && Fits(H(d), 8)
  }

  // ----- points as bytes

  /** _encode_point. */
  function EncodePoint(P: Point): (r: seq<int>)
    ensures |r| == 32
  {
    Digits(Encode(P), 8, 32)
  }

  /** _decode_point_strict. */
  function DecodePoint(c: Ed, data: seq<int>): Option<Point>
    requires c.p > 2
  {
    if |data| != 32 then None else Decode(c, Number(data, 8))
  }

  lemma WidthOf32()
    ensures Exp2(256) == 2 * Exp2(255)
  {}

  /** An encoding decodes to a point exactly when the point is on the curve and this is
      what the encoder writes for it. */
  lemma DecodePointIff(c: Ed, data: seq<int>, P: Point)
    requires c.Valid() && c.p > 2 && c.p < Exp2(255) && Fits(data, 8)
    ensures DecodePoint(c, data) == Some(P) <==> Good(c, P) && data == EncodePoint(P)
  {
    WidthOf32();
    hide Exp2, Good, Decode, Encode, Digits, Number, Fits;
    if DecodePoint(c, data) == Some(P) {
      NumberBound(data, 8);
      DecodeUnique(c, Number(data, 8));
      DigitsNumber(data, 8, 0);
    }
    if Good(c, P) && data == EncodePoint(P) {
      DecodeEncode(c, P);
      EncodeRange(c, P);
      NumberDigits(Encode(P), 8, 32);
    }
  }

  lemma EncodeRange(c: Ed, P: Point)
    requires c.p > 2 && c.p < Exp2(255) && Good(c, P)
    ensures 0 <= Encode(P) < Exp2(256)
  {
    WidthOf32();
    hide Exp2, OnCurve;
  }

  lemma EncodedIsBytes(P: Point)
    ensures Fits(EncodePoint(P), 8)
  {
    DigitsFit(Encode(P), 8, 32);
  }

  // ----- signing and verification

  const DOM2_PREFIX: seq<int> :=
    [83, 105, 103, 69, 100, 50, 53, 53, 49, 57, 32, 110, 111, 32, 69, 100,
     50, 53, 53, 49, 57, 32, 99, 111, 108, 108, 105, 115, 105, 111, 110, 115]

  /** _dom2: the domain prefix of the prehashed variant. */
  function Dom2(ph: bool): seq<int> { if ph then DOM2_PREFIX + [1, 0] else [] }

  /** _hint: a hash modulo the order. */
  function HashScalar(S: Scheme, H: seq<int> -> seq<int>, data: seq<int>): (k: nat)
    requires S.L > 0
    ensures k < S.L
  {
    Number(H(data), 8) % S.L
  }

  /** The secret scalar of a seed. */
  function SecretScalar(H: seq<int> -> seq<int>, seed: seq<int>): nat
    requires |H(seed)| == 64
  {
    Clamp(Number(H(seed)[..32], 8))
  }

  /** Ed25519PrivateKey.public_key. */
  function PublicBytes(S: Scheme, H: seq<int> -> seq<int>, seed: seq<int>): seq<int>
    requires S.c.p > 2 && |H(seed)| == 64
  {
    EncodePoint(Multiple(S.c, SecretScalar(H, seed), S.B))
  }

  function Body(H: seq<int> -> seq<int>, message: seq<int>, ph: bool): seq<int>
  {
    if ph then H(message) else message
  }

  /** The nonce of a message. */
  function Nonce(S: Scheme, H: seq<int> -> seq<int>, seed: seq<int>, message: seq<int>, ph: bool): (r: nat)
    requires S.L > 0 && |H(seed)| == 64
    ensures r < S.L
  {
    HashScalar(S, H, Dom2(ph) + H(seed)[32..] + Body(H, message, ph))
  }

  /** _sign. */
  function Sign(S: Scheme, H: seq<int> -> seq<int>, seed: seq<int>, message: seq<int>, ph: bool): (sig: seq<int>)
    requires S.c.p > 2 && S.L > 0 && |H(seed)| == 64
    ensures |sig| == 64
  {
    var a, r := SecretScalar(H, seed), Nonce(S, H, seed, message, ph);
    var rEnc := EncodePoint(Multiple(S.c, r, S.B));
    var k := HashScalar(S, H, Dom2(ph) + rEnc + PublicBytes(S, H, seed) + Body(H, message, ph));
    rEnc + Digits((r + k * a) % S.L, 8, 32)
  }

  /** _verify: whether it returns without an exception. */
  predicate Verify(S: Scheme, H: seq<int> -> seq<int>, aEnc: seq<int>, signature: seq<int>, message: seq<int>, ph: bool)
    requires S.c.p > 2 && S.L > 0
  {
    && |signature| == 64
    && 0 <= Number(signature[32..], 8) < S.L
    && match DecodePoint(S.c, aEnc)
       case None => false
       case Some(A) =>
         EncodePoint(Multiple(S.c, 8, A)) != EncodePoint(Identity)
         && match DecodePoint(S.c, signature[..32])
            case None => false
            case Some(R) => EquationHolds(S, A, R, Number(signature[32..], 8),
                                          HashScalar(S, H, Dom2(ph) + signature[..32] + aEnc + Body(H, message, ph)))
  }

  /** The cofactored check on encodings. */
  predicate EquationHolds(S: Scheme, A: Point, R: Point, s: nat, k: nat)
    requires S.c.p > 2
  {
    EncodePoint(Multiple(S.c, 8 * s, S.B)) == EncodePoint(Multiple(S.c, 8, Add(S.c, R, Multiple(S.c, k, A))))
  }

  /** Encodings of points of the curve differ for different points. */
  lemma EncodePointInjective(c: Ed, P: Point, R: Point)
    requires c.Valid() && c.p > 2 && c.p < Exp2(255) && Good(c, P) && Good(c, R) && EncodePoint(P) == EncodePoint(R)
    ensures P == R
  {
    hide Good, EncodePoint, Exp2, Ed.Valid;
    EncodedIsBytes(P);
    DecodePointIff(c, EncodePoint(P), P);
    DecodePointIff(c, EncodePoint(P), R);
  }

  /** The rejection of small-order keys never fires on the key of a seed, which decodes. */
  lemma HonestKeyDecodes(S: Scheme, H: seq<int> -> seq<int>, seed: seq<int>)
    requires GroupLaws(S) && |H(seed)| == 64
    ensures S.c.p > 2
    ensures var A := Multiple(S.c, SecretScalar(H, seed), S.B);
            && DecodePoint(S.c, PublicBytes(S, H, seed)) == Some(A)
            && EncodePoint(Multiple(S.c, 8, A)) != EncodePoint(Identity)
  {
    hide Multiple, Exp2, Good, Clamp, GroupLaws, EncodePoint, DecodePoint, Number;
    SchemeFacts(S);
    HonestKeyAccepted(S, Number(H(seed)[..32], 8));
    var A := Multiple(S.c, SecretScalar(H, seed), S.B);
    EncodedIsBytes(A);
    DecodePointIff(S.c, EncodePoint(A), A);
    IdentityGood(S.c);
    if EncodePoint(Multiple(S.c, 8, A)) == EncodePoint(Identity) {
      EncodePointInjective(S.c, Multiple(S.c, 8, A), Identity);
    }
  }

  /** Every signature is accepted under the key of its seed, for every message and both
      variants. */
  lemma SignatureVerifies(S: Scheme, H: seq<int> -> seq<int>, seed: seq<int>, message: seq<int>, ph: bool)
    requires GroupLaws(S) && IsHash(H)
    ensures S.c.p > 2 && S.L > 0
    ensures Verify(S, H, PublicBytes(S, H, seed), Sign(S, H, seed, message, ph), message, ph)
  {
    hide Multiple, Add, Exp2, Good, Clamp, GroupLaws, EncodePoint, DecodePoint, Number, Digits, Dom2, Ed.Valid, SizedOrder;
    SchemeFacts(S);
    var a, r := SecretScalar(H, seed), Nonce(S, H, seed, message, ph);
    var R := Multiple(S.c, r, S.B);
    var rEnc, aEnc := EncodePoint(R), PublicBytes(S, H, seed);
    var k := HashScalar(S, H, Dom2(ph) + rEnc + aEnc + Body(H, message, ph));
    var s := (r + k * a) % S.L;
    var sig := Sign(S, H, seed, message, ph);
    assert sig[..32] == rEnc && sig[32..] == Digits(s, 8, 32);
    ScalarsFit(S);
    NumberDigits(s, 8, 32);
    HonestKeyDecodes(S, H, seed);
    MultipleGood(S.c, r, S.B);
    EncodedIsBytes(R);
    DecodePointIff(S.c, rEnc, R);
    MulNonNeg(k, a);
    EquationIff(S, a, r, k, s);
  }

  // ----- exactly what is accepted

  /** The signature is R and s below the order, the key is A, neither encoding has another
      form, A has no small order, and eight times s B is eight times R + k A. */
  ghost predicate SignedBy(S: Scheme, H: seq<int> -> seq<int>, aEnc: seq<int>, signature: seq<int>, message: seq<int>, ph: bool,
                           A: Point, R: Point, s: nat)
    requires S.c.p > 2 && S.L > 0
  {
    && Good(S.c, A) && Good(S.c, R) && s < S.L
    && aEnc == EncodePoint(A) && signature == EncodePoint(R) + Digits(s, 8, 32)
    && Multiple(S.c, 8, A) != Identity
    && var k := HashScalar(S, H, Dom2(ph) + EncodePoint(R) + EncodePoint(A) + Body(H, message, ph));
       Multiple(S.c, 8 * s, S.B) == Multiple(S.c, 8, Add(S.c, R, Multiple(S.c, k, A)))
  }

  /** For any bytes whatever, verification accepts exactly such signatures. */
  lemma VerifyIff(S: Scheme, H: seq<int> -> seq<int>, aEnc: seq<int>, signature: seq<int>, message: seq<int>, ph: bool)
    requires S.Valid() && Fits(aEnc, 8) && Fits(signature, 8)
    ensures Verify(S, H, aEnc, signature, message, ph)
       <==> exists A: Point, R: Point, s: nat :: SignedBy(S, H, aEnc, signature, message, ph, A, R, s)
  {
    hide Multiple, Add, Exp2, Good, EncodePoint, DecodePoint, Number, Digits, Dom2, Fits, Verify, SignedBy;
    assert S.c.p > 2 && S.L > 0;
    hide Scheme.Valid;
    if Verify(S, H, aEnc, signature, message, ph) {
      AcceptedShape(S, H, aEnc, signature, message, ph);
    }
    forall A: Point, R: Point, s: nat | SignedBy(S, H, aEnc, signature, message, ph, A, R, s)
      ensures Verify(S, H, aEnc, signature, message, ph)
    {
      SignedIsAccepted(S, H, aEnc, signature, message, ph, A, R, s);
    }
  }

  lemma AcceptedShape(S: Scheme, H: seq<int> -> seq<int>, aEnc: seq<int>, signature: seq<int>, message: seq<int>, ph: bool)
    requires S.Valid() && Fits(aEnc, 8) && Fits(signature, 8) && Verify(S, H, aEnc, signature, message, ph)
    ensures exists A: Point, R: Point, s: nat :: SignedBy(S, H, aEnc, signature, message, ph, A, R, s)
  {
    hide Multiple, Add, Exp2, Good, EncodePoint, DecodePoint, Number, Digits, Dom2, Fits, Ed.Valid;
    var rEnc, sEnc := signature[..32], signature[32..];
    var A, R := DecodePoint(S.c, aEnc).value, DecodePoint(S.c, rEnc).value;
    var s: nat := Number(sEnc, 8);
    var k := HashScalar(S, H, Dom2(ph) + rEnc + aEnc + Body(H, message, ph));
    FitsPrefix(signature, 8, 32);
    FitsSuffix(signature, 8, 32);
    DecodePointIff(S.c, aEnc, A);
    DecodePointIff(S.c, rEnc, R);
    DigitsNumber(sEnc, 8, 0);
    assert signature == rEnc + sEnc;
    BothSidesGood(S, A, R, s, k);
    EncodePointInjective(S.c, Multiple(S.c, 8 * s, S.B), Multiple(S.c, 8, Add(S.c, R, Multiple(S.c, k, A))));
    assert SignedBy(S, H, aEnc, signature, message, ph, A, R, s);
  }

  lemma BothSidesGood(S: Scheme, A: Point, R: Point, s: nat, k: nat)
    requires S.Valid() && Good(S.c, A) && Good(S.c, R)
    ensures Good(S.c, Multiple(S.c, 8, A)) && Good(S.c, Multiple(S.c, 8 * s, S.B))
    ensures Good(S.c, Multiple(S.c, 8, Add(S.c, R, Multiple(S.c, k, A))))
  {
    hide Multiple, Add, Exp2, Good, Ed.Valid;
    MultipleGood(S.c, 8, A);
    MultipleGood(S.c, 8 * s, S.B);
    MultipleGood(S.c, k, A);
    EdCurve.AddGood(S.c, R, Multiple(S.c, k, A));
    MultipleGood(S.c, 8, Add(S.c, R, Multiple(S.c, k, A)));
  }

  lemma SignedIsAccepted(S: Scheme, H: seq<int> -> seq<int>, aEnc: seq<int>, signature: seq<int>, message: seq<int>, ph: bool,
                         A: Point, R: Point, s: nat)
    requires S.Valid() && SignedBy(S, H, aEnc, signature, message, ph, A, R, s)
    ensures Verify(S, H, aEnc, signature, message, ph)
  {
    hide Multiple, Add, Exp2, Good, EncodePoint, DecodePoint, Number, Digits, Dom2, Fits, Ed.Valid, SizedOrder;
    ScalarsFit(S);
    NumberDigits(s, 8, 32);
    assert signature[..32] == EncodePoint(R) && signature[32..] == Digits(s, 8, 32);
    EncodedIsBytes(A);
    EncodedIsBytes(R);
    DecodePointIff(S.c, EncodePoint(A), A);
    DecodePointIff(S.c, EncodePoint(R), R);
    BothSidesGood(S, A, R, s, 0);
    IdentityGood(S.c);
    if EncodePoint(Multiple(S.c, 8, A)) == EncodePoint(Identity) {
      EncodePointInjective(S.c, Multiple(S.c, 8, A), Identity);
    }
  }

  /** For a key and a commitment that are multiples of the base point, exactly one scalar is
      accepted: the one the signer computes. */
  lemma VerifyScalarIff(S: Scheme, H: seq<int> -> seq<int>, a: nat, r: nat, s: nat, message: seq<int>, ph: bool)
    requires GroupLaws(S) && a % S.L != 0 && s < S.L
    ensures S.c.p > 2 && S.L > 0
    ensures var aEnc, rEnc := EncodePoint(Multiple(S.c, a, S.B)), EncodePoint(Multiple(S.c, r, S.B));
            var k := HashScalar(S, H, Dom2(ph) + rEnc + aEnc + Body(H, message, ph));
            Verify(S, H, aEnc, rEnc + Digits(s, 8, 32), message, ph) <==> s == (r + k * a) % S.L
  {
    hide Multiple, Add, Exp2, Good, EncodePoint, DecodePoint, Number, Digits, Dom2, GroupLaws, Ed.Valid, SizedOrder;
    SchemeFacts(S);
    var A, R := Multiple(S.c, a, S.B), Multiple(S.c, r, S.B);
    var aEnc, rEnc := EncodePoint(A), EncodePoint(R);
    var sig := rEnc + Digits(s, 8, 32);
    var k := HashScalar(S, H, Dom2(ph) + rEnc + aEnc + Body(H, message, ph));
    MultipleGood(S.c, a, S.B);
    MultipleGood(S.c, r, S.B);
    MultipleOfMultiple(S, 8, a);
    Vanishes(S, 8 * a);
    EightCancels(S.L, a, 0);
    SmallMod(0, S.L);
    EquationIff(S, a, r, k, s);
    if s == (r + k * a) % S.L {
      assert SignedBy(S, H, aEnc, sig, message, ph, A, R, s);
      SignedIsAccepted(S, H, aEnc, sig, message, ph, A, R, s);
    }
    if Verify(S, H, aEnc, sig, message, ph) {
      EncodedIsBytes(A);
      EncodedIsBytes(R);
      DigitsFit(s, 8, 32);
      FitsConcat(rEnc, Digits(s, 8, 32), 8);
      AcceptedShape(S, H, aEnc, sig, message, ph);
      SameSignature(S, H, aEnc, sig, message, ph, A, R, s);
    }
  }

  /** The point and the scalar of a signature are determined by its bytes. */
  lemma SameSignature(S: Scheme, H: seq<int> -> seq<int>, aEnc: seq<int>, signature: seq<int>, message: seq<int>, ph: bool,
                      A: Point, R: Point, s: nat)
    requires S.Valid() && Good(S.c, A) && Good(S.c, R) && s < S.L
    requires aEnc == EncodePoint(A) && signature == EncodePoint(R) + Digits(s, 8, 32)
    requires exists A': Point, R': Point, s': nat :: SignedBy(S, H, aEnc, signature, message, ph, A', R', s')
    ensures SignedBy(S, H, aEnc, signature, message, ph, A, R, s)
  {
    hide Multiple, Add, Exp2, Good, EncodePoint, Number, Digits, Dom2, Ed.Valid, SizedOrder, HashScalar;
    var A': Point, R': Point, s': nat :| SignedBy(S, H, aEnc, signature, message, ph, A', R', s');
    EncodePointInjective(S.c, A, A');
    assert signature[..32] == EncodePoint(R) == EncodePoint(R');
    assert signature[32..] == Digits(s, 8, 32) == Digits(s', 8, 32);
    EncodePointInjective(S.c, R, R');
    ScalarsFit(S);
    NumberDigits(s, 8, 32);
    NumberDigits(s', 8, 32);
  }

  /** A signature accepted for two messages has the same message scalar for both. */
  lemma OneScalar(S: Scheme, H: seq<int> -> seq<int>, a: nat, r: nat, s: nat, m: seq<int>, m': seq<int>, ph: bool)
    requires GroupLaws(S) && a % S.L != 0 && s < S.L
    requires var aEnc, sig := EncodePoint(Multiple(S.c, a, S.B)), EncodePoint(Multiple(S.c, r, S.B)) + Digits(s, 8, 32);
             Verify(S, H, aEnc, sig, m, ph) && Verify(S, H, aEnc, sig, m', ph)
    ensures var aEnc, rEnc := EncodePoint(Multiple(S.c, a, S.B)), EncodePoint(Multiple(S.c, r, S.B));
            var before := Dom2(ph) + rEnc + aEnc;
            HashScalar(S, H, before + Body(H, m, ph)) == HashScalar(S, H, before + Body(H, m', ph))
  {
    hide Multiple, EncodePoint, Verify, HashScalar, Digits, Dom2, Exp2, GroupLaws, Prime;
    SchemeFacts(S);
    VerifyScalarIff(S, H, a, r, s, m, ph);
    VerifyScalarIff(S, H, a, r, s, m', ph);
    var aEnc, rEnc := EncodePoint(Multiple(S.c, a, S.B)), EncodePoint(Multiple(S.c, r, S.B));
    var k, k' := HashScalar(S, H, Dom2(ph) + rEnc + aEnc + Body(H, m, ph)),
                 HashScalar(S, H, Dom2(ph) + rEnc + aEnc + Body(H, m', ph));
    ScalarDetermined(S.L, a, r, k, k');
  }

  lemma ScalarDetermined(L: nat, a: nat, r: nat, k: nat, k': nat)
    requires Prime(L) && a % L != 0 && k < L && k' < L && (r + k * a) % L == (r + k' * a) % L
    ensures k == k'
  {
    hide Prime;
    PrimeAboveOne(L);
    AddCong(r + k * a, r + k' * a, r + k' * a, r + k' * a, L);
    SmallMod(0, L);
    var d := k - k';
    assert r + k * a - (r + k' * a) == d * a;
    if d % L != 0 {
      NonZeroProduct(d, a, L);
    }
    AddCong(d, 0, k', k', L);
    SmallMod(k, L);
    SmallMod(k', L);
  }

  lemma PrimeAboveOne(L: nat)
    requires Prime(L)
    ensures L > 1
  {}

  // ----- over the ladder

  /** Every scalar the library multiplies by fits the 256 iterations of the ladder: eight, a
      clamped scalar, anything below the order, and eight times that. */
  lemma ScalarsFit(S: Scheme)
    requires SizedOrder(S.L)
    ensures 8 < Exp2(256) && S.L < 8 * S.L < Exp2(256) && Exp2(255) < Exp2(256)
  {
    Exp2At4();
    hide Exp2;
    Exp2Monotone(4, 256);
    Exp2Add(254, 1);
    Exp2Add(255, 1);
  }

  /** One iteration fewer would not do: some scalar below the order times eight has 256
      bits. */
  lemma WidthIsLeast(S: Scheme)
    requires SizedOrder(S.L)
    ensures exists s: nat :: s < S.L && Exp2(255) <= 8 * s < Exp2(256)
  {
    ScalarsFit(S);
    Exp2At4();
    hide Exp2;
    Exp2Add(3, 252);
    BelowTheOrder(S.L, Exp2(252));
  }

  lemma BelowTheOrder(L: nat, e: nat)
    requires 8 * e < 8 * L
    ensures L - 1 >= 0 && 8 * e <= 8 * (L - 1) < 8 * L
  {}

  lemma ClampFits(h: int)
    ensures Clamp(h) < Exp2(256)
  {
    ClampRange(h);
    hide Exp2, Clamp;
    Exp2Monotone(255, 256);
  }

  method PublicKeyOf(S: Scheme, H: seq<int> -> seq<int>, seed: seq<int>) returns (aEnc: seq<int>)
    requires S.Valid() && IsHash(H)
    ensures aEnc == PublicBytes(S, H, seed)
  {
    hide Exp2, Good, Clamp, EncodePoint, Multiple, Number;
    ClampFits(Number(H(seed)[..32], 8));
    var A := ScalarMult(S.c, SecretScalar(H, seed), S.B);
    aEnc := EncodePoint(A);
  }

  /** _sign with its three scalar multiplications. */
  method SignMessage(S: Scheme, H: seq<int> -> seq<int>, seed: seq<int>, message: seq<int>, ph: bool)
    returns (sig: seq<int>)
    requires S.Valid() && IsHash(H)
    ensures sig == Sign(S, H, seed, message, ph)
  {
    hide Exp2, Good, Clamp, EncodePoint, Multiple, Number, Digits, Dom2;
    ScalarsFit(S);
    var a := SecretScalar(H, seed);
    var aEnc := PublicKeyOf(S, H, seed);
    var r := Nonce(S, H, seed, message, ph);
    var R := ScalarMult(S.c, r, S.B);
    var rEnc := EncodePoint(R);
    var k := HashScalar(S, H, Dom2(ph) + rEnc + aEnc + Body(H, message, ph));
    sig := rEnc + Digits((r + k * a) % S.L, 8, 32);
  }

  /** _verify with its four scalar multiplications. */
  method VerifySignature(S: Scheme, H: seq<int> -> seq<int>, aEnc: seq<int>, signature: seq<int>, message: seq<int>, ph: bool)
    returns (ok: bool)
    requires S.Valid() && IsHash(H) && Fits(aEnc, 8) && Fits(signature, 8)
    ensures ok == Verify(S, H, aEnc, signature, message, ph)
  {
    hide Exp2, Good, EncodePoint, DecodePoint, Multiple, Number, Dom2, Add, Fits;
    if |signature| != 64 {
      return false;
    }
    ScalarsFit(S);
    var rEnc, s := signature[..32], Number(signature[32..], 8);
    if s < 0 || s >= S.L {
      return false;
    }
    var a, R := DecodePoint(S.c, aEnc), DecodePoint(S.c, rEnc);
    if a == None {
      return false;
    }
    DecodePointIff(S.c, aEnc, a.value);
    var small := ScalarMult(S.c, 8, a.value);
    if EncodePoint(small) == EncodePoint(Identity) || R == None {
      return false;
    }
    FitsPrefix(signature, 8, 32);
    DecodePointIff(S.c, rEnc, R.value);
    var k := HashScalar(S, H, Dom2(ph) + rEnc + aEnc + Body(H, message, ph));
    var left := ScalarMult(S.c, 8 * s, S.B);
    var kA := ScalarMult(S.c, k, a.value);
    MultipleGood(S.c, k, a.value);
    EdCurve.AddGood(S.c, R.value, kA);
    var right := ScalarMult(S.c, 8, Add(S.c, R.value, kA));
    ok := EncodePoint(left) == EncodePoint(right);
  }
}
