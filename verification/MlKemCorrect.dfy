/** Correctness of ML-KEM: decryption returns the message exactly when the noise
    polynomial stays within the rounding window, and then decapsulation returns
    the encapsulated key. */
module MlKemCorrect {
  import opened ModArith
  import opened Options
  import opened BitPack
  import opened NttProduct
  import opened MlKemRing
  import opened MlKemIdentity
  import opened MlKem

  // ----- what travels in bytes

  lemma ResiduesFit(fs: seq<Poly>)
    requires forall i :: 0 <= i < |fs| ==> Residues(fs[i])
    ensures AllFit(fs, 12)
  {
    Widths();
    hide Exp2;
    forall i | 0 <= i < |fs| ensures Fits(fs[i], 12) {
      assert Residues(fs[i]);
    }
  }

  lemma SecretFits(s: seq<Poly>)
    ensures AllFit(NttAll(s), 12)
  {
    hide NttOf;
    forall i | 0 <= i < |s| ensures Residues(NttAll(s)[i]) {
      NttResidues(s[i]);
    }
    ResiduesFit(NttAll(s));
  }

  lemma PublicFits(A: Matrix, s: seq<Poly>, e: seq<Poly>)
    requires IsMatrix(A, |e|, |s|)
    ensures AllFit(PublicVector(A, s, e), 12)
  {
    hide NttOf, PolyDot;
    ResiduesFit(PublicVector(A, s, e));
  }

  lemma CompressedFit(d: nat, fs: seq<Poly>)
    ensures AllFit(CompressAll(d, fs), d)
  {
    hide Compress;
    forall i, j | 0 <= i < |fs| && 0 <= j < 256 ensures 0 <= CompressAll(d, fs)[i][j] < Exp2(d) {
      CompressFits(d, fs[i][j]);
    }
  }

  lemma CompressedPolyFits(d: nat, f: Poly)
    ensures Fits(CompressPoly(d, f), d)
  {
    forall j | 0 <= j < 256 ensures 0 <= CompressPoly(d, f)[j] < Exp2(d) {
      CompressFits(d, f[j]);
    }
  }

  /** The encapsulation key decodes to t and rho. */
  lemma EkDecodes(p: Params, t: seq<Poly>, rho: seq<int>)
    requires AllFit(t, 12) && |t| == p.k && |rho| == 32
    ensures var ek := Join(PackAll(t, 12)) + rho;
            && |ek| == p.EkSize() && |ek| >= p.k * 384
            && UnpackAll(Chunks(ek, 384, p.k), 12) == t
            && ek[384 * p.k..384 * p.k + 32] == rho
  {
    hide Join, Chunks, PackAll, UnpackAll;
    RowsRoundTrip(t, 12, rho);
    assert p.k * 384 == 384 * p.k;
  }

  lemma DkDecodes(p: Params, sHat: seq<Poly>)
    requires AllFit(sHat, 12) && |sHat| == p.k
    ensures var dk := Join(PackAll(sHat, 12));
            |dk| == 384 * p.k && |dk| >= p.k * 384 && UnpackAll(Chunks(dk, 384, p.k), 12) == sHat
  {
    hide Join, Chunks, PackAll, UnpackAll;
    var dk := Join(PackAll(sHat, 12));
    RowsRoundTrip(sHat, 12, []);
    assert dk + [] == dk && p.k * 384 == 384 * p.k;
  }

  /** A ciphertext decodes to the compressed polynomials. */
  lemma CipherDecodes(p: Params, u: seq<Poly>, v: Poly)
    requires |u| == p.k && p.du >= 1 && p.dv >= 1
    ensures var c := EncodeCipher(p, u, v);
            && |c| == p.CtSize() && |c| >= p.k * (32 * p.du) && 0 <= 32 * (p.du * p.k) <= |c|
            && UnpackAll(Chunks(c, 32 * p.du, p.k), p.du) == CompressAll(p.du, u)
            && Unpack(c[32 * (p.du * p.k)..], p.dv, 256) == CompressPoly(p.dv, v)
  {
    hide Join, Chunks, PackAll, UnpackAll, Pack, Unpack, CompressAll, CompressPoly;
    var cu, cv := CompressAll(p.du, u), CompressPoly(p.dv, v);
    CompressedFit(p.du, u);
    CompressedPolyFits(p.dv, v);
    RowsRoundTrip(cu, p.du, Pack(cv, p.dv));
    UnpackPack(cv, p.dv);
    assert p.k * (32 * p.du) == 32 * (p.du * p.k);
    assert 256 * p.dv / 8 == 32 * p.dv;
  }

  // ----- noise

  /** u and v after the rounding of compression. */
  function Rounded(d: nat, fs: seq<Poly>): (r: seq<Poly>)
    requires d >= 1
    ensures |r| == |fs|
  {
    DecompressAll(d, CompressAll(d, fs))
  }

  /** The noise of one encryption: e y + e2 + dv - s (e1 + du), where du and dv are
      what compression changes. */
  function EncryptionNoise(p: Params, key: Key, coins: Coins, m: seq<int>): Poly
    requires IsMatrix(key.A, p.k, p.k) && |key.s| == |key.e| == |coins.y| == |coins.e1| == p.k && p.du >= 1 && p.dv >= 1
  {
    var t := PublicVector(key.A, key.s, key.e);
    var u := CipherVector(key.A, coins.y, coins.e1);
    var v := CipherV(t, coins.y, coins.e2, MessagePoly(m));
    Noise(key.e, coins.y, key.s, RoundedErrors(coins.e1, u, Rounded(p.du, u)), coins.e2,
          IntSub(DecompressPoly(p.dv, CompressPoly(p.dv, v)), v))
  }

  /** Every coefficient within the window of its message bit. */
  ghost predicate NoiseFits(noise: Poly, bits: seq<int>)
    requires |bits| == 256
  {
    forall i :: 0 <= i < 256 ==> -832 <= Centre(noise[i]) <= 832 - bits[i]
  }

  /** What decryption computes from the rounded ciphertext. */
  function Decrypted(p: Params, key: Key, coins: Coins, m: seq<int>): (r: Poly)
    requires KeyShape(p, key) && |coins.y| == |coins.e1| == p.k && p.du >= 1 && p.dv >= 1
  {
    var t := PublicVector(key.A, key.s, key.e);
    var u := CipherVector(key.A, coins.y, coins.e1);
    var v := CipherV(t, coins.y, coins.e2, MessagePoly(m));
    CompressPoly(1, Recover(NttAll(key.s), Rounded(p.du, u), DecompressPoly(p.dv, CompressPoly(p.dv, v))))
  }

  /** The recovered bits, before they are packed. */
  lemma RecoveredBits(p: Params, key: Key, coins: Coins, m: seq<int>, i: nat)
    requires KeyShape(p, key) && |coins.y| == |coins.e1| == p.k && p.du >= 1 && p.dv >= 1 && i < 256
    ensures Decrypted(p, key, coins, m)[i]
         == Compress(1, (MessagePoly(m)[i] + EncryptionNoise(p, key, coins, m)[i]) % Q)
  {
    hide CipherV, Compress, Recover, MessagePoly, DecompressPoly, Rounded, PublicRow, CipherU, Noise, NttAll;
    var t := PublicVector(key.A, key.s, key.e);
    var u := CipherVector(key.A, coins.y, coins.e1);
    var v := CipherV(t, coins.y, coins.e2, MessagePoly(m));
    DecryptionIdentity(key.A, key.s, key.e, coins.y, coins.e1, coins.e2, MessagePoly(m), t, u,
                       Rounded(p.du, u), DecompressPoly(p.dv, CompressPoly(p.dv, v)), i);
  }

  /** Packed bits equal the message exactly when every bit does. */
  lemma SameMessage(bits: Poly, m: seq<int>)
    requires Fits(bits, 1) && Fits(m, 8) && |m| == 32
    ensures Pack(bits, 1) == m <==> bits == Unpack(m, 1, 256)
  {
    hide Pack, Unpack;
    UnpackPack(bits, 1);
    PackUnpack(m, 1, 256);
  }

  lemma BitsOf(m: seq<int>, i: nat)
    requires i < 256
    ensures Unpack(m, 1, 256)[i] == 0 || Unpack(m, 1, 256)[i] == 1
  {
    UnpackFits(m, 1, 256);
    assert Exp2(1) == 2;
  }

  /** The noise of encrypting m with randomness r under the key of seed d fits. */
  ghost predicate DecryptionFits(p: Params, H: Hashes, d: seq<int>, m: seq<int>, r: seq<int>)
    requires H.Valid()
  {
    && p.du >= 1 && p.dv >= 1 && KeyOf(p, H, d).Some?
    && NoiseFits(EncryptionNoise(p, KeyOf(p, H, d).value, CoinsOf(p, H, r), m), Unpack(m, 1, 256))
  }

  /** Decryption returns the message if and only if the noise fits. */
  lemma DecryptIff(p: Params, H: Hashes, d: seq<int>, m: seq<int>, r: seq<int>, ek: seq<int>, dk: seq<int>, c: seq<int>)
    requires p.Known() && H.Valid() && Fits(m, 8) && |m| == 32
    requires PkeKeyGen(p, H, d) == Some((ek, dk))
    requires |ek| == p.EkSize() && PkeEncrypt(p, H, ek, m, r) == Some(c)
    ensures p.du >= 1 && p.dv >= 1 && |dk| == 384 * p.k && |c| == p.CtSize()
    ensures PkeDecrypt(p, dk, c) == m <==> DecryptionFits(p, H, d, m, r)
  {
    var key, coins := KeyOf(p, H, d).value, CoinsOf(p, H, r);
    EncryptedBytes(p, H, d, m, r, ek, dk, c);
    DecryptedBits(p, key, coins, m, c, dk);
  }

  /** The ciphertext is the encoding of the expected polynomials. */
  lemma EncryptedBytes(p: Params, H: Hashes, d: seq<int>, m: seq<int>, r: seq<int>, ek: seq<int>, dk: seq<int>, c: seq<int>)
    requires p.Known() && H.Valid()
    requires PkeKeyGen(p, H, d) == Some((ek, dk))
    requires |ek| == p.EkSize() && PkeEncrypt(p, H, ek, m, r) == Some(c)
    ensures KeyOf(p, H, d).Some? && KeyShape(p, KeyOf(p, H, d).value) && p.du >= 1 && p.dv >= 1
    ensures var key, coins := KeyOf(p, H, d).value, CoinsOf(p, H, r);
            && dk == Join(PackAll(NttAll(key.s), 12))
            && c == EncodeCipher(p, CipherVector(key.A, coins.y, coins.e1),
                                 CipherV(PublicVector(key.A, key.s, key.e), coins.y, coins.e2, MessagePoly(m)))
  {
    hide Hashes.Valid, Join, PackAll, UnpackAll, Chunks, PublicVector, CipherVector, CipherV, MessagePoly, EncodeCipher, NttAll,
      CbdVector, SampleCbd, MatrixRows;
    var key := KeyOf(p, H, d).value;
    var t := PublicVector(key.A, key.s, key.e);
    PublicFits(key.A, key.s, key.e);
    EkDecodes(p, t, key.rho);
  }

  lemma DecryptedBits(p: Params, key: Key, coins: Coins, m: seq<int>, c: seq<int>, dk: seq<int>)
    requires KeyShape(p, key) && |coins.y| == |coins.e1| == p.k && p.du >= 1 && p.dv >= 1 && Fits(m, 8) && |m| == 32
    requires dk == Join(PackAll(NttAll(key.s), 12))
    requires c == EncodeCipher(p, CipherVector(key.A, coins.y, coins.e1),
                               CipherV(PublicVector(key.A, key.s, key.e), coins.y, coins.e2, MessagePoly(m)))
    ensures |dk| == 384 * p.k && |c| == p.CtSize()
    ensures PkeDecrypt(p, dk, c) == m <==> NoiseFits(EncryptionNoise(p, key, coins, m), Unpack(m, 1, 256))
  {
    hide Join, PackAll, UnpackAll, Chunks, PublicVector, CipherVector, CipherV, EncodeCipher, NttAll, Pack, Unpack,
      Recover, EncryptionNoise, CompressAll, DecompressAll, CompressPoly, DecompressPoly, Compress, Decompress, Centre, Fits;
    var u := CipherVector(key.A, coins.y, coins.e1);
    var v := CipherV(PublicVector(key.A, key.s, key.e), coins.y, coins.e2, MessagePoly(m));
    SecretFits(key.s);
    DkDecodes(p, NttAll(key.s));
    CipherDecodes(p, u, v);
    var w := Recover(NttAll(key.s), Rounded(p.du, u), DecompressPoly(p.dv, CompressPoly(p.dv, v)));
    var bits, noise := Unpack(m, 1, 256), EncryptionNoise(p, key, coins, m);
    CompressedPolyFits(1, w);
    SameMessage(CompressPoly(1, w), m);
    forall i | 0 <= i < 256
      ensures CompressPoly(1, w)[i] == bits[i] <==> -832 <= Centre(noise[i]) <= 832 - bits[i]
    {
      RecoveredBits(p, key, coins, m, i);
      BitsOf(m, i);
      BitSurvives(bits[i], noise[i]);
    }
  }

  // ----- encapsulation

  lemma DkSlices(p: Params, dkPke: seq<int>, ek: seq<int>, h: seq<int>, z: seq<int>)
    requires |dkPke| == 384 * p.k && |ek| == p.EkSize() && |h| == 32 && |z| == 32
    ensures var dk := dkPke + ek + h + z;
            && |dk| == 768 * p.k + 96 && dk[..384 * p.k] == dkPke && dk[384 * p.k..768 * p.k + 32] == ek
            && dk[768 * p.k + 32..768 * p.k + 64] == h && dk[768 * p.k + 64..] == z
  {}

  /** The encryption randomness of _encaps_internal. */
  function EncapsCoins(H: Hashes, ek: seq<int>, m: seq<int>): seq<int>
    requires H.Valid()
  {
    H.g(m + H.h(ek))[32..]
  }

  /** Whenever the noise of an encapsulation fits, decapsulation returns the
      encapsulated key and not the rejection key. */
  lemma DecapsReturnsKey(p: Params, H: Hashes, d: seq<int>, z: seq<int>, m: seq<int>,
                         ek: seq<int>, dk: seq<int>, shared: seq<int>, c: seq<int>)
    requires p.Known() && H.Valid() && Fits(m, 8) && |m| == 32 && |z| == 32
    requires KeyGen(p, H, d, z) == Some((ek, dk))
    requires |ek| == p.EkSize() && Encaps(p, H, ek, m) == Some((shared, c))
    requires DecryptionFits(p, H, d, m, EncapsCoins(H, ek, m))
    ensures |dk| == 768 * p.k + 96 && |c| == p.CtSize()
    ensures Decaps(p, H, dk, c) == Some(shared)
  {
    hide Params.Known, PkeKeyGen, PkeEncrypt, PkeDecrypt, DecryptionFits, Fits;
    var dkPke := PkeKeyGen(p, H, d).value.1;
    DecryptIff(p, H, d, m, EncapsCoins(H, ek, m), ek, dkPke, c);
    DkSlices(p, dkPke, ek, H.h(ek), z);
  }

  // ----- implicit rejection

  /** Encapsulating the 32-byte message m gives the shared key and the ciphertext. */
  ghost predicate Encapsulates(p: Params, H: Hashes, ek: seq<int>, m: seq<int>, shared: seq<int>, c: seq<int>)
    requires H.Valid()
  {
    |m| == 32 && Fits(m, 8) && |ek| == p.EkSize() && Encaps(p, H, ek, m) == Some((shared, c))
  }

  lemma DecryptedShape(p: Params, dk: seq<int>, c: seq<int>)
    requires p.du >= 1 && p.dv >= 1 && |dk| == 384 * p.k && |c| == p.CtSize()
    ensures |PkeDecrypt(p, dk, c)| == 32 && Fits(PkeDecrypt(p, dk, c), 8)
  {
    hide Join, Chunks, UnpackAll, Recover, DecompressAll, DecompressPoly, CompressPoly, Unpack, Number;
    assert p.k * 384 == 384 * p.k && p.k * (32 * p.du) == 32 * (p.du * p.k);
    MulNonNeg(p.du, p.k);
    var u: seq<Poly> := UnpackAll(Chunks(c, 32 * p.du, p.k), p.du);
    var v: Poly := Unpack(c[32 * (p.du * p.k)..], p.dv, 256);
    var sHat: seq<Poly> := UnpackAll(Chunks(dk, 384, p.k), 12);
    PackedFits(CompressPoly(1, Recover(sHat, DecompressAll(p.du, u), DecompressPoly(p.dv, v))));
  }

  lemma PackedFits(bits: Poly)
    ensures |Pack(bits, 1)| == 32 && Fits(Pack(bits, 1), 8)
  {
    DigitsFit(Number(bits, 1), 8, 32);
  }

  /** Encryption under a generated key always answers. */
  lemma EncryptAnswers(p: Params, H: Hashes, d: seq<int>, ek: seq<int>, dk: seq<int>, m: seq<int>, r: seq<int>)
    requires H.Valid() && PkeKeyGen(p, H, d) == Some((ek, dk))
    ensures |ek| == p.EkSize() && PkeEncrypt(p, H, ek, m, r).Some?
  {
    hide Hashes.Valid, Join, PackAll, UnpackAll, Chunks, PublicVector, CipherVector, CipherV, MessagePoly, EncodeCipher, NttAll,
      CbdVector, SampleCbd, MatrixRows;
    var key := KeyOf(p, H, d).value;
    PublicFits(key.A, key.s, key.e);
    EkDecodes(p, PublicVector(key.A, key.s, key.e), key.rho);
  }

  /** What decapsulation answers for any ciphertext of the right length: the shared key of
      the decrypted message if encapsulating that message gives this ciphertext, and else
      the rejection key. */
  lemma DecapsExact(p: Params, H: Hashes, d: seq<int>, z: seq<int>, ek: seq<int>, dk: seq<int>, c: seq<int>)
    requires p.Known() && H.Valid() && |z| == 32 && |c| == p.CtSize()
    requires KeyGen(p, H, d, z) == Some((ek, dk))
    ensures |ek| == p.EkSize() && |dk| == 768 * p.k + 96 && p.du >= 1 && p.dv >= 1
    ensures var m := PkeDecrypt(p, dk[..384 * p.k], c);
            && (forall shared :: Encapsulates(p, H, ek, m, shared, c) ==> Decaps(p, H, dk, c) == Some(shared))
            && ((forall shared :: !Encapsulates(p, H, ek, m, shared, c)) ==> Decaps(p, H, dk, c) == Some(H.j(z + c)))
  {
    KnownWidths(p);
    hide Params.Known, KeyGen, PkeKeyGen, PkeEncrypt, PkeDecrypt, Fits, Encapsulates, Decaps, Hashes.Valid;
    KeyParts(p, H, d, z, ek, dk);
    var dkPke := dk[..384 * p.k];
    var m := PkeDecrypt(p, dkPke, c);
    DecryptedShape(p, dkPke, c);
    EncryptAnswers(p, H, d, ek, dkPke, m, H.g(m + H.h(ek))[32..]);
    DecapsAnswer(p, H, dk, c, dkPke, ek, z);
  }

  lemma KnownWidths(p: Params)
    requires p.Known()
    ensures p.du >= 1 && p.dv >= 1
  {}

  /** The four parts of a decapsulation key. */
  lemma KeyParts(p: Params, H: Hashes, d: seq<int>, z: seq<int>, ek: seq<int>, dk: seq<int>)
    requires p.Known() && H.Valid() && |z| == 32 && KeyGen(p, H, d, z) == Some((ek, dk))
    ensures |ek| == p.EkSize() && |dk| == 768 * p.k + 96 && PkeKeyGen(p, H, d) == Some((ek, dk[..384 * p.k]))
    ensures dk[384 * p.k..768 * p.k + 32] == ek && dk[768 * p.k + 32..768 * p.k + 64] == H.h(ek) && dk[768 * p.k + 64..] == z
    ensures forall m :: |H.g(m)| == 64
  {
    KeySizes(p, H, d, z);
    hide Params.Known, PkeKeyGen;
    DkSlices(p, PkeKeyGen(p, H, d).value.1, ek, H.h(ek), z);
  }

  lemma DecapsAnswer(p: Params, H: Hashes, dk: seq<int>, c: seq<int>, dkPke: seq<int>, ek: seq<int>, z: seq<int>)
    requires H.Valid() && p.du >= 1 && p.dv >= 1 && |c| == p.CtSize() && |ek| == p.EkSize()
    requires |dk| == 768 * p.k + 96 && dk[..384 * p.k] == dkPke && dk[384 * p.k..768 * p.k + 32] == ek
    requires dk[768 * p.k + 32..768 * p.k + 64] == H.h(ek) && dk[768 * p.k + 64..] == z
    requires |PkeDecrypt(p, dkPke, c)| == 32 && Fits(PkeDecrypt(p, dkPke, c), 8)
    requires var m := PkeDecrypt(p, dkPke, c);
             PkeEncrypt(p, H, ek, m, H.g(m + H.h(ek))[32..]).Some?
    ensures var m := PkeDecrypt(p, dkPke, c);
            && (forall shared :: Encapsulates(p, H, ek, m, shared, c) ==> Decaps(p, H, dk, c) == Some(shared))
            && ((forall shared :: !Encapsulates(p, H, ek, m, shared, c)) ==> Decaps(p, H, dk, c) == Some(H.j(z + c)))
  {
    hide PkeEncrypt, PkeDecrypt, Fits;
    var m := PkeDecrypt(p, dkPke, c);
    var g := H.g(m + H.h(ek));
    if PkeEncrypt(p, H, ek, m, g[32..]) == Some(c) {
      assert Encapsulates(p, H, ek, m, g[..32], c);
    }
  }

  /** So a ciphertext that is no encapsulation is answered with the rejection key, and any
      other with that key or with the shared key of some message it encapsulates. */
  lemma DecapsRejects(p: Params, H: Hashes, d: seq<int>, z: seq<int>, ek: seq<int>, dk: seq<int>, c: seq<int>)
    requires p.Known() && H.Valid() && |z| == 32 && |c| == p.CtSize()
    requires KeyGen(p, H, d, z) == Some((ek, dk))
    ensures |dk| == 768 * p.k + 96 && p.du >= 1 && p.dv >= 1 && Decaps(p, H, dk, c).Some?
    ensures Decaps(p, H, dk, c) == Some(H.j(z + c))
         || exists m, shared :: Encapsulates(p, H, ek, m, shared, c) && Decaps(p, H, dk, c) == Some(shared)
    ensures (forall m, shared :: !Encapsulates(p, H, ek, m, shared, c)) ==> Decaps(p, H, dk, c) == Some(H.j(z + c))
  {
    hide Params.Known, Encapsulates, Decaps, KeyGen, PkeDecrypt;
    DecapsExact(p, H, d, z, ek, dk, c);
    var m := PkeDecrypt(p, dk[..384 * p.k], c);
    if exists shared :: Encapsulates(p, H, ek, m, shared, c) {
      var shared :| Encapsulates(p, H, ek, m, shared, c);
    }
  }

  /** Generated keys have the advertised sizes. */
  lemma KeySizes(p: Params, H: Hashes, d: seq<int>, z: seq<int>)
    requires p.Known() && H.Valid() && |z| == 32 && KeyGen(p, H, d, z).Some?
    ensures |KeyGen(p, H, d, z).value.0| == p.EkSize() && |KeyGen(p, H, d, z).value.1| == 768 * p.k + 96
  {
    hide Join, PackAll, UnpackAll, Chunks, PublicVector, NttAll, CbdVector, MatrixRows;
    var key := KeyOf(p, H, d).value;
    PublicFits(key.A, key.s, key.e);
    EkDecodes(p, PublicVector(key.A, key.s, key.e), key.rho);
    SecretFits(key.s);
    DkDecodes(p, NttAll(key.s));
  }
}
