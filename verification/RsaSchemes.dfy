/** The RSA schemes end to end: what is signed verifies and what is encrypted decrypts,
    for every key that passes the checks and has prime factors. */
module RsaSchemes {
  import opened Options
  import opened ModArith
  import opened Primes
  import opened Octets
  import opened Rsa
  import opened RsaPadding

  /** A key as _check_private_numbers and prime generation leave it. */
  ghost predicate Sound(k: Key)
  {
    PrivateNumbers(k) && Prime(k.p) && Prime(k.q)
  }

  function KeyBytes(n: nat): nat { (BitLength(n) + 7) / 8 }

  /** The bits of a PSS encoding: one fewer than those of the modulus. */
  function EmBits(n: nat): nat
    requires n > 1
  {
    BitLength(n) - 1
  }

  // ----- the schemes

  function SignPss(k: Key, h: Hash, mHash: Bytes, salt: Bytes, r: nat): Option<Bytes>
    requires h.Valid() && IsBytes(salt) && k.n > 1 && k.p > 0 && k.q > 0
  {
    var em :- PssEncode(h, mHash, EmBits(k.n), salt);
    Release(k, em, r)
  }

  /** The private operation on an encoded message. */
  function Release(k: Key, em: Bytes, r: nat): Option<Bytes>
    requires k.n > 1 && k.p > 0 && k.q > 0
  {
    if Os2ip(em) < 0 then None
    else
      var m :- Rsadp(k, Os2ip(em), r);
      if m < 0 then None else I2osp(m, KeyBytes(k.n))
  }

  predicate VerifyPss(n: nat, e: nat, signature: Bytes, h: Hash, mHash: Bytes, saltLen: Option<nat>)
    requires h.Valid() && n > 1
  {
    var emBits := EmBits(n);
    var emLen := EmLength(emBits);
    if |signature| != KeyBytes(n) || emLen < h.size + 2 then false
    else
      var m := Pow(Os2ip(signature), e) % n;
      if m >= Exp2(emBits) then false
      else PssVerify(h, ToBytes(m, emLen), mHash, saltLen, emBits)
  }

  function SignV15(k: Key, t: Bytes, r: nat): Option<Bytes>
    requires k.n > 1 && k.p > 0 && k.q > 0
  {
    var em :- V15Signature(t, KeyBytes(k.n));
    Release(k, em, r)
  }

  predicate VerifyV15(n: nat, e: nat, signature: Bytes, t: Bytes)
    requires n > 1
  {
    |signature| == KeyBytes(n)
    && V15Signature(t, KeyBytes(n)) == Some(ToBytes(Pow(Os2ip(signature), e) % n, KeyBytes(n)))
  }

  /** The public operation on a padded block. */
  function Encrypt(n: nat, e: nat, em: Bytes): Option<Bytes>
    requires n > 1
  {
    I2osp(Pow(Os2ip(em), e) % n, KeyBytes(n))
  }

  function EncryptOaep(n: nat, e: nat, h: Hash, tag: Bytes, message: Bytes, seed: Bytes): Option<Bytes>
    requires h.Valid() && IsBytes(message) && IsBytes(seed) && |seed| == h.size && n > 1
  {
    var em :- OaepEncode(h, tag, KeyBytes(n), message, seed);
    Encrypt(n, e, em)
  }

  /** The ciphertext checks and the private operation shared by both decryptions. */
  function Decrypt(k: Key, ciphertext: Bytes, r: nat): Option<Bytes>
    requires k.n > 1 && k.p > 0 && k.q > 0
  {
    var c := Os2ip(ciphertext);
    if |ciphertext| != KeyBytes(k.n) || c < 0 || c >= k.n then None else Release(k, ciphertext, r)
  }

  function DecryptOaep(k: Key, h: Hash, tag: Bytes, ciphertext: Bytes, r: nat): Option<Bytes>
    requires h.Valid() && k.n > 1 && k.p > 0 && k.q > 0
  {
    if KeyBytes(k.n) < 2 * h.size + 2 then None
    else
      var em :- Decrypt(k, ciphertext, r);
      DecryptSize(k, ciphertext, r);
      OaepDecode(h, tag, em)
  }

  lemma DecryptSize(k: Key, ciphertext: Bytes, r: nat)
    requires k.n > 1 && k.p > 0 && k.q > 0
    ensures Decrypt(k, ciphertext, r).Some? ==>
              |Decrypt(k, ciphertext, r).value| == KeyBytes(k.n) && IsBytes(Decrypt(k, ciphertext, r).value)
  {
    hide Rsadp, IsBytes, ToBytes, KeyBytes;
  }

  /** encrypt_v15 with the drawn padding string. */
  function EncryptV15(n: nat, e: nat, padding: Bytes, message: Bytes): Option<Bytes>
    requires n > 1
  {
    if |message| > KeyBytes(n) - 11 || |padding| != KeyBytes(n) - |message| - 3 then None
    else Encrypt(n, e, V15Block(padding, message))
  }

  function DecryptV15(k: Key, ciphertext: Bytes, r: nat): Option<Bytes>
    requires k.n > 1 && k.p > 0 && k.q > 0
  {
    var em :- Decrypt(k, ciphertext, r);
    SplitV15(em)
  }

  // ----- sizes

  /** A block whose used bits stay below the top bit of n is below n. */
  lemma BelowModulus(n: nat, em: Bytes, b: nat)
    requires n > 1 && IsBytes(em) && em != [] && em[0] < Exp2(b) && b + 8 * (|em| - 1) <= EmBits(n)
    ensures 0 <= Os2ip(em) < n
  {
    Os2ipBound(em, b);
    Exp2Monotone(b + 8 * (|em| - 1), EmBits(n));
    TopBit(n);
    hide EmBits, Exp2;
  }

  /** Every residue fits the key size. */
  lemma FitsKey(n: nat, m: nat)
    requires m < n
    ensures m < Exp2(8 * KeyBytes(n))
  {
    BitLengthBounds(n);
    Exp2Monotone(BitLength(n), 8 * KeyBytes(n));
  }

  lemma ModulusSize(k: Key)
    requires Sound(k)
    ensures k.n > 1 && k.p > 0 && k.q > 0 && BitLength(k.n) >= 1
  {
    Exp2Monotone(1, MIN_KEY_BITS - 1);
    BitLengthBounds(k.n);
  }

  // ----- signatures

  /** The public operation on a released value gives the integer that was signed. */
  lemma ReleaseOpens(k: Key, em: Bytes, r: nat)
    requires Sound(k) && k.n > 1 && k.p > 0 && k.q > 0 && Gcd(r, k.n) == 1 && 0 <= Os2ip(em) < k.n
    ensures Release(k, em, r).Some? && |Release(k, em, r).value| == KeyBytes(k.n)
    ensures 0 <= Os2ip(Release(k, em, r).value) < k.n
    ensures Pow(Os2ip(Release(k, em, r).value), k.e) % k.n == Os2ip(em)
  {
    hide PrivateNumbers, Rsadp, Pow, Exp2;
    var c := Os2ip(em);
    RsadpCorrect(k, c, r);
    var m := Pow(c, k.d) % k.n;
    FitsKey(k.n, m);
    ToBytesRoundTrip(m, KeyBytes(k.n));
    PublicUndoesPrivate(k, c);
    SmallMod(c, k.n);
  }

  /** Every PSS signature verifies, for any salt, with or without the salt length. */
  lemma PssSignatureVerifies(k: Key, h: Hash, mHash: Bytes, salt: Bytes, r: nat, saltLen: Option<nat>)
    requires Sound(k) && h.Valid() && IsBytes(salt) && k.n > 1 && k.p > 0 && k.q > 0 && Gcd(r, k.n) == 1
    requires saltLen == None || saltLen.value == |salt|
    requires PssEncode(h, mHash, EmBits(k.n), salt).Some?
    ensures SignPss(k, h, mHash, salt, r).Some?
    ensures VerifyPss(k.n, k.e, SignPss(k, h, mHash, salt, r).value, h, mHash, saltLen)
  {
    hide Sound, Release, Hash.Valid, PssVerify, PssEncode, Pow, Exp2, EmBits, IsBytes, VerifyPss;
    var em := PssEncode(h, mHash, EmBits(k.n), salt).value;
    PssRepresentative(k.n, h, mHash, salt, saltLen, em);
    ReleaseOpens(k, em, r);
    PssOpens(k.n, k.e, Release(k, em, r).value, h, mHash, saltLen, em);
  }

  /** The integer of a PSS encoding is below the modulus and below 2^emBits. */
  lemma PssRepresentative(n: nat, h: Hash, mHash: Bytes, salt: Bytes, saltLen: Option<nat>, em: Bytes)
    requires h.Valid() && IsBytes(salt) && (saltLen == None || saltLen.value == |salt|)
    requires n > 1 && PssEncode(h, mHash, EmBits(n), salt) == Some(em)
    ensures IsBytes(em) && |em| == EmLength(EmBits(n)) >= h.size + 2
    ensures 0 <= Os2ip(em) < n && Os2ip(em) < Exp2(EmBits(n)) && PssVerify(h, em, mHash, saltLen, EmBits(n))
  {
    TopBit(n);
    PssInteger(h, mHash, EmBits(n), salt, saltLen, em);
  }

  lemma TopBit(n: nat)
    requires n > 1
    ensures Exp2(EmBits(n)) <= n
  {
    BitLengthBounds(n);
  }

  lemma PssInteger(h: Hash, mHash: Bytes, emBits: nat, salt: Bytes, saltLen: Option<nat>, em: Bytes)
    requires h.Valid() && IsBytes(salt) && (saltLen == None || saltLen.value == |salt|)
    requires PssEncode(h, mHash, emBits, salt) == Some(em)
    ensures IsBytes(em) && |em| == EmLength(emBits) >= h.size + 2
    ensures 0 <= Os2ip(em) < Exp2(emBits) && PssVerify(h, em, mHash, saltLen, emBits)
  {
    hide PssVerify, PssEncode, Exp2, Hash.Valid, IsBytes, Os2ip, UsedBits, EmLength;
    PssEncodeVerifies(h, mHash, emBits, salt, saltLen, em);
    UsedBitsRange(emBits);
    Os2ipBound(em, UsedBits(emBits));
  }

  lemma PssOpens(n: nat, e: nat, signature: Bytes, h: Hash, mHash: Bytes, saltLen: Option<nat>, em: Bytes)
    requires h.Valid() && n > 1 && |signature| == KeyBytes(n) && IsBytes(em)
    requires var emBits := EmBits(n);
             && |em| == EmLength(emBits) >= h.size + 2 && Os2ip(em) < Exp2(emBits)
             && PssVerify(h, em, mHash, saltLen, emBits)
    requires Pow(Os2ip(signature), e) % n == Os2ip(em)
    ensures VerifyPss(n, e, signature, h, mHash, saltLen)
  {
    hide Hash.Valid, PssVerify, Exp2, BitLength, IsBytes, Pow;
    Os2ipRoundTrip(em);
  }

  /** A byte string verifies exactly when the public operation takes it to the integer of an
      encoding of the message with some salt of the wanted length. */
  lemma VerifyPssIff(n: nat, e: nat, signature: Bytes, h: Hash, mHash: Bytes, saltLen: Option<nat>)
    requires h.Valid() && n > 1
    ensures VerifyPss(n, e, signature, h, mHash, saltLen)
       <==> && |signature| == KeyBytes(n)
            && exists salt: Bytes, em: Bytes ::
                 && IsBytes(salt) && (saltLen == None || |salt| == saltLen.value)
                 && PssEncode(h, mHash, EmBits(n), salt) == Some(em)
                 && Pow(Os2ip(signature), e) % n == Os2ip(em)
  {
    hide Hash.Valid, PssVerify, PssEncode, Exp2, BitLength, IsBytes, Pow, Os2ip, VerifyPss, EmLength, KeyBytes;
    if VerifyPss(n, e, signature, h, mHash, saltLen) {
      var salt, em := PssAccepted(n, e, signature, h, mHash, saltLen);
    }
    forall salt: Bytes, em: Bytes |
      && |signature| == KeyBytes(n) && IsBytes(salt) && (saltLen == None || |salt| == saltLen.value)
      && PssEncode(h, mHash, EmBits(n), salt) == Some(em) && Pow(Os2ip(signature), e) % n == Os2ip(em)
      ensures VerifyPss(n, e, signature, h, mHash, saltLen)
    {
      PssInteger(h, mHash, EmBits(n), salt, saltLen, em);
      PssOpens(n, e, signature, h, mHash, saltLen, em);
    }
  }

  lemma PssAccepted(n: nat, e: nat, signature: Bytes, h: Hash, mHash: Bytes, saltLen: Option<nat>)
    returns (salt: Bytes, em: Bytes)
    requires h.Valid() && n > 1 && VerifyPss(n, e, signature, h, mHash, saltLen)
    ensures |signature| == KeyBytes(n) && IsBytes(salt) && (saltLen == None || |salt| == saltLen.value)
    ensures PssEncode(h, mHash, EmBits(n), salt) == Some(em) && Pow(Os2ip(signature), e) % n == Os2ip(em)
  {
    hide Hash.Valid, PssVerify, PssEncode, Exp2, BitLength, IsBytes, Pow, Os2ip;
    var emBits, m := EmBits(n), Pow(Os2ip(signature), e) % n;
    Exp2Monotone(emBits, 8 * EmLength(emBits));
    em := ToBytes(m, EmLength(emBits));
    ToBytesRoundTrip(m, EmLength(emBits));
    salt := PssVerifyEncodes(h, em, mHash, saltLen, emBits);
  }

  /** For a sound key the v1.5 signatures of t are exactly those congruent to the private
      power of its encoding, so there is one below the modulus. */
  lemma VerifyV15Iff(k: Key, signature: Bytes, t: Bytes)
    requires Sound(k) && k.n > 1 && k.p > 0 && k.q > 0 && IsBytes(signature) && IsBytes(t)
    ensures VerifyV15(k.n, k.e, signature, t)
       <==> && |signature| == KeyBytes(k.n) && V15Signature(t, KeyBytes(k.n)).Some?
            && Os2ip(signature) % k.n == Pow(Os2ip(V15Signature(t, KeyBytes(k.n)).value), k.d) % k.n
  {
    ModulusSize(k);
    hide Pow, BitLength, Exp2, Os2ip, PrivateNumbers, KeyBytes;
    if |signature| == KeyBytes(k.n) && V15Signature(t, KeyBytes(k.n)).Some? {
      var em := V15Signature(t, KeyBytes(k.n)).value;
      V15Below(k, t, em);
      Os2ipNonNegative(signature);
      OpensIff(k, Os2ip(signature), Os2ip(em));
      V15Compare(k.n, Pow(Os2ip(signature), k.e) % k.n, em);
    }
  }

  lemma V15Below(k: Key, t: Bytes, em: Bytes)
    requires Sound(k) && k.n > 1 && IsBytes(t) && V15Signature(t, KeyBytes(k.n)) == Some(em)
    ensures IsBytes(em) && |em| == KeyBytes(k.n) && 0 <= Os2ip(em) < k.n
  {
    ModulusSize(k);
    hide Sound, BitLength;
    assert Exp2(0) == 1;
    BelowModulus(k.n, em, 0);
  }

  /** Encodings agree as bytes exactly when they do as integers. */
  lemma V15Compare(n: nat, m: nat, em: Bytes)
    requires n > 1 && m < n && IsBytes(em) && |em| == KeyBytes(n)
    ensures em == ToBytes(m, KeyBytes(n)) <==> m == Os2ip(em)
  {
    hide KeyBytes, ToBytes, Os2ip;
    Serialized(n, m);
    Os2ipRoundTrip(em);
  }

  /** The public power of s is m exactly when s is the private power of m, modulo n. */
  lemma OpensIff(k: Key, s: nat, m: nat)
    requires Sound(k) && k.n > 1 && m < k.n
    ensures Pow(s, k.e) % k.n == m <==> s % k.n == Pow(m, k.d) % k.n
  {
    hide PrivateNumbers, Pow;
    SmallMod(m, k.n);
    var x: nat := s % k.n;
    ModMod(s, k.n);
    PowCong(s, x, k.e, k.n);
    if Pow(s, k.e) % k.n == m {
      PublicThenPrivate(k, x);
      PowCong(Pow(x, k.e), m, k.d, k.n);
      SmallMod(x, k.n);
    }
    if s % k.n == Pow(m, k.d) % k.n {
      PublicUndoesPrivate(k, m);
      PowCong(s, Pow(m, k.d), k.e, k.n);
      var y := Pow(m, k.d) % k.n;
      ModMod(Pow(m, k.d), k.n);
      PowCong(y, Pow(m, k.d), k.e, k.n);
    }
  }

  /** Every v1.5 signature verifies. */
  lemma V15SignatureVerifies(k: Key, t: Bytes, r: nat)
    requires Sound(k) && k.n > 1 && k.p > 0 && k.q > 0 && Gcd(r, k.n) == 1 && IsBytes(t)
    requires V15Signature(t, KeyBytes(k.n)).Some?
    ensures SignV15(k, t, r).Some? && VerifyV15(k.n, k.e, SignV15(k, t, r).value, t)
  {
    ModulusSize(k);
    hide Sound, Release, Pow, BitLength;
    var em := V15Signature(t, KeyBytes(k.n)).value;
    BelowModulus(k.n, em, 0);
    ReleaseOpens(k, em, r);
    Os2ipRoundTrip(em);
  }

  // ----- encryption

  /** Decryption gives the block em exactly when em has the size of the key, is below the
      modulus and encrypts to this ciphertext. */
  lemma DecryptIff(k: Key, ciphertext: Bytes, em: Bytes, r: nat)
    requires Sound(k) && k.n > 1 && k.p > 0 && k.q > 0 && Gcd(r, k.n) == 1 && IsBytes(ciphertext) && IsBytes(em)
    ensures Decrypt(k, ciphertext, r) == Some(em)
       <==> |em| == KeyBytes(k.n) && Os2ip(em) < k.n && Encrypt(k.n, k.e, em) == Some(ciphertext)
  {
    hide Sound, Pow, KeyBytes, Release, Os2ip, ToBytes, I2osp, IsBytes;
    Os2ipRoundTrip(ciphertext);
    Os2ipRoundTrip(em);
    if Decrypt(k, ciphertext, r) == Some(em) {
      ReleaseOpens(k, ciphertext, r);
      Serialized(k.n, Os2ip(ciphertext));
    }
    if |em| == KeyBytes(k.n) && Os2ip(em) < k.n && Encrypt(k.n, k.e, em) == Some(ciphertext) {
      Serialized(k.n, Pow(Os2ip(em), k.e) % k.n);
      ReleaseBlock(k, em, ciphertext, r);
    }
  }

  /** OAEP decryption returns m exactly for the ciphertexts that encrypting m gives with some
      seed. */
  lemma OaepIff(k: Key, h: Hash, tag: Bytes, ciphertext: Bytes, m: Bytes, r: nat)
    requires Sound(k) && h.Valid() && k.n > 1 && k.p > 0 && k.q > 0 && Gcd(r, k.n) == 1
    requires IsBytes(ciphertext) && IsBytes(m)
    ensures DecryptOaep(k, h, tag, ciphertext, r) == Some(m)
       <==> exists seed :: IsBytes(seed) && |seed| == h.size && EncryptOaep(k.n, k.e, h, tag, m, seed) == Some(ciphertext)
  {
    hide Sound, Encrypt, Decrypt, OaepDecode, OaepEncode, KeyBytes, Hash.Valid, IsBytes;
    if DecryptOaep(k, h, tag, ciphertext, r) == Some(m) {
      DecryptSize(k, ciphertext, r);
      var em := Decrypt(k, ciphertext, r).value;
      DecryptIff(k, ciphertext, em, r);
      OaepUnique(h, tag, em, m);
      assert EncryptOaep(k.n, k.e, h, tag, m, OaepSeed(h, em)) == Some(ciphertext);
    }
    forall seed | IsBytes(seed) && |seed| == h.size && EncryptOaep(k.n, k.e, h, tag, m, seed) == Some(ciphertext)
      ensures DecryptOaep(k, h, tag, ciphertext, r) == Some(m)
    {
      OaepFits(h, tag, KeyBytes(k.n), m, seed);
      OaepDecrypts(k, h, tag, m, seed, r);
    }
  }

  lemma OaepFits(h: Hash, tag: Bytes, size: nat, m: Bytes, seed: Bytes)
    requires h.Valid() && IsBytes(m) && IsBytes(seed) && |seed| == h.size && OaepEncode(h, tag, size, m, seed).Some?
    ensures |m| <= size - 2 * h.size - 2
  {}

  /** v1.5 decryption returns m exactly for the ciphertexts that encrypting m gives with some
      padding of at least eight bytes, none of them zero. */
  lemma V15Iff(k: Key, ciphertext: Bytes, m: Bytes, r: nat)
    requires Sound(k) && k.n > 1 && k.p > 0 && k.q > 0 && Gcd(r, k.n) == 1 && IsBytes(ciphertext) && IsBytes(m)
    ensures DecryptV15(k, ciphertext, r) == Some(m)
       <==> exists padding :: V15Padding(padding) && EncryptV15(k.n, k.e, padding, m) == Some(ciphertext)
  {
    hide Sound, Encrypt, Decrypt, SplitV15, KeyBytes, IsBytes, V15Padding;
    if DecryptV15(k, ciphertext, r) == Some(m) {
      DecryptSize(k, ciphertext, r);
      var em := Decrypt(k, ciphertext, r).value;
      DecryptIff(k, ciphertext, em, r);
      SplitV15Iff(em, m);
      var padding :| V15Padding(padding) && em == V15Block(padding, m);
      PaddingLong(padding);
      assert EncryptV15(k.n, k.e, padding, m) == Some(ciphertext);
    }
    forall padding | V15Padding(padding) && EncryptV15(k.n, k.e, padding, m) == Some(ciphertext)
      ensures DecryptV15(k, ciphertext, r) == Some(m)
    {
      V15Decrypts(k, padding, m, r);
    }
  }

  lemma PaddingLong(padding: Bytes)
    requires V15Padding(padding)
    ensures |padding| >= 8
  {}

  /** Decryption gives back every block whose first byte is zero. */
  lemma BlockRoundTrip(k: Key, em: Bytes, r: nat)
    requires Sound(k) && k.n > 1 && k.p > 0 && k.q > 0 && Gcd(r, k.n) == 1
    requires IsBytes(em) && |em| == KeyBytes(k.n) && em != [] && em[0] == 0
    ensures Encrypt(k.n, k.e, em).Some?
    ensures Decrypt(k, Encrypt(k.n, k.e, em).value, r) == Some(em)
  {
    ModulusSize(k);
    hide Sound, Rsadp, BitLength, Pow, Exp2, KeyBytes, I2osp, Release;
    BelowModulus(k.n, em, 0) by { assert Exp2(0) == 1; }
    var m: nat := Os2ip(em);
    var c: nat := Pow(m, k.e) % k.n;
    Serialized(k.n, c);
    ReleaseBlock(k, em, ToBytes(c, KeyBytes(k.n)), r);
  }

  /** A residue as bytes of the key size. */
  lemma Serialized(n: nat, c: nat)
    requires c < n
    ensures I2osp(c, KeyBytes(n)) == Some(ToBytes(c, KeyBytes(n)))
    ensures Os2ip(ToBytes(c, KeyBytes(n))) == c && |ToBytes(c, KeyBytes(n))| == KeyBytes(n)
  {
    FitsKey(n, c);
    ToBytesRoundTrip(c, KeyBytes(n));
  }

  lemma ReleaseBlock(k: Key, em: Bytes, ciphertext: Bytes, r: nat)
    requires Sound(k) && k.n > 1 && k.p > 0 && k.q > 0 && Gcd(r, k.n) == 1
    requires IsBytes(em) && |em| == KeyBytes(k.n) && 0 <= Os2ip(em) < k.n
    requires Os2ip(ciphertext) == Pow(Os2ip(em), k.e) % k.n
    ensures Release(k, ciphertext, r) == Some(em)
  {
    hide Sound, Rsadp, Pow, KeyBytes, IsBytes;
    PrivateUndoes(k, Os2ip(em), r);
    Serialized(k.n, Os2ip(em));
    Os2ipRoundTrip(em);
  }

  lemma PrivateUndoes(k: Key, m: nat, r: nat)
    requires Sound(k) && k.n > 1 && k.p > 0 && k.q > 0 && Gcd(r, k.n) == 1 && m < k.n
    ensures Pow(m, k.e) % k.n >= 0 && Rsadp(k, Pow(m, k.e) % k.n, r) == Some(m)
  {
    hide PrivateNumbers, Rsadp;
    PrivateUndoesPublic(k, m, r);
  }

  /** OAEP decryption returns the encrypted message. */
  lemma OaepDecrypts(k: Key, h: Hash, tag: Bytes, message: Bytes, seed: Bytes, r: nat)
    requires Sound(k) && h.Valid() && k.n > 1 && k.p > 0 && k.q > 0 && Gcd(r, k.n) == 1
    requires IsBytes(message) && IsBytes(seed) && |seed| == h.size && |message| <= KeyBytes(k.n) - 2 * h.size - 2
    ensures EncryptOaep(k.n, k.e, h, tag, message, seed).Some?
    ensures DecryptOaep(k, h, tag, EncryptOaep(k.n, k.e, h, tag, message, seed).value, r) == Some(message)
  {
    hide Sound, Encrypt, Decrypt, OaepDecode, BitLength;
    var em := OaepEncode(h, tag, KeyBytes(k.n), message, seed).value;
    OaepRoundTrip(h, tag, KeyBytes(k.n), message, seed, em);
    BlockRoundTrip(k, em, r);
  }

  /** v1.5 decryption returns the encrypted message. */
  lemma V15Decrypts(k: Key, padding: Bytes, message: Bytes, r: nat)
    requires Sound(k) && k.n > 1 && k.p > 0 && k.q > 0 && Gcd(r, k.n) == 1
    requires V15Padding(padding) && IsBytes(message) && |padding| == KeyBytes(k.n) - |message| - 3
    ensures EncryptV15(k.n, k.e, padding, message).Some?
    ensures DecryptV15(k, EncryptV15(k.n, k.e, padding, message).value, r) == Some(message)
  {
    hide Sound, Encrypt, Decrypt, SplitV15, BitLength;
    SplitV15Block(padding, message);
    BlockRoundTrip(k, V15Block(padding, message), r);
  }
}
