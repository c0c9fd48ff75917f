/** The padding codecs of RFC 8017 as rsa.py computes them: EMSA-PSS, EME-OAEP and the
    v1.5 paddings.  Each decoder accepts exactly what its encoder can produce. */
module RsaPadding {
  import opened Options
  import opened ModArith
  import opened Octets

  /** A hash function with digests of size bytes. */
  datatype Hash = Hash(size: nat, digest: Bytes -> Bytes) {
    ghost predicate Valid()
    {
      size >= 1 && forall s :: |digest(s)| == size && IsBytes(digest(s))
    }
  }

  // ----- mgf1

  /** The first n blocks of the mask generator. */
  function MaskBlocks(h: Hash, seed: Bytes, n: nat): (r: Bytes)
    requires h.Valid()
    ensures |r| == n * h.size && IsBytes(r)
  {
    if n == 0 then []
    else
      assert n * h.size == (n - 1) * h.size + h.size;
      MaskBlocks(h, seed, n - 1) + h.digest(seed + ToBytes(n - 1, 4))
  }

  function CeilDiv(a: nat, b: nat): (r: nat)
    requires b >= 1
    ensures a <= r * b < a + b
  {
    Ceiling(a, b);
    (a + b - 1) / b
  }

  lemma Ceiling(a: nat, b: nat)
    requires b >= 1
    ensures (a + b - 1) / b >= 0 && a <= (a + b - 1) / b * b < a + b
  {
    var x := a + b - 1;
    assert x == b * (x / b) + x % b;
  }

  /** mgf1 for lengths that are not negative. */
  function Mgf1(h: Hash, seed: Bytes, length: nat): (r: Bytes)
    requires h.Valid()
    ensures |r| == length && IsBytes(r)
  {
    MaskBlocks(h, seed, CeilDiv(length, h.size))[..length]
  }

  const COUNTER_LIMIT: nat := 0x1_0000_0000

  /** The counter of every block fits four bytes. */
  predicate MaskFits(h: Hash, length: nat)
    requires h.size >= 1
  {
    CeilDiv(length, h.size) <= COUNTER_LIMIT
  }

  /** The loop of mgf1; None for a negative length and for a counter that overflows. */
  method MaskGeneration(h: Hash, seed: Bytes, length: int) returns (r: Option<Bytes>)
    requires h.Valid()
    ensures r == if length < 0 || !MaskFits(h, length) then None else Some(Mgf1(h, seed, length))
  {
    if length < 0 {
      return None;
    }
    var out: Bytes := [];
    var counter := 0;
    while counter < CeilDiv(length, h.size)
      invariant 0 <= counter <= CeilDiv(length, h.size) && out == MaskBlocks(h, seed, counter)
      invariant counter <= COUNTER_LIMIT
    {
      if counter >= COUNTER_LIMIT {
        return None;
      }
      out := out + h.digest(seed + ToBytes(counter, 4));
      counter := counter + 1;
    }
    r := Some(out[..length]);
  }

  // ----- scanning for the separator

  /** The first position from which on a byte satisfies the test, or -1. */
  function Find(s: Bytes, from: nat, test: int -> bool): (sep: int)
    requires from <= |s|
    ensures sep == -1 || from <= sep < |s|
    ensures sep >= 0 ==> test(s[sep]) && forall j :: from <= j < sep ==> !test(s[j])
    ensures sep < 0 ==> forall j :: from <= j < |s| ==> !test(s[j])
    decreases |s| - from
  {
    if from == |s| then -1
    else if test(s[from]) then from
    else Find(s, from + 1, test)
  }

  const NonZero: int -> bool := (x: int) => x != 0
  const IsZero: int -> bool := (x: int) => x == 0

  /** The scan over the whole buffer that remembers the first hit. */
  method Scan(s: Bytes, from: nat, test: int -> bool) returns (sep: int)
    requires from <= |s|
    ensures sep == Find(s, from, test)
  {
    sep := -1;
    var i := from;
    while i < |s|
      invariant from <= i <= |s|
      invariant sep == -1 ==> forall j :: from <= j < i ==> !test(s[j])
      invariant sep != -1 ==> from <= sep < i && test(s[sep]) && forall j :: from <= j < sep ==> !test(s[j])
    {
      if test(s[i]) && sep < 0 {
        sep := i;
      }
      i := i + 1;
    }
    FindUnique(s, from, test, sep);
  }

  lemma FindUnique(s: Bytes, from: nat, test: int -> bool, sep: int)
    requires from <= |s|
    requires sep == -1 ==> forall j :: from <= j < |s| ==> !test(s[j])
    requires sep != -1 ==> from <= sep < |s| && test(s[sep]) && forall j :: from <= j < sep ==> !test(s[j])
    ensures sep == Find(s, from, test)
  {
    var f := Find(s, from, test);
    if f >= 0 && sep >= 0 && f != sep {
      assert false;
    }
  }

  // ----- the data block 0 ... 0 1 rest, shared by PSS and OAEP

  function DataBlock(zeros: nat, rest: Bytes): (db: Bytes)
    ensures |db| == zeros + 1 + |rest|
  {
    Zeros(zeros) + [1] + rest
  }

  /** What follows the separator, if the block from position from on has that form. */
  function AfterSeparator(db: Bytes, from: nat): (r: Option<Bytes>)
    requires from <= |db|
    ensures r.Some? ==> |r.value| < |db| - from
  {
    var sep := Find(db, from, NonZero);
    if sep < 0 || db[sep] != 1 then None else Some(db[sep + 1..])
  }

  lemma SeparatorIff(db: Bytes, from: nat, rest: Bytes)
    requires from <= |db|
    ensures AfterSeparator(db, from) == Some(rest)
       <==> |rest| < |db| - from && db[from..] == DataBlock(|db| - from - 1 - |rest|, rest)
  {
    var sep := Find(db, from, NonZero);
    if AfterSeparator(db, from) == Some(rest) {
      assert db[from..] == db[from..sep] + [db[sep]] + db[sep + 1..];
      assert db[from..sep] == Zeros(sep - from);
    }
    if |rest| < |db| - from && db[from..] == DataBlock(|db| - from - 1 - |rest|, rest) {
      SeparatorAt(db, from, rest);
    }
  }

  lemma SeparatorAt(db: Bytes, from: nat, rest: Bytes)
    requires from <= |db| && |rest| < |db| - from && db[from..] == DataBlock(|db| - from - 1 - |rest|, rest)
    ensures AfterSeparator(db, from) == Some(rest)
  {
    var z := |db| - from - 1 - |rest|;
    assert forall j :: from <= j < from + z ==> db[j] == db[from..][j - from] == 0;
    assert db[from + z] == db[from..][z] == 1;
    FindUnique(db, from, NonZero, from + z);
    assert db[from + z + 1..] == db[from..][z + 1..] == rest;
  }

  // ----- EMSA-PSS

  const TRAILER: int := 0xBC

  function EmLength(emBits: nat): nat { (emBits + 7) / 8 }

  /** How many bits of the first byte are used. */
  function UsedBits(emBits: nat): int { 8 - (8 * EmLength(emBits) - emBits) }

  lemma UsedBitsRange(emBits: nat)
    ensures 1 <= UsedBits(emBits) <= 8 && emBits == UsedBits(emBits) + 8 * (EmLength(emBits) - 1)
  {}

  function PssDigest(h: Hash, mHash: Bytes, salt: Bytes): Bytes { h.digest(Zeros(8) + mHash + salt) }

  /** _emsa_pss_encode with the drawn salt. */
  function PssEncode(h: Hash, mHash: Bytes, emBits: nat, salt: Bytes): Option<Bytes>
    requires h.Valid() && IsBytes(salt)
  {
    var emLen := EmLength(emBits);
    if emLen < h.size + |salt| + 2 then None
    else
      var hh := PssDigest(h, mHash, salt);
      var db := DataBlock(emLen - |salt| - h.size - 2, salt);
      UsedBitsRange(emBits);
      Some(ClearTop(XorBytes(db, Mgf1(h, hh, emLen - h.size - 1)), UsedBits(emBits)) + hh + [TRAILER])
  }

  /** _emsa_pss_verify. */
  predicate PssVerify(h: Hash, em: Bytes, mHash: Bytes, saltLen: Option<nat>, emBits: nat)
    requires h.Valid() && IsBytes(em) && |em| == EmLength(emBits)
  {
    if |em| < h.size + 2 || em[|em| - 1] != TRAILER then false
    else
      UsedBitsRange(emBits);
      var maskedDb, hh := em[..|em| - h.size - 1], em[|em| - h.size - 1..|em| - 1];
      if maskedDb[0] >= Exp2(UsedBits(emBits)) then false
      else match AfterSeparator(PssUnmask(h, maskedDb, hh, UsedBits(emBits)), 0)
        case None => false
        case Some(salt) =>
          (saltLen == None || |salt| == saltLen.value) && hh == PssDigest(h, mHash, salt)
  }

  function PssUnmask(h: Hash, maskedDb: Bytes, hh: Bytes, used: nat): (db: Bytes)
    requires h.Valid() && IsBytes(maskedDb) && maskedDb != [] && used <= 8
    ensures |db| == |maskedDb| && IsBytes(db)
  {
    ClearTop(XorBytes(maskedDb, Mgf1(h, hh, |maskedDb|)), used)
  }

  /** em is the encoding of mHash with some salt of the wanted length. */
  ghost predicate PssEncoding(h: Hash, em: Bytes, mHash: Bytes, saltLen: Option<nat>, emBits: nat)
    requires h.Valid()
  {
    exists salt: Bytes :: IsBytes(salt) && (saltLen == None || |salt| == saltLen.value)
                          && PssEncode(h, mHash, emBits, salt) == Some(em)
  }

  /** A small first byte is unchanged by clearing. */
  lemma ClearNothing(s: Bytes, k: nat)
    requires s != [] && IsBytes(s) && k <= 8 && s[0] < Exp2(k)
    ensures ClearTop(s, k) == s
  {
    hide Exp2;
    SmallRemainder(s[0], Exp2(k));
  }

  lemma SmallRemainder(x: nat, m: nat)
    requires x < m
    ensures x % m == x
  {}

  lemma DataBlockSmall(zeros: nat, rest: Bytes, k: nat)
    requires IsBytes(rest) && 1 <= k <= 8
    ensures IsBytes(DataBlock(zeros, rest)) && ClearTop(DataBlock(zeros, rest), k) == DataBlock(zeros, rest)
  {
    assert Exp2(k) >= 2;
    ClearNothing(DataBlock(zeros, rest), k);
  }

  /** Every encoding verifies, also when the first byte is fully used. */
  lemma PssEncodeVerifies(h: Hash, mHash: Bytes, emBits: nat, salt: Bytes, saltLen: Option<nat>, em: Bytes)
    requires h.Valid() && IsBytes(salt) && PssEncode(h, mHash, emBits, salt) == Some(em)
    requires saltLen == None || |salt| == saltLen.value
    ensures IsBytes(em) && |em| == EmLength(emBits) >= h.size + 2 && em[0] < Exp2(UsedBits(emBits))
    ensures PssVerify(h, em, mHash, saltLen, emBits)
  {
    hide XorBytes, Mgf1, AfterSeparator, Hash.Valid;
    UsedBitsRange(emBits);
    var used, hh := UsedBits(emBits), PssDigest(h, mHash, salt);
    PssDigestSize(h, mHash, salt);
    var z: nat := EmLength(emBits) - |salt| - h.size - 2;
    var db := DataBlock(z, salt);
    DataBlockSmall(z, salt, used);
    var mask := Mgf1(h, hh, |db|);
    var masked := ClearTop(XorBytes(db, mask), used);
    assert em[..|em| - h.size - 1] == masked && em[|em| - h.size - 1..|em| - 1] == hh;
    UnmaskCleared(db, mask, used);
    SeparatorIff(db, 0, salt);
    assert db[0..] == db;
    LowBelow(XorBytes(db, mask)[0], Exp2(used));
  }

  lemma PssDigestSize(h: Hash, mHash: Bytes, salt: Bytes)
    requires h.Valid()
    ensures |PssDigest(h, mHash, salt)| == h.size && IsBytes(PssDigest(h, mHash, salt))
  {}

  /** Everything that verifies is an encoding. */
  lemma PssVerifyEncodes(h: Hash, em: Bytes, mHash: Bytes, saltLen: Option<nat>, emBits: nat) returns (salt: Bytes)
    requires h.Valid() && IsBytes(em) && |em| == EmLength(emBits) && PssVerify(h, em, mHash, saltLen, emBits)
    ensures IsBytes(salt) && (saltLen == None || |salt| == saltLen.value)
    ensures PssEncode(h, mHash, emBits, salt) == Some(em)
  {
    hide XorBytes, Mgf1, AfterSeparator, Hash.Valid, PssDigest;
    UsedBitsRange(emBits);
    var used := UsedBits(emBits);
    var maskedDb, hh := em[..|em| - h.size - 1], em[|em| - h.size - 1..|em| - 1];
    var db := PssUnmask(h, maskedDb, hh, used);
    salt := AfterSeparator(db, 0).value;
    SeparatorIff(db, 0, salt);
    assert db[0..] == db;
    assert IsBytes(salt) by { SuffixBytes(db, salt); }
    var mask := Mgf1(h, hh, |maskedDb|);
    UnmaskCleared(maskedDb, mask, used);
    ClearNothing(maskedDb, used);
    assert em == maskedDb + hh + [TRAILER];
  }

  lemma SuffixBytes(db: Bytes, rest: Bytes)
    requires IsBytes(db) && |rest| < |db| && db == DataBlock(|db| - 1 - |rest|, rest)
    ensures IsBytes(rest)
  {
    assert rest == db[|db| - |rest|..];
  }

  /** PSS verification accepts exactly the PSS encodings. */
  lemma PssVerifyIff(h: Hash, em: Bytes, mHash: Bytes, saltLen: Option<nat>, emBits: nat)
    requires h.Valid() && IsBytes(em) && |em| == EmLength(emBits)
    ensures PssVerify(h, em, mHash, saltLen, emBits) <==> PssEncoding(h, em, mHash, saltLen, emBits)
  {
    hide PssVerify, PssEncode, Hash.Valid;
    if PssVerify(h, em, mHash, saltLen, emBits) {
      var salt := PssVerifyEncodes(h, em, mHash, saltLen, emBits);
    }
    if PssEncoding(h, em, mHash, saltLen, emBits) {
      var salt: Bytes :| IsBytes(salt) && (saltLen == None || |salt| == saltLen.value)
                         && PssEncode(h, mHash, emBits, salt) == Some(em);
      PssEncodeVerifies(h, mHash, emBits, salt, saltLen, em);
    }
  }

  // ----- EME-OAEP

  /** _eme_oaep_encode with the drawn seed, after the length check of encrypt_oaep. */
  function OaepEncode(h: Hash, tag: Bytes, k: nat, message: Bytes, seed: Bytes): Option<Bytes>
    requires h.Valid() && IsBytes(message) && IsBytes(seed) && |seed| == h.size
  {
    if |message| > k - 2 * h.size - 2 then None
    else
      var db := h.digest(tag) + DataBlock(k - |message| - 2 * h.size - 2, message);
      var maskedDb := XorBytes(db, Mgf1(h, seed, k - h.size - 1));
      Some([0] + XorBytes(seed, Mgf1(h, maskedDb, h.size)) + maskedDb)
  }

  /** _eme_oaep_decode. */
  function OaepDecode(h: Hash, tag: Bytes, em: Bytes): Option<Bytes>
    requires h.Valid() && IsBytes(em) && |em| >= 2 * h.size + 2
  {
    var maskedDb := em[1 + h.size..];
    var seed := OaepSeed(h, em);
    var db := XorBytes(maskedDb, Mgf1(h, seed, |em| - h.size - 1));
    if em[0] != 0 || db[..h.size] != h.digest(tag) then None
    else AfterSeparator(db, h.size)
  }

  function OaepSeed(h: Hash, em: Bytes): (seed: Bytes)
    requires h.Valid() && IsBytes(em) && |em| >= 2 * h.size + 2
    ensures |seed| == h.size && IsBytes(seed)
  {
    XorBytes(em[1..1 + h.size], Mgf1(h, em[1 + h.size..], h.size))
  }

  /** Decoding returns the encoded message. */
  lemma OaepRoundTrip(h: Hash, tag: Bytes, k: nat, message: Bytes, seed: Bytes, em: Bytes)
    requires h.Valid() && IsBytes(message) && IsBytes(seed) && |seed| == h.size
    requires OaepEncode(h, tag, k, message, seed) == Some(em)
    ensures IsBytes(em) && |em| == k >= 2 * h.size + 2 && em[0] == 0
    ensures OaepDecode(h, tag, em) == Some(message)
  {
    hide XorBytes, Mgf1, AfterSeparator;
    var lHash := h.digest(tag);
    var db := lHash + DataBlock(k - |message| - 2 * h.size - 2, message);
    var mask := Mgf1(h, seed, k - h.size - 1);
    var maskedDb := XorBytes(db, mask);
    var seedMask := Mgf1(h, maskedDb, h.size);
    assert em[1..1 + h.size] == XorBytes(seed, seedMask) && em[1 + h.size..] == maskedDb;
    XorBytesTwice(seed, seedMask);
    XorBytesTwice(db, mask);
    assert db[..h.size] == lHash && db[h.size..] == DataBlock(k - |message| - 2 * h.size - 2, message);
    SeparatorIff(db, h.size, message);
  }

  /** Only encodings decode. */
  lemma OaepUnique(h: Hash, tag: Bytes, em: Bytes, message: Bytes)
    requires h.Valid() && IsBytes(em) && |em| >= 2 * h.size + 2 && OaepDecode(h, tag, em) == Some(message)
    ensures IsBytes(message) && OaepEncode(h, tag, |em|, message, OaepSeed(h, em)) == Some(em)
  {
    hide XorBytes, Mgf1, AfterSeparator;
    var maskedSeed, maskedDb, seed := em[1..1 + h.size], em[1 + h.size..], OaepSeed(h, em);
    var mask := Mgf1(h, seed, |em| - h.size - 1);
    var db := XorBytes(maskedDb, mask);
    SeparatorIff(db, h.size, message);
    SuffixBytes(db[h.size..], message);
    assert db == db[..h.size] + db[h.size..];
    XorBytesTwice(maskedDb, mask);
    XorBytesTwice(maskedSeed, Mgf1(h, maskedDb, h.size));
    assert em == [em[0]] + maskedSeed + maskedDb;
  }

  // ----- v1.5 encryption padding

  /** encrypt_v15 before the public operation, with the drawn padding string. */
  function V15Block(padding: Bytes, message: Bytes): Bytes
  {
    [0, 2] + padding + [0] + message
  }

  /** At least eight bytes, none of them zero. */
  ghost predicate V15Padding(padding: Bytes)
  {
    |padding| >= 8 && IsBytes(padding) && forall i :: 0 <= i < |padding| ==> padding[i] != 0
  }

  /** _split_v15_padding. */
  function SplitV15(em: Bytes): Option<Bytes>
  {
    if |em| < 2 then None
    else
      var sep := Find(em, 2, IsZero);
      if sep < 0 || sep - 2 < 8 then None
      else if |em| >= 11 && em[0] == 0 && em[1] == 2 then Some(em[sep + 1..])
      else None
  }

  /** Splitting succeeds exactly on padded blocks, and returns their message. */
  lemma SplitV15Iff(em: Bytes, message: Bytes)
    requires IsBytes(em)
    ensures SplitV15(em) == Some(message) <==> exists padding :: V15Padding(padding) && em == V15Block(padding, message)
  {
    if SplitV15(em) == Some(message) {
      var sep := Find(em, 2, IsZero);
      var padding := em[2..sep];
      assert em == [em[0], em[1]] + padding + [em[sep]] + em[sep + 1..];
      assert V15Padding(padding) && em == V15Block(padding, message);
    }
    if exists padding :: V15Padding(padding) && em == V15Block(padding, message) {
      var padding :| V15Padding(padding) && em == V15Block(padding, message);
      SplitV15Block(padding, message);
    }
  }

  lemma SplitV15Block(padding: Bytes, message: Bytes)
    requires V15Padding(padding)
    ensures SplitV15(V15Block(padding, message)) == Some(message)
  {
    var em, sep := V15Block(padding, message), 2 + |padding|;
    assert em[sep] == 0 && em[sep + 1..] == message;
    assert forall j :: 2 <= j < sep ==> em[j] == padding[j - 2];
    FindUnique(em, 2, IsZero, sep);
  }

  // ----- v1.5 signature padding

  /** _emsa_v15_encode for the DigestInfo t; None when the key is too small. */
  function V15Signature(t: Bytes, emLen: nat): Option<Bytes>
  {
    if emLen < |t| + 11 then None
    else Some([0, 1] + seq(emLen - |t| - 3, i => 0xFF) + [0] + t)
  }
}
