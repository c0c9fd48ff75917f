/** AES-GCM over GHASH and the counter mode: encryption and decryption are inverse, and the
    pre-counter block and the tag are those of SP 800-38D. */
module Gcm {
  import opened Options
  import opened AesField
  import opened Aes
  import opened AesModes
  import opened Ghash

  const TWO64: nat := 0x1_0000_0000_0000_0000

  /** int.from_bytes, big-endian. */
  function FromBytes(b: Bytes): nat
  {
    if b == [] then 0 else 256 * FromBytes(b[..|b| - 1]) + b[|b| - 1].v as nat
  }

  /** The bytes of the counter are those it was read from. */
  lemma {:induction false} CounterBytesBack(b: Bytes)
    ensures CounterBytes(FromBytes(b), |b|) == b
  {
    if b != [] {
      var init, last := b[..|b| - 1], b[|b| - 1];
      CounterBytesBack(init);
      SameByte(last.v);
      var v := FromBytes(b);
      assert v / 256 == FromBytes(init) && v % 256 == last.v as nat;
      assert b == init + [last];
    }
  }

  /** _pad16. */
  function Pad16(data: Bytes): (r: Bytes)
    ensures |r| % 16 == 0
  {
    if |data| % 16 == 0 then data else data + Zeros(16 - |data| % 16)
  }

  lemma AddAligned(m: nat, n: nat)
    requires m % 16 == 0 && n % 16 == 0
    ensures (m + n) % 16 == 0
  {}

  /** struct.pack of a length in bits; None when it does not fit eight bytes. */
  function LengthBytes(len: nat): Option<Bytes>
  {
    if 8 * len < TWO64 then Some(CounterBytes(8 * len, 8)) else None
  }

  /** The hash key: the encryption of zero. */
  function HashKey(k: Key): Bits
    requires k.Valid()
  {
    ToBits(k.E(Zeros(16)))
  }

  /** _gcm_j0 for a nonce that passed the length check. */
  function PreCounter(h: Bits, nonce: Bytes): Bytes
  {
    if |nonce| == 12 then nonce + [Zero, Zero, Zero, Unit]
    else ToBlock(GhashFrom(h, Nil(), Pad16(nonce) + CounterBytes(8 * |nonce|, 8)))
  }

  /** Section 7.1 of SP 800-38D: the padded nonce, 64 zero bits and its length in bits. */
  function NonceBlocks(nonce: Bytes): (r: Bytes)
    ensures |r| % 16 == 0
  {
    AddAligned(|Pad16(nonce)|, 16);
    Pad16(nonce) + (Zeros(8) + CounterBytes(8 * |nonce|, 8))
  }

  /** The padded additional data and ciphertext and their lengths in bits. */
  function TagBlocks(aad: Bytes, ciphertext: Bytes): (r: Bytes)
    ensures |r| % 16 == 0
  {
    AddAligned(|Pad16(aad)|, |Pad16(ciphertext)|);
    AddAligned(|Pad16(aad)| + |Pad16(ciphertext)|, 16);
    Pad16(aad) + Pad16(ciphertext) + (CounterBytes(8 * |aad|, 8) + CounterBytes(8 * |ciphertext|, 8))
  }

  /** What the tag hashes; None when a length does not fit. */
  function TagInput(aad: Bytes, ciphertext: Bytes): (r: Option<Bytes>)
    ensures r == if 8 * |aad| < TWO64 && 8 * |ciphertext| < TWO64 then Some(TagBlocks(aad, ciphertext)) else None
  {
    var a :- LengthBytes(|aad|);
    var c :- LengthBytes(|ciphertext|);
    Some(Pad16(aad) + Pad16(ciphertext) + (a + c))
  }

  /** _gcm_auth_tag. */
  function AuthTag(k: Key, j0: nat, aad: Bytes, ciphertext: Bytes): (r: Option<Bytes>)
    requires k.Valid()
    ensures r.Some? ==> |r.value| == 16
  {
    var input :- TagInput(aad, ciphertext);
    Some(CounterMode(k, true, j0, ToBlock(GhashFrom(HashKey(k), Nil(), input))))
  }

  predicate NonceFits(nonce: Bytes) { 1 <= |nonce| < TWO32 }

  /** gcm_encrypt; None for a bad nonce or tag length and for lengths beyond 2^61. */
  function GcmEncrypt(k: Key, nonce: Bytes, plaintext: Bytes, aad: Bytes, tagLength: int): Option<(Bytes, Bytes)>
    requires k.Valid()
  {
    if !NonceFits(nonce) || tagLength < 4 || tagLength > 16 then None
    else
      var j0 := FromBytes(PreCounter(HashKey(k), nonce));
      var ciphertext := CounterMode(k, true, Inc32(j0), plaintext);
      var tag :- AuthTag(k, j0, aad, ciphertext);
      Some((ciphertext, tag[..tagLength]))
  }

  /** gcm_decrypt; None also for a tag that does not match. */
  function GcmDecrypt(k: Key, nonce: Bytes, ciphertext: Bytes, tag: Bytes, aad: Bytes): Option<Bytes>
    requires k.Valid()
  {
    if !NonceFits(nonce) || |tag| < 4 || |tag| > 16 then None
    else
      var j0 := FromBytes(PreCounter(HashKey(k), nonce));
      var expected :- AuthTag(k, j0, aad, ciphertext);
      if expected[..|tag|] != tag then None else Some(CounterMode(k, true, Inc32(j0), ciphertext))
  }

  /** Decryption returns m exactly when encrypting m gives this ciphertext and tag. */
  lemma GcmIff(k: Key, nonce: Bytes, ciphertext: Bytes, tag: Bytes, aad: Bytes, m: Bytes)
    requires k.Valid()
    ensures GcmDecrypt(k, nonce, ciphertext, tag, aad) == Some(m)
       <==> GcmEncrypt(k, nonce, m, aad, |tag|) == Some((ciphertext, tag))
  {
    hide CounterMode, Inc32, AuthTag, PreCounter, FromBytes, Key.Valid, HashKey;
    var c := Inc32(FromBytes(PreCounter(HashKey(k), nonce)));
    CounterModeTwice(k, true, c, ciphertext);
    CounterModeTwice(k, true, c, m);
  }

  // ----- agreement with SP 800-38D

  /** A last piece of eight bytes counts as a block with eight zeros before it. */
  lemma {:induction false} ShortPiece(h: Bits, y: Bits, data: Bytes, piece: Bytes)
    requires |data| % 16 == 0 && |piece| == 8
    ensures GhashFrom(h, y, data + piece) == GhashFrom(h, y, data + (Zeros(8) + piece))
    decreases |data|
  {
    hide GcmMul, Add, ToBits;
    var long := Zeros(8) + piece;
    if data == [] {
      assert [] + piece == piece && [] + long == long && Zeros(0) + long == long;
      assert piece[..8] == piece && piece[8..] == [] && long[..16] == long && long[16..] == [];
    } else {
      var head, rest := data[..16], data[16..];
      assert (data + piece)[..16] == head == (data + long)[..16];
      assert (data + piece)[16..] == rest + piece && (data + long)[16..] == rest + long;
      ShortPiece(h, GcmMul(Add(y, PieceBits(head)), h), rest, piece);
    }
  }

  /** GHASH from zero is the polynomial in the hash key. */
  lemma GhashOf(h: Bits, data: Bytes)
    requires |data| % 16 == 0
    ensures GhashFrom(h, Nil(), data) == GhashSum(h, data)
  {
    hide GcmMul, Add, GhashFrom, GhashSum;
    GhashIsSum(h, Nil(), data);
    GcmMulCommutes(Nil(), HashPow(h, |data| / 16));
    GcmMulLinear(HashPow(h, |data| / 16), Nil(), Nil());
    AddNone(GhashSum(h, data));
  }

  /** Section 7.1 of SP 800-38D: a nonce that is not 96 bits long is padded with zeros, 64
      more and its length, and hashed. */
  lemma PreCounterStandard(h: Bits, nonce: Bytes)
    ensures |nonce| == 12 ==> PreCounter(h, nonce) == nonce + [Zero, Zero, Zero, Unit]
    ensures |nonce| == 12
         || PreCounter(h, nonce) == ToBlock(GhashSum(h, NonceBlocks(nonce)))
  {
    hide GhashFrom, GhashSum, CounterBytes, Pad16, ToBlock;
    ShortPiece(h, Nil(), Pad16(nonce), CounterBytes(8 * |nonce|, 8));
    GhashOf(h, NonceBlocks(nonce));
  }

  /** The tag is the polynomial over data, ciphertext and lengths, encrypted with the first
      counter block. */
  lemma TagStandard(k: Key, j0: Bytes, aad: Bytes, ciphertext: Bytes)
    requires k.Valid() && |j0| == 16 && 8 * |aad| < TWO64 && 8 * |ciphertext| < TWO64
    ensures AuthTag(k, FromBytes(j0), aad, ciphertext)
         == Some(Xor(ToBlock(GhashSum(HashKey(k), TagBlocks(aad, ciphertext))), k.E(j0)))
  {
    hide GhashFrom, GhashSum, TagBlocks, HashKey, Key.Valid, Key.E, Xor, Inc32, ToBlock, CounterMode;
    var input := TagBlocks(aad, ciphertext);
    GhashOf(HashKey(k), input);
    OneBlock(k, j0, ToBlock(GhashSum(HashKey(k), input)));
  }

  /** The counter mode on one block. */
  lemma OneBlock(k: Key, j0: State, block: State)
    requires k.Valid()
    ensures CounterMode(k, true, FromBytes(j0), block) == Xor(block, k.E(j0))
  {
    hide Xor, Key.E, Key.Valid, NextCounter;
    CounterBytesBack(j0);
    assert block[..16] == block && block[16..] == [];
    assert k.E(j0)[..16] == k.E(j0);
    var next := NextCounter(true, FromBytes(j0));
    assert CounterMode(k, true, next, []) == [];
    assert Xor(block, k.E(j0)) + [] == Xor(block, k.E(j0));
  }

  // ----- the methods

  method PreCounterOf(h: Bits, nonce: Bytes) returns (j0: Bytes)
    ensures j0 == PreCounter(h, nonce)
  {
    hide GhashFrom;
    if |nonce| == 12 {
      j0 := nonce + [Zero, Zero, Zero, Unit];
    } else {
      var y := HashBlocks(h, Pad16(nonce) + CounterBytes(8 * |nonce|, 8));
      j0 := ToBlock(y);
    }
  }

  method AuthTagOf(cipher: Cipher, h: Bits, j0: nat, aad: Bytes, ciphertext: Bytes) returns (tag: Option<Bytes>)
    requires cipher.Valid() && h == HashKey(Key(cipher.t, cipher.words, cipher.nr))
    ensures tag == AuthTag(Key(cipher.t, cipher.words, cipher.nr), j0, aad, ciphertext)
  {
    hide GhashFrom, CounterMode, HashKey;
    var input := TagInput(aad, ciphertext);
    if input == None {
      return None;
    }
    var s := HashBlocks(h, input.value);
    var out := CounterModeLoop(cipher, true, j0, ToBlock(s));
    tag := Some(out);
  }

  /** gcm_encrypt under an expanded key. */
  method Seal(cipher: Cipher, nonce: Bytes, plaintext: Bytes, aad: Bytes, tagLength: int)
    returns (r: Option<(Bytes, Bytes)>)
    requires cipher.Valid()
    ensures r == GcmEncrypt(Key(cipher.t, cipher.words, cipher.nr), nonce, plaintext, aad, tagLength)
  {
    hide CounterMode, AuthTag, PreCounter, FromBytes, Inc32;
    if !NonceFits(nonce) || tagLength < 4 || tagLength > 16 {
      return None;
    }
    var zero := cipher.EncryptBlock(Zeros(16));
    var h := ToBits(zero);
    var j0 := PreCounterOf(h, nonce);
    var ciphertext := CounterModeLoop(cipher, true, Inc32(FromBytes(j0)), plaintext);
    var tag := AuthTagOf(cipher, h, FromBytes(j0), aad, ciphertext);
    r := if tag == None then None else Some((ciphertext, tag.value[..tagLength]));
  }

  /** gcm_decrypt under an expanded key: the tag is compared before anything is decrypted. */
  method Unseal(cipher: Cipher, nonce: Bytes, ciphertext: Bytes, tag: Bytes, aad: Bytes)
    returns (r: Option<Bytes>)
    requires cipher.Valid()
    ensures r == GcmDecrypt(Key(cipher.t, cipher.words, cipher.nr), nonce, ciphertext, tag, aad)
  {
    hide CounterMode, AuthTag, PreCounter, FromBytes, Inc32;
    if !NonceFits(nonce) || |tag| < 4 || |tag| > 16 {
      return None;
    }
    var zero := cipher.EncryptBlock(Zeros(16));
    var h := ToBits(zero);
    var j0 := PreCounterOf(h, nonce);
    var expected := AuthTagOf(cipher, h, FromBytes(j0), aad, ciphertext);
    if expected == None || expected.value[..|tag|] != tag {
      return None;
    }
    var m := CounterModeLoop(cipher, true, Inc32(FromBytes(j0)), ciphertext);
    r := Some(m);
  }
}
