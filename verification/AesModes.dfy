/** PKCS#7 padding, CBC and the counter modes over the AES block cipher. */
module AesModes {
  import opened Options
  import opened ModArith
  import opened AesField
  import opened Aes

  type Bytes = seq<Byte>

  /** The cipher under one expanded key. */
  datatype Key = Key(t: Tables, words: seq<Word>, nr: nat) {
    ghost predicate Valid() { t.Valid() && Schedule(words, nr) }

    function E(block: State): State
      requires Valid()
    {
      Encrypt(t, words, nr, block)
    }

    function D(block: State): State
      requires Valid()
    {
      Decrypt(t, words, nr, block)
    }
  }

  lemma BlocksInverse(k: Key, block: State)
    requires k.Valid()
    ensures k.D(k.E(block)) == block && k.E(k.D(block)) == block
  {
    hide Encrypt, Decrypt;
    DecryptEncrypt(k.t, k.words, k.nr, block);
    EncryptDecrypt(k.t, k.words, k.nr, block);
  }

  /** Every key of 16, 24 or 32 bytes gives a valid schedule, so its block functions are
      inverse to each other. */
  lemma BlockRoundTrip(t: Tables, key: Bytes, block: State)
    requires t.Valid() && |key| in {16, 24, 32}
    ensures ExpandKey(t, key).Some?
    ensures var (words, nr) := ExpandKey(t, key).value;
            var k := Key(t, words, nr);
            k.Valid() && k.D(k.E(block)) == block && k.E(k.D(block)) == block
  {
    hide Encrypt, Decrypt, Expand;
    var (words, nr) := ExpandKey(t, key).value;
    BlocksInverse(Key(t, words, nr), block);
  }

  // ----- exclusive or of byte strings

  function Xor(a: Bytes, b: Bytes): (r: Bytes)
    requires |a| == |b|
    ensures |r| == |a|
  {
    seq(|a|, i requires 0 <= i < |a| => Plus(a[i], b[i]))
  }

  lemma XorTwice(a: Bytes, b: Bytes)
    requires |a| == |b|
    ensures Xor(Xor(a, b), b) == a
  {
    hide Plus;
    forall i | 0 <= i < |a| ensures Xor(Xor(a, b), b)[i] == a[i] {
      PlusAssociates(a[i], b[i], b[i]);
      PlusZero(b[i]);
      PlusZero(a[i]);
    }
  }

  // ----- PKCS#7

  /** pkcs7_pad; None for a block size out of range. */
  function Pad(data: Bytes, size: int): Option<Bytes>
  {
    if size < 1 || size > 255 then None
    else
      var n := size - |data| % size;
      Some(data + seq(n, i => B(n as bv8)))
  }

  /** pkcs7_unpad; None for malformed padding or a block size out of range. */
  function Unpad(data: Bytes, size: int): Option<Bytes>
  {
    if size < 1 || size > 255 || data == [] || |data| % size != 0 then None
    else
      var n := data[|data| - 1].v as int;
      if n < 1 || n > size || n > |data| || exists i :: |data| - n <= i < |data| && data[i].v as int != n then None
      else Some(data[..|data| - n])
  }

  /** The scan of the last block that accumulates mismatches. */
  method UnpadScan(data: Bytes, size: int) returns (r: Option<Bytes>)
    ensures r == Unpad(data, size)
  {
    if size < 1 || size > 255 || data == [] || |data| % size != 0 {
      return None;
    }
    BlockFits(|data|, size);
    var n := data[|data| - 1].v as int;
    var bad := n < 1 || n > size;
    var first := |data| - size;
    var i := 0;
    while i < size
      invariant 0 <= i <= size
      invariant bad <==> n < 1 || n > size || exists j :: |data| - n <= j < first + i && first <= j && data[j].v as int != n
    {
      if i >= size - n && data[first + i].v as int != n {
        bad := true;
      }
      i := i + 1;
    }
    r := if bad then None else Some(data[..|data| - n]);
  }

  lemma BlockFits(len: nat, size: nat)
    requires size >= 1 && len > 0 && len % size == 0
    ensures size <= len
  {
    if len < size && size > 1 {
      RemainderUnique(0, len, size);
    }
  }

  /** Unpadding succeeds exactly on padded data. */
  lemma UnpadIff(data: Bytes, size: int, m: Bytes)
    requires 1 <= size <= 255
    ensures Unpad(data, size) == Some(m) <==> Pad(m, size) == Some(data)
  {
    if Unpad(data, size) == Some(m) {
      UnpadPads(data, size, m);
    }
    if Pad(m, size) == Some(data) {
      PadUnpads(data, size, m);
    }
  }

  lemma PadUnpads(data: Bytes, size: nat, m: Bytes)
    requires 1 <= size <= 255 && Pad(m, size) == Some(data)
    ensures Unpad(data, size) == Some(m)
  {
    hide Unpad;
    var n: nat := size - |m| % size;
    PaddedLength(|m|, size);
    ByteRoundTrip(n);
    UnpadRepeated(m, n, B(n as bv8), size);
  }

  lemma UnpadRepeated(m: Bytes, n: nat, b: Byte, size: nat)
    requires 1 <= n <= size <= 255 && b.v as int == n && (|m| + n) % size == 0
    ensures Unpad(m + seq(n, i => b), size) == Some(m)
  {
    var data := m + seq(n, i => b);
    assert forall i :: |m| <= i < |data| ==> data[i] == b;
    assert data[..|data| - n] == m;
  }

  lemma PaddedLength(len: nat, size: nat)
    requires size >= 1
    ensures 1 <= size - len % size <= size && (len + (size - len % size)) % size == 0
  {
    var q := len / size;
    assert len + (size - len % size) == (q + 1) * size;
    MultipleIsZero(q + 1, size);
  }

  lemma MultipleIsZero(q: nat, size: nat)
    requires size >= 1
    ensures q * size % size == 0
  {
    if size > 1 {
      RemainderUnique(q, 0, size);
    }
  }

  lemma UnpadPads(data: Bytes, size: nat, m: Bytes)
    requires 1 <= size <= 255 && Unpad(data, size) == Some(m)
    ensures Pad(m, size) == Some(data)
  {
    var n: nat := data[|data| - 1].v as int;
    ByteRoundTrip(n);
    LengthFixesPad(|m|, n, size);
    assert data == m + data[|m|..];
    forall i | |m| <= i < |data| ensures data[i] == B(n as bv8) {
      ByteInjective(data[i].v, n as bv8);
    }
    assert data[|m|..] == seq(n, i => B(n as bv8));
  }

  lemma LengthFixesPad(len: nat, n: nat, size: nat)
    requires 1 <= n <= size && (len + n) % size == 0
    ensures n == size - len % size
  {
    var q := (len + n) / size;
    assert len + n == q * size;
    if n == size {
      assert len == (q - 1) * size;
      MultipleIsZero(if q >= 1 then q - 1 else 0, size);
    } else {
      RemainderOf(len, q, size, n);
    }
  }

  lemma RemainderOf(len: nat, q: int, size: nat, n: nat)
    requires 1 <= n < size && len + n == q * size
    ensures len % size == size - n
  {
    assert len == (q - 1) * size + (size - n);
    RemainderUnique(q - 1, size - n, size);
  }

  // ----- CBC

  /** The chaining of cbc_encrypt from one block on, with the previous ciphertext block. */
  function CbcEncrypt(k: Key, prev: State, data: Bytes): (r: Bytes)
    requires k.Valid() && |data| % 16 == 0
    ensures |r| == |data|
    decreases |data|
  {
    if data == [] then []
    else
      var c := k.E(Xor(data[..16], prev));
      c + CbcEncrypt(k, c, data[16..])
  }

  /** The chaining of cbc_decrypt from one block on. */
  function CbcDecrypt(k: Key, prev: State, data: Bytes): (r: Bytes)
    requires k.Valid() && |data| % 16 == 0
    ensures |r| == |data|
    decreases |data|
  {
    if data == [] then []
    else Xor(k.D(data[..16]), prev) + CbcDecrypt(k, data[..16], data[16..])
  }

  function BlockAt(data: Bytes, i: nat): State
    requires 16 * (i + 1) <= |data|
  {
    data[16 * i..16 * (i + 1)]
  }

  /** Block i of a CBC ciphertext is the encryption of block i of the data combined with the
      ciphertext block before it, or with the vector for the first. */
  lemma {:induction false} CbcBlock(k: Key, iv: State, data: Bytes, i: nat)
    requires k.Valid() && |data| % 16 == 0 && 16 * (i + 1) <= |data|
    ensures var c := CbcEncrypt(k, iv, data);
            BlockAt(c, i) == k.E(Xor(BlockAt(data, i), if i == 0 then iv else BlockAt(c, i - 1)))
    decreases |data|
  {
    hide Xor, Key.E, Key.Valid;
    var head: State := k.E(Xor(data[..16], iv));
    var rest := CbcEncrypt(k, head, data[16..]);
    var c := CbcEncrypt(k, iv, data);
    assert c == head + rest;
    if i == 0 {
      assert BlockAt(c, 0) == head;
    } else {
      CbcBlock(k, head, data[16..], i - 1);
      assert data == data[..16] + data[16..];
      BlockBehind(head, rest, i);
      BlockBehind(data[..16], data[16..], i);
      if i == 1 {
        assert BlockAt(c, 0) == head;
      } else {
        BlockBehind(head, rest, i - 1);
      }
    }
  }

  lemma BlockBehind(head: Bytes, rest: Bytes, i: nat)
    requires |head| == 16 && i >= 1 && 16 * i <= |rest|
    ensures BlockAt(head + rest, i) == BlockAt(rest, i - 1)
  {}

  /** CBC decryption undoes CBC encryption. */
  lemma {:induction false} CbcRoundTrip(k: Key, prev: State, data: Bytes)
    requires k.Valid() && |data| % 16 == 0
    ensures CbcDecrypt(k, prev, CbcEncrypt(k, prev, data)) == data
    decreases |data|
  {
    if data != [] {
      hide Xor, Key.E, Key.D, Key.Valid;
      var head: State := data[..16];
      var c := k.E(Xor(head, prev));
      BlocksInverse(k, Xor(head, prev));
      XorTwice(head, prev);
      CbcRoundTrip(k, c, data[16..]);
      var out := CbcEncrypt(k, prev, data);
      assert out[..16] == c && out[16..] == CbcEncrypt(k, c, data[16..]);
      assert data == head + data[16..];
    }
  }

  /** CBC encryption undoes CBC decryption. */
  lemma {:induction false} CbcBack(k: Key, prev: State, data: Bytes)
    requires k.Valid() && |data| % 16 == 0
    ensures CbcEncrypt(k, prev, CbcDecrypt(k, prev, data)) == data
    decreases |data|
  {
    if data != [] {
      hide Xor, Key.E, Key.D, Key.Valid;
      var c: State := data[..16];
      var plain := k.D(c);
      BlocksInverse(k, c);
      XorTwice(plain, prev);
      CbcBack(k, c, data[16..]);
      var out := CbcDecrypt(k, prev, data);
      assert out[..16] == Xor(plain, prev) && out[16..] == CbcDecrypt(k, c, data[16..]);
      assert data == c + data[16..];
    }
  }

  /** cbc_encrypt; None for a bad vector or data that is not a number of blocks. */
  function CbcSeal(k: Key, iv: Bytes, data: Bytes): Option<Bytes>
    requires k.Valid()
  {
    if |iv| != 16 || |data| % 16 != 0 then None else Some(CbcEncrypt(k, iv, data))
  }

  /** cbc_decrypt, with the same failures. */
  function CbcOpen(k: Key, iv: Bytes, data: Bytes): Option<Bytes>
    requires k.Valid()
  {
    if |iv| != 16 || |data| % 16 != 0 then None else Some(CbcDecrypt(k, iv, data))
  }

  /** CBC decryption gives a plaintext exactly when encrypting it gives the ciphertext. */
  lemma CbcIff(k: Key, iv: Bytes, c: Bytes, p: Bytes)
    requires k.Valid()
    ensures CbcOpen(k, iv, c) == Some(p) <==> CbcSeal(k, iv, p) == Some(c)
  {
    hide CbcDecrypt, CbcEncrypt, Key.Valid;
    if |iv| == 16 && |c| % 16 == 0 {
      CbcBack(k, iv, c);
    }
    if |iv| == 16 && |p| % 16 == 0 {
      CbcRoundTrip(k, iv, p);
    }
  }

  /** Decrypting and unpadding gives m exactly when the ciphertext is the encryption of m
      padded, for data of any length. */
  lemma CbcPadIff(k: Key, iv: Bytes, c: Bytes, m: Bytes)
    requires k.Valid()
    ensures Pad(m, 16).Some?
    ensures (CbcOpen(k, iv, c).Some? && Unpad(CbcOpen(k, iv, c).value, 16) == Some(m))
       <==> CbcSeal(k, iv, Pad(m, 16).value) == Some(c)
    ensures |iv| == 16 ==> CbcSeal(k, iv, Pad(m, 16).value).Some?
  {
    hide CbcOpen, Unpad, Key.Valid, CbcEncrypt;
    PaddedLength(|m|, 16);
    var padded := Pad(m, 16).value;
    CbcIff(k, iv, c, padded);
    if CbcOpen(k, iv, c).Some? {
      UnpadIff(CbcOpen(k, iv, c).value, 16, m);
    }
    UnpadIff(padded, 16, m);
  }

  /** cbc_encrypt. */
  method CbcEncryptLoop(cipher: Cipher, iv: Bytes, data: Bytes) returns (r: Option<Bytes>)
    requires cipher.Valid()
    ensures r == CbcSeal(Key(cipher.t, cipher.words, cipher.nr), iv, data)
  {
    hide Xor, Encrypt;
    ghost var k := Key(cipher.t, cipher.words, cipher.nr);
    if |iv| != 16 || |data| % 16 != 0 {
      return None;
    }
    var prev: State := iv;
    var out := [];
    var i := 0;
    assert data[0..] == data;
    while i < |data|
      invariant 0 <= i <= |data| && i % 16 == 0
      invariant out + CbcEncrypt(k, prev, data[i..]) == CbcEncrypt(k, iv, data)
    {
      assert data[i..][..16] == data[i..i + 16] && data[i..][16..] == data[i + 16..];
      prev := cipher.EncryptBlock(Xor(data[i..i + 16], prev));
      assert out + (prev + CbcEncrypt(k, prev, data[i + 16..])) == (out + prev) + CbcEncrypt(k, prev, data[i + 16..]);
      out := out + prev;
      i := i + 16;
    }
    assert out + [] == out;
    r := Some(out);
  }

  /** cbc_decrypt. */
  method CbcDecryptLoop(cipher: Cipher, iv: Bytes, data: Bytes) returns (r: Option<Bytes>)
    requires cipher.Valid()
    ensures r == CbcOpen(Key(cipher.t, cipher.words, cipher.nr), iv, data)
  {
    hide Xor, Decrypt;
    ghost var k := Key(cipher.t, cipher.words, cipher.nr);
    if |iv| != 16 || |data| % 16 != 0 {
      return None;
    }
    var prev: State := iv;
    var out := [];
    var i := 0;
    assert data[0..] == data;
    while i < |data|
      invariant 0 <= i <= |data| && i % 16 == 0
      invariant out + CbcDecrypt(k, prev, data[i..]) == CbcDecrypt(k, iv, data)
    {
      assert data[i..][..16] == data[i..i + 16] && data[i..][16..] == data[i + 16..];
      var block: State := data[i..i + 16];
      var plain := cipher.DecryptBlock(block);
      var piece := Xor(plain, prev);
      assert out + (piece + CbcDecrypt(k, block, data[i + 16..])) == (out + piece) + CbcDecrypt(k, block, data[i + 16..]);
      out := out + piece;
      prev := block;
      i := i + 16;
    }
    assert out + [] == out;
    r := Some(out);
  }

  // ----- counter modes

  /** The 16 big-endian bytes of a counter. */
  function CounterBytes(v: nat, n: nat): (r: Bytes)
    ensures |r| == n
    decreases n
  {
    if n == 0 then [] else CounterBytes(v / 256, n - 1) + [B((v % 256) as bv8)]
  }

  const TWO32: nat := 0x1_0000_0000
  const TWO128: nat := 0x1_0000_0000_0000_0000_0000_0000_0000_0000

  /** _inc32: the low 32 bits wrap around on their own. */
  function Inc32(v: nat): nat
  {
    v / TWO32 * TWO32 + (v + 1) % TWO32
  }

  /** One counter mode: CTR steps modulo 2^128, GCTR with inc32. */
  function NextCounter(gcm: bool, v: nat): nat
  {
    if gcm then Inc32(v) else (v + 1) % TWO128
  }

  /** ctr_encrypt or _gctr from one block on. */
  function CounterMode(k: Key, gcm: bool, counter: nat, data: Bytes): (r: Bytes)
    requires k.Valid()
    ensures |r| == |data|
    decreases |data|
  {
    if data == [] then []
    else
      var n := if |data| < 16 then |data| else 16;
      Xor(data[..n], k.E(CounterBytes(counter, 16))[..n]) + CounterMode(k, gcm, NextCounter(gcm, counter), data[n..])
  }

  /** The counter of block i when the first is c0: CTR counts modulo 2^128, GCTR in the low
      32 bits. */
  function CounterAt(gcm: bool, c0: nat, i: nat): (c: nat)
    ensures c0 < TWO128 ==> c < TWO128
  {
    if gcm then c0 / TWO32 * TWO32 + (c0 + i) % TWO32 else (c0 + i) % TWO128
  }

  /** Stepping i times adds i. */
  lemma CounterSteps(gcm: bool, c0: nat, i: nat)
    ensures c0 < TWO128 ==> CounterAt(gcm, c0, 0) == c0
    ensures CounterAt(gcm, NextCounter(gcm, c0), i) == CounterAt(gcm, c0, i + 1)
  {
    if gcm {
      LowCounterSteps(c0, i);
    } else {
      AddReduce(c0 + 1, i, TWO128);
    }
  }

  lemma LowCounterSteps(c0: nat, i: nat)
    ensures Inc32(c0) / TWO32 == c0 / TWO32 && (Inc32(c0) + i) % TWO32 == (c0 + (i + 1)) % TWO32
  {
    RemainderUnique(c0 / TWO32, (c0 + 1) % TWO32, TWO32);
    AddReduce(Inc32(c0), i, TWO32);
    AddReduce(c0 + 1, i, TWO32);
  }

  /** Byte j is combined with byte j % 16 of the encryption of the counter of block j / 16. */
  lemma {:induction false} CounterModeAt(k: Key, gcm: bool, c0: nat, data: Bytes, j: nat)
    requires k.Valid() && c0 < TWO128 && j < |data|
    ensures CounterMode(k, gcm, c0, data)[j] == Plus(data[j], k.E(CounterBytes(CounterAt(gcm, c0, j / 16), 16))[j % 16])
    decreases |data|
  {
    hide Key.E, Key.Valid, CounterBytes, CounterAt, Plus;
    var n := if |data| < 16 then |data| else 16;
    CounterSteps(gcm, c0, 0);
    if j >= 16 {
      hide Xor;
      CounterSteps(gcm, c0, j / 16 - 1);
      NextCounterFits(gcm, c0);
      CounterModeAt(k, gcm, NextCounter(gcm, c0), data[n..], j - 16);
      assert (j - 16) / 16 == j / 16 - 1 && (j - 16) % 16 == j % 16;
    } else {
      assert j / 16 == 0 && j % 16 == j;
    }
  }

  lemma NextCounterFits(gcm: bool, c0: nat)
    requires c0 < TWO128
    ensures NextCounter(gcm, c0) < TWO128
  {}

  /** The counters of the first 2^32 blocks are pairwise different, and for CTR all counters
      of the first 2^128. */
  lemma CountersDiffer(gcm: bool, c0: nat, i: nat, j: nat)
    requires c0 < TWO128 && i < j < (if gcm then TWO32 else TWO128)
    ensures CounterAt(gcm, c0, i) != CounterAt(gcm, c0, j)
  {
    ResiduesDiffer(c0 + i, c0 + j, if gcm then TWO32 else TWO128);
  }

  lemma ResiduesDiffer(a: nat, b: nat, m: Modulus)
    requires a < b < a + m
    ensures a % m != b % m
  {
    SmallMod(b - a, m);
    SmallMod(0, m);
    AddReduce(b, a, m);
  }

  lemma {:induction false} CounterBytesInjective(v: nat, w: nat, n: nat)
    requires v < Exp2(8 * n) && w < Exp2(8 * n) && CounterBytes(v, n) == CounterBytes(w, n)
    ensures v == w
    decreases n
  {
    if n > 0 {
      var a, b := CounterBytes(v, n), CounterBytes(w, n);
      ByteExp(n);
      hide Exp2;
      assert a[..n - 1] == CounterBytes(v / 256, n - 1) && b[..n - 1] == CounterBytes(w / 256, n - 1);
      CounterBytesInjective(v / 256, w / 256, n - 1);
      ByteRoundTrip(v % 256);
      ByteRoundTrip(w % 256);
      assert a[n - 1] == B((v % 256) as bv8) && b[n - 1] == B((w % 256) as bv8);
    }
  }

  lemma ByteExp(n: nat)
    requires n >= 1
    ensures Exp2(8 * n) == 256 * Exp2(8 * (n - 1))
  {
    hide Exp2;
    Exp2At8();
    Exp2Add(8, 8 * (n - 1));
  }

  lemma Exp2At8()
    ensures Exp2(8) == 256
  {}

  lemma Two128()
    ensures TWO128 == Exp2(128)
  {
    hide Exp2;
    Exp2At8();
    Exp2Add(8, 8);
    Exp2Add(16, 16);
    Exp2Add(32, 32);
    Exp2Add(64, 64);
  }

  /** So no two of those blocks share their keystream. */
  lemma KeystreamDiffers(k: Key, gcm: bool, c0: nat, i: nat, j: nat)
    requires k.Valid() && c0 < TWO128 && i < j < (if gcm then TWO32 else TWO128)
    ensures k.E(CounterBytes(CounterAt(gcm, c0, i), 16)) != k.E(CounterBytes(CounterAt(gcm, c0, j), 16))
  {
    hide Key.E, Key.D, Key.Valid, CounterBytes, CounterAt, Exp2;
    var v, w := CounterAt(gcm, c0, i), CounterAt(gcm, c0, j);
    CountersDiffer(gcm, c0, i, j);
    Two128();
    BlocksInverse(k, CounterBytes(v, 16));
    BlocksInverse(k, CounterBytes(w, 16));
    if CounterBytes(v, 16) == CounterBytes(w, 16) {
      CounterBytesInjective(v, w, 16);
    }
  }

  /** A counter mode is its own inverse. */
  lemma {:induction false} CounterModeTwice(k: Key, gcm: bool, counter: nat, data: Bytes)
    requires k.Valid()
    ensures CounterMode(k, gcm, counter, CounterMode(k, gcm, counter, data)) == data
    decreases |data|
  {
    if data != [] {
      hide Xor, Key.E, Key.Valid, NextCounter, CounterBytes;
      var n := if |data| < 16 then |data| else 16;
      var ks := k.E(CounterBytes(counter, 16))[..n];
      var out := CounterMode(k, gcm, counter, data);
      XorTwice(data[..n], ks);
      CounterModeTwice(k, gcm, NextCounter(gcm, counter), data[n..]);
      assert out[..n] == Xor(data[..n], ks) && out[n..] == CounterMode(k, gcm, NextCounter(gcm, counter), data[n..]);
      assert data == data[..n] + data[n..];
    }
  }

  /** One block more of a counter mode from position pos on. */
  lemma CounterModeStep(k: Key, gcm: bool, counter: nat, data: Bytes, pos: nat, n: nat, out: Bytes)
    requires k.Valid() && pos < |data| && n == (if |data| - pos < 16 then |data| - pos else 16)
    ensures out + CounterMode(k, gcm, counter, data[pos..])
         == (out + Xor(data[pos..pos + n], k.E(CounterBytes(counter, 16))[..n]))
            + CounterMode(k, gcm, NextCounter(gcm, counter), data[pos + n..])
  {
    hide Xor, Key.E, Key.Valid, NextCounter, CounterBytes;
    assert data[pos..][..n] == data[pos..pos + n] && data[pos..][n..] == data[pos + n..];
  }

  lemma CounterModeEnd(k: Key, gcm: bool, counter: nat, data: Bytes, out: Bytes)
    requires k.Valid()
    ensures out + CounterMode(k, gcm, counter, data[|data|..]) == out && data[0..] == data
  {}

  /** The loop of _gctr and of ctr_encrypt. */
  method CounterModeLoop(cipher: Cipher, gcm: bool, initial: nat, data: Bytes) returns (out: Bytes)
    requires cipher.Valid()
    ensures out == CounterMode(Key(cipher.t, cipher.words, cipher.nr), gcm, initial, data)
  {
    hide Xor, Encrypt, NextCounter, CounterBytes, CounterMode, Tables.Valid, Schedule;
    ghost var k := Key(cipher.t, cipher.words, cipher.nr);
    var counter := initial;
    out := [];
    var pos := 0;
    CounterModeEnd(k, gcm, initial, data, []);
    while pos < |data|
      invariant 0 <= pos <= |data|
      invariant out + CounterMode(k, gcm, counter, data[pos..]) == CounterMode(k, gcm, initial, data)
    {
      var ks := cipher.EncryptBlock(CounterBytes(counter, 16));
      var n := if |data| - pos < 16 then |data| - pos else 16;
      CounterModeStep(k, gcm, counter, data, pos, n, out);
      out := out + Xor(data[pos..pos + n], ks[..n]);
      pos := pos + n;
      counter := NextCounter(gcm, counter);
    }
    CounterModeEnd(k, gcm, counter, data, out);
  }
}
