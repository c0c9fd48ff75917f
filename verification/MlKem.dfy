/** K-PKE and ML-KEM: key generation, encryption, decryption, encapsulation and
    decapsulation with implicit rejection. */
module MlKem {
  import opened ModArith
  import opened Options
  import opened Xof
  import opened BitPack
  import opened MlKemRing
  import opened MlKemIdentity

  datatype Params = Params(k: nat, eta1: nat, eta2: nat, du: nat, dv: nat)
  {
    predicate Known() { this == ML_KEM_512 || this == ML_KEM_768 || this == ML_KEM_1024 }

    function EkSize(): nat { 384 * k + 32 }

    function CtSize(): nat { 32 * (du * k + dv) }
  }

  const ML_KEM_512 := Params(2, 3, 2, 10, 4)
  const ML_KEM_768 := Params(3, 2, 2, 10, 4)
  const ML_KEM_1024 := Params(4, 2, 2, 11, 5)

  /** The hash functions: h is SHA3-256, g SHA3-512, j and prf SHAKE256, and
      stream128 the prefix of SHAKE128 the matrix sampler reads. */
  datatype Hashes = Hashes(h: seq<int> -> seq<int>, g: seq<int> -> seq<int>, j: seq<int> -> seq<int>,
                           prf: (seq<int>, nat) -> seq<int>, stream128: seq<int> -> seq<int>)
  {
    ghost predicate Valid()
    {
      && (forall d :: |h(d)| == 32)
      && (forall d :: |g(d)| == 64)
    }
  }

  // ----- rounding

  /** _compress: round(2^d / q * x) modulo 2^d. */
  function Compress(d: nat, x: int): int
  {
    ((x * Exp2(d + 1) + Q) / (2 * Q)) % Exp2(d)
  }

  /** _decompress: round(q / 2^d * y). */
  function Decompress(d: nat, y: int): int
    requires d >= 1
  {
    (y * Q + Exp2(d - 1)) / Exp2(d)
  }

  predicate IsWidth(d: nat) { d == 1 || d == 4 || d == 5 || d == 10 || d == 11 }

  lemma Widths()
    ensures Exp2(0) == 1 && Exp2(1) == 2 && Exp2(2) == 4 && Exp2(3) == 8 && Exp2(4) == 16 && Exp2(5) == 32 && Exp2(6) == 64
    ensures Exp2(9) == 512 && Exp2(10) == 1024 && Exp2(11) == 2048 && Exp2(12) == 4096
  {
    assert Exp2(3) == 8;
    assert Exp2(6) == 64;
    Exp2Add(6, 3);
    Exp2Add(6, 4);
    Exp2Add(6, 5);
    Exp2Add(6, 6);
  }

  /** Compression undoes decompression. */
  lemma CompressDecompress(d: nat, y: int)
    requires IsWidth(d) && 0 <= y < Exp2(d)
    ensures Compress(d, Decompress(d, y)) == y
  {
    Widths();
    hide Exp2;
    if d == 1 {
    } else if d == 4 {
    } else if d == 5 {
    } else if d == 10 {
    } else {
    }
  }

  lemma CompressFits(d: nat, x: int)
    ensures 0 <= Compress(d, x) < Exp2(d)
  {}

  /** The centred residue modulo q. */
  function Centre(x: int): (r: int)
    ensures -1664 <= r <= 1664
    ensures (x - r) % Q == 0
  {
    var t := x % Q;
    if t > 1664 then t - Q else t
  }

  /** A message bit survives exactly the noise from -832 up to 832, or up to 831
      when the bit is 1. */
  lemma BitSurvives(b: int, n: int)
    requires b == 0 || b == 1
    ensures Compress(1, (Decompress(1, b) + n) % Q) == b <==> -832 <= Centre(n) <= 832 - b
  {
    Widths();
    hide Exp2;
    var x := (Decompress(1, b) + n) % Q;
    assert Decompress(1, b) == if b == 0 then 0 else 1665;
    assert Compress(1, x) == ((4 * x + Q) / (2 * Q)) % 2;
  }

  // ----- sampling

  /** _sample_ntt: two 12-bit candidates from every three bytes. */
  function SampleNtt(stream: seq<int>, coeffs: seq<int>): Option<Poly>
    requires |coeffs| <= 256
    decreases |stream|
  {
    if |coeffs| == 256 then Some(coeffs)
    else if |stream| < 3 then None
    else
      var d1 := stream[0] + 256 * (stream[1] % 16);
      var d2 := stream[1] / 16 + 16 * stream[2];
      var one := if d1 < Q then coeffs + [d1] else coeffs;
      SampleNtt(stream[3..], if d2 < Q && |one| < 256 then one + [d2] else one)
  }

  /** A longer prefix of the stream gives the same polynomial. */
  lemma {:induction false} SampleNttStable(stream: seq<int>, more: seq<int>, coeffs: seq<int>)
    requires |coeffs| <= 256 && SampleNtt(stream, coeffs).Some?
    ensures SampleNtt(stream + more, coeffs) == SampleNtt(stream, coeffs)
    decreases |stream|
  {
    if |coeffs| < 256 {
      assert (stream + more)[3..] == stream[3..] + more;
      var d1 := stream[0] + 256 * (stream[1] % 16);
      var d2 := stream[1] / 16 + 16 * stream[2];
      var one := if d1 < Q then coeffs + [d1] else coeffs;
      SampleNttStable(stream[3..], more, if d2 < Q && |one| < 256 then one + [d2] else one);
    }
  }

  /** The 12-bit values of a stream, two for every three bytes. */
  function Values12(stream: seq<int>): (r: seq<int>)
    ensures |r| == 2 * (|stream| / 3)
  {
    seq(2 * (|stream| / 3), i requires 0 <= i < 2 * (|stream| / 3) =>
      var b := 3 * (i / 2);
      if i % 2 == 0 then stream[b] + 256 * (stream[b + 1] % 16) else stream[b + 1] / 16 + 16 * stream[b + 2])
  }

  /** The polynomial is the first 256 of the 12-bit values below q. */
  lemma {:induction false} SampleNttIs(stream: seq<int>, coeffs: seq<int>)
    requires |coeffs| <= 256
    ensures SampleNtt(stream, coeffs) == FirstOf(coeffs + Below(Values12(stream), Q), 256)
    decreases |stream|
  {
    if |coeffs| < 256 && |stream| >= 3 {
      hide Below, FirstOf, Values12;
      var d1 := stream[0] + 256 * (stream[1] % 16);
      var d2 := stream[1] / 16 + 16 * stream[2];
      var rest := Values12(stream[3..]);
      FirstValues12(stream);
      BelowTwo(d1, d2, rest);
      TwoMore(coeffs, d1, d2, Below(rest, Q));
      var one := if d1 < Q then coeffs + [d1] else coeffs;
      SampleNttIs(stream[3..], if d2 < Q && |one| < 256 then one + [d2] else one);
    } else if |stream| < 3 {
      assert Values12(stream) == [] && coeffs + [] == coeffs;
    }
  }

  /** Two candidates, of which the second may find the list full. */
  lemma TwoMore(coeffs: seq<int>, d1: int, d2: int, tail: seq<int>)
    requires |coeffs| < 256
    ensures var one := if d1 < Q then coeffs + [d1] else coeffs;
            var two := if d2 < Q && |one| < 256 then one + [d2] else one;
            FirstOf(coeffs + ((if d1 < Q then [d1] else []) + (if d2 < Q then [d2] else []) + tail), 256)
            == FirstOf(two + tail, 256)
  {
    var one := if d1 < Q then coeffs + [d1] else coeffs;
    var more := (if d1 < Q then [d1] else []) + (if d2 < Q then [d2] else []) + tail;
    if |one| == 256 {
      assert (coeffs + more)[..256] == one == (one + tail)[..256];
    } else {
      var two := if d2 < Q then one + [d2] else one;
      assert coeffs + more == two + tail;
    }
  }

  lemma FirstValues12(stream: seq<int>)
    requires |stream| >= 3
    ensures Values12(stream)
         == [stream[0] + 256 * (stream[1] % 16), stream[1] / 16 + 16 * stream[2]] + Values12(stream[3..])
  {
    assert |stream[3..]| / 3 == |stream| / 3 - 1;
    forall i | 2 <= i < 2 * (|stream| / 3) ensures Values12(stream)[i] == Values12(stream[3..])[i - 2] {
      assert (i - 2) / 2 == i / 2 - 1 && (i - 2) % 2 == i % 2;
    }
  }

  lemma BelowTwo(a: int, b: int, rest: seq<int>)
    ensures Below([a, b] + rest, Q) == (if a < Q then [a] else []) + (if b < Q then [b] else []) + Below(rest, Q)
  {
    BelowCons(a, [b] + rest, Q);
    BelowCons(b, rest, Q);
    assert [a, b] + rest == [a] + ([b] + rest);
  }

  /** The loop of _sample_ntt, reading at most limit bytes. */
  method SampleNttPoly(reader: XofReader, limit: nat) returns (r: Option<Poly>)
    requires reader.Valid() && reader.off == 0
    modifies reader
    ensures r == SampleNtt(reader.digest(limit), [])
  {
    var coeffs: seq<int> := [];
    assert reader.digest(limit)[0..] == reader.digest(limit);
    while |coeffs| < 256
      invariant reader.Valid() && reader.off <= limit == |reader.digest(limit)| && |coeffs| <= 256
      invariant SampleNtt(reader.digest(limit)[reader.off..], coeffs) == SampleNtt(reader.digest(limit), [])
      decreases limit - reader.off
    {
      if reader.off + 3 > limit {
        return None;
      }
      ghost var rest := reader.digest(limit)[reader.off..];
      RestOfPrefix(reader.digest, reader.off, 3, limit);
      var b := reader.Read(3);
      assert rest[..3] == b && rest[3..] == reader.digest(limit)[reader.off..];
      var d1 := b[0] + 256 * (b[1] % 16);
      var d2 := b[1] / 16 + 16 * b[2];
      if d1 < Q {
        coeffs := coeffs + [d1];
      }
      if d2 < Q && |coeffs| < 256 {
        coeffs := coeffs + [d2];
      }
    }
    r := Some(coeffs);
  }

  /** Number of ones among count bits of n from position from on. */
  function BitSum(n: int, from: nat, count: nat): int
    decreases count
  {
    if count == 0 then 0 else (n / Exp2(from)) % 2 + BitSum(n, from + 1, count - 1)
  }

  /** _sample_cbd. */
  function SampleCbd(eta: nat, data: seq<int>): Poly
  {
    var bits := Number(data, 8);
    seq(256, i requires 0 <= i < 256 => (BitSum(bits, CbdStart(i, eta), eta) - BitSum(bits, CbdStart(i, eta) + eta, eta)) % Q)
  }

  function CbdStart(i: nat, eta: nat): nat
  {
    MulNonNeg(i, eta);
    2 * (i * eta)
  }

  lemma {:induction false} BitSumRange(n: int, from: nat, count: nat)
    ensures 0 <= BitSum(n, from, count) <= count
    decreases count
  {
    if count > 0 {
      BitSumRange(n, from + 1, count - 1);
    }
  }

  /** Binomial samples are small. */
  lemma CbdSmall(eta: nat, data: seq<int>, i: nat)
    requires i < 256 && eta <= 3
    ensures 0 - eta <= Centre(SampleCbd(eta, data)[i]) <= eta
  {
    hide BitSum;
    var bits := Number(data, 8);
    BitSumRange(bits, CbdStart(i, eta), eta);
    BitSumRange(bits, CbdStart(i, eta) + eta, eta);
  }

  /** Bit b of a byte string. */
  function BitAt(data: seq<int>, b: nat): int
    requires b < 8 * |data|
  {
    data[b / 8] / Exp2(b % 8) % 2
  }

  /** How many of count bits from position from on are set. */
  function SetBits(data: seq<int>, from: nat, count: nat): int
    requires from + count <= 8 * |data|
    decreases count
  {
    if count == 0 then 0 else BitAt(data, from) + SetBits(data, from + 1, count - 1)
  }

  lemma {:induction false} NumberBit(data: seq<int>, b: nat)
    requires Fits(data, 8) && b < 8 * |data|
    ensures Number(data, 8) / Exp2(b) % 2 == BitAt(data, b)
    decreases |data|
  {
    ByteSize();
    NumberBound(data[1..], 8);
    hide Exp2;
    var d, rest := data[0], Number(data[1..], 8);
    if b < 8 {
      LowBit(d, rest, b);
    } else {
      Exp2Add(8, b - 8);
      NumberBit(data[1..], b - 8);
      SkipByte(d, rest, Exp2(b - 8));
      assert data[1..][(b - 8) / 8] == data[b / 8];
    }
  }

  lemma LowBit(d: int, rest: nat, b: nat)
    requires b < 8
    ensures (d + 256 * rest) / Exp2(b) % 2 == d / Exp2(b) % 2
  {
    var e, f := Exp2(b), Exp2(7 - b);
    hide Exp2;
    Exp2Add(b, 7 - b);
    SevenBits();
    EvenMultiple(e, f, rest);
    DividePlus(d, 2 * (f * rest), e);
    EvenShift(d / e, f * rest);
  }

  lemma EvenMultiple(e: nat, f: nat, rest: nat)
    requires e * f == 128
    ensures 256 * rest == 2 * (f * rest) * e
  {
    assert 2 * (f * rest) * e == 2 * (e * f) * rest;
  }

  lemma EvenShift(a: int, m: int)
    ensures (a + 2 * m) % 2 == a % 2
  {}

  lemma SevenBits()
    ensures Exp2(7) == 128
  {}

  lemma DividePlus(d: int, k: int, e: nat)
    requires e >= 1
    ensures (d + k * e) / e == d / e + k
  {
    var q, r := d / e, d % e;
    assert d + k * e == (q + k) * e + r;
    if e > 1 {
      RemainderUnique(q + k, r, e);
    }
  }

  lemma SkipByte(d: int, rest: nat, e: nat)
    requires 0 <= d < 256 && e >= 1
    ensures (d + 256 * rest) / (256 * e) == rest / e
  {
    var q, r := rest / e, rest % e;
    assert rest == q * e + r;
    assert d + 256 * rest == q * (256 * e) + (256 * r + d);
    RemainderUnique(q, 256 * r + d, 256 * e);
  }

  lemma {:induction false} BitSumIs(data: seq<int>, from: nat, count: nat)
    requires Fits(data, 8) && from + count <= 8 * |data|
    ensures BitSum(Number(data, 8), from, count) == SetBits(data, from, count)
    decreases count
  {
    hide Number, Exp2, Fits;
    if count > 0 {
      NumberBit(data, from);
      BitSumIs(data, from + 1, count - 1);
    }
  }

  /** Coefficient i is the number of set bits among eta minus the number among the next eta,
      starting at bit 2 eta i. */
  lemma CbdIs(eta: nat, data: seq<int>, i: nat)
    requires i < 256 && |data| == 64 * eta && Fits(data, 8)
    ensures 2 * (i * eta) + eta + eta <= 8 * |data|
    ensures SampleCbd(eta, data)[i] == (SetBits(data, 2 * (i * eta), eta) - SetBits(data, 2 * (i * eta) + eta, eta)) % Q
  {
    hide BitSum, SetBits, Number, Fits;
    MulLe(i + 1, 256, eta);
    assert (i + 1) * eta == i * eta + eta;
    MulNonNeg(i, eta);
    BitSumIs(data, 2 * (i * eta), eta);
    BitSumIs(data, 2 * (i * eta) + eta, eta);
  }

  function MatrixRow(H: Hashes, rho: seq<int>, i: nat, n: nat): (r: Option<seq<Poly>>)
    ensures r.Some? ==> |r.value| == n
    decreases n
  {
    if n == 0 then Some([])
    else
      var init :- MatrixRow(H, rho, i, n - 1);
      var last :- SampleNtt(H.stream128(rho + [n - 1, i]), []);
      Some(init + [last])
  }

  /** The first n rows of the matrix a_hat, k polynomials each. */
  function MatrixRows(H: Hashes, rho: seq<int>, k: nat, n: nat): (r: Option<Matrix>)
    ensures r.Some? ==> IsMatrix(r.value, n, k)
    decreases n
  {
    if n == 0 then Some([])
    else
      var init :- MatrixRows(H, rho, k, n - 1);
      var last :- MatrixRow(H, rho, n - 1, k);
      Some(init + [last])
  }

  /** n binomial polynomials, the nonce counting up from ctr. */
  function CbdVector(H: Hashes, eta: nat, seed: seq<int>, ctr: nat, n: nat): (v: seq<Poly>)
    ensures |v| == n
    decreases n
  {
    if n == 0 then []
    else CbdVector(H, eta, seed, ctr, n - 1) + [SampleCbd(eta, H.prf(seed + [ctr + n - 1], 64 * eta))]
  }

  lemma {:induction false} RowAt(H: Hashes, rho: seq<int>, i: nat, n: nat, j: nat)
    requires MatrixRow(H, rho, i, n).Some? && j < n
    ensures SampleNtt(H.stream128(rho + [j, i]), []) == Some(MatrixRow(H, rho, i, n).value[j])
    decreases n
  {
    hide SampleNtt;
    if j < n - 1 {
      RowAt(H, rho, i, n - 1, j);
    }
  }

  /** Entry (i, j) of the matrix is sampled from rho, j and i. */
  lemma {:induction false} MatrixAt(H: Hashes, rho: seq<int>, k: nat, n: nat, i: nat, j: nat)
    requires MatrixRows(H, rho, k, n).Some? && i < n && j < k
    ensures SampleNtt(H.stream128(rho + [j, i]), []) == Some(MatrixRows(H, rho, k, n).value[i][j])
    decreases n
  {
    hide SampleNtt, MatrixRow;
    if i < n - 1 {
      MatrixAt(H, rho, k, n - 1, i, j);
    } else {
      RowAt(H, rho, n - 1, k, j);
    }
  }

  /** Polynomial i of a noise vector uses the nonce ctr + i. */
  lemma {:induction false} CbdVectorAt(H: Hashes, eta: nat, seed: seq<int>, ctr: nat, n: nat, i: nat)
    requires i < n
    ensures CbdVector(H, eta, seed, ctr, n)[i] == SampleCbd(eta, H.prf(seed + [ctr + i], 64 * eta))
    decreases n
  {
    hide SampleCbd;
    if i < n - 1 {
      CbdVectorAt(H, eta, seed, ctr, n - 1, i);
    }
  }

  /** One encryption numbers its noise polynomials from 0 to 2 k. */
  lemma CoinsAt(p: Params, H: Hashes, r: seq<int>, i: nat)
    requires i < p.k
    ensures CoinsOf(p, H, r).y[i] == SampleCbd(p.eta1, H.prf(r + [i], 64 * p.eta1))
    ensures CoinsOf(p, H, r).e1[i] == SampleCbd(p.eta2, H.prf(r + [p.k + i], 64 * p.eta2))
    ensures CoinsOf(p, H, r).e2 == SampleCbd(p.eta2, H.prf(r + [2 * p.k], 64 * p.eta2))
  {
    hide SampleCbd, CbdVector;
    CbdVectorAt(H, p.eta1, r, 0, p.k, i);
    CbdVectorAt(H, p.eta2, r, p.k, p.k, i);
  }

  // ----- K-PKE

  /** The polynomials of a key pair; only t, rho and the transform of s are kept. */
  datatype Key = Key(rho: seq<int>, A: Matrix, s: seq<Poly>, e: seq<Poly>)

  ghost predicate KeyShape(p: Params, key: Key)
  {
    |key.rho| == 32 && |key.s| == |key.e| == p.k && IsMatrix(key.A, p.k, p.k)
  }

  function KeyOf(p: Params, H: Hashes, d: seq<int>): (r: Option<Key>)
    requires H.Valid()
    ensures r.Some? ==> KeyShape(p, r.value)
  {
    var g := H.g(d + [p.k]);
    var rho, sigma := g[..32], g[32..];
    var A :- MatrixRows(H, rho, p.k, p.k);
    Some(Key(rho, A, CbdVector(H, p.eta1, sigma, 0, p.k), CbdVector(H, p.eta1, sigma, p.k, p.k)))
  }

  function PublicVector(A: Matrix, s: seq<Poly>, e: seq<Poly>): (t: seq<Poly>)
    requires IsMatrix(A, |e|, |s|)
    ensures |t| == |e|
  {
    seq(|e|, i requires 0 <= i < |e| => PublicRow(A[i], s, e[i]))
  }

  /** _kpke_keygen. */
  function PkeKeyGen(p: Params, H: Hashes, d: seq<int>): Option<(seq<int>, seq<int>)>
    requires H.Valid()
  {
    var key :- KeyOf(p, H, d);
    Some((Join(PackAll(PublicVector(key.A, key.s, key.e), 12)) + key.rho, Join(PackAll(NttAll(key.s), 12))))
  }

  /** The random polynomials of one encryption. */
  datatype Coins = Coins(y: seq<Poly>, e1: seq<Poly>, e2: Poly)

  function CoinsOf(p: Params, H: Hashes, r: seq<int>): (coins: Coins)
    ensures |coins.y| == |coins.e1| == p.k
  {
    Coins(CbdVector(H, p.eta1, r, 0, p.k), CbdVector(H, p.eta2, r, p.k, p.k),
          SampleCbd(p.eta2, H.prf(r + [2 * p.k], 64 * p.eta2)))
  }

  /** The message polynomial: bit b becomes 0 or 1665. */
  function MessagePoly(m: seq<int>): Poly
  {
    var bits := Unpack(m, 1, 256);
    seq(256, i requires 0 <= i < 256 => Decompress(1, bits[i]))
  }

  function CipherVector(A: Matrix, y: seq<Poly>, e1: seq<Poly>): (u: seq<Poly>)
    requires IsMatrix(A, |y|, |e1|)
    ensures |u| == |e1|
  {
    seq(|e1|, j requires 0 <= j < |e1| => CipherU(Column(A, j), y, e1[j]))
  }

  function CompressPoly(d: nat, f: Poly): Poly
  {
    seq(256, i requires 0 <= i < 256 => Compress(d, f[i]))
  }

  function DecompressPoly(d: nat, f: Poly): Poly
    requires d >= 1
  {
    seq(256, i requires 0 <= i < 256 => Decompress(d, f[i]))
  }

  function CompressAll(d: nat, fs: seq<Poly>): (r: seq<Poly>)
    ensures |r| == |fs|
  {
    seq(|fs|, i requires 0 <= i < |fs| => CompressPoly(d, fs[i]))
  }

  function DecompressAll(d: nat, fs: seq<Poly>): (r: seq<Poly>)
    requires d >= 1
    ensures |r| == |fs|
  {
    seq(|fs|, i requires 0 <= i < |fs| => DecompressPoly(d, fs[i]))
  }

  function EncodeCipher(p: Params, u: seq<Poly>, v: Poly): seq<int>
  {
    Join(PackAll(CompressAll(p.du, u), p.du)) + Pack(CompressPoly(p.dv, v), p.dv)
  }

  /** _kpke_encrypt. */
  function PkeEncrypt(p: Params, H: Hashes, ek: seq<int>, m: seq<int>, r: seq<int>): Option<seq<int>>
    requires |ek| == p.EkSize()
  {
    assert p.k * 384 == 384 * p.k;
    var t: seq<Poly> := UnpackAll(Chunks(ek, 384, p.k), 12);
    var rho := ek[384 * p.k..384 * p.k + 32];
    var A :- MatrixRows(H, rho, p.k, p.k);
    var coins := CoinsOf(p, H, r);
    Some(EncodeCipher(p, CipherVector(A, coins.y, coins.e1), CipherV(t, coins.y, coins.e2, MessagePoly(m))))
  }

  /** _kpke_decrypt. */
  function PkeDecrypt(p: Params, dk: seq<int>, c: seq<int>): seq<int>
    requires p.du >= 1 && p.dv >= 1 && |dk| == 384 * p.k && |c| == p.CtSize()
  {
    assert p.k * 384 == 384 * p.k && p.k * (32 * p.du) == 32 * (p.du * p.k);
    MulNonNeg(p.du, p.k);
    var u: seq<Poly> := UnpackAll(Chunks(c, 32 * p.du, p.k), p.du);
    var v: Poly := Unpack(c[32 * (p.du * p.k)..], p.dv, 256);
    var sHat: seq<Poly> := UnpackAll(Chunks(dk, 384, p.k), 12);
    Pack(CompressPoly(1, Recover(sHat, DecompressAll(p.du, u), DecompressPoly(p.dv, v))), 1)
  }

  // ----- ML-KEM

  /** _keygen_internal. */
  function KeyGen(p: Params, H: Hashes, d: seq<int>, z: seq<int>): Option<(seq<int>, seq<int>)>
    requires H.Valid()
  {
    var (ek, dkPke) :- PkeKeyGen(p, H, d);
    Some((ek, dkPke + ek + H.h(ek) + z))
  }

  /** _encaps_internal. */
  function Encaps(p: Params, H: Hashes, ek: seq<int>, m: seq<int>): Option<(seq<int>, seq<int>)>
    requires H.Valid() && |ek| == p.EkSize()
  {
    var g := H.g(m + H.h(ek));
    var c :- PkeEncrypt(p, H, ek, m, g[32..]);
    Some((g[..32], c))
  }

  /** _decaps_internal: the rejection key when the re-encryption differs. */
  function Decaps(p: Params, H: Hashes, dk: seq<int>, c: seq<int>): Option<seq<int>>
    requires H.Valid() && p.du >= 1 && p.dv >= 1 && |dk| == 768 * p.k + 96 && |c| == p.CtSize()
  {
    var dkPke, ek := dk[..384 * p.k], dk[384 * p.k..768 * p.k + 32];
    var h, z := dk[768 * p.k + 32..768 * p.k + 64], dk[768 * p.k + 64..];
    var m2 := PkeDecrypt(p, dkPke, c);
    var g := H.g(m2 + h);
    var kBar := H.j(z + c);
    var c2 :- PkeEncrypt(p, H, ek, m2, g[32..]);
    Some(if c == c2 then g[..32] else kBar)
  }
}
