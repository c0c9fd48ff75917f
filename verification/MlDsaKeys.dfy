/** Key encodings of ML-DSA: _pk_encode, _pk_decode, _sk_encode, _sk_decode. */
module MlDsaKeys {
  import opened ModArith
  import opened BitPack
  import opened MlDsaRounding
  import opened Options
  import opened MlDsaCodec

  datatype PublicKey = PublicKey(rho: seq<int>, t1: seq<Poly>)
  datatype SecretKey = SecretKey(rho: seq<int>, key: seq<int>, tr: seq<int>, s1: seq<Poly>, s2: seq<Poly>, t0: seq<Poly>)

  function OffsetPackAll(ps: seq<Poly>, offset: int, w: nat): (rows: seq<seq<int>>)
    ensures |rows| == |ps|
  {
    seq(|ps|, i requires 0 <= i < |ps| => OffsetPack(ps[i], offset, w))
  }

  function OffsetUnpackAll(rows: seq<seq<int>>, offset: int, w: nat): (ps: seq<Poly>)
    ensures |ps| == |rows|
  {
    seq(|rows|, i requires 0 <= i < |rows| => OffsetUnpack(rows[i], offset, w))
  }

  function ReducedAll(ps: seq<Poly>): (r: seq<Poly>)
    ensures |r| == |ps|
  {
    seq(|ps|, i requires 0 <= i < |ps| => ReducedQ(ps[i]))
  }

  function PkEncode(pk: PublicKey): seq<int>
  {
    pk.rho + Join(PackAll(pk.t1, 10))
  }

  function PkDecode(p: Params, data: seq<int>): PublicKey
    requires |data| == 32 + 320 * p.k
  {
    PublicKey(data[..32], UnpackAll(Chunks(data[32..], 320, p.k), 10))
  }

  ghost predicate PkWellFormed(p: Params, pk: PublicKey)
  {
    |pk.rho| == 32 && |pk.t1| == p.k && forall i :: 0 <= i < p.k ==> Fits(pk.t1[i], 10)
  }

  /** Decoding a public key undoes encoding it. */
  lemma PkRoundTrip(p: Params, pk: PublicKey)
    requires PkWellFormed(p, pk)
    ensures |PkEncode(pk)| == 32 + 320 * p.k
    ensures PkDecode(p, PkEncode(pk)) == pk
  {
    hide Join, Chunks, Pack, Unpack, Fits;
    var rows := PackAll(pk.t1, 10);
    RowsRoundTrip(pk.t1, 10, []);
    assert Join(rows) + [] == Join(rows);
    var data := PkEncode(pk);
    assert data[..32] == pk.rho && data[32..] == Join(rows);
  }

  function SSize(p: Params): nat { 32 * p.SBits() }

  function SkSize(p: Params): int { 128 + (p.ell * SSize(p) + p.k * SSize(p)) + p.k * 416 }

  function SkEncode(p: Params, sk: SecretKey): seq<int>
  {
    sk.rho + sk.key + sk.tr
    + (Join(OffsetPackAll(sk.s1, p.eta, p.SBits()))
       + (Join(OffsetPackAll(sk.s2, p.eta, p.SBits()))
          + Join(OffsetPackAll(sk.t0, 4096, 13))))
  }

  function SkDecode(p: Params, data: seq<int>): SecretKey
    requires |data| == SkSize(p)
  {
    MulNonNeg(p.ell, SSize(p));
    MulNonNeg(p.k, SSize(p));
    var body := data[128..];
    var rest := body[p.ell * SSize(p)..];
    var last := rest[p.k * SSize(p)..];
    SecretKey(data[..32], data[32..64], data[64..128],
              OffsetUnpackAll(Chunks(body, SSize(p), p.ell), p.eta, p.SBits()),
              OffsetUnpackAll(Chunks(rest, SSize(p), p.k), p.eta, p.SBits()),
              OffsetUnpackAll(Chunks(last, 416, p.k), 4096, 13))
  }

  ghost predicate AllInWindow(ps: seq<Poly>, n: nat, offset: int, w: nat)
  {
    |ps| == n && forall i :: 0 <= i < n ==> InWindow(ps[i], offset, w)
  }

  ghost predicate SkWellFormed(p: Params, sk: SecretKey)
  {
    && |sk.rho| == 32 && |sk.key| == 32 && |sk.tr| == 64
    && AllInWindow(sk.s1, p.ell, p.eta, p.SBits())
    && AllInWindow(sk.s2, p.k, p.eta, p.SBits())
    && AllInWindow(sk.t0, p.k, 4096, 13)
  }

  lemma OffsetRowsRoundTrip(ps: seq<Poly>, n: nat, offset: int, w: nat, rest: seq<int>)
    requires w >= 1 && AllInWindow(ps, n, offset, w)
    ensures var rows := OffsetPackAll(ps, offset, w);
            && |Join(rows)| == n * (32 * w)
            && Chunks(Join(rows) + rest, 32 * w, n) == rows
            && OffsetUnpackAll(rows, offset, w) == ReducedAll(ps)
  {
    hide Join, Chunks, OffsetPack, OffsetUnpack, InWindow;
    var rows := OffsetPackAll(ps, offset, w);
    forall i | 0 <= i < n
      ensures |rows[i]| == 32 * w && OffsetUnpackAll(rows, offset, w)[i] == ReducedAll(ps)[i]
    {
      assert InWindow(ps[i], offset, w);
      WindowLength(ps[i], offset, w);
      OffsetRoundTrip(ps[i], offset, w);
    }
    JoinSize(rows, 32 * w);
    ChunksJoin(rows, 32 * w, rest);
  }

  lemma WindowLength(p: Poly, offset: int, w: nat)
    requires InWindow(p, offset, w)
    ensures |p| == 256 && |OffsetPack(p, offset, w)| == 32 * w
  {}

  /** Decoding a secret key gives the encoded key, coefficients taken modulo q. */
  lemma SkRoundTrip(p: Params, sk: SecretKey)
    requires p.Known() && SkWellFormed(p, sk)
    ensures |SkEncode(p, sk)| == SkSize(p)
    ensures SkDecode(p, SkEncode(p, sk))
         == SecretKey(sk.rho, sk.key, sk.tr, ReducedAll(sk.s1), ReducedAll(sk.s2), ReducedAll(sk.t0))
  {
    KnownSizes(p);
    hide Join, Chunks, OffsetPackAll, OffsetUnpackAll, AllInWindow, Params.Known, Params.SBits;
    var w := p.SBits();
    var a, b, c := Join(OffsetPackAll(sk.s1, p.eta, w)), Join(OffsetPackAll(sk.s2, p.eta, w)),
                   Join(OffsetPackAll(sk.t0, 4096, 13));
    OffsetRowsRoundTrip(sk.s1, p.ell, p.eta, w, b + c);
    OffsetRowsRoundTrip(sk.s2, p.k, p.eta, w, c);
    OffsetRowsRoundTrip(sk.t0, p.k, 4096, 13, []);
    assert c + [] == c;
    SkSlices(sk.rho, sk.key, sk.tr, a, b, c);
  }

  lemma SkSlices(rho: seq<int>, key: seq<int>, tr: seq<int>, a: seq<int>, b: seq<int>, c: seq<int>)
    requires |rho| == 32 && |key| == 32 && |tr| == 64
    ensures var data := rho + key + tr + (a + (b + c));
            && data[..32] == rho && data[32..64] == key && data[64..128] == tr
            && data[128..] == a + (b + c)
            && data[128..][|a|..] == b + c
            && data[128..][|a|..][|b|..] == c
  {}
}
