/** The ring of ML-KEM: Z_q[X]/(X^256 + 1) with q = 3329, its incomplete
    transform, and the identity behind decryption. */
module MlKemRing {
  import opened ModArith
  import opened Ntt
  import opened NttProduct

  const Q: int := 3329

  type Poly = p: seq<int> | |p| == 256 witness seq(256, i => 0)

  /** zeta = 17 is a 256-th root of unity; 3303 is the inverse of 128. */
  const R: Ring := Ring(3329, 17, 7, 2, 3303)

  lemma RingSize()
    ensures R.N() == 256 && Exp2(7) == 128
  {
    assert R.Size(4) == 32;
    assert R.Size(7) == 256;
    assert Exp2(4) == 16;
    assert Exp2(7) == 128;
  }

  lemma RootPowers(z: int, q: Modulus)
    requires z == 17 && q == Q
    ensures Pow(z, 128) % q == (-1) % q
  {
    hide Pow;
    FirstPower(z);
    PowDouble(z, 1, 17, 289, q);
    PowDouble(z, 2, 289, 296, q);
    PowDouble(z, 4, 296, 1062, q);
    PowDouble(z, 8, 1062, 2642, q);
    PowDouble(z, 16, 2642, 2580, q);
    PowDouble(z, 32, 2580, 1729, q);
    PowDouble(z, 64, 1729, 3328, q);
  }

  lemma ValidFrom(r: Ring)
    requires r == R
    ensures r.Valid()
  {
    RingSize();
    RootPowers(r.zeta, r.q);
    assert Exp2(r.bits) == 128;
  }

  /** The premises of the transform, checked by repeated squaring. */
  lemma RingValid()
    ensures R.Valid()
  {
    ValidFrom(R);
  }

  function NttOf(f: Poly): Poly
  {
    RingSize();
    Forward(R, f)
  }

  function InvOf(f: Poly): Poly
  {
    RingSize();
    Inverse(R, f)
  }

  function PolyAdd(f: Poly, g: Poly): Poly
  {
    seq(256, i requires 0 <= i < 256 => (f[i] + g[i]) % Q)
  }

  function PolySub(f: Poly, g: Poly): Poly
  {
    seq(256, i requires 0 <= i < 256 => (f[i] - g[i]) % Q)
  }

  function ReducedQ(f: Poly): Poly
  {
    seq(256, i requires 0 <= i < 256 => f[i] % Q)
  }

  ghost predicate Residues(f: Poly)
  {
    forall i :: 0 <= i < 256 ==> 0 <= f[i] < Q
  }

  // ----- _multiply_ntts

  /** Entry i of the table _GAMMAS. */
  function Gamma(i: nat): int
  {
    Pow(17, 2 * BitRev(i, 7) + 1) % Q
  }

  /** _multiply_ntts: degree-one products, one pair of coefficients at a time. */
  function MultiplyNtts(f: Poly, g: Poly): Poly
  {
    seq(256, i requires 0 <= i < 256 =>
      if i % 2 == 0 then (f[i] * g[i] + f[i + 1] * g[i + 1] * Gamma(i / 2)) % Q
      else (f[i - 1] * g[i] + f[i] * g[i - 1]) % Q)
  }

  method MultiplyLoop(f: Poly, g: Poly) returns (out: Poly)
    ensures out == MultiplyNtts(f, g)
  {
    hide Gamma;
    var h := new int[256](i => 0);
    for i := 0 to 128
      invariant forall k :: 0 <= k < 2 * i ==> h[k] == MultiplyNtts(f, g)[k]
    {
      var a0, a1 := f[2 * i], f[2 * i + 1];
      var b0, b1 := g[2 * i], g[2 * i + 1];
      h[2 * i] := (a0 * b0 + a1 * b1 * Gamma(i)) % Q;
      h[2 * i + 1] := (a0 * b1 + a1 * b0) % Q;
    }
    assert h[..] == MultiplyNtts(f, g);
    out := h[..];
  }

  /** Setting the top bit of an index adds one to its reversal. */
  lemma {:induction false} BitRevTop(j: nat, n: nat)
    requires j < Exp2(n)
    ensures BitRev(j + Exp2(n), n + 1) == BitRev(j, n + 1) + 1
  {
    if n > 0 {
      assert (j + Exp2(n)) % 2 == j % 2 && (j + Exp2(n)) / 2 == j / 2 + Exp2(n - 1);
      BitRevTop(j / 2, n - 1);
    } else {
      assert BitRev(1, 1) == Exp2(0) + BitRev(0, 0);
      assert BitRev(0, 1) == BitRev(0, 0);
    }
  }

  /** The table entry is the root of the leaf it serves. */
  lemma GammaIsLeafRoot(i: nat)
    requires i < 128
    ensures Gamma(i) % Q == LeafRoot(R, i) % Q
  {
    RingValid();
    RingSize();
    var j := i / 2;
    assert Exp2(6) == 64;
    BitRevTop(j, 6);
    BitRevChild(i, 7);
    GammaExponent(i, j, R);
  }

  lemma GammaExponent(i: nat, j: nat, r: Ring)
    requires r == R && r.Valid() && i < 128 && j == i / 2
    requires BitRev(j + 64, 7) == BitRev(j, 7) + 1
    requires 2 * BitRev(i, 7) == (if i % 2 == 1 then 128 else 0) + BitRev(j, 7)
    ensures (Pow(r.zeta, 2 * BitRev(i, 7) + 1) % Q) % Q == LeafRoot(r, i) % Q
  {
    hide BitRev, Pow;
    RingSize();
    assert Exp2(r.bits) == 128;
    var e := BitRev(j, 7) + 1;
    assert (128 + i) / 2 == 64 + j;
    ModMod(Pow(r.zeta, e), Q);
    if i % 2 == 1 {
      ZetaPow(r, e);
      assert (128 + i) % 2 == 1;
      AddReduce(0, Pow(r.zeta, e), Q);
      ModMod(Pow(r.zeta, 128 + e), Q);
    } else {
      assert (128 + i) % 2 == 0;
    }
  }

  lemma MultiplyIsPairMul(f: Poly, g: Poly)
    ensures MultiplyNtts(f, g) == PairMul(R, f, g)
  {
    hide Gamma, LeafRoot;
    forall i | 0 <= i < 256 ensures MultiplyNtts(f, g)[i] == PairMulAt(R, f, g, i) {
      var k := i / 2;
      GammaIsLeafRoot(k);
      GammaReplace(f[2 * k] * g[2 * k], f[2 * k + 1] * g[2 * k + 1], Gamma(k), LeafRoot(R, k));
      assert i == 2 * k || i == 2 * k + 1;
    }
  }

  lemma GammaReplace(a: int, b: int, gamma: int, w: int)
    requires gamma % Q == w % Q
    ensures (a + b * gamma) % Q == (a + w * b) % Q
  {
    MulCong(b, b, gamma, w, Q);
    AddCong(a, a, b * gamma, b * w, Q);
  }

  // ----- the transform on this ring

  lemma NttIsLinear(g: Poly, a: int, x: Poly, b: int, y: Poly)
    requires IsLinear(g, a, x, b, y, Q)
    ensures IsLinear(NttOf(g), a, NttOf(x), b, NttOf(y), Q)
  {
    RingValid();
    RingSize();
    ForwardLinear(R, g, a, x, b, y);
  }

  lemma NttResidues(f: Poly)
    ensures Residues(NttOf(f)) && Residues(InvOf(f))
  {
    RingSize();
    FwdCanonical(R, f, 1, R.bits);
  }

  lemma NttReduced(f: Poly, g: Poly)
    requires forall i :: 0 <= i < 256 ==> f[i] % Q == g[i] % Q
    ensures NttOf(f) == NttOf(g)
  {
    hide NttOf;
    NttIsLinear(f, 1, g, 0, g);
    NttResidues(f);
    NttResidues(g);
  }

  lemma NttRoundTrip(f: Poly)
    ensures InvOf(NttOf(f)) == ReducedQ(f) && NttOf(InvOf(f)) == ReducedQ(f)
  {
    RingValid();
    RingSize();
    InverseForward(R, f);
    ForwardInverse(R, f);
  }

  /** _multiply_ntts of two transforms is the transform of the ring product. */
  lemma NttOfProduct(f: Poly, g: Poly)
    ensures MultiplyNtts(NttOf(f), NttOf(g)) == NttOf(RingMul(f, g))
  {
    RingValid();
    RingSize();
    ForwardPairRingMul(R, f, g);
    MultiplyIsPairMul(NttOf(f), NttOf(g));
  }

  // ----- one leaf: Z[X] modulo X^2 - w

  datatype Pair = Pair(c0: int, c1: int)

  function Plus(a: Pair, b: Pair): Pair { Pair(a.c0 + b.c0, a.c1 + b.c1) }
  function Minus(a: Pair, b: Pair): Pair { Pair(a.c0 - b.c0, a.c1 - b.c1) }
  function Times(a: Pair, b: Pair, w: int): Pair { Pair(Mul0(a.c0, a.c1, b.c0, b.c1, w), Mul1(a.c0, a.c1, b.c0, b.c1)) }

  const Zero: Pair := Pair(0, 0)

  function At(f: Poly, k: nat): Pair
    requires k < 128
  {
    Pair(f[2 * k], f[2 * k + 1])
  }

  function Leaf(k: nat): int { LeafRoot(R, k) }

  ghost predicate Same(a: Pair, b: Pair)
  {
    a.c0 % Q == b.c0 % Q && a.c1 % Q == b.c1 % Q
  }

  lemma SamePlus(a: Pair, a': Pair, b: Pair, b': Pair)
    requires Same(a, a') && Same(b, b')
    ensures Same(Plus(a, b), Plus(a', b')) && Same(Minus(a, b), Minus(a', b'))
  {
    AddCong(a.c0, a'.c0, b.c0, b'.c0, Q);
    AddCong(a.c1, a'.c1, b.c1, b'.c1, Q);
  }

  lemma SameTimes(a: Pair, a': Pair, b: Pair, b': Pair, w: int)
    requires Same(a, a') && Same(b, b')
    ensures Same(Times(a, b, w), Times(a', b', w))
  {
    MulCong(a.c0, a'.c0, b.c0, b'.c0, Q);
    MulCong(a.c1, a'.c1, b.c1, b'.c1, Q);
    MulCong(a.c0, a'.c0, b.c1, b'.c1, Q);
    MulCong(a.c1, a'.c1, b.c0, b'.c0, Q);
    MulCong(w, w, a.c1 * b.c1, a'.c1 * b'.c1, Q);
    AddCong(a.c0 * b.c0, a'.c0 * b'.c0, w * (a.c1 * b.c1), w * (a'.c1 * b'.c1), Q);
    AddCong(a.c0 * b.c1, a'.c0 * b'.c1, a.c1 * b.c0, a'.c1 * b'.c0, Q);
  }

  lemma TimesPlus(a: Pair, b: Pair, c: Pair, w: int)
    ensures Times(a, Plus(b, c), w) == Plus(Times(a, b, w), Times(a, c, w))
    ensures Times(Plus(a, b), c, w) == Plus(Times(a, c, w), Times(b, c, w))
  {
    assert w * (a.c1 * (b.c1 + c.c1)) == w * (a.c1 * b.c1) + w * (a.c1 * c.c1);
    assert w * ((a.c1 + b.c1) * c.c1) == w * (a.c1 * c.c1) + w * (b.c1 * c.c1);
  }

  lemma TimesSwap(a: Pair, b: Pair, c: Pair, w: int)
    ensures Times(Times(a, b, w), c, w) == Times(b, Times(a, c, w), w)
  {
    Expand(a.c0, a.c1, b.c0, b.c1, c.c0, c.c1, w);
  }

  lemma Expand(a0: int, a1: int, b0: int, b1: int, c0: int, c1: int, w: int)
    ensures (a0 * b0 + w * (a1 * b1)) * c0 + w * ((a0 * b1 + a1 * b0) * c1)
         == b0 * (a0 * c0 + w * (a1 * c1)) + w * (b1 * (a0 * c1 + a1 * c0))
    ensures (a0 * b0 + w * (a1 * b1)) * c1 + (a0 * b1 + a1 * b0) * c0
         == b0 * (a0 * c1 + a1 * c0) + b1 * (a0 * c0 + w * (a1 * c1))
  {
    Distribute(a0 * b0, w * (a1 * b1), c0);
    Distribute(a0 * b0, w * (a1 * b1), c1);
    Distribute(a0 * b1, a1 * b0, c0);
    Distribute(a0 * b1, a1 * b0, c1);
    Distribute(a0 * c0, w * (a1 * c1), b0);
    Distribute(a0 * c0, w * (a1 * c1), b1);
    Distribute(a0 * c1, a1 * c0, b0);
    Distribute(a0 * c1, a1 * c0, b1);
    Distribute((a0 * b1) * c1, (a1 * b0) * c1, w);
    Distribute((a0 * c1) * b1, (a1 * c0) * b1, w);
    Reorder(a0, b0, c0);
    Reorder(a0, b0, c1);
    Reorder(a0, b1, c0);
    Reorder(a0, b1, c1);
    Reorder(a1, b0, c0);
    Reorder(a1, b0, c1);
    Reorder(a1, b1, c0);
    Reorder(a1, b1, c1);
    Reorder(w, a1 * b1, c0);
    Reorder(w, a1 * b1, c1);
    Reorder(w, a1 * c1, b0);
    Reorder(w, a1 * c1, b1);
  }

  lemma Distribute(x: int, y: int, z: int)
    ensures (x + y) * z == x * z + y * z && z * (x + y) == x * z + y * z
  {}

  lemma Reorder(x: int, y: int, z: int)
    ensures (x * y) * z == x * (y * z) == (x * z) * y
  {}

  /** Sum of the products of two vectors at leaf k. */
  function DotP(a: seq<Poly>, b: seq<Poly>, k: nat): Pair
    requires |a| == |b| && k < 128
  {
    if a == [] then Zero
    else Plus(DotP(a[..|a| - 1], b[..|b| - 1], k), Times(At(a[|a| - 1], k), At(b[|b| - 1], k), Leaf(k)))
  }

  lemma MultiplyAt(f: Poly, g: Poly, k: nat)
    requires k < 128
    ensures Same(At(MultiplyNtts(f, g), k), Times(At(f, k), At(g, k), Leaf(k)))
  {
    MultiplyIsPairMul(f, g);
    hide LeafRoot, MultiplyNtts;
    var h := PairMul(R, f, g);
    assert (2 * k) / 2 == k && (2 * k + 1) / 2 == k;
    ModMod(Mul0(f[2 * k], f[2 * k + 1], g[2 * k], g[2 * k + 1], LeafRoot(R, k)), Q);
    ModMod(Mul1(f[2 * k], f[2 * k + 1], g[2 * k], g[2 * k + 1]), Q);
  }

  /** _poly_dot_ntt: the running sum of the products. */
  function PolyDot(a: seq<Poly>, b: seq<Poly>): Poly
    requires |a| == |b|
  {
    if a == [] then ZeroPoly()
    else PolyAdd(PolyDot(a[..|a| - 1], b[..|b| - 1]), MultiplyNtts(a[|a| - 1], b[|b| - 1]))
  }

  function ZeroPoly(): Poly { seq(256, i => 0) }

  lemma {:induction false} PolyDotAt(a: seq<Poly>, b: seq<Poly>, k: nat)
    requires |a| == |b| && k < 128
    ensures Same(At(PolyDot(a, b), k), DotP(a, b, k))
    decreases |a|
  {
    if a != [] {
      hide MultiplyNtts, Leaf, Times;
      var n := |a| - 1;
      PolyDotAt(a[..n], b[..n], k);
      MultiplyAt(a[n], b[n], k);
      SamePlus(At(PolyDot(a[..n], b[..n]), k), DotP(a[..n], b[..n], k),
               At(MultiplyNtts(a[n], b[n]), k), Times(At(a[n], k), At(b[n], k), Leaf(k)));
      AddAt(PolyDot(a[..n], b[..n]), MultiplyNtts(a[n], b[n]), k);
    }
  }

  lemma AddAt(f: Poly, g: Poly, k: nat)
    requires k < 128
    ensures Same(At(PolyAdd(f, g), k), Plus(At(f, k), At(g, k)))
    ensures Same(At(PolySub(f, g), k), Minus(At(f, k), At(g, k)))
  {}
}
