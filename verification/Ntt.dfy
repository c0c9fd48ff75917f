/** The number theoretic transform shared by ML-DSA and ML-KEM.

    Both modules run the same two triple loops and differ only in constants, so
    the loops are modelled once, over a Ring value: the modulus q, the root
    zeta, the number of index bits reversed for the twiddle table, the stride
    at which the splitting stops (1 for ML-DSA, 2 for ML-KEM), and the inverse
    of the block count used by the final scaling.

    Twiddle indices form a heap: the block that uses ZETAS[node] splits into
    the blocks that use ZETAS[2 node] and ZETAS[2 node + 1].  Fwd and Inv follow
    that heap depth first; the loops walk it level by level. */
module Ntt {
  import opened ModArith

  function BitRev(i: nat, n: nat): nat
  {
    if n == 0 then 0 else (if i % 2 == 1 then Exp2(n - 1) else 0) + BitRev(i / 2, n - 1)
  }

  datatype Ring = Ring(q: Modulus, zeta: int, bits: nat, stride: nat, inv: int)
  {
    ghost predicate Valid()
    {
      && stride >= 1
      && bits >= 1
      && Pow(zeta, Exp2(bits)) % q == (-1) % q
      && (inv * Exp2(bits)) % q == 1
    }

    /** Coefficients in a block with 2^d leaves. */
    function Size(d: nat): (r: nat)
      ensures r >= stride
    {
      if d == 0 then stride else 2 * Size(d - 1)
    }

    function N(): nat { Size(bits) }

    function Zeta(k: nat): int
    {
      Pow(zeta, BitRev(k, bits)) % q
    }

    /** The block of a node is a residue modulo X^size - Root(node). */
    function Root(node: nat): int
    {
      if node <= 1 then -1 else if node % 2 == 0 then Zeta(node / 2) else -Zeta(node / 2)
    }

    /** node is within the level d levels above the leaves, and mirror is the
        index the inverse loop uses where the forward loop uses node. */
    ghost predicate Paired(node: nat, mirror: nat, d: nat)
    {
      && d <= bits
      && 1 <= node < 2 * Exp2(bits - d)
      && 1 <= mirror < 2 * Exp2(bits - d)
      && (d >= 1 ==> BitRev(node, bits) + BitRev(mirror, bits) == Exp2(bits))
    }
  }

  // ----- the twiddle table

  lemma BitRevZero(n: nat)
    ensures BitRev(0, n) == 0
  {}

  lemma {:induction false} BitRevGrow(k: nat, n: nat)
    requires k < Exp2(n)
    ensures BitRev(k, n + 1) == 2 * BitRev(k, n)
  {
    if n > 0 {
      BitRevGrow(k / 2, n - 1);
    }
  }

  /** Doubling the exponent of a child node gives the exponent of its parent,
      plus half a turn for an odd child. */
  lemma {:induction false} BitRevChild(k: nat, n: nat)
    requires k < Exp2(n)
    ensures 2 * BitRev(k, n) == (if k % 2 == 1 then Exp2(n) else 0) + BitRev(k / 2, n)
  {
    if n > 0 {
      BitRevGrow(k / 2, n - 1);
    }
  }

  lemma ZetaPow(R: Ring, e: nat)
    requires R.Valid()
    ensures Pow(R.zeta, Exp2(R.bits) + e) % R.q == (-Pow(R.zeta, e)) % R.q
  {
    PowAdd(R.zeta, Exp2(R.bits), e);
    MulCong(Pow(R.zeta, Exp2(R.bits)), -1, Pow(R.zeta, e), Pow(R.zeta, e), R.q);
  }

  /** Each twiddle factor is a square root of the constant of its block. */
  lemma TwiddleSquare(R: Ring, k: nat)
    requires R.Valid() && 1 <= k < Exp2(R.bits)
    ensures (R.Zeta(k) * R.Zeta(k)) % R.q == R.Root(k) % R.q
  {
    var q, b, n := R.q, R.zeta, R.bits;
    var e := BitRev(k, n);
    MulReduce(Pow(b, e), Pow(b, e), q);
    PowAdd(b, e, e);
    BitRevChild(k, n);
    var up := BitRev(k / 2, n);
    if k == 1 {
      BitRevZero(n);
      assert 2 * e == Exp2(n);
    } else if k % 2 == 0 {
      ModMod(Pow(b, up), q);
    } else {
      ZetaPow(R, up);
      AddReduce(0, Pow(b, up), q);
    }
  }

  lemma PairedTop(R: Ring)
    requires R.Valid()
    ensures R.Paired(1, 1, R.bits)
  {
    BitRevChild(1, R.bits);
    BitRevZero(R.bits);
  }

  /** Children pair up crosswise. */
  lemma BitRevCross(n: nat, a: nat, b: nat)
    requires n >= 1 && 2 * a + 1 < Exp2(n) && 2 * b + 1 < Exp2(n)
    requires BitRev(a, n) + BitRev(b, n) == Exp2(n)
    ensures BitRev(2 * a, n) + BitRev(2 * b + 1, n) == Exp2(n)
  {
    BitRevChild(2 * a, n);
    BitRevChild(2 * b + 1, n);
    assert (2 * a) / 2 == a && (2 * b + 1) / 2 == b;
  }

  lemma PairedChildren(R: Ring, node: nat, mirror: nat, d: nat)
    requires R.Paired(node, mirror, d) && d >= 1
    ensures R.Paired(2 * node, 2 * mirror + 1, d - 1)
    ensures R.Paired(2 * node + 1, 2 * mirror, d - 1)
  {
    if d >= 2 {
      var n := R.bits;
      assert Exp2(n - d + 2) == 4 * Exp2(n - d) by { assert Exp2(n - d + 2) == 2 * Exp2(n - d + 1); }
      Exp2Monotone(n - d + 2, n);
      BitRevCross(n, node, mirror);
      BitRevCross(n, mirror, node);
    }
  }

  lemma TwiddlePaired(R: Ring, node: nat, mirror: nat, d: nat)
    requires R.Valid() && R.Paired(node, mirror, d) && d >= 1
    ensures (R.Zeta(node) * R.Zeta(mirror)) % R.q == (-1) % R.q
  {
    var e, e' := BitRev(node, R.bits), BitRev(mirror, R.bits);
    MulReduce(Pow(R.zeta, e), Pow(R.zeta, e'), R.q);
    PowAdd(R.zeta, e, e');
  }

  /** A node reached from a leaf by going up d levels. */
  function Up(leaf: nat, d: nat): nat
  {
    if d == 0 then leaf else Up(leaf, d - 1) / 2
  }

  lemma {:induction false} UpIndex(node: nat, d: nat, i: nat)
    requires i < Exp2(d)
    ensures Up(node * Exp2(d) + i, d) == node
    decreases d
  {
    if d == 0 {
      assert node * Exp2(0) == node;
    } else {
      var h := Exp2(d - 1);
      var c, j := if i < h then 2 * node else 2 * node + 1, if i < h then i else i - h;
      ChildStart(node, h);
      UpIndex(c, d - 1, j);
    }
  }

  lemma ChildStart(node: nat, h: nat)
    ensures node * (2 * h) == 2 * node * h && (2 * node + 1) * h == node * (2 * h) + h
  {}

  /** Every leaf constant, raised to the size of an enclosing block in strides,
      is the constant of that block. */
  lemma {:induction false} RootPow(R: Ring, leaf: nat, d: nat)
    requires R.Valid() && 1 <= leaf < 2 * Exp2(R.bits)
    requires Up(leaf, d) >= 1
    ensures Up(leaf, d) <= leaf
    ensures Pow(R.Root(leaf), Exp2(d)) % R.q == R.Root(Up(leaf, d)) % R.q
    decreases d
  {
    var w := R.Root(leaf);
    if d == 0 {
      assert Pow(w, 1) == w * Pow(w, 0);
    } else {
      RootPow(R, leaf, d - 1);
      var c := Up(leaf, d - 1);
      RootSquare(R, c);
      PowDouble(w, Exp2(d - 1), R.Root(c), R.Root(c / 2), R.q);
    }
  }

  lemma RootSquare(R: Ring, c: nat)
    requires R.Valid() && 2 <= c < 2 * Exp2(R.bits)
    ensures (R.Root(c) * R.Root(c)) % R.q == R.Root(c / 2) % R.q
  {
    TwiddleSquare(R, c / 2);
    var z := R.Zeta(c / 2);
    assert (-z) * (-z) == z * z;
  }

  // ----- the transform as a recursive function

  /** One half of a Cooley-Tukey butterfly: x + sign * (z * y mod q), modulo q. */
  function FoldAt(x: int, y: int, z: int, sign: int, q: Modulus): int
  {
    (x + sign * ((z * y) % q)) % q
  }

  function Fold(lo: seq<int>, hi: seq<int>, z: int, sign: int, q: Modulus): (r: seq<int>)
    requires |lo| == |hi|
    ensures |r| == |lo|
  {
    seq(|lo|, j requires 0 <= j < |lo| => FoldAt(lo[j], hi[j], z, sign, q))
  }

  function Fwd(R: Ring, f: seq<int>, node: nat, d: nat): (r: seq<int>)
    requires |f| == R.Size(d)
    ensures |r| == |f|
    decreases d, |f|
  {
    if d == 0 then f
    else
      var h := R.Size(d - 1);
      Fwd(R, Fold(f[..h], f[h..], R.Zeta(node), 1, R.q), 2 * node, d - 1)
      + Fwd(R, Fold(f[..h], f[h..], R.Zeta(node), -1, R.q), 2 * node + 1, d - 1)
  }

  function SumAt(x: int, y: int, q: Modulus): int { (x + y) % q }

  function ScaledDiffAt(x: int, y: int, z: int, q: Modulus): int { (z * (y - x)) % q }

  function Sum(lo: seq<int>, hi: seq<int>, q: Modulus): (r: seq<int>)
    requires |lo| == |hi|
    ensures |r| == |lo|
  {
    seq(|lo|, j requires 0 <= j < |lo| => SumAt(lo[j], hi[j], q))
  }

  function ScaledDiff(lo: seq<int>, hi: seq<int>, z: int, q: Modulus): (r: seq<int>)
    requires |lo| == |hi|
    ensures |r| == |lo|
  {
    seq(|lo|, j requires 0 <= j < |lo| => ScaledDiffAt(lo[j], hi[j], z, q))
  }

  function Inv(R: Ring, g: seq<int>, mirror: nat, d: nat): (r: seq<int>)
    requires |g| == R.Size(d)
    ensures |r| == |g|
    decreases d, |g|
  {
    if d == 0 then g
    else
      var h := R.Size(d - 1);
      var lo := Inv(R, g[..h], 2 * mirror + 1, d - 1);
      var hi := Inv(R, g[h..], 2 * mirror, d - 1);
      Sum(lo, hi, R.q) + ScaledDiff(lo, hi, R.Zeta(mirror), R.q)
  }

  function Forward(R: Ring, f: seq<int>): (r: seq<int>)
    requires |f| == R.N()
    ensures |r| == R.N()
  {
    Fwd(R, f, 1, R.bits)
  }

  function Scale(f: seq<int>, c: int, q: Modulus): (r: seq<int>)
    ensures |r| == |f|
  {
    seq(|f|, j requires 0 <= j < |f| => (f[j] * c) % q)
  }

  function Inverse(R: Ring, g: seq<int>): (r: seq<int>)
    requires |g| == R.N()
    ensures |r| == R.N()
  {
    Scale(Inv(R, g, 1, R.bits), R.inv, R.q)
  }

  // ----- the two directions are inverse

  /** g is c times f, coefficient by coefficient, modulo q. */
  ghost predicate IsScaled(g: seq<int>, f: seq<int>, c: int, q: Modulus)
  {
    |g| == |f| && forall j :: 0 <= j < |f| ==> g[j] % q == (c * f[j]) % q
  }

  lemma FoldValue(lo: seq<int>, hi: seq<int>, z: int, sign: int, q: Modulus, j: nat)
    requires |lo| == |hi| && j < |lo|
    ensures Fold(lo, hi, z, sign, q)[j] == (lo[j] + sign * (z * hi[j])) % q
  {
    ModMod(z * hi[j], q);
    MulCong(sign, sign, (z * hi[j]) % q, z * hi[j], q);
    AddCong(lo[j], lo[j], sign * ((z * hi[j]) % q), sign * (z * hi[j]), q);
  }

  lemma FoldScaled(lo: seq<int>, hi: seq<int>, lo': seq<int>, hi': seq<int>,
                   z: int, sign: int, c: int, q: Modulus)
    requires |lo| == |hi| && |lo'| == |hi'|
    requires IsScaled(lo', lo, c, q) && IsScaled(hi', hi, c, q)
    ensures IsScaled(Fold(lo', hi', z, sign, q), Fold(lo, hi, z, sign, q), c, q)
  {
    forall j | 0 <= j < |lo|
      ensures Fold(lo', hi', z, sign, q)[j] % q == (c * Fold(lo, hi, z, sign, q)[j]) % q
    {
      FoldValue(lo, hi, z, sign, q, j);
      FoldValue(lo', hi', z, sign, q, j);
      var t, t' := z * hi[j], z * hi'[j];
      MulCong(z, z, hi'[j], c * hi[j], q);
      assert z * (c * hi[j]) == c * t;
      MulCong(sign, sign, t', c * t, q);
      AddCong(lo'[j], c * lo[j], sign * t', sign * (c * t), q);
      assert c * lo[j] + sign * (c * t) == c * (lo[j] + sign * t);
      ModMod(lo'[j] + sign * t', q);
      MulReduce(c, lo[j] + sign * t, q);
    }
  }

  /** The transform is homogeneous; with c = 1 it only sees residues. */
  lemma {:induction false} FwdScaled(R: Ring, f: seq<int>, f': seq<int>, node: nat, d: nat, c: int)
    requires |f| == R.Size(d) && IsScaled(f', f, c, R.q)
    ensures IsScaled(Fwd(R, f', node, d), Fwd(R, f, node, d), c, R.q)
    decreases d
  {
    if d > 0 {
      var h, z, q := R.Size(d - 1), R.Zeta(node), R.q;
      FoldScaled(f[..h], f[h..], f'[..h], f'[h..], z, 1, c, q);
      FoldScaled(f[..h], f[h..], f'[..h], f'[h..], z, -1, c, q);
      FwdScaled(R, Fold(f[..h], f[h..], z, 1, q), Fold(f'[..h], f'[h..], z, 1, q), 2 * node, d - 1, c);
      FwdScaled(R, Fold(f[..h], f[h..], z, -1, q), Fold(f'[..h], f'[h..], z, -1, q), 2 * node + 1, d - 1, c);
    }
  }

  /** Undoing one forward butterfly: the sum is 2 lo and the scaled difference 2 hi. */
  lemma ButterflyUndo(x: int, y: int, lo: int, hi: int, z: int, z': int, c: int, q: Modulus)
    requires (z * z') % q == (-1) % q
    requires x % q == (c * (lo + z * hi)) % q
    requires y % q == (c * (lo - z * hi)) % q
    ensures (x + y) % q == (2 * c * lo) % q
    ensures (z' * (y - x)) % q == (2 * c * hi) % q
  {
    AddCong(x, c * (lo + z * hi), y, c * (lo - z * hi), q);
    assert c * (lo + z * hi) + c * (lo - z * hi) == 2 * c * lo;
    AddCong(y, c * (lo - z * hi), x, c * (lo + z * hi), q);
    var t := -2 * c * hi;
    assert c * (lo - z * hi) - c * (lo + z * hi) == z * t;
    MulCong(z', z', y - x, z * t, q);
    MulCong(z * z', -1, t, t, q);
    assert z' * (z * t) == (z * z') * t;
    assert -1 * t == 2 * c * hi;
  }

  /** One inverse butterfly level over two scaled halves. */
  lemma UndoHalves(lo: seq<int>, hi: seq<int>, x: seq<int>, y: seq<int>, z: int, z': int, c: int, q: Modulus)
    requires |lo| == |hi| && (z * z') % q == (-1) % q
    requires IsScaled(x, Fold(lo, hi, z, 1, q), c, q)
    requires IsScaled(y, Fold(lo, hi, z, -1, q), c, q)
    ensures IsScaled(Sum(x, y, q) + ScaledDiff(x, y, z', q), lo + hi, 2 * c, q)
  {
    forall j | 0 <= j < |lo|
      ensures Sum(x, y, q)[j] % q == (2 * c * lo[j]) % q
      ensures ScaledDiff(x, y, z', q)[j] % q == (2 * c * hi[j]) % q
    {
      FoldValue(lo, hi, z, 1, q, j);
      FoldValue(lo, hi, z, -1, q, j);
      MulReduce(c, lo[j] + z * hi[j], q);
      MulReduce(c, lo[j] - z * hi[j], q);
      ButterflyUndo(x[j], y[j], lo[j], hi[j], z, z', c, q);
      ModMod(x[j] + y[j], q);
      ModMod(z' * (y[j] - x[j]), q);
    }
  }

  lemma FwdSplit(R: Ring, lo: seq<int>, hi: seq<int>, node: nat, d: nat)
    requires d >= 1 && |lo| == |hi| == R.Size(d - 1)
    ensures Fwd(R, lo + hi, node, d)
         == Fwd(R, Fold(lo, hi, R.Zeta(node), 1, R.q), 2 * node, d - 1)
            + Fwd(R, Fold(lo, hi, R.Zeta(node), -1, R.q), 2 * node + 1, d - 1)
  {
    var f, h := lo + hi, R.Size(d - 1);
    assert f[..h] == lo && f[h..] == hi;
  }

  lemma InvSplit(R: Ring, x: seq<int>, y: seq<int>, mirror: nat, d: nat)
    requires d >= 1 && |x| == |y| == R.Size(d - 1)
    ensures var lo := Inv(R, x, 2 * mirror + 1, d - 1);
            var hi := Inv(R, y, 2 * mirror, d - 1);
            Inv(R, x + y, mirror, d) == Sum(lo, hi, R.q) + ScaledDiff(lo, hi, R.Zeta(mirror), R.q)
  {
    var g, h := x + y, R.Size(d - 1);
    assert g[..h] == x && g[h..] == y;
  }

  lemma {:induction false} InvFwd(R: Ring, f: seq<int>, node: nat, mirror: nat, d: nat)
    requires R.Valid() && R.Paired(node, mirror, d) && |f| == R.Size(d)
    ensures IsScaled(Inv(R, Fwd(R, f, node, d), mirror, d), f, Exp2(d), R.q)
    decreases d, 0
  {
    hide Ring.Valid, Ring.Paired, IsScaled;
    if d > 0 {
      var h := R.Size(d - 1);
      assert f == f[..h] + f[h..];
      InvFwdNode(R, f[..h], f[h..], node, mirror, d - 1);
    } else {
      UnitScale(f, R.q);
    }
  }

  lemma {:induction false} InvFwdNode(R: Ring, lo: seq<int>, hi: seq<int>, node: nat, mirror: nat, d: nat)
    requires R.Valid() && R.Paired(node, mirror, d + 1) && |lo| == |hi| == R.Size(d)
    ensures IsScaled(Inv(R, Fwd(R, lo + hi, node, d + 1), mirror, d + 1), lo + hi, Exp2(d + 1), R.q)
    decreases d, 1
  {
    hide Ring.Valid, Ring.Paired, IsScaled, Sum, ScaledDiff, Fold, Fwd, Inv;
    var z, z' := R.Zeta(node), R.Zeta(mirror);
    TwiddlePaired(R, node, mirror, d + 1);
    PairedChildren(R, node, mirror, d + 1);
    var a, b := Fold(lo, hi, z, 1, R.q), Fold(lo, hi, z, -1, R.q);
    FwdSplit(R, lo, hi, node, d + 1);
    InvFwd(R, a, 2 * node, 2 * mirror + 1, d);
    InvFwd(R, b, 2 * node + 1, 2 * mirror, d);
    var ga, gb := Fwd(R, a, 2 * node, d), Fwd(R, b, 2 * node + 1, d);
    InvSplit(R, ga, gb, mirror, d + 1);
    UndoHalves(lo, hi, Inv(R, ga, 2 * mirror + 1, d), Inv(R, gb, 2 * mirror, d), z, z', Exp2(d), R.q);
  }

  lemma UnitScale(f: seq<int>, q: Modulus)
    ensures IsScaled(f, f, Exp2(0), q)
  {
    assert forall j :: 0 <= j < |f| ==> Exp2(0) * f[j] == f[j];
  }

  /** One forward butterfly level over the result of an inverse one. */
  lemma RedoHalves(lo: seq<int>, hi: seq<int>, z: int, z': int, q: Modulus)
    requires |lo| == |hi| && (z * z') % q == (-1) % q
    ensures IsScaled(Fold(Sum(lo, hi, q), ScaledDiff(lo, hi, z', q), z, 1, q), lo, 2, q)
    ensures IsScaled(Fold(Sum(lo, hi, q), ScaledDiff(lo, hi, z', q), z, -1, q), hi, 2, q)
  {
    var s, t := Sum(lo, hi, q), ScaledDiff(lo, hi, z', q);
    forall j | 0 <= j < |lo|
      ensures Fold(s, t, z, 1, q)[j] % q == (2 * lo[j]) % q
      ensures Fold(s, t, z, -1, q)[j] % q == (2 * hi[j]) % q
    {
      ButterflyRedo(lo[j], hi[j], s[j], t[j], z, z', q);
      FoldValue(s, t, z, 1, q, j);
      FoldValue(s, t, z, -1, q, j);
      ModMod(s[j] + z * t[j], q);
      ModMod(s[j] - z * t[j], q);
    }
  }

  lemma {:induction false} FwdInv(R: Ring, g: seq<int>, node: nat, mirror: nat, d: nat)
    requires R.Valid() && R.Paired(node, mirror, d) && |g| == R.Size(d)
    ensures IsScaled(Fwd(R, Inv(R, g, mirror, d), node, d), g, Exp2(d), R.q)
    decreases d, 0
  {
    hide Ring.Valid, Ring.Paired, IsScaled;
    if d > 0 {
      var h := R.Size(d - 1);
      assert g == g[..h] + g[h..];
      FwdInvNode(R, g[..h], g[h..], node, mirror, d - 1);
    } else {
      UnitScale(g, R.q);
    }
  }

  lemma {:induction false} FwdInvNode(R: Ring, x: seq<int>, y: seq<int>, node: nat, mirror: nat, d: nat)
    requires R.Valid() && R.Paired(node, mirror, d + 1) && |x| == |y| == R.Size(d)
    ensures IsScaled(Fwd(R, Inv(R, x + y, mirror, d + 1), node, d + 1), x + y, Exp2(d + 1), R.q)
    decreases d, 2
  {
    hide Ring.Valid, Ring.Paired, IsScaled, Sum, ScaledDiff, Fold, Fwd, Inv;
    var z, z' := R.Zeta(node), R.Zeta(mirror);
    TwiddlePaired(R, node, mirror, d + 1);
    PairedChildren(R, node, mirror, d + 1);
    var lo, hi := Inv(R, x, 2 * mirror + 1, d), Inv(R, y, 2 * mirror, d);
    InvSplit(R, x, y, mirror, d + 1);
    RedoHalves(lo, hi, z, z', R.q);
    var s, t := Sum(lo, hi, R.q), ScaledDiff(lo, hi, z', R.q);
    var a, b := Fold(s, t, z, 1, R.q), Fold(s, t, z, -1, R.q);
    FwdSplit(R, s, t, node, d + 1);
    FwdHalf(R, a, lo, x, 2 * node, 2 * mirror + 1, d);
    FwdHalf(R, b, hi, y, 2 * node + 1, 2 * mirror, d);
    ScaledConcat(Fwd(R, a, 2 * node, d), x, Fwd(R, b, 2 * node + 1, d), y, Exp2(d + 1), R.q);
  }

  /** The induction hypothesis of FwdInv on a block that is twice lo. */
  lemma {:induction false} FwdHalf(R: Ring, a: seq<int>, lo: seq<int>, g: seq<int>, node: nat, mirror: nat, d: nat)
    requires R.Valid() && R.Paired(node, mirror, d) && |g| == R.Size(d)
    requires lo == Inv(R, g, mirror, d) && IsScaled(a, lo, 2, R.q)
    ensures IsScaled(Fwd(R, a, node, d), g, 2 * Exp2(d), R.q)
    decreases d, 1
  {
    FwdScaled(R, lo, a, node, d, 2);
    FwdInv(R, g, node, mirror, d);
    TwiceScaled(Fwd(R, a, node, d), Fwd(R, lo, node, d), g, Exp2(d), R.q);
  }

  lemma ScaledConcat(x: seq<int>, f: seq<int>, y: seq<int>, g: seq<int>, c: int, q: Modulus)
    requires IsScaled(x, f, c, q) && IsScaled(y, g, c, q)
    ensures IsScaled(x + y, f + g, c, q)
  {}

  lemma TwiceScaled(x: seq<int>, y: seq<int>, g: seq<int>, c: int, q: Modulus)
    requires IsScaled(x, y, 2, q) && IsScaled(y, g, c, q)
    ensures IsScaled(x, g, 2 * c, q)
  {
    forall j | 0 <= j < |g| ensures x[j] % q == (2 * c * g[j]) % q {
      MulCong(2, 2, y[j], c * g[j], q);
      assert 2 * (c * g[j]) == 2 * c * g[j];
    }
  }

  lemma ButterflyRedo(x: int, y: int, lo: int, hi: int, z: int, z': int, q: Modulus)
    requires (z * z') % q == (-1) % q
    requires lo == (x + y) % q
    requires hi == (z' * (y - x)) % q
    ensures (lo + z * hi) % q == (2 * x) % q
    ensures (lo - z * hi) % q == (2 * y) % q
  {
    ModMod(x + y, q);
    MulReduce(z, z' * (y - x), q);
    assert z * (z' * (y - x)) == (z * z') * (y - x);
    MulCong(z * z', -1, y - x, y - x, q);
    AddCong(lo, x + y, z * hi, x - y, q);
  }

  ghost predicate Canonical(f: seq<int>, q: Modulus)
  {
    forall j :: 0 <= j < |f| ==> 0 <= f[j] < q
  }

  function Reduced(f: seq<int>, q: Modulus): (r: seq<int>)
    ensures |r| == |f|
  {
    seq(|f|, j requires 0 <= j < |f| => f[j] % q)
  }

  lemma {:induction false} FwdCanonical(R: Ring, f: seq<int>, node: nat, d: nat)
    requires |f| == R.Size(d)
    requires d > 0 || Canonical(f, R.q)
    ensures Canonical(Fwd(R, f, node, d), R.q)
    decreases d
  {
    if d > 0 {
      var h := R.Size(d - 1);
      FwdCanonical(R, Fold(f[..h], f[h..], R.Zeta(node), 1, R.q), 2 * node, d - 1);
      FwdCanonical(R, Fold(f[..h], f[h..], R.Zeta(node), -1, R.q), 2 * node + 1, d - 1);
    }
  }

  lemma UnscaleOne(x: int, f: int, c: int, inv: int, q: Modulus)
    requires (inv * c) % q == 1
    requires x % q == (c * f) % q
    ensures (x * inv) % q == f % q
  {
    MulCong(x, c * f, inv, inv, q);
    SmallMod(1, q);
    MulCong(inv * c, 1, f, f, q);
    assert c * f * inv == inv * c * f;
  }

  /** _ntt_inv(_ntt(f)) is f modulo q, for every f. */
  lemma InverseForward(R: Ring, f: seq<int>)
    requires R.Valid() && |f| == R.N()
    ensures Inverse(R, Forward(R, f)) == Reduced(f, R.q)
  {
    PairedTop(R);
    InvFwd(R, f, 1, 1, R.bits);
    var x := Inv(R, Forward(R, f), 1, R.bits);
    forall j | 0 <= j < |f| ensures (x[j] * R.inv) % R.q == f[j] % R.q {
      UnscaleOne(x[j], f[j], Exp2(R.bits), R.inv, R.q);
    }
  }

  /** _ntt(_ntt_inv(g)) is g modulo q, for every g. */
  lemma ForwardInverse(R: Ring, g: seq<int>)
    requires R.Valid() && |g| == R.N()
    ensures Forward(R, Inverse(R, g)) == Reduced(g, R.q)
  {
    var q := R.q;
    var x := Inv(R, g, 1, R.bits);
    var y := Inverse(R, g);
    forall j | 0 <= j < |x| ensures y[j] % q == (R.inv * x[j]) % q {
      ModMod(x[j] * R.inv, q);
      assert x[j] * R.inv == R.inv * x[j];
    }
    FwdScaled(R, x, y, 1, R.bits, R.inv);
    PairedTop(R);
    FwdInv(R, g, 1, 1, R.bits);
    FwdCanonical(R, y, 1, R.bits);
    var a, b := Forward(R, y), Forward(R, x);
    forall j | 0 <= j < |g| ensures a[j] == g[j] % q {
      assert a[j] % q == (R.inv * b[j]) % q;
      UnscaleOne(b[j], g[j], Exp2(R.bits), R.inv, q);
      assert b[j] * R.inv == R.inv * b[j];
      SmallMod(a[j], q);
    }
  }

  lemma {:induction false} SizeStrides(R: Ring, d: nat)
    ensures R.Size(d) == Exp2(d) * R.stride
  {
    if d > 0 {
      SizeStrides(R, d - 1);
    }
  }
}
