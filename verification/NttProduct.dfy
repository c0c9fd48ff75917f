/** What the transform means: each output block is the input polynomial reduced
    modulo a leaf polynomial X^stride - root.  It follows that the transform
    turns products in Z_q[X]/(X^n + 1) into products leaf by leaf. */
module NttProduct {
  import opened ModArith
  import opened Ntt

  /** Coefficient r of f modulo X^s - w. */
  function Residue(f: seq<int>, s: nat, r: nat, w: int): int
    requires r < s
  {
    if |f| < s then 0 else f[r] + w * Residue(f[s..], s, r, w)
  }

  lemma {:induction false} ResidueConcat(x: seq<int>, y: seq<int>, s: nat, r: nat, w: int, c: nat)
    requires r < s && |x| == c * s
    ensures Residue(x + y, s, r, w) == Residue(x, s, r, w) + Pow(w, c) * Residue(y, s, r, w)
    decreases c
  {
    if c == 0 {
      assert x + y == y;
    } else {
      StridesLeft(c, s);
      assert (x + y)[s..] == x[s..] + y;
      ResidueConcat(x[s..], y, s, r, w, c - 1);
      ConcatStep(x[r], w, Residue(x[s..], s, r, w), Pow(w, c - 1), Residue(y, s, r, w));
    }
  }

  lemma StridesLeft(c: nat, s: nat)
    requires c >= 1
    ensures c * s == s + (c - 1) * s
    ensures (c - 1) * s >= 0
  {}

  lemma ConcatStep(a: int, w: int, u: int, p: int, t: int)
    ensures a + w * (u + p * t) == (a + w * u) + (w * p) * t
  {}

  /** g is a x + b y, coefficient by coefficient, modulo q. */
  ghost predicate IsLinear(g: seq<int>, a: int, x: seq<int>, b: int, y: seq<int>, q: Modulus)
  {
    |g| == |x| == |y| && forall j :: 0 <= j < |g| ==> g[j] % q == (a * x[j] + b * y[j]) % q
  }

  lemma {:induction false} ResidueLinear(g: seq<int>, a: int, x: seq<int>, b: int, y: seq<int>,
                                         s: nat, r: nat, w: int, q: Modulus)
    requires r < s && IsLinear(g, a, x, b, y, q)
    ensures Residue(g, s, r, w) % q == (a * Residue(x, s, r, w) + b * Residue(y, s, r, w)) % q
    decreases |g|
  {
    if |g| >= s {
      assert IsLinear(g[s..], a, x[s..], b, y[s..], q);
      ResidueLinear(g[s..], a, x[s..], b, y[s..], s, r, w, q);
      var u, v := Residue(x[s..], s, r, w), Residue(y[s..], s, r, w);
      LinearStep(g[r], Residue(g[s..], s, r, w), a, x[r], u, b, y[r], v, w, q);
    }
  }

  lemma LinearStep(g0: int, g1: int, a: int, x0: int, x1: int, b: int, y0: int, y1: int, w: int, q: Modulus)
    requires g0 % q == (a * x0 + b * y0) % q && g1 % q == (a * x1 + b * y1) % q
    ensures (g0 + w * g1) % q == (a * (x0 + w * x1) + b * (y0 + w * y1)) % q
  {
    MulCong(w, w, g1, a * x1 + b * y1, q);
    AddCong(g0, a * x0 + b * y0, w * g1, w * (a * x1 + b * y1), q);
    assert a * (x0 + w * x1) + b * (y0 + w * y1) == a * x0 + b * y0 + w * (a * x1 + b * y1);
  }

  /** One butterfly evaluates a block at a root of either half. */
  lemma FoldEval(R: Ring, lo: seq<int>, hi: seq<int>, z: int, sign: int, d: nat, r: nat, w: int)
    requires |lo| == |hi| == R.Size(d) && r < R.stride
    requires Pow(w, Exp2(d)) % R.q == (sign * z) % R.q
    ensures Residue(Fold(lo, hi, z, sign, R.q), R.stride, r, w) % R.q
         == Residue(lo + hi, R.stride, r, w) % R.q
  {
    var s, q := R.stride, R.q;
    var f := Fold(lo, hi, z, sign, q);
    forall j | 0 <= j < |f| ensures f[j] % q == (1 * lo[j] + (sign * z) * hi[j]) % q {
      FoldValue(lo, hi, z, sign, q, j);
      ModMod(lo[j] + sign * (z * hi[j]), q);
      assert sign * (z * hi[j]) == (sign * z) * hi[j];
    }
    ResidueLinear(f, 1, lo, sign * z, hi, s, r, w, q);
    SizeStrides(R, d);
    ResidueConcat(lo, hi, s, r, w, Exp2(d));
    var t := Residue(hi, s, r, w);
    MulCong(Pow(w, Exp2(d)), sign * z, t, t, q);
    AddCong(Residue(lo, s, r, w), Residue(lo, s, r, w), Pow(w, Exp2(d)) * t, (sign * z) * t, q);
  }

  /** Every entry under a node is the node's block reduced at its leaf. */
  lemma {:induction false} FwdEval(R: Ring, f: seq<int>, node: nat, d: nat, i: nat, r: nat)
    requires R.Valid() && 1 <= node && |f| == R.Size(d) && i < Exp2(d) && r < R.stride
    requires (node + 1) * Exp2(d) <= 2 * Exp2(R.bits)
    ensures 0 <= i * R.stride + r < R.Size(d)
    ensures Fwd(R, f, node, d)[i * R.stride + r] % R.q
         == Residue(f, R.stride, r, R.Root(node * Exp2(d) + i)) % R.q
    decreases d, 0
  {
    hide Ring.Valid, Ring.Root;
    if d > 0 {
      var h := R.Size(d - 1);
      assert f == f[..h] + f[h..];
      FwdEvalNode(R, f[..h], f[h..], node, d - 1, i, r);
    } else {
      assert i == 0 && node * Exp2(0) == node;
      assert Residue(f[R.stride..], R.stride, r, R.Root(node)) == 0;
    }
  }

  lemma {:induction false} FwdEvalNode(R: Ring, lo: seq<int>, hi: seq<int>, node: nat, d: nat, i: nat, r: nat)
    requires R.Valid() && 1 <= node && |lo| == |hi| == R.Size(d) && i < 2 * Exp2(d) && r < R.stride
    requires (node + 1) * (2 * Exp2(d)) <= 2 * Exp2(R.bits)
    ensures 0 <= i * R.stride + r < 2 * R.Size(d)
    ensures Fwd(R, lo + hi, node, d + 1)[i * R.stride + r] % R.q
         == Residue(lo + hi, R.stride, r, R.Root(node * (2 * Exp2(d)) + i)) % R.q
    decreases d, 1
  {
    hide Ring.Valid, Ring.Zeta, Fwd, Fold;
    var e, s, z := Exp2(d), R.stride, R.Zeta(node);
    FwdSplit(R, lo, hi, node, d + 1);
    SizeStrides(R, d);
    ChildLeaf(node, e, i, s);
    var c, j, sign := if i < e then 2 * node else 2 * node + 1, if i < e then i else i - e, if i < e then 1 else -1;
    var w := R.Root(node * (2 * e) + i);
    ChildRoot(R, c, d, j);
    FoldEval(R, lo, hi, z, sign, d, r, w);
    FwdEval(R, Fold(lo, hi, z, sign, R.q), c, d, j, r);
  }

  lemma ChildLeaf(node: nat, e: nat, i: nat, s: nat)
    requires i < 2 * e
    ensures i < e ==> node * (2 * e) + i == (2 * node) * e + i
    ensures i >= e ==> node * (2 * e) + i == (2 * node + 1) * e + (i - e)
    ensures i >= e ==> i * s == e * s + (i - e) * s
    ensures (2 * node + 1) * e <= (2 * node + 2) * e == (node + 1) * (2 * e)
  {}

  lemma ChildRoot(R: Ring, c: nat, d: nat, j: nat)
    requires R.Valid() && c >= 2 && j < Exp2(d)
    requires (c + 1) * Exp2(d) <= 2 * Exp2(R.bits)
    ensures Pow(R.Root(c * Exp2(d) + j), Exp2(d)) % R.q == R.Root(c) % R.q
  {
    UpIndex(c, d, j);
    assert c * Exp2(d) + j < (c + 1) * Exp2(d);
    assert c * Exp2(d) >= 1;
    RootPow(R, c * Exp2(d) + j, d);
  }

  /** The root of leaf i. */
  function LeafRoot(R: Ring, i: nat): int
  {
    R.Root(Exp2(R.bits) + i)
  }

  /** _ntt(f) lists the residues of f at the leaves. */
  lemma ForwardIsEvaluation(R: Ring, f: seq<int>, i: nat, r: nat)
    requires R.Valid() && |f| == R.N() && i < Exp2(R.bits) && r < R.stride
    ensures 0 <= i * R.stride + r < R.N()
    ensures Forward(R, f)[i * R.stride + r] == Residue(f, R.stride, r, LeafRoot(R, i)) % R.q
  {
    hide Pow, Residue, Fwd, Ring.Root;
    FwdEval(R, f, 1, R.bits, i, r);
    FwdCanonical(R, f, 1, R.bits);
    SmallMod(Forward(R, f)[i * R.stride + r], R.q);
  }

  lemma LeafOf(R: Ring, n: nat)
    requires R.stride >= 1 && n < R.N()
    ensures n / R.stride < Exp2(R.bits) && n % R.stride < R.stride
    ensures (n / R.stride) * R.stride + n % R.stride == n
  {
    SizeStrides(R, R.bits);
    var s, i := R.stride, n / R.stride;
    assert n == s * i + n % s;
    if i >= Exp2(R.bits) {
      MulLe(Exp2(R.bits), i, s);
    }
  }

  lemma ForwardLinearAt(R: Ring, g: seq<int>, a: int, x: seq<int>, b: int, y: seq<int>, n: nat)
    requires R.Valid() && |g| == |x| == |y| == R.N() && IsLinear(g, a, x, b, y, R.q) && n < R.N()
    ensures Forward(R, g)[n] % R.q == (a * Forward(R, x)[n] + b * Forward(R, y)[n]) % R.q
  {
    assert R.stride >= 1;
    LeafOf(R, n);
    hide Ring.Valid, Forward, LeafRoot, Residue, IsLinear, Ring.Size;
    var i, r := n / R.stride, n % R.stride;
    var w := LeafRoot(R, i);
    ForwardIsEvaluation(R, g, i, r);
    ForwardIsEvaluation(R, x, i, r);
    ForwardIsEvaluation(R, y, i, r);
    ResidueLinear(g, a, x, b, y, R.stride, r, w, R.q);
    LinearReduced(a, Residue(x, R.stride, r, w), b, Residue(y, R.stride, r, w), R.q);
    ModMod(Residue(g, R.stride, r, w), R.q);
  }

  lemma LinearReduced(a: int, u: int, b: int, v: int, q: Modulus)
    ensures (a * (u % q) + b * (v % q)) % q == (a * u + b * v) % q
  {
    MulReduce(a, u, q);
    MulReduce(b, v, q);
    AddCong(a * (u % q), a * u, b * (v % q), b * v, q);
  }

  /** The transform is linear modulo q. */
  lemma ForwardLinear(R: Ring, g: seq<int>, a: int, x: seq<int>, b: int, y: seq<int>)
    requires R.Valid() && |g| == |x| == |y| == R.N() && IsLinear(g, a, x, b, y, R.q)
    ensures IsLinear(Forward(R, g), a, Forward(R, x), b, Forward(R, y), R.q)
  {
    hide Ring.Valid, Forward;
    forall n | 0 <= n < R.N()
      ensures Forward(R, g)[n] % R.q == (a * Forward(R, x)[n] + b * Forward(R, y)[n]) % R.q
    {
      ForwardLinearAt(R, g, a, x, b, y, n);
    }
  }

  /** A leaf root is a root of X^(n / stride) + 1. */
  lemma LeafRootPow(R: Ring, i: nat)
    requires R.Valid() && i < Exp2(R.bits)
    ensures Pow(LeafRoot(R, i), Exp2(R.bits)) % R.q == (-1) % R.q
  {
    UpIndex(1, R.bits, i);
    RootPow(R, Exp2(R.bits) + i, R.bits);
  }

  // ----- the ring Z[X] / (X^n + 1)

  /** Coefficient t of g, where X^n = -1 gives the coefficients at -n <= t < 0. */
  function Wrapped(g: seq<int>, t: int): int
    requires -|g| <= t < |g|
  {
    if t >= 0 then g[t] else -g[|g| + t]
  }

  function ProductTail(f: seq<int>, g: seq<int>, i: nat, a: nat): int
    requires a <= |f| <= |g| && i < |g|
    decreases |f| - a
  {
    if a == |f| then 0 else f[a] * Wrapped(g, i - a) + ProductTail(f, g, i, a + 1)
  }

  /** The product of f and g in Z[X] / (X^n + 1), n being |g|. */
  function RingMul(f: seq<int>, g: seq<int>): (h: seq<int>)
    requires |f| <= |g|
    ensures |h| == |g|
  {
    seq(|g|, i requires 0 <= i < |g| => ProductTail(f, g, i, 0))
  }

  /** X times g. */
  function TimesX(g: seq<int>): (h: seq<int>)
    requires |g| >= 1
    ensures |h| == |g|
  {
    [-g[|g| - 1]] + g[..|g| - 1]
  }

  lemma {:induction false} TailShift(f: seq<int>, g: seq<int>, i: nat, a: nat)
    requires 1 <= |f| <= |g| && i < |g| && a < |f|
    ensures ProductTail(f, g, i, a + 1) == ProductTail(f[1..], TimesX(g), i, a)
    decreases |f| - a
  {
    if a + 1 < |f| {
      TailShift(f, g, i, a + 1);
      assert Wrapped(g, i - (a + 1)) == Wrapped(TimesX(g), i - a);
    }
  }

  /** Peeling the first coefficient of the left factor. */
  lemma MulPeel(f: seq<int>, g: seq<int>, i: nat)
    requires 1 <= |f| <= |g| && i < |g|
    ensures RingMul(f, g)[i] == f[0] * g[i] + RingMul(f[1..], TimesX(g))[i]
  {
    TailShift(f, g, i, 0);
  }

  // ----- residues of products

  /** Multiplying by X multiplies the value at w by w, when w^n = -1. */
  lemma EvalTimesX(g: seq<int>, w: int, q: Modulus)
    requires |g| >= 1 && Pow(w, |g|) % q == (-1) % q
    ensures Residue(TimesX(g), 1, 0, w) % q == (w * Residue(g, 1, 0, w)) % q
  {
    var n := |g| - 1;
    var last, u, p := g[n], Residue(g[..n], 1, 0, w), Pow(w, n);
    assert g == g[..n] + [last];
    assert n * 1 == n;
    ResidueConcat(g[..n], [last], 1, 0, w, n);
    SingleResidue(last, w);
    assert TimesX(g)[1..] == g[..n];
    assert Residue(TimesX(g), 1, 0, w) == -last + w * u;
    WrapStep(w, u, p, last, q);
  }

  lemma SingleResidue(a: int, w: int)
    ensures Residue([a], 1, 0, w) == a
  {
    assert Residue([a][1..], 1, 0, w) == 0;
  }

  lemma WrapStep(w: int, u: int, p: int, last: int, q: Modulus)
    requires (w * p) % q == (-1) % q
    ensures (-last + w * u) % q == (w * (u + p * last)) % q
  {
    MulCong(w * p, -1, last, last, q);
    AddCong(w * u, w * u, (w * p) * last, -last, q);
    assert w * (u + p * last) == w * u + (w * p) * last;
  }

  /** Peeling one coefficient of the left factor, seen at a residue. */
  lemma ResiduePeel(f: seq<int>, g: seq<int>, s: nat, r: nat, w: int, q: Modulus)
    requires r < s && 1 <= |f| <= |g|
    ensures Residue(RingMul(f, g), s, r, w) % q
         == (f[0] * Residue(g, s, r, w) + Residue(RingMul(f[1..], TimesX(g)), s, r, w)) % q
  {
    var h, t := RingMul(f, g), RingMul(f[1..], TimesX(g));
    forall i | 0 <= i < |g| ensures h[i] % q == (f[0] * g[i] + 1 * t[i]) % q {
      MulPeel(f, g, i);
    }
    ResidueLinear(h, f[0], g, 1, t, s, r, w, q);
  }

  /** Evaluation is multiplicative on Z[X] / (X^n + 1). */
  lemma {:induction false} EvalRingMul(f: seq<int>, g: seq<int>, w: int, q: Modulus)
    requires |f| <= |g| && |g| >= 1 && Pow(w, |g|) % q == (-1) % q
    ensures Residue(RingMul(f, g), 1, 0, w) % q
         == (Residue(f, 1, 0, w) * Residue(g, 1, 0, w)) % q
    decreases |f|
  {
    if f == [] {
      ResidueZero(RingMul(f, g), 1, 0, w);
    } else {
      hide RingMul, TimesX, Pow;
      var x := TimesX(g);
      ResiduePeel(f, g, 1, 0, w, q);
      EvalRingMul(f[1..], x, w, q);
      EvalTimesX(g, w, q);
      EvalStep(Residue(RingMul(f[1..], x), 1, 0, w), f[0], Residue(f[1..], 1, 0, w),
               Residue(x, 1, 0, w), Residue(g, 1, 0, w), w, q);
    }
  }

  lemma EvalStep(t: int, f0: int, rest: int, x: int, v: int, w: int, q: Modulus)
    requires t % q == (rest * x) % q && x % q == (w * v) % q
    ensures (f0 * v + t) % q == ((f0 + w * rest) * v) % q
  {
    MulCong(rest, rest, x, w * v, q);
    AddCong(f0 * v, f0 * v, t, rest * (w * v), q);
    assert (f0 + w * rest) * v == f0 * v + rest * (w * v);
  }

  lemma {:induction false} ResidueZero(h: seq<int>, s: nat, r: nat, w: int)
    requires r < s && forall i :: 0 <= i < |h| ==> h[i] == 0
    ensures Residue(h, s, r, w) == 0
    decreases |h|
  {
    if |h| >= s {
      ResidueZero(h[s..], s, r, w);
    }
  }

  // ----- stride two

  /** The even (r = 0) or odd (r = 1) coefficients. */
  function Half(g: seq<int>, r: nat): (h: seq<int>)
    requires |g| % 2 == 0 && r < 2
    ensures |h| == |g| / 2
  {
    seq(|g| / 2, j requires 0 <= j < |g| / 2 => g[2 * j + r])
  }

  lemma {:induction false} ResidueHalf(g: seq<int>, r: nat, w: int)
    requires |g| % 2 == 0 && r < 2
    ensures Residue(g, 2, r, w) == Residue(Half(g, r), 1, 0, w)
    decreases |g|
  {
    if |g| >= 2 {
      assert Half(g, r)[1..] == Half(g[2..], r);
      ResidueHalf(g[2..], r, w);
    }
  }

  lemma PairTimesX(g: seq<int>, w: int, q: Modulus)
    requires |g| >= 2 && |g| % 2 == 0 && Pow(w, |g| / 2) % q == (-1) % q
    ensures Residue(TimesX(g), 2, 1, w) == Residue(g, 2, 0, w)
    ensures Residue(TimesX(g), 2, 0, w) % q == (w * Residue(g, 2, 1, w)) % q
  {
    ResidueHalf(TimesX(g), 0, w);
    ResidueHalf(TimesX(g), 1, w);
    ResidueHalf(g, 0, w);
    ResidueHalf(g, 1, w);
    assert Half(TimesX(g), 1) == Half(g, 0);
    assert Half(TimesX(g), 0) == TimesX(Half(g, 1));
    EvalTimesX(Half(g, 1), w, q);
  }

  /** The two coefficients of the product of residues modulo X^2 - w. */
  function Mul0(a0: int, a1: int, b0: int, b1: int, w: int): int { a0 * b0 + w * (a1 * b1) }
  function Mul1(a0: int, a1: int, b0: int, b1: int): int { a0 * b1 + a1 * b0 }

  lemma PairStep0(r: int, u: int, t: int, x0: int, h0: int, h1: int,
                  f0: int, f1: int, F0: int, F1: int, G0: int, G1: int, w: int, q: Modulus)
    requires r % q == (f0 * G0 + u) % q && u % q == (f1 * x0 + t) % q && x0 % q == (w * G1) % q
    requires t % q == Mul0(F0, F1, h0, h1, w) % q && h0 % q == (w * G0) % q && h1 % q == (w * G1) % q
    ensures r % q == Mul0(f0 + w * F0, f1 + w * F1, G0, G1, w) % q
  {
    MulCong(F0, F0, h0, w * G0, q);
    MulCong(w * F1, w * F1, h1, w * G1, q);
    assert w * (F1 * h1) == w * F1 * h1;
    AddCong(F0 * h0, F0 * (w * G0), w * F1 * h1, w * F1 * (w * G1), q);
    MulCong(f1, f1, x0, w * G1, q);
    AddCong(f1 * x0, f1 * (w * G1), t, F0 * (w * G0) + w * F1 * (w * G1), q);
    AddCong(f0 * G0, f0 * G0, u, f1 * (w * G1) + (F0 * (w * G0) + w * F1 * (w * G1)), q);
    PairExpand0(f0, f1, F0, F1, G0, G1, w);
  }

  lemma PairExpand0(f0: int, f1: int, F0: int, F1: int, G0: int, G1: int, w: int)
    ensures f0 * G0 + (f1 * (w * G1) + (F0 * (w * G0) + w * F1 * (w * G1)))
         == Mul0(f0 + w * F0, f1 + w * F1, G0, G1, w)
  {
    assert (f0 + w * F0) * G0 == f0 * G0 + F0 * (w * G0);
    assert w * ((f1 + w * F1) * G1) == f1 * (w * G1) + w * F1 * (w * G1);
  }

  lemma PairStep1(r: int, u: int, t: int, h0: int, h1: int,
                  f0: int, f1: int, F0: int, F1: int, G0: int, G1: int, w: int, q: Modulus)
    requires r % q == (f0 * G1 + u) % q && u % q == (f1 * G0 + t) % q
    requires t % q == Mul1(F0, F1, h0, h1) % q && h0 % q == (w * G0) % q && h1 % q == (w * G1) % q
    ensures r % q == Mul1(f0 + w * F0, f1 + w * F1, G0, G1) % q
  {
    MulCong(F0, F0, h1, w * G1, q);
    MulCong(F1, F1, h0, w * G0, q);
    AddCong(F0 * h1, F0 * (w * G1), F1 * h0, F1 * (w * G0), q);
    AddCong(f1 * G0, f1 * G0, t, F0 * (w * G1) + F1 * (w * G0), q);
    AddCong(f0 * G1, f0 * G1, u, f1 * G0 + (F0 * (w * G1) + F1 * (w * G0)), q);
    PairExpand1(f0, f1, F0, F1, G0, G1, w);
  }

  lemma PairExpand1(f0: int, f1: int, F0: int, F1: int, G0: int, G1: int, w: int)
    ensures f0 * G1 + (f1 * G0 + (F0 * (w * G1) + F1 * (w * G0)))
         == Mul1(f0 + w * F0, f1 + w * F1, G0, G1)
  {
    assert (f0 + w * F0) * G1 == f0 * G1 + F0 * (w * G1);
    assert (f1 + w * F1) * G0 == f1 * G0 + F1 * (w * G0);
  }

  /** Residues modulo X^2 - w multiply as degree-one polynomials. */
  lemma {:induction false} PairRingMul(f: seq<int>, g: seq<int>, w: int, q: Modulus)
    requires |f| <= |g| && |g| >= 2 && |f| % 2 == 0 && |g| % 2 == 0
    requires Pow(w, |g| / 2) % q == (-1) % q
    ensures Residue(RingMul(f, g), 2, 0, w) % q
         == Mul0(Residue(f, 2, 0, w), Residue(f, 2, 1, w), Residue(g, 2, 0, w), Residue(g, 2, 1, w), w) % q
    ensures Residue(RingMul(f, g), 2, 1, w) % q
         == Mul1(Residue(f, 2, 0, w), Residue(f, 2, 1, w), Residue(g, 2, 0, w), Residue(g, 2, 1, w)) % q
    decreases |f|
  {
    if f == [] {
      ResidueZero(RingMul(f, g), 2, 0, w);
      ResidueZero(RingMul(f, g), 2, 1, w);
    } else {
      PairRingMulStep(f, g, w, q);
    }
  }

  lemma {:induction false} PairRingMulStep(f: seq<int>, g: seq<int>, w: int, q: Modulus)
    requires 2 <= |f| <= |g| && |f| % 2 == 0 && |g| % 2 == 0
    requires Pow(w, |g| / 2) % q == (-1) % q
    ensures Residue(RingMul(f, g), 2, 0, w) % q
         == Mul0(Residue(f, 2, 0, w), Residue(f, 2, 1, w), Residue(g, 2, 0, w), Residue(g, 2, 1, w), w) % q
    ensures Residue(RingMul(f, g), 2, 1, w) % q
         == Mul1(Residue(f, 2, 0, w), Residue(f, 2, 1, w), Residue(g, 2, 0, w), Residue(g, 2, 1, w)) % q
    decreases |f| - 1
  {
    hide RingMul, TimesX, Mul0, Mul1, Pow;
    var x := TimesX(g);
    var h := TimesX(x);
    assert f[1..][1..] == f[2..];
    PairTimesX(g, w, q);
    PairTimesX(x, w, q);
    ResiduePeel(f, g, 2, 0, w, q);
    ResiduePeel(f, g, 2, 1, w, q);
    ResiduePeel(f[1..], x, 2, 0, w, q);
    ResiduePeel(f[1..], x, 2, 1, w, q);
    PairRingMul(f[2..], h, w, q);
    var F0, F1 := Residue(f[2..], 2, 0, w), Residue(f[2..], 2, 1, w);
    var h0, h1 := Residue(h, 2, 0, w), Residue(h, 2, 1, w);
    var G0, G1 := Residue(g, 2, 0, w), Residue(g, 2, 1, w);
    var u, t := RingMul(f[1..], x), RingMul(f[2..], h);
    PairStep0(Residue(RingMul(f, g), 2, 0, w), Residue(u, 2, 0, w), Residue(t, 2, 0, w), Residue(x, 2, 0, w),
              h0, h1, f[0], f[1], F0, F1, G0, G1, w, q);
    PairStep1(Residue(RingMul(f, g), 2, 1, w), Residue(u, 2, 1, w), Residue(t, 2, 1, w),
              h0, h1, f[0], f[1], F0, F1, G0, G1, w, q);
  }

  // ----- the transform of a product

  /** Leaf-by-leaf product for stride one (_poly_mul_ntt). */
  function PointMul(f: seq<int>, g: seq<int>, q: Modulus): (h: seq<int>)
    requires |f| == |g|
    ensures |h| == |f|
  {
    seq(|f|, i requires 0 <= i < |f| => (f[i] * g[i]) % q)
  }

  /** Leaf-by-leaf product for stride two (_multiply_ntts). */
  function PairMul(R: Ring, f: seq<int>, g: seq<int>): (h: seq<int>)
    requires |f| == |g| && |f| % 2 == 0
    ensures |h| == |f|
  {
    seq(|f|, i requires 0 <= i < |f| => PairMulAt(R, f, g, i))
  }

  function PairMulAt(R: Ring, f: seq<int>, g: seq<int>, i: nat): int
    requires |f| == |g| && |f| % 2 == 0 && i < |f|
  {
    var k := i / 2;
    if i % 2 == 0
    then Mul0(f[2 * k], f[2 * k + 1], g[2 * k], g[2 * k + 1], LeafRoot(R, k)) % R.q
    else Mul1(f[2 * k], f[2 * k + 1], g[2 * k], g[2 * k + 1]) % R.q
  }

  /** The transform of a ring product is the pointwise product of transforms. */
  lemma ForwardRingMul(R: Ring, f: seq<int>, g: seq<int>)
    requires R.Valid() && R.stride == 1 && |f| == |g| == R.N()
    ensures Forward(R, RingMul(f, g)) == PointMul(Forward(R, f), Forward(R, g), R.q)
  {
    SizeStrides(R, R.bits);
    forall i | 0 <= i < R.N()
      ensures Forward(R, RingMul(f, g))[i] == PointMul(Forward(R, f), Forward(R, g), R.q)[i]
    {
      hide Ring.Valid, RingMul, Forward, LeafRoot;
      var w := LeafRoot(R, i);
      LeafRootPow(R, i);
      EvalRingMul(f, g, w, R.q);
      ForwardIsEvaluation(R, f, i, 0);
      ForwardIsEvaluation(R, g, i, 0);
      ForwardIsEvaluation(R, RingMul(f, g), i, 0);
      MulReduce(Residue(f, 1, 0, w), Residue(g, 1, 0, w), R.q);
    }
  }

  lemma Mul0Reduce(a0: int, a1: int, b0: int, b1: int, w: int, q: Modulus)
    ensures Mul0(a0 % q, a1 % q, b0 % q, b1 % q, w) % q == Mul0(a0, a1, b0, b1, w) % q
  {
    MulReduce(a0, b0, q);
    MulReduce(a1, b1, q);
    MulCong(w, w, (a1 % q) * (b1 % q), a1 * b1, q);
    AddCong((a0 % q) * (b0 % q), a0 * b0, w * ((a1 % q) * (b1 % q)), w * (a1 * b1), q);
  }

  lemma Mul1Reduce(a0: int, a1: int, b0: int, b1: int, q: Modulus)
    ensures Mul1(a0 % q, a1 % q, b0 % q, b1 % q) % q == Mul1(a0, a1, b0, b1) % q
  {
    MulReduce(a0, b1, q);
    MulReduce(a1, b0, q);
    AddCong((a0 % q) * (b1 % q), a0 * b1, (a1 % q) * (b0 % q), a1 * b0, q);
  }

  lemma PairAtLeaf(R: Ring, f: seq<int>, k: nat)
    requires R.Valid() && R.stride == 2 && |f| == R.N() == 2 * Exp2(R.bits) && k < Exp2(R.bits)
    ensures Forward(R, f)[2 * k] == Residue(f, 2, 0, LeafRoot(R, k)) % R.q
    ensures Forward(R, f)[2 * k + 1] == Residue(f, 2, 1, LeafRoot(R, k)) % R.q
  {
    ForwardIsEvaluation(R, f, k, 0);
    ForwardIsEvaluation(R, f, k, 1);
    assert k * R.stride == 2 * k;
  }

  lemma ForwardPairAt(R: Ring, f: seq<int>, g: seq<int>, k: nat)
    requires R.Valid() && R.stride == 2 && |f| == |g| == R.N() && k < Exp2(R.bits)
    requires R.N() == 2 * Exp2(R.bits)
    ensures Forward(R, RingMul(f, g))[2 * k] == PairMulAt(R, Forward(R, f), Forward(R, g), 2 * k)
    ensures Forward(R, RingMul(f, g))[2 * k + 1] == PairMulAt(R, Forward(R, f), Forward(R, g), 2 * k + 1)
  {
    hide Ring.Valid, RingMul, Forward, LeafRoot, Mul0, Mul1;
    var w, q := LeafRoot(R, k), R.q;
    LeafRootPow(R, k);
    PairRingMul(f, g, w, q);
    PairAtLeaf(R, f, k);
    PairAtLeaf(R, g, k);
    PairAtLeaf(R, RingMul(f, g), k);
    assert (2 * k) / 2 == k && (2 * k + 1) / 2 == k;
    var a0, a1 := Residue(f, 2, 0, w), Residue(f, 2, 1, w);
    var b0, b1 := Residue(g, 2, 0, w), Residue(g, 2, 1, w);
    Mul0Reduce(a0, a1, b0, b1, w, q);
    Mul1Reduce(a0, a1, b0, b1, q);
  }

  /** The transform of a ring product is the pairwise product of transforms. */
  lemma ForwardPairRingMul(R: Ring, f: seq<int>, g: seq<int>)
    requires R.Valid() && R.stride == 2 && |f| == |g| == R.N()
    requires R.N() % 2 == 0
    ensures Forward(R, RingMul(f, g)) == PairMul(R, Forward(R, f), Forward(R, g))
  {
    hide Ring.Valid, RingMul, Forward, PairMulAt;
    SizeStrides(R, R.bits);
    forall i | 0 <= i < R.N()
      ensures Forward(R, RingMul(f, g))[i] == PairMul(R, Forward(R, f), Forward(R, g))[i]
    {
      ForwardPairAt(R, f, g, i / 2);
    }
  }
}
