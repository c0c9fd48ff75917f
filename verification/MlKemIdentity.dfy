/** The identity behind ML-KEM decryption: what _kpke_decrypt computes is the
    message polynomial plus a noise polynomial of the ring. */
module MlKemIdentity {
  import opened ModArith
  import opened NttProduct
  import opened MlKemRing

  type Matrix = seq<seq<Poly>>

  ghost predicate IsMatrix(A: Matrix, rows: nat, cols: nat)
  {
    |A| == rows && forall i :: 0 <= i < rows ==> |A[i]| == cols
  }

  function Column(A: Matrix, j: nat): (c: seq<Poly>)
    requires forall i :: 0 <= i < |A| ==> j < |A[i]|
    ensures |c| == |A|
  {
    if A == [] then [] else Column(A[..|A| - 1], j) + [A[|A| - 1][j]]
  }

  function NttAll(v: seq<Poly>): (r: seq<Poly>)
    ensures |r| == |v|
  {
    seq(|v|, i requires 0 <= i < |v| => NttOf(v[i]))
  }

  // ----- (A s) y = s (A^T y), at one leaf

  function RowsThenY(A: Matrix, s: seq<Poly>, y: seq<Poly>, k: nat): Pair
    requires IsMatrix(A, |y|, |s|) && k < 128
    decreases |A|
  {
    if A == [] then Zero
    else
      var n := |A| - 1;
      Plus(RowsThenY(A[..n], s, y[..n], k), Times(DotP(A[n], s, k), At(y[n], k), Leaf(k)))
  }

  function ColumnsThenS(A: Matrix, s: seq<Poly>, y: seq<Poly>, k: nat, m: nat): Pair
    requires IsMatrix(A, |y|, |s|) && k < 128 && m <= |s|
    decreases m
  {
    if m == 0 then Zero
    else Plus(ColumnsThenS(A, s, y, k, m - 1), Times(At(s[m - 1], k), DotP(Column(A, m - 1), y, k), Leaf(k)))
  }

  lemma PlusSwap(a: Pair, b: Pair, c: Pair, d: Pair)
    ensures Plus(Plus(a, b), Plus(c, d)) == Plus(Plus(a, c), Plus(b, d))
  {}

  lemma ColumnSnoc(A: Matrix, row: seq<Poly>, y: seq<Poly>, yn: Poly, j: nat, k: nat)
    requires |A| == |y| && j < |row| && k < 128 && forall i :: 0 <= i < |A| ==> j < |A[i]|
    ensures DotP(Column(A + [row], j), y + [yn], k)
         == Plus(DotP(Column(A, j), y, k), Times(At(row[j], k), At(yn, k), Leaf(k)))
  {
    assert (A + [row])[..|A|] == A;
    var c := Column(A + [row], j);
    assert c == Column(A, j) + [row[j]];
    assert c[..|A|] == Column(A, j) && (y + [yn])[..|y|] == y;
  }

  lemma TimesZero(a: Pair, w: int)
    ensures Times(Zero, a, w) == Zero && Times(a, Zero, w) == Zero
  {
    assert w * (0 * a.c1) == 0 && w * (a.c1 * 0) == 0;
  }

  lemma PlusZero(a: Pair)
    ensures Plus(a, Zero) == a == Plus(Zero, a)
  {}

  lemma DotPrefix(a: seq<Poly>, b: seq<Poly>, k: nat, m: nat)
    requires |a| == |b| && m < |a| && k < 128
    ensures DotP(a[..m + 1], b[..m + 1], k) == Plus(DotP(a[..m], b[..m], k), Times(At(a[m], k), At(b[m], k), Leaf(k)))
  {
    hide Leaf, Times, Plus;
    assert a[..m + 1][..m] == a[..m] && b[..m + 1][..m] == b[..m];
  }

  /** One more row changes every column sum by its own product. */
  lemma {:induction false} ColumnsRow(A: Matrix, row: seq<Poly>, s: seq<Poly>, y: seq<Poly>, yn: Poly, k: nat, m: nat)
    requires IsMatrix(A, |y|, |s|) && |row| == |s| && k < 128 && m <= |s|
    ensures IsMatrix(A + [row], |y| + 1, |s|)
    ensures ColumnsThenS(A + [row], s, y + [yn], k, m)
         == Plus(ColumnsThenS(A, s, y, k, m), Times(DotP(row[..m], s[..m], k), At(yn, k), Leaf(k)))
    decreases m, 1
  {
    hide Leaf, Times, Plus, At, Column;
    if m > 0 {
      ColumnsRowStep(A, row, s, y, yn, k, m - 1);
    } else {
      TimesZero(At(yn, k), Leaf(k));
      PlusZero(Zero);
    }
  }

  lemma {:induction false} ColumnsRowStep(A: Matrix, row: seq<Poly>, s: seq<Poly>, y: seq<Poly>, yn: Poly, k: nat, m: nat)
    requires IsMatrix(A, |y|, |s|) && |row| == |s| && k < 128 && m < |s|
    ensures IsMatrix(A + [row], |y| + 1, |s|)
    ensures ColumnsThenS(A + [row], s, y + [yn], k, m + 1)
         == Plus(ColumnsThenS(A, s, y, k, m + 1), Times(DotP(row[..m + 1], s[..m + 1], k), At(yn, k), Leaf(k)))
    decreases m + 1, 0
  {
    hide Times, Plus, Leaf, At, DotP, Column;
    var w, sm, am, ym := Leaf(k), At(s[m], k), At(row[m], k), At(yn, k);
    var d, col := DotP(row[..m], s[..m], k), DotP(Column(A, m), y, k);
    ColumnsRow(A, row, s, y, yn, k, m);
    ColumnSnoc(A, row, y, yn, m, k);
    DotPrefix(row, s, k, m);
    TimesPlus(sm, col, Times(am, ym, w), w);
    TimesSwap(am, sm, ym, w);
    TimesPlus(d, Times(am, sm, w), ym, w);
    PlusSwap(ColumnsThenS(A, s, y, k, m), Times(d, ym, w), Times(sm, col, w), Times(sm, Times(am, ym, w), w));
  }

  lemma {:induction false} NoRows(s: seq<Poly>, k: nat, m: nat)
    requires k < 128 && m <= |s|
    ensures ColumnsThenS([], s, [], k, m) == Zero
    decreases m
  {
    hide Leaf, Times, Plus, At;
    if m > 0 {
      NoRows(s, k, m - 1);
      TimesZero(At(s[m - 1], k), Leaf(k));
      PlusZero(Zero);
    }
  }

  lemma {:induction false} Exchange(A: Matrix, s: seq<Poly>, y: seq<Poly>, k: nat)
    requires IsMatrix(A, |y|, |s|) && k < 128
    ensures RowsThenY(A, s, y, k) == ColumnsThenS(A, s, y, k, |s|)
    decreases |A|
  {
    if A == [] {
      NoRows(s, k, |s|);
    } else {
      hide Times, Plus, Leaf, At, DotP, ColumnsThenS;
      var n := |A| - 1;
      Exchange(A[..n], s, y[..n], k);
      LastRow(A, s, y, k);
    }
  }

  lemma LastRow(A: Matrix, s: seq<Poly>, y: seq<Poly>, k: nat)
    requires A != [] && IsMatrix(A, |y|, |s|) && k < 128
    ensures var n := |A| - 1;
            && IsMatrix(A[..n], n, |s|) && |A[n]| == |s|
            && ColumnsThenS(A, s, y, k, |s|)
            == Plus(ColumnsThenS(A[..n], s, y[..n], k, |s|), Times(DotP(A[n], s, k), At(y[n], k), Leaf(k)))
  {
    hide Times, Plus, Leaf, At, DotP, ColumnsThenS;
    var n := |A| - 1;
    ColumnsRow(A[..n], A[n], s, y[..n], y[n], k, |s|);
    assert A[..n] + [A[n]] == A && y[..n] + [y[n]] == y;
    assert A[n][..|s|] == A[n] && s[..|s|] == s;
  }

  // ----- sums of products of congruent entries

  /** t = A s + e, entry by entry at leaf k. */
  ghost predicate RowsGive(t: seq<Poly>, A: Matrix, s: seq<Poly>, e: seq<Poly>, k: nat)
    requires k < 128
  {
    && IsMatrix(A, |t|, |s|) && |e| == |t|
    && forall i :: 0 <= i < |t| ==> Same(At(t[i], k), Plus(DotP(A[i], s, k), At(e[i], k)))
  }

  lemma {:induction false} DotOfRows(t: seq<Poly>, A: Matrix, s: seq<Poly>, e: seq<Poly>, y: seq<Poly>, k: nat)
    requires k < 128 && RowsGive(t, A, s, e, k) && |y| == |t|
    ensures Same(DotP(t, y, k), Plus(RowsThenY(A, s, y, k), DotP(e, y, k)))
    decreases |t|
  {
    if t != [] {
      var n := |t| - 1;
      assert RowsGive(t[..n], A[..n], s, e[..n], k);
      DotOfRows(t[..n], A[..n], s, e[..n], y[..n], k);
      StepSum(DotP(t[..n], y[..n], k), RowsThenY(A[..n], s, y[..n], k), DotP(e[..n], y[..n], k),
              At(t[n], k), DotP(A[n], s, k), At(e[n], k), At(y[n], k), Leaf(k));
    }
  }

  lemma StepSum(total: Pair, p: Pair, q: Pair, t: Pair, d: Pair, e: Pair, y: Pair, w: int)
    requires Same(total, Plus(p, q)) && Same(t, Plus(d, e))
    ensures Same(Plus(total, Times(t, y, w)), Plus(Plus(p, Times(d, y, w)), Plus(q, Times(e, y, w))))
  {
    SameTimes(t, Plus(d, e), y, y, w);
    TimesPlus(d, e, y, w);
    SamePlus(total, Plus(p, q), Times(t, y, w), Plus(Times(d, y, w), Times(e, y, w)));
    hide Times;
    PlusSwap(p, q, Times(d, y, w), Times(e, y, w));
  }

  /** u = A^T y + f, entry by entry at leaf k. */
  ghost predicate ColumnsGive(u: seq<Poly>, A: Matrix, y: seq<Poly>, f: seq<Poly>, k: nat)
    requires k < 128
  {
    && IsMatrix(A, |y|, |u|) && |f| == |u|
    && forall j :: 0 <= j < |u| ==> Same(At(u[j], k), Plus(DotP(Column(A, j), y, k), At(f[j], k)))
  }

  lemma {:induction false} DotOfColumns(s: seq<Poly>, u: seq<Poly>, A: Matrix, y: seq<Poly>, f: seq<Poly>, k: nat, m: nat)
    requires k < 128 && ColumnsGive(u, A, y, f, k) && |s| == |u| && m <= |u|
    ensures Same(DotP(s[..m], u[..m], k), Plus(ColumnsThenS(A, s, y, k, m), DotP(s[..m], f[..m], k)))
    decreases m
  {
    if m > 0 {
      var n := m - 1;
      DotOfColumns(s, u, A, y, f, k, n);
      assert s[..m][..n] == s[..n] && u[..m][..n] == u[..n] && f[..m][..n] == f[..n];
      StepSumRight(DotP(s[..n], u[..n], k), ColumnsThenS(A, s, y, k, n), DotP(s[..n], f[..n], k),
                   At(u[n], k), DotP(Column(A, n), y, k), At(f[n], k), At(s[n], k), Leaf(k));
    }
  }

  lemma StepSumRight(total: Pair, p: Pair, q: Pair, u: Pair, d: Pair, f: Pair, s: Pair, w: int)
    requires Same(total, Plus(p, q)) && Same(u, Plus(d, f))
    ensures Same(Plus(total, Times(s, u, w)), Plus(Plus(p, Times(s, d, w)), Plus(q, Times(s, f, w))))
  {
    SameTimes(s, s, u, Plus(d, f), w);
    TimesPlus(s, d, f, w);
    SamePlus(total, Plus(p, q), Times(s, u, w), Plus(Times(s, d, w), Times(s, f, w)));
    hide Times;
    PlusSwap(p, q, Times(s, d, w), Times(s, f, w));
  }

  /** (A s + e) y - s (A^T y + f) = e y - s f: the matrix cancels. */
  lemma MatrixCancels(t: seq<Poly>, u: seq<Poly>, A: Matrix, s: seq<Poly>, e: seq<Poly>, y: seq<Poly>, f: seq<Poly>, k: nat)
    requires k < 128 && RowsGive(t, A, s, e, k) && ColumnsGive(u, A, y, f, k) && |t| == |y| && |u| == |s|
    ensures Same(Minus(DotP(t, y, k), DotP(s, u, k)), Minus(DotP(e, y, k), DotP(s, f, k)))
  {
    hide DotP, ColumnsThenS, RowsThenY, Same, Plus, Minus;
    DotOfRows(t, A, s, e, y, k);
    DotOfColumns(s, u, A, y, f, k, |s|);
    assert s[..|s|] == s && u[..|s|] == u && f[..|s|] == f;
    Exchange(A, s, y, k);
    var x := RowsThenY(A, s, y, k);
    SamePlus(DotP(t, y, k), Plus(x, DotP(e, y, k)), DotP(s, u, k), Plus(x, DotP(s, f, k)));
    MinusCancels(x, DotP(e, y, k), DotP(s, f, k));
  }

  lemma MinusCancels(x: Pair, p: Pair, q: Pair)
    ensures Minus(Plus(x, p), Plus(x, q)) == Minus(p, q)
  {}

  // ----- the noise polynomial

  /** Coefficientwise integer sums and differences, not reduced. */
  function IntAdd(f: Poly, g: Poly): Poly { seq(256, i requires 0 <= i < 256 => f[i] + g[i]) }
  function IntSub(f: Poly, g: Poly): Poly { seq(256, i requires 0 <= i < 256 => f[i] - g[i]) }

  /** Sum of products in Z[X]/(X^256 + 1). */
  function RingDot(a: seq<Poly>, b: seq<Poly>): Poly
    requires |a| == |b|
  {
    if a == [] then ZeroPoly() else IntAdd(RingDot(a[..|a| - 1], b[..|b| - 1]), RingMul(a[|a| - 1], b[|b| - 1]))
  }

  lemma IntAt(f: Poly, g: Poly, k: nat)
    requires k < 128
    ensures Same(At(NttOf(IntAdd(f, g)), k), Plus(At(NttOf(f), k), At(NttOf(g), k)))
    ensures Same(At(NttOf(IntSub(f, g)), k), Minus(At(NttOf(f), k), At(NttOf(g), k)))
  {
    hide NttOf;
    NttIsLinear(IntAdd(f, g), 1, f, 1, g);
    NttIsLinear(IntSub(f, g), 1, f, -1, g);
  }

  lemma ZeroTransform(k: nat)
    requires k < 128
    ensures Same(At(NttOf(ZeroPoly()), k), Zero)
  {
    hide NttOf;
    NttIsLinear(ZeroPoly(), 0, ZeroPoly(), 0, ZeroPoly());
  }

  lemma {:induction false} RingDotAt(a: seq<Poly>, b: seq<Poly>, k: nat)
    requires |a| == |b| && k < 128
    ensures Same(At(NttOf(RingDot(a, b)), k), DotP(NttAll(a), NttAll(b), k))
    decreases |a|, 1
  {
    hide NttOf, Leaf, Times, Plus, At, Same;
    if a == [] {
      ZeroTransform(k);
    } else {
      RingDotStep(a, b, k);
    }
  }

  lemma {:induction false} RingDotStep(a: seq<Poly>, b: seq<Poly>, k: nat)
    requires |a| == |b| >= 1 && k < 128
    ensures Same(At(NttOf(RingDot(a, b)), k), DotP(NttAll(a), NttAll(b), k))
    decreases |a|, 0
  {
    hide NttOf, Leaf, Times, At, RingMul, MultiplyNtts;
    var n := |a| - 1;
    RingDotAt(a[..n], b[..n], k);
    assert NttAll(a)[..n] == NttAll(a[..n]) && NttAll(b)[..n] == NttAll(b[..n]);
    IntAt(RingDot(a[..n], b[..n]), RingMul(a[n], b[n]), k);
    NttOfProduct(a[n], b[n]);
    MultiplyAt(NttOf(a[n]), NttOf(b[n]), k);
    SamePlus(At(NttOf(RingDot(a[..n], b[..n])), k), DotP(NttAll(a[..n]), NttAll(b[..n]), k),
             At(NttOf(RingMul(a[n], b[n])), k), Times(At(NttOf(a[n]), k), At(NttOf(b[n]), k), Leaf(k)));
  }

  // ----- the three computations of K-PKE

  /** t_hat of _kpke_keygen. */
  function PublicRow(row: seq<Poly>, s: seq<Poly>, e: Poly): Poly
    requires |row| == |s|
  {
    PolyAdd(PolyDot(row, NttAll(s)), NttOf(e))
  }

  /** One entry of u in _kpke_encrypt. */
  function CipherU(col: seq<Poly>, y: seq<Poly>, e1: Poly): Poly
    requires |col| == |y|
  {
    PolyAdd(InvOf(PolyDot(col, NttAll(y))), e1)
  }

  /** v of _kpke_encrypt. */
  function CipherV(t: seq<Poly>, y: seq<Poly>, e2: Poly, mu: Poly): Poly
    requires |t| == |y|
  {
    PolyAdd(PolyAdd(InvOf(PolyDot(t, NttAll(y))), e2), mu)
  }

  /** w of _kpke_decrypt. */
  function Recover(sHat: seq<Poly>, u: seq<Poly>, v: Poly): Poly
    requires |sHat| == |u|
  {
    PolySub(v, InvOf(PolyDot(sHat, NttAll(u))))
  }

  /** f is e1 plus what rounding u to u' adds. */
  function RoundedErrors(e1: seq<Poly>, u: seq<Poly>, u': seq<Poly>): (f: seq<Poly>)
    requires |e1| == |u| == |u'|
    ensures |f| == |e1|
  {
    seq(|e1|, j requires 0 <= j < |e1| => IntAdd(e1[j], IntSub(u'[j], u[j])))
  }

  /** Everything decryption adds to the message: e y + e2 + dv - s (e1 + du). */
  function Noise(e: seq<Poly>, y: seq<Poly>, s: seq<Poly>, f: seq<Poly>, e2: Poly, dv: Poly): Poly
    requires |e| == |y| && |s| == |f|
  {
    IntAdd(IntSub(RingDot(e, y), RingDot(s, f)), IntAdd(e2, dv))
  }

  lemma PublicRowAt(row: seq<Poly>, s: seq<Poly>, e: Poly, k: nat)
    requires |row| == |s| && k < 128
    ensures Same(At(PublicRow(row, s, e), k), Plus(DotP(row, NttAll(s), k), At(NttOf(e), k)))
  {
    hide NttOf, PolyDot, DotP;
    PolyDotAt(row, NttAll(s), k);
    AddAt(PolyDot(row, NttAll(s)), NttOf(e), k);
    SamePlus(At(PolyDot(row, NttAll(s)), k), DotP(row, NttAll(s), k), At(NttOf(e), k), At(NttOf(e), k));
  }

  /** The transform of the rounded u: the product survives, errors collect in f. */
  lemma CipherUAt(col: seq<Poly>, y: seq<Poly>, e1: Poly, u': Poly, k: nat)
    requires |col| == |y| && k < 128
    ensures var f := IntAdd(e1, IntSub(u', CipherU(col, y, e1)));
            Same(At(NttOf(u'), k), Plus(DotP(col, NttAll(y), k), At(NttOf(f), k)))
  {
    hide NttOf, InvOf, PolyDot, DotP, At, Plus;
    var d := PolyDot(col, NttAll(y));
    var f := IntAdd(e1, IntSub(u', CipherU(col, y, e1)));
    var sum := IntAdd(InvOf(d), f);
    forall i | 0 <= i < 256 ensures u'[i] % Q == sum[i] % Q {
      RoundedEntry(InvOf(d)[i], e1[i], u'[i]);
    }
    NttReduced(u', sum);
    IntAt(InvOf(d), f, k);
    NttRoundTrip(d);
    PolyDotAt(col, NttAll(y), k);
    ReducedAt(d, k);
    ReplaceLeft(At(NttOf(sum), k), At(ReducedQ(d), k), At(d, k), DotP(col, NttAll(y), k), At(NttOf(f), k));
  }

  lemma RoundedEntry(d: int, e: int, u: int)
    ensures u % Q == (d + (e + (u - (d + e) % Q))) % Q
  {}

  lemma ReducedAt(d: Poly, k: nat)
    requires k < 128
    ensures Same(At(ReducedQ(d), k), At(d, k))
  {}

  lemma ReplaceLeft(x: Pair, a: Pair, b: Pair, c: Pair, f: Pair)
    requires Same(x, Plus(a, f)) && Same(a, b) && Same(b, c)
    ensures Same(x, Plus(c, f))
  {
    SamePlus(a, c, f, f);
  }

  lemma CipherVAt(t: seq<Poly>, y: seq<Poly>, e2: Poly, mu: Poly, v': Poly, k: nat)
    requires |t| == |y| && k < 128
    ensures var g := IntAdd(IntAdd(e2, mu), IntSub(v', CipherV(t, y, e2, mu)));
            Same(At(NttOf(v'), k), Plus(DotP(t, NttAll(y), k), At(NttOf(g), k)))
  {
    hide NttOf, InvOf, PolyDot, DotP, At, Plus;
    var d := PolyDot(t, NttAll(y));
    var g := IntAdd(IntAdd(e2, mu), IntSub(v', CipherV(t, y, e2, mu)));
    var sum := IntAdd(InvOf(d), g);
    forall i | 0 <= i < 256 ensures v'[i] % Q == sum[i] % Q {
      RoundedEntry2(InvOf(d)[i], e2[i], mu[i], v'[i]);
    }
    NttReduced(v', sum);
    IntAt(InvOf(d), g, k);
    NttRoundTrip(d);
    PolyDotAt(t, NttAll(y), k);
    ReducedAt(d, k);
    ReplaceLeft(At(NttOf(sum), k), At(ReducedQ(d), k), At(d, k), DotP(t, NttAll(y), k), At(NttOf(g), k));
  }

  lemma RoundedEntry2(d: int, e: int, m: int, v: int)
    ensures v % Q == (d + ((e + m) + (v - ((d + e) % Q + m) % Q))) % Q
  {}

  // ----- decryption

  /** Keys and ciphertext polynomials as the three algorithms produce them. */
  ghost predicate Setting(A: Matrix, s: seq<Poly>, e: seq<Poly>, y: seq<Poly>, e1: seq<Poly>,
                          t: seq<Poly>, u: seq<Poly>)
  {
    && |s| == |e| == |y| == |e1| == |t| == |u| && IsMatrix(A, |s|, |s|)
    && (forall i :: 0 <= i < |s| ==> t[i] == PublicRow(A[i], s, e[i]))
    && (forall j :: 0 <= j < |s| ==> u[j] == CipherU(Column(A, j), y, e1[j]))
  }

  lemma SettingAt(A: Matrix, s: seq<Poly>, e: seq<Poly>, y: seq<Poly>, e1: seq<Poly>,
                  t: seq<Poly>, u: seq<Poly>, u': seq<Poly>, k: nat)
    requires Setting(A, s, e, y, e1, t, u) && |u'| == |u| && k < 128
    ensures RowsGive(t, A, NttAll(s), NttAll(e), k)
    ensures ColumnsGive(NttAll(u'), A, NttAll(y), NttAll(RoundedErrors(e1, u, u')), k)
  {
    hide NttOf, PublicRow, CipherU, DotP, At, Plus, Same, IntAdd, IntSub;
    forall i | 0 <= i < |t|
      ensures Same(At(t[i], k), Plus(DotP(A[i], NttAll(s), k), At(NttAll(e)[i], k)))
    {
      PublicRowAt(A[i], s, e[i], k);
    }
    var f := RoundedErrors(e1, u, u');
    forall j | 0 <= j < |u|
      ensures Same(At(NttAll(u')[j], k), Plus(DotP(Column(A, j), NttAll(y), k), At(NttAll(f)[j], k)))
    {
      CipherUAt(Column(A, j), y, e1[j], u'[j], k);
    }
  }

  /** The transform of the recovered polynomial at one leaf. */
  lemma RecoverAt(A: Matrix, s: seq<Poly>, e: seq<Poly>, y: seq<Poly>, e1: seq<Poly>, e2: Poly, mu: Poly,
                  t: seq<Poly>, u: seq<Poly>, u': seq<Poly>, v': Poly, k: nat)
    requires Setting(A, s, e, y, e1, t, u) && |u'| == |u| && k < 128
    ensures var f, g := RoundedErrors(e1, u, u'), IntAdd(IntAdd(e2, mu), IntSub(v', CipherV(t, y, e2, mu)));
            Same(Minus(At(NttOf(v'), k), DotP(NttAll(s), NttAll(u'), k)),
                 At(NttOf(IntAdd(IntSub(RingDot(e, y), RingDot(s, f)), g)), k))
  {
    hide NttOf, DotP, At, CipherV, RingDot, RoundedErrors, Setting, RowsGive, ColumnsGive, IntAdd, IntSub;
    SettingLengths(A, s, e, y, e1, t, u);
    var f, g := RoundedErrors(e1, u, u'), IntAdd(IntAdd(e2, mu), IntSub(v', CipherV(t, y, e2, mu)));
    SettingAt(A, s, e, y, e1, t, u, u', k);
    CipherVAt(t, y, e2, mu, v', k);
    MatrixCancels(t, NttAll(u'), A, NttAll(s), NttAll(e), NttAll(y), NttAll(f), k);
    RingDotAt(e, y, k);
    RingDotAt(s, f, k);
    IntAt(RingDot(e, y), RingDot(s, f), k);
    IntAt(IntSub(RingDot(e, y), RingDot(s, f)), g, k);
    CollectNoise(At(NttOf(v'), k), DotP(t, NttAll(y), k), At(NttOf(g), k), DotP(NttAll(s), NttAll(u'), k),
                 DotP(NttAll(e), NttAll(y), k), DotP(NttAll(s), NttAll(f), k),
                 At(NttOf(RingDot(e, y)), k), At(NttOf(RingDot(s, f)), k),
                 At(NttOf(IntSub(RingDot(e, y), RingDot(s, f))), k),
                 At(NttOf(IntAdd(IntSub(RingDot(e, y), RingDot(s, f)), g)), k));
  }

  lemma SettingLengths(A: Matrix, s: seq<Poly>, e: seq<Poly>, y: seq<Poly>, e1: seq<Poly>, t: seq<Poly>, u: seq<Poly>)
    requires Setting(A, s, e, y, e1, t, u)
    ensures |s| == |e| == |y| == |e1| == |t| == |u|
  {}

  lemma CollectNoise(v: Pair, ty: Pair, g: Pair, su: Pair, ey: Pair, sf: Pair, x: Pair, z: Pair, d: Pair, all: Pair)
    requires Same(v, Plus(ty, g)) && Same(Minus(ty, su), Minus(ey, sf))
    requires Same(x, ey) && Same(z, sf) && Same(d, Minus(x, z)) && Same(all, Plus(d, g))
    ensures Same(Minus(v, su), all)
  {
    hide Plus, Minus;
    SamePlus(v, Plus(ty, g), su, su);
    PlusMinus(ty, g, su);
    SamePlus(Minus(ty, su), Minus(ey, sf), g, g);
    SamePlus(x, ey, z, sf);
    SamePlus(d, Minus(x, z), g, g);
    SamePlus(Minus(x, z), Minus(ey, sf), g, g);
    SameSteps(Minus(v, su), Minus(Plus(ty, g), su), Plus(Minus(ey, sf), g), Plus(Minus(x, z), g), Plus(d, g), all);
  }

  lemma PlusMinus(a: Pair, b: Pair, c: Pair)
    ensures Minus(Plus(a, b), c) == Plus(Minus(a, c), b)
  {}

  lemma SameSteps(a: Pair, b: Pair, c: Pair, d: Pair, e: Pair, f: Pair)
    requires Same(a, b) && Same(b, c) && Same(d, c) && Same(e, d) && Same(f, e)
    ensures Same(a, f)
  {}

  /** _kpke_decrypt recovers mu plus the noise, modulo q. */
  lemma DecryptionIdentity(A: Matrix, s: seq<Poly>, e: seq<Poly>, y: seq<Poly>, e1: seq<Poly>, e2: Poly, mu: Poly,
                           t: seq<Poly>, u: seq<Poly>, u': seq<Poly>, v': Poly, i: nat)
    requires Setting(A, s, e, y, e1, t, u) && |u'| == |u| && i < 256
    ensures var dv := IntSub(v', CipherV(t, y, e2, mu));
            var noise := Noise(e, y, s, RoundedErrors(e1, u, u'), e2, dv);
            Recover(NttAll(s), u', v')[i] == (mu[i] + noise[i]) % Q
  {
    hide NttOf, InvOf, DotP, CipherV, RingDot, RoundedErrors, Setting, PolyDot;
    SettingLengths(A, s, e, y, e1, t, u);
    var dv, f := IntSub(v', CipherV(t, y, e2, mu)), RoundedErrors(e1, u, u');
    var total := IntAdd(IntSub(RingDot(e, y), RingDot(s, f)), IntAdd(IntAdd(e2, mu), dv));
    var w := Recover(NttAll(s), u', v');
    var p := PolyDot(NttAll(s), NttAll(u'));
    forall k | 0 <= k < 128 ensures Same(At(NttOf(w), k), At(NttOf(total), k)) {
      RecoverAt(A, s, e, y, e1, e2, mu, t, u, u', v', k);
      RecoverTransform(NttAll(s), u', v', k);
      SameTrans(At(NttOf(w), k), Minus(At(NttOf(v'), k), DotP(NttAll(s), NttAll(u'), k)), At(NttOf(total), k));
    }
    EqualTransforms(w, total);
    assert w[i] % Q == total[i] % Q;
  }

  lemma SameTrans(a: Pair, b: Pair, c: Pair)
    requires Same(a, b) && Same(b, c)
    ensures Same(a, c)
  {}

  lemma RecoverTransform(sHat: seq<Poly>, u: seq<Poly>, v: Poly, k: nat)
    requires |sHat| == |u| && k < 128
    ensures Same(At(NttOf(Recover(sHat, u, v)), k), Minus(At(NttOf(v), k), DotP(sHat, NttAll(u), k)))
  {
    hide NttOf, InvOf, DotP, PolyDot;
    var p := PolyDot(sHat, NttAll(u));
    NttReduced(PolySub(v, InvOf(p)), IntSub(v, InvOf(p)));
    IntAt(v, InvOf(p), k);
    NttRoundTrip(p);
    ReducedAt(p, k);
    PolyDotAt(sHat, NttAll(u), k);
    SameTrans(At(ReducedQ(p), k), At(p, k), DotP(sHat, NttAll(u), k));
    SamePlus(At(NttOf(v), k), At(NttOf(v), k), At(ReducedQ(p), k), DotP(sHat, NttAll(u), k));
  }

  /** The transform is injective modulo q. */
  lemma EqualTransforms(f: Poly, g: Poly)
    requires forall k :: 0 <= k < 128 ==> Same(At(NttOf(f), k), At(NttOf(g), k))
    ensures forall i :: 0 <= i < 256 ==> f[i] % Q == g[i] % Q
  {
    hide NttOf, InvOf;
    NttResidues(f);
    NttResidues(g);
    forall i | 0 <= i < 256 ensures NttOf(f)[i] == NttOf(g)[i] {
      assert Same(At(NttOf(f), i / 2), At(NttOf(g), i / 2));
      assert i == 2 * (i / 2) || i == 2 * (i / 2) + 1;
    }
    assert NttOf(f) == NttOf(g);
    NttRoundTrip(f);
    NttRoundTrip(g);
    forall i | 0 <= i < 256 ensures f[i] % Q == g[i] % Q {
      assert ReducedQ(f)[i] == ReducedQ(g)[i];
    }
  }
}
