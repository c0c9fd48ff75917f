/** The in-place triple loops of _ntt and _ntt_inv, proved against the recursive
    transform.  Each level of the loops is one pass over consecutive blocks. */
module NttLoops {
  import opened ModArith
  import opened Ntt

  lemma ReverseStep(r: int, i: nat, n: nat)
    requires n >= 1
    ensures (2 * r + i % 2) * Exp2(n - 1) + BitRev(i / 2, n - 1) == r * Exp2(n) + BitRev(i, n)
  {
    var e := Exp2(n - 1);
    assert (2 * r + i % 2) * e == r * (2 * e) + (i % 2) * e;
    assert i % 2 == 0 || i % 2 == 1;
  }

  /** _bitrev8 and _bitrev7: the loop shifts the low bits of i into r. */
  method BitReverse(i0: nat, n: nat) returns (r: nat)
    ensures r == BitRev(i0, n)
  {
    hide Exp2, BitRev;
    r := 0;
    ReverseDone(r, i0);
    var i: nat := i0;
    for round := 0 to n
      invariant r * Exp2(n - round) + BitRev(i, n - round) == BitRev(i0, n)
    {
      ReverseStep(r, i, n - round);
      r := 2 * r + i % 2;
      i := i / 2;
    }
    ReverseDone(r, i);
  }

  lemma ReverseDone(r: int, i: nat)
    ensures r * Exp2(0) + BitRev(i, 0) == r
  {}

  /** Transforms consecutive blocks of 2^d leaves; block b belongs to node + b. */
  function FwdBlocks(R: Ring, a: seq<int>, node: nat, d: nat): (r: seq<int>)
    requires R.stride >= 1
    ensures |r| == |a|
    decreases |a|
  {
    var h := R.Size(d);
    if |a| < h then a else Fwd(R, a[..h], node, d) + FwdBlocks(R, a[h..], node + 1, d)
  }

  /** Inverts consecutive blocks; block b uses the twiddle mirror - b. */
  function InvBlocks(R: Ring, a: seq<int>, mirror: int, d: nat): (r: seq<int>)
    requires R.stride >= 1
    ensures |r| == |a|
    decreases |a|
  {
    var h := R.Size(d);
    if |a| < h || mirror < 0 then a else Inv(R, a[..h], mirror, d) + InvBlocks(R, a[h..], mirror - 1, d)
  }

  lemma {:induction false} FwdBlocksSnoc(R: Ring, x: seq<int>, y: seq<int>, node: nat, d: nat, c: nat)
    requires R.stride >= 1 && |x| == c * R.Size(d) && |y| == R.Size(d)
    ensures FwdBlocks(R, x + y, node, d) == FwdBlocks(R, x, node, d) + Fwd(R, y, node + c, d)
    decreases c
  {
    var h := R.Size(d);
    if c == 0 {
      assert x + y == y && y[..h] == y && y[h..] == [];
    } else {
      BlocksLeft(c, h);
      assert (x + y)[..h] == x[..h] && (x + y)[h..] == x[h..] + y;
      FwdBlocksSnoc(R, x[h..], y, node + 1, d, c - 1);
    }
  }

  lemma {:induction false} InvBlocksSnoc(R: Ring, x: seq<int>, y: seq<int>, mirror: int, d: nat, c: nat)
    requires R.stride >= 1 && |x| == c * R.Size(d) && |y| == R.Size(d) && mirror >= c
    ensures InvBlocks(R, x + y, mirror, d) == InvBlocks(R, x, mirror, d) + Inv(R, y, mirror - c, d)
    decreases c
  {
    var h := R.Size(d);
    if c == 0 {
      assert x + y == y && y[..h] == y && y[h..] == [];
    } else {
      BlocksLeft(c, h);
      assert (x + y)[..h] == x[..h] && (x + y)[h..] == x[h..] + y;
      InvBlocksSnoc(R, x[h..], y, mirror - 1, d, c - 1);
    }
  }

  lemma BlocksLeft(c: nat, h: nat)
    requires c >= 1
    ensures c * h == h + (c - 1) * h && (c - 1) * h >= 0
  {}

  lemma FwdBlocksSnoc2(R: Ring, x: seq<int>, a: seq<int>, b: seq<int>, node: nat, d: nat, c: nat)
    requires R.stride >= 1 && |x| == c * R.Size(d) && |a| == |b| == R.Size(d)
    ensures FwdBlocks(R, x + (a + b), node, d)
         == FwdBlocks(R, x, node, d) + (Fwd(R, a, node + c, d) + Fwd(R, b, node + c + 1, d))
  {
    hide Fwd, FwdBlocks, Ring.Size;
    FwdBlocksSnoc(R, x, a, node, d, c);
    BlocksLeft(c + 1, R.Size(d));
    FwdBlocksSnoc(R, x + a, b, node, d, c + 1);
    assert x + (a + b) == (x + a) + b;
  }

  /** Splitting one block one level further down leaves the remaining work unchanged. */
  lemma FwdBlocksStep(R: Ring, x: seq<int>, lo: seq<int>, hi: seq<int>, node: nat, d: nat, c: nat)
    requires R.stride >= 1 && |x| == (2 * c) * R.Size(d) && |lo| == |hi| == R.Size(d)
    ensures FwdBlocks(R, x + (Fold(lo, hi, R.Zeta(node + c), 1, R.q) + Fold(lo, hi, R.Zeta(node + c), -1, R.q)), 2 * node, d)
         == FwdBlocks(R, x, 2 * node, d) + Fwd(R, lo + hi, node + c, d + 1)
  {
    hide Fwd, FwdBlocks, Fold, Ring.Zeta, Ring.Size;
    var z := R.Zeta(node + c);
    FwdSplit(R, lo, hi, node + c, d + 1);
    FwdBlocksSnoc2(R, x, Fold(lo, hi, z, 1, R.q), Fold(lo, hi, z, -1, R.q), 2 * node, d, 2 * c);
  }

  /** The array s with x and y written over its 2 len entries from start. */
  function Spliced(s: seq<int>, start: nat, x: seq<int>, y: seq<int>): (r: seq<int>)
    requires |x| == |y| && start + 2 * |x| <= |s|
    ensures |r| == |s|
  {
    s[..start] + (x + y) + s[start + 2 * |x|..]
  }

  lemma SplicedIs(now: seq<int>, was: seq<int>, start: nat, x: seq<int>, y: seq<int>)
    requires |now| == |was| && |x| == |y| && start + 2 * |x| <= |was|
    requires forall i :: 0 <= i < start || start + 2 * |x| <= i < |was| ==> now[i] == was[i]
    requires forall i :: 0 <= i < |x| ==> now[start + i] == x[i]
    requires forall i :: 0 <= i < |x| ==> now[start + |x| + i] == y[i]
    ensures now == Spliced(was, start, x, y)
  {
    forall i | 0 <= i < |now| ensures now[i] == Spliced(was, start, x, y)[i] {
      if start <= i < start + |x| {
        assert now[start + (i - start)] == x[i - start];
      } else if start + |x| <= i < start + 2 * |x| {
        assert now[start + |x| + (i - start - |x|)] == y[i - start - |x|];
      }
    }
  }

  /** One butterfly block: the innermost loop of _ntt. */
  method ForwardBlock(a: array<int>, start: nat, len: nat, z: int, q: Modulus)
    requires start + 2 * len <= a.Length
    modifies a
    ensures a[..] == Spliced(old(a[..]), start,
                             Fold(old(a[start..start + len]), old(a[start + len..start + 2 * len]), z, 1, q),
                             Fold(old(a[start..start + len]), old(a[start + len..start + 2 * len]), z, -1, q))
  {
    hide FoldAt;
    ghost var was := a[..];
    for j := start to start + len
      invariant forall i :: 0 <= i < start || start + 2 * len <= i < a.Length ==> a[i] == was[i]
      invariant forall i :: j <= i < start + len || j + len <= i < start + 2 * len ==> a[i] == was[i]
      invariant forall i :: start <= i < j ==> a[i] == FoldAt(was[i], was[i + len], z, 1, q)
      invariant forall i :: start + len <= i < j + len ==> a[i] == FoldAt(was[i - len], was[i], z, -1, q)
    {
      FoldAtIs(a[j], a[j + len], z, q);
      var t := (z * a[j + len]) % q;
      a[j + len] := (a[j] - t) % q;
      a[j] := (a[j] + t) % q;
    }
    SplicedIs(a[..], was, start, Fold(was[start..start + len], was[start + len..start + 2 * len], z, 1, q),
              Fold(was[start..start + len], was[start + len..start + 2 * len], z, -1, q));
  }

  lemma FoldAtIs(x: int, y: int, z: int, q: Modulus)
    ensures FoldAt(x, y, z, 1, q) == (x + (z * y) % q) % q
    ensures FoldAt(x, y, z, -1, q) == (x - (z * y) % q) % q
  {}

  /** One butterfly block: the innermost loop of _ntt_inv. */
  method InverseBlock(a: array<int>, start: nat, len: nat, z: int, q: Modulus)
    requires start + 2 * len <= a.Length
    modifies a
    ensures a[..] == Spliced(old(a[..]), start,
                             Sum(old(a[start..start + len]), old(a[start + len..start + 2 * len]), q),
                             ScaledDiff(old(a[start..start + len]), old(a[start + len..start + 2 * len]), z, q))
  {
    hide SumAt, ScaledDiffAt;
    ghost var was := a[..];
    for j := start to start + len
      invariant forall i :: 0 <= i < start || start + 2 * len <= i < a.Length ==> a[i] == was[i]
      invariant forall i :: j <= i < start + len || j + len <= i < start + 2 * len ==> a[i] == was[i]
      invariant forall i :: start <= i < j ==> a[i] == SumAt(was[i], was[i + len], q)
      invariant forall i :: start + len <= i < j + len ==> a[i] == ScaledDiffAt(was[i - len], was[i], z, q)
    {
      DiffAtIs(a[j], a[j + len], z, q);
      var t := a[j];
      a[j] := (t + a[j + len]) % q;
      a[j + len] := (z * (a[j + len] - t)) % q;
    }
    SplicedIs(a[..], was, start, Sum(was[start..start + len], was[start + len..start + 2 * len], q),
              ScaledDiff(was[start..start + len], was[start + len..start + 2 * len], z, q));
  }

  lemma DiffAtIs(x: int, y: int, z: int, q: Modulus)
    ensures SumAt(x, y, q) == (x + y) % q
    ensures ScaledDiffAt(x, y, z, q) == (z * (y - x)) % q
  {}

  /** The state of one pass of the middle loop of _ntt after done blocks: was is
      the array before the pass, now the array so far, start the loop variable. */
  ghost predicate ForwardPass(R: Ring, was: seq<int>, now: seq<int>, start: nat, done: nat, node: nat, d: nat)
  {
    && R.stride >= 1
    && start == done * R.Size(d + 1)
    && start <= |was| == |now|
    && now[start..] == was[start..]
    && FwdBlocks(R, now[..start], 2 * node, d) == FwdBlocks(R, was[..start], node, d + 1)
  }

  lemma ForwardPassStep(R: Ring, was: seq<int>, now: seq<int>, start: nat, done: nat, node: nat, d: nat)
    requires ForwardPass(R, was, now, start, done, node, d)
    requires start + 2 * R.Size(d) <= |was|
    ensures var len, z := R.Size(d), R.Zeta(node + done);
            var lo, hi := now[start..start + len], now[start + len..start + 2 * len];
            ForwardPass(R, was, Spliced(now, start, Fold(lo, hi, z, 1, R.q), Fold(lo, hi, z, -1, R.q)),
                        start + 2 * len, done + 1, node, d)
  {
    hide Fwd, FwdBlocks, Fold, Ring.Zeta;
    var len, z := R.Size(d), R.Zeta(node + done);
    var lo, hi := now[start..start + len], now[start + len..start + 2 * len];
    var x, y := Fold(lo, hi, z, 1, R.q), Fold(lo, hi, z, -1, R.q);
    var now' := Spliced(now, start, x, y);
    BlocksLeft(done + 1, R.Size(d + 1));
    assert start == (2 * done) * len;
    assert now'[..start + 2 * len] == now[..start] + (x + y);
    assert was[..start + 2 * len] == was[..start] + (lo + hi) by { SamePiece(now, was, start, len); }
    assert now'[start + 2 * len..] == was[start + 2 * len..] by { SameRest(now, was, start, len); }
    FwdBlocksStep(R, now[..start], lo, hi, node, d, done);
    FwdBlocksSnoc(R, was[..start], lo + hi, node, d + 1, done);
  }

  lemma SamePiece(now: seq<int>, was: seq<int>, start: nat, len: nat)
    requires start + 2 * len <= |was| == |now| && now[start..] == was[start..]
    ensures was[..start + 2 * len] == was[..start] + (now[start..start + len] + now[start + len..start + 2 * len])
  {
    SliceOfRest(now, start, 0, len);
    SliceOfRest(now, start, len, 2 * len);
    SliceOfRest(was, start, 0, len);
    SliceOfRest(was, start, len, 2 * len);
    assert was[..start + 2 * len] == was[..start] + (was[start..start + len] + was[start + len..start + 2 * len]);
  }

  lemma SliceOfRest(s: seq<int>, start: nat, i: nat, j: nat)
    requires i <= j && start + j <= |s|
    ensures s[start + i..start + j] == s[start..][i..j]
  {}

  lemma SameRest(now: seq<int>, was: seq<int>, start: nat, len: nat)
    requires start + 2 * len <= |was| == |now| && now[start..] == was[start..]
    ensures now[start + 2 * len..] == was[start + 2 * len..]
  {
    assert now[start + 2 * len..] == now[start..][2 * len..] && was[start + 2 * len..] == was[start..][2 * len..];
  }

  /** One pass of the middle loop of _ntt: every block splits one level down. */
  method ForwardLevel(R: Ring, a: array<int>, len: nat, k0: nat, ghost d: nat, ghost blocks: nat) returns (k: nat)
    requires R.stride >= 1 && len == R.Size(d) && a.Length == blocks * R.Size(d + 1)
    modifies a
    ensures k == k0 + blocks
    ensures FwdBlocks(R, a[..], 2 * (k0 + 1), d) == FwdBlocks(R, old(a[..]), k0 + 1, d + 1)
  {
    hide FwdBlocks, Ring.Zeta, Spliced;
    k := k0;
    var start := 0;
    ghost var was, done: nat := a[..], 0;
    ForwardPassInit(R, was, k0 + 1, d);
    while start < a.Length
      invariant k == k0 + done
      invariant ForwardPass(R, was, a[..], start, done, k0 + 1, d)
      decreases a.Length - start
    {
      k := k + 1;
      NextBlock(done, blocks, R.Size(d + 1));
      ForwardPassStep(R, was, a[..], start, done, k0 + 1, d);
      assert a[..][start..start + len] == a[start..start + len]
          && a[..][start + len..start + 2 * len] == a[start + len..start + 2 * len];
      ForwardBlock(a, start, len, R.Zeta(k), R.q);
      start := start + 2 * len;
      done := done + 1;
    }
    SameBlocks(done, blocks, R.Size(d + 1));
    assert a[..][..start] == a[..] && was[..start] == was;
  }

  lemma ForwardPassInit(R: Ring, was: seq<int>, node: nat, d: nat)
    requires R.stride >= 1
    ensures ForwardPass(R, was, was, 0, 0, node, d)
  {}

  lemma NextBlock(done: nat, blocks: nat, size: nat)
    requires done * size < blocks * size
    ensures done < blocks && done * size + size <= blocks * size
  {
    if done >= blocks {
      MulLe(blocks, done, size);
    } else {
      MulLe(done + 1, blocks, size);
      assert (done + 1) * size == done * size + size;
    }
  }

  lemma SameBlocks(x: nat, y: nat, size: nat)
    requires size >= 1 && x * size == y * size
    ensures x == y
  {
    assert (x - y) * size == 0;
  }

  /** The state of one pass of the middle loop of _ntt_inv after done blocks: g is
      the array the whole inversion started from. */
  ghost predicate InversePass(R: Ring, g: seq<int>, now: seq<int>, start: nat, done: nat, mirror: int, d: nat)
  {
    && R.stride >= 1
    && start == done * R.Size(d + 1)
    && start <= |g| == |now|
    && now[..start] == InvBlocks(R, g[..start], mirror, d + 1)
    && now[start..] == InvBlocks(R, g[start..], 2 * (mirror - done) + 1, d)
  }

  /** The next two blocks of a pass, and what the pass makes of them. */
  lemma InvBlocksFront(R: Ring, g: seq<int>, mirror: nat, d: nat)
    requires R.stride >= 1 && |g| >= 2 * R.Size(d)
    ensures InvBlocks(R, g, 2 * mirror + 1, d)
         == (Inv(R, g[..R.Size(d)], 2 * mirror + 1, d) + Inv(R, g[R.Size(d)..2 * R.Size(d)], 2 * mirror, d))
            + InvBlocks(R, g[2 * R.Size(d)..], 2 * (mirror - 1) + 1, d)
  {
    var len := R.Size(d);
    assert g[len..][..len] == g[len..2 * len] && g[len..][len..] == g[2 * len..];
  }

  lemma InversePassStep(R: Ring, g: seq<int>, now: seq<int>, start: nat, done: nat, mirror: int, d: nat)
    requires InversePass(R, g, now, start, done, mirror, d)
    requires start + 2 * R.Size(d) <= |g| && mirror >= done
    ensures var len, z := R.Size(d), R.Zeta(mirror - done);
            var lo, hi := now[start..start + len], now[start + len..start + 2 * len];
            InversePass(R, g, Spliced(now, start, Sum(lo, hi, R.q), ScaledDiff(lo, hi, z, R.q)),
                        start + 2 * len, done + 1, mirror, d)
  {
    hide Inv, InvBlocks, Sum, ScaledDiff, Ring.Zeta, Pow, BitRev, Spliced;
    var len, m := R.Size(d), mirror - done;
    var lo, hi := now[start..start + len], now[start + len..start + 2 * len];
    var x, y := Sum(lo, hi, R.q), ScaledDiff(lo, hi, R.Zeta(m), R.q);
    var now' := Spliced(now, start, x, y);
    var g0, g1 := g[start..][..len], g[start..][len..2 * len];
    InvBlocksFront(R, g[start..], m, d);
    FrontParts(now, start, len, Inv(R, g0, 2 * m + 1, d), Inv(R, g1, 2 * m, d),
               InvBlocks(R, g[start..][2 * len..], 2 * (m - 1) + 1, d));
    InvSplit(R, g0, g1, m, d + 1);
    BlocksLeft(done + 1, R.Size(d + 1));
    InvBlocksSnoc(R, g[..start], g0 + g1, mirror, d + 1, done);
    CutTwice(g, start, len);
    SplicedParts(now, start, x, y);
  }

  lemma CutTwice(g: seq<int>, start: nat, len: nat)
    requires start + 2 * len <= |g|
    ensures g[..start + 2 * len] == g[..start] + (g[start..][..len] + g[start..][len..2 * len])
    ensures g[start + 2 * len..] == g[start..][2 * len..]
  {}

  lemma SplicedParts(now: seq<int>, start: nat, x: seq<int>, y: seq<int>)
    requires |x| == |y| && start + |x| + |y| <= |now|
    ensures var now' := Spliced(now, start, x, y);
            && |now'| == |now| && now'[..start + |x| + |y|] == now[..start] + (x + y)
            && now'[start + |x| + |y|..] == now[start + |x| + |y|..]
  {}

  lemma FrontParts(now: seq<int>, start: nat, len: nat, x: seq<int>, y: seq<int>, rest: seq<int>)
    requires |x| == |y| == len && start + 2 * len <= |now|
    requires now[start..] == (x + y) + rest
    ensures now[start..start + len] == x && now[start + len..start + 2 * len] == y
    ensures now[start + 2 * len..] == rest
  {
    SliceOfRest(now, start, 0, len);
    SliceOfRest(now, start, len, 2 * len);
    assert now[start + 2 * len..] == now[start..][2 * len..];
  }

  lemma InversePassInit(R: Ring, g: seq<int>, now: seq<int>, mirror: int, d: nat)
    requires R.stride >= 1 && now == InvBlocks(R, g, 2 * mirror + 1, d)
    ensures InversePass(R, g, now, 0, 0, mirror, d)
  {}

  /** One pass of the middle loop of _ntt_inv: blocks merge two by two. */
  method InverseLevel(R: Ring, a: array<int>, len: nat, k0: nat, ghost g: seq<int>, ghost d: nat, ghost blocks: nat) returns (k: nat)
    requires R.stride >= 1 && len == R.Size(d) && |g| == a.Length == blocks * R.Size(d + 1) && blocks < k0
    requires a[..] == InvBlocks(R, g, 2 * k0 - 1, d)
    modifies a
    ensures k == k0 - blocks
    ensures a[..] == InvBlocks(R, g, k0 - 1, d + 1)
  {
    hide InvBlocks, Ring.Zeta, Spliced;
    k := k0;
    var start := 0;
    ghost var done: nat := 0;
    InversePassInit(R, g, a[..], k0 - 1, d);
    while start < a.Length
      invariant done <= blocks && k == k0 - done
      invariant InversePass(R, g, a[..], start, done, k0 - 1, d)
      decreases a.Length - start
    {
      k := k - 1;
      NextBlock(done, blocks, R.Size(d + 1));
      InversePassStep(R, g, a[..], start, done, k0 - 1, d);
      assert a[..][start..start + len] == a[start..start + len]
          && a[..][start + len..start + 2 * len] == a[start + len..start + 2 * len];
      InverseBlock(a, start, len, R.Zeta(k), R.q);
      start := start + 2 * len;
      done := done + 1;
    }
    SameBlocks(done, blocks, R.Size(d + 1));
    assert a[..][..start] == a[..] && g[..start] == g;
  }

  // ----- the outer loops

  lemma LevelSize(R: Ring, d: nat, m: nat)
    requires m + d == R.bits
    ensures Exp2(m) * R.Size(d) == R.N()
    decreases d
  {
    if d == 0 {
      SizeStrides(R, R.bits);
    } else {
      SizeStrides(R, d);
      SizeStrides(R, R.bits);
      Exp2Add(m, d);
      assert Exp2(m) * (Exp2(d) * R.stride) == (Exp2(m) * Exp2(d)) * R.stride;
    }
  }

  lemma {:induction false} FwdBlocksLeaves(R: Ring, a: seq<int>, node: nat)
    requires R.stride >= 1
    ensures FwdBlocks(R, a, node, 0) == a
    decreases |a|
  {
    if |a| >= R.Size(0) {
      FwdBlocksLeaves(R, a[R.Size(0)..], node + 1);
    }
  }

  lemma {:induction false} InvBlocksLeaves(R: Ring, a: seq<int>, mirror: int)
    requires R.stride >= 1
    ensures InvBlocks(R, a, mirror, 0) == a
    decreases |a|
  {
    if |a| >= R.Size(0) && mirror >= 0 {
      InvBlocksLeaves(R, a[R.Size(0)..], mirror - 1);
    }
  }

  lemma LevelFacts(R: Ring, d: nat, m: nat)
    requires R.stride >= 1
    ensures Exp2(m + 1) == 2 * Exp2(m) && R.Size(d) >= R.stride
    ensures R.Size(d) / 2 == if d == 0 then R.stride / 2 else R.Size(d - 1)
    ensures R.Size(d + 1) == 2 * R.Size(d) && R.Size(0) == R.stride
  {}

  lemma ForwardStart(R: Ring, f: seq<int>)
    requires R.Valid() && |f| == R.N()
    ensures R.bits >= 1 && R.stride >= 1 && Exp2(0) == 1
    ensures FwdBlocks(R, f, 1, R.bits) == Forward(R, f)
    ensures R.N() / 2 == R.Size(R.bits - 1)
  {
    hide Fwd;
    assert f[..R.N()] == f && f[R.N()..] == [];
  }

  /** _ntt: the three nested loops compute the recursive transform. */
  method Transform(R: Ring, f: seq<int>) returns (out: seq<int>)
    requires R.Valid() && |f| == R.N()
    ensures out == Forward(R, f)
  {
    hide Ring.Valid, Forward, FwdBlocks, Exp2, Ring.Size;
    var a := new int[|f|](i requires 0 <= i < |f| => f[i]);
    var k := 0;
    ForwardStart(R, f);
    var length := R.N() / 2;
    ghost var d, m := R.bits, 0;
    assert a[..] == f;
    while length >= R.stride
      invariant 0 <= d <= R.bits && m + d == R.bits && k == Exp2(m) - 1
      invariant if d == 0 then length < R.stride else length == R.Size(d - 1)
      invariant a.Length == R.N()
      invariant FwdBlocks(R, a[..], k + 1, d) == Forward(R, f)
      decreases d
    {
      LevelSize(R, d, m);
      LevelFacts(R, d - 1, m);
      k := ForwardLevel(R, a, length, k, d - 1, Exp2(m));
      length := length / 2;
      d, m := d - 1, m + 1;
    }
    FinalLevel(R, d);
    FwdBlocksLeaves(R, a[..], k + 1);
    out := a[..];
  }

  lemma FinalLevel(R: Ring, d: nat)
    requires R.stride >= 1
    ensures d >= 1 ==> R.Size(d - 1) >= R.stride
  {}

  /** The state of the outer loop of _ntt_inv with blocks of 2^d leaves. */
  ghost predicate Inverting(R: Ring, g: seq<int>, now: seq<int>, d: nat, k: nat, length: nat)
  {
    && |g| == |now| == R.N() && d <= R.bits && R.stride >= 1
    && k == Exp2(R.bits - d) && length == R.Size(d)
    && now == InvBlocks(R, g, 2 * k - 1, d)
  }

  lemma InvertingStart(R: Ring, g: seq<int>)
    requires R.Valid() && |g| == R.N()
    ensures Inverting(R, g, g, 0, Exp2(R.bits), R.stride)
  {
    InvBlocksLeaves(R, g, 2 * Exp2(R.bits) - 1);
  }

  lemma InvertingLevel(R: Ring, g: seq<int>, now: seq<int>, d: nat, k: nat, length: nat)
    requires Inverting(R, g, now, d, k, length) && length <= R.N() / 2
    ensures R.stride >= 1 && d < R.bits && length == R.Size(d) && k == 2 * Exp2(R.bits - d - 1)
    ensures |g| == |now| == Exp2(R.bits - d - 1) * R.Size(d + 1) && Exp2(R.bits - d - 1) < k
    ensures now == InvBlocks(R, g, 2 * k - 1, d)
  {
    SizeGrows(R, d);
    LevelSize(R, d + 1, R.bits - d - 1);
  }

  lemma InvertingNext(R: Ring, g: seq<int>, now: seq<int>, d: nat, k: nat, length: nat)
    requires R.stride >= 1 && d < R.bits && length == R.Size(d) && k == 2 * Exp2(R.bits - d - 1)
    requires |g| == |now| == R.N() && now == InvBlocks(R, g, k - 1, d + 1)
    ensures Inverting(R, g, now, d + 1, k - Exp2(R.bits - d - 1), length * 2)
  {}

  lemma InvertingDone(R: Ring, g: seq<int>, now: seq<int>, d: nat, k: nat, length: nat)
    requires Inverting(R, g, now, d, k, length) && length > R.N() / 2
    ensures now == Inv(R, g, 1, R.bits)
  {
    hide Inv;
    SizeGrows(R, d);
    assert g[..R.N()] == g && g[R.N()..] == [];
  }

  /** _ntt_inv: the three nested loops and the final scaling. */
  method InverseTransform(R: Ring, g: seq<int>) returns (out: seq<int>)
    requires R.Valid() && |g| == R.N()
    ensures out == Inverse(R, g)
  {
    hide Ring.Valid, Inv, InvBlocks, Inverting, Exp2, Ring.Size, Scale;
    var a := new int[|g|](i requires 0 <= i < |g| => g[i]);
    var k, length: nat := Exp2(R.bits), R.stride;
    ghost var d: nat := 0;
    assert a[..] == g;
    InvertingStart(R, g);
    while length <= R.N() / 2
      invariant d <= R.bits && Inverting(R, g, a[..], d, k, length)
      decreases R.bits - d
    {
      InvertingLevel(R, g, a[..], d, k, length);
      k := InverseLevel(R, a, length, k, g, d, Exp2(R.bits - d - 1));
      InvertingNext(R, g, a[..], d, 2 * Exp2(R.bits - d - 1), length);
      length := length * 2;
      d := d + 1;
    }
    InvertingDone(R, g, a[..], d, k, length);
    out := Scale(a[..], R.inv, R.q);
  }

  lemma {:induction false} SizeGrows(R: Ring, d: nat)
    requires d <= R.bits
    ensures d < R.bits ==> R.Size(d) <= R.N() / 2
    ensures R.stride >= 1 ==> (R.Size(d) <= R.N() / 2 ==> d < R.bits)
    decreases R.bits - d
  {
    if d < R.bits {
      SizeGrows(R, d + 1);
    }
  }
}
