/** Rounding and hints of ML-DSA (section 7.4 of FIPS 204). */
module MlDsaRounding {
  import opened ModArith

  const Q: int := 8380417

  /** A polynomial of degree below 256. */
  type Poly = p: seq<int> | |p| == 256 witness seq(256, i => 0)

  /** The centered residue in (-q/2, q/2]. */
  function ModPm(x: int): (r: int)
    ensures -(Q - 1) / 2 <= r <= (Q - 1) / 2
    ensures (x - r) % Q == 0
  {
    var t := x % Q;
    if t > (Q - 1) / 2 then t - Q else t
  }

  function ReducedQ(p: Poly): Poly
  {
    seq(256, i requires 0 <= i < 256 => p[i] % Q)
  }

  /** The centered residue in (-m/2, m/2]. */
  function ModPmRange(x: int, m: int): int
    requires m > 0
  {
    var t := x % m;
    if t > m / 2 then t - m else t
  }

  function Power2Round(r: int): (int, int)
  {
    var rPlus := r % Q;
    var r0 := ModPmRange(rPlus, 8192);
    ((rPlus - r0) / 8192, r0)
  }

  /** t1 2^13 + t0 is the rounded value, t1 fits in 10 bits and t0 in 13. */
  lemma Power2RoundSplits(r: int)
    ensures var (t1, t0) := Power2Round(r);
            && t1 * 8192 + t0 == r % Q
            && 0 <= t1 < 1024
            && -4096 < t0 <= 4096
  {}

  predicate IsGamma2(gamma2: int) { gamma2 == 95232 || gamma2 == 261888 }

  function Decompose(r: int, gamma2: int): (int, int)
    requires gamma2 > 0
  {
    var rPlus := r % Q;
    var r0 := ModPmRange(rPlus, 2 * gamma2);
    if rPlus - r0 == Q - 1 then (0, r0 - 1) else ((rPlus - r0) / (2 * gamma2), r0)
  }

  function HighBits(r: int, gamma2: int): int
    requires gamma2 > 0
  {
    Decompose(r, gamma2).0
  }

  function LowBits(r: int, gamma2: int): int
    requires gamma2 > 0
  {
    Decompose(r, gamma2).1
  }

  function Buckets(gamma2: int): int
    requires gamma2 > 0
  {
    (Q - 1) / (2 * gamma2)
  }

  function MakeHint(z: int, r: int, gamma2: int): int
    requires gamma2 > 0
  {
    if HighBits(r, gamma2) != HighBits(r + z, gamma2) then 1 else 0
  }

  function UseHint(h: int, r: int, gamma2: int): int
    requires IsGamma2(gamma2)
  {
    var m := Buckets(gamma2);
    var (r1, r0) := Decompose(r, gamma2);
    if h == 1 then (if r0 > 0 then (r1 + 1) % m else (r1 - 1) % m) else r1
  }

  /** The high part selects one of the buckets, the low part is its distance
      from the bucket centre; only bucket 0 reaches -gamma2. */
  lemma DecomposeSplits(r: int, gamma2: int)
    requires IsGamma2(gamma2)
    ensures var (r1, r0) := Decompose(r, gamma2);
            && 0 <= r1 < Buckets(gamma2)
            && (r - (r1 * (2 * gamma2) + r0)) % Q == 0
            && -gamma2 <= r0 <= gamma2
            && (r0 == -gamma2 ==> r1 == 0)
  {
    if gamma2 == 95232 {
      Decompose88(r);
    } else {
      Decompose32(r);
    }
  }

  lemma Decompose88(r: int)
    ensures var (r1, r0) := Decompose(r, 95232);
            && 0 <= r1 < 44
            && (r - (r1 * 190464 + r0)) % Q == 0
            && -95232 <= r0 <= 95232
            && (r0 == -95232 ==> r1 == 0)
  {}

  lemma Decompose32(r: int)
    ensures var (r1, r0) := Decompose(r, 261888);
            && 0 <= r1 < 16
            && (r - (r1 * 523776 + r0)) % Q == 0
            && -261888 <= r0 <= 261888
            && (r0 == -261888 ==> r1 == 0)
  {}

  /** Those properties determine both parts. */
  lemma HighBitsUnique(r: int, a: int, b: int, gamma2: int)
    requires IsGamma2(gamma2)
    requires 0 <= a < Buckets(gamma2) && -gamma2 <= b <= gamma2 && (b == -gamma2 ==> a == 0)
    requires (r - (a * (2 * gamma2) + b)) % Q == 0
    ensures HighBits(r, gamma2) == a
    ensures LowBits(r, gamma2) == b
  {
    var g := 2 * gamma2;
    var x := a * g + b;
    assert Buckets(gamma2) * g == Q - 1;
    MulLe(a, Buckets(gamma2) - 1, g);
    assert (Buckets(gamma2) - 1) * g == Q - 1 - g;
    if a >= 1 {
      MulLe(1, a, g);
    }
    if x >= 0 {
      ResidueIs(r, x);
      CenteredParts(a, b, gamma2);
    } else {
      ResidueIs(r, x + Q);
      CenteredParts(Buckets(gamma2), b + 1, gamma2);
    }
  }

  lemma ResidueIs(r: int, x: int)
    requires (r - x) % Q == 0 || (r - x + Q) % Q == 0
    requires 0 <= x < Q
    ensures r % Q == x
  {}

  lemma CenteredParts(a: int, b: int, gamma2: int)
    requires gamma2 > 0 && -gamma2 < b <= gamma2
    ensures ModPmRange(a * (2 * gamma2) + b, 2 * gamma2) == b
    ensures (a * (2 * gamma2)) / (2 * gamma2) == a
  {
    var g := 2 * gamma2;
    RemainderUnique(a, 0, g);
    if b >= 0 {
      RemainderUnique(a, b, g);
    } else {
      assert a * g + b == (a - 1) * g + (b + g);
      RemainderUnique(a - 1, b + g, g);
    }
  }

  /** Where adding z moves the high part: the same bucket, or the next one in
      the direction the hint takes. */
  lemma HighBitsMove(z: int, r: int, r1: int, r0: int, gamma2: int)
    requires IsGamma2(gamma2) && -gamma2 <= z <= gamma2
    requires 0 <= r1 < Buckets(gamma2) && -gamma2 <= r0 <= gamma2
    requires (r - (r1 * (2 * gamma2) + r0)) % Q == 0
    ensures var m, s, high := Buckets(gamma2), r0 + z, HighBits(r + z, gamma2);
            if -gamma2 < s <= gamma2 || (s == -gamma2 && r1 == 0) then high == r1
            else if s > gamma2 then r0 > 0 && high == (if r1 + 1 < m then r1 + 1 else 0)
            else r0 <= 0 && high == (if r1 >= 1 then r1 - 1 else m - 1)
  {
    hide HighBits, LowBits;
    var m, g, base, s := Buckets(gamma2), 2 * gamma2, r1 * (2 * gamma2), r0 + z;
    assert m * g == Q - 1;
    if -gamma2 < s <= gamma2 || (s == -gamma2 && r1 == 0) {
      HighBitsUnique(r + z, r1, s, gamma2);
    } else if s > gamma2 {
      if r1 + 1 < m {
        assert (r1 + 1) * g == base + g;
        HighBitsUnique(r + z, r1 + 1, s - g, gamma2);
      } else {
        assert r1 == m - 1 && (m - 1) * g == m * g - g;
        OffByQ(r + z, base + s, s - g - 1);
        HighBitsUnique(r + z, 0, s - g - 1, gamma2);
      }
    } else if r1 >= 1 {
      assert (r1 - 1) * g == base - g;
      HighBitsUnique(r + z, r1 - 1, s + g, gamma2);
    } else {
      assert base == 0 && (m - 1) * g == m * g - g;
      OffByQ(r + z, s, (m - 1) * g + (s + g + 1));
      HighBitsUnique(r + z, m - 1, s + g + 1, gamma2);
    }
  }

  lemma OffByQ(r: int, x: int, y: int)
    requires (r - x) % Q == 0 && (y == x - Q || y == x + Q)
    ensures (r - y) % Q == 0
  {}

  /** The hint recovers the high bits of r + z from r alone. */
  lemma HintRecovers(z: int, r: int, gamma2: int)
    requires IsGamma2(gamma2) && -gamma2 <= z <= gamma2
    ensures UseHint(MakeHint(z, r, gamma2), r, gamma2) == HighBits(r + z, gamma2)
  {
    assert Buckets(gamma2) > 1;
    hide Decompose, Buckets;
    var (r1, r0) := Decompose(r, gamma2);
    DecomposeSplits(r, gamma2);
    HighBitsMove(z, r, r1, r0, gamma2);
    NeighbourBucket(r1, Buckets(gamma2));
  }

  lemma NeighbourBucket(x: int, m: Modulus)
    requires 0 <= x < m
    ensures (x + 1) % m == if x + 1 < m then x + 1 else 0
    ensures (x - 1) % m == if x >= 1 then x - 1 else m - 1
  {
    RemainderUnique(0, if x + 1 < m then x + 1 else 0, m);
    RemainderUnique(1, 0, m);
    RemainderUnique(-1, m - 1, m);
    if x >= 1 {
      RemainderUnique(0, x - 1, m);
    }
  }

  /** Both parts depend on the residue alone. */
  lemma DecomposeResidue(x: int, y: int, gamma2: int)
    requires gamma2 > 0 && x % Q == y % Q
    ensures Decompose(x, gamma2) == Decompose(y, gamma2)
    ensures HighBits(x, gamma2) == HighBits(y, gamma2)
  {
    hide ModPmRange;
  }

  lemma ModPmSmall(x: int)
    requires -(Q - 1) / 2 <= x <= (Q - 1) / 2
    ensures ModPm(x) == x
  {}

  /** A low part clear of the bucket edge by beta absorbs any change up to beta. */
  lemma LowBitsAbsorb(r: int, s: int, beta: int, gamma2: int)
    requires IsGamma2(gamma2) && 0 <= beta && -beta <= s <= beta
    requires -(gamma2 - beta) < LowBits(r, gamma2) < gamma2 - beta
    ensures HighBits(r + s, gamma2) == HighBits(r, gamma2)
  {
    var (r1, r0) := Decompose(r, gamma2);
    DecomposeSplits(r, gamma2);
    HighBitsUnique(r + s, r1, r0 + s, gamma2);
  }
}
