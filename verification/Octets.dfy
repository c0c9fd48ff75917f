/** Byte strings as big-endian integers, and exclusive or bit by bit. */
module Octets {
  import opened Options
  import opened ModArith

  type Bytes = seq<int>

  ghost predicate IsBytes(s: Bytes)
  {
    forall i :: 0 <= i < |s| ==> 0 <= s[i] < 256
  }

  function Zeros(n: nat): (s: Bytes)
    ensures |s| == n && IsBytes(s)
  {
    seq(n, i => 0)
  }

  // ----- integers

  /** os2ip. */
  function Os2ip(s: Bytes): int
  {
    if s == [] then 0 else Os2ip(s[..|s| - 1]) * 256 + s[|s| - 1]
  }

  function ToBytes(v: nat, n: nat): (s: Bytes)
    ensures |s| == n && IsBytes(s)
    decreases n
  {
    if n == 0 then [] else ToBytes(v / 256, n - 1) + [v % 256]
  }

  /** i2osp; None when the integer is too large. */
  function I2osp(v: nat, n: nat): Option<Bytes>
  {
    if v >= Exp2(8 * n) then None else Some(ToBytes(v, n))
  }

  lemma {:induction false} ToBytesRoundTrip(v: nat, n: nat)
    requires v < Exp2(8 * n)
    ensures Os2ip(ToBytes(v, n)) == v
    decreases n
  {
    if n > 0 {
      NextOctet(n);
      ToBytesRoundTrip(v / 256, n - 1);
      assert ToBytes(v, n)[..n - 1] == ToBytes(v / 256, n - 1);
    }
  }

  lemma NextOctet(n: nat)
    requires n >= 1
    ensures Exp2(8 * n) == 256 * Exp2(8 * (n - 1))
  {
    Exp2Add(8, 8 * (n - 1));
    assert Exp2(8) == 256;
  }

  /** The integer of n bytes whose first is below 2^k. */
  lemma {:induction false} Os2ipBound(s: Bytes, k: nat)
    requires IsBytes(s) && s != [] && s[0] < Exp2(k)
    ensures 0 <= Os2ip(s) < Exp2(k + 8 * (|s| - 1))
  {
    var n := |s| - 1;
    if n > 0 {
      Os2ipBound(s[..n], k);
      Exp2Add(8, k + 8 * (n - 1));
      ByteRange();
      hide Exp2;
    } else {
      assert s[..0] == [];
    }
  }

  lemma {:induction false} Os2ipNonNegative(s: Bytes)
    requires IsBytes(s)
    ensures 0 <= Os2ip(s) < Exp2(8 * |s|)
  {
    if s != [] {
      var n := |s| - 1;
      Os2ipNonNegative(s[..n]);
      NextOctet(n + 1);
    }
  }

  lemma {:induction false} Os2ipRoundTrip(s: Bytes)
    requires IsBytes(s)
    ensures 0 <= Os2ip(s) && ToBytes(Os2ip(s), |s|) == s
  {
    Os2ipNonNegative(s);
    if s != [] {
      var n := |s| - 1;
      Os2ipNonNegative(s[..n]);
      Os2ipRoundTrip(s[..n]);
      assert Os2ip(s) / 256 == Os2ip(s[..n]) && Os2ip(s) % 256 == s[n];
      assert s == s[..n] + [s[n]];
    }
  }

  // ----- exclusive or

  /** The exclusive or of the n low bits. */
  function Xor(a: nat, b: nat, n: nat): (r: nat)
    ensures r < Exp2(n)
  {
    if n == 0 then 0 else (a + b) % 2 + 2 * Xor(a / 2, b / 2, n - 1)
  }

  lemma {:induction false} XorTwice(a: nat, b: nat, n: nat)
    ensures Xor(Xor(a, b, n), b, n) == a % Exp2(n)
  {
    if n > 0 {
      hide Xor, Exp2;
      XorTwice(a / 2, b / 2, n - 1);
      XorStep(a, b, n);
      XorStep(Xor(a, b, n), b, n);
      AddTwice(a, b, Xor(a, b, n));
      HalfRemainder(a, Exp2(n - 1));
      DoubleExp2(n);
    } else {
      assert a % 1 == 0;
    }
  }

  lemma DoubleExp2(n: nat)
    requires n > 0
    ensures Exp2(n) == 2 * Exp2(n - 1)
  {}

  lemma XorStep(a: nat, b: nat, n: nat)
    requires n > 0
    ensures Xor(a, b, n) == (a + b) % 2 + 2 * Xor(a / 2, b / 2, n - 1)
    ensures Xor(a, b, n) % 2 == (a + b) % 2 && Xor(a, b, n) / 2 == Xor(a / 2, b / 2, n - 1)
  {}

  lemma AddTwice(a: nat, b: nat, x: nat)
    requires x % 2 == (a + b) % 2
    ensures (x + b) % 2 == a % 2
  {}

  lemma HalfRemainder(a: nat, m: nat)
    requires m >= 1
    ensures a % (2 * m) == a % 2 + 2 * (a / 2 % m)
  {
    var h := a / 2;
    var q, r := h / m, h % m;
    assert h == q * m + r;
    assert a == q * (2 * m) + (a % 2 + 2 * r);
    RemainderUnique(q, a % 2 + 2 * r, 2 * m);
  }

  /** Masking the exclusive or to its k low bits. */
  lemma {:induction false} XorMasked(a: nat, b: nat, n: nat, k: nat)
    requires k <= n
    ensures Xor(a, b, n) % Exp2(k) == Xor(a, b, k)
    decreases n
  {
    if k > 0 {
      hide Xor, Exp2;
      XorMasked(a / 2, b / 2, n - 1, k - 1);
      XorStep(a, b, n);
      XorStep(a, b, k);
      HalfRemainder(Xor(a, b, n), Exp2(k - 1));
      DoubleExp2(k);
    }
  }

  /** xor_bytes, for operands of equal length. */
  function XorBytes(a: Bytes, b: Bytes): (r: Bytes)
    requires |a| == |b| && IsBytes(a) && IsBytes(b)
    ensures |r| == |a| && IsBytes(r)
  {
    ByteRange();
    seq(|a|, i requires 0 <= i < |a| => Xor(a[i], b[i], 8))
  }

  lemma ByteRange()
    ensures Exp2(8) == 256
  {}

  /** Masking twice restores the data. */
  lemma XorBytesTwice(a: Bytes, b: Bytes)
    requires |a| == |b| && IsBytes(a) && IsBytes(b)
    ensures XorBytes(XorBytes(a, b), b) == a
  {
    ByteRange();
    hide Xor;
    forall i | 0 <= i < |a| ensures XorBytes(XorBytes(a, b), b)[i] == a[i] {
      XorTwice(a[i], b[i], 8);
    }
  }

  /** The k low bits of the first byte survive masking, clearing and unmasking. */
  function ClearTop(s: Bytes, k: nat): (r: Bytes)
    requires s != [] && IsBytes(s) && k <= 8
    ensures |r| == |s| && IsBytes(r)
  {
    ByteRange();
    LowBelow(s[0], Exp2(k));
    s[0 := s[0] % Exp2(k)]
  }

  lemma LowBelow(x: nat, m: nat)
    requires m >= 1
    ensures 0 <= x % m <= x && x % m < m
  {
    assert x == m * (x / m) + x % m;
    if x / m >= 0 {
      MulLe(0, x / m, m);
    }
  }

  lemma UnmaskCleared(a: Bytes, b: Bytes, k: nat)
    requires |a| == |b| && a != [] && IsBytes(a) && IsBytes(b) && k <= 8
    ensures ClearTop(XorBytes(ClearTop(XorBytes(a, b), k), b), k) == ClearTop(a, k)
  {
    ByteRange();
    hide Xor;
    var masked := ClearTop(XorBytes(a, b), k);
    var back := ClearTop(XorBytes(masked, b), k);
    UnmaskFirst(a[0], b[0], k);
    forall i | 0 <= i < |a| ensures back[i] == ClearTop(a, k)[i] {
      if i > 0 {
        XorTwice(a[i], b[i], 8);
      }
    }
  }

  lemma UnmaskFirst(x: nat, m: nat, k: nat)
    requires k <= 8
    ensures Xor(x, m, 8) % Exp2(k) >= 0
    ensures Xor(Xor(x, m, 8) % Exp2(k), m, 8) % Exp2(k) == x % Exp2(k)
  {
    hide Xor, Exp2;
    XorMasked(x, m, 8, k);
    XorMasked(Xor(x, m, k), m, 8, k);
    XorTwice(x, m, k);
  }
}
