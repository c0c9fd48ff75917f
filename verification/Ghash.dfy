/** The field GF(2^128) of GCM as _gcm_mul computes it, and GHASH. A 128-bit integer is the
    list of its bits, the most significant first. */
module Ghash {
  import opened AesField
  import opened Aes
  import opened AesModes

  type Bits = s: seq<bool> | |s| == 128 witness seq(128, i => false)

  function Nil(): Bits { seq(128, i => false) }

  /** The reduction constant: 11100001 and 120 zeros. */
  function Reduction(): Bits { seq(128, i => i < 3 || i == 7) }

  /** The integer with bit i from the left alone, and zero for i = 128. */
  function Single(i: nat): Bits { seq(128, j => j == i) }

  function Add(a: Bits, b: Bits): Bits { seq(128, i requires 0 <= i < 128 => a[i] != b[i]) }

  function When(c: bool, a: Bits): Bits { if c then a else Nil() }

  function ShiftRight(v: Bits): Bits { [false] + v[..127] }

  /** The update of v in _gcm_mul. */
  function Step(v: Bits): Bits { if v[127] then Add(ShiftRight(v), Reduction()) else ShiftRight(v) }

  /** The iterations of _gcm_mul from number i on. */
  function Product(x: Bits, v: Bits, i: nat): Bits
    requires i <= 128
    decreases 128 - i, x
  {
    if i == 128 then Nil() else Add(When(x[i], v), Product(x, Step(v), i + 1))
  }

  function GcmMul(x: Bits, y: Bits): Bits { Product(x, y, 0) }

  lemma AddLaws(a: Bits, b: Bits, c: Bits, d: Bits)
    ensures Add(a, b) == Add(b, a) && Add(Add(a, b), c) == Add(a, Add(b, c))
    ensures Add(Add(a, b), Add(c, d)) == Add(Add(a, c), Add(b, d))
  {}

  lemma AddNone(a: Bits)
    ensures Add(a, Nil()) == a == Add(Nil(), a) && Add(a, a) == Nil()
  {}

  lemma StepLinear(a: Bits, b: Bits)
    ensures Step(Add(a, b)) == Add(Step(a), Step(b)) && Step(Nil()) == Nil()
  {
    assert ShiftRight(Add(a, b)) == Add(ShiftRight(a), ShiftRight(b));
    assert ShiftRight(Nil()) == Nil();
    hide ShiftRight, Add;
    AddLaws(ShiftRight(a), Reduction(), ShiftRight(b), Reduction());
    AddLaws(ShiftRight(a), Reduction(), ShiftRight(b), Nil());
    AddLaws(ShiftRight(a), ShiftRight(b), Reduction(), Nil());
    AddNone(Reduction());
    AddNone(Add(ShiftRight(a), ShiftRight(b)));
  }

  lemma WhenLinear(c: bool, d: bool, a: Bits, b: Bits)
    ensures When(c != d, a) == Add(When(c, a), When(d, a))
    ensures When(c, Add(a, b)) == Add(When(c, a), When(c, b))
    ensures Step(When(c, a)) == When(c, Step(a))
  {
    hide Add, Step;
    AddNone(a);
    AddNone(Nil());
    StepLinear(a, a);
  }

  /** _gcm_mul. */
  method Multiply128(x: Bits, y: Bits) returns (z: Bits)
    ensures z == GcmMul(x, y)
  {
    hide Add, Step;
    var v := y;
    var i := 0;
    z := Nil();
    AddNone(GcmMul(x, y));
    while i < 128
      invariant 0 <= i <= 128 && Add(z, Product(x, v, i)) == GcmMul(x, y)
    {
      AddLaws(z, When(x[i], v), Product(x, Step(v), i + 1), Nil());
      AddNone(z);
      if x[i] {
        z := Add(z, v);
      }
      v := Step(v);
      i := i + 1;
    }
    AddNone(z);
  }

  // ----- linearity

  lemma {:induction false} ProductLinearRight(x: Bits, a: Bits, b: Bits, i: nat)
    requires i <= 128
    ensures Product(x, Add(a, b), i) == Add(Product(x, a, i), Product(x, b, i))
    decreases 128 - i
  {
    hide Add, Step, When;
    if i == 128 {
      AddNone(Nil());
    } else {
      StepLinear(a, b);
      WhenLinear(x[i], x[i], a, b);
      ProductLinearRight(x, Step(a), Step(b), i + 1);
      AddLaws(When(x[i], a), When(x[i], b), Product(x, Step(a), i + 1), Product(x, Step(b), i + 1));
    }
  }

  lemma {:induction false} ProductLinearLeft(x: Bits, y: Bits, v: Bits, i: nat)
    requires i <= 128
    ensures Product(Add(x, y), v, i) == Add(Product(x, v, i), Product(y, v, i))
    decreases 128 - i
  {
    if i == 128 {
      AddNone(Nil());
    } else {
      assert Add(x, y)[i] == (x[i] != y[i]);
      hide Add, Step, When;
      WhenLinear(x[i], y[i], v, v);
      ProductLinearLeft(x, y, Step(v), i + 1);
      AddLaws(When(x[i], v), When(y[i], v), Product(x, Step(v), i + 1), Product(y, Step(v), i + 1));
    }
  }

  lemma {:induction false} ProductStep(x: Bits, v: Bits, i: nat)
    requires i <= 128
    ensures Product(x, Step(v), i) == Step(Product(x, v, i))
    decreases 128 - i
  {
    hide Add, Step, When;
    if i == 128 {
      StepLinear(Nil(), Nil());
    } else {
      WhenLinear(x[i], x[i], v, v);
      ProductStep(x, Step(v), i + 1);
      StepLinear(When(x[i], v), Product(x, Step(v), i + 1));
    }
  }

  lemma {:induction false} ProductNone(x: Bits, i: nat)
    requires i <= 128
    ensures Product(x, Nil(), i) == Nil()
    decreases 128 - i
  {
    hide Add, Step;
    if i < 128 {
      StepLinear(Nil(), Nil());
      ProductNone(x, i + 1);
      AddNone(Nil());
    }
  }

  // ----- unit, commutativity, associativity

  /** x without its first i bits. */
  function From(x: Bits, i: nat): Bits { seq(128, j requires 0 <= j < 128 => j >= i && x[j]) }

  /** The bits from i on moved to the front. */
  function Left(x: Bits, i: nat): Bits
    requires i <= 128
  {
    x[i..] + seq(i, j => false)
  }

  lemma SingleStep(i: nat)
    requires i < 127
    ensures Step(Single(i)) == Single(i + 1)
  {}

  lemma FromSplits(x: Bits, i: nat)
    requires i < 128
    ensures From(x, i) == Add(When(x[i], Single(i)), From(x, i + 1))
  {}

  lemma FromEnds(x: Bits)
    ensures From(x, 0) == x && From(x, 128) == Nil()
  {}

  lemma LastBit(x: Bits, v: Bits)
    ensures Product(x, v, 127) == When(x[127], v)
  {
    hide Add, Step;
    AddNone(When(x[127], v));
    assert Product(x, Step(v), 128) == Nil();
  }

  lemma {:induction false} BitsSum(x: Bits, i: nat)
    requires i < 128
    ensures Product(x, Single(i), i) == From(x, i)
    decreases 128 - i
  {
    hide Add, Step, When, From, Single;
    FromSplits(x, i);
    if i == 127 {
      LastBit(x, Single(127));
      FromEnds(x);
      AddNone(When(x[127], Single(127)));
    } else {
      SingleStep(i);
      BitsSum(x, i + 1);
    }
  }

  lemma TimesSingle(x: Bits)
    ensures GcmMul(x, Single(0)) == x
  {
    hide Product, From;
    BitsSum(x, 0);
    FromEnds(x);
  }

  lemma LeftSplits(x: Bits, i: nat)
    requires i < 128
    ensures Left(x, i) == Add(When(x[i], Single(0)), Step(Left(x, i + 1)))
  {
    assert !Left(x, i + 1)[127];
  }

  lemma LeftEnds(x: Bits)
    ensures Left(x, 0) == x && Left(x, 128) == Nil()
  {}

  lemma {:induction false} ProductCommutes(x: Bits, v: Bits, i: nat)
    requires i <= 128
    ensures Product(x, v, i) == GcmMul(v, Left(x, i))
    decreases 128 - i
  {
    hide Add, Step, When, Left, Single;
    if i == 128 {
      LeftEnds(x);
      ProductNone(v, 0);
    } else {
      ProductStep(x, v, i + 1);
      ProductCommutes(x, v, i + 1);
      ProductStep(v, Left(x, i + 1), 0);
      LeftSplits(x, i);
      ProductLinearRight(v, When(x[i], Single(0)), Step(Left(x, i + 1)), 0);
      TimesWhen(v, x[i]);
    }
  }

  lemma TimesWhen(v: Bits, c: bool)
    ensures GcmMul(v, When(c, Single(0))) == When(c, v)
  {
    hide Product, Single;
    TimesSingle(v);
    ProductNone(v, 0);
  }

  lemma GcmMulCommutes(x: Bits, y: Bits)
    ensures GcmMul(x, y) == GcmMul(y, x)
  {
    hide Product, Left;
    ProductCommutes(x, y, 0);
    LeftEnds(x);
  }

  lemma GcmMulLinear(a: Bits, b: Bits, c: Bits)
    ensures GcmMul(a, Add(b, c)) == Add(GcmMul(a, b), GcmMul(a, c))
    ensures GcmMul(Add(b, c), a) == Add(GcmMul(b, a), GcmMul(c, a))
    ensures GcmMul(a, Nil()) == Nil()
  {
    hide Product, Add;
    ProductLinearRight(a, b, c, 0);
    ProductLinearLeft(b, c, a, 0);
    ProductNone(a, 0);
  }

  lemma {:induction false} ProductAssociates(c: Bits, a: Bits, b: Bits, i: nat)
    requires i <= 128
    ensures Product(c, GcmMul(a, b), i) == GcmMul(a, Product(c, b, i))
    decreases 128 - i
  {
    hide Add, Step, GcmMul;
    GcmMulLinear(a, b, b);
    if i < 128 {
      ProductStepAt(a, b);
      ProductAssociates(c, a, Step(b), i + 1);
      GcmMulLinear(a, When(c[i], b), Product(c, Step(b), i + 1));
    }
  }

  lemma ProductStepAt(a: Bits, b: Bits)
    ensures GcmMul(a, Step(b)) == Step(GcmMul(a, b))
  {
    hide Product, Step;
    ProductStep(a, b, 0);
  }

  /** _gcm_mul is the multiplication of a commutative ring with unit Single(0). */
  lemma GcmMulAssociates(a: Bits, b: Bits, c: Bits)
    ensures GcmMul(GcmMul(a, b), c) == GcmMul(a, GcmMul(b, c))
  {
    hide Product;
    ProductAssociates(c, a, b, 0);
    hide GcmMul;
    assert GcmMul(c, GcmMul(a, b)) == GcmMul(a, GcmMul(c, b)) by {
      MulIsProduct(c, GcmMul(a, b));
      MulIsProduct(c, b);
    }
    GcmMulCommutes(c, GcmMul(a, b));
    GcmMulCommutes(c, b);
  }

  lemma MulIsProduct(x: Bits, y: Bits)
    ensures GcmMul(x, y) == Product(x, y, 0)
  {}

  // ----- bytes

  predicate AtMostOneBit(m: bv8) { m & (m - 1) == 0 }

  predicate Has(v: bv8, m: bv8) { v & m != 0 }

  function Mask(j: nat): (m: bv8)
    requires j < 8
    ensures AtMostOneBit(m)
  {
    if j == 0 then 0x80 else if j == 1 then 0x40 else if j == 2 then 0x20 else if j == 3 then 0x10
    else if j == 4 then 0x08 else if j == 5 then 0x04 else if j == 6 then 0x02 else 0x01
  }

  function BitOf(b: Byte, j: nat): bool
    requires j < 8
  {
    Has(b.v, Mask(j))
  }

  function Weight(c: bool, v: bv8): bv8 { if c then v else 0 }

  /** The byte of eight bits. */
  function ByteOfBits(a: bool, b: bool, c: bool, d: bool, e: bool, f: bool, g: bool, h: bool): Byte
  {
    B(Merge(Weight(a, 0x80), Weight(b, 0x40), Weight(c, 0x20), Weight(d, 0x10),
            Weight(e, 0x08), Weight(f, 0x04), Weight(g, 0x02), Weight(h, 0x01)))
  }

  function Merge(a: bv8, b: bv8, c: bv8, d: bv8, e: bv8, f: bv8, g: bv8, h: bv8): bv8
  {
    a | b | c | d | e | f | g | h
  }

  /** int.from_bytes of a block. */
  function ToBits(block: State): Bits { seq(128, i requires 0 <= i < 128 => BitOf(block[i / 8], i % 8)) }

  /** to_bytes(16) of a 128-bit integer. */
  function ToBlock(x: Bits): State
  {
    seq(16, i requires 0 <= i < 16 =>
      ByteOfBits(x[8 * i], x[8 * i + 1], x[8 * i + 2], x[8 * i + 3], x[8 * i + 4], x[8 * i + 5], x[8 * i + 6], x[8 * i + 7]))
  }

  lemma ByteBack(b: Byte)
    ensures ByteOfBits(BitOf(b, 0), BitOf(b, 1), BitOf(b, 2), BitOf(b, 3), BitOf(b, 4), BitOf(b, 5), BitOf(b, 6), BitOf(b, 7)) == b
  {
    hide Has, AtMostOneBit, Weight, Merge;
    WeightIs(b.v, Mask(0));
    WeightIs(b.v, Mask(1));
    WeightIs(b.v, Mask(2));
    WeightIs(b.v, Mask(3));
    WeightIs(b.v, Mask(4));
    WeightIs(b.v, Mask(5));
    WeightIs(b.v, Mask(6));
    WeightIs(b.v, Mask(7));
    AllMasks(b.v);
  }

  lemma WeightIs(v: bv8, m: bv8)
    requires AtMostOneBit(m)
    ensures Weight(Has(v, m), m) == v & m
  {
    WholeBit(v, m);
  }

  lemma AllMasks(v: bv8)
    ensures Merge(v & 0x80, v & 0x40, v & 0x20, v & 0x10, v & 0x08, v & 0x04, v & 0x02, v & 0x01) == v
  {}

  lemma BitAt(block: State, i: nat, k: nat)
    requires i < 16 && k < 8
    ensures ToBits(block)[8 * i + k] == BitOf(block[i], k)
  {
    assert (8 * i + k) / 8 == i && (8 * i + k) % 8 == k;
  }

  lemma BlockBack(block: State)
    ensures ToBlock(ToBits(block)) == block
  {
    hide BitOf, ByteOfBits, ToBits;
    forall i | 0 <= i < 16 ensures ToBlock(ToBits(block))[i] == block[i] {
      ByteBack(block[i]);
      BitAt(block, i, 0);
      BitAt(block, i, 1);
      BitAt(block, i, 2);
      BitAt(block, i, 3);
      BitAt(block, i, 4);
      BitAt(block, i, 5);
      BitAt(block, i, 6);
      BitAt(block, i, 7);
    }
  }

  lemma MaskOfSum(a: bv8, b: bv8, m: bv8)
    requires AtMostOneBit(m)
    ensures Has(a ^ b, m) <==> (Has(a, m) != Has(b, m))
  {
    WholeBit(a, m);
    WholeBit(b, m);
    assert (a ^ b) & m == (a & m) ^ (b & m);
  }

  lemma BitOfSum(a: Byte, b: Byte, j: nat)
    requires j < 8
    ensures BitOf(Plus(a, b), j) == (BitOf(a, j) != BitOf(b, j))
  {
    hide Mask, Has, AtMostOneBit;
    MaskOfSum(a.v, b.v, Mask(j));
  }

  lemma BitsOfSum(a: State, b: State)
    ensures ToBits(Xor(a, b)) == Add(ToBits(a), ToBits(b))
  {
    hide BitOf, Plus;
    forall i | 0 <= i < 128 ensures ToBits(Xor(a, b))[i] == Add(ToBits(a), ToBits(b))[i] {
      BitOfSum(a[i / 8], b[i / 8], i % 8);
    }
  }

  // ----- GHASH

  function Zeros(n: nat): (r: Bytes)
    ensures |r| == n
  {
    seq(n, i => Zero)
  }

  /** int.from_bytes of a piece of at most 16 bytes: zeros on the left. */
  function PieceBits(piece: Bytes): Bits
    requires |piece| <= 16
  {
    ToBits(Zeros(16 - |piece|) + piece)
  }

  /** The loop of _ghash from accumulator y on. */
  function GhashFrom(h: Bits, y: Bits, data: Bytes): Bits
    decreases |data|
  {
    if data == [] then y
    else
      var n := if |data| < 16 then |data| else 16;
      GhashFrom(h, GcmMul(Add(y, PieceBits(data[..n])), h), data[n..])
  }

  /** _ghash. */
  method HashBlocks(h: Bits, data: Bytes) returns (y: Bits)
    ensures y == GhashFrom(h, Nil(), data)
  {
    hide GcmMul, Add, PieceBits;
    y := Nil();
    var i := 0;
    assert data[0..] == data;
    while i < |data|
      invariant 0 <= i <= |data| && GhashFrom(h, y, data[i..]) == GhashFrom(h, Nil(), data)
    {
      var n := if |data| - i < 16 then |data| - i else 16;
      assert data[i..][..n] == data[i..i + n] && data[i..][n..] == data[i + n..];
      y := Multiply128(Add(y, PieceBits(data[i..i + n])), h);
      i := i + n;
    }
  }

  /** The n-th power of the hash key. */
  function HashPow(h: Bits, n: nat): Bits
    decreases n, h
  {
    if n == 0 then Single(0) else GcmMul(h, HashPow(h, n - 1))
  }

  /** Section 6.4 of SP 800-38D: the blocks times falling powers of the key, added up. */
  function GhashSum(h: Bits, data: Bytes): Bits
    requires |data| % 16 == 0
    decreases |data|
  {
    if data == [] then Nil()
    else Add(GcmMul(ToBits(data[..16]), HashPow(h, |data| / 16)), GhashSum(h, data[16..]))
  }

  /** The loop evaluates that polynomial. */
  lemma {:induction false} GhashIsSum(h: Bits, y: Bits, data: Bytes)
    requires |data| % 16 == 0
    ensures GhashFrom(h, y, data) == Add(GcmMul(y, HashPow(h, |data| / 16)), GhashSum(h, data))
    decreases |data|
  {
    hide GcmMul, Add, ToBits, Single;
    if data == [] {
      TimesSingle(y);
      AddNone(y);
    } else {
      var x, rest, m := ToBits(data[..16]), data[16..], |data| / 16;
      assert Zeros(0) + data[..16] == data[..16];
      assert |rest| / 16 == m - 1;
      GhashIsSum(h, GcmMul(Add(y, x), h), rest);
      GcmMulAssociates(Add(y, x), h, HashPow(h, m - 1));
      GcmMulLinear(HashPow(h, m), y, x);
      AddLaws(GcmMul(y, HashPow(h, m)), GcmMul(x, HashPow(h, m)), GhashSum(h, rest), Nil());
    }
  }

  /** GHASH of a sum of messages of one length is the sum of the hashes. */
  lemma {:induction false} GhashLinear(h: Bits, y: Bits, z: Bits, a: Bytes, b: Bytes)
    requires |a| == |b|
    ensures GhashFrom(h, Add(y, z), Xor(a, b)) == Add(GhashFrom(h, y, a), GhashFrom(h, z, b))
    decreases |a|
  {
    hide GcmMul, Add, PieceBits, Plus;
    if a != [] {
      var n := if |a| < 16 then |a| else 16;
      var p, q := a[..n], b[..n];
      assert Xor(a, b)[..n] == Xor(p, q) && Xor(a, b)[n..] == Xor(a[n..], b[n..]);
      PieceLinear(p, q);
      AddLaws(y, z, PieceBits(p), PieceBits(q));
      GcmMulLinear(h, Add(y, PieceBits(p)), Add(z, PieceBits(q)));
      GhashLinear(h, GcmMul(Add(y, PieceBits(p)), h), GcmMul(Add(z, PieceBits(q)), h), a[n..], b[n..]);
    }
  }

  lemma PieceLinear(p: Bytes, q: Bytes)
    requires |p| == |q| <= 16
    ensures PieceBits(Xor(p, q)) == Add(PieceBits(p), PieceBits(q))
  {
    hide ToBits, Add, Plus;
    var z := Zeros(16 - |p|);
    PlusZero(Zero);
    BitsOfSum(z + p, z + q);
    assert Xor(z + p, z + q) == z + Xor(p, q);
  }
}
