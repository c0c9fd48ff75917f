/** The field GF(2^8) of AES as _gf_mul and _gf_pow compute it, and the S-box built from
    it: multiplication is a field multiplication, x^254 inverts, the S-box is a bijection. */
module AesField {

  datatype Byte = B(v: bv8)

  const Zero: Byte := B(0)
  const Unit: Byte := B(1)

  function Plus(a: Byte, b: Byte): Byte { B(a.v ^ b.v) }

  /** One doubling step of _gf_mul. */
  function Double(a: Byte): Byte { B((a.v << 1) ^ (if a.v & 0x80 != 0 then 0x1B else 0)) }

  function Half(a: Byte): Byte { B(a.v >> 1) }

  /** a when the low bit of b is set. */
  function Pick(b: Byte, a: Byte): Byte { if b.v & 1 != 0 then a else Zero }

  /** The last n iterations of _gf_mul. */
  function Mul(a: Byte, b: Byte, n: nat): Byte
    decreases n
  {
    if n == 0 then Zero else Plus(Pick(b, a), Mul(Double(a), Half(b), n - 1))
  }

  function GfMul(a: Byte, b: Byte): Byte { Mul(a, b, 8) }

  // ----- addition

  lemma XorLaws(a: bv8, b: bv8, c: bv8)
    ensures a ^ b == b ^ a && (a ^ b) ^ c == a ^ (b ^ c)
  {}

  lemma PlusAssociates(a: Byte, b: Byte, c: Byte)
    ensures Plus(Plus(a, b), c) == Plus(a, Plus(b, c)) && Plus(a, b) == Plus(b, a)
  {
    XorLaws(a.v, b.v, c.v);
  }

  lemma PlusLaws(a: Byte, b: Byte, c: Byte, d: Byte)
    ensures Plus(a, b) == Plus(b, a) && Plus(Plus(a, b), c) == Plus(a, Plus(b, c))
    ensures Plus(Plus(a, b), Plus(c, d)) == Plus(Plus(a, c), Plus(b, d))
  {
    hide Plus;
    PlusAssociates(a, b, Plus(c, d));
    PlusAssociates(a, b, c);
    PlusAssociates(b, c, d);
    PlusAssociates(c, b, d);
    PlusAssociates(a, c, Plus(b, d));
  }

  lemma PlusZero(a: Byte)
    ensures Plus(a, Zero) == a == Plus(Zero, a) && Plus(a, a) == Zero
  {}

  lemma DoubleLinear(a: Byte, b: Byte)
    ensures Double(Plus(a, b)) == Plus(Double(a), Double(b)) && Double(Zero) == Zero
  {}

  lemma HalfLinear(a: Byte, b: Byte)
    ensures Half(Plus(a, b)) == Plus(Half(a), Half(b)) && Half(Zero) == Zero
  {}

  lemma PickLinear(b: Byte, c: Byte, a: Byte, d: Byte)
    ensures Pick(Plus(b, c), a) == Plus(Pick(b, a), Pick(c, a))
    ensures Pick(b, Plus(a, d)) == Plus(Pick(b, a), Pick(b, d))
    ensures Double(Pick(b, a)) == Pick(b, Double(a))
    ensures Pick(Zero, a) == Zero && Pick(b, Zero) == Zero
  {}

  /** The loop of _gf_mul. */
  method Multiply(a0: Byte, b0: Byte) returns (p: Byte)
    ensures p == GfMul(a0, b0)
  {
    hide Plus, Double, Half;
    var a, b := a0, b0;
    p := Zero;
    var k := 0;
    PlusZero(Mul(a, b, 8));
    while k < 8
      invariant 0 <= k <= 8 && Plus(p, Mul(a, b, 8 - k)) == GfMul(a0, b0)
    {
      PlusLaws(p, Pick(b, a), Mul(Double(a), Half(b), 7 - k), Zero);
      PlusZero(p);
      if b.v & 1 != 0 {
        p := Plus(p, a);
      }
      a := Double(a);
      b := Half(b);
      k := k + 1;
    }
    PlusZero(p);
  }

  // ----- linearity

  lemma {:induction false} MulLinearLeft(a: Byte, d: Byte, b: Byte, n: nat)
    ensures Mul(Plus(a, d), b, n) == Plus(Mul(a, b, n), Mul(d, b, n))
    decreases n
  {
    hide Plus, Double, Half, Pick;
    if n == 0 {
      PlusZero(Zero);
    } else {
      DoubleLinear(a, d);
      PickLinear(b, b, a, d);
      MulLinearLeft(Double(a), Double(d), Half(b), n - 1);
      PlusLaws(Pick(b, a), Pick(b, d), Mul(Double(a), Half(b), n - 1), Mul(Double(d), Half(b), n - 1));
    }
  }

  lemma {:induction false} MulLinearRight(a: Byte, b: Byte, c: Byte, n: nat)
    ensures Mul(a, Plus(b, c), n) == Plus(Mul(a, b, n), Mul(a, c, n))
    decreases n
  {
    hide Plus, Double, Half, Pick;
    if n == 0 {
      PlusZero(Zero);
    } else {
      PickLinear(b, c, a, a);
      HalfLinear(b, c);
      MulLinearRight(Double(a), Half(b), Half(c), n - 1);
      PlusLaws(Pick(b, a), Pick(c, a), Mul(Double(a), Half(b), n - 1), Mul(Double(a), Half(c), n - 1));
    }
  }

  /** Doubling the first factor doubles the product. */
  lemma {:induction false} MulDouble(a: Byte, b: Byte, n: nat)
    ensures Mul(Double(a), b, n) == Double(Mul(a, b, n))
    decreases n
  {
    hide Plus, Double, Half, Pick;
    if n == 0 {
      DoubleLinear(Zero, Zero);
    } else {
      PickLinear(b, b, a, a);
      MulDouble(Double(a), Half(b), n - 1);
      DoubleLinear(Pick(b, a), Mul(Double(a), Half(b), n - 1));
    }
  }

  // ----- commutativity and associativity

  lemma {:induction false} MulZero(a: Byte, n: nat)
    ensures Mul(a, Zero, n) == Zero && Mul(Zero, a, n) == Zero
    decreases n
  {
    hide Plus, Double, Half, Pick;
    if n > 0 {
      MulZero(Double(a), n - 1);
      MulZero(Half(a), n - 1);
      DoubleLinear(Zero, Zero);
      HalfLinear(Zero, Zero);
      PickLinear(a, a, a, a);
      PlusZero(Zero);
    }
  }

  /** A byte is its low bit and twice the rest. */
  lemma SplitBit(b: Byte)
    ensures b == Plus(Pick(b, Unit), Double(Half(b)))
  {}

  /** b fits n bits. */
  predicate Below(b: Byte, n: nat)
    decreases n
  {
    if n == 0 then b == Zero else Below(Half(b), n - 1)
  }

  lemma AllBelow(b: Byte)
    ensures Below(b, 8)
  {}

  /** One times b, over the bits of b. */
  lemma {:induction false} MulUnit(b: Byte, n: nat)
    requires Below(b, n)
    ensures Mul(Unit, b, n) == b
    decreases n
  {
    hide Plus, Double, Half, Pick;
    if n > 0 {
      MulUnit(Half(b), n - 1);
      MulDouble(Unit, Half(b), n - 1);
      SplitBit(b);
    }
  }

  lemma {:induction false} MulCommutes(a: Byte, b: Byte, n: nat)
    requires Below(b, n)
    ensures Mul(a, b, n) == GfMul(b, a)
    decreases n
  {
    hide Plus, Double, Half, Pick;
    if n == 0 {
      MulZero(a, 8);
    } else {
      MulCommutes(a, Half(b), n - 1);
      MulDouble(a, Half(b), n - 1);
      SplitBit(b);
      MulLinearLeft(Pick(b, Unit), Double(Half(b)), a, 8);
      MulDouble(Half(b), a, 8);
      PickTimes(b, a);
    }
  }

  lemma PickTimes(b: Byte, a: Byte)
    ensures GfMul(Pick(b, Unit), a) == Pick(b, a)
  {
    hide Mul;
    AllBelow(a);
    MulUnit(a, 8);
    MulZero(a, 8);
  }

  lemma Commutes(a: Byte, b: Byte)
    ensures GfMul(a, b) == GfMul(b, a)
  {
    hide Below;
    AllBelow(b);
    MulCommutes(a, b, 8);
  }

  lemma TimesUnit(a: Byte)
    ensures GfMul(Unit, a) == a == GfMul(a, Unit)
  {
    hide Mul, Below;
    AllBelow(a);
    MulUnit(a, 8);
    Commutes(a, Unit);
  }

  lemma TimesZero(a: Byte)
    ensures GfMul(a, Zero) == Zero == GfMul(Zero, a)
  {
    hide Mul;
    MulZero(a, 8);
  }

  lemma LinearRight(a: Byte, b: Byte, c: Byte)
    ensures GfMul(a, Plus(b, c)) == Plus(GfMul(a, b), GfMul(a, c))
  {
    hide Mul, Plus;
    MulLinearRight(a, b, c, 8);
  }

  lemma LinearLeft(a: Byte, b: Byte, c: Byte)
    ensures GfMul(Plus(a, b), c) == Plus(GfMul(a, c), GfMul(b, c))
  {
    hide Mul, Plus;
    MulLinearLeft(a, b, c, 8);
  }

  lemma DoubleRight(a: Byte, b: Byte)
    ensures GfMul(a, Double(b)) == Double(GfMul(a, b))
  {
    hide Mul, Double;
    Commutes(a, Double(b));
    MulDouble(b, a, 8);
    Commutes(a, b);
  }

  lemma PickFactor(a: Byte, b: Byte, c: Byte)
    ensures GfMul(a, Pick(c, b)) == Pick(c, GfMul(a, b))
  {
    hide GfMul;
    TimesZero(a);
  }

  lemma {:induction false} MulAssociates(a: Byte, b: Byte, c: Byte, n: nat)
    ensures Mul(GfMul(a, b), c, n) == GfMul(a, Mul(b, c, n))
    decreases n
  {
    hide Plus, Double, Half, Pick, GfMul;
    if n == 0 {
      TimesZero(a);
    } else {
      DoubleRight(a, b);
      MulAssociates(a, Double(b), Half(c), n - 1);
      LinearRight(a, Pick(c, b), Mul(Double(b), Half(c), n - 1));
      PickFactor(a, b, c);
    }
  }

  lemma Associates(a: Byte, b: Byte, c: Byte)
    ensures GfMul(GfMul(a, b), c) == GfMul(a, GfMul(b, c))
  {
    hide Mul;
    MulAssociates(a, b, c, 8);
  }

  /** A product of products may be regrouped. */
  lemma Regroup(a: Byte, b: Byte, c: Byte, d: Byte)
    ensures GfMul(GfMul(a, b), GfMul(c, d)) == GfMul(GfMul(a, c), GfMul(b, d))
  {
    hide GfMul;
    Associates(a, b, GfMul(c, d));
    Associates(b, c, d);
    Commutes(b, c);
    Associates(c, b, d);
    Associates(a, c, GfMul(b, d));
  }

  // ----- squaring

  function Square(a: Byte): Byte { GfMul(a, a) }

  /** Squaring is additive. */
  lemma SquareLinear(a: Byte, b: Byte)
    ensures Square(Plus(a, b)) == Plus(Square(a), Square(b))
  {
    hide GfMul, Plus;
    LinearLeft(a, b, Plus(a, b));
    LinearRight(a, a, b);
    LinearRight(b, a, b);
    Commutes(a, b);
    var ab := GfMul(a, b);
    PlusAssociates(Square(a), ab, Plus(ab, Square(b)));
    PlusAssociates(ab, ab, Square(b));
    PlusZero(ab);
    PlusZero(Square(b));
  }

  function If(b: bv8, k: bv8, v: bv8): bv8 { if b & k != 0 then v else 0 }

  function Term(b: bv8, k: bv8, v: bv8): Byte { B(If(b, k, v)) }

  /** The square written out by its values at the eight single bits. */
  function FlatSquare(b: bv8): Byte
  {
    Plus(Plus(Plus(Plus(Plus(Plus(Plus(Term(b, 0x01, 0x01), Term(b, 0x02, 0x04)), Term(b, 0x04, 0x10)),
                                       Term(b, 0x08, 0x40)), Term(b, 0x10, 0x1B)), Term(b, 0x20, 0x6C)),
              Term(b, 0x40, 0xAB)), Term(b, 0x80, 0x9A))
  }

  lemma BasisSquareOne()
    ensures Square(B(0x01)) == B(0x01)
  {
    hide GfMul;
    TimesUnit(Unit);
  }

  lemma BasisSquareTwo()
    ensures Square(B(0x02)) == B(0x04)
  {}

  lemma BasisSquareFour()
    ensures Square(B(0x04)) == B(0x10)
  {}

  lemma BasisSquareEight()
    ensures Square(B(0x08)) == B(0x40)
  {}

  lemma BasisSquaresHigh()
    ensures Square(B(0x10)) == B(0x1B) && Square(B(0x20)) == B(0x6C)
    ensures Square(B(0x40)) == B(0xAB) && Square(B(0x80)) == B(0x9A)
  {}

  function Masked(b: bv8, m: bv8): Byte { B(b & m) }

  /** Adding one bit to the square of the bits below it. */
  lemma NextBit(b: bv8, low: bv8, k: bv8, next: bv8, v: bv8)
    requires low & k == 0 && k & (k - 1) == 0 && next == low | k && Square(B(k)) == B(v)
    ensures Square(Masked(b, next)) == Plus(Square(Masked(b, low)), Term(b, k, v))
  {
    hide Square, Plus;
    SplitMask(b, low, k);
    SquareLinear(Masked(b, low), Masked(b, k));
    OneBit(b, k, v);
  }

  lemma OneBit(b: bv8, k: bv8, v: bv8)
    requires k & (k - 1) == 0 && Square(B(k)) == B(v)
    ensures Square(Masked(b, k)) == Term(b, k, v)
  {
    hide Square;
    SquareZero();
    WholeBit(b, k);
  }

  lemma SplitMask(b: bv8, low: bv8, k: bv8)
    requires low & k == 0
    ensures Masked(b, low | k) == Plus(Masked(b, low), Masked(b, k))
  {}

  lemma WholeBit(b: bv8, k: bv8)
    requires k & (k - 1) == 0
    ensures b & k == 0 || b & k == k
  {}

  /** The square of every byte. */
  lemma SquareIs(b: bv8)
    ensures Square(B(b)) == FlatSquare(b)
  {
    hide Square, Plus, Term, Masked;
    BasisSquareOne();
    BasisSquareTwo();
    BasisSquareFour();
    BasisSquareEight();
    BasisSquaresHigh();
    SquareZero();
    NextBit(b, 0x00, 0x01, 0x01, 0x01);
    NextBit(b, 0x01, 0x02, 0x03, 0x04);
    NextBit(b, 0x03, 0x04, 0x07, 0x10);
    NextBit(b, 0x07, 0x08, 0x0F, 0x40);
    NextBit(b, 0x0F, 0x10, 0x1F, 0x1B);
    NextBit(b, 0x1F, 0x20, 0x3F, 0x6C);
    NextBit(b, 0x3F, 0x40, 0x7F, 0xAB);
    NextBit(b, 0x7F, 0x80, 0xFF, 0x9A);
    FullMask(b);
    PlusZero(Term(b, 0x01, 0x01));
  }

  lemma FullMask(b: bv8)
    ensures Masked(b, 0) == Zero && Masked(b, 0xFF) == B(b)
  {}

  lemma SquareZero()
    ensures Square(Zero) == Zero
  {
    hide GfMul;
    TimesZero(Zero);
  }

  /** n squarings. */
  function Squares(a: Byte, n: nat): Byte
    decreases n, a
  {
    if n == 0 then a else Squares(Square(a), n - 1)
  }

  lemma {:induction false} SquaresLinear(a: Byte, b: Byte, n: nat)
    ensures Squares(Plus(a, b), n) == Plus(Squares(a, n), Squares(b, n))
    decreases n
  {
    hide Square, Plus;
    if n > 0 {
      SquareLinear(a, b);
      SquaresLinear(Square(a), Square(b), n - 1);
    }
  }

  lemma SquareOfProduct(a: Byte, b: Byte)
    ensures Square(GfMul(a, b)) == GfMul(Square(a), Square(b))
  {
    hide GfMul;
    Regroup(a, b, a, b);
  }

  lemma {:induction false} SquaresOfProduct(a: Byte, b: Byte, n: nat)
    ensures Squares(GfMul(a, b), n) == GfMul(Squares(a, n), Squares(b, n))
    decreases n
  {
    hide Square, GfMul;
    if n > 0 {
      SquareOfProduct(a, b);
      SquaresOfProduct(Square(a), Square(b), n - 1);
    }
  }

  lemma TimesTwo(a: Byte)
    ensures GfMul(B(2), a) == Double(a)
  {
    hide Mul;
    TimesUnit(a);
    MulDouble(Unit, a, 8);
  }

  /** Eight squarings fix the byte 2, which generates all others by doubling and adding. */
  lemma EightSquaresOfTwo()
    ensures Squares(B(2), 8) == B(2)
  {
    hide Square;
    SquareIs(0x02);
    SquareIs(0x04);
    SquareIs(0x10);
    SquareIs(0x1B);
    SquareIs(0x5E);
    SquareIs(0xE4);
    SquareIs(0x4D);
    SquareIs(0xFA);
    assert Squares(B(0x1B), 5) == B(2);
  }

  lemma {:induction false} SquaresOfUnit(n: nat)
    ensures Squares(Unit, n) == Unit && Squares(Zero, n) == Zero
    decreases n
  {
    hide Square;
    if n > 0 {
      BasisSquareOne();
      SquareZero();
      SquaresOfUnit(n - 1);
    }
  }

  /** Eight squarings are the identity, by induction over the bits. */
  lemma {:induction false} EightSquaresBits(b: Byte, n: nat)
    requires Below(b, n)
    ensures Squares(b, 8) == b
    decreases n
  {
    hide Square, Squares, GfMul, Plus, Double, Half;
    SquaresOfUnit(8);
    if n > 0 {
      EightSquaresBits(Half(b), n - 1);
      EightSquaresOfTwo();
      SquaresOfProduct(B(2), Half(b), 8);
      TimesTwo(Half(b));
      SplitBit(b);
      SquaresLinear(Pick(b, Unit), Double(Half(b)), 8);
    }
  }

  lemma FourSquares(b: Byte, n: nat)
    ensures Squares(b, n + 4) == Squares(Square(Square(Square(Square(b)))), n)
  {
    hide Square;
    assert Squares(b, n + 4) == Squares(Square(b), n + 3);
    assert Squares(Square(b), n + 3) == Squares(Square(Square(b)), n + 2);
  }

  lemma EightSquares(b: Byte)
    ensures Square(Square(Square(Square(Square(Square(Square(Square(b)))))))) == b
  {
    hide Square, Below;
    AllBelow(b);
    EightSquaresBits(b, 8);
    FourSquares(b, 4);
    FourSquares(Square(Square(Square(Square(b)))), 0);
  }

  /** Only zero and one are their own squares. */
  lemma FixedBySquare(a: Byte)
    requires Square(a) == a
    ensures a == Zero || a == Unit
  {
    hide Square;
    SquareIs(a.v);
    FlatFixed(a.v);
  }

  lemma FlatFixed(a: bv8)
    ensures FlatSquare(a) == B(a) ==> a == 0 || a == 1
  {}

  // ----- powers

  /** The n-fold product of a. */
  function Pow(a: Byte, n: nat): Byte
    decreases n, a
  {
    if n == 0 then Unit else GfMul(a, Pow(a, n - 1))
  }

  lemma {:induction false} PowOfSquare(a: Byte, n: nat)
    ensures Pow(Square(a), n) == Pow(a, 2 * n)
    decreases n
  {
    hide GfMul;
    if n > 0 {
      PowOfSquare(a, n - 1);
      Associates(a, a, Pow(a, 2 * n - 2));
      assert Pow(a, 2 * n) == GfMul(a, Pow(a, 2 * n - 1));
    }
  }

  /** _gf_pow. */
  method Power(a0: Byte, n0: nat) returns (result: Byte)
    ensures result == Pow(a0, n0)
  {
    hide Square, GfMul, Pow;
    var a, n := a0, n0;
    result := Unit;
    TimesUnit(Pow(a, n));
    while n > 0
      invariant GfMul(result, Pow(a, n)) == Pow(a0, n0)
    {
      PowStep(result, a, n);
      if n % 2 == 1 {
        result := GfMul(result, a);
      }
      a := Square(a);
      n := n / 2;
    }
    PowZero(a);
    TimesUnit(result);
  }

  lemma PowZero(a: Byte)
    ensures Pow(a, 0) == Unit
  {}

  lemma PowStep(result: Byte, a: Byte, n: nat)
    requires n > 0
    ensures GfMul(result, Pow(a, n)) == GfMul(if n % 2 == 1 then GfMul(result, a) else result, Pow(Square(a), n / 2))
  {
    hide Square, GfMul;
    PowOfSquare(a, n / 2);
    if n % 2 == 1 {
      Associates(result, a, Pow(a, n - 1));
    }
  }

  /** The power by squaring, unfolded once. */
  lemma PowHalf(a: Byte, n: nat)
    requires n > 0
    ensures Pow(a, n) == if n % 2 == 1 then GfMul(a, Pow(Square(a), n / 2)) else Pow(Square(a), n / 2)
  {
    hide Square, GfMul, Pow;
    PowStep(Unit, a, n);
    TimesUnit(Pow(a, n));
    TimesUnit(a);
    TimesUnit(Pow(Square(a), n / 2));
  }

  /** The reciprocal that _build_sbox takes. */
  function Reciprocal(x: Byte): Byte
  {
    if x == Zero then Zero else Pow(x, 254)
  }

  /** If b is the square of a r, then multiplying r by b and the whole by a squares b. */
  lemma Collapse(a: Byte, r: Byte, b: Byte)
    requires GfMul(a, r) == b
    ensures GfMul(a, GfMul(r, b)) == Square(b)
  {
    hide GfMul;
    Associates(a, r, b);
  }

  /** x times x^254 fixes x, so it is its own square, hence one. */
  lemma ReciprocalInverts(x: Byte)
    requires x != Zero
    ensures GfMul(x, Reciprocal(x)) == Unit
  {
    hide Square, GfMul;
    var x1 := Square(x);
    var x2 := Square(x1);
    var x3 := Square(x2);
    var x4 := Square(x3);
    var x5 := Square(x4);
    var x6 := Square(x5);
    var x7 := Square(x6);
    var p2 := GfMul(x1, x2);
    var p3 := GfMul(p2, x3);
    var p4 := GfMul(p3, x4);
    var p5 := GfMul(p4, x5);
    var p6 := GfMul(p5, x6);
    Power254(x);
    SquareOf(x1);
    Collapse(x1, x1, x2);
    Collapse(x1, p2, x3);
    Collapse(x1, p3, x4);
    Collapse(x1, p4, x5);
    Collapse(x1, p5, x6);
    Collapse(x1, p6, x7);
    EightSquares(x);
    NormIsOne(x, GfMul(p6, x7));
  }

  lemma SquareOf(a: Byte)
    ensures Square(a) == GfMul(a, a)
  {}

  lemma NormIsOne(x: Byte, r: Byte)
    requires x != Zero && GfMul(Square(x), r) == x
    ensures GfMul(x, r) == Unit
  {
    hide GfMul;
    var norm := GfMul(x, r);
    Associates(x, x, r);
    Commutes(x, norm);
    Associates(norm, x, r);
    assert Square(norm) == norm;
    FixedBySquare(norm);
    TimesZero(x);
  }

  lemma Power254(x: Byte)
    requires x != Zero
    ensures var x1 := Square(x);
            var x2 := Square(x1);
            var x3 := Square(x2);
            var x4 := Square(x3);
            var x5 := Square(x4);
            var x6 := Square(x5);
            Reciprocal(x) == GfMul(GfMul(GfMul(GfMul(GfMul(GfMul(x1, x2), x3), x4), x5), x6), Square(x6))
  {
    hide Square, GfMul, Pow;
    var x1 := Square(x);
    var x2 := Square(x1);
    var x3 := Square(x2);
    var x4 := Square(x3);
    var x5 := Square(x4);
    var x6 := Square(x5);
    var x7 := Square(x6);
    PowHalf(x, 254);
    TimesUnit(Pow(x1, 127));
    PowStep(Unit, x1, 127);
    TimesUnit(x1);
    PowStep(x1, x2, 63);
    var p2 := GfMul(x1, x2);
    PowStep(p2, x3, 31);
    var p3 := GfMul(p2, x3);
    PowStep(p3, x4, 15);
    var p4 := GfMul(p3, x4);
    PowStep(p4, x5, 7);
    var p5 := GfMul(p4, x5);
    PowStep(p5, x6, 3);
    var p6 := GfMul(p5, x6);
    PowStep(p6, x7, 1);
    PowZero(Square(x7));
    TimesUnit(GfMul(p6, x7));
  }

  /** The reciprocal is the only byte whose product with x is one. */
  lemma ReciprocalUnique(x: Byte, y: Byte)
    requires GfMul(x, y) == Unit
    ensures y == Reciprocal(x)
  {
    hide GfMul, Pow, Reciprocal;
    if x == Zero {
      TimesZero(y);
    } else {
      var w := Reciprocal(x);
      ReciprocalInverts(x);
      Associates(w, x, y);
      Commutes(w, x);
      TimesUnit(w);
      TimesUnit(y);
    }
  }

  // ----- the S-box

  function Rotl(x: bv8, n: bv4): bv8
    requires 1 <= n <= 4
  {
    (x << n) | (x >> (8 - n))
  }

  /** The affine part of the S-box. */
  function Affine(i: bv8): bv8
  {
    i ^ Rotl(i, 1) ^ Rotl(i, 2) ^ Rotl(i, 3) ^ Rotl(i, 4) ^ 0x63
  }

  function SubByte(x: bv8): bv8 { Affine(Reciprocal(B(x)).v) }

  /** The inverse affine map: rotations by 1, 3 and 6. */
  function AffineBack(s: bv8): bv8
  {
    ((s << 1) | (s >> 7)) ^ ((s << 3) | (s >> 5)) ^ ((s << 6) | (s >> 2)) ^ 0x05
  }

  lemma AffineInverts(i: bv8)
    ensures AffineBack(Affine(i)) == i && Affine(AffineBack(i)) == i
  {}

  lemma ReciprocalNonZero(x: Byte)
    ensures Reciprocal(x) == Zero <==> x == Zero
  {
    hide GfMul, Pow;
    if x != Zero {
      ReciprocalInverts(x);
      TimesZero(x);
    }
  }

  /** The reciprocal is its own inverse. */
  lemma ReciprocalTwice(x: Byte)
    ensures Reciprocal(Reciprocal(x)) == x
  {
    hide GfMul, Pow;
    ReciprocalNonZero(x);
    if x != Zero {
      var w := Reciprocal(x);
      ReciprocalInverts(x);
      ReciprocalInverts(w);
      Associates(x, w, Reciprocal(w));
      TimesUnit(x);
      TimesUnit(Reciprocal(w));
    }
  }

  /** The byte that the S-box sends to s. */
  function InvSubByte(s: bv8): bv8 { Reciprocal(B(AffineBack(s))).v }

  /** The S-box is a bijection: this is its inverse on both sides. */
  lemma SubByteBijective(x: bv8)
    ensures InvSubByte(SubByte(x)) == x && SubByte(InvSubByte(x)) == x
  {
    hide Reciprocal, Affine, AffineBack;
    AffineInverts(Reciprocal(B(x)).v);
    AffineInverts(x);
    ReciprocalTwice(B(x));
    ReciprocalTwice(B(AffineBack(x)));
  }
}
