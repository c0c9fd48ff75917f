/** The AES block cipher: key expansion, the rounds and their inverses on the 16-byte
    state, and the proof that encrypt_block and decrypt_block are inverse to each other. */
module Aes {
  import opened Options
  import opened AesField
  import ModArith

  type State = s: seq<Byte> | |s| == 16 witness seq(16, i => Zero)
  type Word = w: seq<Byte> | |w| == 4 witness seq(4, i => Zero)

  // ----- the S-box tables

  datatype Tables = Tables(sbox: seq<bv8>, inv: seq<bv8>) {
    /** The tables hold the S-box and its inverse. */
    ghost predicate Valid()
    {
      && |sbox| == 256 && |inv| == 256
      && forall x: bv8 :: sbox[x as int] == SubByte(x) && inv[SubByte(x) as int] == x
    }

    function Sub(b: Byte): Byte
      requires |sbox| == 256
    {
      B(sbox[b.v as int])
    }

    function InvSub(b: Byte): Byte
      requires |inv| == 256
    {
      B(inv[b.v as int])
    }
  }

  lemma NextByte(b: bv8)
    requires b != 255
    ensures (b + 1) as int == (b as int) + 1
  {}

  lemma {:induction false} ByteOf(x: nat) returns (b: bv8)
    requires x < 256
    ensures b as int == x
    decreases x
  {
    if x == 0 {
      b := 0;
    } else {
      b := ByteOf(x - 1);
      NextByte(b);
      b := b + 1;
    }
  }

  lemma ByteRoundTrip(x: nat)
    requires x < 256
    ensures (x as bv8) as int == x
  {
    var b := ByteOf(x);
    SameByte(b);
  }

  lemma SameByte(b: bv8)
    ensures ((b as int) as bv8) == b
  {}

  ghost predicate Filled(sbox: seq<bv8>, inv: seq<bv8>, x: nat)
  {
    && |sbox| == 256 && |inv| == 256 && x <= 256
    && forall y: bv8 :: (y as int) < x ==> sbox[y as int] == SubByte(y) && inv[SubByte(y) as int] == y
  }

  lemma FillStep(sbox: seq<bv8>, inv: seq<bv8>, x: nat)
    requires x < 256 && Filled(sbox, inv, x)
    ensures Filled(sbox[x := SubByte(x as bv8)], inv[SubByte(x as bv8) as int := x as bv8], x + 1)
  {
    hide SubByte;
    forall y: bv8 | (y as int) < x + 1
      ensures sbox[x := SubByte(x as bv8)][y as int] == SubByte(y)
           && inv[SubByte(x as bv8) as int := x as bv8][SubByte(y) as int] == y
    {
      FillEntry(sbox, inv, x, y);
    }
  }

  lemma FillEntry(sbox: seq<bv8>, inv: seq<bv8>, x: nat, y: bv8)
    requires x < 256 && Filled(sbox, inv, x) && (y as int) < x + 1
    ensures sbox[x := SubByte(x as bv8)][y as int] == SubByte(y)
    ensures inv[SubByte(x as bv8) as int := x as bv8][SubByte(y) as int] == y
  {
    hide SubByte, InvSubByte;
    ByteRoundTrip(x);
    if y as int == x {
      ByteInjective(y, x as bv8);
    } else if SubByte(y) as int == SubByte(x as bv8) as int {
      ByteInjective(SubByte(y), SubByte(x as bv8));
      SubByteBijective(y);
      SubByteBijective(x as bv8);
    }
  }

  lemma ByteInjective(a: bv8, b: bv8)
    requires a as int == b as int
    ensures a == b
  {
    assert (a as int) as bv8 == a && (b as int) as bv8 == b;
  }

  /** The reciprocal and the affine map of one entry of _build_sbox. */
  method SboxEntry(x: bv8) returns (s: bv8)
    ensures s == SubByte(x)
  {
    hide Pow, Affine;
    var inverse := Zero;
    if x != 0 {
      inverse := Power(B(x), 254);
    }
    s := Affine(inverse.v);
  }

  /** _build_sbox. */
  method BuildSbox() returns (t: Tables)
    ensures t.Valid()
  {
    hide SubByte;
    var sbox := seq(256, i => 0 as bv8);
    var inv := seq(256, i => 0 as bv8);
    var x := 0;
    while x < 256
      invariant 0 <= x <= 256 && Filled(sbox, inv, x)
    {
      FillStep(sbox, inv, x);
      var s := SboxEntry(x as bv8);
      sbox := sbox[x := s];
      inv := inv[s as int := x as bv8];
      x := x + 1;
    }
    t := Tables(sbox, inv);
  }

  // ----- key expansion

  function AddWords(a: Word, b: Word): Word
  {
    seq(4, i requires 0 <= i < 4 => Plus(a[i], b[i]))
  }

  function SubWord(t: Tables, w: Word): Word
    requires |t.sbox| == 256
  {
    seq(4, i requires 0 <= i < 4 => t.Sub(w[i]))
  }

  function RotWord(w: Word): Word { w[1..] + w[..1] }

  /** The word that the next round word adds to the one nk words back. */
  function NextTemp(t: Tables, words: seq<Word>, rcon: Byte, nk: nat): Word
    requires |t.sbox| == 256 && nk >= 1 && nk <= |words|
  {
    var i, temp := |words|, words[|words| - 1];
    if i % nk == 0 then var s := SubWord(t, RotWord(temp)); s[0 := Plus(s[0], rcon)]
    else if nk > 6 && i % nk == 4 then SubWord(t, temp)
    else temp
  }

  /** The words from number |words| on, up to total of them. */
  function Expand(t: Tables, words: seq<Word>, rcon: Byte, nk: nat, total: nat): (r: seq<Word>)
    requires |t.sbox| == 256 && nk >= 1 && nk <= |words| <= total
    ensures |r| == total && words <= r
    decreases total - |words|
  {
    var i := |words|;
    if i == total then words
    else
      Expand(t, words + [AddWords(words[i - nk], NextTemp(t, words, rcon, nk))],
             if i % nk == 0 then GfMul(rcon, B(2)) else rcon, nk, total)
  }

  function KeyWords(key: seq<Byte>, n: nat): (r: seq<Word>)
    requires 4 * n <= |key|
    ensures |r| == n
  {
    seq(n, i requires 0 <= i < n => key[4 * i..4 * i + 4])
  }

  /** The round constant of word i: a power of 2. */
  function Rcon(i: nat, nk: nat): Byte
    requires 1 <= nk <= i
  {
    Pow(B(2), i / nk - 1)
  }

  /** What is added to the word nk back to give word i, from the word before it. */
  function Added(t: Tables, prev: Word, i: nat, nk: nat): Word
    requires |t.sbox| == 256 && 1 <= nk <= i
  {
    if i % nk == 0 then var s := SubWord(t, RotWord(prev)); s[0 := Plus(s[0], Rcon(i, nk))]
    else if nk > 6 && i % nk == 4 then SubWord(t, prev)
    else prev
  }

  /** The recurrence of the key schedule, word by word. */
  ghost predicate Recurrence(t: Tables, words: seq<Word>, nk: nat)
    requires |t.sbox| == 256 && nk >= 1
  {
    forall i :: nk <= i < |words| ==> words[i] == AddWords(words[i - nk], Added(t, words[i - 1], i, nk))
  }

  /** The running round constant is a power of 2. */
  lemma RconStep(i: nat, nk: nat)
    requires 2 <= nk <= i
    ensures if i % nk == 0 then i / nk == (i - 1) / nk + 1 else i / nk == (i - 1) / nk
  {
    var q, r := i / nk, i % nk;
    if r == 0 {
      assert i - 1 == (q - 1) * nk + (nk - 1);
      ModArith.RemainderUnique(q - 1, nk - 1, nk);
    } else {
      assert i - 1 == q * nk + (r - 1);
      ModArith.RemainderUnique(q, r - 1, nk);
    }
  }

  /** The words of the loop satisfy the recurrence when the running constant is the power
      for the next multiple of nk. */
  lemma {:induction false} ExpandRecurrence(t: Tables, words: seq<Word>, rcon: Byte, nk: nat, total: nat)
    requires |t.sbox| == 256 && nk >= 2 && nk <= |words| <= total
    requires Recurrence(t, words, nk) && rcon == Pow(B(2), (|words| - 1) / nk)
    ensures Recurrence(t, Expand(t, words, rcon, nk, total), nk)
    decreases total - |words|
  {
    hide GfMul, AddWords, Added, NextTemp, Pow;
    var i := |words|;
    if i < total {
      RconNext(rcon, i, nk);
      TempIs(t, words, rcon, nk);
      var w := AddWords(words[i - nk], NextTemp(t, words, rcon, nk));
      ExpandRecurrence(t, words + [w], if i % nk == 0 then GfMul(rcon, B(2)) else rcon, nk, total);
    }
  }

  lemma RconNext(rcon: Byte, i: nat, nk: nat)
    requires 2 <= nk <= i && rcon == Pow(B(2), (i - 1) / nk)
    ensures i % nk == 0 ==> rcon == Rcon(i, nk)
    ensures (if i % nk == 0 then GfMul(rcon, B(2)) else rcon) == Pow(B(2), i / nk)
  {
    hide GfMul;
    RconStep(i, nk);
    Commutes(rcon, B(2));
  }

  lemma TempIs(t: Tables, words: seq<Word>, rcon: Byte, nk: nat)
    requires |t.sbox| == 256 && 1 <= nk <= |words| && (|words| % nk == 0 ==> rcon == Rcon(|words|, nk))
    ensures NextTemp(t, words, rcon, nk) == Added(t, words[|words| - 1], |words|, nk)
  {
    hide SubWord, RotWord, Rcon;
  }

  /** _expand_key: the round words and the number of rounds; None for other key sizes. */
  function ExpandKey(t: Tables, key: seq<Byte>): (r: Option<(seq<Word>, nat)>)
    requires |t.sbox| == 256
    ensures r.Some? <==> |key| in {16, 24, 32}
    ensures r.Some? ==> r.value.1 == |key| / 4 + 6 && |r.value.0| == 4 * (r.value.1 + 1)
  {
    if |key| != 16 && |key| != 24 && |key| != 32 then None
    else
      var nk := |key| / 4;
      Some((Expand(t, KeyWords(key, nk), Unit, nk, 4 * (nk + 7)), nk + 6))
  }

  /** _expand_key. */
  method KeyExpansion(t: Tables, key: seq<Byte>) returns (r: Option<(seq<Word>, nat)>)
    requires |t.sbox| == 256
    ensures r == ExpandKey(t, key)
    ensures r.Some? ==> Recurrence(t, r.value.0, |key| / 4) && KeyWords(key, |key| / 4) <= r.value.0
  {
    hide Expand;
    if |key| != 16 && |key| != 24 && |key| != 32 {
      return None;
    }
    var nk := |key| / 4;
    var nr := nk + 6;
    var words := ExpandLoop(t, KeyWords(key, nk), nk, 4 * (nr + 1));
    ScheduleOfKey(t, key);
    r := Some((words, nr));
  }

  /** The schedule begins with the key and satisfies the recurrence. */
  lemma ScheduleOfKey(t: Tables, key: seq<Byte>)
    requires |t.sbox| == 256 && ExpandKey(t, key).Some?
    ensures var words := ExpandKey(t, key).value.0;
            KeyWords(key, |key| / 4) <= words && Recurrence(t, words, |key| / 4)
  {
    hide Expand;
    var nk := |key| / 4;
    PowZero(B(2));
    ModArith.SmallQuotient(nk - 1, nk);
    ExpandRecurrence(t, KeyWords(key, nk), Unit, nk, 4 * (nk + 7));
  }

  /** The recurrence and the first words determine the schedule. */
  lemma {:induction false} RecurrenceUnique(t: Tables, words: seq<Word>, other: seq<Word>, nk: nat)
    requires |t.sbox| == 256 && nk >= 1 && |words| == |other| >= nk && words[..nk] == other[..nk]
    requires Recurrence(t, words, nk) && Recurrence(t, other, nk)
    ensures words == other
    decreases |words|
  {
    hide AddWords, Added;
    if |words| > nk {
      var n := |words| - 1;
      PrefixOfPrefix(words, nk, n);
      PrefixOfPrefix(other, nk, n);
      RecurrenceUnique(t, words[..n], other[..n], nk);
      assert words == words[..n] + [words[n]] && other == other[..n] + [other[n]];
      assert words[n - nk] == words[..n][n - nk] && words[n - 1] == words[..n][n - 1];
      assert other[n - nk] == other[..n][n - nk] && other[n - 1] == other[..n][n - 1];
    }
  }

  lemma PrefixOfPrefix(s: seq<Word>, m: nat, n: nat)
    requires m <= n <= |s|
    ensures s[..n][..m] == s[..m]
  {}

  /** The loop of _expand_key. */
  method ExpandLoop(t: Tables, first: seq<Word>, nk: nat, total: nat) returns (words: seq<Word>)
    requires |t.sbox| == 256 && nk >= 1 && nk == |first| <= total
    ensures words == Expand(t, first, Unit, nk, total)
  {
    hide NextTemp, AddWords, Expand, GfMul;
    words := first;
    var rcon := Unit;
    while |words| < total
      invariant nk <= |words| <= total && Expand(t, words, rcon, nk, total) == Expand(t, first, Unit, nk, total)
    {
      ExpandStep(t, words, rcon, nk, total);
      var i := |words|;
      var temp := NextTemp(t, words, rcon, nk);
      if i % nk == 0 {
        rcon := GfMul(rcon, B(2));
      }
      words := words + [AddWords(words[i - nk], temp)];
    }
    ExpandEnd(t, words, rcon, nk);
  }

  lemma ExpandStep(t: Tables, words: seq<Word>, rcon: Byte, nk: nat, total: nat)
    requires |t.sbox| == 256 && nk >= 1 && nk <= |words| < total
    ensures Expand(t, words, rcon, nk, total)
         == Expand(t, words + [AddWords(words[|words| - nk], NextTemp(t, words, rcon, nk))],
                   if |words| % nk == 0 then GfMul(rcon, B(2)) else rcon, nk, total)
  {}

  lemma ExpandEnd(t: Tables, words: seq<Word>, rcon: Byte, nk: nat)
    requires |t.sbox| == 256 && nk >= 1 && nk <= |words|
    ensures Expand(t, words, rcon, nk, |words|) == words
  {}

  // ----- the steps on values

  function AddKey(s: State, words: seq<Word>, rnd: nat): State
    requires 4 * rnd + 4 <= |words|
  {
    seq(16, i requires 0 <= i < 16 => Plus(s[i], words[4 * rnd + i / 4][i % 4]))
  }

  function SubAll(t: Tables, s: State): State
    requires |t.sbox| == 256
  {
    seq(16, i requires 0 <= i < 16 => t.Sub(s[i]))
  }

  function InvSubAll(t: Tables, s: State): State
    requires |t.inv| == 256
  {
    seq(16, i requires 0 <= i < 16 => t.InvSub(s[i]))
  }

  /** Where ShiftRows (forward) or its inverse takes entry i from. */
  function Moved(i: nat, forward: bool): (j: nat)
    requires i < 16
    ensures j < 16
  {
    4 * ((if forward then i / 4 + i % 4 else i / 4 - i % 4) % 4) + i % 4
  }

  function Shift(s: State): State
  {
    seq(16, i requires 0 <= i < 16 => s[Moved(i, true)])
  }

  function InvShift(s: State): State
  {
    seq(16, i requires 0 <= i < 16 => s[Moved(i, false)])
  }

  function Sum4(a: Byte, b: Byte, c: Byte, d: Byte): Byte { Plus(Plus(a, b), Plus(c, d)) }

  function Times(k: bv8, a: Byte): Byte { GfMul(a, B(k)) }

  /** One row of _mix_columns for the column rotated so that its own entry is first. */
  function MixRow(a: Byte, b: Byte, c: Byte, d: Byte): Byte { Sum4(Times(2, a), Times(3, b), c, d) }

  function InvMixRow(a: Byte, b: Byte, c: Byte, d: Byte): Byte
  {
    Sum4(Times(14, a), Times(11, b), Times(13, c), Times(9, d))
  }

  function MixColumn(w: Word): Word
  {
    [MixRow(w[0], w[1], w[2], w[3]), MixRow(w[1], w[2], w[3], w[0]),
     MixRow(w[2], w[3], w[0], w[1]), MixRow(w[3], w[0], w[1], w[2])]
  }

  function InvMixColumn(w: Word): Word
  {
    [InvMixRow(w[0], w[1], w[2], w[3]), InvMixRow(w[1], w[2], w[3], w[0]),
     InvMixRow(w[2], w[3], w[0], w[1]), InvMixRow(w[3], w[0], w[1], w[2])]
  }

  function Column(s: State, c: nat): Word
    requires c < 4
  {
    s[4 * c..4 * c + 4]
  }

  function Join4(a: Word, b: Word, c: Word, d: Word): State { a + b + c + d }

  function Mix(s: State): State
  {
    Join4(MixColumn(Column(s, 0)), MixColumn(Column(s, 1)), MixColumn(Column(s, 2)), MixColumn(Column(s, 3)))
  }

  function InvMix(s: State): State
  {
    Join4(InvMixColumn(Column(s, 0)), InvMixColumn(Column(s, 1)), InvMixColumn(Column(s, 2)), InvMixColumn(Column(s, 3)))
  }

  // ----- every step is undone by its inverse

  lemma AddKeyTwice(s: State, words: seq<Word>, rnd: nat)
    requires 4 * rnd + 4 <= |words|
    ensures AddKey(AddKey(s, words, rnd), words, rnd) == s
  {
    hide Plus;
    forall i | 0 <= i < 16 ensures AddKey(AddKey(s, words, rnd), words, rnd)[i] == s[i] {
      var k := words[4 * rnd + i / 4][i % 4];
      PlusAssociates(s[i], k, k);
      PlusZero(k);
      PlusZero(s[i]);
    }
  }

  lemma SubInverts(t: Tables, s: State)
    requires t.Valid()
    ensures InvSubAll(t, SubAll(t, s)) == s
  {
    hide SubByte;
    forall i | 0 <= i < 16 ensures InvSubAll(t, SubAll(t, s))[i] == s[i] {
      assert t.sbox[s[i].v as int] == SubByte(s[i].v);
    }
  }

  lemma SubOnto(t: Tables, s: State)
    requires t.Valid()
    ensures SubAll(t, InvSubAll(t, s)) == s
  {
    hide SubByte, InvSubByte;
    forall i | 0 <= i < 16 ensures SubAll(t, InvSubAll(t, s))[i] == s[i] {
      var x := InvSubByte(s[i].v);
      SubByteBijective(s[i].v);
      assert t.sbox[x as int] == SubByte(x) && t.inv[SubByte(x) as int] == x;
    }
  }

  lemma ShiftInverts(s: State)
    ensures InvShift(Shift(s)) == s && Shift(InvShift(s)) == s
  {
    hide Moved;
    forall i | 0 <= i < 16 ensures InvShift(Shift(s))[i] == s[i] && Shift(InvShift(s))[i] == s[i] {
      MovedBack(i, false);
      MovedBack(i, true);
    }
  }

  lemma MovedBack(i: nat, forward: bool)
    requires i < 16
    ensures Moved(Moved(i, forward), !forward) == i
  {
    hide Moved;
    MovedIs(i / 4, i % 4, forward);
    MovedIs((if forward then i / 4 + i % 4 else i / 4 - i % 4) % 4, i % 4, !forward);
  }

  lemma MovedIs(c: nat, r: nat, forward: bool)
    requires c < 4 && r < 4
    ensures Moved(4 * c + r, forward) == 4 * ((if forward then c + r else c - r) % 4) + r
  {}

  // ----- the columns

  /** A linear combination of four bytes. */
  function Dot(a: Byte, b: Byte, c: Byte, d: Byte, k0: Byte, k1: Byte, k2: Byte, k3: Byte): Byte
  {
    Sum4(GfMul(a, k0), GfMul(b, k1), GfMul(c, k2), GfMul(d, k3))
  }

  /** Combinations with the same bytes add up coefficient by coefficient. */
  lemma DotPlus(a: Byte, b: Byte, c: Byte, d: Byte, k0: Byte, k1: Byte, k2: Byte, k3: Byte,
                l0: Byte, l1: Byte, l2: Byte, l3: Byte)
    ensures Plus(Dot(a, b, c, d, k0, k1, k2, k3), Dot(a, b, c, d, l0, l1, l2, l3))
         == Dot(a, b, c, d, Plus(k0, l0), Plus(k1, l1), Plus(k2, l2), Plus(k3, l3))
  {
    hide GfMul, Plus;
    LinearRight(a, k0, l0);
    LinearRight(b, k1, l1);
    LinearRight(c, k2, l2);
    LinearRight(d, k3, l3);
    PlusLaws(Plus(GfMul(a, k0), GfMul(b, k1)), Plus(GfMul(c, k2), GfMul(d, k3)),
             Plus(GfMul(a, l0), GfMul(b, l1)), Plus(GfMul(c, l2), GfMul(d, l3)));
    PlusLaws(GfMul(a, k0), GfMul(b, k1), GfMul(a, l0), GfMul(b, l1));
    PlusLaws(GfMul(c, k2), GfMul(d, k3), GfMul(c, l2), GfMul(d, l3));
  }

  /** Scaling a combination scales its coefficients. */
  lemma DotTimes(a: Byte, b: Byte, c: Byte, d: Byte, k0: Byte, k1: Byte, k2: Byte, k3: Byte, m: Byte)
    ensures GfMul(Dot(a, b, c, d, k0, k1, k2, k3), m)
         == Dot(a, b, c, d, GfMul(k0, m), GfMul(k1, m), GfMul(k2, m), GfMul(k3, m))
  {
    hide GfMul, Plus;
    LinearLeft(Plus(GfMul(a, k0), GfMul(b, k1)), Plus(GfMul(c, k2), GfMul(d, k3)), m);
    LinearLeft(GfMul(a, k0), GfMul(b, k1), m);
    LinearLeft(GfMul(c, k2), GfMul(d, k3), m);
    Associates(a, k0, m);
    Associates(b, k1, m);
    Associates(c, k2, m);
    Associates(d, k3, m);
  }

  lemma ProductsOfTwo()
    ensures GfMul(B(2), B(14)) == B(0x1C) && GfMul(B(2), B(11)) == B(0x16)
  {}

  lemma ProductsOfTwoMore()
    ensures GfMul(B(2), B(13)) == B(0x1A) && GfMul(B(2), B(9)) == B(0x12)
  {}

  lemma ProductsOfThree()
    ensures GfMul(B(3), B(14)) == B(0x12) && GfMul(B(3), B(11)) == B(0x1D)
  {}

  lemma ProductsOfThreeMore()
    ensures GfMul(B(3), B(13)) == B(0x17) && GfMul(B(3), B(9)) == B(0x1B)
  {}

  /** The products of the inverse row with the four rows of the mixing matrix. */
  lemma Coefficients()
    ensures Sum4(GfMul(B(2), B(14)), GfMul(B(1), B(11)), GfMul(B(1), B(13)), GfMul(B(3), B(9))) == B(1)
    ensures Sum4(GfMul(B(3), B(14)), GfMul(B(2), B(11)), GfMul(B(1), B(13)), GfMul(B(1), B(9))) == B(0)
    ensures Sum4(GfMul(B(1), B(14)), GfMul(B(3), B(11)), GfMul(B(2), B(13)), GfMul(B(1), B(9))) == B(0)
    ensures Sum4(GfMul(B(1), B(14)), GfMul(B(1), B(11)), GfMul(B(3), B(13)), GfMul(B(2), B(9))) == B(0)
  {
    hide GfMul;
    ProductsOfTwo();
    ProductsOfTwoMore();
    ProductsOfThree();
    ProductsOfThreeMore();
    TimesUnit(B(9));
    TimesUnit(B(11));
    TimesUnit(B(13));
    TimesUnit(B(14));
  }

  /** The products of the mixing row with the four rows of the inverse matrix. */
  lemma BackCoefficients()
    ensures Sum4(GfMul(B(14), B(2)), GfMul(B(9), B(3)), GfMul(B(13), B(1)), GfMul(B(11), B(1))) == B(1)
    ensures Sum4(GfMul(B(11), B(2)), GfMul(B(14), B(3)), GfMul(B(9), B(1)), GfMul(B(13), B(1))) == B(0)
    ensures Sum4(GfMul(B(13), B(2)), GfMul(B(11), B(3)), GfMul(B(14), B(1)), GfMul(B(9), B(1))) == B(0)
    ensures Sum4(GfMul(B(9), B(2)), GfMul(B(13), B(3)), GfMul(B(11), B(1)), GfMul(B(14), B(1))) == B(0)
  {
    hide GfMul;
    ProductsOfTwo();
    ProductsOfTwoMore();
    ProductsOfThree();
    ProductsOfThreeMore();
    TimesUnit(B(9));
    TimesUnit(B(11));
    TimesUnit(B(13));
    TimesUnit(B(14));
    CommuteAll(B(9));
    CommuteAll(B(11));
    CommuteAll(B(13));
    CommuteAll(B(14));
  }

  lemma CommuteAll(a: Byte)
    ensures GfMul(a, B(2)) == GfMul(B(2), a) && GfMul(a, B(3)) == GfMul(B(3), a)
  {
    hide GfMul;
    Commutes(a, B(2));
    Commutes(a, B(3));
  }

  lemma MixRowIsDot(a: Byte, b: Byte, c: Byte, d: Byte)
    ensures MixRow(a, b, c, d) == Dot(a, b, c, d, B(2), B(3), B(1), B(1))
  {
    hide GfMul, Plus;
    TimesUnit(c);
    TimesUnit(d);
  }

  lemma SumRotates(a: Byte, b: Byte, c: Byte, d: Byte)
    ensures Sum4(a, b, c, d) == Sum4(b, c, d, a)
  {
    hide Plus;
    PlusLaws(a, b, c, d);
    PlusLaws(b, a, c, d);
    PlusAssociates(a, c, d);
    PlusAssociates(b, c, Plus(a, d));
    PlusAssociates(Plus(b, c), d, a);
    PlusAssociates(b, c, d);
    PlusAssociates(Plus(a, b), c, d);
    PlusAssociates(a, b, c);
    PlusAssociates(a, Plus(b, c), d);
    PlusAssociates(Plus(b, c), a, d);
    PlusAssociates(a, d, d);
  }

  lemma DotRotates(a: Byte, b: Byte, c: Byte, d: Byte, l0: Byte, l1: Byte, l2: Byte, l3: Byte)
    ensures Dot(a, b, c, d, l0, l1, l2, l3) == Dot(b, c, d, a, l1, l2, l3, l0)
  {
    hide GfMul, Plus, Sum4;
    SumRotates(GfMul(a, l0), GfMul(b, l1), GfMul(c, l2), GfMul(d, l3));
  }

  /** Combining the four rotations of a combination multiplies the coefficients cyclically. */
  lemma DotOfDots(a: Byte, b: Byte, c: Byte, d: Byte, l0: Byte, l1: Byte, l2: Byte, l3: Byte,
                  k0: Byte, k1: Byte, k2: Byte, k3: Byte)
    ensures Dot(Dot(a, b, c, d, l0, l1, l2, l3), Dot(b, c, d, a, l0, l1, l2, l3),
                Dot(c, d, a, b, l0, l1, l2, l3), Dot(d, a, b, c, l0, l1, l2, l3), k0, k1, k2, k3)
         == Dot(a, b, c, d,
                Sum4(GfMul(l0, k0), GfMul(l3, k1), GfMul(l2, k2), GfMul(l1, k3)),
                Sum4(GfMul(l1, k0), GfMul(l0, k1), GfMul(l3, k2), GfMul(l2, k3)),
                Sum4(GfMul(l2, k0), GfMul(l1, k1), GfMul(l0, k2), GfMul(l3, k3)),
                Sum4(GfMul(l3, k0), GfMul(l2, k1), GfMul(l1, k2), GfMul(l0, k3)))
  {
    hide GfMul, Plus, Dot;
    var y0, y1 := Dot(a, b, c, d, l0, l1, l2, l3), Dot(a, b, c, d, l3, l0, l1, l2);
    var y2, y3 := Dot(a, b, c, d, l2, l3, l0, l1), Dot(a, b, c, d, l1, l2, l3, l0);
    RotatedDots(a, b, c, d, l0, l1, l2, l3);
    DotIs(y0, y1, y2, y3, k0, k1, k2, k3);
    DotTimes(a, b, c, d, l0, l1, l2, l3, k0);
    DotTimes(a, b, c, d, l3, l0, l1, l2, k1);
    DotTimes(a, b, c, d, l2, l3, l0, l1, k2);
    DotTimes(a, b, c, d, l1, l2, l3, l0, k3);
    DotPlus(a, b, c, d, GfMul(l0, k0), GfMul(l1, k0), GfMul(l2, k0), GfMul(l3, k0),
            GfMul(l3, k1), GfMul(l0, k1), GfMul(l1, k1), GfMul(l2, k1));
    DotPlus(a, b, c, d, GfMul(l2, k2), GfMul(l3, k2), GfMul(l0, k2), GfMul(l1, k2),
            GfMul(l1, k3), GfMul(l2, k3), GfMul(l3, k3), GfMul(l0, k3));
    DotPlus(a, b, c, d,
            Plus(GfMul(l0, k0), GfMul(l3, k1)), Plus(GfMul(l1, k0), GfMul(l0, k1)),
            Plus(GfMul(l2, k0), GfMul(l1, k1)), Plus(GfMul(l3, k0), GfMul(l2, k1)),
            Plus(GfMul(l2, k2), GfMul(l1, k3)), Plus(GfMul(l3, k2), GfMul(l2, k3)),
            Plus(GfMul(l0, k2), GfMul(l3, k3)), Plus(GfMul(l1, k2), GfMul(l0, k3)));
  }

  lemma DotIs(a: Byte, b: Byte, c: Byte, d: Byte, k0: Byte, k1: Byte, k2: Byte, k3: Byte)
    ensures Dot(a, b, c, d, k0, k1, k2, k3)
         == Plus(Plus(GfMul(a, k0), GfMul(b, k1)), Plus(GfMul(c, k2), GfMul(d, k3)))
  {
    hide GfMul, Plus;
  }

  lemma RotatedDots(a: Byte, b: Byte, c: Byte, d: Byte, l0: Byte, l1: Byte, l2: Byte, l3: Byte)
    ensures Dot(b, c, d, a, l0, l1, l2, l3) == Dot(a, b, c, d, l3, l0, l1, l2)
    ensures Dot(c, d, a, b, l0, l1, l2, l3) == Dot(a, b, c, d, l2, l3, l0, l1)
    ensures Dot(d, a, b, c, l0, l1, l2, l3) == Dot(a, b, c, d, l1, l2, l3, l0)
  {
    hide Dot;
    DotRotates(a, b, c, d, l3, l0, l1, l2);
    DotRotates(a, b, c, d, l2, l3, l0, l1);
    DotRotates(b, c, d, a, l3, l0, l1, l2);
    DotRotates(d, a, b, c, l0, l1, l2, l3);
  }

  /** The inverse row applied to the mixed column gives the first byte back. */
  lemma InvMixRowInverts(a: Byte, b: Byte, c: Byte, d: Byte)
    ensures InvMixRow(MixRow(a, b, c, d), MixRow(b, c, d, a), MixRow(c, d, a, b), MixRow(d, a, b, c)) == a
  {
    hide GfMul, Plus, Sum4, MixRow;
    MixRowIsDot(a, b, c, d);
    MixRowIsDot(b, c, d, a);
    MixRowIsDot(c, d, a, b);
    MixRowIsDot(d, a, b, c);
    DotOfDots(a, b, c, d, B(2), B(3), B(1), B(1), B(14), B(11), B(13), B(9));
    Coefficients();
    UnitDot(a, b, c, d);
  }

  /** The mixing row applied to the inversely mixed column gives the first byte back. */
  lemma MixRowInverts(a: Byte, b: Byte, c: Byte, d: Byte)
    ensures MixRow(InvMixRow(a, b, c, d), InvMixRow(b, c, d, a), InvMixRow(c, d, a, b), InvMixRow(d, a, b, c)) == a
  {
    hide GfMul, Plus, Sum4, MixRow;
    MixRowIsDot(InvMixRow(a, b, c, d), InvMixRow(b, c, d, a), InvMixRow(c, d, a, b), InvMixRow(d, a, b, c));
    DotOfDots(a, b, c, d, B(14), B(11), B(13), B(9), B(2), B(3), B(1), B(1));
    BackCoefficients();
    UnitDot(a, b, c, d);
  }

  lemma UnitDot(a: Byte, b: Byte, c: Byte, d: Byte)
    ensures Dot(a, b, c, d, B(1), B(0), B(0), B(0)) == a
  {
    hide GfMul, Plus;
    TimesUnit(a);
    TimesZero(b);
    TimesZero(c);
    TimesZero(d);
    PlusZero(a);
    PlusZero(Zero);
  }

  /** The coefficients of the polynomial {03}x^3 + {01}x^2 + {01}x + {02} of FIPS 197. */
  function MixCoefficient(i: nat): Byte
  {
    if i == 0 then B(2) else if i == 3 then B(3) else B(1)
  }

  /** Section 5.1.3 of FIPS 197: byte i of a mixed column is byte i of the product of the
      column with that polynomial modulo x^4 + 1. */
  lemma MixColumnIsProduct(w: Word, i: nat)
    requires i < 4
    ensures MixColumn(w)[i]
         == Sum4(GfMul(w[i], MixCoefficient(0)), GfMul(w[(i + 3) % 4], MixCoefficient(1)),
                 GfMul(w[(i + 2) % 4], MixCoefficient(2)), GfMul(w[(i + 1) % 4], MixCoefficient(3)))
  {
    hide GfMul, Plus, Dot, MixRow;
    var a, b, c, d := w[i], w[(i + 1) % 4], w[(i + 2) % 4], w[(i + 3) % 4];
    MixRowIsDot(a, b, c, d);
    DotIs(a, b, c, d, B(2), B(3), B(1), B(1));
    SumReversed(GfMul(a, B(2)), GfMul(b, B(3)), GfMul(c, B(1)), GfMul(d, B(1)));
  }

  lemma SumReversed(a: Byte, b: Byte, c: Byte, d: Byte)
    ensures Sum4(a, b, c, d) == Sum4(a, d, c, b)
  {
    hide Plus;
    PlusLaws(a, b, c, d);
    PlusLaws(a, b, d, c);
    PlusAssociates(c, d, d);
    PlusAssociates(b, c, c);
  }

  /** Entries of the S-box of FIPS 197. */
  lemma SboxEntries()
    ensures SubByte(0x00) == 0x63 && SubByte(0x01) == 0x7C && SubByte(0x53) == 0xED
  {
    hide Pow, GfMul;
    OnePower(254);
    ReciprocalOf53();
  }

  lemma ReciprocalOf53()
    ensures Reciprocal(B(0x53)) == B(0xCA)
  {
    assert GfMul(B(0x53), B(0xCA)) == Unit;
    ReciprocalUnique(B(0x53), B(0xCA));
  }

  lemma {:induction false} OnePower(n: nat)
    ensures Pow(Unit, n) == Unit
    decreases n
  {
    hide GfMul;
    if n > 0 {
      OnePower(n - 1);
      TimesUnit(Unit);
    }
  }

  /** Row r of the state is rotated left by r: section 5.1.2 of FIPS 197. */
  lemma ShiftAt(s: State, r: nat, c: nat)
    requires r < 4 && c < 4
    ensures Shift(s)[r + 4 * c] == s[r + 4 * ((c + r) % 4)]
  {
    MovedIs(c, r, true);
  }

  lemma MixColumnInverts(w: Word)
    ensures InvMixColumn(MixColumn(w)) == w && MixColumn(InvMixColumn(w)) == w
  {
    hide MixRow, InvMixRow;
    MixRowInverts(w[0], w[1], w[2], w[3]);
    MixRowInverts(w[1], w[2], w[3], w[0]);
    MixRowInverts(w[2], w[3], w[0], w[1]);
    MixRowInverts(w[3], w[0], w[1], w[2]);
    InvMixRowInverts(w[0], w[1], w[2], w[3]);
    InvMixRowInverts(w[1], w[2], w[3], w[0]);
    InvMixRowInverts(w[2], w[3], w[0], w[1]);
    InvMixRowInverts(w[3], w[0], w[1], w[2]);
  }

  lemma MixInverts(s: State)
    ensures InvMix(Mix(s)) == s && Mix(InvMix(s)) == s
  {
    hide MixColumn, InvMixColumn, Join4, Column;
    MixColumnInverts(Column(s, 0));
    MixColumnInverts(Column(s, 1));
    MixColumnInverts(Column(s, 2));
    MixColumnInverts(Column(s, 3));
    FourColumns(MixColumn(Column(s, 0)), MixColumn(Column(s, 1)), MixColumn(Column(s, 2)), MixColumn(Column(s, 3)));
    FourColumns(InvMixColumn(Column(s, 0)), InvMixColumn(Column(s, 1)), InvMixColumn(Column(s, 2)),
                InvMixColumn(Column(s, 3)));
    JoinColumns(s);
  }

  lemma FourColumns(a: Word, b: Word, c: Word, d: Word)
    ensures var s := Join4(a, b, c, d);
            Column(s, 0) == a && Column(s, 1) == b && Column(s, 2) == c && Column(s, 3) == d
  {}

  lemma JoinColumns(s: State)
    ensures Join4(Column(s, 0), Column(s, 1), Column(s, 2), Column(s, 3)) == s
  {}

  // ----- the rounds

  ghost predicate Schedule(words: seq<Word>, nr: nat)
  {
    nr >= 1 && |words| == 4 * (nr + 1)
  }

  /** The state after the initial key and rounds 1 to rnd of encrypt_block. */
  function Rounds(t: Tables, words: seq<Word>, block: State, rnd: nat): State
    requires |t.sbox| == 256 && 4 * rnd + 4 <= |words|
    decreases rnd
  {
    if rnd == 0 then AddKey(block, words, 0)
    else AddKey(Mix(Shift(SubAll(t, Rounds(t, words, block, rnd - 1)))), words, rnd)
  }

  /** encrypt_block. */
  function Encrypt(t: Tables, words: seq<Word>, nr: nat, block: State): State
    requires |t.sbox| == 256 && Schedule(words, nr)
  {
    AddKey(Shift(SubAll(t, Rounds(t, words, block, nr - 1))), words, nr)
  }

  /** Rounds rnd down to 1 of decrypt_block and what follows them. */
  function InvRounds(t: Tables, words: seq<Word>, s: State, rnd: nat): State
    requires |t.inv| == 256 && 4 * rnd + 4 <= |words|
    decreases rnd
  {
    var plain := InvSubAll(t, InvShift(s));
    if rnd == 0 then AddKey(plain, words, 0)
    else InvRounds(t, words, InvMix(AddKey(plain, words, rnd)), rnd - 1)
  }

  /** decrypt_block. */
  function Decrypt(t: Tables, words: seq<Word>, nr: nat, block: State): State
    requires |t.inv| == 256 && Schedule(words, nr)
  {
    InvRounds(t, words, AddKey(block, words, nr), nr - 1)
  }

  lemma {:induction false} InvRoundsUndo(t: Tables, words: seq<Word>, block: State, rnd: nat)
    requires t.Valid() && 4 * rnd + 4 <= |words|
    ensures InvRounds(t, words, Shift(SubAll(t, Rounds(t, words, block, rnd))), rnd) == block
    decreases rnd
  {
    hide AddKey, Shift, InvShift, SubAll, InvSubAll, Mix, InvMix, Tables.Valid;
    TableSizes(t);
    var x := Rounds(t, words, block, rnd);
    ShiftInverts(SubAll(t, x));
    SubInverts(t, x);
    if rnd == 0 {
      AddKeyTwice(block, words, 0);
    } else {
      var mixed := Mix(Shift(SubAll(t, Rounds(t, words, block, rnd - 1))));
      AddKeyTwice(mixed, words, rnd);
      MixInverts(Shift(SubAll(t, Rounds(t, words, block, rnd - 1))));
      InvRoundsUndo(t, words, block, rnd - 1);
    }
  }

  lemma TableSizes(t: Tables)
    requires t.Valid()
    ensures |t.sbox| == 256 && |t.inv| == 256
  {}

  /** Decryption undoes encryption for every key schedule and block. */
  lemma DecryptEncrypt(t: Tables, words: seq<Word>, nr: nat, block: State)
    requires t.Valid() && Schedule(words, nr)
    ensures |t.sbox| == 256 && |t.inv| == 256
    ensures Decrypt(t, words, nr, Encrypt(t, words, nr, block)) == block
  {
    hide AddKey, Shift, SubAll, Rounds, InvRounds, Tables.Valid;
    TableSizes(t);
    AddKeyTwice(Shift(SubAll(t, Rounds(t, words, block, nr - 1))), words, nr);
    InvRoundsUndo(t, words, block, nr - 1);
  }

  lemma {:induction false} RoundsUndo(t: Tables, words: seq<Word>, s: State, rnd: nat)
    requires t.Valid() && 4 * rnd + 4 <= |words|
    ensures Shift(SubAll(t, Rounds(t, words, InvRounds(t, words, s, rnd), rnd))) == s
    decreases rnd
  {
    hide AddKey, Shift, InvShift, SubAll, InvSubAll, Mix, InvMix, Tables.Valid;
    TableSizes(t);
    var plain := InvSubAll(t, InvShift(s));
    ShiftInverts(s);
    SubOnto(t, InvShift(s));
    AddKeyTwice(plain, words, rnd);
    if rnd > 0 {
      MixInverts(AddKey(plain, words, rnd));
      RoundsUndo(t, words, InvMix(AddKey(plain, words, rnd)), rnd - 1);
    }
  }

  /** Encryption undoes decryption for every key schedule and block. */
  lemma EncryptDecrypt(t: Tables, words: seq<Word>, nr: nat, block: State)
    requires t.Valid() && Schedule(words, nr)
    ensures |t.sbox| == 256 && |t.inv| == 256
    ensures Encrypt(t, words, nr, Decrypt(t, words, nr, block)) == block
  {
    hide AddKey, Shift, SubAll, Rounds, InvRounds, Tables.Valid;
    TableSizes(t);
    RoundsUndo(t, words, AddKey(block, words, nr), nr - 1);
    AddKeyTwice(block, words, nr);
  }

  // ----- the state-mutating steps

  /** _add_round_key. */
  method AddRoundKey(state: array<Byte>, words: seq<Word>, rnd: nat)
    requires state.Length == 16 && 4 * rnd + 4 <= |words|
    modifies state
    ensures state[..] == AddKey(old(state[..]), words, rnd)
  {
    hide Plus;
    var c := 0;
    while c < 4
      invariant 0 <= c <= 4
      invariant forall i :: 0 <= i < 4 * c ==> state[i] == AddKey(old(state[..]), words, rnd)[i]
      invariant forall i :: 4 * c <= i < 16 ==> state[i] == old(state[i])
    {
      var w := words[4 * rnd + c];
      var r := 0;
      while r < 4
        invariant 0 <= r <= 4
        invariant forall i :: 0 <= i < 4 * c + r ==> state[i] == AddKey(old(state[..]), words, rnd)[i]
        invariant forall i :: 4 * c + r <= i < 16 ==> state[i] == old(state[i])
      {
        state[4 * c + r] := Plus(state[4 * c + r], w[r]);
        r := r + 1;
      }
      c := c + 1;
    }
  }

  /** _sub_bytes. */
  method SubBytes(t: Tables, state: array<Byte>)
    requires state.Length == 16 && |t.sbox| == 256
    modifies state
    ensures state[..] == SubAll(t, old(state[..]))
  {
    var i := 0;
    while i < 16
      invariant 0 <= i <= 16
      invariant forall j :: 0 <= j < i ==> state[j] == t.Sub(old(state[j]))
      invariant forall j :: i <= j < 16 ==> state[j] == old(state[j])
    {
      state[i] := t.Sub(state[i]);
      i := i + 1;
    }
  }

  /** _inv_sub_bytes. */
  method InvSubBytes(t: Tables, state: array<Byte>)
    requires state.Length == 16 && |t.inv| == 256
    modifies state
    ensures state[..] == InvSubAll(t, old(state[..]))
  {
    var i := 0;
    while i < 16
      invariant 0 <= i <= 16
      invariant forall j :: 0 <= j < i ==> state[j] == t.InvSub(old(state[j]))
      invariant forall j :: i <= j < 16 ==> state[j] == old(state[j])
    {
      state[i] := t.InvSub(state[i]);
      i := i + 1;
    }
  }

  /** Row r of _shift_rows or _inv_shift_rows. */
  method MoveRow(state: array<Byte>, before: State, r: nat, forward: bool)
    requires state.Length == 16 && r < 4
    modifies state
    ensures forall i :: 0 <= i < 16 ==> state[i] == if i % 4 == r then before[Moved(i, forward)] else old(state[i])
  {
    hide Moved;
    var c := 0;
    while c < 4
      invariant 0 <= c <= 4
      invariant forall i :: 0 <= i < 16 ==>
                  state[i] == if i % 4 == r && i / 4 < c then before[Moved(i, forward)] else old(state[i])
    {
      state[4 * c + r] := before[Moved(4 * c + r, forward)];
      c := c + 1;
    }
  }

  method MoveRows(state: array<Byte>, forward: bool)
    requires state.Length == 16
    modifies state
    ensures forall i :: 0 <= i < 16 ==> state[i] == old(state[Moved(i, forward)])
  {
    hide Moved;
    var before: State := state[..];
    var r := 0;
    while r < 4
      invariant 0 <= r <= 4
      invariant forall i :: 0 <= i < 16 && i % 4 < r ==> state[i] == before[Moved(i, forward)]
    {
      MoveRow(state, before, r, forward);
      r := r + 1;
    }
  }

  /** _shift_rows. */
  method ShiftRows(state: array<Byte>)
    requires state.Length == 16
    modifies state
    ensures state[..] == Shift(old(state[..]))
  {
    hide Moved;
    MoveRows(state, true);
  }

  /** _inv_shift_rows. */
  method InvShiftRows(state: array<Byte>)
    requires state.Length == 16
    modifies state
    ensures state[..] == InvShift(old(state[..]))
  {
    hide Moved;
    MoveRows(state, false);
  }

  method SetColumn(state: array<Byte>, c: nat, w: Word)
    requires state.Length == 16 && c < 4
    modifies state
    ensures Column(state[..], c) == w
    ensures forall k: nat :: k < 4 && k != c ==> Column(state[..], k) == old(Column(state[..], k))
  {
    state[4 * c], state[4 * c + 1], state[4 * c + 2], state[4 * c + 3] := w[0], w[1], w[2], w[3];
  }

  /** _mix_columns. */
  method MixColumns(state: array<Byte>)
    requires state.Length == 16
    modifies state
    ensures state[..] == Mix(old(state[..]))
  {
    hide MixColumn, Column, Join4;
    var c := 0;
    while c < 4
      invariant 0 <= c <= 4
      invariant forall k: nat :: k < c ==> Column(state[..], k) == MixColumn(Column(old(state[..]), k))
      invariant forall k: nat :: c <= k < 4 ==> Column(state[..], k) == Column(old(state[..]), k)
    {
      SetColumn(state, c, MixColumn(Column(state[..], c)));
      c := c + 1;
    }
    JoinColumns(state[..]);
  }

  /** _inv_mix_columns. */
  method InvMixColumns(state: array<Byte>)
    requires state.Length == 16
    modifies state
    ensures state[..] == InvMix(old(state[..]))
  {
    hide InvMixColumn, Column, Join4;
    var c := 0;
    while c < 4
      invariant 0 <= c <= 4
      invariant forall k: nat :: k < c ==> Column(state[..], k) == InvMixColumn(Column(old(state[..]), k))
      invariant forall k: nat :: c <= k < 4 ==> Column(state[..], k) == Column(old(state[..]), k)
    {
      SetColumn(state, c, InvMixColumn(Column(state[..], c)));
      c := c + 1;
    }
    JoinColumns(state[..]);
  }

  /** The cipher object: the expanded key and the number of rounds. */
  class Cipher {
    const t: Tables
    const words: seq<Word>
    const nr: nat

    ghost predicate Valid()
    {
      t.Valid() && Schedule(words, nr)
    }

    constructor (t: Tables, key: seq<Byte>)
      requires t.Valid() && |key| in {16, 24, 32}
      ensures Valid() && this.t == t && Some((words, nr)) == ExpandKey(t, key)
    {
      var expanded := KeyExpansion(t, key);
      this.t := t;
      this.words := expanded.value.0;
      this.nr := expanded.value.1;
    }

    method EncryptBlock(block: State) returns (r: State)
      requires Valid()
      ensures |t.sbox| == 256 && r == Encrypt(t, words, nr, block)
    {
      hide AddKey, SubAll, Shift, Mix;
      var state := new Byte[16](i requires 0 <= i < 16 => block[i]);
      assert state[..] == block;
      AddRoundKey(state, words, 0);
      var rnd := 1;
      while rnd < nr
        invariant 1 <= rnd <= nr && state[..] == Rounds(t, words, block, rnd - 1)
      {
        SubBytes(t, state);
        ShiftRows(state);
        MixColumns(state);
        AddRoundKey(state, words, rnd);
        rnd := rnd + 1;
      }
      SubBytes(t, state);
      ShiftRows(state);
      AddRoundKey(state, words, nr);
      r := state[..];
    }

    method DecryptBlock(block: State) returns (r: State)
      requires Valid()
      ensures |t.inv| == 256 && r == Decrypt(t, words, nr, block)
    {
      hide AddKey, InvSubAll, InvShift, InvMix;
      var state := new Byte[16](i requires 0 <= i < 16 => block[i]);
      assert state[..] == block;
      AddRoundKey(state, words, nr);
      var rnd := nr - 1;
      while rnd > 0
        invariant 0 <= rnd <= nr - 1 && InvRounds(t, words, state[..], rnd) == Decrypt(t, words, nr, block)
      {
        InvShiftRows(state);
        InvSubBytes(t, state);
        AddRoundKey(state, words, rnd);
        InvMixColumns(state);
        rnd := rnd - 1;
      }
      InvShiftRows(state);
      InvSubBytes(t, state);
      AddRoundKey(state, words, 0);
      r := state[..];
    }
  }
}
