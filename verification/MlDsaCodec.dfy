/** Signature encoding of ML-DSA: _sig_encode and _sig_decode. */
module MlDsaCodec {
  import opened Options
  import opened ModArith
  import opened MlDsaRounding
  import opened BitPack

  datatype Params = Params(k: nat, ell: nat, eta: nat, tau: nat, beta: nat, gamma1: nat, gamma2: nat, omega: nat, ctilde: nat)
  {
    function W1Bits(): nat
      requires gamma2 > 0
    {
      var m := (Q - 1) / (2 * gamma2);
      if m < 1 then 0 else BitLength(m - 1)
    }

    function ZBits(): nat { if gamma1 == 0 then 0 else BitLength(2 * gamma1 - 1) }

    function SBits(): nat { BitLength(2 * eta) }

    function ZSize(): nat { 32 * ZBits() }

    function SigSize(): nat { ctilde + ZSize() * ell + omega + k }

    predicate Known() { this == ML_DSA_44 || this == ML_DSA_65 || this == ML_DSA_87 }
  }

  const ML_DSA_44 := Params(4, 4, 2, 39, 78, 131072, 95232, 80, 32)
  const ML_DSA_65 := Params(6, 5, 4, 49, 196, 524288, 261888, 55, 48)
  const ML_DSA_87 := Params(8, 7, 2, 60, 120, 524288, 261888, 75, 64)

  /** The derived sizes of the three parameter sets. */
  lemma KnownSizes(p: Params)
    requires p.Known()
    ensures IsGamma2(p.gamma2) && p.omega < 256
    ensures p.ZBits() == (if p.gamma1 == 131072 then 18 else 20) && Exp2(p.ZBits()) == 2 * p.gamma1
    ensures p.W1Bits() == (if p.gamma2 == 95232 then 6 else 4)
    ensures p.SBits() == (if p.eta == 2 then 3 else 4) && (p.eta == 2 || p.eta == 4)
    ensures p.beta == p.tau * p.eta
  {
    BitLengths();
    PowerSizes();
    hide BitLength, Exp2;
  }

  lemma PowerSizes()
    ensures Exp2(18) == 262144 && Exp2(20) == 1048576
  {
    ByteSize();
    assert Exp2(2) == 4;
    Exp2Add(8, 2);
    Exp2Add(8, 10);
    Exp2Add(2, 18);
  }

  lemma BitLengths()
    ensures BitLength(262143) == 18 && BitLength(1048575) == 20
    ensures BitLength(43) == 6 && BitLength(15) == 4 && BitLength(4) == 3 && BitLength(8) == 4
  {
    hide BitLength;
    FourBits(0);
    FourBits(15);
    FourBits(255);
    FourBits(4095);
    FourBits(65535);
    TwoBits(0);
    FourBits(3);
    FourBits(63);
    FourBits(1023);
    FourBits(16383);
    OneBit(0);
    OneBit(1);
    OneBit(2);
    OneBit(4);
    OneBit(5);
    OneBit(10);
    OneBit(21);
  }

  lemma OneBit(n: nat)
    ensures BitLength(2 * n) == (if n == 0 then 0 else 1 + BitLength(n))
    ensures BitLength(2 * n + 1) == 1 + BitLength(n) && BitLength(0) == 0
  {}

  lemma TwoBits(n: nat)
    ensures BitLength(4 * n + 3) == 2 + BitLength(n)
  {
    OneBit(2 * n + 1);
    OneBit(n);
  }

  lemma FourBits(n: nat)
    ensures BitLength(16 * n + 15) == 4 + BitLength(n)
  {
    TwoBits(4 * n + 3);
    TwoBits(n);
  }

  // ----- hints

  /** The positions at or after from whose coefficient is not 0 modulo q. */
  function Indices(p: Poly, from: nat): (r: seq<int>)
    ensures forall i :: 0 <= i < |r| ==> from <= r[i] < |p|
    decreases |p| - from
  {
    if from >= |p| then []
    else (if p[from] % Q != 0 then [from] else []) + Indices(p, from + 1)
  }

  ghost predicate Increasing(s: seq<int>)
  {
    forall i, j :: 0 <= i < j < |s| ==> s[i] < s[j]
  }

  /** The 0/1 polynomial with ones at the listed positions. */
  function Marked(s: seq<int>): Poly
  {
    seq(256, i => if i in s then 1 else 0)
  }

  ghost predicate IsHint(p: Poly)
  {
    forall i :: 0 <= i < 256 ==> p[i] == 0 || p[i] == 1
  }

  lemma {:induction false} IndicesOf(p: Poly, from: nat)
    requires from <= |p|
    ensures Increasing(Indices(p, from))
    ensures forall i :: from <= i < |p| ==> (i in Indices(p, from) <==> p[i] % Q != 0)
    decreases |p| - from
  {
    if from < |p| {
      IndicesOf(p, from + 1);
      var r := Indices(p, from + 1);
      assert from !in r;
    }
  }

  /** Two increasing lists with the same members are equal. */
  lemma {:induction false} IncreasingUnique(s: seq<int>, t: seq<int>)
    requires Increasing(s) && Increasing(t)
    requires forall x :: x in s <==> x in t
    ensures s == t
    decreases |s|
  {
    if t != [] {
      assert t[0] in t;
    }
    if s != [] {
      assert s[0] in s;
      var i :| 0 <= i < |s| && s[i] == t[0];
      var j :| 0 <= j < |t| && t[j] == s[0];
      assert s[0] == t[0];
      forall x ensures x in s[1..] <==> x in t[1..] {
        TailMembers(s, x);
        TailMembers(t, x);
      }
      IncreasingUnique(s[1..], t[1..]);
    }
  }

  lemma TailMembers(s: seq<int>, x: int)
    requires Increasing(s) && |s| >= 1
    ensures x in s[1..] <==> x in s && x != s[0]
  {
    if x in s && x != s[0] {
      var i :| 0 <= i < |s| && s[i] == x;
      assert s[1..][i - 1] == x;
    }
  }

  lemma IndicesMarked(s: seq<int>)
    requires Increasing(s) && forall i :: 0 <= i < |s| ==> 0 <= s[i] < 256
    ensures Indices(Marked(s), 0) == s
  {
    var p := Marked(s);
    IndicesOf(p, 0);
    forall x ensures x in Indices(p, 0) <==> x in s {
      if 0 <= x < 256 {
        assert p[x] % Q != 0 <==> x in s;
      }
    }
    IncreasingUnique(Indices(p, 0), s);
  }

  lemma MarkedIndices(p: Poly)
    requires IsHint(p)
    ensures Marked(Indices(p, 0)) == p
  {
    IndicesOf(p, 0);
  }

  function Positions(h: seq<Poly>): seq<int>
  {
    if h == [] then [] else Indices(h[0], 0) + Positions(h[1..])
  }

  /** Running totals of the number of hints per polynomial. */
  function Totals(h: seq<Poly>, acc: int): (r: seq<int>)
    ensures |r| == |h|
  {
    if h == [] then []
    else
      var total := acc + |Indices(h[0], 0)|;
      [total] + Totals(h[1..], total)
  }

  function Zeros(n: int): (r: seq<int>)
    ensures |r| == if n < 0 then 0 else n
    ensures forall i :: 0 <= i < |r| ==> r[i] == 0
  {
    if n < 0 then [] else seq(n, i => 0)
  }

  function HintEncode(h: seq<Poly>, omega: nat): (r: seq<int>)
  {
    Positions(h) + Zeros(omega - |Positions(h)|) + Totals(h, 0)
  }

  predicate Rising(s: seq<int>)
  {
    |s| <= 1 || (s[0] < s[1] && Rising(s[1..]))
  }

  predicate AllZero(s: seq<int>)
  {
    forall i :: 0 <= i < |s| ==> s[i] == 0
  }

  /** The rows of hints from row i on, given that last positions are used. */
  function HintRows(positions: seq<int>, totals: seq<int>, last: int): (r: Option<seq<Poly>>)
    requires 0 <= last <= |positions|
    ensures r.Some? ==> |r.value| == |totals|
    decreases |totals|
  {
    if totals == [] then
      if AllZero(positions[last..]) then Some([]) else None
    else
      var end := totals[0];
      if end < last || end > |positions| || !Rising(positions[last..end]) then None
      else match HintRows(positions, totals[1..], end)
        case None => None
        case Some(rest) => Some([Marked(positions[last..end])] + rest)
  }

  function HintDecode(tail: seq<int>, omega: nat): Option<seq<Poly>>
    requires |tail| >= omega
  {
    HintRows(tail[..omega], tail[omega..], 0)
  }

  lemma {:induction false} RisingIncreasing(s: seq<int>)
    ensures Rising(s) <==> Increasing(s)
    decreases |s|
  {
    if |s| > 1 {
      RisingIncreasing(s[1..]);
      if Rising(s) {
        forall i, j | 0 <= i < j < |s| ensures s[i] < s[j] {
          if i == 0 && j > 1 {
            assert s[1..][0] < s[1..][j - 1];
          } else if i > 0 {
            assert s[1..][i - 1] < s[1..][j - 1];
          }
        }
      }
      if Increasing(s) {
        assert s[0] < s[1];
        IncreasingTail(s);
      }
    }
  }

  lemma IncreasingTail(s: seq<int>)
    requires Increasing(s) && |s| >= 1
    ensures Increasing(s[1..])
  {
    forall i, j | 0 <= i < j < |s| - 1 ensures s[1..][i] < s[1..][j] {
      assert s[i + 1] < s[j + 1];
    }
  }

  // ----- hints: the two directions

  ghost predicate AreHints(h: seq<Poly>)
  {
    forall i :: 0 <= i < |h| ==> IsHint(h[i])
  }

  lemma NextRow(positions: seq<int>, totals: seq<int>, last: nat, row: seq<int>)
    requires last + |row| <= |positions| && positions[last..last + |row|] == row && Rising(row)
    requires HintRows(positions, totals, last + |row|).Some?
    ensures HintRows(positions, [last + |row|] + totals, last)
         == Some([Marked(row)] + HintRows(positions, totals, last + |row|).value)
  {
    hide Marked, Rising, AllZero;
    assert ([last + |row|] + totals)[1..] == totals;
  }

  lemma {:induction false} HintRowsOfEncoding(before: seq<int>, h: seq<Poly>, pad: seq<int>)
    requires AreHints(h) && AllZero(pad)
    ensures HintRows(before + Positions(h) + pad, Totals(h, |before|), |before|) == Some(h)
    decreases |h|, 0
  {
    if h == [] {
      assert (before + Positions(h) + pad)[|before|..] == pad;
    } else {
      hide Indices, IsHint, HintRows;
      assert [h[0]] + h[1..] == h;
      assert Positions(h) == Indices(h[0], 0) + Positions(h[1..]);
      assert Totals(h, |before|) == [|before| + |Indices(h[0], 0)|] + Totals(h[1..], |before| + |Indices(h[0], 0)|);
      assert AreHints(h[1..]) by {
        forall i | 0 <= i < |h| - 1 ensures IsHint(h[1..][i]) { assert h[1..][i] == h[i + 1]; }
      }
      HintRowsOfRow(before, h[0], h[1..], pad);
    }
  }

  lemma {:induction false} HintRowsOfRow(before: seq<int>, p: Poly, rest: seq<Poly>, pad: seq<int>)
    requires IsHint(p) && AreHints(rest) && AllZero(pad)
    ensures HintRows(before + (Indices(p, 0) + Positions(rest)) + pad,
                     [|before| + |Indices(p, 0)|] + Totals(rest, |before| + |Indices(p, 0)|), |before|)
         == Some([p] + rest)
    decreases |rest|, 1
  {
    hide HintRows, Positions, Totals, Indices, Marked, AllZero, AreHints, IsHint, Rising;
    var row, tail := Indices(p, 0), Positions(rest);
    RowOfHint(p);
    HintRowsOfEncoding(before + row, rest, pad);
    var positions := before + (row + tail) + pad;
    assert positions == (before + row) + tail + pad;
    assert positions[|before|..|before| + |row|] == row;
    NextRow(positions, Totals(rest, |before + row|), |before|, row);
  }

  lemma RowOfHint(p: Poly)
    requires IsHint(p)
    ensures Rising(Indices(p, 0)) && Marked(Indices(p, 0)) == p
  {
    IndicesOf(p, 0);
    RisingIncreasing(Indices(p, 0));
    MarkedIndices(p);
  }

  /** Every list of hint polynomials with at most omega hints decodes to itself. */
  lemma HintRoundTrip(h: seq<Poly>, omega: nat)
    requires AreHints(h) && |Positions(h)| <= omega
    ensures |HintEncode(h, omega)| == omega + |h|
    ensures HintDecode(HintEncode(h, omega), omega) == Some(h)
  {
    var pad := Zeros(omega - |Positions(h)|);
    var tail := HintEncode(h, omega);
    assert tail[..omega] == [] + Positions(h) + pad;
    assert tail[omega..] == Totals(h, 0);
    HintRowsOfEncoding([], h, pad);
  }

  lemma {:induction false} HintRowsUnique(positions: seq<int>, totals: seq<int>, last: int)
    requires 0 <= last <= |positions| && Fits(positions, 8)
    requires HintRows(positions, totals, last).Some?
    ensures var h := HintRows(positions, totals, last).value;
            && AreHints(h)
            && |Positions(h)| <= |positions| - last
            && positions[last..] == Positions(h) + Zeros(|positions| - last - |Positions(h)|)
            && totals == Totals(h, last)
    decreases |totals|
  {
    hide Indices, Marked, Increasing, IsHint, Rising, Fits, AllZero;
    if totals == [] {
      AllZeroIsZeros(positions[last..]);
    } else {
      var end := totals[0];
      HintRowsUnique(positions, totals[1..], end);
      RowIsHint(positions[last..end], positions, last);
      HintRowsPrepend(positions, totals, last, end, HintRows(positions, totals[1..], end).value);
    }
  }

  lemma AllZeroIsZeros(s: seq<int>)
    requires AllZero(s)
    ensures s == Zeros(|s|)
  {}

  lemma HintRowsPrepend(positions: seq<int>, totals: seq<int>, last: nat, end: nat, rest: seq<Poly>)
    requires last <= end <= |positions| && totals != [] && totals[0] == end
    requires IsHint(Marked(positions[last..end])) && Indices(Marked(positions[last..end]), 0) == positions[last..end]
    requires AreHints(rest) && |Positions(rest)| <= |positions| - end && totals[1..] == Totals(rest, end)
    requires positions[end..] == Positions(rest) + Zeros(|positions| - end - |Positions(rest)|)
    ensures var h := [Marked(positions[last..end])] + rest;
            && AreHints(h)
            && |Positions(h)| <= |positions| - last
            && positions[last..] == Positions(h) + Zeros(|positions| - last - |Positions(h)|)
            && totals == Totals(h, last)
  {
    hide Indices, Marked, IsHint, Zeros;
    var row := positions[last..end];
    var h := [Marked(row)] + rest;
    assert h[0] == Marked(row) && h[1..] == rest;
    assert Positions(h) == row + Positions(rest);
    assert positions[last..] == row + positions[end..];
    assert totals == [totals[0]] + totals[1..];
  }

  lemma RowIsHint(row: seq<int>, positions: seq<int>, last: nat)
    requires Fits(positions, 8) && Rising(row) && last + |row| <= |positions|
    requires row == positions[last..last + |row|]
    ensures IsHint(Marked(row)) && Indices(Marked(row), 0) == row
  {
    RisingIncreasing(row);
    ByteSize();
    assert forall i :: 0 <= i < |row| ==> row[i] == positions[last + i];
    IndicesMarked(row);
  }

  /** Every decodable hint section is the encoding of what it decodes to. */
  lemma HintUnique(tail: seq<int>, omega: nat)
    requires |tail| >= omega && Fits(tail, 8) && HintDecode(tail, omega).Some?
    ensures var h := HintDecode(tail, omega).value;
            AreHints(h) && |Positions(h)| <= omega && HintEncode(h, omega) == tail
  {
    hide HintRows, Positions, AreHints, Totals, Fits;
    var h := HintDecode(tail, omega).value;
    FitsPrefix(tail, 8, omega);
    HintRowsUnique(tail[..omega], tail[omega..], 0);
    assert tail[..omega][0..] == tail[..omega];
    assert tail == tail[..omega] + tail[omega..];
  }

  // ----- polynomials packed by their distance from an offset

  function FromOffset(p: Poly, offset: int): Poly
  {
    seq(256, i requires 0 <= i < 256 => offset - ModPm(p[i]))
  }

  function ToOffset(xs: Poly, offset: int): Poly
  {
    seq(256, i requires 0 <= i < 256 => (offset - xs[i]) % Q)
  }

  /** _pack_poly_offset. */
  function OffsetPack(p: Poly, offset: int, w: nat): (r: seq<int>)
    ensures |r| == 32 * w
  {
    Pack(FromOffset(p, offset), w)
  }

  /** _unpack_poly_offset, for 256 coefficients. */
  function OffsetUnpack(data: seq<int>, offset: int, w: nat): Poly
  {
    ToOffset(Unpack(data, w, 256), offset)
  }

  /** Every centred coefficient lies in (offset - 2^w, offset]. */
  ghost predicate InWindow(p: Poly, offset: int, w: nat)
  {
    forall i :: 0 <= i < 256 ==> offset - Exp2(w) < ModPm(p[i]) <= offset
  }

  lemma ModPmCong(x: int)
    ensures ModPm(x) % Q == x % Q
  {}

  lemma OffsetRoundTrip(p: Poly, offset: int, w: nat)
    requires w >= 1 && InWindow(p, offset, w)
    ensures OffsetUnpack(OffsetPack(p, offset, w), offset, w) == ReducedQ(p)
  {
    hide Pack, Unpack, ModPm, Exp2;
    var xs := FromOffset(p, offset);
    assert Fits(xs, w);
    assert (256 * w) % 8 == 0;
    UnpackPack(xs, w);
    forall i | 0 <= i < 256 ensures (offset - xs[i]) % Q == p[i] % Q {
      ModPmCong(p[i]);
    }
  }

  lemma ModPmInverse(y: int)
    requires -(Q - 1) / 2 <= y <= (Q - 1) / 2
    ensures ModPm(y % Q) == y
  {}

  lemma OffsetUnique(data: seq<int>, offset: int, w: nat)
    requires w >= 1 && Fits(data, 8) && |data| == 32 * w
    requires offset <= (Q - 1) / 2 && Exp2(w) - offset <= (Q - 1) / 2 && offset >= 0
    ensures InWindow(OffsetUnpack(data, offset, w), offset, w)
    ensures OffsetPack(OffsetUnpack(data, offset, w), offset, w) == data
  {
    hide Unpack, Pack, ModPm, Exp2;
    var xs, p := Unpack(data, w, 256), OffsetUnpack(data, offset, w);
    UnpackFits(data, w, 256);
    forall i | 0 <= i < 256 ensures ModPm(p[i]) == offset - xs[i] {
      assert 0 <= xs[i] < Exp2(w);
      ModPmInverse(offset - xs[i]);
    }
    assert FromOffset(p, offset) == xs;
    PackUnpack(data, w, 256);
  }

  // ----- whole signatures

  datatype Signature = Signature(ctilde: seq<int>, z: seq<Poly>, h: seq<Poly>)

  function ZRows(p: Params, z: seq<Poly>): (rows: seq<seq<int>>)
    ensures |rows| == |z|
  {
    seq(|z|, i requires 0 <= i < |z| => OffsetPack(z[i], p.gamma1, p.ZBits()))
  }

  function SigEncode(p: Params, sig: Signature): seq<int>
  {
    sig.ctilde + Join(ZRows(p, sig.z)) + HintEncode(sig.h, p.omega)
  }

  function ZUnrows(p: Params, rows: seq<seq<int>>): (z: seq<Poly>)
    ensures |z| == |rows|
  {
    seq(|rows|, i requires 0 <= i < |rows| => OffsetUnpack(rows[i], p.gamma1, p.ZBits()))
  }

  function SigDecode(p: Params, data: seq<int>): Option<Signature>
  {
    MulNonNeg(p.ell, p.ZSize());
    var size := p.ell * p.ZSize();
    if |data| < p.ctilde + size + p.omega + p.k then None
    else
      var body := data[p.ctilde..];
      var tail := body[size..][..p.omega + p.k];
      match HintDecode(tail, p.omega)
      case None => None
      case Some(h) => Some(Signature(data[..p.ctilde], ZUnrows(p, Chunks(body, p.ZSize(), p.ell)), h))
  }

  /** What _sign_mu hands to the encoder: 256 coefficients a row, z in the window
      of gamma1, and at most omega hints. */
  ghost predicate WellFormed(p: Params, sig: Signature)
  {
    && |sig.ctilde| == p.ctilde
    && |sig.z| == p.ell && (forall i :: 0 <= i < p.ell ==> InWindow(sig.z[i], p.gamma1, p.ZBits()))
    && |sig.h| == p.k && AreHints(sig.h) && |Positions(sig.h)| <= p.omega
  }

  function Canonical(sig: Signature): Signature
  {
    sig.(z := seq(|sig.z|, i requires 0 <= i < |sig.z| => ReducedQ(sig.z[i])))
  }

  lemma ZRowsSized(p: Params, sig: Signature)
    requires WellFormed(p, sig)
    ensures AllSized(ZRows(p, sig.z), p.ZSize())
    ensures |Join(ZRows(p, sig.z))| == p.ell * p.ZSize()
  {
    forall i | 0 <= i < p.ell ensures |ZRows(p, sig.z)[i]| == p.ZSize() {
      assert InWindow(sig.z[i], p.gamma1, p.ZBits());
    }
    JoinSize(ZRows(p, sig.z), p.ZSize());
  }

  lemma SigDecodeParts(p: Params, c: seq<int>, zs: seq<int>, tail: seq<int>)
    requires |c| == p.ctilde && |zs| == p.ell * p.ZSize() && |tail| == p.omega + p.k
    ensures |zs + tail| >= p.ell * p.ZSize()
    ensures SigDecode(p, c + zs + tail)
         == (if HintDecode(tail, p.omega).None? then None
             else Some(Signature(c, ZUnrows(p, Chunks(zs + tail, p.ZSize(), p.ell)), HintDecode(tail, p.omega).value)))
  {
    hide HintDecode, Chunks, ZUnrows, Params.ZSize;
    var data := c + zs + tail;
    assert data[..p.ctilde] == c && data[p.ctilde..] == zs + tail;
    assert (zs + tail)[|zs|..][..p.omega + p.k] == tail;
  }

  /** _sig_decode undoes _sig_encode on every well-formed signature. */
  lemma SigRoundTrip(p: Params, sig: Signature)
    requires p.Known() && WellFormed(p, sig)
    ensures |SigEncode(p, sig)| == p.SigSize()
    ensures SigDecode(p, SigEncode(p, sig)) == Some(Canonical(sig))
  {
    hide HintEncode, HintDecode, InWindow, Positions, AreHints, Join, Chunks, SigDecode, Params.ZSize, Params.Known;
    var rows, hints := ZRows(p, sig.z), HintEncode(sig.h, p.omega);
    KnownSizes(p);
    ZRowsSized(p, sig);
    HintRoundTrip(sig.h, p.omega);
    ChunksJoin(rows, p.ZSize(), hints);
    SigDecodeParts(p, sig.ctilde, Join(rows), hints);
    forall i | 0 <= i < p.ell ensures ZUnrows(p, rows)[i] == ReducedQ(sig.z[i]) {
      OffsetRoundTrip(sig.z[i], p.gamma1, p.ZBits());
    }
    assert ZUnrows(p, rows) == Canonical(sig).z;
  }

  /** Every byte string of the right length that decodes is the encoding of what
      it decodes to, so no signature has two encodings. */
  lemma SigUnique(p: Params, data: seq<int>)
    requires p.Known() && Fits(data, 8) && |data| == p.SigSize() && SigDecode(p, data).Some?
    ensures WellFormed(p, SigDecode(p, data).value)
    ensures SigEncode(p, SigDecode(p, data).value) == data
  {
    hide HintEncode, HintDecode, InWindow, Positions, AreHints, Join, Chunks, SigDecode, Params.ZSize, Params.Known;
    KnownSizes(p);
    MulNonNeg(p.ell, p.ZSize());
    assert p.ZSize() * p.ell == p.ell * p.ZSize();
    var body, size := data[p.ctilde..], p.ell * p.ZSize();
    var zs, tail := body[..size], body[size..];
    assert data == data[..p.ctilde] + zs + tail && body == zs + tail;
    SigDecodeParts(p, data[..p.ctilde], zs, tail);
    JoinChunks(body, p.ZSize(), p.ell);
    FitsSlices(data, p.ctilde, size);
    HintUnique(tail, p.omega);
    RowsUnique(p, body);
    HintRowCount(tail, p.omega);
  }

  lemma HintRowCount(tail: seq<int>, omega: nat)
    requires |tail| >= omega && HintDecode(tail, omega).Some?
    ensures |HintDecode(tail, omega).value| == |tail| - omega
  {}

  lemma RowsUnique(p: Params, body: seq<int>)
    requires p.Known() && Fits(body, 8) && |body| >= p.ell * p.ZSize()
    ensures var rows := Chunks(body, p.ZSize(), p.ell);
            && ZRows(p, ZUnrows(p, rows)) == rows
            && forall i :: 0 <= i < p.ell ==> InWindow(ZUnrows(p, rows)[i], p.gamma1, p.ZBits())
  {
    hide InWindow, Chunks, OffsetPack, OffsetUnpack, Params.ZBits;
    KnownSizes(p);
    var rows := Chunks(body, p.ZSize(), p.ell);
    var z := ZUnrows(p, rows);
    forall i | 0 <= i < p.ell
      ensures InWindow(z[i], p.gamma1, p.ZBits()) && ZRows(p, z)[i] == rows[i]
    {
      ChunkFits(body, p.ZSize(), p.ell, i);
      OffsetUnique(rows[i], p.gamma1, p.ZBits());
    }
  }

  lemma FitsSlices(data: seq<int>, c: nat, size: nat)
    requires Fits(data, 8) && c + size <= |data|
    ensures Fits(data[c..], 8) && Fits(data[c..][size..], 8)
  {}

  lemma {:induction false} ChunkFits(data: seq<int>, size: nat, n: nat, i: nat)
    requires |data| >= n * size && Fits(data, 8) && i < n
    ensures Fits(Chunks(data, size, n)[i], 8) && |Chunks(data, size, n)[i]| == size
    decreases n
  {
    ChunkLeft(n, size);
    if i > 0 {
      ChunkFits(data[size..], size, n - 1, i - 1);
    }
  }
}
