/** Little-endian packing of fixed-width values into bytes, as done by _pack_bits
    and _unpack_bits (ML-DSA) and _byte_encode and _byte_decode (ML-KEM).

    A list of w-bit values and a byte string denote numbers; packing changes the
    digit width and keeps the number. */
module BitPack {
  import opened ModArith

  /** The number whose w-bit digits, least significant first, are ds. */
  function Number(ds: seq<int>, w: nat): int
  {
    if ds == [] then 0 else ds[0] + Exp2(w) * Number(ds[1..], w)
  }

  /** The low count digits of n, w bits each. */
  function Digits(n: int, w: nat, count: nat): (ds: seq<int>)
    ensures |ds| == count
    decreases count
  {
    if count == 0 then [] else [n % Exp2(w)] + Digits(n / Exp2(w), w, count - 1)
  }

  ghost predicate Fits(ds: seq<int>, w: nat)
  {
    forall i :: 0 <= i < |ds| ==> 0 <= ds[i] < Exp2(w)
  }

  lemma {:induction false} DigitsFit(n: int, w: nat, count: nat)
    ensures Fits(Digits(n, w, count), w)
    decreases count
  {
    if count > 0 {
      DigitsFit(n / Exp2(w), w, count - 1);
    }
  }

  lemma {:induction false} NumberAppend(x: seq<int>, y: seq<int>, w: nat)
    ensures w * |x| >= 0
    ensures Number(x + y, w) == Number(x, w) + Exp2(w * |x|) * Number(y, w)
    decreases |x|
  {
    if x == [] {
      assert x + y == y && w * 0 == 0;
    } else {
      assert (x + y)[1..] == x[1..] + y;
      NumberAppend(x[1..], y, w);
      assert w * |x| == w + w * (|x| - 1);
      Exp2Add(w, w * (|x| - 1));
      AppendStep(x[0], Exp2(w), Number(x[1..], w), Exp2(w * (|x| - 1)), Number(y, w));
    }
  }

  lemma AppendStep(a: int, b: int, n: int, e: int, m: int)
    ensures a + b * (n + e * m) == a + b * n + (b * e) * m
  {}

  lemma {:induction false} NumberBound(ds: seq<int>, w: nat)
    requires Fits(ds, w)
    ensures w * |ds| >= 0
    ensures 0 <= Number(ds, w) < Exp2(w * |ds|)
    decreases |ds|
  {
    if ds == [] {
      assert w * 0 == 0;
    } else {
      assert Fits(ds[1..], w) by {
        forall i | 0 <= i < |ds| - 1 ensures 0 <= ds[1..][i] < Exp2(w) { assert ds[1..][i] == ds[i + 1]; }
      }
      NumberBound(ds[1..], w);
      assert w * |ds| == w + w * (|ds| - 1);
      Exp2Add(w, w * (|ds| - 1));
      BoundStep(ds[0], Exp2(w), Number(ds[1..], w), Exp2(w * (|ds| - 1)));
    }
  }

  lemma BoundStep(d: int, e: int, n: int, f: int)
    requires 0 <= d < e && 0 <= n < f
    ensures 0 <= d + e * n < e * f
  {
    MulLe(n, f - 1, e);
    MulLe(0, n, e);
    assert (f - 1) * e == e * f - e;
  }

  /** Reading the digits of a number gives the digits it was built from; extra
      high digits are ignored. */
  lemma {:induction false} DigitsNumber(ds: seq<int>, w: nat, k: int)
    requires w >= 1 && Fits(ds, w)
    ensures w * |ds| >= 0
    ensures Digits(Number(ds, w) + k * Exp2(w * |ds|), w, |ds|) == ds
    decreases |ds|
  {
    if ds != [] {
      var e, n, rest := Exp2(w), |ds| - 1, ds[1..];
      assert Fits(rest, w) by {
        forall i | 0 <= i < |rest| ensures 0 <= rest[i] < Exp2(w) { assert rest[i] == ds[i + 1]; }
      }
      assert w * |ds| == w + w * n;
      Exp2Add(w, w * n);
      DigitsNumber(rest, w, k);
      LowDigit(ds[0], e, Number(rest, w), k, Exp2(w * n));
    }
  }

  lemma LowDigit(d: int, e: int, r: int, k: int, f: int)
    requires e >= 2 && 0 <= d < e
    ensures (d + e * r + k * (e * f)) % e == d
    ensures (d + e * r + k * (e * f)) / e == r + k * f
  {
    assert d + e * r + k * (e * f) == (r + k * f) * e + d;
    RemainderUnique(r + k * f, d, e);
  }

  /** A number is rebuilt from enough of its digits. */
  lemma {:induction false} NumberDigits(n: int, w: nat, count: nat)
    requires w >= 1 && 0 <= n && w * count >= 0 && n < Exp2(w * count)
    ensures Number(Digits(n, w, count), w) == n
    decreases count
  {
    if count == 0 {
      assert w * 0 == 0;
    } else {
      var e := Exp2(w);
      assert w * count == w + w * (count - 1);
      Exp2Add(w, w * (count - 1));
      QuotientBound(n, e, Exp2(w * (count - 1)));
      NumberDigits(n / e, w, count - 1);
      assert Digits(n, w, count)[1..] == Digits(n / e, w, count - 1);
    }
  }

  lemma QuotientBound(n: int, e: int, f: int)
    requires 0 <= n < e * f && e >= 1
    ensures 0 <= n / e < f
    ensures n == n % e + e * (n / e)
  {
    var k := n / e;
    assert n == e * k + n % e;
    if k >= f {
      MulLe(f, k, e);
    }
    if k < 0 {
      MulLe(k, -1, e);
    }
  }

  // ----- the packing functions

  /** The byte string denoting the same number as the w-bit values. */
  function Pack(values: seq<int>, w: nat): (out: seq<int>)
    ensures |out| == |values| * w / 8
  {
    MulNonNeg(|values|, w);
    Digits(Number(values, w), 8, |values| * w / 8)
  }

  function Unpack(data: seq<int>, w: nat, count: nat): (values: seq<int>)
    ensures |values| == count
  {
    Digits(Number(data, 8), w, count)
  }

  lemma MulNonNeg(a: nat, b: nat)
    ensures a * b >= 0
  {}

  lemma UnpackFits(data: seq<int>, w: nat, count: nat)
    ensures Fits(Unpack(data, w, count), w)
  {
    DigitsFit(Number(data, 8), w, count);
  }

  /** Whole bytes: unpacking undoes packing. */
  lemma UnpackPack(values: seq<int>, w: nat)
    requires w >= 1 && Fits(values, w) && (|values| * w) % 8 == 0
    ensures Unpack(Pack(values, w), w, |values|) == values
  {
    var n, len := Number(values, w), |values| * w / 8;
    NumberBound(values, w);
    MulNonNeg(|values|, w);
    assert 8 * len == w * |values|;
    NumberDigits(n, 8, len);
    DigitsNumber(values, w, 0);
  }

  /** Whole bytes: packing undoes unpacking, so the encoding is unique. */
  lemma PackUnpack(data: seq<int>, w: nat, count: nat)
    requires w >= 1 && Fits(data, 8) && count * w == 8 * |data|
    ensures Pack(Unpack(data, w, count), w) == data
  {
    var n := Number(data, 8);
    NumberBound(data, 8);
    assert w * count == 8 * |data|;
    NumberDigits(n, w, count);
    DigitsNumber(data, 8, 0);
  }

  // ----- the accumulator loops

  /** What the loops have consumed so far: the written digits, then acc, stand for
      the number of the digits read. */
  lemma PackStep(values: seq<int>, i: nat, w: nat, done: int, acc: int, nacc: nat, pos: nat)
    requires i < |values| && 0 <= values[i] < Exp2(w)
    requires 8 * pos + nacc == w * i
    requires 0 <= acc < Exp2(nacc)
    requires Number(values[..i], w) == done + acc * Exp2(8 * pos)
    ensures w * (i + 1) == w * i + w
    ensures Number(values[..i + 1], w) == done + (acc + values[i] * Exp2(nacc)) * Exp2(8 * pos)
    ensures 0 <= acc + values[i] * Exp2(nacc) < Exp2(nacc + w)
  {
    var v := values[i];
    assert values[..i + 1] == values[..i] + [v];
    NumberAppend(values[..i], [v], w);
    OneDigit(v, w);
    Exp2Add(nacc, 8 * pos);
    Exp2Add(nacc, w);
    PackStepArith(acc, v, Exp2(nacc), Exp2(8 * pos), Exp2(w));
  }

  lemma OneDigit(v: int, w: nat)
    ensures Number([v], w) == v
  {
    assert Number([v][1..], w) == 0;
  }

  lemma PackStepArith(acc: int, v: int, e: int, p: int, b: int)
    requires 0 <= acc < e && 0 <= v < b && e >= 1
    ensures (acc + v * e) * p == acc * p + (e * p) * v
    ensures 0 <= acc + v * e < e * b
  {
    MulLe(v, b - 1, e);
    MulLe(0, v, e);
    assert (b - 1) * e == e * b - e;
  }

  /** Moving one low digit of acc to the output. */
  lemma EmitStep(acc: int, nacc: nat, w: nat)
    requires 0 <= acc < Exp2(nacc) && nacc >= w
    ensures acc == acc % Exp2(w) + Exp2(w) * (acc / Exp2(w))
    ensures 0 <= acc / Exp2(w) < Exp2(nacc - w)
    ensures 0 <= acc % Exp2(w) < Exp2(w)
  {
    Exp2Add(w, nacc - w);
    QuotientBound(acc, Exp2(w), Exp2(nacc - w));
  }

  lemma EmitNumber(out: seq<int>, pos: nat, w: nat, acc: int)
    requires pos < |out| && acc == out[pos] + Exp2(w) * (acc / Exp2(w))
    ensures w * pos >= 0 && w * (pos + 1) >= 0
    ensures Number(out[..pos + 1], w) + (acc / Exp2(w)) * Exp2(w * (pos + 1))
         == Number(out[..pos], w) + acc * Exp2(w * pos)
  {
    hide Exp2, Number;
    assert out[..pos + 1] == out[..pos] + [out[pos]];
    NumberAppend(out[..pos], [out[pos]], w);
    OneDigit(out[pos], w);
    assert w * (pos + 1) == w * pos + w;
    Exp2Add(w * pos, w);
    EmitArith(out[pos], Exp2(w), acc / Exp2(w), Exp2(w * pos));
  }

  lemma EmitArith(d: int, e: int, k: int, p: int)
    ensures p * d + k * (p * e) == (d + e * k) * p
  {}

  lemma ByteSize()
    ensures Exp2(8) == 256
  {
    assert Exp2(4) == 16;
    Exp2Add(4, 4);
  }

  lemma StartState(ds: seq<int>, w: nat)
    ensures Exp2(0) == 1 && ds[..0] == [] && forall w' :: Number([], w') == 0 && Fits([], w')
  {}

  lemma FitsPrefix(ds: seq<int>, w: nat, n: nat)
    requires Fits(ds, w) && n <= |ds|
    ensures Fits(ds[..n], w)
  {}

  lemma FitsSuffix(ds: seq<int>, w: nat, n: nat)
    requires Fits(ds, w) && n <= |ds|
    ensures Fits(ds[n..], w)
  {}

  lemma FitsConcat(a: seq<int>, b: seq<int>, w: nat)
    requires Fits(a, w) && Fits(b, w)
    ensures Fits(a + b, w)
  {}

  lemma FitsSnoc(ds: seq<int>, w: nat, i: nat)
    requires i < |ds| && Fits(ds[..i], w) && 0 <= ds[i] < Exp2(w)
    ensures Fits(ds[..i + 1], w)
  {
    assert ds[..i + 1] == ds[..i] + [ds[i]];
  }

  /** The state of the packing loops: i values read, pos bytes written, nacc bits
      waiting in acc. */
  ghost predicate Packing(values: seq<int>, w: nat, i: nat, out: seq<int>, acc: int, nacc: nat, pos: nat)
  {
    && i <= |values| && pos <= |out|
    && 8 * pos + nacc == w * i
    && 0 <= acc < Exp2(nacc)
    && Number(values[..i], w) == Number(out[..pos], 8) + acc * Exp2(8 * pos)
    && Fits(out[..pos], 8)
  }

  lemma PackingStart(values: seq<int>, w: nat, out: seq<int>)
    ensures Packing(values, w, 0, out, 0, 0, 0)
  {
    assert Number([], w) == 0 && Number([], 8) == 0 && values[..0] == [] && out[..0] == [];
  }

  lemma PackingPush(values: seq<int>, w: nat, i: nat, out: seq<int>, acc: int, nacc: nat, pos: nat)
    requires Packing(values, w, i, out, acc, nacc, pos) && i < |values| && Fits(values, w)
    ensures Packing(values, w, i + 1, out, acc + values[i] * Exp2(nacc), nacc + w, pos)
  {
    hide Number, Exp2;
    PackStep(values, i, w, Number(out[..pos], 8), acc, nacc, pos);
  }

  lemma PackingEmit(values: seq<int>, w: nat, i: nat, out: seq<int>, acc: int, nacc: nat, pos: nat)
    requires Packing(values, w, i, out, acc, nacc, pos) && nacc >= 8 && w * |values| < 8 * |out| + 8
    ensures pos < |out|
    ensures Packing(values, w, i, out[pos := acc % 256], acc / 256, nacc - 8, pos + 1)
  {
    MulLe(i, |values|, w);
    assert w * i == i * w && w * |values| == |values| * w;
    ByteSize();
    hide Number, Exp2, Fits;
    var next := out[pos := acc % 256];
    assert next[..pos] == out[..pos];
    EmitStep(acc, nacc, 8);
    EmitNumber(next, pos, 8, acc);
    FitsSnoc(next, 8, pos);
  }

  lemma PackingDone(values: seq<int>, w: nat, out: seq<int>, acc: int, nacc: nat, pos: nat)
    requires Packing(values, w, |values|, out, acc, nacc, pos) && nacc < 8
    requires |out| == w * |values| / 8
    ensures out == Pack(values, w)
  {
    assert pos == |out| && |values| * w == w * |values|;
    assert values[..|values|] == values && out[..pos] == out;
    hide Number, Digits, Exp2;
    DigitsNumber(out, 8, acc);
  }

  /** _pack_bits and _byte_encode.  The bits of acc and of v << nacc are disjoint,
      so the or of the source is a sum.  Bits beyond the last whole byte are dropped. */
  method PackBits(values: seq<int>, bits: nat) returns (out: seq<int>)
    requires Fits(values, bits)
    ensures out == Pack(values, bits)
  {
    hide Packing, Exp2, Pack, Fits;
    MulNonNeg(|values|, bits);
    var buf := new int[|values| * bits / 8](i => 0);
    var acc, nacc: nat, pos: nat := 0, 0, 0;
    assert bits * |values| == |values| * bits;
    PackingStart(values, bits, buf[..]);
    for i := 0 to |values|
      invariant nacc < 8 && Packing(values, bits, i, buf[..], acc, nacc, pos)
    {
      PackingPush(values, bits, i, buf[..], acc, nacc, pos);
      acc := acc + values[i] * Exp2(nacc);
      nacc := nacc + bits;
      while nacc >= 8
        invariant Packing(values, bits, i + 1, buf[..], acc, nacc, pos)
      {
        PackingEmit(values, bits, i + 1, buf[..], acc, nacc, pos);
        buf[pos] := acc % 256;
        acc := acc / 256;
        nacc := nacc - 8;
        pos := pos + 1;
      }
    }
    PackingDone(values, bits, buf[..], acc, nacc, pos);
    out := buf[..];
  }

  lemma ReadStep(data: seq<int>, pos: nat, done: int, acc: int, nacc: nat, read: nat)
    requires pos < |data| && 0 <= data[pos] < 256
    requires 8 * pos == read + nacc && 0 <= acc < Exp2(nacc)
    requires Number(data[..pos], 8) == done + acc * Exp2(read)
    ensures Number(data[..pos + 1], 8) == done + (acc + data[pos] * Exp2(nacc)) * Exp2(read)
    ensures 0 <= acc + data[pos] * Exp2(nacc) < Exp2(nacc + 8)
  {
    var v := data[pos];
    assert data[..pos + 1] == data[..pos] + [v];
    NumberAppend(data[..pos], [v], 8);
    OneDigit(v, 8);
    ByteSize();
    Exp2Add(nacc, read);
    Exp2Add(nacc, 8);
    PackStepArith(acc, v, Exp2(nacc), Exp2(read), 256);
  }

  /** The state of the unpacking loops: pos bytes read, nacc bits waiting in acc. */
  ghost predicate Unpacking(data: seq<int>, w: nat, values: seq<int>, acc: int, nacc: nat, pos: nat)
  {
    && pos <= |data| && w * |values| >= 0 && 8 * pos == w * |values| + nacc
    && 0 <= acc < Exp2(nacc)
    && Fits(values, w)
    && Number(data[..pos], 8) == Number(values, w) + acc * Exp2(w * |values|)
  }

  lemma UnpackingStart(data: seq<int>, w: nat)
    ensures Unpacking(data, w, [], 0, 0, 0)
  {
    StartState(data, 8);
  }

  lemma UnpackingRead(data: seq<int>, w: nat, values: seq<int>, acc: int, nacc: nat, pos: nat, count: nat)
    requires Unpacking(data, w, values, acc, nacc, pos) && Fits(data, 8)
    requires nacc < w && |values| < count && count * w <= 8 * |data|
    ensures pos < |data|
    ensures Unpacking(data, w, values, acc + data[pos] * Exp2(nacc), nacc + 8, pos + 1)
  {
    ByteSize();
    MulLe(|values| + 1, count, w);
    assert (|values| + 1) * w == w * |values| + w;
    hide Exp2, Number;
    ReadStep(data, pos, Number(values, w), acc, nacc, w * |values|);
  }

  lemma UnpackingEmit(data: seq<int>, w: nat, values: seq<int>, acc: int, nacc: nat, pos: nat)
    requires Unpacking(data, w, values, acc, nacc, pos) && nacc >= w
    ensures Unpacking(data, w, values + [acc % Exp2(w)], acc / Exp2(w), nacc - w, pos)
  {
    hide Exp2, Number, Fits;
    var i, next := |values|, values + [acc % Exp2(w)];
    EmitStep(acc, nacc, w);
    assert next[..i] == values && next[..i + 1] == next;
    EmitNumber(next, i, w, acc);
    FitsSnoc(next, w, i);
    assert w * (i + 1) == w * i + w;
  }

  /** _unpack_bits and _byte_decode, for the number of values they produce. */
  method UnpackBits(data: seq<int>, bits: nat, count: nat) returns (values: seq<int>)
    requires bits >= 1 && Fits(data, 8) && count * bits <= 8 * |data|
    ensures values == Unpack(data, bits, count)
  {
    values := [];
    var acc, nacc: nat, pos: nat := 0, 0, 0;
    UnpackingStart(data, bits);
    hide Unpacking, Exp2, Fits;
    for i := 0 to count
      invariant |values| == i && Unpacking(data, bits, values, acc, nacc, pos)
    {
      while nacc < bits
        invariant Unpacking(data, bits, values, acc, nacc, pos)
      {
        UnpackingRead(data, bits, values, acc, nacc, pos, count);
        acc := acc + data[pos] * Exp2(nacc);
        nacc := nacc + 8;
        pos := pos + 1;
      }
      UnpackingEmit(data, bits, values, acc, nacc, pos);
      values := values + [acc % Exp2(bits)];
      acc := acc / Exp2(bits);
      nacc := nacc - bits;
    }
    UnpackDone(data, values, bits, acc, nacc, pos);
  }

  lemma EmitArith2(acc: int, f: int, rest: int, e: int)
    ensures acc * e + (f * e) * rest == (acc + f * rest) * e
  {}

  lemma UnpackDone(data: seq<int>, values: seq<int>, bits: nat, acc: int, nacc: nat, pos: nat)
    requires bits >= 1 && Unpacking(data, bits, values, acc, nacc, pos)
    ensures values == Unpack(data, bits, |values|)
  {
    hide Exp2, Number, Digits;
    assert data == data[..pos] + data[pos..];
    NumberAppend(data[..pos], data[pos..], 8);
    var rest := Number(data[pos..], 8);
    Exp2Add(nacc, bits * |values|);
    var e, f := Exp2(bits * |values|), Exp2(nacc);
    EmitArith2(acc, f, rest, e);
    DigitsNumber(values, bits, acc + f * rest);
  }

  // ----- rows of equal size

  function Join(rows: seq<seq<int>>): seq<int>
  {
    if rows == [] then [] else rows[0] + Join(rows[1..])
  }

  /** The first n slices of the given size. */
  function Chunks(data: seq<int>, size: nat, n: nat): (rows: seq<seq<int>>)
    requires |data| >= n * size
    ensures |rows| == n
    decreases n
  {
    if n == 0 then []
    else
      ChunkLeft(n, size);
      [data[..size]] + Chunks(data[size..], size, n - 1)
  }

  lemma ChunkLeft(n: nat, size: nat)
    requires n >= 1
    ensures n * size == size + (n - 1) * size && (n - 1) * size >= 0
  {}

  ghost predicate AllSized(rows: seq<seq<int>>, size: nat)
  {
    forall i :: 0 <= i < |rows| ==> |rows[i]| == size
  }

  lemma {:induction false} JoinSize(rows: seq<seq<int>>, size: nat)
    requires AllSized(rows, size)
    ensures |Join(rows)| == |rows| * size
    decreases |rows|
  {
    if rows != [] {
      ChunkLeft(|rows|, size);
      JoinSize(rows[1..], size);
    }
  }

  lemma {:induction false} ChunksJoin(rows: seq<seq<int>>, size: nat, rest: seq<int>)
    requires AllSized(rows, size)
    ensures |Join(rows) + rest| >= |rows| * size
    ensures Chunks(Join(rows) + rest, size, |rows|) == rows
    decreases |rows|
  {
    JoinSize(rows, size);
    if rows != [] {
      ChunkLeft(|rows|, size);
      ChunksJoin(rows[1..], size, rest);
      var data := Join(rows) + rest;
      assert data == rows[0] + (Join(rows[1..]) + rest);
      assert data[..size] == rows[0] && data[size..] == Join(rows[1..]) + rest;
    }
  }

  lemma {:induction false} JoinChunks(data: seq<int>, size: nat, n: nat)
    requires |data| >= n * size && n * size >= 0
    ensures AllSized(Chunks(data, size, n), size)
    ensures Join(Chunks(data, size, n)) == data[..n * size]
    decreases n
  {
    if n > 0 {
      ChunkLeft(n, size);
      JoinChunks(data[size..], size, n - 1);
      var rest := Chunks(data[size..], size, n - 1);
      assert Chunks(data, size, n)[1..] == rest;
      assert data[..n * size] == data[..size] + data[size..][..(n - 1) * size];
    }
  }

  // ----- lists of packed rows

  function PackAll(ps: seq<seq<int>>, w: nat): (rows: seq<seq<int>>)
    ensures |rows| == |ps|
  {
    seq(|ps|, i requires 0 <= i < |ps| => Pack(ps[i], w))
  }

  function UnpackAll(rows: seq<seq<int>>, w: nat): (ps: seq<seq<int>>)
    ensures |ps| == |rows| && forall i :: 0 <= i < |ps| ==> |ps[i]| == 256
  {
    seq(|rows|, i requires 0 <= i < |rows| => Unpack(rows[i], w, 256))
  }

  ghost predicate AllFit(ps: seq<seq<int>>, w: nat)
  {
    forall i :: 0 <= i < |ps| ==> |ps[i]| == 256 && Fits(ps[i], w)
  }

  /** Packed rows come back from the start of a longer string. */
  lemma RowsRoundTrip(ps: seq<seq<int>>, w: nat, rest: seq<int>)
    requires w >= 1 && AllFit(ps, w)
    ensures |Join(PackAll(ps, w))| == |ps| * (32 * w)
    ensures |Join(PackAll(ps, w)) + rest| >= |ps| * (32 * w)
    ensures UnpackAll(Chunks(Join(PackAll(ps, w)) + rest, 32 * w, |ps|), w) == ps
  {
    hide Join, Chunks, Pack, Unpack, Fits;
    var rows := PackAll(ps, w);
    assert AllSized(rows, 32 * w);
    JoinSize(rows, 32 * w);
    ChunksJoin(rows, 32 * w, rest);
    forall i | 0 <= i < |ps| ensures UnpackAll(rows, w)[i] == ps[i] {
      UnpackPack(ps[i], w);
    }
  }
}
