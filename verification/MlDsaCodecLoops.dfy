/** The loops of _sig_encode and _sig_decode, proved against the encoding
    functions of MlDsaCodec. */
module MlDsaCodecLoops {
  import opened ModArith
  import opened MlDsaRounding
  import opened BitPack
  import opened Options
  import opened MlDsaCodec

  /** The list comprehension of _sig_encode over one hint polynomial. */
  method CollectIndices(p: Poly) returns (idx: seq<int>)
    ensures idx == Indices(p, 0)
  {
    idx := [];
    for i := 0 to |p|
      invariant idx + Indices(p, i) == Indices(p, 0)
    {
      if p[i] % Q != 0 {
        idx := idx + [i];
      }
    }
  }

  lemma {:induction false} PositionsSnoc(h: seq<Poly>, p: Poly)
    ensures Positions(h + [p]) == Positions(h) + Indices(p, 0)
    decreases |h|
  {
    if h == [] {
      assert h + [p] == [p] && [p][1..] == [];
    } else {
      assert (h + [p])[1..] == h[1..] + [p];
      PositionsSnoc(h[1..], p);
    }
  }

  lemma {:induction false} JoinSnoc(rows: seq<seq<int>>, row: seq<int>)
    ensures Join(rows + [row]) == Join(rows) + row
    decreases |rows|
  {
    if rows == [] {
      assert rows + [row] == [row] && [row][1..] == [];
    } else {
      assert (rows + [row])[1..] == rows[1..] + [row];
      JoinSnoc(rows[1..], row);
    }
  }

  function Counts(h: seq<Poly>): (r: seq<int>)
    ensures |r| == |h|
  {
    seq(|h|, i requires 0 <= i < |h| => |Indices(h[i], 0)|)
  }

  lemma {:induction false} TotalsSnoc(h: seq<Poly>, p: Poly, acc: int)
    ensures var before := Totals(h, acc);
            Totals(h + [p], acc) == before + [(if h == [] then acc else before[|h| - 1]) + |Indices(p, 0)|]
    decreases |h|
  {
    if h == [] {
      assert h + [p] == [p] && [p][1..] == [];
    } else {
      var total := acc + |Indices(h[0], 0)|;
      assert (h + [p])[1..] == h[1..] + [p];
      TotalsSnoc(h[1..], p, total);
    }
  }

  method EncodeHints(h: seq<Poly>, omega: nat) returns (positions: seq<int>, tail: seq<int>)
    ensures positions == Positions(h) + Zeros(omega - |Positions(h)|)
    ensures tail == Totals(h, 0)
  {
    positions := [];
    var counts := [];
    for i := 0 to |h|
      invariant positions == Positions(h[..i]) && counts == Counts(h[..i])
    {
      var idx := CollectIndices(h[i]);
      assert h[..i + 1] == h[..i] + [h[i]];
      PositionsSnoc(h[..i], h[i]);
      positions := positions + idx;
      counts := counts + [|idx|];
    }
    assert h[..|h|] == h;
    positions := positions + Zeros(omega - |positions|);
    var acc := 0;
    tail := [];
    for i := 0 to |counts|
      invariant tail == Totals(h[..i], 0)
      invariant acc == if i == 0 then 0 else tail[i - 1]
    {
      assert h[..i + 1] == h[..i] + [h[i]];
      TotalsSnoc(h[..i], h[i], 0);
      acc := acc + counts[i];
      tail := tail + [acc];
    }
  }

  /** The first loop of _sig_encode. */
  method EncodeRows(p: Params, sig: Signature) returns (out: seq<int>)
    requires p.Known() && WellFormed(p, sig)
    ensures out == Join(ZRows(p, sig.z))
  {
    hide Params.Known, WellFormed, Join, Pack, FromOffset;
    out := [];
    var rows := ZRows(p, sig.z);
    JoinNothing();
    assert |sig.z| == p.ell by { RowCount(p, sig); }
    for i := 0 to |sig.z|
      invariant out == Join(rows[..i])
    {
      var xs := FromOffset(sig.z[i], p.gamma1);
      RowFits(p, sig, i);
      var row := PackBits(xs, p.ZBits());
      assert rows[..i + 1] == rows[..i] + [row];
      JoinSnoc(rows[..i], row);
      out := out + row;
    }
    assert rows[..|sig.z|] == rows;
  }

  lemma JoinNothing()
    ensures Join([]) == []
  {}

  lemma RowCount(p: Params, sig: Signature)
    requires WellFormed(p, sig)
    ensures |sig.z| == p.ell
  {}

  /** _sig_encode. */
  method EncodeSignature(p: Params, sig: Signature) returns (out: seq<int>)
    requires p.Known() && WellFormed(p, sig)
    ensures out == SigEncode(p, sig)
  {
    hide Params.Known, WellFormed, Join, Positions, Totals, ZRows;
    var rows := EncodeRows(p, sig);
    var positions, tail := EncodeHints(sig.h, p.omega);
    out := sig.ctilde + rows + (positions + tail);
  }

  lemma RowFits(p: Params, sig: Signature, i: nat)
    requires p.Known() && WellFormed(p, sig) && i < p.ell
    ensures |sig.z[i]| == 256
    ensures Fits(FromOffset(sig.z[i], p.gamma1), p.ZBits())
    ensures (256 * p.ZBits()) % 8 == 0
  {
    KnownSizes(p);
    assert InWindow(sig.z[i], p.gamma1, p.ZBits());
  }

  // ----- decoding

  lemma {:induction false} RisingSnoc(s: seq<int>, x: int)
    ensures Rising(s + [x]) <==> Rising(s) && (s == [] || s[|s| - 1] < x)
    decreases |s|
  {
    if |s| >= 1 {
      assert (s + [x])[1..] == s[1..] + [x];
      RisingSnoc(s[1..], x);
    }
  }

  /** A list with a non-rising prefix is not rising. */
  lemma {:induction false} RisingPrefix(s: seq<int>, n: nat)
    requires n <= |s| && Rising(s)
    ensures Rising(s[..n])
    decreases |s|
  {
    if n >= 2 {
      RisingPrefix(s[1..], n - 1);
      assert s[..n][1..] == s[1..][..n - 1];
    }
  }

  /** The inner loop of _sig_decode: checks and marks one row of positions. */
  method DecodeRow(positions: seq<int>, last: nat, end: nat) returns (r: Option<Poly>)
    requires last <= end <= |positions| && Fits(positions, 8)
    ensures r == if Rising(positions[last..end]) then Some(Marked(positions[last..end])) else None
  {
    var row: Poly := seq(256, i => 0);
    var seen := -1;
    ByteSize();
    assert row == Marked([]);
    assert positions[last..last] == [];
    for j := last to end
      invariant Rising(positions[last..j])
      invariant row == Marked(positions[last..j])
      invariant seen == if j == last then -1 else positions[j - 1]
    {
      var idx := positions[j];
      assert positions[last..j + 1] == positions[last..j] + [idx];
      RisingSnoc(positions[last..j], idx);
      if idx <= seen {
        assert positions[last..end][..j + 1 - last] == positions[last..j + 1];
        if Rising(positions[last..end]) {
          RisingPrefix(positions[last..end], j + 1 - last);
        }
        return None;
      }
      seen := idx;
      row := row[idx := 1];
      assert row == Marked(positions[last..j + 1]);
    }
    r := Some(row);
  }

  /** The hint section of _sig_decode. */
  method DecodeHints(tail: seq<int>, k: nat, omega: nat) returns (r: Option<seq<Poly>>)
    requires |tail| == omega + k && Fits(tail, 8)
    ensures r == HintDecode(tail, omega)
  {
    var h: seq<Poly> := [];
    var last := 0;
    var positions, totals := tail[..omega], tail[omega..];
    assert Fits(positions, 8);
    assert totals[0..] == totals;
    PrependNothing(HintRows(positions, totals, 0));
    for i := 0 to k
      invariant 0 <= last <= omega && |h| == i
      invariant HintDecode(tail, omega) == Prepend(h, HintRows(positions, totals[i..], last))
    {
      var end := tail[omega + i];
      assert totals[i..][0] == end && totals[i..][1..] == totals[i + 1..];
      if end < last || end > omega {
        return None;
      }
      var row := DecodeRow(positions, last, end);
      if row.None? {
        return None;
      }
      PrependMore(h, row.value, HintRows(positions, totals[i + 1..], end));
      h := h + [row.value];
      last := end;
    }
    assert totals[k..] == [];
    for j := last to omega
      invariant AllZero(positions[last..j])
    {
      if tail[j] != 0 {
        assert positions[last..][j - last] == tail[j];
        return None;
      }
      assert positions[last..j + 1] == positions[last..j] + [tail[j]];
    }
    assert positions[last..omega] == positions[last..];
    assert h + [] == h;
    r := Some(h);
  }

  function Prepend(h: seq<Poly>, r: Option<seq<Poly>>): Option<seq<Poly>>
  {
    if r.None? then None else Some(h + r.value)
  }

  lemma PrependNothing(r: Option<seq<Poly>>)
    ensures Prepend([], r) == r
  {
    if r.Some? {
      assert [] + r.value == r.value;
    }
  }

  lemma PrependMore(h: seq<Poly>, p: Poly, r: Option<seq<Poly>>)
    ensures Prepend(h, Prepend([p], r)) == Prepend(h + [p], r)
  {
    if r.Some? {
      assert h + ([p] + r.value) == h + [p] + r.value;
    }
  }

  /** The first loop of _sig_decode, over the slices of the z section. */
  method DecodeRows(p: Params, rows: seq<seq<int>>) returns (z: seq<Poly>)
    requires p.ZBits() >= 1 && AllSized(rows, p.ZSize())
    requires forall i :: 0 <= i < |rows| ==> Fits(rows[i], 8)
    ensures z == ZUnrows(p, rows)
  {
    hide Unpack, Params.ZBits, ToOffset;
    z := [];
    for i := 0 to |rows|
      invariant z == ZUnrows(p, rows[..i])
    {
      var xs := UnpackBits(rows[i], p.ZBits(), 256);
      z := z + [ToOffset(xs, p.gamma1)];
      assert rows[..i + 1] == rows[..i] + [rows[i]];
    }
    assert rows[..|rows|] == rows;
  }

  lemma SlicesFit(p: Params, body: seq<int>)
    requires p.Known() && Fits(body, 8) && |body| >= p.ell * p.ZSize()
    ensures p.ZBits() >= 1
    ensures var rows := Chunks(body, p.ZSize(), p.ell);
            AllSized(rows, p.ZSize()) && forall i :: 0 <= i < |rows| ==> Fits(rows[i], 8)
  {
    hide Chunks, Params.ZBits, Exp2, Fits;
    KnownSizes(p);
    forall i | 0 <= i < p.ell
      ensures var row := Chunks(body, p.ZSize(), p.ell)[i]; |row| == p.ZSize() && Fits(row, 8)
    {
      ChunkFits(body, p.ZSize(), p.ell, i);
    }
  }

  /** _sig_decode. */
  method DecodeSignature(p: Params, data: seq<int>) returns (r: Option<Signature>)
    requires p.Known() && Fits(data, 8)
    ensures r == SigDecode(p, data)
  {
    hide Params.Known, Chunks, ZUnrows, Params.ZSize, HintDecode;
    MulNonNeg(p.ell, p.ZSize());
    var size := p.ell * p.ZSize();
    if |data| < p.ctilde + size + p.omega + p.k {
      return None;
    }
    var body := data[p.ctilde..];
    FitsSlices(data, p.ctilde, size);
    SlicesFit(p, body);
    var z := DecodeRows(p, Chunks(body, p.ZSize(), p.ell));
    var tail := body[size..][..p.omega + p.k];
    var h := DecodeHints(tail, p.k, p.omega);
    if h.None? {
      return None;
    }
    r := Some(Signature(data[..p.ctilde], z, h.value));
  }
}
