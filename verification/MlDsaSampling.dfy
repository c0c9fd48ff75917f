/** The samplers of ML-DSA, reading a byte stream.

    The Python loops read a SHAKE stream for as long as they reject.  Here a
    sampler reads a finite prefix of the stream and answers None when the prefix
    is used up; a longer prefix never changes an answer.  The methods run the loops on
    the incremental reader, up to a number of bytes. */
module MlDsaSampling {
  import opened ModArith
  import opened BitPack
  import opened MlDsaRounding
  import opened Options
  import opened MlDsaCodec
  import opened MlDsaRing
  import opened NttProduct
  import opened Xof

  // ----- rejection sampling

  /** _rej_ntt_poly: three bytes a candidate, 23 bits kept. */
  function RejNtt(stream: seq<int>, coeffs: seq<int>): (r: Option<Poly>)
    requires |coeffs| <= 256
    decreases |stream|
  {
    if |coeffs| == 256 then Some(coeffs)
    else if |stream| < 3 then None
    else
      var t := (stream[0] + 256 * stream[1] + 65536 * stream[2]) % 8388608;
      RejNtt(stream[3..], if t < Q then coeffs + [t] else coeffs)
  }

  /** A longer prefix of the stream gives the same polynomial. */
  lemma {:induction false} RejNttStable(stream: seq<int>, more: seq<int>, coeffs: seq<int>)
    requires |coeffs| <= 256 && RejNtt(stream, coeffs).Some?
    ensures RejNtt(stream + more, coeffs) == RejNtt(stream, coeffs)
    decreases |stream|
  {
    if |coeffs| < 256 {
      assert (stream + more)[3..] == stream[3..] + more;
      var t := (stream[0] + 256 * stream[1] + 65536 * stream[2]) % 8388608;
      RejNttStable(stream[3..], more, if t < Q then coeffs + [t] else coeffs);
    }
  }

  /** The 23-bit values of a stream, one for every three bytes. */
  function Values23(stream: seq<int>): (r: seq<int>)
    ensures |r| == |stream| / 3
  {
    seq(|stream| / 3, i requires 0 <= i < |stream| / 3 =>
      (stream[3 * i] + 256 * stream[3 * i + 1] + 65536 * stream[3 * i + 2]) % 8388608)
  }

  /** The polynomial is the first 256 of the 23-bit values below q. */
  lemma {:induction false} RejNttIs(stream: seq<int>, coeffs: seq<int>)
    requires |coeffs| <= 256
    ensures RejNtt(stream, coeffs) == FirstOf(coeffs + Below(Values23(stream), Q), 256)
    decreases |stream|
  {
    if |coeffs| < 256 && |stream| >= 3 {
      var t := (stream[0] + 256 * stream[1] + 65536 * stream[2]) % 8388608;
      var next := if t < Q then coeffs + [t] else coeffs;
      RejNttIs(stream[3..], next);
      hide Values23, Below, FirstOf;
      FirstValue23(stream);
      BelowCons(t, Values23(stream[3..]), Q);
      assert coeffs + Below(Values23(stream), Q) == next + Below(Values23(stream[3..]), Q);
    }
  }

  lemma FirstValue23(stream: seq<int>)
    requires |stream| >= 3
    ensures Values23(stream)
         == [(stream[0] + 256 * stream[1] + 65536 * stream[2]) % 8388608] + Values23(stream[3..])
  {
    assert |stream[3..]| / 3 == |stream| / 3 - 1;
  }

  /** The loop of _rej_ntt_poly, reading at most limit bytes. */
  method RejNttPoly(reader: XofReader, limit: nat) returns (r: Option<Poly>)
    requires reader.Valid() && reader.off == 0
    modifies reader
    ensures r == RejNtt(reader.digest(limit), [])
  {
    var coeffs: seq<int> := [];
    assert reader.digest(limit)[0..] == reader.digest(limit);
    while |coeffs| < 256
      invariant reader.Valid() && reader.off <= limit == |reader.digest(limit)| && |coeffs| <= 256
      invariant RejNtt(reader.digest(limit)[reader.off..], coeffs) == RejNtt(reader.digest(limit), [])
      decreases limit - reader.off
    {
      if reader.off + 3 > limit {
        return None;
      }
      ghost var rest := reader.digest(limit)[reader.off..];
      RestOfPrefix(reader.digest, reader.off, 3, limit);
      var b := reader.Read(3);
      assert rest[..3] == b && rest[3..] == reader.digest(limit)[reader.off..];
      var t := (b[0] + 256 * b[1] + 65536 * b[2]) % 8388608;
      if t < Q {
        coeffs := coeffs + [t];
      }
    }
    r := Some(coeffs);
  }

  /** The coefficients one half-byte contributes in _rej_bounded_poly. */
  function Candidate(cand: int, eta: nat): (r: seq<int>)
    ensures |r| <= 1
  {
    if eta == 2 then (if cand < 15 then [2 - (cand - (205 * cand / 1024) * 5)] else [])
    else if cand < 9 then [4 - cand] else []
  }

  /** _rej_bounded_poly. */
  function RejBounded(stream: seq<int>, eta: nat, coeffs: seq<int>): (r: Option<Poly>)
    requires |coeffs| <= 256
    decreases |stream|
  {
    if |coeffs| == 256 then Some(coeffs)
    else if |stream| < 1 then None
    else
      var low := coeffs + Candidate(stream[0] % 16, eta);
      RejBounded(stream[1..], eta, if |low| == 256 then low else low + Candidate(stream[0] / 16, eta))
  }

  ghost predicate Bounded(f: seq<int>, bound: int)
  {
    forall i :: 0 <= i < |f| ==> -bound <= f[i] <= bound
  }

  lemma CandidateBounded(cand: int, eta: nat)
    requires (eta == 2 || eta == 4) && 0 <= cand < 16
    ensures Bounded(Candidate(cand, eta), eta)
  {}

  /** Secret coefficients lie in [-eta, eta]. */
  lemma {:induction false} RejBoundedRange(stream: seq<int>, eta: nat, coeffs: seq<int>)
    requires (eta == 2 || eta == 4) && Fits(stream, 8) && |coeffs| <= 256 && Bounded(coeffs, eta)
    requires RejBounded(stream, eta, coeffs).Some?
    ensures Bounded(RejBounded(stream, eta, coeffs).value, eta)
    decreases |stream|
  {
    if |coeffs| < 256 {
      ByteSize();
      CandidateBounded(stream[0] % 16, eta);
      CandidateBounded(stream[0] / 16, eta);
      var low := coeffs + Candidate(stream[0] % 16, eta);
      RejBoundedRange(stream[1..], eta, if |low| == 256 then low else low + Candidate(stream[0] / 16, eta));
    }
  }

  /** A longer prefix of the stream gives the same polynomial. */
  lemma {:induction false} RejBoundedStable(stream: seq<int>, more: seq<int>, eta: nat, coeffs: seq<int>)
    requires |coeffs| <= 256 && RejBounded(stream, eta, coeffs).Some?
    ensures RejBounded(stream + more, eta, coeffs) == RejBounded(stream, eta, coeffs)
    decreases |stream|
  {
    if |coeffs| < 256 {
      assert (stream + more)[1..] == stream[1..] + more;
      var low := coeffs + Candidate(stream[0] % 16, eta);
      RejBoundedStable(stream[1..], more, eta, if |low| == 256 then low else low + Candidate(stream[0] / 16, eta));
    }
  }

  /** The half-bytes of a stream, the low one of every byte first. */
  function HalfBytes(stream: seq<int>): (r: seq<int>)
    ensures |r| == 2 * |stream|
  {
    seq(2 * |stream|, i requires 0 <= i < 2 * |stream| => if i % 2 == 0 then stream[i / 2] % 16 else stream[i / 2] / 16)
  }

  /** The coefficients of half-bytes: for eta 2 those below 15 modulo 5, and for eta 4 those
      below 9, taken from eta. */
  function Secrets(halves: seq<int>, eta: nat): seq<int>
  {
    if halves == [] then []
    else
      (if eta == 2 then (if halves[0] < 15 then [2 - halves[0] % 5] else []) else if halves[0] < 9 then [4 - halves[0]] else [])
      + Secrets(halves[1..], eta)
  }

  lemma CandidateIs(cand: int, eta: nat)
    requires 0 <= cand < 16
    ensures Secrets([cand], eta) == Candidate(cand, eta)
  {
    assert Secrets([], eta) == [];
  }

  lemma SecretsSplit(a: int, b: int, rest: seq<int>, eta: nat)
    ensures Secrets([a, b] + rest, eta) == Secrets([a], eta) + Secrets([b], eta) + Secrets(rest, eta)
  {
    var xs := [a, b] + rest;
    assert xs[1..] == [b] + rest && xs[1..][1..] == rest;
    assert Secrets([], eta) == [];
    assert [a][1..] == [] && [b][1..] == [];
  }

  lemma FirstHalves(stream: seq<int>)
    requires stream != []
    ensures HalfBytes(stream) == [stream[0] % 16, stream[0] / 16] + HalfBytes(stream[1..])
  {}

  /** The polynomial is the first 256 of the coefficients of all half-bytes. */
  lemma {:induction false} RejBoundedIs(stream: seq<int>, eta: nat, coeffs: seq<int>)
    requires |coeffs| <= 256 && Fits(stream, 8)
    ensures RejBounded(stream, eta, coeffs) == FirstOf(coeffs + Secrets(HalfBytes(stream), eta), 256)
    decreases |stream|
  {
    if |coeffs| < 256 && stream != [] {
      hide Secrets, Candidate;
      ByteSize();
      var a, b, rest := stream[0] % 16, stream[0] / 16, HalfBytes(stream[1..]);
      CandidateIs(a, eta);
      CandidateIs(b, eta);
      SecretsSplit(a, b, rest, eta);
      FirstHalves(stream);
      hide HalfBytes;
      var low := coeffs + Candidate(a, eta);
      if |low| == 256 {
        RejBoundedIs(stream[1..], eta, low);
        assert (coeffs + Secrets(HalfBytes(stream), eta))[..256] == low;
      } else {
        RejBoundedIs(stream[1..], eta, low + Candidate(b, eta));
        assert coeffs + Secrets(HalfBytes(stream), eta) == low + Candidate(b, eta) + Secrets(rest, eta);
      }
    } else if stream == [] {
      assert HalfBytes(stream) == [] && Secrets([], eta) == [];
      assert coeffs + [] == coeffs;
    }
  }

  /** The loop of _rej_bounded_poly, reading at most limit bytes. */
  method RejBoundedPoly(reader: XofReader, eta: nat, limit: nat) returns (r: Option<Poly>)
    requires reader.Valid() && reader.off == 0
    modifies reader
    ensures r == RejBounded(reader.digest(limit), eta, [])
  {
    var coeffs: seq<int> := [];
    assert reader.digest(limit)[0..] == reader.digest(limit);
    while |coeffs| < 256
      invariant reader.Valid() && reader.off <= limit == |reader.digest(limit)| && |coeffs| <= 256
      invariant RejBounded(reader.digest(limit)[reader.off..], eta, coeffs) == RejBounded(reader.digest(limit), eta, [])
      decreases limit - reader.off
    {
      if reader.off + 1 > limit {
        return None;
      }
      ghost var rest := reader.digest(limit)[reader.off..];
      RestOfPrefix(reader.digest, reader.off, 1, limit);
      var b := reader.Read(1);
      assert rest[..1] == b && rest[1..] == reader.digest(limit)[reader.off..];
      coeffs := coeffs + Candidate(b[0] % 16, eta);
      if |coeffs| < 256 {
        coeffs := coeffs + Candidate(b[0] / 16, eta);
      }
    }
    r := Some(coeffs);
  }

  // ----- the challenge

  /** The position _sample_in_ball reads for index i: the first byte at or after
      pos that is at most i, and the position behind it. */
  function DrawIndex(stream: seq<int>, pos: nat, i: nat): (r: Option<(int, nat)>)
    ensures r.Some? ==> pos < r.value.1 <= |stream| && r.value.0 == stream[r.value.1 - 1] <= i
    decreases |stream| - pos
  {
    if pos >= |stream| then None
    else if stream[pos] <= i then Some((stream[pos], pos + 1))
    else DrawIndex(stream, pos + 1, i)
  }

  /** Moves c[j] to i and puts a sign at j. */
  function BallStep(c: Poly, i: nat, j: nat, sign: int): Poly
    requires i < 256 && j < 256
  {
    c[i := c[j]][j := if sign == 0 then 1 else Q - 1]
  }

  function BallFrom(stream: seq<int>, pos: nat, signs: int, c: Poly, i: nat): Option<Poly>
    requires Fits(stream, 8)
    decreases 256 - i
  {
    if i >= 256 then Some(c)
    else
      ByteSize();
      var (j, next) :- DrawIndex(stream, pos, i);
      BallFrom(stream, next, signs / 2, BallStep(c, i, j, signs % 2), i + 1)
  }

  /** _sample_in_ball: eight sign bytes, then tau swaps. */
  function SampleInBall(stream: seq<int>, tau: nat): Option<Poly>
    requires Fits(stream, 8) && tau <= 256
  {
    if |stream| < 8 then None
    else BallFrom(stream, 8, Number(stream[..8], 8), ZeroPoly(), 256 - tau)
  }

  function Ternary(x: int): bool { x == 0 || x == 1 || x == Q - 1 }

  /** Number of nonzero coefficients at or after from. */
  function Weight(c: seq<int>, from: nat): nat
    decreases |c| - from
  {
    if from >= |c| then 0 else (if c[from] != 0 then 1 else 0) + Weight(c, from + 1)
  }

  lemma {:induction false} WeightUpdate(c: seq<int>, from: nat, k: nat, v: int)
    requires k < |c|
    ensures Weight(c[k := v], from)
         == Weight(c, from) + (if from <= k then (if v != 0 then 1 else 0) - (if c[k] != 0 then 1 else 0) else 0)
    decreases |c| - from
  {
    if from < |c| {
      WeightUpdate(c, from + 1, k, v);
    }
  }

  lemma {:induction false} WeightZero(c: seq<int>, from: nat)
    requires forall k :: 0 <= k < |c| ==> c[k] == 0
    ensures Weight(c, from) == 0
    decreases |c| - from
  {
    if from < |c| {
      WeightZero(c, from + 1);
    }
  }

  /** The state before index i: only earlier positions are set, to 1 or -1. */
  ghost predicate BallState(c: Poly, i: nat)
  {
    (forall k :: 0 <= k < 256 ==> Ternary(c[k])) && forall k :: i <= k < 256 ==> c[k] == 0
  }

  lemma {:induction false} BallWeight(stream: seq<int>, pos: nat, signs: int, c: Poly, i: nat)
    requires Fits(stream, 8) && i <= 256 && BallState(c, i)
    requires BallFrom(stream, pos, signs, c, i).Some?
    ensures var r := BallFrom(stream, pos, signs, c, i).value;
            BallState(r, 256) && Weight(r, 0) == Weight(c, 0) + (256 - i)
    decreases 256 - i
  {
    if i < 256 {
      ByteSize();
      var (j, next) := DrawIndex(stream, pos, i).value;
      var v := if signs % 2 == 0 then 1 else Q - 1;
      WeightUpdate(c, 0, i, c[j]);
      WeightUpdate(c[i := c[j]], 0, j, v);
      BallWeight(stream, next, signs / 2, BallStep(c, i, j, signs % 2), i + 1);
    }
  }

  /** The challenge has exactly tau nonzero coefficients, each 1 or -1. */
  lemma ChallengeWeight(stream: seq<int>, tau: nat)
    requires Fits(stream, 8) && tau <= 256 && SampleInBall(stream, tau).Some?
    ensures var c := SampleInBall(stream, tau).value;
            (forall k :: 0 <= k < 256 ==> Ternary(c[k])) && Weight(c, 0) == tau
  {
    WeightZero(ZeroPoly(), 0);
    BallWeight(stream, 8, Number(stream[..8], 8), ZeroPoly(), 256 - tau);
  }

  lemma {:induction false} DrawStable(stream: seq<int>, more: seq<int>, pos: nat, i: nat)
    requires DrawIndex(stream, pos, i).Some?
    ensures DrawIndex(stream + more, pos, i) == DrawIndex(stream, pos, i)
    decreases |stream| - pos
  {
    if stream[pos] > i {
      DrawStable(stream, more, pos + 1, i);
    }
  }

  lemma {:induction false} BallStable(stream: seq<int>, more: seq<int>, pos: nat, signs: int, c: Poly, i: nat)
    requires Fits(stream, 8) && Fits(more, 8) && BallFrom(stream, pos, signs, c, i).Some?
    ensures BallFrom(stream + more, pos, signs, c, i) == BallFrom(stream, pos, signs, c, i)
    decreases 256 - i
  {
    if i < 256 {
      ByteSize();
      DrawStable(stream, more, pos, i);
      var (j, next) := DrawIndex(stream, pos, i).value;
      BallStable(stream, more, next, signs / 2, BallStep(c, i, j, signs % 2), i + 1);
    }
  }

  /** Reading a longer prefix of the stream gives the same challenge. */
  lemma ChallengeStable(stream: seq<int>, more: seq<int>, tau: nat)
    requires Fits(stream, 8) && Fits(more, 8) && tau <= 256 && SampleInBall(stream, tau).Some?
    ensures SampleInBall(stream + more, tau) == SampleInBall(stream, tau)
  {
    assert (stream + more)[..8] == stream[..8];
    BallStable(stream, more, 8, Number(stream[..8], 8), ZeroPoly(), 256 - tau);
  }

  /** The loops of _sample_in_ball on an array, reading at most limit bytes. */
  method SampleChallenge(reader: XofReader, tau: nat, limit: nat) returns (r: Option<Poly>)
    requires reader.Valid() && reader.off == 0 && Fits(reader.digest(limit), 8) && tau <= 256
    modifies reader
    ensures r == SampleInBall(reader.digest(limit), tau)
  {
    hide PrefixProperty, BallStep, Number;
    ghost var stream := reader.digest(limit);
    DigestLength(reader.digest, limit);
    if limit < 8 {
      return None;
    }
    ByteSize();
    RestOfPrefix(reader.digest, 0, 8, limit);
    var head := reader.Read(8);
    assert head == stream[..8];
    var signs := Number(head, 8);
    var c := new int[256](i => 0);
    assert c[..] == ZeroPoly();
    for i := 256 - tau to 256
      invariant reader.Valid() && 8 <= reader.off <= limit
      invariant SampleInBall(stream, tau) == BallFrom(stream, reader.off, signs, c[..], i)
    {
      var draw := Draw(reader, i, limit);
      if draw == None {
        return None;
      }
      var j := draw.value;
      Place(c, i, j, signs % 2);
      signs := signs / 2;
    }
    r := Some(c[..]);
  }

  method Place(c: array<int>, i: nat, j: nat, sign: int)
    requires c.Length == 256 && i < 256 && j < 256
    modifies c
    ensures c[..] == BallStep(old(c[..]), i, j, sign)
  {
    c[i] := c[j];
    c[j] := if sign == 0 then 1 else Q - 1;
  }

  /** Reads bytes up to the first that is at most i. */
  method Draw(reader: XofReader, i: nat, limit: nat) returns (r: Option<int>)
    requires reader.Valid() && reader.off <= limit
    modifies reader
    ensures reader.Valid() && reader.off <= limit && |reader.digest(limit)| == limit
    ensures DrawIndex(reader.digest(limit), old(reader.off), i)
         == if r.Some? then Some((r.value, reader.off)) else None
  {
    ghost var stream, start := reader.digest(limit), reader.off;
    while reader.off < limit
      invariant reader.Valid() && start <= reader.off <= limit == |stream|
      invariant DrawIndex(stream, start, i) == DrawIndex(stream, reader.off, i)
      decreases limit - reader.off
    {
      var j := NextByte(reader, limit);
      if j <= i {
        return Some(j);
      }
    }
    r := None;
  }

  /** reader.read(1)[0]. */
  method NextByte(reader: XofReader, limit: nat) returns (b: int)
    requires reader.Valid() && reader.off < limit
    modifies reader
    ensures reader.Valid() && reader.off == old(reader.off) + 1 && |reader.digest(limit)| == limit
    ensures b == reader.digest(limit)[reader.off - 1]
  {
    RestOfPrefix(reader.digest, reader.off, 1, limit);
    ghost var rest := reader.digest(limit)[reader.off..];
    var piece := reader.Read(1);
    assert rest[0] == piece[0];
    b := piece[0];
  }

  // ----- the norm of challenge times secret

  function Centred(c: Poly): Poly
  {
    seq(256, i requires 0 <= i < 256 => ModPm(c[i]))
  }

  ghost predicate Signs(c: seq<int>)
  {
    forall k :: 0 <= k < |c| ==> -1 <= c[k] <= 1
  }

  lemma {:induction false} TailBound(c: seq<int>, s: seq<int>, i: nat, a: nat, eta: nat)
    requires a <= |c| <= |s| && i < |s| && Signs(c) && Bounded(s, eta)
    ensures -(Weight(c, a) * eta) <= ProductTail(c, s, i, a) <= Weight(c, a) * eta
    decreases |c| - a
  {
    if a < |c| {
      TailBound(c, s, i, a + 1, eta);
      var t := Wrapped(s, i - a);
      assert t <= eta && t + eta >= 0;
      assert (1 + Weight(c, a + 1)) * eta == eta + Weight(c, a + 1) * eta;
      SignTimes(c[a], t);
    }
  }

  lemma SignTimes(x: int, t: int)
    requires -1 <= x <= 1
    ensures x * t == if x == 0 then 0 else if x == 1 then t else -t
  {}

  lemma {:induction false} CentredWeight(c: Poly, from: nat)
    requires (forall k :: 0 <= k < 256 ==> Ternary(c[k])) && from <= 256
    ensures Weight(Centred(c), from) == Weight(c, from)
    decreases 256 - from
  {
    if from < 256 {
      CentredWeight(c, from + 1);
    }
  }

  /** c s2 has no coefficient beyond tau eta = beta. */
  lemma ChallengeNorm(c: Poly, s: Poly, tau: nat, eta: nat, i: nat)
    requires (forall k :: 0 <= k < 256 ==> Ternary(c[k])) && Weight(c, 0) == tau
    requires Bounded(s, eta) && i < 256
    ensures -(tau * eta) <= RingMul(Centred(c), s)[i] <= tau * eta
  {
    CentredWeight(c, 0);
    TailBound(Centred(c), s, i, 0, eta);
  }
}
