/** The incremental reader over a SHAKE object that the lattice samplers use. */
module Xof {
  import opened Options

  /** A digest of length n is the first n bytes of one stream. */
  ghost predicate PrefixProperty(digest: nat -> seq<int>)
  {
    && (forall n: nat :: |digest(n)| == n)
    && (forall m: nat, n: nat :: m <= n ==> digest(m) <= digest(n))
  }

  lemma DigestLength(digest: nat -> seq<int>, n: nat)
    requires PrefixProperty(digest)
    ensures |digest(n)| == n
  {}

  /** What a piece of the stream leaves of a longer prefix. */
  lemma RestOfPrefix(digest: nat -> seq<int>, off: nat, n: nat, limit: nat)
    requires PrefixProperty(digest) && off + n <= limit
    ensures |digest(off + n)| == off + n && |digest(limit)| == limit
    ensures digest(limit)[off..] == digest(off + n)[off..] + digest(limit)[off + n..]
  {
    assert digest(off + n) <= digest(limit);
  }

  /** The values below a bound, in their order. */
  function Below(xs: seq<int>, bound: int): (r: seq<int>)
    ensures |r| <= |xs|
  {
    if xs == [] then []
    else (if xs[0] < bound then [xs[0]] else []) + Below(xs[1..], bound)
  }

  lemma BelowCons(x: int, rest: seq<int>, bound: int)
    ensures Below([x] + rest, bound) == (if x < bound then [x] else []) + Below(rest, bound)
  {
    assert ([x] + rest)[1..] == rest;
  }

  /** The first n values, or None when there are fewer. */
  function FirstOf(xs: seq<int>, n: nat): (r: Option<seq<int>>)
    ensures r.Some? ==> |r.value| == n
  {
    if |xs| >= n then Some(xs[..n]) else None
  }

  class XofReader {
    const digest: nat -> seq<int>
    /** How much the requested prefix grows: 840 or 512 bytes. */
    const growth: nat
    var buf: seq<int>
    var off: nat

    ghost predicate Valid()
      reads this
    {
      PrefixProperty(digest) && growth > 0 && off <= |buf| && buf == digest(|buf|)
    }

    constructor (digest: nat -> seq<int>, growth: nat)
      requires PrefixProperty(digest) && growth > 0
      ensures Valid() && off == 0 && this.digest == digest
    {
      this.digest := digest;
      this.growth := growth;
      buf := [];
      off := 0;
    }

    /** Consecutive reads return consecutive pieces of the stream. */
    method Read(n: nat) returns (out: seq<int>)
      requires Valid()
      modifies this
      ensures Valid() && off == old(off) + n
      ensures |out| == n && out == digest(off)[old(off)..]
    {
      while |buf| - off < n
        invariant off == old(off) && off <= |buf| && buf == digest(|buf|)
        decreases off + n - |buf|
      {
        buf := digest(|buf| + growth);
      }
      assert digest(off + n) <= buf;
      out := buf[off..off + n];
      off := off + n;
    }
  }
}
