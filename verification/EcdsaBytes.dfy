/** ECDSA on bytes: the nonce generator of RFC 6979, the DER form of signatures, and the
    proof that whatever sign_ecdsa returns is accepted by verify_ecdsa. */
module EcdsaBytes {
  import opened Options
  import opened ModArith
  import opened Primes
  import opened Octets
  import opened Der
  import opened Ec
  import opened EcLadder
  import opened Ecdsa

  type Hmac = (Bytes, Bytes) -> Bytes

  /** HMAC is any function to hlen bytes. */
  ghost predicate IsHmac(mac: Hmac, hlen: nat)
  {
    hlen >= 1 && forall k, d :: |mac(k, d)| == hlen && IsBytes(mac(k, d))
  }

  // ----- bits

  /** _bits2int: the leftmost qlen bits. */
  function Bits2Int(data: Bytes, qlen: nat): int
  {
    if 8 * |data| > qlen then Os2ip(data) / Exp2(8 * |data| - qlen) else Os2ip(data)
  }

  lemma Bits2IntBound(data: Bytes, qlen: nat)
    requires IsBytes(data)
    ensures 0 <= Bits2Int(data, qlen) < Exp2(qlen)
  {
    hide Exp2, Os2ip;
    Os2ipNonNegative(data);
    if 8 * |data| > qlen {
      var e := Exp2(8 * |data| - qlen);
      Exp2Add(8 * |data| - qlen, qlen);
      QuotientBelow(Os2ip(data), e, Exp2(qlen));
    } else {
      Exp2Monotone(8 * |data|, qlen);
    }
  }

  lemma QuotientBelow(v: int, e: int, f: int)
    requires 0 <= v < e * f && e >= 1
    ensures 0 <= v / e < f
  {
    var k := v / e;
    assert v == e * k + v % e;
    if k >= f {
      MulLe(f, k, e);
    } else if k < 0 {
      MulLe(k, -1, e);
    }
  }

  /** _bits2octets; None when the integer does not fit. */
  function Bits2Octets(digest: Bytes, n: nat, rolen: nat, qlen: nat): Option<Bytes>
    requires IsBytes(digest)
  {
    Bits2IntBound(digest, qlen);
    var z1: nat := Bits2Int(digest, qlen);
    I2osp(if z1 < n then z1 else z1 - n, rolen)
  }

  // ----- the generator

  datatype Drbg = Drbg(k: Bytes, v: Bytes)

  /** The state before the first candidate. */
  function Seeded(mac: Hmac, hlen: nat, bx: Bytes): Drbg
  {
    var k := mac(seq(hlen, i => 0), seq(hlen, i => 1) + [0] + bx);
    var v := mac(k, seq(hlen, i => 1));
    var k' := mac(k, v + [1] + bx);
    Drbg(k', mac(k', v))
  }

  /** Appends outputs to t until qlen bits are there; also the last output. */
  function Filled(mac: Hmac, hlen: nat, k: Bytes, v: Bytes, t: Bytes, qlen: nat): (r: (Bytes, Bytes))
    requires IsHmac(mac, hlen)
    ensures IsBytes(t) ==> IsBytes(r.0)
    ensures 8 * |r.0| >= qlen
    decreases qlen - 8 * |t|
  {
    if 8 * |t| >= qlen then (t, v) else Filled(mac, hlen, k, mac(k, v), t + mac(k, v), qlen)
  }

  function Candidate(mac: Hmac, hlen: nat, g: Drbg, qlen: nat): int
    requires IsHmac(mac, hlen)
  {
    Bits2Int(Filled(mac, hlen, g.k, g.v, [], qlen).0, qlen)
  }

  /** The state after a candidate. */
  function Stepped(mac: Hmac, hlen: nat, g: Drbg, qlen: nat): Drbg
    requires IsHmac(mac, hlen)
  {
    var v := Filled(mac, hlen, g.k, g.v, [], qlen).1;
    var k := mac(g.k, v + [0]);
    Drbg(k, mac(k, v))
  }

  /** The nonces among the next count candidates. */
  function Nonces(mac: Hmac, hlen: nat, g: Drbg, n: nat, qlen: nat, count: nat): (r: seq<nat>)
    requires IsHmac(mac, hlen)
    ensures forall i :: 0 <= i < |r| ==> 0 < r[i] < n
    decreases count
  {
    if count == 0 then []
    else
      var c := Candidate(mac, hlen, g, qlen);
      var rest := Nonces(mac, hlen, Stepped(mac, hlen, g, qlen), n, qlen, count - 1);
      if 1 <= c < n then [c] + rest else rest
  }

  /** _rfc6979_k, a generator. */
  class NonceSource {
    const mac: Hmac
    const hlen: nat
    const qlen: nat
    var k: Bytes
    var v: Bytes

    ghost function State(): Drbg
      reads this
    {
      Drbg(k, v)
    }

    constructor (mac: Hmac, hlen: nat, qlen: nat, bx: Bytes)
      ensures this.mac == mac && this.hlen == hlen && this.qlen == qlen && State() == Seeded(mac, hlen, bx)
    {
      this.mac, this.hlen, this.qlen := mac, hlen, qlen;
      v := seq(hlen, i => 1);
      k := seq(hlen, i => 0);
      new;
      k := mac(k, v + [0] + bx);
      v := mac(k, v);
      k := mac(k, v + [1] + bx);
      v := mac(k, v);
    }

    /** One candidate, in range or not. */
    method Next() returns (c: int)
      requires IsHmac(mac, hlen)
      modifies this
      ensures c == Candidate(mac, hlen, old(State()), qlen) && State() == Stepped(mac, hlen, old(State()), qlen)
    {
      var t: Bytes := [];
      while 8 * |t| < qlen
        invariant k == old(k)
        invariant Filled(mac, hlen, k, v, t, qlen) == Filled(mac, hlen, k, old(v), [], qlen)
        decreases qlen - 8 * |t|
      {
        v := mac(k, v);
        t := t + v;
      }
      c := Bits2Int(t, qlen);
      k := mac(k, v + [0]);
      v := mac(k, v);
    }
  }

  // ----- the DER form

  /** encode_integer. */
  function IntegerNode(v: nat): Node { Node(TAG_INTEGER, IntegerContent(v), []) }

  function DssNode(r: nat, s: nat): Node
  {
    var kids := [IntegerNode(r), IntegerNode(s)];
    Node(TAG_SEQUENCE, EncodeAll(kids), kids)
  }

  /** _encode_dss. */
  function EncodeDss(r: nat, s: nat): Bytes
  {
    EncodeTlv(TAG_SEQUENCE, EncodeTlv(TAG_INTEGER, IntegerContent(r)) + EncodeTlv(TAG_INTEGER, IntegerContent(s)))
  }

  /** signed_int_value of a content that is not empty. */
  function SignedValue(content: Bytes): int
    requires content != []
  {
    if content[0] >= 0x80 then Os2ip(content) - Exp2(8 * |content|) else Os2ip(content)
  }

  /** _decode_dss; None for bad DER and for values out of range. */
  function DecodeDss(data: Bytes, n: nat): Option<(nat, nat)>
  {
    var node :- Decode(data);
    if node.tag != TAG_SEQUENCE || |node.children| != 2 then None
    else
      var a, b := node.children[0], node.children[1];
      if a.tag != TAG_INTEGER || b.tag != TAG_INTEGER || a.content == [] || b.content == [] then None
      else
        var r, s := SignedValue(a.content), SignedValue(b.content);
        if 1 <= r < n && 1 <= s < n then Some((r, s)) else None
  }

  lemma EncodeIntegerNode(v: nat)
    ensures Encode(IntegerNode(v)) == EncodeTlv(TAG_INTEGER, IntegerContent(v))
  {}

  /** The tree of a signature is encoded by _encode_dss. */
  lemma EncodeDssNode(r: nat, s: nat)
    ensures Encode(DssNode(r, s)) == EncodeDss(r, s)
  {
    hide IntegerContent, EncodeTlv, IntegerNode;
    EncodeIntegerNode(r);
    EncodeIntegerNode(s);
    var kids := [IntegerNode(r), IntegerNode(s)];
    assert kids[1..] == [IntegerNode(s)] && kids[1..][1..] == [];
    assert EncodeAll([IntegerNode(s)]) == Encode(IntegerNode(s)) + EncodeAll([]);
    assert EncodeAll(kids) == Encode(IntegerNode(r)) + Encode(IntegerNode(s));
  }

  const SIZE_LIMIT: nat := 0x1_0000_0000

  /** Integers of at most 2^32 bits have short encodings. */
  lemma IntegerSize(v: nat, n: nat)
    requires v < n && BitLength(n) < SIZE_LIMIT
    ensures |IntegerContent(v)| < SIZE_LIMIT
  {
    hide Exp2, BitLength, ToBytes;
    BitLengthBounds(v);
    BitLengthBounds(n);
    if BitLength(v) > BitLength(n) {
      Exp2Monotone(BitLength(n), BitLength(v) - 1);
    }
    ContentSize(v);
  }

  lemma ContentSize(v: nat)
    ensures |IntegerContent(v)| <= BitLength(v) / 8 + 2
  {
    hide Exp2, BitLength, ToBytes;
  }

  lemma HeaderSize(tag: int, content: Bytes)
    requires |content| < 4 * SIZE_LIMIT
    ensures |EncodeTlv(tag, content)| <= |content| + 10
  {
    Exp2At34();
    hide Exp2;
    BitLengthBounds(|content|);
    if BitLength(|content|) > 34 {
      Exp2Monotone(34, BitLength(|content|) - 1);
    }
  }

  lemma Exp2At34()
    ensures Exp2(34) == 4 * SIZE_LIMIT && 4 * SIZE_LIMIT < Exp2(8 * MAX_LEN_OCTETS)
  {
    assert Exp2(16) == 0x10000;
    Exp2Add(16, 16);
    Exp2Add(32, 2);
    assert Exp2(2) == 4;
    hide Exp2;
    Exp2Add(34, 1);
    Exp2Monotone(35, 64);
    assert Exp2(35) == 2 * Exp2(34) by { ExpOne(); }
  }

  lemma ExpOne()
    ensures Exp2(1) == 2
  {}

  lemma IntegerNodeWellFormed(v: nat, n: nat)
    requires v < n && BitLength(n) < SIZE_LIMIT
    ensures WellFormed(IntegerNode(v), 1)
  {
    hide IntegerContent, Exp2;
    IntegerRoundTrip(v);
    IntegerSize(v, n);
    Exp2At34();
  }

  lemma DssNodeWellFormed(r: nat, s: nat, n: nat)
    requires r < n && s < n && BitLength(n) < SIZE_LIMIT
    ensures WellFormed(DssNode(r, s), 0)
  {
    hide IntegerContent, Exp2, EncodeTlv, IntegerNode;
    IntegerNodeWellFormed(r, n);
    IntegerNodeWellFormed(s, n);
    IntegerSize(r, n);
    IntegerSize(s, n);
    HeaderSize(TAG_INTEGER, IntegerContent(r));
    HeaderSize(TAG_INTEGER, IntegerContent(s));
    EncodeIntegerNode(r);
    EncodeIntegerNode(s);
    Exp2At34();
    var kids := [IntegerNode(r), IntegerNode(s)];
    assert kids[1..] == [IntegerNode(s)] && kids[1..][1..] == [];
    assert EncodeAll([IntegerNode(s)]) == Encode(IntegerNode(s)) + EncodeAll([]);
    assert AllWellFormed([IntegerNode(s)], 1);
    assert AllWellFormed(kids, 1);
  }

  /** A positive valid integer is the content the encoder writes for its value. */
  lemma PositiveContent(content: Bytes)
    requires IsBytes(content) && ValidInteger(content) && SignedValue(content) >= 1
    ensures content == IntegerContent(SignedValue(content))
  {
    hide IntegerContent, Os2ip, Exp2;
    Os2ipNonNegative(content);
    IntegerUnique(content);
  }

  /** A well-formed sequence of two positive integers is the tree of a signature. */
  lemma DssTree(node: Node)
    requires WellFormed(node, 0) && IsBytes(Encode(node)) && node.tag == TAG_SEQUENCE && |node.children| == 2
    requires node.children[0].tag == TAG_INTEGER && node.children[1].tag == TAG_INTEGER
    ensures node.children[0].content != [] && node.children[1].content != []
    ensures var r, s := SignedValue(node.children[0].content), SignedValue(node.children[1].content);
            r >= 1 && s >= 1 ==> node == DssNode(r, s)
  {
    hide IntegerContent, Exp2, EncodeLength, SignedValue;
    var a, b := node.children[0], node.children[1];
    assert node.children == [a, b] && node.children[1..] == [b] && node.children[1..][1..] == [];
    assert AllWellFormed(node.children, 1) && WellFormed(a, 1) && AllWellFormed([b], 1) && WellFormed(b, 1);
    assert EncodeAll([b]) == Encode(b) + EncodeAll([]);
    assert EncodeAll(node.children) == Encode(a) + Encode(b);
    TlvContent(node.tag, node.content);
    SumOfBytes(Encode(a), Encode(b));
    TlvContent(a.tag, a.content);
    TlvContent(b.tag, b.content);
    if SignedValue(a.content) >= 1 && SignedValue(b.content) >= 1 {
      PositiveContent(a.content);
      PositiveContent(b.content);
    }
  }

  lemma TlvContent(tag: int, content: Bytes)
    requires IsBytes(EncodeTlv(tag, content))
    ensures IsBytes(content)
  {
    SumOfBytes([tag] + EncodeLength(|content|), content);
  }

  lemma SumOfBytes(a: Bytes, b: Bytes)
    requires IsBytes(a + b)
    ensures IsBytes(a) && IsBytes(b)
  {
    assert (a + b)[..|a|] == a && (a + b)[|a|..] == b;
  }

  /** A byte string decodes to (r, s) exactly when both are in range and it is the
      encoding of (r, s), so the encoding of a signature is unique. */
  lemma DssIff(data: Bytes, n: nat, r: nat, s: nat)
    requires IsBytes(data) && BitLength(n) < SIZE_LIMIT
    ensures DecodeDss(data, n) == Some((r, s)) <==> 1 <= r < n && 1 <= s < n && data == EncodeDss(r, s)
  {
    hide Decode, Encode, WellFormed, EncodeDss, DssNode, SignedValue, IntegerContent;
    EncodeDssNode(r, s);
    if DecodeDss(data, n) == Some((r, s)) {
      var node := Decode(data).value;
      DecodeIff(data, node);
      DssTree(node);
    }
    if 1 <= r < n && 1 <= s < n && data == EncodeDss(r, s) {
      DssNodeWellFormed(r, s, n);
      DecodeIff(data, DssNode(r, s));
      DssNodeValues(r, s);
    }
  }

  lemma DssNodeValues(r: nat, s: nat)
    ensures var node := DssNode(r, s);
            && node.tag == TAG_SEQUENCE && |node.children| == 2
            && node.children[0].tag == TAG_INTEGER && node.children[1].tag == TAG_INTEGER
            && node.children[0].content != [] && SignedValue(node.children[0].content) == r
            && node.children[1].content != [] && SignedValue(node.children[1].content) == s
  {
    hide IntegerContent, EncodeAll, Os2ip, Exp2;
    IntegerRoundTrip(r);
    IntegerRoundTrip(s);
  }

  lemma EncodedDssIsBytes(r: nat, s: nat, n: nat)
    requires r < n && s < n && BitLength(n) < SIZE_LIMIT
    ensures IsBytes(EncodeDss(r, s))
  {
    hide IntegerContent, EncodeTlv;
    IntegerRoundTrip(r);
    IntegerRoundTrip(s);
    IntegerSize(r, n);
    IntegerSize(s, n);
    TlvIsBytes(TAG_INTEGER, IntegerContent(r));
    TlvIsBytes(TAG_INTEGER, IntegerContent(s));
    HeaderSize(TAG_INTEGER, IntegerContent(r));
    HeaderSize(TAG_INTEGER, IntegerContent(s));
    TlvIsBytes(TAG_SEQUENCE, EncodeTlv(TAG_INTEGER, IntegerContent(r)) + EncodeTlv(TAG_INTEGER, IntegerContent(s)));
  }

  lemma TlvIsBytes(tag: int, content: Bytes)
    requires IsBytes(content) && 0 <= tag < 256 && |content| < 4 * SIZE_LIMIT
    ensures IsBytes(EncodeTlv(tag, content))
  {
    Exp2At34();
    hide Exp2, ToBytes;
    BitLengthBounds(|content|);
    if BitLength(|content|) > 34 {
      Exp2Monotone(34, BitLength(|content|) - 1);
    }
  }

  // ----- signing and verification

  /** A curve with its base point, a hash and an HMAC of hlen bytes, and the size of its
      field elements. */
  datatype Suite = Suite(c: Curve, G: Point, hash: Bytes -> Bytes, mac: Hmac, hlen: nat, rolen: nat)
  {
    ghost predicate Valid()
    {
      && c.Valid() && Prime(c.n) && BitLength(c.n) < SIZE_LIMIT
      && IsHmac(mac, hlen) && forall m :: IsBytes(hash(m))
    }

    function Qlen(): nat { BitLength(c.n) }
  }

  /** The number a message is signed as. */
  function MessageNumber(S: Suite, message: Bytes): (z: nat)
    requires IsBytes(S.hash(message))
  {
    Bits2IntBound(S.hash(message), S.Qlen());
    Bits2Int(S.hash(message), S.Qlen())
  }

  /** What the generator is seeded with. */
  function NonceInput(S: Suite, d: nat, message: Bytes): Option<Bytes>
    requires IsBytes(S.hash(message))
  {
    var x :- I2osp(d, S.rolen);
    var h :- Bits2Octets(S.hash(message), S.c.n, S.rolen, S.Qlen());
    Some(x + h)
  }

  /** sign_ecdsa with at most count candidates for the nonce. */
  function SignMessage(S: Suite, d: nat, message: Bytes, count: nat): Option<Bytes>
    requires S.Valid()
  {
    var bx :- NonceInput(S, d, message);
    var nonces := Nonces(S.mac, S.hlen, Seeded(S.mac, S.hlen, bx), S.c.n, S.Qlen(), count);
    var sig :- Sign(S.c, S.G, d, MessageNumber(S, message), nonces);
    if sig.r < 0 || sig.s < 0 then None else Some(EncodeDss(sig.r, sig.s))
  }

  /** verify_ecdsa: whether it returns without an exception. */
  predicate VerifyMessage(S: Suite, Q: Point, message: Bytes, signature: Bytes)
    requires S.Valid()
  {
    match DecodeDss(signature, S.c.n)
    case None => false
    case Some(rs) => Verify(S.c, S.G, Q, MessageNumber(S, message), Signature(rs.0, rs.1))
  }

  /** Whatever sign_ecdsa returns is accepted under the public key, and so is the encoding
      of its twin (r, n - s); and s is at most half the order. */
  lemma SignedMessageVerifies(S: Suite, d: nat, message: Bytes, count: nat)
    requires S.Valid() && GroupLaws(S.c, S.G) && 0 < d < S.c.n
    requires SignMessage(S, d, message, count).Some?
    ensures DoubleAndAdd(S.c, d, S.G).Some?
    ensures var Q, sig := DoubleAndAdd(S.c, d, S.G).value, SignMessage(S, d, message, count).value;
            && VerifyMessage(S, Q, message, sig)
            && DecodeDss(sig, S.c.n).Some?
            && var (r, s) := DecodeDss(sig, S.c.n).value;
               s <= S.c.n / 2 && S.c.n - s >= 0 && VerifyMessage(S, Q, message, EncodeDss(r, S.c.n - s))
  {
    hide Verify, DoubleAndAdd, Sign, EncodeDss, DecodeDss, GroupLaws, Nonces, Bits2Int, BitLength;
    var bx := NonceInput(S, d, message).value;
    var z := MessageNumber(S, message);
    var nonces := Nonces(S.mac, S.hlen, Seeded(S.mac, S.hlen, bx), S.c.n, S.Qlen(), count);
    SignVerifies(S.c, S.G, d, z, nonces);
    var sig := Sign(S.c, S.G, d, z, nonces).value;
    VerifiedRange(S.c, S.G, DoubleAndAdd(S.c, d, S.G).value, z, sig);
    EncodedDssIsBytes(sig.r, sig.s, S.c.n);
    EncodedDssIsBytes(sig.r, S.c.n - sig.s, S.c.n);
    DssIff(EncodeDss(sig.r, sig.s), S.c.n, sig.r, sig.s);
    DssIff(EncodeDss(sig.r, S.c.n - sig.s), S.c.n, sig.r, S.c.n - sig.s);
  }

  /** Under the key of the scalar d, exactly the encodings of pairs that open are accepted. */
  lemma VerifyMessageIff(S: Suite, d: nat, message: Bytes, signature: Bytes)
    requires S.Valid() && GroupLaws(S.c, S.G) && d < S.c.n && IsBytes(signature)
    ensures DoubleAndAdd(S.c, d, S.G).Some?
    ensures VerifyMessage(S, DoubleAndAdd(S.c, d, S.G).value, message, signature)
       <==> exists r: nat, s: nat, t: nat ::
              && 1 <= r < S.c.n && 1 <= s < S.c.n && signature == EncodeDss(r, s)
              && Opens(S.c, S.G, d, MessageNumber(S, message), Signature(r, s), t)
  {
    hide Verify, DoubleAndAdd, EncodeDss, DecodeDss, GroupLaws, Bits2Int, BitLength, Opens;
    var z := MessageNumber(S, message);
    VerifyIff(S.c, S.G, d, z, Signature(1, 1));
    var Q := DoubleAndAdd(S.c, d, S.G).value;
    if VerifyMessage(S, Q, message, signature) {
      var (r, s) := DecodeDss(signature, S.c.n).value;
      DssIff(signature, S.c.n, r, s);
      VerifyIff(S.c, S.G, d, z, Signature(r, s));
      var t: nat :| Opens(S.c, S.G, d, z, Signature(r, s), t);
    }
    forall r: nat, s: nat, t: nat |
      && 1 <= r < S.c.n && 1 <= s < S.c.n && signature == EncodeDss(r, s)
      && Opens(S.c, S.G, d, z, Signature(r, s), t)
      ensures VerifyMessage(S, Q, message, signature)
    {
      DssIff(signature, S.c.n, r, s);
      VerifyIff(S.c, S.G, d, z, Signature(r, s));
    }
  }

  lemma VerifiedRange(c: Curve, G: Point, Q: Point, z: nat, sig: Signature)
    requires Prime(c.p) && Prime(c.n) && Verify(c, G, Q, z, sig)
    ensures 1 <= sig.r < c.n && 1 <= sig.s < c.n
  {
    hide Recovered, Invert;
  }

  /** More candidates never change an answer. */
  lemma {:induction false} MoreCandidates(S: Suite, d: nat, z: nat, g: Drbg, count: nat, more: nat)
    requires S.Valid() && count <= more
    requires Sign(S.c, S.G, d, z, Nonces(S.mac, S.hlen, g, S.c.n, S.Qlen(), count)).Some?
    ensures Sign(S.c, S.G, d, z, Nonces(S.mac, S.hlen, g, S.c.n, S.Qlen(), more))
         == Sign(S.c, S.G, d, z, Nonces(S.mac, S.hlen, g, S.c.n, S.Qlen(), count))
    decreases count
  {
    hide Attempt, Candidate, Stepped, BitLength;
    if count > 0 {
      var c, next := Candidate(S.mac, S.hlen, g, S.Qlen()), Stepped(S.mac, S.hlen, g, S.Qlen());
      var few := Nonces(S.mac, S.hlen, next, S.c.n, S.Qlen(), count - 1);
      var many := Nonces(S.mac, S.hlen, next, S.c.n, S.Qlen(), more - 1);
      if 1 <= c < S.c.n {
        assert ([c] + few)[1..] == few && ([c] + many)[1..] == many;
        if Attempt(S.c, S.G, d, z, c) == None {
          MoreCandidates(S, d, z, next, count - 1, more - 1);
        }
      } else {
        MoreCandidates(S, d, z, next, count - 1, more - 1);
      }
    }
  }

  /** sign_ecdsa over its generator and its ladder. */
  method SignEcdsa(S: Suite, d: nat, message: Bytes, count: nat) returns (r: Option<Bytes>)
    requires S.Valid() && Reduced(S.c, S.G)
    ensures r == SignMessage(S, d, message, count)
  {
    hide Attempt, Candidate, Stepped, BitLength, Seeded, EncodeDss, Bits2Int, Reduced;
    var bx := NonceInput(S, d, message);
    if bx == None {
      return None;
    }
    var z := MessageNumber(S, message);
    var source := new NonceSource(S.mac, S.hlen, S.Qlen(), bx.value);
    ghost var all := Nonces(S.mac, S.hlen, source.State(), S.c.n, S.Qlen(), count);
    var left := count;
    while left > 0
      invariant source.mac == S.mac && source.hlen == S.hlen && source.qlen == S.Qlen()
      invariant Sign(S.c, S.G, d, z, all) == Sign(S.c, S.G, d, z, Nonces(S.mac, S.hlen, source.State(), S.c.n, S.Qlen(), left))
    {
      ghost var g := source.State();
      var k := source.Next();
      left := left - 1;
      ghost var rest := Nonces(S.mac, S.hlen, source.State(), S.c.n, S.Qlen(), left);
      if 1 <= k < S.c.n {
        assert ([k] + rest)[1..] == rest;
        var sig := TryNonce(S.c, S.G, d, z, k);
        if sig.Some? {
          var (x, y) := (sig.value.r, sig.value.s);
          return if x < 0 || y < 0 then None else Some(EncodeDss(x, y));
        }
      }
    }
    return None;
  }

  /** verify_ecdsa over its ladder. */
  method VerifySignature(S: Suite, Q: Point, message: Bytes, signature: Bytes) returns (ok: bool)
    requires S.Valid() && Reduced(S.c, S.G) && Reduced(S.c, Q)
    ensures ok == VerifyMessage(S, Q, message, signature)
  {
    hide Verify, DecodeDss, BitLength, Bits2Int, Reduced;
    var rs := DecodeDss(signature, S.c.n);
    if rs == None {
      return false;
    }
    ok := VerifyEcdsa(S.c, S.G, Q, MessageNumber(S, message), Signature(rs.value.0, rs.value.1));
  }
}
