/** The strict DER reader and the encoder of asn1.py: reading accepts exactly the
    encodings of well-formed trees, so each tree has one encoding and each accepted
    byte string one tree. */
module Der {
  import opened Options
  import opened ModArith
  import opened Octets

  const TAG_INTEGER: int := 0x02
  const TAG_BIT_STRING: int := 0x03
  const TAG_OID: int := 0x06
  const TAG_SEQUENCE: int := 0x30
  const TAG_SET: int := 0x31
  const MAX_NESTING: nat := 64
  const MAX_LEN_OCTETS: nat := 8

  /** One element; the children are those of a constructed encoding. */
  datatype Node = Node(tag: int, content: Bytes, children: seq<Node>)

  predicate Constructed(tag: int) { tag / 0x20 % 2 == 1 }

  // ----- lengths

  /** The bytes of a number without leading zeros. */
  function ByteLength(n: nat): nat { (BitLength(n) + 7) / 8 }

  /** encode_length. */
  function EncodeLength(n: nat): (r: Bytes)
    ensures |r| >= 1
  {
    if n < 0x80 then [n] else [0x80 + ByteLength(n)] + ToBytes(n, ByteLength(n))
  }

  /** _read_length: the length and the position after it. */
  function ReadLength(data: Bytes, pos: nat): (r: Option<(int, nat)>)
    ensures r.Some? ==> pos < r.value.1 <= |data|
  {
    if pos >= |data| then None
    else
      var first := data[pos];
      if first < 0x80 then Some((first, pos + 1))
      else
        var count := first % 0x80;
        if count == 0 || count > MAX_LEN_OCTETS || pos + 1 + count > |data| || data[pos + 1] == 0 then None
        else
          var length := Os2ip(data[pos + 1..pos + 1 + count]);
          if length < 0x80 then None else Some((length, pos + 1 + count))
  }

  // ----- content rules

  predicate ValidInteger(content: Bytes)
  {
    content != []
    && (|content| > 1 ==> !(content[0] == 0x00 && content[1] < 0x80) && !(content[0] == 0xFF && content[1] >= 0x80))
  }

  predicate ValidBitString(content: Bytes)
  {
    content != []
    && content[0] <= 7
    && (|content| == 1 ==> content[0] == 0)
    && (content[0] > 0 ==> content[|content| - 1] % Exp2(content[0]) == 0)
  }

  /** The inner loop of _parse_base128: one arc from position i on, and where it ends. */
  function ParseArc(content: Bytes, i: nat, value: nat): (r: Option<(nat, nat)>)
    ensures r.Some? ==> i < r.value.1 <= |content|
    decreases |content| - i
  {
    if i >= |content| then None
    else if value == 0 && content[i] == 0x80 then None
    else
      LowSeven(content[i]);
      var next: nat := value * 0x80 + content[i] % 0x80;
      if content[i] < 0x80 then Some((next, i + 1)) else ParseArc(content, i + 1, next)
  }

  lemma LowSeven(x: int)
    ensures 0 <= x % 0x80 < 0x80
  {}

  /** _parse_base128 from position i on. */
  function ParseArcs(content: Bytes, i: nat): Option<seq<nat>>
    requires i <= |content|
    decreases |content| - i
  {
    if i == |content| then Some([])
    else
      var (arc, j) :- ParseArc(content, i, 0);
      var rest :- ParseArcs(content, j);
      Some([arc] + rest)
  }

  /** _validate_content. */
  predicate ValidContent(tag: int, content: Bytes)
  {
    if tag == TAG_INTEGER then ValidInteger(content)
    else if tag == TAG_BIT_STRING then ValidBitString(content)
    else if tag == TAG_OID then content != [] && ParseArcs(content, 0).Some?
    else true
  }

  /** The tag rules: one byte, and the constructed bit as DER wants it for universal tags. */
  predicate ValidTag(tag: int)
  {
    && 0 <= tag < 256
    && tag % 0x20 != 0x1F
    && (tag < 0x40 ==>
          tag != 0
          && (Constructed(tag) ==> tag == TAG_SEQUENCE || tag == TAG_SET)
          && (!Constructed(tag) ==> tag != 0x10 && tag != 0x11))
  }

  // ----- reading

  /** _read_tlv: the element at pos and the position after it. */
  function ReadTlv(data: Bytes, pos: nat, depth: nat): (r: Option<(Node, nat)>)
    ensures r.Some? ==> pos < r.value.1 <= |data|
    decreases |data| - pos, 0
  {
    if pos >= |data| || !ValidTag(data[pos]) then None
    else
      var tag := data[pos];
      var (length, start) :- ReadLength(data, pos + 1);
      var end := start + length;
      if length < 0 || end > |data| then None
      else
        var content := data[start..end];
        if !ValidContent(tag, content) then None
        else if !Constructed(tag) then Some((Node(tag, content, []), end))
        else if depth >= MAX_NESTING then None
        else
          var children :- ReadFrom(content, 0, depth + 1);
          Some((Node(tag, content, children), end))
  }

  /** The elements from position pos to the end, all at one depth. */
  function ReadFrom(content: Bytes, pos: nat, depth: nat): Option<seq<Node>>
    requires pos <= |content|
    decreases |content| - pos, 1
  {
    if pos == |content| then Some([])
    else
      var (child, end) :- ReadTlv(content, pos, depth);
      var rest :- ReadFrom(content, end, depth);
      Some([child] + rest)
  }

  /** decode. */
  function Decode(data: Bytes): Option<Node>
  {
    var (node, end) :- ReadTlv(data, 0, 0);
    if end != |data| then None else Some(node)
  }

  // ----- the same with the source's loops

  method ReadElement(data: Bytes, pos: nat, depth: nat) returns (r: Option<(Node, nat)>)
    ensures r == ReadTlv(data, pos, depth)
    decreases |data| - pos, 0
  {
    if pos >= |data| || !ValidTag(data[pos]) {
      return None;
    }
    var tag := data[pos];
    var header := ReadLength(data, pos + 1);
    if header == None {
      return None;
    }
    var (length, start) := header.value;
    var end := start + length;
    if length < 0 || end > |data| {
      return None;
    }
    var content := data[start..end];
    if !ValidContent(tag, content) {
      return None;
    }
    if !Constructed(tag) {
      return Some((Node(tag, content, []), end));
    }
    var children := ReadChildren(content, depth);
    if children == None {
      return None;
    }
    return Some((Node(tag, content, children.value), end));
  }

  /** _read_children. */
  method ReadChildren(content: Bytes, depth: nat) returns (r: Option<seq<Node>>)
    ensures r == if depth >= MAX_NESTING then None else ReadFrom(content, 0, depth + 1)
    decreases |content|, 2
  {
    if depth >= MAX_NESTING {
      return None;
    }
    r := ReadSequence(content, depth + 1);
  }

  /** The loop of _read_children and of decode_all. */
  method ReadSequence(content: Bytes, depth: nat) returns (r: Option<seq<Node>>)
    ensures r == ReadFrom(content, 0, depth)
    decreases |content|, 1
  {
    hide ReadTlv;
    var kids: seq<Node> := [];
    var pos := 0;
    PrependNothing(ReadFrom(content, 0, depth));
    while pos < |content|
      invariant 0 <= pos <= |content|
      invariant ReadFrom(content, 0, depth) == Prepended(kids, ReadFrom(content, pos, depth))
    {
      var child := ReadElement(content, pos, depth);
      if child == None {
        return None;
      }
      var rest := ReadFrom(content, child.value.1, depth);
      assert rest.Some? ==> kids + ([child.value.0] + rest.value) == (kids + [child.value.0]) + rest.value;
      kids := kids + [child.value.0];
      pos := child.value.1;
    }
    assert kids + [] == kids;
    r := Some(kids);
  }

  lemma PrependNothing<T>(tail: Option<seq<T>>)
    ensures Prepended([], tail) == tail
  {
    assert tail.Some? ==> [] + tail.value == tail.value;
  }

  function Prepended<T>(head: seq<T>, tail: Option<seq<T>>): Option<seq<T>>
  {
    match tail case None => None case Some(rest) => Some(head + rest)
  }

  /** decode_all: a concatenation of elements. */
  method DecodeAll(data: Bytes) returns (r: Option<seq<Node>>)
    ensures r == ReadFrom(data, 0, 0)
    ensures IsBytes(data) ==> forall nodes :: r == Some(nodes) <==> AllWellFormed(nodes, 0) && data == EncodeAll(nodes)
  {
    hide ReadFrom, AllWellFormed, EncodeAll;
    if IsBytes(data) {
      forall nodes ensures ReadFrom(data, 0, 0) == Some(nodes) <==> AllWellFormed(nodes, 0) && data == EncodeAll(nodes) {
        DecodeAllIff(data, nodes);
      }
    }
    r := ReadSequence(data, 0);
  }

  // ----- writing

  /** encode_tlv of a tag accepted by it. */
  function EncodeTlv(tag: int, content: Bytes): (r: Bytes)
    ensures |r| >= 2
  {
    [tag] + EncodeLength(|content|) + content
  }

  /** The encoding rebuilt from the leaves. */
  function Encode(node: Node): (r: Bytes)
    ensures |r| >= 2
    decreases node
  {
    EncodeTlv(node.tag, if Constructed(node.tag) then EncodeAll(node.children) else node.content)
  }

  function EncodeAll(nodes: seq<Node>): Bytes
    decreases nodes
  {
    if nodes == [] then [] else Encode(nodes[0]) + EncodeAll(nodes[1..])
  }

  /** A tree that DER allows below the given depth: at most 64 nested constructed
      elements and lengths below 2^64. */
  ghost predicate WellFormed(node: Node, depth: nat)
    decreases node
  {
    && ValidTag(node.tag) && ValidContent(node.tag, node.content) && |node.content| < Exp2(8 * MAX_LEN_OCTETS)
    && if Constructed(node.tag)
       then depth < MAX_NESTING && node.content == EncodeAll(node.children) && AllWellFormed(node.children, depth + 1)
       else node.children == []
  }

  ghost predicate AllWellFormed(nodes: seq<Node>, depth: nat)
    decreases nodes
  {
    nodes == [] || (WellFormed(nodes[0], depth) && AllWellFormed(nodes[1..], depth))
  }

  // ----- lengths are canonical

  /** n has k bytes exactly when 256^(k-1) <= n < 256^k. */
  lemma ByteLengthIs(n: nat, k: nat)
    requires k >= 1 && Exp2(8 * (k - 1)) <= n < Exp2(8 * k)
    ensures ByteLength(n) == k
  {
    BitLengthBounds(n);
    var b := BitLength(n);
    if b <= 8 * (k - 1) {
      Exp2Monotone(b, 8 * (k - 1));
    }
    if b > 8 * k {
      Exp2Monotone(8 * k, b - 1);
    }
  }

  lemma ByteLengthBound(n: nat, k: nat)
    requires n < Exp2(8 * k)
    ensures ByteLength(n) <= k && n < Exp2(8 * ByteLength(n))
    ensures n > 0 ==> ByteLength(n) >= 1 && Exp2(8 * (ByteLength(n) - 1)) <= n
  {
    BitLengthBounds(n);
    var b := BitLength(n);
    Exp2Monotone(b, 8 * ByteLength(n));
    if b > 8 * k {
      Exp2Monotone(8 * k, b - 1);
    }
    if n > 0 {
      Exp2Monotone(8 * (ByteLength(n) - 1), b - 1);
    }
  }

  /** The first byte of a minimal number is not zero. */
  lemma LeadingByte(s: Bytes)
    requires IsBytes(s) && s != []
    ensures s[0] != 0 <==> Exp2(8 * (|s| - 1)) <= Os2ip(s)
  {
    if s[0] == 0 {
      assert Exp2(0) == 1;
      Os2ipBound(s, 0);
    } else {
      Os2ipAtLeast(s);
    }
  }

  lemma {:induction false} Os2ipAtLeast(s: Bytes)
    requires IsBytes(s) && s != [] && s[0] >= 1
    ensures Os2ip(s) >= Exp2(8 * (|s| - 1))
  {
    var n := |s| - 1;
    if n > 0 {
      Os2ipAtLeast(s[..n]);
      NextOctet(n);
      hide Exp2;
    } else {
      assert s[..0] == [];
    }
  }

  /** Reading an encoded length. */
  lemma ReadEncoded(data: Bytes, pos: nat, n: nat)
    requires IsBytes(data) && n < Exp2(8 * MAX_LEN_OCTETS)
    requires pos + |EncodeLength(n)| <= |data| && data[pos..pos + |EncodeLength(n)|] == EncodeLength(n)
    ensures ReadLength(data, pos) == Some((n, pos + |EncodeLength(n)|))
  {
    hide Exp2, Os2ip, ToBytes, ByteLength;
    var e := EncodeLength(n);
    assert data[pos] == e[0];
    if n >= 0x80 {
      var k := ByteLength(n);
      ByteLengthBound(n, MAX_LEN_OCTETS);
      ToBytesRoundTrip(n, k);
      LeadingByte(ToBytes(n, k));
      assert data[pos + 1..pos + 1 + k] == e[1..] == ToBytes(n, k);
      assert data[pos + 1] == e[1];
    }
  }

  /** A length that can be read is encoded canonically. */
  lemma ReadCanonical(data: Bytes, pos: nat)
    requires IsBytes(data) && ReadLength(data, pos).Some?
    ensures var (n, end) := ReadLength(data, pos).value;
            0 <= n < Exp2(8 * MAX_LEN_OCTETS) && data[pos..end] == EncodeLength(n)
  {
    hide Os2ip, ToBytes, ByteLength, Exp2;
    ShortLength();
    if data[pos] >= 0x80 {
      var k := data[pos] % 0x80;
      CanonicalLong(data[pos + 1..pos + 1 + k], k);
      assert data[pos..pos + 1 + k] == [data[pos]] + data[pos + 1..pos + 1 + k];
    }
  }

  lemma ShortLength()
    ensures 0x80 <= Exp2(8 * MAX_LEN_OCTETS)
  {
    Exp2Monotone(7, 8 * MAX_LEN_OCTETS);
    assert Exp2(7) == 128;
  }

  lemma CanonicalLong(raw: Bytes, k: nat)
    requires IsBytes(raw) && 1 <= k <= MAX_LEN_OCTETS && |raw| == k && raw[0] != 0
    ensures 0 <= Os2ip(raw) < Exp2(8 * MAX_LEN_OCTETS)
    ensures ByteLength(Os2ip(raw)) == k && ToBytes(Os2ip(raw), k) == raw
  {
    hide Os2ip, ToBytes, ByteLength, Exp2;
    MinimalBytes(raw);
    Os2ipNonNegative(raw);
    Exp2Monotone(8 * k, 8 * MAX_LEN_OCTETS);
  }

  // ----- reading accepts only encodings

  /** What is read is a well-formed tree whose encoding is the bytes that were read. */
  lemma {:induction false} ReadSound(data: Bytes, pos: nat, depth: nat)
    requires IsBytes(data) && ReadTlv(data, pos, depth).Some?
    ensures var (node, end) := ReadTlv(data, pos, depth).value;
            WellFormed(node, depth) && data[pos..end] == Encode(node)
    decreases |data| - pos, 0
  {
    hide ReadLength, ValidTag, ValidContent, EncodeLength, Exp2, ReadFrom, AllWellFormed, Constructed;
    ReadCanonical(data, pos + 1);
    var tag := data[pos];
    var (length, start) := ReadLength(data, pos + 1).value;
    var end := start + length;
    var content := data[start..end];
    if Constructed(tag) {
      ReadFromSound(content, 0, depth + 1);
      assert content[0..] == content;
    }
    assert data[pos..end] == [tag] + data[pos + 1..start] + content;
  }

  lemma {:induction false} ReadFromSound(content: Bytes, pos: nat, depth: nat)
    requires IsBytes(content) && pos <= |content| && ReadFrom(content, pos, depth).Some?
    ensures AllWellFormed(ReadFrom(content, pos, depth).value, depth)
    ensures content[pos..] == EncodeAll(ReadFrom(content, pos, depth).value)
    decreases |content| - pos, 1
  {
    hide ReadTlv, WellFormed, Encode;
    if pos < |content| {
      var (child, end) := ReadTlv(content, pos, depth).value;
      ReadSound(content, pos, depth);
      ReadFromSound(content, end, depth);
      var rest := ReadFrom(content, end, depth).value;
      assert ([child] + rest)[1..] == rest;
      assert content[pos..] == content[pos..end] + content[end..];
    }
  }

  // ----- encodings are read back

  lemma {:induction false} ReadComplete(data: Bytes, pos: nat, depth: nat, node: Node)
    requires IsBytes(data) && WellFormed(node, depth)
    requires pos + |Encode(node)| <= |data| && data[pos..pos + |Encode(node)|] == Encode(node)
    ensures ReadTlv(data, pos, depth) == Some((node, pos + |Encode(node)|))
    decreases node
  {
    hide ReadLength, ValidTag, ValidContent, EncodeLength, Exp2, ReadFrom, AllWellFormed, Constructed, EncodeAll;
    HeaderParts(data, pos, node.tag, node.content);
    ReadEncoded(data, pos + 1, |node.content|);
    var start := pos + 1 + |EncodeLength(|node.content|)|;
    if Constructed(node.tag) {
      assert IsBytes(node.content) by { SliceBytes(data, start, start + |node.content|); }
      ReadFromComplete(node.content, 0, depth + 1, node.children);
    }
  }

  lemma SliceBytes(data: Bytes, lo: nat, hi: nat)
    requires IsBytes(data) && lo <= hi <= |data|
    ensures IsBytes(data[lo..hi])
  {}

  lemma HeaderParts(data: Bytes, pos: nat, tag: int, content: Bytes)
    requires pos + |EncodeTlv(tag, content)| <= |data|
    requires data[pos..pos + |EncodeTlv(tag, content)|] == EncodeTlv(tag, content)
    ensures var h := EncodeLength(|content|);
            && data[pos] == tag && data[pos + 1..pos + 1 + |h|] == h
            && data[pos + 1 + |h|..pos + 1 + |h| + |content|] == content
            && |EncodeTlv(tag, content)| == 1 + |h| + |content|
  {
    hide EncodeLength;
    var e, h := EncodeTlv(tag, content), EncodeLength(|content|);
    SliceOfSlice(data, pos, |e|, 0, 1);
    SliceOfSlice(data, pos, |e|, 1, 1 + |h|);
    SliceOfSlice(data, pos, |e|, 1 + |h|, |e|);
    assert e[0..1] == [tag] && e[1..1 + |h|] == h && e[1 + |h|..|e|] == content;
  }

  lemma SliceOfSlice(data: Bytes, pos: nat, n: nat, a: nat, b: nat)
    requires pos + n <= |data| && a <= b <= n
    ensures data[pos..pos + n][a..b] == data[pos + a..pos + b]
  {
    var s, t := data[pos..pos + n][a..b], data[pos + a..pos + b];
    forall k | 0 <= k < |s| ensures s[k] == t[k] {}
  }

  lemma {:induction false} ReadFromComplete(content: Bytes, pos: nat, depth: nat, nodes: seq<Node>)
    requires IsBytes(content) && pos <= |content| && content[pos..] == EncodeAll(nodes) && AllWellFormed(nodes, depth)
    ensures ReadFrom(content, pos, depth) == Some(nodes)
    decreases nodes
  {
    hide ReadTlv, WellFormed, Encode;
    if nodes != [] {
      var e := Encode(nodes[0]);
      assert content[pos..][..|e|] == e && content[pos..][|e|..] == EncodeAll(nodes[1..]);
      assert content[pos..pos + |e|] == content[pos..][..|e|];
      assert content[pos + |e|..] == content[pos..][|e|..];
      ReadComplete(content, pos, depth, nodes[0]);
      ReadFromComplete(content, pos + |e|, depth, nodes[1..]);
      assert nodes == [nodes[0]] + nodes[1..];
    }
  }

  /** Decoding succeeds with a tree exactly when the tree is well formed and the data is
      its encoding. */
  lemma DecodeIff(data: Bytes, node: Node)
    requires IsBytes(data)
    ensures Decode(data) == Some(node) <==> WellFormed(node, 0) && data == Encode(node)
  {
    hide ReadTlv, WellFormed, Encode;
    if Decode(data) == Some(node) {
      ReadSound(data, 0, 0);
      assert data[0..|data|] == data;
    }
    if WellFormed(node, 0) && data == Encode(node) {
      assert data[0..|data|] == data;
      ReadComplete(data, 0, 0, node);
    }
  }

  /** The same for a concatenation of elements. */
  lemma DecodeAllIff(data: Bytes, nodes: seq<Node>)
    requires IsBytes(data)
    ensures ReadFrom(data, 0, 0) == Some(nodes) <==> AllWellFormed(nodes, 0) && data == EncodeAll(nodes)
  {
    hide ReadFrom, AllWellFormed, EncodeAll;
    assert data[0..] == data;
    if ReadFrom(data, 0, 0) == Some(nodes) {
      ReadFromSound(data, 0, 0);
    }
    if AllWellFormed(nodes, 0) && data == EncodeAll(nodes) {
      ReadFromComplete(data, 0, 0, nodes);
    }
  }

  // ----- integers

  /** The content octets of encode_integer. */
  function IntegerContent(v: nat): Bytes
  {
    var raw := ToBytes(v, if v == 0 then 1 else ByteLength(v));
    if raw != [] && raw[0] >= 0x80 then [0] + raw else raw
  }

  /** Every number is read back from a valid content. */
  lemma IntegerRoundTrip(v: nat)
    ensures var c := IntegerContent(v);
            IsBytes(c) && ValidInteger(c) && c[0] < 0x80 && Os2ip(c) == v
  {
    hide Exp2, Os2ip, ToBytes, ByteLength;
    var k := if v == 0 then 1 else ByteLength(v);
    BitLengthFits(v);
    ByteLengthBound(v, ByteLength(v));
    ZeroFits();
    ToBytesRoundTrip(v, k);
    var raw := ToBytes(v, k);
    LeadingByte(raw);
    if raw[0] >= 0x80 {
      PrependZero(raw);
    }
  }

  lemma BitLengthFits(v: nat)
    ensures v < Exp2(8 * ByteLength(v))
  {
    BitLengthBounds(v);
    Exp2Monotone(BitLength(v), 8 * ByteLength(v));
  }

  lemma ZeroFits()
    ensures 0 < Exp2(8)
  {}

  lemma {:induction false} PrependZero(s: Bytes)
    ensures Os2ip([0] + s) == Os2ip(s)
  {
    var t := [0] + s;
    if s == [] {
      assert t[..0] == [];
    } else {
      assert t[..|t| - 1] == [0] + s[..|s| - 1];
      PrependZero(s[..|s| - 1]);
    }
  }

  /** A valid content that is not negative is the one the encoder writes. */
  lemma IntegerUnique(content: Bytes)
    requires IsBytes(content) && ValidInteger(content) && content[0] < 0x80
    ensures Os2ip(content) >= 0 && IntegerContent(Os2ip(content)) == content
  {
    hide Exp2, Os2ip, ToBytes, ByteLength;
    Os2ipNonNegative(content);
    if |content| > 1 && content[0] == 0 {
      var raw := content[1..];
      assert content == [0] + raw;
      PrependZero(raw);
      MinimalBytes(raw);
    } else if content[0] != 0 {
      MinimalBytes(content);
    } else {
      SingleZero(content);
    }
  }

  lemma MinimalBytes(s: Bytes)
    requires IsBytes(s) && s != [] && s[0] != 0
    ensures 0 < Os2ip(s) && ByteLength(Os2ip(s)) == |s| && ToBytes(Os2ip(s), |s|) == s
  {
    hide Os2ip, ToBytes, ByteLength, Exp2;
    Os2ipRoundTrip(s);
    Os2ipNonNegative(s);
    LeadingByte(s);
    Exp2Positive(8 * (|s| - 1));
    ByteLengthIs(Os2ip(s), |s|);
  }

  lemma Exp2Positive(n: nat)
    ensures Exp2(n) >= 1
  {}

  lemma SingleZero(s: Bytes)
    requires s == [0]
    ensures Os2ip(s) == 0 && ToBytes(0, 1) == s
  {
    assert s[..0] == [];
  }

  // ----- object identifiers

  /** _base128: seven bits a byte, the top bit set on all but the last. */
  function Base128(v: nat): (r: Bytes)
    ensures |r| >= 1
  {
    High(v / 0x80) + [v % 0x80]
  }

  function High(v: nat): Bytes
  {
    if v == 0 then [] else High(v / 0x80) + [0x80 + v % 0x80]
  }

  /** The content octets of encode_oid for the combined first arc and the others. */
  function EncodeArcs(arcs: seq<nat>): Bytes
  {
    if arcs == [] then [] else Base128(arcs[0]) + EncodeArcs(arcs[1..])
  }

  /** Parsing the leading bytes of an arc accumulates its high bits. */
  lemma {:induction false} ParseHigh(content: Bytes, i: nat, v: nat)
    requires i + |High(v)| <= |content| && content[i..i + |High(v)|] == High(v)
    ensures ParseArc(content, i, 0) == ParseArc(content, i + |High(v)|, v)
    decreases v
  {
    if v > 0 {
      var n := |High(v / 0x80)|;
      assert content[i..i + n] == content[i..i + n + 1][..n] == High(v / 0x80);
      ParseHigh(content, i, v / 0x80);
      assert content[i + n] == content[i..i + n + 1][n] == 0x80 + v % 0x80;
      HighEmpty(v / 0x80);
    }
  }

  lemma HighEmpty(v: nat)
    ensures v == 0 <==> High(v) == []
  {}

  lemma ParseBase128(content: Bytes, i: nat, v: nat)
    requires i + |Base128(v)| <= |content| && content[i..i + |Base128(v)|] == Base128(v)
    ensures ParseArc(content, i, 0) == Some((v, i + |Base128(v)|))
  {
    var n := |High(v / 0x80)|;
    assert content[i..i + n] == content[i..i + n + 1][..n] == High(v / 0x80);
    assert content[i + n] == content[i..i + n + 1][n] == v % 0x80;
    ParseHigh(content, i, v / 0x80);
  }

  /** Every list of arcs is read back. */
  lemma {:induction false} ArcsRoundTrip(content: Bytes, i: nat, arcs: seq<nat>)
    requires i <= |content| && content[i..] == EncodeArcs(arcs)
    ensures ParseArcs(content, i) == Some(arcs)
    decreases arcs
  {
    hide ParseArc, Base128;
    if arcs != [] {
      var b := Base128(arcs[0]);
      assert content[i..][..|b|] == b && content[i..][|b|..] == EncodeArcs(arcs[1..]);
      assert content[i..i + |b|] == content[i..][..|b|] && content[i + |b|..] == content[i..][|b|..];
      ParseBase128(content, i, arcs[0]);
      ArcsRoundTrip(content, i + |b|, arcs[1..]);
      assert arcs == [arcs[0]] + arcs[1..];
    }
  }

  /** An arc that parses from an accumulated value is written with that value's high
      bytes in front. */
  lemma {:induction false} ArcUnique(content: Bytes, i: nat, value: nat)
    requires IsBytes(content) && ParseArc(content, i, value).Some?
    ensures var (arc, j) := ParseArc(content, i, value).value;
            High(value) + content[i..j] == Base128(arc)
    decreases |content| - i
  {
    var next: nat := value * 0x80 + content[i] % 0x80;
    assert next / 0x80 == value && next % 0x80 == content[i] % 0x80;
    if content[i] < 0x80 {
      assert content[i..i + 1] == [content[i]];
    } else {
      ArcUnique(content, i + 1, next);
      var j := ParseArc(content, i + 1, next).value.1;
      assert content[i..j] == [content[i]] + content[i + 1..j];
      assert High(next) == High(value) + [content[i]];
      assert High(value) + ([content[i]] + content[i + 1..j]) == High(value) + [content[i]] + content[i + 1..j];
    }
  }

  /** Arcs that parse are written back to the same bytes. */
  lemma {:induction false} ArcsUnique(content: Bytes, i: nat)
    requires IsBytes(content) && i <= |content| && ParseArcs(content, i).Some?
    ensures EncodeArcs(ParseArcs(content, i).value) == content[i..]
    decreases |content| - i
  {
    hide ParseArc, Base128;
    if i < |content| {
      var (arc, j) := ParseArc(content, i, 0).value;
      ArcUnique(content, i, 0);
      ArcsUnique(content, j);
      var rest := ParseArcs(content, j).value;
      assert ([arc] + rest)[1..] == rest;
      assert High(0) == [] && content[i..] == content[i..j] + content[j..];
    }
  }

  /** The arcs of an identifier: the first two are packed into one number. */
  predicate ValidOid(oid: seq<nat>)
  {
    |oid| >= 2 && oid[0] <= 2 && (oid[0] < 2 ==> oid[1] <= 39)
  }

  /** encode_oid without the outer element. */
  function OidContent(oid: seq<nat>): Bytes
    requires ValidOid(oid)
  {
    EncodeArcs([40 * oid[0] + oid[1]] + oid[2..])
  }

  /** oid_value as a list of arcs. */
  function OidValue(content: Bytes): (r: Option<seq<nat>>)
    ensures r.Some? ==> |r.value| >= 2
  {
    var arcs :- ParseArcs(content, 0);
    if arcs == [] then None
    else
      var arc0: nat := if arcs[0] / 40 < 2 then arcs[0] / 40 else 2;
      Some([arc0, arcs[0] - arc0 * 40] + arcs[1..])
  }

  /** Identifiers and their content octets correspond one to one. */
  lemma OidIff(content: Bytes, oid: seq<nat>)
    requires IsBytes(content)
    ensures OidValue(content) == Some(oid) <==> ValidOid(oid) && content == OidContent(oid)
  {
    hide ParseArcs, EncodeArcs;
    if OidValue(content) == Some(oid) {
      ArcsUnique(content, 0);
      var arcs := ParseArcs(content, 0).value;
      assert [40 * oid[0] + oid[1]] + oid[2..] == arcs;
      assert content[0..] == content;
    }
    if ValidOid(oid) && content == OidContent(oid) {
      var arcs := [40 * oid[0] + oid[1]] + oid[2..];
      assert content[0..] == content;
      ArcsRoundTrip(content, 0, arcs);
      assert [oid[0], oid[1]] + arcs[1..] == oid;
    }
  }
}
