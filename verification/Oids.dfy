/** Object identifiers in dotted-decimal text, and the loops that read and write base 128. */
module Oids {
  import opened Options
  import opened Octets
  import opened Der

  // ----- base 128 with the source's loops

  /** _parse_base128. */
  method ParseBase128Loop(content: Bytes) returns (r: Option<seq<nat>>)
    ensures r == ParseArcs(content, 0)
  {
    hide ParseArc;
    var arcs: seq<nat> := [];
    var i := 0;
    PrependNothing(ParseArcs(content, 0));
    while i < |content|
      invariant 0 <= i <= |content| && ParseArcs(content, 0) == Prepended(arcs, ParseArcs(content, i))
    {
      var one := ParseOneArc(content, i);
      if one == None {
        return None;
      }
      var rest := ParseArcs(content, one.value.1);
      assert rest.Some? ==> arcs + ([one.value.0] + rest.value) == (arcs + [one.value.0]) + rest.value;
      arcs := arcs + [one.value.0];
      i := one.value.1;
    }
    assert arcs + [] == arcs;
    r := Some(arcs);
  }

  /** Its inner loop. */
  method ParseOneArc(content: Bytes, start: nat) returns (r: Option<(nat, nat)>)
    ensures r == ParseArc(content, start, 0)
  {
    var i, value: nat := start, 0;
    while true
      invariant i <= |content| || i == start
      invariant ParseArc(content, start, 0) == ParseArc(content, i, value)
      decreases |content| - i
    {
      if i >= |content| {
        return None;
      }
      var octet := content[i];
      if value == 0 && octet == 0x80 {
        return None;
      }
      LowSeven(octet);
      value := value * 0x80 + octet % 0x80;
      i := i + 1;
      if octet < 0x80 {
        return Some((value, i));
      }
    }
  }

  /** _base128: the low seven bits go to the front, then all but the last byte are marked. */
  method Base128Loop(v: nat) returns (out: Bytes)
    ensures out == Base128(v)
  {
    var value: nat := v / 0x80;
    out := [v % 0x80];
    assert Marked(out) == out;
    while value > 0
      invariant High(value) + Marked(out) == Base128(v) && out != []
    {
      MarkedFront(value % 0x80, out);
      assert High(value) == High(value / 0x80) + [0x80 + value % 0x80];
      assert High(value / 0x80) + ([0x80 + value % 0x80] + Marked(out)) == High(value) + Marked(out);
      out := [value % 0x80] + out;
      value := value / 0x80;
    }
    assert High(value) + Marked(out) == Marked(out);
    var i := 0;
    ghost var plain := out;
    while i < |out| - 1
      invariant 0 <= i <= |out| - 1 && |out| == |plain|
      invariant forall j :: 0 <= j < |out| ==> out[j] == if j < i then 0x80 + plain[j] else plain[j]
    {
      out := out[i := 0x80 + out[i]];
      i := i + 1;
    }
    assert out == Marked(plain);
  }

  /** All bytes but the last with the top bit set. */
  function Marked(s: Bytes): (r: Bytes)
    ensures |r| == |s|
  {
    seq(|s|, j requires 0 <= j < |s| => if j < |s| - 1 then 0x80 + s[j] else s[j])
  }

  lemma MarkedFront(x: int, s: Bytes)
    requires s != []
    ensures Marked([x] + s) == [0x80 + x] + Marked(s)
  {}

  // ----- text

  type Text = seq<char>

  function Digit(d: nat): char
    requires d < 10
  {
    '0' + d as char
  }

  /** str of a number that is not negative. */
  function Decimal(n: nat): (r: Text)
    ensures r != []
  {
    if n < 10 then [Digit(n)] else Decimal(n / 10) + [Digit(n % 10)]
  }

  /** str.split with the separator '.'. */
  function Split(s: Text): (parts: seq<Text>)
    ensures |parts| >= 1
  {
    if s == [] then [[]]
    else
      var rest := Split(s[1..]);
      if s[0] == '.' then [[]] + rest else [[s[0]] + rest[0]] + rest[1..]
  }

  /** str.join with the separator '.'. */
  function Join(parts: seq<Text>): Text
    requires parts != []
  {
    if |parts| == 1 then parts[0] else parts[0] + ['.'] + Join(parts[1..])
  }

  ghost predicate NoDot(s: Text) { '.' !in s }

  lemma {:induction false} DecimalHasNoDot(n: nat)
    ensures NoDot(Decimal(n))
    decreases n
  {
    if n >= 10 {
      DecimalHasNoDot(n / 10);
    }
  }

  lemma {:induction false} SplitOne(s: Text)
    requires NoDot(s)
    ensures Split(s) == [s]
    decreases |s|
  {
    if s != [] {
      assert s[0] != '.' && s[1..] <= s[1..];
      SplitOne(s[1..]);
      assert s == [s[0]] + s[1..];
    }
  }

  lemma {:induction false} SplitFirst(s: Text, rest: Text)
    requires NoDot(s)
    ensures Split(s + ['.'] + rest) == [s] + Split(rest)
    decreases |s|
  {
    var whole := s + ['.'] + rest;
    if s == [] {
      assert whole[1..] == rest;
    } else {
      assert s[0] in s;
      assert whole[1..] == s[1..] + ['.'] + rest;
      SplitFirst(s[1..], rest);
      assert s == [s[0]] + s[1..];
      assert ([s[1..]] + Split(rest))[1..] == Split(rest);
    }
  }

  /** Splitting a join gives the parts back. */
  lemma {:induction false} SplitJoin(parts: seq<Text>)
    requires parts != [] && forall i :: 0 <= i < |parts| ==> NoDot(parts[i])
    ensures Split(Join(parts)) == parts
    decreases |parts|
  {
    if |parts| == 1 {
      SplitOne(parts[0]);
    } else {
      SplitJoin(parts[1..]);
      SplitFirst(parts[0], Join(parts[1..]));
      assert parts == [parts[0]] + parts[1..];
    }
  }

  function Decimals(arcs: seq<nat>): (r: seq<Text>)
    ensures |r| == |arcs|
  {
    seq(|arcs|, i requires 0 <= i < |arcs| => Decimal(arcs[i]))
  }

  // ----- identifiers as text

  /** int(p, 10) may accept more spellings than str writes; it must read those. */
  ghost predicate ReadsDecimals(int10: Text -> Option<int>)
  {
    forall n: nat :: int10(Decimal(n)) == Some(n)
  }

  /** The numbers of all parts; None when one is no number or negative. */
  function Numbers(int10: Text -> Option<int>, parts: seq<Text>): (r: Option<seq<nat>>)
    ensures r.Some? ==> |r.value| == |parts|
  {
    if parts == [] then Some([])
    else
      var first :- int10(parts[0]);
      var rest :- Numbers(int10, parts[1..]);
      if first < 0 then None else Some([first] + rest)
  }

  /** encode_oid without the outer element. */
  function EncodeText(int10: Text -> Option<int>, dotted: Text): Option<Bytes>
  {
    var parts := Split(dotted);
    if |parts| < 2 then None
    else
      var arcs :- Numbers(int10, parts);
      if ValidOid(arcs) then Some(OidContent(arcs)) else None
  }

  /** oid_value. */
  function DecodeText(content: Bytes): Option<Text>
  {
    var arcs :- OidValue(content);
    Some(Join(Decimals(arcs)))
  }

  lemma {:induction false} NumbersOfDecimals(int10: Text -> Option<int>, arcs: seq<nat>)
    requires ReadsDecimals(int10)
    ensures Numbers(int10, Decimals(arcs)) == Some(arcs)
    decreases |arcs|
  {
    if arcs != [] {
      assert int10(Decimal(arcs[0])) == Some(arcs[0]);
      assert Decimals(arcs)[1..] == Decimals(arcs[1..]);
      NumbersOfDecimals(int10, arcs[1..]);
      assert arcs == [arcs[0]] + arcs[1..];
    }
  }

  lemma TextOfArcs(int10: Text -> Option<int>, arcs: seq<nat>)
    requires ReadsDecimals(int10) && arcs != []
    ensures Split(Join(Decimals(arcs))) == Decimals(arcs)
    ensures Numbers(int10, Split(Join(Decimals(arcs)))) == Some(arcs)
  {
    forall i | 0 <= i < |arcs| ensures NoDot(Decimals(arcs)[i]) {
      DecimalHasNoDot(arcs[i]);
    }
    SplitJoin(Decimals(arcs));
    NumbersOfDecimals(int10, arcs);
  }

  /** The text of an identifier is encoded back to the same content. */
  lemma TextRoundTrip(int10: Text -> Option<int>, content: Bytes)
    requires IsBytes(content) && ReadsDecimals(int10) && DecodeText(content).Some?
    ensures EncodeText(int10, DecodeText(content).value) == Some(content)
  {
    hide OidContent, OidValue, Split, Join, Numbers, ReadsDecimals;
    var arcs := OidValue(content).value;
    OidIff(content, arcs);
    TextOfArcs(int10, arcs);
  }

  lemma {:induction false} HighIsBytes(v: nat)
    ensures IsBytes(High(v))
    decreases v
  {
    if v > 0 {
      HighIsBytes(v / 0x80);
    }
  }

  lemma {:induction false} ArcsAreBytes(arcs: seq<nat>)
    ensures IsBytes(EncodeArcs(arcs))
    decreases arcs
  {
    if arcs != [] {
      HighIsBytes(arcs[0] / 0x80);
      ArcsAreBytes(arcs[1..]);
    }
  }

  /** Whatever text is encoded, however its numbers are spelled, decodes to the text that
      writes the same arcs in plain decimals. */
  lemma TextNormalised(int10: Text -> Option<int>, dotted: Text)
    requires EncodeText(int10, dotted).Some?
    ensures Numbers(int10, Split(dotted)).Some?
    ensures DecodeText(EncodeText(int10, dotted).value) == Some(Join(Decimals(Numbers(int10, Split(dotted)).value)))
  {
    hide OidValue, Split, Join, Numbers, EncodeArcs;
    var arcs := Numbers(int10, Split(dotted)).value;
    ArcsAreBytes([40 * arcs[0] + arcs[1]] + arcs[2..]);
    OidIff(OidContent(arcs), arcs);
  }
}
