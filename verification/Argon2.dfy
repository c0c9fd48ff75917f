/** The memory fill of Argon2 (sections 3.2 and 3.4 of RFC 9106): lanes, slices and
    passes over one flat block list, with the compression function as a parameter. */
module Argon2 {
  import opened ModArith

  const SLICES: nat := 4
  const WORDS: nat := 128
  const TWO32: nat := 0x1_0000_0000

  const ARGON2D: nat := 0
  const ARGON2I: nat := 1
  const ARGON2ID: nat := 2

  type Block = b: seq<bv64> | |b| == WORDS witness seq(WORDS, i => 0)

  /** One call of argon2 after its parameters are fixed; segment is the segment length. */
  datatype Config = Config(lanes: nat, segment: nat, passes: nat, variant: nat, version: nat,
                           compress: (Block, Block) -> Block) {
    function LaneLength(): nat { SLICES * segment }

    function MPrime(): nat { lanes * LaneLength() }

    ghost predicate Valid() { lanes >= 1 && segment >= 2 }

    predicate DataIndependent(pass: nat, slice: nat)
    {
      variant == ARGON2I || (variant == ARGON2ID && pass == 0 && slice < SLICES / 2)
    }
  }

  /** The segment length that argon2 derives from memory_cost and parallelism. */
  function SegmentLength(memoryCost: nat, parallelism: nat): nat
    requires parallelism >= 1
  {
    Quarters(memoryCost, parallelism);
    4 * parallelism * (memoryCost / (4 * parallelism)) / parallelism / SLICES
  }

  lemma Quarters(memoryCost: nat, p: nat)
    requires p >= 1
    ensures var k := memoryCost / (4 * p);
            k >= 0 && 4 * p * k / p / SLICES == k && p * (SLICES * k) == 4 * p * k
    ensures 4 * p * (memoryCost / (4 * p)) <= memoryCost < 4 * p * (memoryCost / (4 * p)) + 4 * p
  {
    DivisionFacts(memoryCost, 4 * p);
    ExactQuarters(p, memoryCost / (4 * p));
  }

  lemma DivisionFacts(m: nat, w: nat)
    requires w >= 1
    ensures m / w >= 0 && w * (m / w) <= m < w * (m / w) + w
  {
    assert m == w * (m / w) + m % w;
  }

  lemma ExactQuarters(p: nat, k: nat)
    requires p >= 1
    ensures 4 * p * k / p == 4 * k && p * (SLICES * k) == 4 * p * k
  {
    assert 4 * p * k == 4 * k * p + 0;
    if p > 1 {
      RemainderUnique(4 * k, 0, p);
    }
  }

  /** Accepted parameters give segments of at least two blocks that tile the memory. */
  lemma Sizing(memoryCost: nat, parallelism: nat)
    requires parallelism >= 1 && memoryCost >= 8 * parallelism
    ensures var s := SegmentLength(memoryCost, parallelism);
            && s >= 2 && parallelism * (SLICES * s) <= memoryCost < parallelism * (SLICES * (s + 1))
            && parallelism * (SLICES * s) == 4 * parallelism * (memoryCost / (4 * parallelism))
  {
    var k := memoryCost / (4 * parallelism);
    Quarters(memoryCost, parallelism);
    assert parallelism * (SLICES * (k + 1)) == 4 * parallelism * k + 4 * parallelism;
    if k <= 1 {
      MulLe(k, 1, 4 * parallelism);
      assert false;
    }
  }

  // ----- words

  function Low(w: bv64): (j: nat)
    ensures j < TWO32
  {
    (w as nat) % TWO32
  }

  function High(w: bv64): nat { (w as nat) / TWO32 }

  function Xor(a: Block, b: Block): Block
  {
    seq(WORDS, i requires 0 <= i < WORDS => a[i] ^ b[i])
  }

  // ----- _address_stream

  const ZeroBlock: Block := seq(WORDS, i => 0)

  function Word(n: nat): bv64 { (n % 0x1_0000_0000_0000_0000) as bv64 }

  function AddressInput(cfg: Config, pass: nat, lane: nat, slice: nat, counter: nat): Block
  {
    [Word(pass), Word(lane), Word(slice), Word(cfg.MPrime()), Word(cfg.passes), Word(cfg.variant), Word(counter)]
    + seq(121, i => 0)
  }

  function AddressBlock(cfg: Config, pass: nat, lane: nat, slice: nat, counter: nat): Block
  {
    cfg.compress(ZeroBlock, cfg.compress(ZeroBlock, AddressInput(cfg, pass, lane, slice, counter)))
  }

  /** The word behind the n-th pair of the stream. */
  function AddressWord(cfg: Config, pass: nat, lane: nat, slice: nat, n: nat): bv64
  {
    AddressBlock(cfg, pass, lane, slice, n / WORDS + 1)[n % WORDS]
  }

  /** The generator: it computes a block of addresses when the last one is used up. */
  class AddressStream {
    const cfg: Config
    const pass: nat
    const lane: nat
    const slice: nat
    var counter: nat
    var block: Block
    var used: nat
    ghost var taken: nat

    ghost predicate Valid()
      reads this
    {
      && used <= WORDS
      && WORDS * counter + used == taken + WORDS
      && (used < WORDS ==> counter >= 1 && block == AddressBlock(cfg, pass, lane, slice, counter))
    }

    constructor (cfg: Config, pass: nat, lane: nat, slice: nat)
      ensures Valid() && taken == 0
      ensures this.cfg == cfg && this.pass == pass && this.lane == lane && this.slice == slice
    {
      this.cfg, this.pass, this.lane, this.slice := cfg, pass, lane, slice;
      counter, used, taken := 0, WORDS, 0;
      block := ZeroBlock;
    }

    method Next() returns (w: bv64)
      requires Valid()
      modifies this
      ensures Valid() && taken == old(taken) + 1
      ensures w == AddressWord(cfg, pass, lane, slice, old(taken))
    {
      hide AddressBlock;
      if used == WORDS {
        counter := counter + 1;
        block := AddressBlock(cfg, pass, lane, slice, counter);
        used := 0;
      }
      assert taken / WORDS + 1 == counter && taken % WORDS == used;
      w := block[used];
      used := used + 1;
      taken := taken + 1;
    }
  }

  // ----- _index_alpha

  function RefArea(pass: nat, slice: nat, index: nat, laneLength: nat, segment: nat, sameLane: bool): int
  {
    if pass == 0 then
      if slice == 0 then index - 1
      else if sameLane then slice * segment + index - 1
      else slice * segment + (if index == 0 then -1 else 0)
    else if sameLane then laneLength - segment + index - 1
    else laneLength - segment + (if index == 0 then -1 else 0)
  }

  function Relative(area: int, j1: nat): int
  {
    area - 1 - area * (j1 * j1 / TWO32) / TWO32
  }

  function IndexAlpha(pass: nat, slice: nat, index: nat, laneLength: nat, segment: nat, j1: nat, sameLane: bool): int
    requires laneLength >= 1
  {
    var rel := Relative(RefArea(pass, slice, index, laneLength, segment, sameLane), j1);
    var start := if pass == 0 || slice == SLICES - 1 then 0 else (slice + 1) * segment;
    (start + rel) % laneLength
  }

  /** The mapped offset falls inside the window. */
  lemma RelativeInWindow(area: int, j1: nat)
    requires area >= 1 && j1 < TWO32
    ensures 0 <= Relative(area, j1) < area
  {
    SquareBelow(j1);
    ScaledBelow(area, j1 * j1 / TWO32);
  }

  lemma SquareBelow(j1: nat)
    requires j1 < TWO32
    ensures 0 <= j1 * j1 / TWO32 < TWO32
  {
    assert j1 * j1 <= (TWO32 - 1) * j1;
    assert (TWO32 - 1) * j1 <= (TWO32 - 1) * (TWO32 - 1);
  }

  lemma ScaledBelow(area: nat, x: nat)
    requires area >= 1 && x < TWO32
    ensures 0 <= area * x / TWO32 < area
  {
    MulLe(x, TWO32 - 1, area);
    MulLe(0, x, area);
  }

  /** Where a segment starts: the first two blocks of a lane are given. */
  function Start(pass: nat, slice: nat): nat
  {
    if pass == 0 && slice == 0 then 2 else 0
  }

  ghost predicate InSlice(col: int, slice: nat, segment: nat)
  {
    slice * segment <= col < (slice + 1) * segment
  }

  /** The column before col in its lane, the last one before column zero. */
  function Prev(col: nat, laneLength: nat): int
  {
    if col > 0 then col - 1 else laneLength - 1
  }

  /** The referenced column is in range, is neither the current nor the previous column
      of the own lane, and in another lane lies outside the current slice; in the first
      pass it lies before the current column. */
  lemma IndexAlphaWindow(pass: nat, slice: nat, index: nat, segment: nat, j1: nat, sameLane: bool)
    requires segment >= 2 && slice < SLICES && Start(pass, slice) <= index < segment && j1 < TWO32
    requires pass == 0 && slice == 0 ==> sameLane
    ensures var len := SLICES * segment;
            var r := IndexAlpha(pass, slice, index, len, segment, j1, sameLane);
            var cur := slice * segment + index;
            && 0 <= r < len && cur < len
            && (sameLane ==> r != cur && r != Prev(cur, len))
            && (!sameLane ==> !InSlice(r, slice, segment))
            && (pass == 0 ==> r < cur)
  {
    var area := RefArea(pass, slice, index, SLICES * segment, segment, sameLane);
    SliceColumns(slice, segment);
    RelativeInWindow(area, j1);
    hide Relative;
    var rel := Relative(area, j1);
    WindowCases(pass, slice, index, segment, rel, sameLane);
  }

  lemma SliceColumns(slice: nat, segment: nat)
    requires slice < SLICES
    ensures 0 <= slice * segment && (slice + 1) * segment == slice * segment + segment <= SLICES * segment
    ensures slice > 0 ==> segment <= slice * segment
    ensures slice == SLICES - 1 ==> (slice + 1) * segment == SLICES * segment
  {
    assert (SLICES - (slice + 1)) * segment >= 0;
    if slice > 0 {
      assert (slice - 1) * segment >= 0;
    }
  }

  /** The wrap-around of the window, for an offset inside it. */
  lemma WindowCases(pass: nat, slice: nat, index: nat, segment: nat, rel: int, sameLane: bool)
    requires segment >= 2 && slice < SLICES && Start(pass, slice) <= index < segment
    requires pass == 0 && slice == 0 ==> sameLane
    requires 0 <= rel < RefArea(pass, slice, index, SLICES * segment, segment, sameLane)
    ensures var len := SLICES * segment;
            var start := if pass == 0 || slice == SLICES - 1 then 0 else (slice + 1) * segment;
            var r := (start + rel) % len;
            var cur := slice * segment + index;
            && 0 <= r < len && cur < len
            && (sameLane ==> r != cur && r != Prev(cur, len))
            && (!sameLane ==> !InSlice(r, slice, segment))
            && (pass == 0 ==> r < cur)
  {
    SliceColumns(slice, segment);
    var len := SLICES * segment;
    var start := if pass == 0 || slice == SLICES - 1 then 0 else (slice + 1) * segment;
    Wrap(start + rel, len);
  }

  // ----- which block j1 selects

  /** When column col was last written, counting blocks of a lane over all passes from 0,
      if the columns before cut were written in this pass; negative for never. */
  function LastWritten(pass: nat, cut: nat, len: nat, col: nat): int
  {
    if col < cut then pass * len + col else (pass - 1) * len + col
  }

  /** The columns a lane shows as written: the own lane up to the current block, other lanes
      up to the current slice. */
  function Cut(slice: nat, index: nat, segment: nat, sameLane: bool): nat
  {
    slice * segment + (if sameLane then index else 0)
  }

  /** Section 3.4.2 of RFC 9106: the blocks of the last three finished segments, in the own
      lane also those of the current segment but the previous block; at the start of a
      segment the last block of another lane is left out too. */
  ghost predicate Eligible(pass: nat, slice: nat, index: nat, segment: nat, sameLane: bool, col: nat)
  {
    && col < SLICES * segment
    && var t := LastWritten(pass, Cut(slice, index, segment, sameLane), SLICES * segment, col);
       && t >= 0
       && OldestTime(pass, slice, segment) <= t < NewestTime(pass, slice, index, segment, sameLane)
  }

  /** Three segments before the current one. */
  function OldestTime(pass: nat, slice: nat, segment: nat): int
  {
    pass * (SLICES * segment) + slice * segment - (SLICES - 1) * segment
  }

  /** The time behind the newest eligible block. */
  function NewestTime(pass: nat, slice: nat, index: nat, segment: nat, sameLane: bool): int
  {
    pass * (SLICES * segment) + slice * segment
    + (if sameLane then index - 1 else if index == 0 then -1 else 0)
  }

  /** The eligible columns last written at time from or later. */
  ghost function EligibleSince(pass: nat, slice: nat, index: nat, segment: nat, sameLane: bool, from: int): set<nat>
  {
    set col: nat | col < SLICES * segment && Eligible(pass, slice, index, segment, sameLane, col)
                   && LastWritten(pass, Cut(slice, index, segment, sameLane), SLICES * segment, col) >= from
  }

  /** The column written at a time that is still shown. */
  lemma ColumnAt(pass: nat, cut: nat, len: nat, t: int, col: nat)
    requires len >= 1 && cut <= len && col < len && 0 <= t && pass * len + cut - len <= t < pass * len + cut
    ensures LastWritten(pass, cut, len, col) == t <==> col == t % len
    ensures 0 <= t % len < len
  {
    if t >= pass * len {
      TimeColumn(pass, t - pass * len, len);
      assert pass * len + (t - pass * len) == t;
    } else {
      assert (pass - 1) * len == pass * len - len;
      TimeColumn(pass - 1, t - (pass - 1) * len, len);
      assert (pass - 1) * len + (t - (pass - 1) * len) == t;
    }
    assert (pass - 1) * len == pass * len - len;
  }

  lemma TimeColumn(q: int, r: int, len: nat)
    requires len >= 1 && 0 <= r < len
    ensures (q * len + r) % len == r
  {
    if len > 1 {
      RemainderUnique(q, r, len);
    }
  }

  lemma CutFits(slice: nat, index: nat, segment: nat, sameLane: bool)
    requires slice < SLICES && index < segment
    ensures Cut(slice, index, segment, sameLane) <= SLICES * segment
  {
    SliceColumns(slice, segment);
  }

  /** Every time in the window belongs to exactly one eligible column. */
  lemma {:induction false} CountEligible(pass: nat, slice: nat, index: nat, segment: nat, sameLane: bool, from: int)
    requires segment >= 2 && slice < SLICES && index < segment
    requires 0 <= from <= NewestTime(pass, slice, index, segment, sameLane) && OldestTime(pass, slice, segment) <= from
    ensures |EligibleSince(pass, slice, index, segment, sameLane, from)|
         == NewestTime(pass, slice, index, segment, sameLane) - from
    decreases NewestTime(pass, slice, index, segment, sameLane) - from
  {
    var now := EligibleSince(pass, slice, index, segment, sameLane, from);
    if from == NewestTime(pass, slice, index, segment, sameLane) {
      assert now == {};
    } else {
      CountEligible(pass, slice, index, segment, sameLane, from + 1);
      var later := EligibleSince(pass, slice, index, segment, sameLane, from + 1);
      OneColumn(pass, slice, index, segment, sameLane, from);
      assert now == later + {from % (SLICES * segment)};
    }
  }

  lemma OneColumn(pass: nat, slice: nat, index: nat, segment: nat, sameLane: bool, from: int)
    requires segment >= 2 && slice < SLICES && index < segment && 0 <= from
    requires OldestTime(pass, slice, segment) <= from < NewestTime(pass, slice, index, segment, sameLane)
    ensures from % (SLICES * segment) >= 0
    ensures var c := from % (SLICES * segment);
            && c in EligibleSince(pass, slice, index, segment, sameLane, from)
            && c !in EligibleSince(pass, slice, index, segment, sameLane, from + 1)
            && EligibleSince(pass, slice, index, segment, sameLane, from)
            == EligibleSince(pass, slice, index, segment, sameLane, from + 1) + {c}
            && LastWritten(pass, Cut(slice, index, segment, sameLane), SLICES * segment, c) == from
  {
    var len, cut := SLICES * segment, Cut(slice, index, segment, sameLane);
    CutFits(slice, index, segment, sameLane);
    ColumnAt(pass, cut, len, from, 0);
    var c: nat := from % len;
    ColumnAt(pass, cut, len, from, c);
    forall col: nat | col < len ensures LastWritten(pass, cut, len, col) == from <==> col == c {
      ColumnAt(pass, cut, len, from, col);
    }
  }

  /** The oldest time is zero in the first pass. */
  function FirstTime(pass: nat, slice: nat, segment: nat): int
  {
    if OldestTime(pass, slice, segment) < 0 then 0 else OldestTime(pass, slice, segment)
  }

  /** The size of the reference area is the length of the window of times. */
  lemma AreaIsWindow(pass: nat, slice: nat, index: nat, segment: nat, sameLane: bool)
    requires segment >= 2 && slice < SLICES && Start(pass, slice) <= index < segment
    requires pass == 0 && slice == 0 ==> sameLane
    ensures RefArea(pass, slice, index, SLICES * segment, segment, sameLane)
         == NewestTime(pass, slice, index, segment, sameLane) - FirstTime(pass, slice, segment)
  {
    SliceColumns(slice, segment);
    if pass > 0 {
      assert pass * (SLICES * segment) >= SLICES * segment by { MulLe(1, pass, SLICES * segment); }
    }
  }

  /** An offset in the window names the column of the time that far behind its start. */
  lemma OffsetColumn(pass: nat, slice: nat, segment: nat, rel: nat)
    requires segment >= 2 && slice < SLICES
    ensures var start := if pass == 0 || slice == SLICES - 1 then 0 else (slice + 1) * segment;
            (start + rel) % (SLICES * segment) == (FirstTime(pass, slice, segment) + rel) % (SLICES * segment)
  {
    var len := SLICES * segment;
    SliceColumns(slice, segment);
    if pass > 0 {
      MulLe(1, pass, len);
      if slice == SLICES - 1 {
        assert FirstTime(pass, slice, segment) == pass * len;
        AddMultiple(rel, pass, len);
      } else {
        assert FirstTime(pass, slice, segment) == (slice + 1) * segment + (pass - 1) * len by {
          assert (pass - 1) * len == pass * len - len;
        }
        AddMultiple((slice + 1) * segment + rel, pass - 1, len);
      }
    }
  }

  /** x is j1^2 / 2^32 and t is area x / 2^32, both rounded down. */
  ghost predicate Scaled(area: nat, j1: nat, x: nat, t: nat)
  {
    x * TWO32 <= j1 * j1 < (x + 1) * TWO32 && t * TWO32 <= area * x < (t + 1) * TWO32
  }

  lemma RelativeScaled(area: nat, j1: nat)
    requires area >= 1 && j1 < TWO32
    ensures exists x: nat, t: nat :: Scaled(area, j1, x, t) && t < area && Relative(area, j1) == area - 1 - t
  {
    RelativeInWindow(area, j1);
    SquareBelow(j1);
    var x: nat := j1 * j1 / TWO32;
    MulLe(0, x, area);
    var t: nat := area * x / TWO32;
    Rounded(j1 * j1);
    Rounded(area * x);
    assert Scaled(area, j1, x, t);
  }

  lemma Rounded(v: int)
    ensures v / TWO32 * TWO32 <= v < (v / TWO32 + 1) * TWO32
  {}

  /** The two roundings together. */
  lemma ScaledQuadratic(area: nat, j1: nat, x: nat, t: nat)
    requires Scaled(area, j1, x, t) && area >= 1
    ensures t * TWO32 * TWO32 <= area * (j1 * j1) < (t + 1) * TWO32 * TWO32 + area * TWO32
  {
    MulLe(x * TWO32, j1 * j1, area);
    MulLe(j1 * j1 + 1, (x + 1) * TWO32, area);
    assert (j1 * j1 + 1) * area == area * (j1 * j1) + area;
    assert (x + 1) * TWO32 * area == area * x * TWO32 + area * TWO32;
    assert x * TWO32 * area == area * x * TWO32;
    MulLe(t * TWO32, area * x, TWO32);
    MulLe(area * x, (t + 1) * TWO32, TWO32);
  }

  /** The reference of section 3.4.2 of RFC 9106. The referenced column is eligible, and the
      number t of eligible columns written after it grows with the square of j1: t is
      area x / 2^32 for x = j1^2 / 2^32, both rounded down, where area is the number of all
      eligible columns. So j1 = 0 names the newest one. */
  lemma IndexAlphaSelects(pass: nat, slice: nat, index: nat, segment: nat, j1: nat, sameLane: bool)
    requires segment >= 2 && slice < SLICES && Start(pass, slice) <= index < segment && j1 < TWO32
    requires pass == 0 && slice == 0 ==> sameLane
    ensures var r := IndexAlpha(pass, slice, index, SLICES * segment, segment, j1, sameLane);
            var area := |EligibleSince(pass, slice, index, segment, sameLane, 0)|;
            && r >= 0 && Eligible(pass, slice, index, segment, sameLane, r)
            && var after := LastWritten(pass, Cut(slice, index, segment, sameLane), SLICES * segment, r) + 1;
               var t := |EligibleSince(pass, slice, index, segment, sameLane, after)|;
               && (exists x: nat :: Scaled(area, j1, x, t))
               && t * TWO32 * TWO32 <= area * (j1 * j1) < (t + 1) * TWO32 * TWO32 + area * TWO32
               && (j1 == 0 ==> t == 0)
  {
    hide Eligible, Scaled, Relative, RefArea;
    var len, cut := SLICES * segment, Cut(slice, index, segment, sameLane);
    var low, high := FirstTime(pass, slice, segment), NewestTime(pass, slice, index, segment, sameLane);
    var area := RefArea(pass, slice, index, len, segment, sameLane);
    AreaIsWindow(pass, slice, index, segment, sameLane);
    AreaPositive(pass, slice, index, segment, sameLane);
    RelativeScaled(area, j1);
    var x: nat, t: nat :| Scaled(area, j1, x, t) && t < area && Relative(area, j1) == area - 1 - t;
    OffsetColumn(pass, slice, segment, area - 1 - t);
    var time := high - 1 - t;
    OneColumn(pass, slice, index, segment, sameLane, time);
    CountEligible(pass, slice, index, segment, sameLane, time + 1);
    CountEligible(pass, slice, index, segment, sameLane, low);
    AllEligible(pass, slice, index, segment, sameLane);
    ScaledQuadratic(area, j1, x, t);
    if j1 == 0 {
      NewestIsZero(area, j1, x, t);
    }
  }

  /** In the own lane a reference to the current slice lies before the current column. */
  lemma OwnReferenceWritten(pass: nat, slice: nat, index: nat, segment: nat, j1: nat)
    requires segment >= 2 && slice < SLICES && Start(pass, slice) <= index < segment && j1 < TWO32
    ensures var r := IndexAlpha(pass, slice, index, SLICES * segment, segment, j1, true);
            0 <= r && (r < slice * segment + index || !InSlice(r, slice, segment))
  {
    IndexAlphaSelects(pass, slice, index, segment, j1, true);
    hide IndexAlpha;
    SliceColumns(slice, segment);
    assert (pass - 1) * (SLICES * segment) == pass * (SLICES * segment) - SLICES * segment;
  }

  lemma AreaPositive(pass: nat, slice: nat, index: nat, segment: nat, sameLane: bool)
    requires segment >= 2 && slice < SLICES && Start(pass, slice) <= index < segment
    requires pass == 0 && slice == 0 ==> sameLane
    ensures RefArea(pass, slice, index, SLICES * segment, segment, sameLane) >= 1
  {
    SliceColumns(slice, segment);
  }

  lemma AllEligible(pass: nat, slice: nat, index: nat, segment: nat, sameLane: bool)
    ensures EligibleSince(pass, slice, index, segment, sameLane, 0)
         == EligibleSince(pass, slice, index, segment, sameLane, FirstTime(pass, slice, segment))
  {}

  lemma NewestIsZero(area: nat, j1: nat, x: nat, t: nat)
    requires Scaled(area, j1, x, t) && j1 == 0
    ensures t == 0
  {}

  lemma Wrap(x: int, len: nat)
    requires 0 <= x < 2 * len
    ensures x % len == if x < len then x else x - len
  {
    if x >= len {
      assert x == len + (x - len);
    }
  }
}
