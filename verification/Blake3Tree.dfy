/** BLAKE3 as a function of the whole input: chunks, the binary tree over them
    (section 2.1 of the BLAKE3 specification) and the output stream. The
    compression function is a parameter. */
module Blake3Tree {
  const BLOCK_LEN: nat := 64
  const CHUNK_LEN: nat := 1024

  const CHUNK_START: bv8 := 1
  const CHUNK_END: bv8 := 2
  const PARENT: bv8 := 4
  const ROOT: bv8 := 8

  /** The compression function, the key words and the mode flags. */
  datatype Mode = Mode(compress: (seq<int>, seq<int>, nat, nat, bv8) -> seq<int>, key: seq<int>, flags: bv8) {
    /** A compression returns sixteen words. */
    ghost predicate Valid()
    {
      forall cv, block, counter, len, fl :: |compress(cv, block, counter, len, fl)| == 16
    }
  }

  /** One compression input that can be finalised in several ways. */
  datatype Output = Output(cv: seq<int>, block: seq<int>, counter: nat, len: nat, flags: bv8)

  function Padded(block: seq<int>, i: nat): int
  {
    if i < |block| then block[i] else 0
  }

  /** The sixteen little-endian words of a zero-padded block. */
  function WordsFromBlock(block: seq<int>): seq<int>
  {
    seq(16, i requires 0 <= i < 16 =>
      Padded(block, 4 * i) + 0x100 * Padded(block, 4 * i + 1)
      + 0x10000 * Padded(block, 4 * i + 2) + 0x1000000 * Padded(block, 4 * i + 3))
  }

  function WordByte(w: int, i: nat): int
    requires i < 4
  {
    if i == 0 then w % 0x100
    else if i == 1 then w / 0x100 % 0x100
    else if i == 2 then w / 0x10000 % 0x100
    else w / 0x1000000 % 0x100
  }

  function WordsToBytes(words: seq<int>): (r: seq<int>)
    ensures |r| == 4 * |words|
  {
    seq(4 * |words|, i requires 0 <= i < 4 * |words| => WordByte(words[i / 4], i % 4))
  }

  function ChainingValue(m: Mode, o: Output): seq<int>
    requires m.Valid()
  {
    m.compress(o.cv, o.block, o.counter, o.len, o.flags)[..8]
  }

  function ParentOutput(m: Mode, left: seq<int>, right: seq<int>): Output
  {
    Output(m.key, left + right, 0, BLOCK_LEN, m.flags | PARENT)
  }

  // ----- one chunk

  function StartFlag(blocks: nat): bv8
  {
    if blocks == 0 then CHUNK_START else 0
  }

  /** The chaining value after whole blocks that are not the last of the chunk. */
  function BlocksCv(m: Mode, blocks: seq<int>, counter: nat): seq<int>
    requires m.Valid() && |blocks| % BLOCK_LEN == 0
  {
    if blocks == [] then m.key
    else
      var n := |blocks| - BLOCK_LEN;
      m.compress(BlocksCv(m, blocks[..n], counter), WordsFromBlock(blocks[n..]), counter, BLOCK_LEN,
                 m.flags | StartFlag(n / BLOCK_LEN))[..8]
  }

  /** The number of blocks before the last one; an empty chunk has one empty block. */
  function InnerBlocks(len: nat): (r: nat)
    ensures BLOCK_LEN * r <= len <= BLOCK_LEN * (r + 1)
  {
    if len == 0 then 0 else (len - 1) / BLOCK_LEN
  }

  function ChunkOutput(m: Mode, chunk: seq<int>, counter: nat): Output
    requires m.Valid()
  {
    var n := InnerBlocks(|chunk|);
    Output(BlocksCv(m, chunk[..BLOCK_LEN * n], counter), WordsFromBlock(chunk[BLOCK_LEN * n..]), counter,
           |chunk| - BLOCK_LEN * n, m.flags | StartFlag(n) | CHUNK_END)
  }

  // ----- powers of two

  /** The largest power of two that is at most n. */
  function TopPower(n: nat): (r: nat)
    requires n >= 1
    ensures 1 <= r <= n < 2 * r
  {
    if n == 1 then 1 else 2 * TopPower(n / 2)
  }

  predicate PowerOfTwo(n: nat)
  {
    n == 1 || (n > 1 && n % 2 == 0 && PowerOfTwo(n / 2))
  }

  lemma {:induction false} TopPowerIsPower(n: nat)
    requires n >= 1
    ensures PowerOfTwo(TopPower(n))
  {
    if n > 1 {
      TopPowerIsPower(n / 2);
    }
  }

  /** Scaling by a power of two scales the largest power. */
  lemma {:induction false} TopPowerScaled(c: nat, u: nat)
    requires c >= 1 && PowerOfTwo(u)
    ensures u >= 1 && c * u >= 1 && TopPower(c * u) == TopPower(c) * u
    decreases u
  {
    if u > 1 {
      TopPowerScaled(c, u / 2);
      HalfProduct(c, u);
      HalfProduct(TopPower(c), u);
    }
  }

  lemma HalfProduct(c: nat, u: nat)
    requires u % 2 == 0 && u > 0
    ensures c * u == 2 * (c * (u / 2)) && c * u / 2 == c * (u / 2)
    ensures c >= 1 ==> c * u >= 2
  {
    assert u == 2 * (u / 2);
    assert c * u == 2 * (c * (u / 2));
    if c >= 1 {
      assert c * (u / 2) >= u / 2;
    }
  }

  /** An odd number above one and its predecessor share the largest power, which is even. */
  lemma TopPowerOdd(c: nat)
    requires c % 2 == 1 && c > 1
    ensures TopPower(c) == TopPower(c - 1) && TopPower(c) % 2 == 0
  {
    assert (c - 1) / 2 == c / 2;
  }

  /** The left subtree of an input of more than one chunk takes the largest power of
      two of chunks that leaves at least one byte on the right. */
  function LeftChunks(len: nat): (k: nat)
    requires len > CHUNK_LEN
    ensures k >= 1 && CHUNK_LEN * k < len <= 2 * CHUNK_LEN * k
  {
    TopPower((len - 1) / CHUNK_LEN)
  }

  lemma {:induction false} TopPowerLargest(n: nat, j: nat)
    requires n >= 1 && PowerOfTwo(j) && j <= n
    ensures j <= TopPower(n)
  {
    if n > 1 && j > 1 {
      TopPowerLargest(n / 2, j / 2);
    }
  }

  /** The left subtree is as large as the specification demands. */
  lemma LeftChunksLargest(len: nat, j: nat)
    requires len > CHUNK_LEN && PowerOfTwo(j) && CHUNK_LEN * j < len
    ensures PowerOfTwo(LeftChunks(len)) && j <= LeftChunks(len)
  {
    var n: nat := (len - 1) / CHUNK_LEN;
    TopPowerIsPower(n);
    TopPowerLargest(n, j);
  }

  // ----- the tree

  /** The compression input at the root of the subtree over data, whose first chunk
      has number counter. */
  function Tree(m: Mode, data: seq<int>, counter: nat): Output
    requires m.Valid()
    decreases |data|, 0
  {
    if |data| <= CHUNK_LEN then ChunkOutput(m, data, counter)
    else
      var k := LeftChunks(|data|);
      ParentOutput(m, TreeCv(m, data[..CHUNK_LEN * k], counter), TreeCv(m, data[CHUNK_LEN * k..], counter + k))
  }

  function TreeCv(m: Mode, data: seq<int>, counter: nat): seq<int>
    requires m.Valid()
    decreases |data|, 1
  {
    ChainingValue(m, Tree(m, data, counter))
  }

  /** Byte i of the extendable output. */
  function StreamByte(m: Mode, root: Output, i: nat): int
    requires m.Valid()
  {
    WordsToBytes(m.compress(root.cv, root.block, i / BLOCK_LEN, root.len, root.flags | ROOT))[i % BLOCK_LEN]
  }

  function Stream(m: Mode, root: Output, start: nat, n: nat): (r: seq<int>)
    requires m.Valid()
    ensures |r| == n
  {
    seq(n, i requires 0 <= i < n => StreamByte(m, root, start + i))
  }

  // ----- the tree by position

  /** Reading a block as words and writing the words gives the block padded with zeros. */
  lemma WordsRoundTrip(block: seq<int>, i: nat)
    requires |block| <= BLOCK_LEN && i < BLOCK_LEN && forall j :: 0 <= j < |block| ==> 0 <= block[j] < 256
    ensures WordsToBytes(WordsFromBlock(block))[i] == if i < |block| then block[i] else 0
  {
    var w := i / 4;
    assert i == 4 * w + i % 4;
    WordOfBytes(Padded(block, 4 * w), Padded(block, 4 * w + 1), Padded(block, 4 * w + 2), Padded(block, 4 * w + 3), i % 4);
  }

  lemma WordOfBytes(a: int, b: int, c: int, d: int, i: nat)
    requires 0 <= a < 256 && 0 <= b < 256 && 0 <= c < 256 && 0 <= d < 256 && i < 4
    ensures WordByte(a + 0x100 * b + 0x10000 * c + 0x1000000 * d, i) == (if i == 0 then a else if i == 1 then b else if i == 2 then c else d)
  {
    var w := a + 0x100 * b + 0x10000 * c + 0x1000000 * d;
    assert w / 0x100 == b + 0x100 * c + 0x10000 * d;
    assert w / 0x10000 == c + 0x100 * d;
    assert w / 0x1000000 == d;
  }

  /** The chaining value after i blocks of a chunk. */
  function CvAt(m: Mode, chunk: seq<int>, counter: nat, i: nat): seq<int>
    requires m.Valid() && BLOCK_LEN * i <= |chunk|
  {
    BlocksCv(m, chunk[..BLOCK_LEN * i], counter)
  }

  /** The compression of block i of a chunk that is not its last. */
  function AfterBlock(m: Mode, chunk: seq<int>, counter: nat, i: nat): seq<int>
    requires m.Valid() && BLOCK_LEN * (i + 1) <= |chunk|
  {
    m.compress(CvAt(m, chunk, counter, i), WordsFromBlock(chunk[BLOCK_LEN * i..BLOCK_LEN * (i + 1)]), counter, 64,
               m.flags | (if i == 0 then 1 else 0))[..8]
  }

  /** Section 2.4 of the BLAKE3 specification, block by block: the chaining value starts with
      the key, every block but the last is compressed with the number of the chunk, the first
      with the flag 1, and the last, which may be short, also with the flag 2. */
  lemma ChunkByBlocks(m: Mode, chunk: seq<int>, counter: nat, blocks: nat)
    requires m.Valid() && |chunk| <= CHUNK_LEN && blocks >= 1
    requires BLOCK_LEN * (blocks - 1) < |chunk| <= BLOCK_LEN * blocks || (chunk == [] && blocks == 1)
    ensures CvAt(m, chunk, counter, 0) == m.key
    ensures forall i :: 0 <= i < blocks - 1 ==> CvAt(m, chunk, counter, i + 1) == AfterBlock(m, chunk, counter, i)
    ensures ChunkOutput(m, chunk, counter)
         == Output(CvAt(m, chunk, counter, blocks - 1), WordsFromBlock(chunk[BLOCK_LEN * (blocks - 1)..]), counter,
                   |chunk| - 64 * (blocks - 1), m.flags | (if blocks == 1 then 1 else 0) | 2)
  {
    hide WordsFromBlock;
    forall i | 0 <= i < blocks - 1 ensures CvAt(m, chunk, counter, i + 1) == AfterBlock(m, chunk, counter, i) {
      NextCv(m, chunk, counter, i);
    }
    assert InnerBlocks(|chunk|) == blocks - 1;
  }

  lemma NextCv(m: Mode, chunk: seq<int>, counter: nat, i: nat)
    requires m.Valid() && BLOCK_LEN * (i + 1) <= |chunk|
    ensures CvAt(m, chunk, counter, i + 1) == AfterBlock(m, chunk, counter, i)
  {
    hide WordsFromBlock;
    var blocks := chunk[..BLOCK_LEN * (i + 1)];
    assert blocks[..BLOCK_LEN * i] == chunk[..BLOCK_LEN * i];
    assert blocks[BLOCK_LEN * i..] == chunk[BLOCK_LEN * i..BLOCK_LEN * (i + 1)];
  }

  /** The number of chunks of an input; an empty input is one empty chunk. */
  function ChunkCount(len: nat): (n: nat)
    ensures n >= 1 && CHUNK_LEN * (n - 1) <= len <= CHUNK_LEN * n
  {
    if len == 0 then 1 else (len + CHUNK_LEN - 1) / CHUNK_LEN
  }

  /** Chunk i of the input. */
  function ChunkAt(data: seq<int>, i: nat): (chunk: seq<int>)
    requires i < ChunkCount(|data|)
    ensures |chunk| <= CHUNK_LEN
  {
    if i + 1 < ChunkCount(|data|) then data[CHUNK_LEN * i..CHUNK_LEN * (i + 1)] else data[CHUNK_LEN * i..]
  }

  /** The chaining values of all chunks, numbered from counter. */
  function Leaves(m: Mode, data: seq<int>, counter: nat): (cvs: seq<seq<int>>)
    requires m.Valid()
    ensures |cvs| == ChunkCount(|data|)
  {
    seq(ChunkCount(|data|), i requires 0 <= i < ChunkCount(|data|) =>
      ChainingValue(m, ChunkOutput(m, ChunkAt(data, i), counter + i)))
  }

  /** The tree over a list of chaining values: the left side takes the largest power of two
      that leaves something on the right, and a parent compresses left then right under the
      key with counter 0, length 64 and the flag 4. */
  function Folded(m: Mode, cvs: seq<seq<int>>): seq<int>
    requires m.Valid() && cvs != []
    decreases |cvs|
  {
    if |cvs| == 1 then cvs[0]
    else
      var k := TopPower(|cvs| - 1);
      m.compress(m.key, Folded(m, cvs[..k]) + Folded(m, cvs[k..]), 0, 64, m.flags | 4)[..8]
  }

  /** The chaining value of a tree is the fold of its leaves. */
  lemma {:induction false} TreeIsFold(m: Mode, data: seq<int>, counter: nat)
    requires m.Valid()
    ensures TreeCv(m, data, counter) == Folded(m, Leaves(m, data, counter))
    decreases |data|
  {
    hide ChunkOutput, TopPower, Folded, Leaves;
    if |data| <= CHUNK_LEN {
      OneLeaf(m, data, counter);
    } else {
      var k := LeftChunks(|data|);
      TreeIsFold(m, data[..CHUNK_LEN * k], counter);
      TreeIsFold(m, data[CHUNK_LEN * k..], counter + k);
      LeavesSplit(m, data, counter, k);
      FoldedStep(m, Leaves(m, data, counter));
    }
  }

  lemma OneLeaf(m: Mode, data: seq<int>, counter: nat)
    requires m.Valid() && |data| <= CHUNK_LEN
    ensures Folded(m, Leaves(m, data, counter)) == ChainingValue(m, ChunkOutput(m, data, counter))
  {
    hide ChunkOutput, ChainingValue;
    assert ChunkCount(|data|) == 1 && ChunkAt(data, 0) == data;
  }

  lemma FoldedStep(m: Mode, cvs: seq<seq<int>>)
    requires m.Valid() && |cvs| >= 2
    ensures var k := TopPower(|cvs| - 1);
            Folded(m, cvs) == m.compress(m.key, Folded(m, cvs[..k]) + Folded(m, cvs[k..]), 0, 64, m.flags | 4)[..8]
  {}

  lemma LeavesSplit(m: Mode, data: seq<int>, counter: nat, k: nat)
    requires m.Valid() && k >= 1 && CHUNK_LEN * k < |data|
    ensures ChunkCount(|data|) > k && (|data| - 1) / CHUNK_LEN == ChunkCount(|data|) - 1
    ensures Leaves(m, data, counter)[..k] == Leaves(m, data[..CHUNK_LEN * k], counter)
    ensures Leaves(m, data, counter)[k..] == Leaves(m, data[CHUNK_LEN * k..], counter + k)
  {
    hide ChainingValue, ChunkOutput;
    var left, right := data[..CHUNK_LEN * k], data[CHUNK_LEN * k..];
    assert ChunkCount(|left|) == k && ChunkCount(|right|) == ChunkCount(|data|) - k;
    forall i: nat | i < k ensures ChunkAt(data, i) == ChunkAt(left, i) {}
    forall i: nat | i < ChunkCount(|data|) - k ensures ChunkAt(data, k + i) == ChunkAt(right, i) {}
  }

  /** The whole input: one chunk, or the root over the two sides of its leaves. */
  lemma RootIs(m: Mode, data: seq<int>)
    requires m.Valid()
    ensures |data| <= CHUNK_LEN ==> Tree(m, data, 0) == ChunkOutput(m, data, 0)
    ensures |data| > CHUNK_LEN ==>
              var cvs := Leaves(m, data, 0);
              var k := TopPower(|cvs| - 1);
              1 <= k < |cvs| && Tree(m, data, 0) == Output(m.key, Folded(m, cvs[..k]) + Folded(m, cvs[k..]), 0, 64, m.flags | 4)
  {
    hide ChunkOutput, TopPower, Folded, Leaves;
    if |data| > CHUNK_LEN {
      var k := LeftChunks(|data|);
      TreeIsFold(m, data[..CHUNK_LEN * k], 0);
      TreeIsFold(m, data[CHUNK_LEN * k..], k);
      LeavesSplit(m, data, 0, k);
    }
  }

  /** Byte i of the output is byte i % 64 of the root compressed with counter i / 64 and the
      flag 8. */
  lemma StreamAt(m: Mode, root: Output, start: nat, n: nat, i: nat)
    requires m.Valid() && i < n
    ensures Stream(m, root, start, n)[i]
         == WordsToBytes(m.compress(root.cv, root.block, (start + i) / 64, root.len, root.flags | 8))[(start + i) % 64]
  {
    hide WordsToBytes;
    assert Stream(m, root, start, n)[i] == StreamByte(m, root, start + i);
  }

  // ----- the stack of complete subtrees

  /** Complete subtrees from left to right: one for every set bit of the number of chunks. */
  function Stack(m: Mode, data: seq<int>, counter: nat, n: nat): seq<seq<int>>
    requires m.Valid() && |data| == CHUNK_LEN * n
    decreases n
  {
    if n == 0 then []
    else
      var k := TopPower(n);
      [TreeCv(m, data[..CHUNK_LEN * k], counter)] + Stack(m, data[CHUNK_LEN * k..], counter + k, n - k)
  }

  function SetBits(n: nat): nat
  {
    if n == 0 then 0 else n % 2 + SetBits(n / 2)
  }

  lemma {:induction false} SetBitsTop(n: nat)
    requires n >= 1
    ensures SetBits(n) == 1 + SetBits(n - TopPower(n))
  {
    if n > 1 {
      SetBitsTop(n / 2);
      assert (n - TopPower(n)) / 2 == n / 2 - TopPower(n / 2);
      assert (n - TopPower(n)) % 2 == n % 2;
    }
  }

  /** The stack holds one chaining value per set bit of the number of completed chunks. */
  lemma {:induction false} StackSize(m: Mode, data: seq<int>, counter: nat, n: nat)
    requires m.Valid() && |data| == CHUNK_LEN * n
    ensures |Stack(m, data, counter, n)| == SetBits(n)
    decreases n
  {
    hide TreeCv, TopPower;
    if n > 0 {
      var k := TopPower(n);
      StackSize(m, data[CHUNK_LEN * k..], counter + k, n - k);
      SetBitsTop(n);
    }
  }

  /** The last subtree of n == c * u chunks, c odd and u a power of two, covers u chunks. */
  lemma {:induction false} StackLast(m: Mode, data: seq<int>, counter: nat, c: nat, u: nat, n: nat)
    requires m.Valid() && c % 2 == 1 && PowerOfTwo(u) && n == c * u && |data| == CHUNK_LEN * n
    ensures u <= n
    ensures Stack(m, data, counter, n)
         == Stack(m, data[..CHUNK_LEN * (n - u)], counter, n - u)
            + [TreeCv(m, data[CHUNK_LEN * (n - u)..], counter + (n - u))]
    decreases c
  {
    hide TreeCv, Stack, PowerOfTwo, TopPower;
    TopPowerScaled(c, u);
    if c == 1 {
      StackWhole(m, data, counter, n);
    } else {
      var k, d := OddSplit(c, u, n);
      StackLast(m, data[CHUNK_LEN * k..], counter + k, d, u, n - k);
      StackStep(m, data, counter, k, n, n - u);
    }
  }

  /** An odd multiple of u and the multiple below it start with the same subtree. */
  lemma OddSplit(c: nat, u: nat, n: nat) returns (k: nat, d: nat)
    requires c % 2 == 1 && c > 1 && PowerOfTwo(u) && n == c * u
    ensures 1 <= k <= n - u && k == TopPower(n) == TopPower(n - u)
    ensures d < c && d % 2 == 1 && d * u == n - k
  {
    hide TopPower, PowerOfTwo;
    TopsAgree(c, u, n);
    k, d := TopPower(n), c - TopPower(c);
    SplitArith(c, TopPower(c), u, n);
  }

  lemma TopsAgree(c: nat, u: nat, n: nat)
    requires c % 2 == 1 && c > 1 && PowerOfTwo(u) && n == c * u
    ensures 1 <= u <= n && TopPower(n) == TopPower(c) * u
    ensures TopPower(n - u) == TopPower(n)
    ensures TopPower(c) < c && TopPower(c) % 2 == 0
  {
    hide PowerOfTwo;
    TopPowerOf(c, u, n);
    TopPowerOdd(c);
    SumTimes(c - 1, 1, u);
    TopPowerOf(c - 1, u, n - u);
  }

  lemma TopPowerOf(c: nat, u: nat, n: nat)
    requires c >= 1 && PowerOfTwo(u) && n == c * u
    ensures 1 <= u <= n && TopPower(n) == TopPower(c) * u
  {
    TopPowerScaled(c, u);
    SumTimes(c - 1, 1, u);
  }

  lemma SplitArith(c: nat, t: nat, u: nat, n: nat)
    requires 1 <= t < c && u >= 1 && n == c * u
    ensures (c - t) * u == n - t * u && (c - 1) * u == n - u && 1 <= t * u <= n - u
  {
    SumTimes(c - 1, 1, u);
    SumTimes(c - t, t, u);
    SumTimes(c - t - 1, 1, u);
    SumTimes(t - 1, 1, u);
  }

  lemma SumTimes(a: nat, b: nat, u: nat)
    ensures (a + b) * u == a * u + b * u && a * u >= 0
  {}

  /** A single complete subtree. */
  lemma StackWhole(m: Mode, data: seq<int>, counter: nat, n: nat)
    requires m.Valid() && n >= 1 && |data| == CHUNK_LEN * n && TopPower(n) == n
    ensures Stack(m, data, counter, n) == Stack(m, data[..0], counter, 0) + [TreeCv(m, data[0..], counter)]
  {
    hide TreeCv;
    assert data[..|data|] == data == data[0..] && data[|data|..] == [];
  }

  lemma StackHead(m: Mode, data: seq<int>, counter: nat, n: nat)
    requires m.Valid() && n >= 1 && |data| == CHUNK_LEN * n
    ensures var k := TopPower(n);
            Stack(m, data, counter, n)
            == [TreeCv(m, data[..CHUNK_LEN * k], counter)] + Stack(m, data[CHUNK_LEN * k..], counter + k, n - k)
  {}

  /** Both stacks start with the same subtree. */
  lemma StackStep(m: Mode, data: seq<int>, counter: nat, k: nat, n: nat, lo: nat)
    requires m.Valid() && |data| == CHUNK_LEN * n
    requires 1 <= k <= lo <= n && k == TopPower(n) == TopPower(lo)
    ensures Stack(m, data, counter, n)
         == [TreeCv(m, data[..CHUNK_LEN * k], counter)] + Stack(m, data[CHUNK_LEN * k..], counter + k, n - k)
    ensures Stack(m, data[..CHUNK_LEN * lo], counter, lo)
         == [TreeCv(m, data[..CHUNK_LEN * k], counter)]
            + Stack(m, data[CHUNK_LEN * k..][..CHUNK_LEN * (lo - k)], counter + k, lo - k)
    ensures data[CHUNK_LEN * lo..] == data[CHUNK_LEN * k..][CHUNK_LEN * (lo - k)..]
  {
    hide Stack, TopPower;
    var front, rest := data[..CHUNK_LEN * lo], data[CHUNK_LEN * k..];
    StackHead(m, data, counter, n);
    StackHead(m, front, counter, lo);
    assert front[..CHUNK_LEN * k] == data[..CHUNK_LEN * k];
    assert front[CHUNK_LEN * k..] == rest[..CHUNK_LEN * (lo - k)];
  }

  /** Two adjacent complete subtrees of equal size merge under one parent. */
  lemma MergeSubtrees(m: Mode, data: seq<int>, counter: nat, u: nat)
    requires m.Valid() && PowerOfTwo(u) && |data| == CHUNK_LEN * (2 * u)
    ensures Tree(m, data, counter)
         == ParentOutput(m, TreeCv(m, data[..CHUNK_LEN * u], counter), TreeCv(m, data[CHUNK_LEN * u..], counter + u))
  {
    hide TreeCv;
    assert (|data| - 1) / CHUNK_LEN == 2 * u - 1;
    TopBelow(u);
  }

  lemma {:induction false} TopBelow(u: nat)
    requires PowerOfTwo(u)
    ensures TopPower(2 * u - 1) == u
  {
    if u > 1 {
      TopBelow(u / 2);
      assert (2 * u - 1) / 2 == 2 * (u / 2) - 1;
    }
  }

  // ----- closing the tree

  /** The stack folded onto the output of the unfinished chunk, innermost first. */
  function Close(m: Mode, stack: seq<seq<int>>, last: Output): Output
    requires m.Valid()
  {
    if stack == [] then last
    else ParentOutput(m, stack[0], ChainingValue(m, Close(m, stack[1..], last)))
  }

  lemma NoStack(m: Mode, counter: nat, last: Output)
    requires m.Valid()
    ensures Close(m, Stack(m, [], counter, 0), last) == last
  {}

  lemma CloseStep(m: Mode, whole: seq<int>, counter: nat, k: nat, n: nat, last: Output)
    requires m.Valid() && n >= 1 && |whole| == CHUNK_LEN * n && k == TopPower(n)
    ensures Close(m, Stack(m, whole, counter, n), last)
         == ParentOutput(m, TreeCv(m, whole[..CHUNK_LEN * k], counter),
                         ChainingValue(m, Close(m, Stack(m, whole[CHUNK_LEN * k..], counter + k, n - k), last)))
  {
    hide ChainingValue, TreeCv, Stack;
    StackHead(m, whole, counter, n);
    assert Stack(m, whole, counter, n)[1..] == Stack(m, whole[CHUNK_LEN * k..], counter + k, n - k);
  }

  /** Folding the stack of the completed chunks onto the last chunk gives the tree. */
  lemma {:induction false} CloseIsTree(m: Mode, data: seq<int>, counter: nat, done: nat)
    requires m.Valid() && CHUNK_LEN * done <= |data| <= CHUNK_LEN * (done + 1)
    requires done > 0 ==> CHUNK_LEN * done < |data|
    ensures Close(m, Stack(m, data[..CHUNK_LEN * done], counter, done),
                  ChunkOutput(m, data[CHUNK_LEN * done..], counter + done))
         == Tree(m, data, counter)
    decreases done
  {
    hide ChunkOutput, ChainingValue, Stack, Close, TopPower, ParentOutput;
    if done == 0 {
      assert data[0..] == data;
      NoStack(m, counter, ChunkOutput(m, data, counter));
      assert data[..0] == [];
    } else {
      var k := TopPower(done);
      var lo := CHUNK_LEN * k;
      var whole, rest := data[..CHUNK_LEN * done], data[lo..];
      CloseIsTree(m, rest, counter + k, done - k);
      assert whole[..lo] == data[..lo] && whole[lo..] == rest[..CHUNK_LEN * (done - k)];
      assert rest[CHUNK_LEN * (done - k)..] == data[CHUNK_LEN * done..];
      assert LeftChunks(|data|) == k by { assert (|data| - 1) / CHUNK_LEN == done; }
      CloseStep(m, whole, counter, k, done, ChunkOutput(m, data[CHUNK_LEN * done..], counter + done));
    }
  }
}
