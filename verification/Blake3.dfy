/** The incremental BLAKE3 hasher: a chunk state with a lazy block buffer and a stack
    of chaining values, proved equal to the tree of Blake3Tree for any split of the
    input. */
module Blake3 {
  import opened Options
  import opened Blake3Tree

  class ChunkState {
    const mode: Mode
    var cv: seq<int>
    var chunkCounter: nat
    var buf: seq<int>
    var blocksCompressed: nat
    /** Everything absorbed so far. */
    ghost var bytes: seq<int>

    /** The buffer holds the last block: compression waits until more input comes. */
    ghost predicate Valid()
      reads this
    {
      && Buffered()
      && (blocksCompressed > 0 ==> buf != [])
    }

    ghost predicate Buffered()
      reads this
    {
      && mode.Valid()
      && |buf| <= BLOCK_LEN
      && |bytes| == BLOCK_LEN * blocksCompressed + |buf|
      && bytes[BLOCK_LEN * blocksCompressed..] == buf
      && cv == BlocksCv(mode, bytes[..BLOCK_LEN * blocksCompressed], chunkCounter)
    }

    constructor (mode: Mode, chunkCounter: nat)
      requires mode.Valid()
      ensures Valid() && bytes == []
      ensures this.mode == mode && this.chunkCounter == chunkCounter
    {
      this.mode := mode;
      this.cv := mode.key;
      this.chunkCounter := chunkCounter;
      this.buf := [];
      this.blocksCompressed := 0;
      this.bytes := [];
    }

    function Length(): (n: nat)
      requires Valid()
      reads this
      ensures n == |bytes|
    {
      BLOCK_LEN * blocksCompressed + |buf|
    }

    method CompressBuffer()
      requires Buffered() && |buf| == BLOCK_LEN
      modifies this`cv, this`blocksCompressed, this`buf
      ensures Buffered() && buf == []
    {
      ghost var n := BLOCK_LEN * blocksCompressed;
      assert bytes[..n + BLOCK_LEN][..n] == bytes[..n] && bytes[..n + BLOCK_LEN][n..] == buf;
      cv := mode.compress(cv, WordsFromBlock(buf), chunkCounter, BLOCK_LEN, mode.flags | StartFlag(blocksCompressed))[..8];
      blocksCompressed := blocksCompressed + 1;
      buf := [];
    }

    method Update(data: seq<int>)
      requires Valid()
      modifies this`cv, this`blocksCompressed, this`buf, this`bytes
      ensures Valid() && bytes == old(bytes) + data
    {
      hide Valid;
      var pos := 0;
      while pos < |data|
        invariant 0 <= pos <= |data|
        invariant Valid() && bytes == old(bytes) + data[..pos]
      {
        var take := TakeSome(data[pos..]);
        assert data[..pos] + data[pos..][..take] == data[..pos + take];
        pos := pos + take;
      }
    }

    /** One turn of the loop of Update. */
    method TakeSome(rest: seq<int>) returns (take: nat)
      requires Valid() && rest != []
      modifies this`cv, this`blocksCompressed, this`buf, this`bytes
      ensures Valid() && 0 < take <= |rest| && bytes == old(bytes) + rest[..take]
    {
      if |buf| == BLOCK_LEN {
        CompressBuffer();
      }
      var want := BLOCK_LEN - |buf|;
      take := if want < |rest| then want else |rest|;
      Absorb(rest[..take]);
    }

    method Absorb(piece: seq<int>)
      requires Buffered() && piece != [] && |buf| + |piece| <= BLOCK_LEN
      modifies this`buf, this`bytes
      ensures Valid() && bytes == old(bytes) + piece
    {
      ghost var n := BLOCK_LEN * blocksCompressed;
      assert (bytes + piece)[..n] == bytes[..n] && (bytes + piece)[n..] == buf + piece;
      buf := buf + piece;
      bytes := bytes + piece;
    }

    function CurrentOutput(): (o: Output)
      requires Valid()
      reads this
      ensures o == ChunkOutput(mode, bytes, chunkCounter)
    {
      Output(cv, WordsFromBlock(buf), chunkCounter, |buf|, mode.flags | StartFlag(blocksCompressed) | CHUNK_END)
    }
  }

  /** The bytes of the output stream from position seek on, block by block. */
  method RootOutputBytes(m: Mode, o: Output, seek: int, length: int) returns (r: Option<seq<int>>)
    requires m.Valid()
    ensures seek < 0 || length < 0 ==> r == None
    ensures seek >= 0 && length >= 0 ==> r == Some(Stream(m, o, seek, length))
  {
    if seek < 0 {
      return None;
    }
    if length < 0 {
      return None;
    }
    var first: nat := seek / BLOCK_LEN;
    var offset: nat := seek % BLOCK_LEN;
    var out: seq<int> := [];
    var counter: nat := first;
    while |out| < length + offset
      invariant counter >= first && out == Stream(m, o, BLOCK_LEN * first, BLOCK_LEN * (counter - first))
    {
      var words := m.compress(o.cv, o.block, counter, o.len, o.flags | ROOT);
      StreamBlock(m, o, first, counter);
      out := out + WordsToBytes(words);
      counter := counter + 1;
    }
    StreamSlice(m, o, BLOCK_LEN * first, |out|, offset, length);
    r := Some(out[offset..offset + length]);
  }

  lemma StreamBlock(m: Mode, o: Output, first: nat, counter: nat)
    requires m.Valid() && first <= counter
    ensures Stream(m, o, BLOCK_LEN * first, BLOCK_LEN * (counter + 1 - first))
         == Stream(m, o, BLOCK_LEN * first, BLOCK_LEN * (counter - first))
            + WordsToBytes(m.compress(o.cv, o.block, counter, o.len, o.flags | ROOT))
  {
    hide WordsToBytes, StreamByte;
    var block := WordsToBytes(m.compress(o.cv, o.block, counter, o.len, o.flags | ROOT));
    forall j | 0 <= j < BLOCK_LEN ensures Stream(m, o, BLOCK_LEN * counter, BLOCK_LEN)[j] == block[j] {
      BlockByte(m, o, counter, j);
    }
  }

  lemma BlockByte(m: Mode, o: Output, counter: nat, j: nat)
    requires m.Valid() && j < BLOCK_LEN
    ensures StreamByte(m, o, BLOCK_LEN * counter + j)
         == WordsToBytes(m.compress(o.cv, o.block, counter, o.len, o.flags | ROOT))[j]
  {
    hide WordsToBytes;
    assert (BLOCK_LEN * counter + j) / BLOCK_LEN == counter && (BLOCK_LEN * counter + j) % BLOCK_LEN == j;
  }

  lemma StreamSlice(m: Mode, o: Output, start: nat, n: nat, offset: nat, length: nat)
    requires m.Valid() && offset + length <= n
    ensures Stream(m, o, start, n)[offset..offset + length] == Stream(m, o, start + offset, length)
  {
    hide StreamByte;
    var whole, part := Stream(m, o, start, n), Stream(m, o, start + offset, length);
    forall j | 0 <= j < length ensures whole[offset..offset + length][j] == part[j] {
      assert start + (offset + j) == start + offset + j;
    }
  }

  class Hasher {
    const mode: Mode
    var chunkState: ChunkState
    var cvStack: seq<seq<int>>
    /** The concatenation of everything given to Update since creation or Reset. */
    ghost var input: seq<int>

    /** The chunk state holds the last chunk, and the stack one subtree for every set
        bit of the number of chunks before it. */
    ghost predicate Valid()
      reads this, chunkState
    {
      && Started()
      && (chunkState.chunkCounter > 0 ==> chunkState.bytes != [])
    }

    ghost predicate Started()
      reads this, chunkState
    {
      && chunkState.Valid() && chunkState.mode == mode && |chunkState.bytes| <= CHUNK_LEN
      && Holds(mode, input, chunkState.chunkCounter, chunkState.bytes, cvStack)
    }

    constructor (mode: Mode)
      requires mode.Valid()
      ensures Valid() && fresh(chunkState) && input == [] && this.mode == mode
    {
      hide Holds;
      this.mode := mode;
      chunkState := new ChunkState(mode, 0);
      cvStack := [];
      input := [];
      HoldsAtStart(mode);
    }

    /** Adds the chaining value of chunk number totalChunks - 1, merging every pair of
        subtrees it completes; the stack is never popped when empty. */
    method PushCv(newCv: seq<int>, totalChunks: nat, ghost data: seq<int>)
      requires mode.Valid() && totalChunks >= 1 && |data| == CHUNK_LEN * totalChunks
      requires Pushing(mode, data, cvStack, newCv, totalChunks - 1, 1, totalChunks, totalChunks)
      modifies this`cvStack
      ensures cvStack == Stack(mode, data, 0, totalChunks)
    {
      hide Pushing;
      var cv, total := newCv, totalChunks;
      ghost var n: nat, u: nat := totalChunks - 1, 1;
      while total % 2 == 0
        invariant total >= 1 && Pushing(mode, data, cvStack, cv, n, u, total, totalChunks)
        decreases total
      {
        PushStep(mode, data, cvStack, cv, n, u, total, totalChunks);
        var top := |cvStack| - 1;
        var left := cvStack[top];
        cvStack := cvStack[..top];
        cv := ChainingValue(mode, ParentOutput(mode, left, cv));
        n, u := n - u, 2 * u;
        total := total / 2;
      }
      PushDone(mode, data, cvStack, cv, n, u, total, totalChunks);
      cvStack := cvStack + [cv];
    }

    method Update(data: seq<int>)
      requires Valid()
      modifies this, chunkState
      ensures Valid() && input == old(input) + data
      ensures chunkState == old(chunkState) || fresh(chunkState)
    {
      hide Valid;
      var pos := 0;
      while pos < |data|
        invariant 0 <= pos <= |data|
        invariant Valid() && input == old(input) + data[..pos]
        invariant chunkState == old(chunkState) || fresh(chunkState)
      {
        var take := AddSome(data[pos..]);
        assert data[..pos] + data[pos..][..take] == data[..pos + take];
        pos := pos + take;
      }
    }

    /** One turn of the loop of Update. */
    method AddSome(rest: seq<int>) returns (take: nat)
      requires Valid() && rest != []
      modifies this, chunkState
      ensures Valid() && 0 < take <= |rest| && input == old(input) + rest[..take]
      ensures chunkState == old(chunkState) || fresh(chunkState)
    {
      hide Holds;
      if chunkState.Length() == CHUNK_LEN {
        FinishChunk();
      }
      var want := CHUNK_LEN - chunkState.Length();
      take := if want < |rest| then want else |rest|;
      AddPiece(rest[..take]);
    }

    method AddPiece(piece: seq<int>)
      requires Started() && piece != [] && |chunkState.bytes| + |piece| <= CHUNK_LEN
      modifies this`input, chunkState
      ensures Valid() && input == old(input) + piece
    {
      hide Holds;
      HoldsMore(mode, input, chunkState.chunkCounter, chunkState.bytes, cvStack, piece);
      chunkState.Update(piece);
      input := input + piece;
    }

    /** Moves a full chunk to the stack and starts the next one. */
    method FinishChunk()
      requires Valid() && |chunkState.bytes| == CHUNK_LEN
      modifies this`cvStack, this`chunkState
      ensures Started() && fresh(chunkState) && chunkState.bytes == []
    {
      var chunkCv := ChainingValue(mode, chunkState.CurrentOutput());
      var totalChunks := chunkState.chunkCounter + 1;
      FullChunk(mode, input, chunkState.chunkCounter, chunkState.bytes, cvStack);
      PushCv(chunkCv, totalChunks, input);
      chunkState := new ChunkState(mode, totalChunks);
      assert input[..CHUNK_LEN * totalChunks] == input;
    }

    /** The clone has its own state: later updates of either leave the other alone. */
    method Copy() returns (clone: Hasher)
      requires Valid()
      ensures clone.Valid() && fresh(clone) && fresh(clone.chunkState)
      ensures clone.mode == mode && clone.input == input
    {
      clone := new Hasher(mode);
      clone.chunkState.cv := chunkState.cv;
      clone.chunkState.chunkCounter := chunkState.chunkCounter;
      clone.chunkState.buf := chunkState.buf;
      clone.chunkState.blocksCompressed := chunkState.blocksCompressed;
      clone.chunkState.bytes := chunkState.bytes;
      clone.cvStack := cvStack;
      clone.input := input;
    }

    method FinalOutput() returns (output: Output)
      requires Valid()
      ensures output == Tree(mode, input, 0)
    {
      hide Stack, Tree, ChunkOutput, ParentOutput, ChainingValue;
      output := chunkState.CurrentOutput();
      ghost var last := output;
      var i := |cvStack|;
      while i > 0
        invariant 0 <= i <= |cvStack| && output == Close(mode, cvStack[i..], last)
      {
        i := i - 1;
        assert cvStack[i..][0] == cvStack[i] && cvStack[i..][1..] == cvStack[i + 1..];
        output := ParentOutput(mode, cvStack[i], ChainingValue(mode, output));
      }
      assert cvStack[0..] == cvStack;
      CloseIsTree(mode, input, 0, chunkState.chunkCounter);
    }

    /** Bytes seek .. seek + length of the output stream of the whole input. */
    method Digest(length: int, seek: int) returns (r: Option<seq<int>>)
      requires Valid()
      ensures seek < 0 || length < 0 ==> r == None
      ensures seek >= 0 && length >= 0 ==> r == Some(Stream(mode, Tree(mode, input, 0), seek, length))
    {
      var output := FinalOutput();
      r := RootOutputBytes(mode, output, seek, length);
    }

    method Reset()
      requires Valid()
      modifies this
      ensures Valid() && fresh(chunkState) && input == []
    {
      chunkState := new ChunkState(mode, 0);
      cvStack := [];
      input := [];
    }
  }

  // ----- the invariant of the hasher, on values

  /** n chunks are on the stack and bytes is the rest, at most one chunk. */
  ghost predicate Holds(m: Mode, input: seq<int>, n: nat, bytes: seq<int>, stack: seq<seq<int>>)
  {
    && m.Valid()
    && |input| == CHUNK_LEN * n + |bytes| && |bytes| <= CHUNK_LEN
    && input[CHUNK_LEN * n..] == bytes
    && stack == Stack(m, input[..CHUNK_LEN * n], 0, n)
  }

  lemma HoldsAtStart(m: Mode)
    requires m.Valid()
    ensures Holds(m, [], 0, [], [])
  {}

  lemma HoldsMore(m: Mode, input: seq<int>, n: nat, bytes: seq<int>, stack: seq<seq<int>>, piece: seq<int>)
    requires Holds(m, input, n, bytes, stack) && |bytes| + |piece| <= CHUNK_LEN
    ensures Holds(m, input + piece, n, bytes + piece, stack)
  {
    hide Stack;
    assert (input + piece)[..CHUNK_LEN * n] == input[..CHUNK_LEN * n];
    assert (input + piece)[CHUNK_LEN * n..] == bytes + piece;
  }

  lemma FullChunk(m: Mode, input: seq<int>, n: nat, bytes: seq<int>, stack: seq<seq<int>>)
    requires Holds(m, input, n, bytes, stack) && |bytes| == CHUNK_LEN
    ensures |input| == CHUNK_LEN * (n + 1)
    ensures Pushing(m, input, stack, ChainingValue(m, ChunkOutput(m, bytes, n)), n, 1, n + 1, n + 1)
  {
    hide Stack, ChainingValue, ChunkOutput;
    assert TreeCv(m, bytes, n) == ChainingValue(m, ChunkOutput(m, bytes, n));
  }

  /** While pushing: the stack covers the first n chunks and cv the last u. */
  ghost predicate Pushing(m: Mode, data: seq<int>, stack: seq<seq<int>>, cv: seq<int>,
                          n: nat, u: nat, total: nat, totalChunks: nat)
  {
    && m.Valid() && |data| == CHUNK_LEN * totalChunks && n + u == totalChunks == total * u && PowerOfTwo(u)
    && stack == Stack(m, data[..CHUNK_LEN * n], 0, n)
    && cv == TreeCv(m, data[CHUNK_LEN * n..], n)
  }

  lemma PushStep(m: Mode, data: seq<int>, stack: seq<seq<int>>, cv: seq<int>,
                 n: nat, u: nat, total: nat, totalChunks: nat)
    requires Pushing(m, data, stack, cv, n, u, total, totalChunks) && total % 2 == 0 && total >= 1
    ensures stack != [] && n >= u
    ensures Pushing(m, data, stack[..|stack| - 1],
                    ChainingValue(m, ParentOutput(m, stack[|stack| - 1], cv)), n - u, 2 * u, total / 2, totalChunks)
  {
    hide Stack, ChainingValue, ParentOutput, TreeCv;
    EvenTotal(n, u, total);
    MergeLast(m, data, stack, cv, n, u, total - 1);
  }

  /** The last subtree on the stack and the one in cv make one of twice the size. */
  lemma MergeLast(m: Mode, data: seq<int>, stack: seq<seq<int>>, cv: seq<int>, n: nat, u: nat, c: nat)
    requires m.Valid() && |data| == CHUNK_LEN * (n + u) && PowerOfTwo(u) && c % 2 == 1 && n == c * u && u <= n
    requires stack == Stack(m, data[..CHUNK_LEN * n], 0, n) && cv == TreeCv(m, data[CHUNK_LEN * n..], n)
    ensures stack != [] && stack[..|stack| - 1] == Stack(m, data[..CHUNK_LEN * (n - u)], 0, n - u)
    ensures ChainingValue(m, ParentOutput(m, stack[|stack| - 1], cv)) == TreeCv(m, data[CHUNK_LEN * (n - u)..], n - u)
  {
    hide Stack, ChainingValue, ParentOutput, Tree, PowerOfTwo;
    var front, pair := data[..CHUNK_LEN * n], data[CHUNK_LEN * (n - u)..];
    StackLast(m, front, 0, c, u, n);
    assert front[..CHUNK_LEN * (n - u)] == data[..CHUNK_LEN * (n - u)];
    assert front[CHUNK_LEN * (n - u)..] == pair[..CHUNK_LEN * u] && data[CHUNK_LEN * n..] == pair[CHUNK_LEN * u..];
    MergeSubtrees(m, pair, n - u, u);
  }

  lemma EvenTotal(n: nat, u: nat, total: nat)
    requires total % 2 == 0 && total >= 1 && n + u == total * u
    ensures n == (total - 1) * u && n >= u && n + u == total / 2 * (2 * u)
  {
    assert (total - 1) * u == total * u - u && (total - 1) * u == (total - 2) * u + u;
    assert total / 2 * (2 * u) == (total / 2 * 2) * u;
  }

  lemma PushDone(m: Mode, data: seq<int>, stack: seq<seq<int>>, cv: seq<int>,
                 n: nat, u: nat, total: nat, totalChunks: nat)
    requires Pushing(m, data, stack, cv, n, u, total, totalChunks) && total % 2 == 1
    ensures stack + [cv] == Stack(m, data, 0, totalChunks)
  {
    hide Stack, TreeCv;
    StackLast(m, data, 0, total, u, totalChunks);
  }
}
