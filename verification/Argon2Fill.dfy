/** Filling the memory of Argon2: the in-place segment loop, and the proof that any
    interleaving of the lanes of a slice leaves the memory that the sequential loop
    leaves. */
module Argon2Fill {
  import opened ModArith
  import opened Argon2

  type Memory = seq<Block>

  // ----- positions

  function At(cfg: Config, lane: nat, col: nat): nat
  {
    lane * cfg.LaneLength() + col
  }

  function LaneOf(cfg: Config, p: nat): int
    requires cfg.Valid()
  {
    p / cfg.LaneLength()
  }

  function ColOf(cfg: Config, p: nat): int
    requires cfg.Valid()
  {
    p % cfg.LaneLength()
  }

  lemma Position(cfg: Config, lane: nat, col: nat)
    requires cfg.Valid() && lane < cfg.lanes && col < cfg.LaneLength()
    ensures At(cfg, lane, col) < cfg.MPrime()
    ensures LaneOf(cfg, At(cfg, lane, col)) == lane && ColOf(cfg, At(cfg, lane, col)) == col
  {
    RemainderUnique(lane, col, cfg.LaneLength());
    MulLe(lane + 1, cfg.lanes, cfg.LaneLength());
    assert (lane + 1) * cfg.LaneLength() == lane * cfg.LaneLength() + cfg.LaneLength();
  }

  lemma Located(cfg: Config, p: nat)
    requires cfg.Valid() && p < cfg.MPrime()
    ensures 0 <= LaneOf(cfg, p) < cfg.lanes && 0 <= ColOf(cfg, p) < cfg.LaneLength()
    ensures p == At(cfg, LaneOf(cfg, p), ColOf(cfg, p))
  {
    DivideBelow(p, cfg.LaneLength(), cfg.lanes);
  }

  lemma DivideBelow(p: nat, len: nat, lanes: nat)
    requires len >= 1 && p < lanes * len
    ensures 0 <= p / len < lanes && 0 <= p % len < len && p == p / len * len + p % len
  {
    var d := p / len;
    assert p == d * len + p % len;
    if d >= lanes {
      MulLe(lanes, d, len);
      assert false;
    }
  }

  // ----- one step

  /** The place of a step: which segment, and which block of it. */
  datatype Place = Place(pass: nat, slice: nat)

  ghost predicate Fitting(cfg: Config, mem: Memory, at: Place)
  {
    cfg.Valid() && |mem| == cfg.MPrime() && at.slice < SLICES
  }

  function First(at: Place): nat { Start(at.pass, at.slice) }

  function Current(cfg: Config, at: Place, i: nat): nat { at.slice * cfg.segment + i }

  /** The word that selects the reference block of step i. */
  function Selector(cfg: Config, mem: Memory, at: Place, lane: nat, i: nat): bv64
    requires Fitting(cfg, mem, at) && lane < cfg.lanes && First(at) <= i < cfg.segment
  {
    if cfg.DataIndependent(at.pass, at.slice) then AddressWord(cfg, at.pass, lane, at.slice, i)
    else PrevBlock(cfg, mem, at, lane, i)[0]
  }

  function PrevBlock(cfg: Config, mem: Memory, at: Place, lane: nat, i: nat): Block
    requires Fitting(cfg, mem, at) && lane < cfg.lanes && First(at) <= i < cfg.segment
  {
    PrevInRange(cfg, at, lane, i);
    mem[At(cfg, lane, Prev(Current(cfg, at, i), cfg.LaneLength()))]
  }

  lemma PrevInRange(cfg: Config, at: Place, lane: nat, i: nat)
    requires cfg.Valid() && at.slice < SLICES && lane < cfg.lanes && i < cfg.segment
    ensures Current(cfg, at, i) < cfg.LaneLength()
    ensures 0 <= Prev(Current(cfg, at, i), cfg.LaneLength()) < cfg.LaneLength()
    ensures At(cfg, lane, Prev(Current(cfg, at, i), cfg.LaneLength())) < cfg.MPrime()
    ensures At(cfg, lane, Current(cfg, at, i)) < cfg.MPrime()
  {
    SliceColumns(at.slice, cfg.segment);
    Position(cfg, lane, Prev(Current(cfg, at, i), cfg.LaneLength()));
    Position(cfg, lane, Current(cfg, at, i));
  }

  function RefLane(cfg: Config, at: Place, lane: nat, w: bv64): nat
    requires cfg.Valid()
  {
    if at.pass == 0 && at.slice == 0 then lane else High(w) % cfg.lanes
  }

  function RefCol(cfg: Config, at: Place, lane: nat, i: nat, w: bv64): int
    requires cfg.Valid()
  {
    IndexAlpha(at.pass, at.slice, i, cfg.LaneLength(), cfg.segment, Low(w), RefLane(cfg, at, lane, w) == lane)
  }

  /** What IndexAlphaWindow says of the block a step refers to. */
  lemma Reference(cfg: Config, at: Place, lane: nat, i: nat, w: bv64)
    requires cfg.Valid() && at.slice < SLICES && lane < cfg.lanes && First(at) <= i < cfg.segment
    ensures RefLane(cfg, at, lane, w) < cfg.lanes
    ensures 0 <= RefCol(cfg, at, lane, i, w) < cfg.LaneLength()
    ensures At(cfg, RefLane(cfg, at, lane, w), RefCol(cfg, at, lane, i, w)) < cfg.MPrime()
    ensures RefLane(cfg, at, lane, w) != lane ==> !InSlice(RefCol(cfg, at, lane, i, w), at.slice, cfg.segment)
  {
    hide IndexAlpha, InSlice;
    IndexAlphaWindow(at.pass, at.slice, i, cfg.segment, Low(w), RefLane(cfg, at, lane, w) == lane);
    Position(cfg, RefLane(cfg, at, lane, w), RefCol(cfg, at, lane, i, w));
  }

  /** The block that step i of the lane writes. */
  function NewBlock(cfg: Config, mem: Memory, at: Place, lane: nat, i: nat): Block
    requires Fitting(cfg, mem, at) && lane < cfg.lanes && First(at) <= i < cfg.segment
  {
    var w := Selector(cfg, mem, at, lane, i);
    PrevInRange(cfg, at, lane, i);
    Reference(cfg, at, lane, i, w);
    var fresh' := cfg.compress(PrevBlock(cfg, mem, at, lane, i),
                               mem[At(cfg, RefLane(cfg, at, lane, w), RefCol(cfg, at, lane, i, w))]);
    if at.pass != 0 && cfg.version != 0x10 then Xor(fresh', mem[At(cfg, lane, Current(cfg, at, i))]) else fresh'
  }

  function Step(cfg: Config, mem: Memory, at: Place, lane: nat, i: nat): (r: Memory)
    requires Fitting(cfg, mem, at) && lane < cfg.lanes && First(at) <= i < cfg.segment
    ensures |r| == |mem|
  {
    PrevInRange(cfg, at, lane, i);
    mem[At(cfg, lane, Current(cfg, at, i)) := NewBlock(cfg, mem, at, lane, i)]
  }

  // ----- one lane on its own

  /** The lane alone, from the first block of its segment up to block n. */
  function Alone(cfg: Config, mem: Memory, at: Place, lane: nat, n: nat): (r: Memory)
    requires Fitting(cfg, mem, at) && lane < cfg.lanes && First(at) <= n <= cfg.segment
    ensures |r| == |mem|
    decreases n
  {
    if n == First(at) then mem else Step(cfg, Alone(cfg, mem, at, lane, n - 1), at, lane, n - 1)
  }

  /** There is a stream exactly for data-independent addressing, and n pairs are taken. */
  ghost predicate Ready(cfg: Config, stream: AddressStream?, at: Place, lane: nat, n: nat)
    reads stream
  {
    && (cfg.DataIndependent(at.pass, at.slice) <==> stream != null)
    && (stream != null ==>
          stream.Valid() && stream.taken == n
          && stream.cfg == cfg && stream.pass == at.pass && stream.lane == lane && stream.slice == at.slice)
  }

  method OpenStream(cfg: Config, at: Place, lane: nat) returns (stream: AddressStream?)
    ensures Ready(cfg, stream, at, lane, First(at)) && (stream == null || fresh(stream))
  {
    stream := null;
    if cfg.DataIndependent(at.pass, at.slice) {
      stream := new AddressStream(cfg, at.pass, lane, at.slice);
      var skipped := 0;
      while skipped < First(at)
        invariant 0 <= skipped <= First(at) && fresh(stream) && Ready(cfg, stream, at, lane, skipped)
      {
        var _ := stream.Next();
        skipped := skipped + 1;
      }
    }
  }

  method NextWord(cfg: Config, mem: array<Block>, stream: AddressStream?, at: Place, lane: nat, i: nat) returns (w: bv64)
    requires Fitting(cfg, mem[..], at) && lane < cfg.lanes && First(at) <= i < cfg.segment
    requires Ready(cfg, stream, at, lane, i)
    modifies stream
    ensures Ready(cfg, stream, at, lane, i + 1) && w == Selector(cfg, mem[..], at, lane, i)
  {
    hide AddressWord;
    if stream != null {
      w := stream.Next();
    } else {
      PrevInRange(cfg, at, lane, i);
      w := mem[At(cfg, lane, Prev(Current(cfg, at, i), cfg.LaneLength()))][0];
    }
  }

  /** _fill_segment, in place. */
  method FillSegment(cfg: Config, mem: array<Block>, at: Place, lane: nat)
    requires Fitting(cfg, mem[..], at) && lane < cfg.lanes
    modifies mem
    ensures mem[..] == Alone(cfg, old(mem[..]), at, lane, cfg.segment)
  {
    hide Step, Alone, Ready, Selector;
    var stream := OpenStream(cfg, at, lane);
    AloneStart(cfg, mem[..], at, lane);
    var i := First(at);
    while i < cfg.segment
      invariant First(at) <= i <= cfg.segment
      invariant mem[..] == Alone(cfg, old(mem[..]), at, lane, i)
      invariant (stream == null || fresh(stream)) && Ready(cfg, stream, at, lane, i)
    {
      var w := NextWord(cfg, mem, stream, at, lane, i);
      FillBlock(cfg, mem, at, lane, i, w);
      AloneNext(cfg, old(mem[..]), at, lane, i);
      i := i + 1;
    }
  }

  lemma AloneStart(cfg: Config, mem: Memory, at: Place, lane: nat)
    requires Fitting(cfg, mem, at) && lane < cfg.lanes
    ensures First(at) <= cfg.segment && Alone(cfg, mem, at, lane, First(at)) == mem
  {}

  lemma AloneNext(cfg: Config, mem: Memory, at: Place, lane: nat, n: nat)
    requires Fitting(cfg, mem, at) && lane < cfg.lanes && First(at) <= n < cfg.segment
    ensures Alone(cfg, mem, at, lane, n + 1) == Step(cfg, Alone(cfg, mem, at, lane, n), at, lane, n)
  {}

  /** One turn of the loop of _fill_segment. */
  method FillBlock(cfg: Config, mem: array<Block>, at: Place, lane: nat, i: nat, w: bv64)
    requires Fitting(cfg, mem[..], at) && lane < cfg.lanes && First(at) <= i < cfg.segment
    requires w == Selector(cfg, mem[..], at, lane, i)
    modifies mem
    ensures mem[..] == Step(cfg, old(mem[..]), at, lane, i)
  {
    hide Selector, RefLane, RefCol, Xor;
    PrevInRange(cfg, at, lane, i);
    Reference(cfg, at, lane, i, w);
    var cur := At(cfg, lane, Current(cfg, at, i));
    var prev := At(cfg, lane, Prev(Current(cfg, at, i), cfg.LaneLength()));
    var block := cfg.compress(mem[prev], mem[At(cfg, RefLane(cfg, at, lane, w), RefCol(cfg, at, lane, i, w))]);
    if at.pass != 0 && cfg.version != 0x10 {
      block := Xor(block, mem[cur]);
    }
    mem[cur] := block;
  }

  // ----- what a lane sees

  /** A lane reads its own blocks and, of the other lanes, only blocks outside the
      current slice. */
  ghost predicate Sees(cfg: Config, at: Place, lane: nat, p: nat)
    requires cfg.Valid()
  {
    LaneOf(cfg, p) == lane || !InSlice(ColOf(cfg, p), at.slice, cfg.segment)
  }

  ghost predicate SameView(cfg: Config, a: Memory, b: Memory, at: Place, lane: nat)
  {
    Fitting(cfg, a, at) && Fitting(cfg, b, at)
    && forall p: nat :: p < |a| && Sees(cfg, at, lane, p) ==> a[p] == b[p]
  }

  /** Memories that look the same to a lane make it write the same block. */
  lemma NewBlockLocal(cfg: Config, a: Memory, b: Memory, at: Place, lane: nat, i: nat)
    requires SameView(cfg, a, b, at, lane) && lane < cfg.lanes && First(at) <= i < cfg.segment
    ensures NewBlock(cfg, a, at, lane, i) == NewBlock(cfg, b, at, lane, i)
  {
    hide RefLane, RefCol, Xor, InSlice;
    PrevInRange(cfg, at, lane, i);
    Position(cfg, lane, Prev(Current(cfg, at, i), cfg.LaneLength()));
    Position(cfg, lane, Current(cfg, at, i));
    assert PrevBlock(cfg, a, at, lane, i) == PrevBlock(cfg, b, at, lane, i);
    var w := Selector(cfg, a, at, lane, i);
    Reference(cfg, at, lane, i, w);
    Position(cfg, RefLane(cfg, at, lane, w), RefCol(cfg, at, lane, i, w));
  }

  lemma StepLocal(cfg: Config, a: Memory, b: Memory, at: Place, lane: nat, i: nat)
    requires SameView(cfg, a, b, at, lane) && lane < cfg.lanes && First(at) <= i < cfg.segment
    ensures SameView(cfg, Step(cfg, a, at, lane, i), Step(cfg, b, at, lane, i), at, lane)
  {
    hide NewBlock, Sees;
    NewBlockLocal(cfg, a, b, at, lane, i);
  }

  /** Running alone keeps equal views equal. */
  lemma {:induction false} AloneLocal(cfg: Config, a: Memory, b: Memory, at: Place, lane: nat, n: nat)
    requires SameView(cfg, a, b, at, lane) && lane < cfg.lanes && First(at) <= n <= cfg.segment
    ensures SameView(cfg, Alone(cfg, a, at, lane, n), Alone(cfg, b, at, lane, n), at, lane)
    decreases n
  {
    hide Step, Sees;
    if n > First(at) {
      AloneLocal(cfg, a, b, at, lane, n - 1);
      StepLocal(cfg, Alone(cfg, a, at, lane, n - 1), Alone(cfg, b, at, lane, n - 1), at, lane, n - 1);
    }
  }

  /** A lane changes only its own blocks of the current slice. */
  lemma {:induction false} AloneFrame(cfg: Config, mem: Memory, at: Place, lane: nat, n: nat, p: nat)
    requires Fitting(cfg, mem, at) && lane < cfg.lanes && First(at) <= n <= cfg.segment && p < |mem|
    requires LaneOf(cfg, p) != lane || !InSlice(ColOf(cfg, p), at.slice, cfg.segment)
    ensures Alone(cfg, mem, at, lane, n)[p] == mem[p]
    decreases n
  {
    hide Step, InSlice, LaneOf, ColOf;
    if n > First(at) {
      AloneFrame(cfg, mem, at, lane, n - 1, p);
      StepElsewhere(cfg, Alone(cfg, mem, at, lane, n - 1), at, lane, n - 1, p);
    }
  }

  lemma CurrentPlace(cfg: Config, at: Place, lane: nat, i: nat)
    requires cfg.Valid() && at.slice < SLICES && lane < cfg.lanes && i < cfg.segment
    ensures LaneOf(cfg, At(cfg, lane, Current(cfg, at, i))) == lane
    ensures InSlice(ColOf(cfg, At(cfg, lane, Current(cfg, at, i))), at.slice, cfg.segment)
  {
    SliceColumns(at.slice, cfg.segment);
    Position(cfg, lane, Current(cfg, at, i));
  }

  // ----- interleavings

  /** How often a lane has moved. */
  function Count(schedule: seq<nat>, lane: nat): nat
  {
    if schedule == [] then 0
    else Count(schedule[..|schedule| - 1], lane) + (if schedule[|schedule| - 1] == lane then 1 else 0)
  }

  /** The block that the last move of the schedule fills in its segment. */
  function LastIndex(at: Place, schedule: seq<nat>): nat
    requires schedule != []
  {
    First(at) + Count(schedule[..|schedule| - 1], schedule[|schedule| - 1])
  }

  /** No lane moves past the end of its segment. */
  ghost predicate Allowed(cfg: Config, at: Place, schedule: seq<nat>)
  {
    forall lane: nat :: First(at) + Count(schedule, lane) <= cfg.segment && (lane >= cfg.lanes ==> Count(schedule, lane) == 0)
  }

  lemma AllowedPrefix(cfg: Config, at: Place, schedule: seq<nat>)
    requires Allowed(cfg, at, schedule) && schedule != []
    ensures var n := |schedule| - 1;
            && Allowed(cfg, at, schedule[..n]) && schedule[n] < cfg.lanes
            && First(at) <= LastIndex(at, schedule) < cfg.segment
  {
    var n := |schedule| - 1;
    assert Count(schedule, schedule[n]) == Count(schedule[..n], schedule[n]) + 1;
    forall lane: nat
      ensures First(at) + Count(schedule[..n], lane) <= cfg.segment
           && (lane >= cfg.lanes ==> Count(schedule[..n], lane) == 0)
    {
      assert Count(schedule, lane) >= Count(schedule[..n], lane);
    }
  }

  /** The lanes move one block at a time in the order of the schedule. */
  function Run(cfg: Config, mem: Memory, at: Place, schedule: seq<nat>): (r: Memory)
    requires Fitting(cfg, mem, at) && Allowed(cfg, at, schedule)
    ensures |r| == |mem|
    decreases |schedule|
  {
    if schedule == [] then mem
    else
      var n := |schedule| - 1;
      AllowedPrefix(cfg, at, schedule);
      Step(cfg, Run(cfg, mem, at, schedule[..n]), at, schedule[n], LastIndex(at, schedule))
  }

  /** What the lane of position p leaves there when it runs alone for its moves. */
  ghost function OwnValue(cfg: Config, mem: Memory, at: Place, schedule: seq<nat>, p: nat): Block
    requires Fitting(cfg, mem, at) && Allowed(cfg, at, schedule) && p < |mem|
  {
    Located(cfg, p);
    Alone(cfg, mem, at, LaneOf(cfg, p), First(at) + Count(schedule, LaneOf(cfg, p)))[p]
  }

  /** After any interleaving every block is what its own lane alone would have left. */
  lemma {:induction false} RunIsOwn(cfg: Config, mem: Memory, at: Place, schedule: seq<nat>, p: nat)
    requires Fitting(cfg, mem, at) && Allowed(cfg, at, schedule) && p < |mem|
    ensures Run(cfg, mem, at, schedule)[p] == OwnValue(cfg, mem, at, schedule, p)
    decreases |schedule|, 1
  {
    hide Step, Alone, LaneOf, SameView, Allowed, Run;
    Located(cfg, p);
    if schedule == [] {
      RunNothing(cfg, mem, at, LaneOf(cfg, p));
    } else {
      var n := |schedule| - 1;
      AllowedPrefix(cfg, at, schedule);
      var lane := schedule[n];
      var i := LastIndex(at, schedule);
      RunIsOwn(cfg, mem, at, schedule[..n], p);
      ViewOfRun(cfg, mem, at, schedule[..n], lane);
      RunNext(cfg, mem, at, schedule, n);
      AloneNext(cfg, mem, at, lane, i);
      MoveIsOwn(cfg, Run(cfg, mem, at, schedule[..n]), Alone(cfg, mem, at, lane, i), at, lane, i, p);
    }
  }

  lemma RunNext(cfg: Config, mem: Memory, at: Place, schedule: seq<nat>, n: nat)
    requires Fitting(cfg, mem, at) && Allowed(cfg, at, schedule) && |schedule| == n + 1
    ensures Allowed(cfg, at, schedule[..n]) && schedule[n] < cfg.lanes
    ensures First(at) <= LastIndex(at, schedule) < cfg.segment
    ensures Run(cfg, mem, at, schedule)
         == Step(cfg, Run(cfg, mem, at, schedule[..n]), at, schedule[n], LastIndex(at, schedule))
  {
    hide Step, Allowed, Count, Fitting, LastIndex;
    AllowedPrefix(cfg, at, schedule);
  }

  /** To a lane, an interleaving looks as if it had run alone. */
  lemma {:induction false} ViewOfRun(cfg: Config, mem: Memory, at: Place, schedule: seq<nat>, lane: nat)
    requires Fitting(cfg, mem, at) && Allowed(cfg, at, schedule) && lane < cfg.lanes
    ensures SameView(cfg, Run(cfg, mem, at, schedule),
                     Alone(cfg, mem, at, lane, First(at) + Count(schedule, lane)), at, lane)
    decreases |schedule|, 2
  {
    hide Run, Alone, InSlice;
    forall p: nat | p < |mem| && Sees(cfg, at, lane, p)
      ensures Run(cfg, mem, at, schedule)[p] == Alone(cfg, mem, at, lane, First(at) + Count(schedule, lane))[p]
    {
      RunIsOwn(cfg, mem, at, schedule, p);
      Located(cfg, p);
      var own := LaneOf(cfg, p);
      if own != lane {
        AloneFrame(cfg, mem, at, lane, First(at) + Count(schedule, lane), p);
        AloneFrame(cfg, mem, at, own, First(at) + Count(schedule, own), p);
      }
    }
  }

  lemma RunNothing(cfg: Config, mem: Memory, at: Place, lane: nat)
    requires Fitting(cfg, mem, at) && Allowed(cfg, at, []) && lane < cfg.lanes
    ensures Run(cfg, mem, at, []) == mem && Alone(cfg, mem, at, lane, First(at)) == mem
  {}

  /** A move changes what the moving lane sees as if it ran alone, and nothing else. */
  lemma MoveIsOwn(cfg: Config, before: Memory, alone: Memory, at: Place, lane: nat, i: nat, p: nat)
    requires SameView(cfg, before, alone, at, lane) && lane < cfg.lanes && First(at) <= i < cfg.segment && p < |before|
    ensures LaneOf(cfg, p) == lane ==> Step(cfg, before, at, lane, i)[p] == Step(cfg, alone, at, lane, i)[p]
    ensures LaneOf(cfg, p) != lane ==> Step(cfg, before, at, lane, i)[p] == before[p]
  {
    hide Step, InSlice, LaneOf;
    if LaneOf(cfg, p) == lane {
      StepLocal(cfg, before, alone, at, lane, i);
    } else {
      StepElsewhere(cfg, before, at, lane, i, p);
    }
  }

  lemma StepElsewhere(cfg: Config, mem: Memory, at: Place, lane: nat, i: nat, p: nat)
    requires Fitting(cfg, mem, at) && lane < cfg.lanes && First(at) <= i < cfg.segment && p < |mem|
    requires LaneOf(cfg, p) != lane || !InSlice(ColOf(cfg, p), at.slice, cfg.segment)
    ensures Step(cfg, mem, at, lane, i)[p] == mem[p]
  {
    hide NewBlock, InSlice, LaneOf, ColOf;
    CurrentPlace(cfg, at, lane, i);
  }

  /** Two interleavings in which every lane has moved equally often leave the same memory. */
  lemma OrderIsIrrelevant(cfg: Config, mem: Memory, at: Place, s: seq<nat>, t: seq<nat>)
    requires Fitting(cfg, mem, at) && Allowed(cfg, at, s) && Allowed(cfg, at, t)
    requires forall lane: nat :: Count(s, lane) == Count(t, lane)
    ensures Run(cfg, mem, at, s) == Run(cfg, mem, at, t)
  {
    hide Run, Alone;
    forall p: nat | p < |mem| ensures Run(cfg, mem, at, s)[p] == Run(cfg, mem, at, t)[p] {
      Located(cfg, p);
      RunIsOwn(cfg, mem, at, s, p);
      RunIsOwn(cfg, mem, at, t, p);
    }
  }

  // ----- whole runs

  /** The first k lanes of a slice, one after the other. */
  function LaneByLane(cfg: Config, mem: Memory, at: Place, k: nat): (r: Memory)
    requires Fitting(cfg, mem, at) && k <= cfg.lanes
    ensures |r| == |mem|
    decreases k
  {
    if k == 0 then mem else Alone(cfg, LaneByLane(cfg, mem, at, k - 1), at, k - 1, cfg.segment)
  }

  /** Every lane has filled its segment. */
  ghost predicate Complete(cfg: Config, at: Place, schedule: seq<nat>)
  {
    && Allowed(cfg, at, schedule)
    && forall lane: nat :: lane < cfg.lanes ==> First(at) + Count(schedule, lane) == cfg.segment
  }

  /** The sequential loop leaves in every segment what its lane alone would have left. */
  lemma {:induction false} LaneByLaneIsOwn(cfg: Config, mem: Memory, at: Place, k: nat, p: nat)
    requires Fitting(cfg, mem, at) && k <= cfg.lanes && p < |mem|
    ensures LaneOf(cfg, p) >= 0 && LaneOf(cfg, p) < cfg.lanes
    ensures LaneByLane(cfg, mem, at, k)[p]
         == if LaneOf(cfg, p) < k then Alone(cfg, mem, at, LaneOf(cfg, p), cfg.segment)[p] else mem[p]
    decreases k, 1
  {
    hide Alone, InSlice, LaneOf;
    Located(cfg, p);
    if k > 0 {
      var before := LaneByLane(cfg, mem, at, k - 1);
      LaneByLaneIsOwn(cfg, mem, at, k - 1, p);
      if LaneOf(cfg, p) == k - 1 {
        ViewOfLanes(cfg, mem, at, k - 1);
        AloneLocal(cfg, before, mem, at, k - 1, cfg.segment);
      } else {
        AloneFrame(cfg, before, at, k - 1, cfg.segment, p);
      }
    }
  }

  lemma {:induction false} ViewOfLanes(cfg: Config, mem: Memory, at: Place, k: nat)
    requires Fitting(cfg, mem, at) && k < cfg.lanes
    ensures SameView(cfg, LaneByLane(cfg, mem, at, k), mem, at, k)
    decreases k, 2
  {
    hide Alone, InSlice, LaneOf, LaneByLane;
    forall p: nat | p < |mem| && Sees(cfg, at, k, p) ensures LaneByLane(cfg, mem, at, k)[p] == mem[p] {
      LaneByLaneIsOwn(cfg, mem, at, k, p);
      if LaneOf(cfg, p) < k {
        AloneFrame(cfg, mem, at, LaneOf(cfg, p), cfg.segment, p);
      }
    }
  }

  // ----- the recurrence of RFC 9106

  /** Steps that do not write p leave it alone. */
  lemma {:induction false} AloneKeeps(cfg: Config, mem: Memory, at: Place, lane: nat, i: nat, n: nat, p: nat)
    requires Fitting(cfg, mem, at) && lane < cfg.lanes && First(at) <= i <= n <= cfg.segment && p < |mem|
    requires forall j: nat :: i <= j < n ==> p != At(cfg, lane, Current(cfg, at, j))
    ensures Alone(cfg, mem, at, lane, n)[p] == Alone(cfg, mem, at, lane, i)[p]
    decreases n
  {
    hide NewBlock;
    if i < n {
      AloneKeeps(cfg, mem, at, lane, i, n - 1, p);
      assert p != At(cfg, lane, Current(cfg, at, n - 1));
    }
  }

  /** The equation of section 3.2 of RFC 9106 for block i of the lane in this slice: now is the
      memory after the slice and before the one it started from. The new block compresses the
      block before it and the referenced block, and from the second pass on the old content
      is added unless the version is 0x10. */
  function Equation(cfg: Config, before: Memory, now: Memory, at: Place, lane: nat, i: nat): Block
    requires Fitting(cfg, before, at) && Fitting(cfg, now, at) && lane < cfg.lanes && First(at) <= i < cfg.segment
  {
    PrevInRange(cfg, at, lane, i);
    var cur := at.slice * cfg.segment + i;
    var last := now[lane * cfg.LaneLength() + (if cur == 0 then cfg.LaneLength() - 1 else cur - 1)];
    var w := if cfg.DataIndependent(at.pass, at.slice) then AddressWord(cfg, at.pass, lane, at.slice, i) else last[0];
    Reference(cfg, at, lane, i, w);
    var l := if at.pass == 0 && at.slice == 0 then lane else w as nat / 0x1_0000_0000 % cfg.lanes;
    var z := IndexAlpha(at.pass, at.slice, i, cfg.LaneLength(), cfg.segment, w as nat % 0x1_0000_0000, l == lane);
    var g := cfg.compress(last, now[l * cfg.LaneLength() + z]);
    if at.pass > 0 && cfg.version != 0x10 then Xor(g, before[lane * cfg.LaneLength() + cur]) else g
  }

  /** The positions a step reads are not written by it or by a later one of its lane. */
  lemma ReadsAreFinal(cfg: Config, at: Place, lane: nat, i: nat, w: bv64, j: nat)
    requires cfg.Valid() && at.slice < SLICES && lane < cfg.lanes && First(at) <= i <= j < cfg.segment
    ensures At(cfg, lane, Prev(Current(cfg, at, i), cfg.LaneLength())) != At(cfg, lane, Current(cfg, at, j))
    ensures RefCol(cfg, at, lane, i, w) >= 0
    ensures At(cfg, RefLane(cfg, at, lane, w), RefCol(cfg, at, lane, i, w)) != At(cfg, lane, Current(cfg, at, j))
  {
    hide IndexAlpha, InSlice;
    Reference(cfg, at, lane, i, w);
    PrevInRange(cfg, at, lane, i);
    PrevInRange(cfg, at, lane, j);
    Position(cfg, RefLane(cfg, at, lane, w), RefCol(cfg, at, lane, i, w));
    Position(cfg, lane, Current(cfg, at, j));
    Position(cfg, lane, Prev(Current(cfg, at, i), cfg.LaneLength()));
    CurrentPlace(cfg, at, lane, j);
    if RefLane(cfg, at, lane, w) == lane {
      OwnReferenceWritten(at.pass, at.slice, i, cfg.segment, Low(w));
    }
    PreviousBefore(cfg, at, i, j);
  }

  lemma PreviousBefore(cfg: Config, at: Place, i: nat, j: nat)
    requires cfg.Valid() && at.slice < SLICES && i <= j < cfg.segment
    ensures Prev(Current(cfg, at, i), cfg.LaneLength()) != Current(cfg, at, j)
  {
    SliceColumns(at.slice, cfg.segment);
  }

  /** What a step reads is still there when the slice is complete. */
  lemma ReadLater(cfg: Config, mem: Memory, at: Place, lane: nat, i: nat, p: nat)
    requires Fitting(cfg, mem, at) && lane < cfg.lanes && First(at) <= i < cfg.segment && p < |mem|
    requires Sees(cfg, at, lane, p)
    requires forall j: nat :: i <= j < cfg.segment ==> p != At(cfg, lane, Current(cfg, at, j))
    ensures LaneByLane(cfg, mem, at, cfg.lanes)[p] == Alone(cfg, mem, at, lane, i)[p]
  {
    hide Alone, LaneByLane, InSlice, LaneOf;
    LaneByLaneIsOwn(cfg, mem, at, cfg.lanes, p);
    if LaneOf(cfg, p) == lane {
      AloneKeeps(cfg, mem, at, lane, i, cfg.segment, p);
    } else {
      AloneFrame(cfg, mem, at, LaneOf(cfg, p), cfg.segment, p);
      AloneFrame(cfg, mem, at, lane, i, p);
    }
  }

  /** After a slice every block it wrote satisfies the equation. */
  lemma SliceEquation(cfg: Config, mem: Memory, at: Place, lane: nat, i: nat)
    requires Fitting(cfg, mem, at) && lane < cfg.lanes && First(at) <= i < cfg.segment
    ensures At(cfg, lane, Current(cfg, at, i)) < |mem|
    ensures LaneByLane(cfg, mem, at, cfg.lanes)[At(cfg, lane, Current(cfg, at, i))]
         == Equation(cfg, mem, LaneByLane(cfg, mem, at, cfg.lanes), at, lane, i)
  {
    hide LaneByLane, Alone, NewBlock, Equation;
    PrevInRange(cfg, at, lane, i);
    Written(cfg, mem, at, lane, i);
    SameBlock(cfg, mem, at, lane, i);
  }

  /** The block is written once. */
  lemma Written(cfg: Config, mem: Memory, at: Place, lane: nat, i: nat)
    requires Fitting(cfg, mem, at) && lane < cfg.lanes && First(at) <= i < cfg.segment
    ensures var cur := At(cfg, lane, Current(cfg, at, i));
            && cur < |mem| && Alone(cfg, mem, at, lane, i)[cur] == mem[cur]
            && LaneByLane(cfg, mem, at, cfg.lanes)[cur] == NewBlock(cfg, Alone(cfg, mem, at, lane, i), at, lane, i)
  {
    hide LaneByLane, Alone, NewBlock;
    PrevInRange(cfg, at, lane, i);
    var cur := At(cfg, lane, Current(cfg, at, i));
    Position(cfg, lane, Current(cfg, at, i));
    LaneByLaneIsOwn(cfg, mem, at, cfg.lanes, cur);
    AloneNext(cfg, mem, at, lane, i);
    AloneKeeps(cfg, mem, at, lane, i + 1, cfg.segment, cur);
    AloneKeeps(cfg, mem, at, lane, First(at), i, cur);
    AloneStart(cfg, mem, at, lane);
  }

  lemma SameBlock(cfg: Config, mem: Memory, at: Place, lane: nat, i: nat)
    requires Fitting(cfg, mem, at) && lane < cfg.lanes && First(at) <= i < cfg.segment
    ensures NewBlock(cfg, Alone(cfg, mem, at, lane, i), at, lane, i)
         == Equation(cfg, mem, LaneByLane(cfg, mem, at, cfg.lanes), at, lane, i)
  {
    hide LaneByLane, Alone, InSlice, IndexAlpha, AddressWord, Xor;
    var then', now := Alone(cfg, mem, at, lane, i), LaneByLane(cfg, mem, at, cfg.lanes);
    Written(cfg, mem, at, lane, i);
    PrevInRange(cfg, at, lane, i);
    var prev := At(cfg, lane, Prev(Current(cfg, at, i), cfg.LaneLength()));
    Position(cfg, lane, Prev(Current(cfg, at, i), cfg.LaneLength()));
    var w := Selector(cfg, then', at, lane, i);
    Reference(cfg, at, lane, i, w);
    var ref := At(cfg, RefLane(cfg, at, lane, w), RefCol(cfg, at, lane, i, w));
    Position(cfg, RefLane(cfg, at, lane, w), RefCol(cfg, at, lane, i, w));
    forall j: nat | i <= j < cfg.segment
      ensures prev != At(cfg, lane, Current(cfg, at, j)) && ref != At(cfg, lane, Current(cfg, at, j))
    {
      ReadsAreFinal(cfg, at, lane, i, w, j);
    }
    ReadLater(cfg, mem, at, lane, i, prev);
    ReadLater(cfg, mem, at, lane, i, ref);
  }

  /** Any interleaving of the lanes of a slice equals the sequential loop over them. */
  lemma InterleavingIsSequential(cfg: Config, mem: Memory, at: Place, schedule: seq<nat>)
    requires Fitting(cfg, mem, at) && Complete(cfg, at, schedule)
    ensures Run(cfg, mem, at, schedule) == LaneByLane(cfg, mem, at, cfg.lanes)
  {
    hide Run, Alone, LaneByLane, Allowed, LaneOf;
    forall p: nat | p < |mem| ensures Run(cfg, mem, at, schedule)[p] == LaneByLane(cfg, mem, at, cfg.lanes)[p] {
      Located(cfg, p);
      RunIsOwn(cfg, mem, at, schedule, p);
      LaneByLaneIsOwn(cfg, mem, at, cfg.lanes, p);
    }
  }

  /** Slice number n of the whole run. */
  function SliceNumber(n: nat): Place { Place(n / SLICES, n % SLICES) }

  /** The memory after the first n slices of argon2. */
  function Sequential(cfg: Config, mem: Memory, n: nat): (r: Memory)
    requires cfg.Valid() && |mem| == cfg.MPrime()
    ensures |r| == |mem|
    decreases n
  {
    if n == 0 then mem else LaneByLane(cfg, Sequential(cfg, mem, n - 1), SliceNumber(n - 1), cfg.lanes)
  }

  /** The memory after slices whose lanes were interleaved as the schedules say. */
  ghost function Parallel(cfg: Config, mem: Memory, schedules: seq<seq<nat>>): (r: Memory)
    requires cfg.Valid() && |mem| == cfg.MPrime()
    requires forall n: nat :: n < |schedules| ==> Complete(cfg, SliceNumber(n), schedules[n])
    ensures |r| == |mem|
    decreases |schedules|
  {
    if schedules == [] then mem
    else
      var n := |schedules| - 1;
      assert Complete(cfg, SliceNumber(n), schedules[n]);
      Run(cfg, Parallel(cfg, mem, schedules[..n]), SliceNumber(n), schedules[n])
  }

  /** Lanes may run in parallel between slice boundaries: the result is the sequential one. */
  lemma {:induction false} ParallelIsSequential(cfg: Config, mem: Memory, schedules: seq<seq<nat>>)
    requires cfg.Valid() && |mem| == cfg.MPrime()
    requires forall n: nat :: n < |schedules| ==> Complete(cfg, SliceNumber(n), schedules[n])
    ensures Parallel(cfg, mem, schedules) == Sequential(cfg, mem, |schedules|)
    decreases |schedules|
  {
    hide Complete, Run, LaneByLane;
    if schedules != [] {
      var n := |schedules| - 1;
      ParallelIsSequential(cfg, mem, schedules[..n]);
      InterleavingIsSequential(cfg, Parallel(cfg, mem, schedules[..n]), SliceNumber(n), schedules[n]);
    }
  }

  /** The pass, slice and lane loops of argon2. */
  method FillMemory(cfg: Config, mem: array<Block>)
    requires cfg.Valid() && mem.Length == cfg.MPrime()
    modifies mem
    ensures mem[..] == Sequential(cfg, old(mem[..]), SLICES * cfg.passes)
  {
    hide Alone, LaneByLane, Sequential;
    SequentialStart(cfg, mem[..]);
    var pass := 0;
    while pass < cfg.passes
      invariant 0 <= pass <= cfg.passes && mem[..] == Sequential(cfg, old(mem[..]), SLICES * pass)
    {
      var slice := 0;
      while slice < SLICES
        invariant 0 <= slice <= SLICES && mem[..] == Sequential(cfg, old(mem[..]), SLICES * pass + slice)
      {
        FillSlice(cfg, mem, Place(pass, slice));
        SequentialNext(cfg, old(mem[..]), pass, slice);
        slice := slice + 1;
      }
      pass := pass + 1;
    }
  }

  method FillSlice(cfg: Config, mem: array<Block>, at: Place)
    requires Fitting(cfg, mem[..], at)
    modifies mem
    ensures mem[..] == LaneByLane(cfg, old(mem[..]), at, cfg.lanes)
  {
    hide Alone;
    var lane := 0;
    while lane < cfg.lanes
      invariant 0 <= lane <= cfg.lanes && mem[..] == LaneByLane(cfg, old(mem[..]), at, lane)
    {
      FillSegment(cfg, mem, at, lane);
      lane := lane + 1;
    }
  }

  lemma SequentialStart(cfg: Config, mem: Memory)
    requires cfg.Valid() && |mem| == cfg.MPrime()
    ensures Sequential(cfg, mem, 0) == mem
  {}

  lemma SequentialNext(cfg: Config, mem: Memory, pass: nat, slice: nat)
    requires cfg.Valid() && |mem| == cfg.MPrime() && slice < SLICES
    ensures Sequential(cfg, mem, SLICES * pass + slice + 1)
         == LaneByLane(cfg, Sequential(cfg, mem, SLICES * pass + slice), Place(pass, slice), cfg.lanes)
  {
    assert SliceNumber(SLICES * pass + slice) == Place(pass, slice);
  }
}
