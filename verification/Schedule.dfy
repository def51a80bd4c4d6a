/** Steps through a shard's schedule: how the pool's counters walk the sequences of a `Layout`. */
module Schedules {
  import opened Bitmaps
  import opened Layouts
  import opened Modular
  import opened Sequences
  import opened Text

  lemma CountsFit(layout: Layout)
    requires layout.Valid()
    ensures layout.BlockCount() <= |layout.file| && layout.RegionCount() <= layout.BlockCount()
    ensures layout.RegionsForShard() <= layout.RegionCount()
  {
    QuotientSmall(|layout.file|, layout.blockBytes);
    QuotientSmall(layout.BlockCount(), layout.blocksPerRegion);
    if layout.shardIndex < layout.RegionCount() {
      DivSmall(layout.RegionCount() - 1 - layout.shardIndex, layout.shardCount);
    }
  }

  lemma QuotientSmall(value: nat, divisor: nat)
    requires divisor > 0
    ensures CeilingQuotient(value, divisor) <= value
  {
    if value > 0 {
      DivSmall(value - 1, divisor);
    }
  }

  lemma DivSmall(a: nat, d: nat)
    requires d > 0
    ensures a / d <= a
  {
    DivProduct(a / d, d, a % d);
  }

  lemma DivProduct(q: int, d: nat, r: nat)
    requires d > 0
    ensures q >= 0 ==> q <= q * d + r
  {
    if q >= 0 {
      MulMonotone(1, d, q);
    }
  }

  // ----- regions -----

  /** The first region of a shard, as `startCycleLocked` computes it. */
  lemma FirstRegion(layout: Layout, cycleSeed: nat, first: nat)
    requires layout.Valid() && layout.RegionCount() > 0
    requires first == (layout.RegionStart(cycleSeed)
                       + (layout.RegionStep(cycleSeed) * layout.shardIndex) % layout.RegionCount()) % layout.RegionCount()
    ensures first == layout.ShardRegion(cycleSeed, 0)
  {
    var start, step, n := layout.RegionStart(cycleSeed), layout.RegionStep(cycleSeed), layout.RegionCount();
    AddReduced(start, step * layout.shardIndex, n);
    assert step * layout.shardIndex == (layout.shardIndex + 0 * layout.shardCount) * step;
  }

  lemma AddReduced(a: int, b: int, n: int)
    requires n > 0
    ensures (a + b % n) % n == (a + b) % n
  {
    assert b == (b / n) * n + b % n;
    ModShift(a + b % n, a + b, b / n, n);
  }

  /** The regions a shard steps over to reach its next one. */
  ghost predicate Advances(layout: Layout, cycleSeed: nat, advance: nat)
    requires layout.Valid()
  {
    layout.RegionCount() > 1 ==> advance == (layout.RegionStep(cycleSeed) * layout.shardCount) % layout.RegionCount()
  }

  /** The counters of a pool inside a region. */
  ghost predicate InRegion(layout: Layout, cycleSeed: nat, region: nat, base: nat, blocks: nat, rotation: nat)
    requires layout.Valid()
  {
    && region < layout.RegionCount() && base == layout.RegionBase(region) && blocks == layout.RegionSize(region)
    && rotation == layout.Rotation(cycleSeed, region)
  }

  /** Where a shard's walk over the regions starts, and how far it jumps. */
  method ChooseRegions(layout: Layout, cycleSeed: nat) returns (first: nat, advance: nat)
    requires layout.Valid()
    ensures layout.RegionCount() > 0 ==> first == layout.ShardRegion(cycleSeed, 0)
    ensures Advances(layout, cycleSeed, advance)
  {
    if layout.RegionCount() == 0 {
      first, advance := 0, 0;
    } else if layout.mode.Sequential? {
      first, advance := 0, 1;
      SequentialFirst(layout.RegionCount());
    } else {
      first, advance := ShuffleRegions(layout, cycleSeed);
    }
  }

  lemma SequentialFirst(n: nat)
    requires n > 0
    ensures Visit(0, 1, n, 0 + 0 * 1) == 0 && (n > 1 ==> (1 * 1) % n == 1)
  {
    ModUnique(0, 0 + (0 + 0 * 1) * 1, n, 0);
    if n > 1 {
      ModUnique(1, 1 * 1, n, 0);
    }
  }

  method ShuffleRegions(layout: Layout, cycleSeed: nat) returns (first: nat, advance: nat)
    requires layout.Valid() && layout.RegionCount() > 0 && !layout.mode.Sequential?
    ensures first == layout.ShardRegion(cycleSeed, 0) && Advances(layout, cycleSeed, advance)
  {
    CountsFit(layout);
    hide Layout.RegionCount;
    hide PermutationStep;
    hide PermutationStart;
    hide AddModulo;
    var regions := layout.RegionCount();
    var step, start := PermutationParams(regions, cycleSeed, layout.mix);
    var offset := MultiplyModulo(step as uint64, layout.shardIndex as uint64, regions as uint64);
    var jump := MultiplyModulo(step as uint64, layout.shardCount as uint64, regions as uint64);
    AddModuloExact(start as uint64, offset, regions as uint64);
    first, advance := AddModulo(start as uint64, offset, regions as uint64) as nat, jump as nat;
    if regions == 1 {
      ModUnique(0, step * layout.shardIndex, 1, step * layout.shardIndex);
    }
    FirstRegion(layout, cycleSeed, first);
  }

  /** Advancing by `step * shards` modulo the count reaches the shard's next region. */
  lemma AdvanceRegion(layout: Layout, cycleSeed: nat, k: nat)
    requires layout.Valid() && layout.RegionCount() > 0
    ensures (layout.ShardRegion(cycleSeed, k)
             + (layout.RegionStep(cycleSeed) * layout.shardCount) % layout.RegionCount())
            % layout.RegionCount() == layout.ShardRegion(cycleSeed, k + 1)
  {
    var start, step, n := layout.RegionStart(cycleSeed), layout.RegionStep(cycleSeed), layout.RegionCount();
    var i, shards := layout.shardIndex + k * layout.shardCount, layout.shardCount;
    SumReduced(start + i * step, step * shards, n);
    NextPick(layout.shardIndex, k, shards, step, start);
  }

  lemma SumReduced(a: int, b: int, n: int)
    requires n > 0
    ensures (a % n + b % n) % n == (a + b) % n
  {
    AddReduced(a % n, b, n);
    ModMod(a, n);
    ModAdd(a % n, a, b, n);
  }

  lemma NextPick(shard: nat, k: nat, shards: nat, step: nat, start: nat)
    ensures start + (shard + k * shards) * step + step * shards == start + (shard + (k + 1) * shards) * step
  {
    assert (k + 1) * shards == k * shards + shards;
    assert (shard + k * shards + shards) * step == (shard + k * shards) * step + shards * step;
  }

  /** Entering a region moves its blocks to the front of what remains. */
  lemma EnterRegion(layout: Layout, cycleSeed: nat, cursor: nat)
    requires layout.Valid() && cursor < layout.RegionsForShard()
    ensures layout.RegionCount() > 0 && layout.ShardRegion(cycleSeed, cursor) < layout.RegionCount()
    ensures var regions := layout.ShardRegions(cycleSeed);
      Flat<nat>(layout.Expand(cycleSeed), regions[cursor..])
      == layout.RegionBlocks(cycleSeed, layout.ShardRegion(cycleSeed, cursor))
       + Flat<nat>(layout.Expand(cycleSeed), regions[cursor + 1..])
  {
    var regions := layout.ShardRegions(cycleSeed);
    assert regions[cursor..] == [regions[cursor]] + regions[cursor + 1..];
    assert regions[cursor..][1..] == regions[cursor + 1..];
  }

  /** A region of the file is not empty and its blocks exist. */
  lemma RegionBounds(layout: Layout, region: nat)
    requires layout.Valid() && region < layout.RegionCount()
    ensures 0 < layout.RegionSize(region)
         == Min(layout.blocksPerRegion, layout.BlockCount() - layout.RegionBase(region))
    ensures layout.RegionBase(region) + layout.RegionSize(region) <= layout.BlockCount()
  {
    CeilingCovers(layout.BlockCount(), layout.blocksPerRegion);
    MulMonotone(region, layout.RegionCount() - 1, layout.blocksPerRegion);
  }

  /** The region after `region` in a shard's walk; addition modulo the count, without overflow. */
  function NextRegion(layout: Layout, region: nat, advance: nat): nat
    requires layout.Valid() && region < layout.RegionCount()
    requires layout.RegionCount() > 1 ==> advance < layout.RegionCount()
  {
    CountsFit(layout);
    if layout.RegionCount() <= 1 then 0
    else AddModulo(region as uint64, advance as uint64, layout.RegionCount() as uint64) as nat
  }

  lemma NextOfShard(layout: Layout, cycleSeed: nat, cursor: nat, region: nat, advance: nat)
    requires layout.Valid() && layout.RegionCount() > 0
    requires region == layout.ShardRegion(cycleSeed, cursor) && Advances(layout, cycleSeed, advance)
    ensures region < layout.RegionCount() && (layout.RegionCount() > 1 ==> advance < layout.RegionCount())
    ensures NextRegion(layout, region, advance) == layout.ShardRegion(cycleSeed, cursor + 1)
  {
    AdvanceRegion(layout, cycleSeed, cursor);
    CountsFit(layout);
    hide Layout.RegionCount;
    var n := layout.RegionCount();
    if n > 1 {
      AddModuloExact(region as uint64, advance as uint64, n as uint64);
    }
  }

  /** The blocks of the shard's regions from the given one on. */
  ghost function After(layout: Layout, cycleSeed: nat, cursor: nat): seq<nat>
    requires layout.Valid() && cursor <= layout.RegionsForShard()
  {
    Flat<nat>(layout.Expand(cycleSeed), layout.ShardRegions(cycleSeed)[cursor..])
  }

  /** From the middle of one region on, a shard's schedule has no repetitions. */
  lemma RestDistinct(layout: Layout, cycleSeed: nat, cursor: nat, next: nat)
    requires layout.Valid() && 0 < cursor <= layout.RegionsForShard() && layout.RegionCount() > 0
    requires next <= |layout.RegionBlocks(cycleSeed, layout.ShardRegion(cycleSeed, cursor - 1))|
    ensures var rest := layout.RegionBlocks(cycleSeed, layout.ShardRegion(cycleSeed, cursor - 1))[next..]
                        + After(layout, cycleSeed, cursor);
      Distinct(rest) && forall b :: b in rest ==> b < layout.BlockCount()
  {
    var regions, expand := layout.ShardRegions(cycleSeed), layout.Expand(cycleSeed);
    var blocks := layout.RegionBlocks(cycleSeed, layout.ShardRegion(cycleSeed, cursor - 1));
    EnterRegion(layout, cycleSeed, cursor - 1);
    assert regions == regions[..cursor - 1] + regions[cursor - 1..];
    FlatConcat(expand, regions[..cursor - 1], regions[cursor - 1..]);
    assert Flat<nat>(expand, regions[cursor - 1..]) == blocks + After(layout, cycleSeed, cursor);
    SuffixPart(blocks, next);
    ShardBlocksDistinct(layout, cycleSeed);
    PartDistinct(blocks[next..] + After(layout, cycleSeed, cursor), 0, layout.BlockCount());
  }

  /** A shard's schedule from a region on has no repetitions. */
  lemma AfterDistinct(layout: Layout, cycleSeed: nat, cursor: nat)
    requires layout.Valid() && cursor <= layout.RegionsForShard()
    ensures Distinct(After(layout, cycleSeed, cursor)) && forall b :: b in After(layout, cycleSeed, cursor) ==>
      b < layout.BlockCount()
  {
    var regions, expand := layout.ShardRegions(cycleSeed), layout.Expand(cycleSeed);
    assert regions == regions[..cursor] + regions[cursor..];
    FlatConcat(expand, regions[..cursor], regions[cursor..]);
    ShardBlocksDistinct(layout, cycleSeed);
    PartDistinct(After(layout, cycleSeed, cursor), 0, layout.BlockCount());
  }

  /** The extent of a region and the rotation of its blocks. */
  method RegionAt(layout: Layout, cycleSeed: nat, region: nat) returns (base: nat, blocks: nat, rotation: nat)
    requires layout.Valid() && region < layout.RegionCount()
    ensures InRegion(layout, cycleSeed, region, base, blocks, rotation) && blocks > 0
  {
    RegionBounds(layout, region);
    base := region * layout.blocksPerRegion;
    blocks := Min(layout.blocksPerRegion, layout.BlockCount() - base);
    rotation := if layout.mode.Sequential? then 0 else layout.mix(cycleSeed, region) % blocks;
  }

  // ----- looking ahead -----

  /** The blocks that a continuation interval does not cover. */
  ghost function Unskipped(blocks: seq<nat>, from: nat, to: nat): seq<nat> {
    if blocks == [] then []
    else (if from <= blocks[0] < to then [] else [blocks[0]]) + Unskipped(blocks[1..], from, to)
  }

  lemma {:induction false} UnskippedDistinct(blocks: seq<nat>, from: nat, to: nat)
    requires Distinct(blocks)
    ensures Distinct(Unskipped(blocks, from, to))
    ensures forall b :: b in Unskipped(blocks, from, to) ==> b in blocks && !(from <= b < to)
  {
    if blocks != [] {
      UnskippedDistinct(blocks[1..], from, to);
      assert blocks == [blocks[0]] + blocks[1..];
      forall b | b in Unskipped(blocks[1..], from, to)
        ensures b in blocks && b != blocks[0]
      {
        var j :| 0 <= j < |blocks| - 1 && blocks[1..][j] == b;
        assert blocks[j + 1] == b;
      }
      DistinctHead(blocks[0], Unskipped(blocks[1..], from, to));
    }
  }

  lemma UnskippedHead(b: nat, rest: seq<nat>, from: nat, to: nat)
    ensures Unskipped([b] + rest, from, to) == (if from <= b < to then [] else [b]) + Unskipped(rest, from, to)
  {
    assert ([b] + rest)[1..] == rest;
  }

  /** What a schedule still holds, from a position inside a region on. */
  ghost function Rest(layout: Layout, cycleSeed: nat, region: nat, next: nat, blocks: nat, cursor: nat): seq<nat>
    requires layout.Valid() && cursor <= layout.RegionsForShard()
  {
    (if next < blocks == |layout.RegionBlocks(cycleSeed, region)|
      then layout.RegionBlocks(cycleSeed, region)[next..] else [])
    + After(layout, cycleSeed, cursor)
  }

  /** A position in the schedule: inside a region, with the shard's next region known. */
  ghost predicate At(layout: Layout, cycleSeed: nat, region: nat, base: nat, rotation: nat, next: nat, blocks: nat,
                     cursor: nat, upcoming: nat)
    requires layout.Valid()
  {
    && next <= blocks && cursor <= layout.RegionsForShard()
    && (layout.RegionCount() > 0 ==> upcoming == layout.ShardRegion(cycleSeed, cursor))
    && (blocks > 0 ==> InRegion(layout, cycleSeed, region, base, blocks, rotation))
  }

  /** Of the blocks left, the next one is kept or skipped. */
  lemma UnskippedKeeps(all: seq<nat>, kept: seq<nat>, block: nat, rest: seq<nat>, from: nat, to: nat)
    requires all == kept + Unskipped([block] + rest, from, to)
    ensures all == (if block < from || block >= to then kept + [block] else kept) + Unskipped(rest, from, to)
  {
    hide Unskipped;
    UnskippedHead(block, rest, from, to);
  }

  /** At the end of a region: the position at the start of the shard's next one, or none. */
  method LookIntoRegion(layout: Layout, cycleSeed: nat, cursor: nat, upcoming: nat, advance: nat, ghost before: nat,
                        ghost blocksBefore: nat)
    returns (base: nat, blocks: nat, rotation: nat, after: nat)
    requires layout.Valid() && cursor < layout.RegionsForShard() && Advances(layout, cycleSeed, advance)
    requires layout.RegionCount() > 0 ==> upcoming == layout.ShardRegion(cycleSeed, cursor)
    ensures At(layout, cycleSeed, upcoming, base, rotation, 0, blocks, cursor + 1, after) && blocks > 0
    ensures Rest(layout, cycleSeed, upcoming, 0, blocks, cursor + 1)
         == Rest(layout, cycleSeed, before, blocksBefore, blocksBefore, cursor)
  {
    hide Layout.RegionsForShard;
    hide Layout.RegionCount;
    hide Layout.ShardRegion;
    EnterRegion(layout, cycleSeed, cursor);
    NextOfShard(layout, cycleSeed, cursor, upcoming, advance);
    base, blocks, rotation := RegionAt(layout, cycleSeed, upcoming);
    after := NextRegion(layout, upcoming, advance);
    WholeRegion(layout, cycleSeed, upcoming);
  }

  lemma NothingRemains(layout: Layout, cycleSeed: nat, region: nat, blocks: nat, cursor: nat)
    requires layout.Valid() && cursor == layout.RegionsForShard()
    ensures Rest(layout, cycleSeed, region, blocks, blocks, cursor) == []
    ensures forall from, to :: Unskipped([], from, to) == []
  {
    assert layout.ShardRegions(cycleSeed)[cursor..] == [];
  }

  /** The block at a position, and what the schedule holds after it. */
  method LookAtBlock(layout: Layout, ghost cycleSeed: nat, ghost region: nat, base: nat, rotation: nat, next: nat,
                     blocks: nat,
                     ghost cursor: nat)
    returns (block: nat)
    requires layout.Valid() && cursor <= layout.RegionsForShard() && next < blocks
    requires InRegion(layout, cycleSeed, region, base, blocks, rotation)
    ensures Rest(layout, cycleSeed, region, next, blocks, cursor)
         == [block] + Rest(layout, cycleSeed, region, next + 1, blocks, cursor)
  {
    hide Layout.RegionBlocks;
    hide Layout.RegionsForShard;
    hide InRegion;
    hide After;
    block := BlockOfRegion(layout, cycleSeed, region, base, rotation, next, blocks);
  }

  lemma WholeRegion(layout: Layout, cycleSeed: nat, region: nat)
    requires layout.Valid()
    ensures |layout.RegionBlocks(cycleSeed, region)| == layout.RegionSize(region)
    ensures layout.RegionBlocks(cycleSeed, region)[0..] == layout.RegionBlocks(cycleSeed, region)
  {
  }

  /** The block at a position of a rotated region. */
  function BlockOfRegion(layout: Layout, ghost cycleSeed: nat, ghost region: nat, base: nat, rotation: nat, next: nat,
                         blocks: nat)
    : (block: nat)
    requires layout.Valid() && InRegion(layout, cycleSeed, region, base, blocks, rotation) && next < blocks
    ensures block < layout.BlockCount()
    ensures next < |layout.RegionBlocks(cycleSeed, region)| == blocks
    ensures block == layout.RegionBlocks(cycleSeed, region)[next]
  {
    CountsFit(layout);
    RegionBounds(layout, region);
    RotationFits(layout, cycleSeed, region);
    RotateStep(rotation, next, blocks);
    if blocks <= 1 then base
    else base + AddModulo(rotation as uint64, next as uint64, blocks as uint64) as nat
  }

  lemma RotationFits(layout: Layout, cycleSeed: nat, region: nat)
    requires layout.Valid() && layout.RegionSize(region) > 0
    ensures layout.Rotation(cycleSeed, region) < layout.RegionSize(region)
  {
  }

  lemma RotateStep(rotation: nat, next: nat, blocks: nat)
    requires rotation < blocks && next < blocks < 0x8000_0000_0000_0000
    ensures (if blocks <= 1 then 0 else AddModulo(rotation as uint64, next as uint64, blocks as uint64) as nat)
         == (rotation + next) % blocks
  {
    AddModuloExact(rotation as uint64, next as uint64, blocks as uint64);
  }

  // ----- lines -----

  lemma VisitFromNext(start: nat, step: nat, n: nat, i: nat)
    requires n > 0
    ensures Visit((start + step) % n, step, n, i) == Visit(start, step, n, i + 1)
  {
    ModMod(start + step, n);
    ModAdd((start + step) % n, start + step, i * step, n);
    assert start + step + i * step == start + (i + 1) * step;
  }

  /** Taking the first position of a walk leaves the walk from the next one. */
  lemma WalkStep(start: nat, step: nat, n: nat, k: nat)
    requires n > 0 && k > 0 && start < n
    ensures Walk(start, step, n, k) == [start] + Walk((start + step) % n, step, n, k - 1)
  {
    var rest := Walk((start + step) % n, step, n, k - 1);
    ModUnique(start, start + 0 * step, n, 0);
    forall i: nat | i < k - 1
      ensures rest[i] == Walk(start, step, n, k)[i + 1]
    {
      VisitFromNext(start, step, n, i);
    }
  }

  /** The branch-free update of a line index is the step of the walk. */
  lemma IndexUpdate(index: nat, step: nat, n: nat)
    requires index < n < 0x8000_0000_0000_0000 && step <= n
    ensures var back := index - (n - step);
      (index + step) % n == back + WhenNegative(back, n)
  {
    hide WhenNegative;
    var back := index - (n - step);
    MaskSelects(back, n);
    ModUnique(if back < 0 then back + n else back, index + step, n, if back < 0 then 0 else 1);
  }

  lemma GatherStep<T>(s: seq<T>, start: nat, step: nat, n: nat, k: nat)
    requires n == |s| && n > 0 && k > 0 && start < n
    ensures Gather(s, Walk(start, step, n, k)) == [s[start]] + Gather(s, Walk((start + step) % n, step, n, k - 1))
  {
    WalkStep(start, step, n, k);
  }

  /** One line is taken from a walk that steps forward by `n - back`. */
  lemma TakeStep<T>(s: seq<T>, index: nat, back: nat, n: nat, k: nat)
    requires n == |s| && index < n < 0x8000_0000_0000_0000 && back <= n && k > 0
    ensures var after := IndexAfter(index, back, n);
      0 <= after < n
      && Gather(s, Walk(index, n - back, n, k)) == [s[index]] + Gather(s, Walk(after, n - back, n, k - 1))
  {
    hide WhenNegative;
    IndexUpdate(index, n - back, n);
    GatherStep(s, index, n - back, n, k);
  }

  function IndexAfter(index: nat, back: nat, n: nat): int {
    index - back + WhenNegative(index - back, n)
  }

  /** The walk from its m-th position on. */
  lemma WalkDrop(start: nat, step: nat, n: nat, k: nat, m: nat)
    requires n > 0 && m <= k
    ensures Walk(start, step, n, k)[m..] == Walk(Visit(start, step, n, m), step, n, k - m)
  {
    forall i: nat | i < k - m
      ensures Visit(start, step, n, m + i) == Visit(Visit(start, step, n, m), step, n, i)
    {
      VisitPlus(start, step, n, m, i);
    }
  }

  lemma VisitPlus(start: nat, step: nat, n: nat, m: nat, i: nat)
    requires n > 0
    ensures Visit(start, step, n, m + i) == (Visit(start, step, n, m) + i * step) % n
  {
    ModMod(start + m * step, n);
    ModAdd(start + m * step, (start + m * step) % n, i * step, n);
    assert start + m * step + i * step == start + (m + i) * step;
  }

  lemma GatherDrop<T>(s: seq<T>, start: nat, step: nat, n: nat, k: nat, m: nat)
    requires n == |s| && n > 0 && m <= k
    ensures Gather(s, Walk(start, step, n, k))[m..] == Gather(s, Walk(Visit(start, step, n, m), step, n, k - m))
  {
    WalkDrop(start, step, n, k, m);
  }

  /** A step of one that stays in range visits consecutive positions. */
  lemma VisitConsecutive(start: nat, n: nat, i: nat)
    requires start + i < n
    ensures Visit(start, 1, n, i) == start + i
  {
    ModUnique(start + i, start + i * 1, n, 0);
  }

  /** Twice the step modulo the count, and the jump two positions ahead. */
  lemma VisitTwoAhead(start: nat, step: nat, n: nat, i: nat, twice: int)
    requires 0 < n < 0x8000_0000_0000_0000 / 2 && step <= n
    requires twice == step + step - n + WhenNegative(step + step - n, n)
    ensures 0 <= twice <= n
    ensures Visit(start, step, n, i + 2) == IndexAfter(Visit(start, step, n, i), n - twice, n)
  {
    hide WhenNegative;
    MaskSelects(step + step - n, n);
    var v := Visit(start, step, n, i);
    VisitPlus(start, step, n, i, 2);
    ModShift(v + twice, v + 2 * step, if step + step - n < 0 then 0 else 1, n);
    IndexUpdate(v, twice, n);
  }

  // ----- cycles -----

  /** Lines move from what is pending to what was handed out; together they stay what they were. */
  lemma HandedOut<T>(history: seq<T>, pending: seq<T>, lines: seq<T>, rest: seq<T>, start: nat)
    requires pending == lines + rest && start <= |history|
    ensures history + lines + rest == history + pending && (history + lines)[..start] == history[..start]
  {
  }

  /** A cycle that handed out nothing had nothing to hand out. */
  lemma CycleSpent(layout: Layout, cycle: nat, history: seq<seq<byte>>, start: nat)
    requires layout.Valid() && start <= |history|
    requires history == layout.Stream(cycle + 1) && history[..start] == layout.Stream(cycle)
    ensures layout.reuse && start == |history| ==> layout.file == []
  {
    hide Layout.CycleLines;
    hide Layout.Stream;
    StreamStep(layout, cycle);
    if layout.reuse && layout.file != [] {
      CycleNotEmpty(layout, cycle);
    }
  }

  /** A pool that may start another cycle has lines to hand out in every one. */
  lemma CycleNotEmpty(layout: Layout, cycle: nat)
    requires layout.Valid() && layout.shardCount == 1 && |layout.file| > 0
    ensures layout.CycleLines(cycle) != []
  {
    ShardsCoverFile(layout, cycle);
    var f := LinesOfShard(layout, cycle);
    assert Iota(0, 1) == [0];
    assert Flat(f, [0]) == f(0) + Flat(f, [0][1..]) == f(0);
    assert Shard(layout, 0) == layout;
    assert Lines(layout.file) != [];
    assert |multiset(Lines(layout.file))| > 0;
  }
}
