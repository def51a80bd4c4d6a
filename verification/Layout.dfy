/**
 The schedule of a pool as a value: which blocks a shard reads in a cycle, in which order it
 hands out the lines of each block, and the proof that the shards together hand out every line.
 */
module Layouts {
  import opened Modular
  import opened Sequences
  import opened Text

  datatype Mode = Sequential | Shuffled

  function CeilingQuotient(value: nat, divisor: nat): (q: nat)
    requires divisor > 0
  {
    if value == 0 then 0 else (value - 1) / divisor + 1
  }

  function ShardItemCount(total: nat, shards: nat, shard: nat): nat
    requires shards > 0
  {
    if shard >= total then 0 else (total - 1 - shard) / shards + 1
  }

  /** Everything `Open` fixes: the source file and the effective options. */
  datatype Layout = Layout(
    file: seq<byte>,
    mode: Mode,
    blockBytes: nat,
    blocksPerRegion: nat,
    regionsPerCheck: nat,
    maxLineBytes: nat,
    shardCount: nat,
    shardIndex: nat,
    reuse: bool,
    seed: nat,
    mix: Mixer)
  {
    /** What `Open` guarantees of the options it accepts. */
    ghost predicate Valid() {
      && blockBytes >= 1 && blocksPerRegion >= 1 && regionsPerCheck >= 1 && maxLineBytes >= 1
      && shardIndex < shardCount
      && (mode.Sequential? ==> shardCount == 1)
      && (reuse ==> shardCount == 1)
      && blockBytes + maxLineBytes + 3 < 0x1_0000_0000
      && |file| < 0x8000_0000_0000_0000
      && shardCount < 0x8000_0000_0000_0000
    }

    function BlockCount(): nat
      requires blockBytes >= 1
    {
      CeilingQuotient(|file|, blockBytes)
    }

    function RegionCount(): nat
      requires blockBytes >= 1 && blocksPerRegion >= 1
    {
      CeilingQuotient(BlockCount(), blocksPerRegion)
    }

    function RegionsForShard(): nat
      requires blockBytes >= 1 && blocksPerRegion >= 1 && shardCount >= 1
    {
      ShardItemCount(RegionCount(), shardCount, shardIndex)
    }

    // ----- blocks -----

    ghost function Start(block: nat): nat {
      block * blockBytes
    }

    ghost function End(block: nat): nat {
      Min((block + 1) * blockBytes, |file|)
    }

    /** The lines that start in a block, in file order. */
    ghost function BlockLines(block: nat): seq<seq<byte>> {
      if Start(block) > |file| then [] else LinesIn(file, Start(block), End(block))
    }

    ghost function LineStep(n: nat, cycleSeed: nat, block: nat): nat {
      if mode.Sequential? then 1 else PermutationStep(n, mix(cycleSeed, block), mix)
    }

    ghost function LineStart(n: nat, cycleSeed: nat, block: nat): nat {
      if mode.Sequential? then 0 else PermutationStart(n, mix(cycleSeed, block), mix)
    }

    /** The lines of a block in the order in which the pool hands them out. */
    ghost function BlockOrder(cycleSeed: nat, block: nat): seq<seq<byte>> {
      var lines := BlockLines(block);
      Gather(lines, Walk(LineStart(|lines|, cycleSeed, block), LineStep(|lines|, cycleSeed, block), |lines|, |lines|))
    }

    ghost function Deliver(cycleSeed: nat): nat -> seq<seq<byte>> {
      (block: nat) => BlockOrder(cycleSeed, block)
    }

    // ----- regions -----

    ghost function RegionBase(region: nat): nat {
      region * blocksPerRegion
    }

    ghost function RegionSize(region: nat): nat
      requires blockBytes >= 1
    {
      if RegionBase(region) >= BlockCount() then 0 else Min(blocksPerRegion, BlockCount() - RegionBase(region))
    }

    ghost function Rotation(cycleSeed: nat, region: nat): nat
      requires blockBytes >= 1
    {
      var n := RegionSize(region);
      if mode.Sequential? || n == 0 then 0 else mix(cycleSeed, region) % n
    }

    /** The blocks of a region, rotated. */
    ghost function RegionBlocks(cycleSeed: nat, region: nat): seq<nat>
      requires blockBytes >= 1
    {
      var n := RegionSize(region);
      seq(n, i requires 0 <= i < n => RegionBase(region) + (Rotation(cycleSeed, region) + i) % n)
    }

    ghost function Expand(cycleSeed: nat): nat -> seq<nat>
      requires blockBytes >= 1
    {
      (region: nat) => RegionBlocks(cycleSeed, region)
    }

    // ----- shards -----

    function CycleSeed(cycle: nat): nat {
      mix((seed + cycle * MIX_INCREMENT) % 0x1_0000_0000_0000_0000, 0)
    }

    ghost function RegionStep(cycleSeed: nat): nat
      requires blockBytes >= 1 && blocksPerRegion >= 1
    {
      if mode.Sequential? then 1 else PermutationStep(RegionCount(), cycleSeed, mix)
    }

    ghost function RegionStart(cycleSeed: nat): nat
      requires blockBytes >= 1 && blocksPerRegion >= 1
    {
      if mode.Sequential? then 0 else PermutationStart(RegionCount(), cycleSeed, mix)
    }

    /** The k-th region of this shard: every `shardCount`-th region of the walk over all regions. */
    ghost function ShardRegion(cycleSeed: nat, k: nat): nat
      requires Valid() && RegionCount() > 0
    {
      Visit(RegionStart(cycleSeed), RegionStep(cycleSeed), RegionCount(), shardIndex + k * shardCount)
    }

    ghost function ShardRegions(cycleSeed: nat): seq<nat>
      requires Valid()
    {
      seq(RegionsForShard(), k requires 0 <= k < RegionsForShard() => ShardRegion(cycleSeed, k))
    }

    /** The blocks this shard reads in a cycle, in order. */
    ghost function ShardBlocks(cycleSeed: nat): seq<nat>
      requires Valid()
    {
      Flat<nat>(Expand(cycleSeed), ShardRegions(cycleSeed))
    }

    /** The lines this shard hands out in a cycle, in order. */
    ghost function CycleLines(cycle: nat): seq<seq<byte>>
      requires Valid()
    {
      Flat(Deliver(CycleSeed(cycle)), ShardBlocks(CycleSeed(cycle)))
    }

    ghost function Cycles(): nat -> seq<seq<byte>>
      requires Valid()
    {
      (cycle: nat) => CycleLines(cycle)
    }

    /** The lines of the first `cycles` cycles, one cycle after the other. */
    ghost function Stream(cycles: nat): seq<seq<byte>>
      requires Valid()
    {
      Flat(Cycles(), Iota(0, cycles))
    }
  }

  /** The first `k` positions of a stride walk over `[0, n)`. */
  ghost function Walk(start: nat, step: nat, n: nat, k: nat): (w: seq<nat>)
    requires k == 0 || n > 0
    ensures |w| == k && forall i :: 0 <= i < k ==> w[i] < n
  {
    seq(k, i requires 0 <= i < k => Visit(start, step, n, i))
  }

  // ----- one block, one region -----

  lemma WalkDistinct(start: nat, step: nat, n: nat)
    requires n <= 1 || Gcd(step, n) == 1
    ensures var w := Walk(start, step, n, n); forall i, j :: 0 <= i < j < n ==> w[i] != w[j]
  {
    forall i: nat, j: nat | i < j < n
      ensures Visit(start, step, n, i) != Visit(start, step, n, j)
    {
      VisitInjective(start, step, n, i, j);
    }
  }

  /** Shuffling a block neither loses nor repeats a line. */
  lemma BlockOrderPermutes(layout: Layout, cycleSeed: nat, block: nat)
    ensures multiset(layout.BlockOrder(cycleSeed, block)) == multiset(layout.BlockLines(block))
  {
    var lines := layout.BlockLines(block);
    var n := |lines|;
    var step := layout.LineStep(n, cycleSeed, block);
    if n > 1 {
      GcdOfOne(n);
    }
    WalkDistinct(layout.LineStart(n, cycleSeed, block), step, n);
    GatherPermutation(lines, Walk(layout.LineStart(n, cycleSeed, block), step, n, n));
  }

  /** A rotation visits every block of its region once. */
  lemma RegionBlocksPermute(layout: Layout, cycleSeed: nat, region: nat)
    requires layout.Valid()
    ensures var base, n := layout.RegionBase(region), layout.RegionSize(region);
      multiset(layout.RegionBlocks(cycleSeed, region)) == multiset(Iota(base, base + n))
  {
    var base, n := layout.RegionBase(region), layout.RegionSize(region);
    var blocks := layout.RegionBlocks(cycleSeed, region);
    forall i: nat, j: nat | i < j < n
      ensures blocks[i] != blocks[j]
    {
      var r := layout.Rotation(cycleSeed, region);
      if n > 1 {
        GcdOfOne(n);
      }
      VisitInjective(r, 1, n, i, j);
      assert r + i * 1 == r + i && r + j * 1 == r + j;
    }
    RearrangesIota(blocks, base, base + n);
  }

  // ----- all regions -----

  lemma CeilingCovers(value: nat, divisor: nat)
    requires divisor > 0
    ensures var q := CeilingQuotient(value, divisor);
      q * divisor >= value && (q > 0 ==> (q - 1) * divisor < value)
  {
    if value > 0 {
      var q := (value - 1) / divisor;
      assert value - 1 == q * divisor + (value - 1) % divisor;
      assert (q + 1) * divisor == q * divisor + divisor;
    }
  }

  ghost function Spread(layout: Layout): nat -> seq<nat>
    requires layout.Valid()
  {
    (region: nat) => Iota(layout.RegionBase(region), layout.RegionBase(region) + layout.RegionSize(region))
  }

  /** The regions cut the blocks into consecutive intervals. */
  lemma {:induction false} SpreadCovers(layout: Layout, n: nat)
    requires layout.Valid() && n <= layout.RegionCount()
    ensures Flat<nat>(Spread(layout), Iota(0, n)) == Iota(0, Min(n * layout.blocksPerRegion, layout.BlockCount()))
  {
    if n > 0 {
      SpreadCovers(layout, n - 1);
      RegionJoins(layout, n - 1);
      hide Layout.RegionBase;
      hide Layout.RegionSize;
      FlatIotaStep(Spread(layout), n);
    } else {
      assert Iota(0, 0) == [];
    }
  }

  /** A region begins where the regions before it end. */
  lemma RegionJoins(layout: Layout, region: nat)
    requires layout.Valid() && region < layout.RegionCount()
    ensures Iota(0, Min(region * layout.blocksPerRegion, layout.BlockCount())) + Spread(layout)(region)
         == Iota(0, Min((region + 1) * layout.blocksPerRegion, layout.BlockCount()))
  {
    var base, next, all := region * layout.blocksPerRegion, (region + 1) * layout.blocksPerRegion, layout.BlockCount();
    assert next == base + layout.blocksPerRegion;
    CeilingCovers(all, layout.blocksPerRegion);
    MulMonotone(region, layout.RegionCount() - 1, layout.blocksPerRegion);
    IotaJoins(0, base, Min(next, all));
  }

  lemma IotaJoins(lo: nat, mid: nat, hi: nat)
    requires lo <= mid <= hi
    ensures Iota(lo, mid) + Iota(mid, hi) == Iota(lo, hi)
  {
  }

  lemma MulMonotone(a: nat, b: nat, c: nat)
    requires a <= b
    ensures a * c <= b * c
  {
  }

  // ----- all shards -----

  /** The positions of the region walk that belong to a shard. */
  ghost function Picks(total: nat, shards: nat): nat -> seq<nat>
    requires shards > 0
  {
    (shard: nat) => seq(ShardItemCount(total, shards, shard),
                        k requires 0 <= k < ShardItemCount(total, shards, shard) => shard + k * shards)
  }

  lemma PicksAre(total: nat, shards: nat, shard: nat, x: nat)
    requires shard < shards
    ensures multiset(Picks(total, shards)(shard))[x] == if x < total && x % shards == shard then 1 else 0
  {
    var picks := Picks(total, shards)(shard);
    forall i: nat, j: nat | i < j < |picks|
      ensures picks[i] != picks[j]
    {
      MulAtLeast(j - i, shards);
      assert picks[j] - picks[i] == (j - i) * shards;
    }
    DistinctMultiplicity(picks, x);
    PickMember(total, shards, shard, x);
  }

  lemma PickMember(total: nat, shards: nat, shard: nat, x: nat)
    requires shard < shards
    ensures x in Picks(total, shards)(shard) <==> x < total && x % shards == shard
  {
    var picks := Picks(total, shards)(shard);
    if x in picks {
      var k: nat :| k < |picks| && picks[k] == x;
      PickAt(total, shards, shard, k);
    }
    if x < total && x % shards == shard {
      var k := x / shards;
      assert x == shard + k * shards;
      LastPick(total, shards, shard, k);
      assert picks[k] == shard + k * shards;
    }
  }

  lemma PickAt(total: nat, shards: nat, shard: nat, k: nat)
    requires shard < shards && k < ShardItemCount(total, shards, shard)
    ensures shard + k * shards < total && (shard + k * shards) % shards == shard
  {
    ModUnique(shard, shard + k * shards, shards, k);
    LastPick(total, shards, shard, k);
  }

  lemma LastPick(total: nat, shards: nat, shard: nat, k: nat)
    requires shard < shards
    ensures k < ShardItemCount(total, shards, shard) <==> shard + k * shards < total
  {
    if shard < total {
      var d := total - 1 - shard;
      var q := d / shards;
      assert d == q * shards + d % shards;
      if k <= q {
        MulMonotone(k, q, shards);
      } else {
        MulMonotone(q + 1, k, shards);
        assert (q + 1) * shards == q * shards + shards;
      }
    }
  }

  lemma {:induction false} PicksCount(total: nat, shards: nat, lo: nat, x: nat)
    requires lo <= shards && shards > 0
    ensures multiset(Flat<nat>(Picks(total, shards), Iota(lo, shards)))[x] == if x < total && lo <= x % shards
      then 1 else 0
    decreases shards - lo
  {
    if lo < shards {
      PicksCount(total, shards, lo + 1, x);
      PicksAre(total, shards, lo, x);
      assert Iota(lo, shards) == [lo] + Iota(lo + 1, shards);
    } else {
      assert Iota(lo, shards) == [];
    }
  }

  /** The shards' positions partition the positions of the walk. */
  lemma PicksPartition(total: nat, shards: nat)
    requires shards > 0
    ensures multiset(Flat<nat>(Picks(total, shards), Iota(0, shards))) == multiset(Iota(0, total))
  {
    var all: seq<nat> := Flat<nat>(Picks(total, shards), Iota(0, shards));
    var iota: seq<nat> := Iota(0, total);
    forall x: nat
      ensures multiset(all)[x] == multiset(iota)[x]
    {
      PicksCount(total, shards, 0, x);
      DistinctMultiplicity(iota, x);
      assert 0 <= x % shards;
      if x < total {
        assert iota[x] == x;
      } else {
        assert x !in iota;
      }
    }
  }

  ghost function Shard(layout: Layout, shard: nat): Layout {
    layout.(shardIndex := shard)
  }

  ghost function RegionsOfShard(layout: Layout, cycleSeed: nat): nat -> seq<nat>
    requires layout.Valid()
  {
    (shard: nat) => if shard < layout.shardCount then Shard(layout, shard).ShardRegions(cycleSeed) else []
  }

  ghost function VisitRegion(layout: Layout, cycleSeed: nat): nat -> seq<nat>
    requires layout.Valid()
  {
    (i: nat) => if layout.RegionCount() == 0 then []
                else [Visit(layout.RegionStart(cycleSeed), layout.RegionStep(cycleSeed), layout.RegionCount(), i)]
  }

  lemma {:induction false} FlatFlat<T>(f: nat -> seq<T>, g: nat -> seq<nat>, h: nat -> seq<T>, keys: seq<nat>)
    requires forall k :: k in keys ==> h(k) == Flat(f, g(k))
    ensures Flat(f, Flat<nat>(g, keys)) == Flat(h, keys)
  {
    if keys != [] {
      assert keys[0] in keys;
      FlatFlat(f, g, h, keys[1..]);
      FlatConcat(f, g(keys[0]), Flat<nat>(g, keys[1..]));
    }
  }

  lemma {:induction false} FlatOfSingletons(f: nat -> seq<nat>, g: nat -> nat, keys: seq<nat>)
    requires forall k :: k in keys ==> f(k) == [g(k)]
    ensures |Flat<nat>(f, keys)| == |keys|
    ensures forall i :: 0 <= i < |keys| ==> Flat<nat>(f, keys)[i] == g(keys[i])
  {
    if keys != [] {
      assert keys[0] in keys;
      FlatOfSingletons(f, g, keys[1..]);
    }
  }

  lemma ShardRegionsAreVisits(layout: Layout, cycleSeed: nat, shard: nat)
    requires layout.Valid() && shard < layout.shardCount
    ensures Shard(layout, shard).ShardRegions(cycleSeed)
         == Flat<nat>(VisitRegion(layout, cycleSeed), Picks(layout.RegionCount(), layout.shardCount)(shard))
  {
    var picks := Picks(layout.RegionCount(), layout.shardCount)(shard);
    if layout.RegionCount() > 0 {
      var g := (i: nat) => Visit(layout.RegionStart(cycleSeed), layout.RegionStep(cycleSeed), layout.RegionCount(), i);
      FlatOfSingletons(VisitRegion(layout, cycleSeed), g, picks);
    }
  }

  /** The shards' region sequences partition the regions. */
  lemma ShardsPartitionRegions(layout: Layout, cycleSeed: nat)
    requires layout.Valid()
    ensures multiset(Flat<nat>(RegionsOfShard(layout, cycleSeed), Iota(0, layout.shardCount)))
         == multiset(Iota(0, layout.RegionCount()))
  {
    var total, shards := layout.RegionCount(), layout.shardCount;
    var visit, picks := VisitRegion(layout, cycleSeed), Picks(total, shards);
    forall shard | shard in Iota(0, shards)
      ensures RegionsOfShard(layout, cycleSeed)(shard) == Flat<nat>(visit, picks(shard))
    {
      ShardRegionsAreVisits(layout, cycleSeed, shard);
    }
    FlatFlat<nat>(visit, picks, RegionsOfShard(layout, cycleSeed), Iota(0, shards));
    PicksPartition(total, shards);
    FlatPermutation(visit, Flat<nat>(picks, Iota(0, shards)), Iota(0, total));
    VisitsPermute(layout, cycleSeed);
  }

  lemma VisitsPermute(layout: Layout, cycleSeed: nat)
    requires layout.Valid()
    ensures var total := layout.RegionCount();
      multiset(Flat<nat>(VisitRegion(layout, cycleSeed), Iota(0, total))) == multiset(Iota(0, total))
  {
    var total := layout.RegionCount();
    if total > 0 {
      var start, step := layout.RegionStart(cycleSeed), layout.RegionStep(cycleSeed);
      if total > 1 {
        GcdOfOne(total);
      }
      WalkDistinct(start, step, total);
      var g := (i: nat) => Visit(start, step, total, i);
      FlatOfSingletons(VisitRegion(layout, cycleSeed), g, Iota(0, total));
      var visits := Flat<nat>(VisitRegion(layout, cycleSeed), Iota(0, total));
      assert visits == Walk(start, step, total, total);
      RearrangesIota(visits, 0, total);
    }
  }

  // ----- the theorem -----

  ghost function LinesOfBlock(layout: Layout): nat -> seq<seq<byte>> {
    (block: nat) => layout.BlockLines(block)
  }

  ghost function Boundary(layout: Layout, n: nat): (p: nat)
    ensures p <= |layout.file|
  {
    Min(n * layout.blockBytes, |layout.file|)
  }

  lemma BlockBounds(layout: Layout, block: nat)
    requires layout.Valid() && block < layout.BlockCount()
    ensures layout.Start(block) == Boundary(layout, block) < |layout.file|
    ensures layout.End(block) == Boundary(layout, block + 1) > layout.Start(block)
  {
    CeilingCovers(|layout.file|, layout.blockBytes);
    MulMonotone(block, layout.BlockCount() - 1, layout.blockBytes);
    assert (block + 1) * layout.blockBytes == block * layout.blockBytes + layout.blockBytes;
  }

  /** The blocks in physical order yield the file's lines in order. */
  lemma {:induction false} BlocksYieldLines(layout: Layout, n: nat)
    requires layout.Valid() && n <= layout.BlockCount()
    ensures Flat(LinesOfBlock(layout), Iota(0, n)) == LinesIn(layout.file, 0, Boundary(layout, n))
  {
    if n > 0 {
      BlocksYieldLines(layout, n - 1);
      BlockBounds(layout, n - 1);
      FlatIotaStep(LinesOfBlock(layout), n);
      LinesInConcat(layout.file, 0, Boundary(layout, n - 1), Boundary(layout, n));
    } else {
      assert Iota(0, 0) == [];
    }
  }

  lemma FlatIotaStep<T>(f: nat -> seq<T>, n: nat)
    requires n > 0
    ensures Flat(f, Iota(0, n)) == Flat(f, Iota(0, n - 1)) + f(n - 1)
  {
    assert Iota(0, n) == Iota(0, n - 1) + [n - 1];
    FlatConcat(f, Iota(0, n - 1), [n - 1]);
    assert Flat(f, [n - 1]) == f(n - 1) + Flat(f, [n - 1][1..]) == f(n - 1);
  }

  lemma StreamStep(layout: Layout, cycle: nat)
    requires layout.Valid()
    ensures layout.Stream(cycle + 1) == layout.Stream(cycle) + layout.CycleLines(cycle)
    ensures layout.Stream(0) == [] && layout.Stream(1) == layout.CycleLines(0)
  {
    hide Layout.CycleLines;
    FlatIotaStep(layout.Cycles(), cycle + 1);
    FlatIotaStep(layout.Cycles(), 1);
    assert Iota(0, 0) == [];
  }

  lemma {:induction false} StreamGrows(layout: Layout, n: nat, m: nat)
    requires layout.Valid() && n <= m
    ensures layout.Stream(n) <= layout.Stream(m)
  {
    hide Layout.Stream;
    hide Layout.CycleLines;
    if n < m {
      StreamGrows(layout, n, m - 1);
      StreamStep(layout, m - 1);
    }
  }

  lemma AllBlocksYieldLines(layout: Layout)
    requires layout.Valid()
    ensures Flat(LinesOfBlock(layout), Iota(0, layout.BlockCount())) == Lines(layout.file)
  {
    BlocksYieldLines(layout, layout.BlockCount());
    CeilingCovers(|layout.file|, layout.blockBytes);
  }

  lemma RegionsYieldBlocks(layout: Layout, cycleSeed: nat, regions: seq<nat>)
    requires layout.Valid()
    requires multiset(regions) == multiset(Iota(0, layout.RegionCount()))
    ensures multiset(Flat<nat>(layout.Expand(cycleSeed), regions)) == multiset(Iota(0, layout.BlockCount()))
  {
    var all := Iota(0, layout.RegionCount());
    FlatPermutation(layout.Expand(cycleSeed), regions, all);
    ExpandPermutes(layout, cycleSeed, all);
    SpreadCovers(layout, layout.RegionCount());
    CeilingCovers(layout.BlockCount(), layout.blocksPerRegion);
  }

  lemma ExpandPermutes(layout: Layout, cycleSeed: nat, regions: seq<nat>)
    requires layout.Valid()
    ensures multiset(Flat<nat>(layout.Expand(cycleSeed), regions)) == multiset(Flat<nat>(Spread(layout), regions))
  {
    forall region | region in regions
      ensures multiset(layout.Expand(cycleSeed)(region)) == multiset(Spread(layout)(region))
    {
      RegionBlocksPermute(layout, cycleSeed, region);
    }
    FlatPointwise(layout.Expand(cycleSeed), Spread(layout), regions);
  }

  lemma BlocksYieldAllLines(layout: Layout, cycleSeed: nat, blocks: seq<nat>)
    requires layout.Valid()
    requires multiset(blocks) == multiset(Iota(0, layout.BlockCount()))
    ensures multiset(Flat(layout.Deliver(cycleSeed), blocks)) == multiset(Lines(layout.file))
  {
    var all := Iota(0, layout.BlockCount());
    FlatPermutation(layout.Deliver(cycleSeed), blocks, all);
    forall block | block in all
      ensures multiset(layout.Deliver(cycleSeed)(block)) == multiset(LinesOfBlock(layout)(block))
    {
      BlockOrderPermutes(layout, cycleSeed, block);
    }
    FlatPointwise(layout.Deliver(cycleSeed), LinesOfBlock(layout), all);
    AllBlocksYieldLines(layout);
  }

  ghost function LinesOfShard(layout: Layout, cycle: nat): nat -> seq<seq<byte>>
    requires layout.Valid()
  {
    (shard: nat) => if shard < layout.shardCount then Shard(layout, shard).CycleLines(cycle) else []
  }

  /** In every cycle the shards together hand out every line of the file exactly once. */
  lemma ShardsCoverFile(layout: Layout, cycle: nat)
    requires layout.Valid()
    ensures multiset(Flat(LinesOfShard(layout, cycle), Iota(0, layout.shardCount))) == multiset(Lines(layout.file))
  {
    var cs, shards := layout.CycleSeed(cycle), Iota(0, layout.shardCount);
    var regions, expand, deliver := RegionsOfShard(layout, cs), layout.Expand(cs), layout.Deliver(cs);
    var blocksOf: nat -> seq<nat> := (shard: nat) => Flat<nat>(expand, regions(shard));
    forall shard | shard in shards
      ensures LinesOfShard(layout, cycle)(shard) == Flat(deliver, blocksOf(shard))
    {
      ShardSchedule(layout, cycle, shard);
    }
    FlatFlat<nat>(expand, regions, blocksOf, shards);
    FlatFlat(deliver, blocksOf, LinesOfShard(layout, cycle), shards);
    ShardsPartitionRegions(layout, cs);
    RegionsYieldBlocks(layout, cs, Flat<nat>(regions, shards));
    BlocksYieldAllLines(layout, cs, Flat<nat>(expand, Flat<nat>(regions, shards)));
  }

  /** Two pools that may differ in their shard and in their line limit. */
  ghost predicate Alike(layout: Layout, other: Layout) {
    other == layout.(shardIndex := other.shardIndex, maxLineBytes := other.maxLineBytes)
  }

  lemma CycleIs(layout: Layout, cycle: nat)
    requires layout.Valid()
    ensures var cs := layout.CycleSeed(cycle);
      layout.CycleLines(cycle) == Flat(layout.Deliver(cs), Flat<nat>(layout.Expand(cs), layout.ShardRegions(cs)))
  {
    hide Flat;
    hide Layout.Deliver;
    hide Layout.Expand;
    hide Layout.ShardRegions;
  }

  /** The line limit decides nothing about which lines are handed out, or in which order. */
  lemma LimitIrrelevant(layout: Layout, other: Layout, cycle: nat)
    requires layout.Valid() && other.Valid() && Alike(layout, other) && layout.shardIndex == other.shardIndex
    ensures other.CycleLines(cycle) == layout.CycleLines(cycle)
  {
    hide Flat;
    hide Layout.CycleLines;
    hide Layout.Deliver;
    hide Layout.Expand;
    hide Layout.ShardRegions;
    var cs := layout.CycleSeed(cycle);
    CycleIs(layout, cycle);
    CycleIs(other, cycle);
    SameRegions(layout, other, cs);
    SameSchedule(layout, other, cs, layout.ShardRegions(cs));
  }

  lemma SameRegions(layout: Layout, other: Layout, cs: nat)
    requires layout.Valid() && other.Valid() && Alike(layout, other) && layout.shardIndex == other.shardIndex
    ensures other.ShardRegions(cs) == layout.ShardRegions(cs)
  {
    hide PermutationStep;
    hide PermutationStart;
    hide Visit;
    if layout.RegionCount() > 0 {
      forall k: nat
        ensures other.ShardRegion(cs, k) == layout.ShardRegion(cs, k)
      {
        assert other.RegionStep(cs) == layout.RegionStep(cs);
      }
    }
  }

  lemma SameStream(layout: Layout, other: Layout, cycles: nat)
    requires layout.Valid() && other.Valid() && Alike(layout, other) && layout.shardIndex == other.shardIndex
    ensures other.Stream(cycles) == layout.Stream(cycles)
  {
    hide Layout.CycleLines;
    forall cycle: nat
      ensures other.Cycles()(cycle) == layout.Cycles()(cycle)
    {
      LimitIrrelevant(layout, other, cycle);
    }
    FlatEqual(other.Cycles(), layout.Cycles(), Iota(0, cycles));
  }

  /** Only the choice of regions depends on the shard. */
  lemma ShardSchedule(layout: Layout, cycle: nat, shard: nat)
    requires layout.Valid() && shard < layout.shardCount
    ensures var cs := layout.CycleSeed(cycle);
      Shard(layout, shard).CycleLines(cycle)
      == Flat(layout.Deliver(cs), Flat<nat>(layout.Expand(cs), Shard(layout, shard).ShardRegions(cs)))
  {
    hide Flat;
    hide Layout.CycleLines;
    hide Layout.Deliver;
    hide Layout.Expand;
    hide Layout.ShardRegions;
    var cs, other := layout.CycleSeed(cycle), Shard(layout, shard);
    CycleIs(other, cycle);
    SameSchedule(layout, other, cs, other.ShardRegions(cs));
  }

  lemma SameSchedule(layout: Layout, other: Layout, cs: nat, regions: seq<nat>)
    requires layout.Valid() && Alike(layout, other)
    ensures Flat(other.Deliver(cs), Flat<nat>(other.Expand(cs), regions))
         == Flat(layout.Deliver(cs), Flat<nat>(layout.Expand(cs), regions))
  {
    SameExpand(layout, other, cs, regions);
    SameDeliver(layout, other, cs, Flat<nat>(layout.Expand(cs), regions));
  }

  lemma SameExpand(layout: Layout, other: Layout, cs: nat, regions: seq<nat>)
    requires layout.Valid() && Alike(layout, other)
    ensures Flat<nat>(other.Expand(cs), regions) == Flat<nat>(layout.Expand(cs), regions)
  {
    forall region: nat
      ensures other.Expand(cs)(region) == layout.Expand(cs)(region)
    {
      assert other.RegionSize(region) == layout.RegionSize(region);
      assert other.Rotation(cs, region) == layout.Rotation(cs, region);
    }
    FlatEqual(other.Expand(cs), layout.Expand(cs), regions);
  }

  lemma SameDeliver(layout: Layout, other: Layout, cs: nat, blocks: seq<nat>)
    requires Alike(layout, other)
    ensures Flat(other.Deliver(cs), blocks) == Flat(layout.Deliver(cs), blocks)
  {
    forall block: nat
      ensures other.Deliver(cs)(block) == layout.Deliver(cs)(block)
    {
      assert other.BlockLines(block) == layout.BlockLines(block);
    }
    FlatEqual(other.Deliver(cs), layout.Deliver(cs), blocks);
  }

  /** A shard reads no block twice in a cycle. */
  lemma ShardBlocksDistinct(layout: Layout, cycleSeed: nat)
    requires layout.Valid()
    ensures Distinct(layout.ShardBlocks(cycleSeed))
    ensures multiset(layout.ShardBlocks(cycleSeed)) <= multiset(Iota(0, layout.BlockCount()))
  {
    var shards, regions, expand := Iota(0, layout.shardCount), RegionsOfShard(layout, cycleSeed),
      layout.Expand(cycleSeed);
    var all := Flat<nat>(regions, shards);
    ShardsPartitionRegions(layout, cycleSeed);
    RegionsYieldBlocks(layout, cycleSeed, all);
    var blocksOf: nat -> seq<nat> := (shard: nat) => Flat<nat>(expand, regions(shard));
    FlatFlat<nat>(expand, regions, blocksOf, shards);
    FlatPart(blocksOf, shards, layout.shardIndex);
    assert Shard(layout, layout.shardIndex) == layout;
    PartDistinct(layout.ShardBlocks(cycleSeed), 0, layout.BlockCount());
  }

  /** A sequential pool hands out the file's lines in file order. */
  lemma SequentialInOrder(layout: Layout, cycle: nat)
    requires layout.Valid() && layout.mode.Sequential?
    ensures layout.CycleLines(cycle) == Lines(layout.file)
  {
    var cs := layout.CycleSeed(cycle);
    SequentialRegions(layout, cs);
    SequentialBlocks(layout, cs, Iota(0, layout.RegionCount()));
    SpreadCovers(layout, layout.RegionCount());
    CeilingCovers(layout.BlockCount(), layout.blocksPerRegion);
    SequentialLines(layout, cs, Iota(0, layout.BlockCount()));
    AllBlocksYieldLines(layout);
  }

  lemma SequentialRegions(layout: Layout, cs: nat)
    requires layout.Valid() && layout.mode.Sequential?
    ensures layout.ShardRegions(cs) == Iota(0, layout.RegionCount())
  {
    var n := layout.RegionCount();
    assert layout.RegionsForShard() == n by {
      CeilingCovers(n, 1);
    }
    forall k: nat | k < n
      ensures layout.ShardRegion(cs, k) == k
    {
      ModUnique(k, k, n, 0);
    }
  }

  lemma SequentialRegion(layout: Layout, cs: nat, region: nat)
    requires layout.Valid() && layout.mode.Sequential?
    ensures var base, n := layout.RegionBase(region), layout.RegionSize(region);
      layout.RegionBlocks(cs, region) == Iota(base, base + n)
  {
    var blocks, n := layout.RegionBlocks(cs, region), layout.RegionSize(region);
    forall i: nat | i < n
      ensures blocks[i] == layout.RegionBase(region) + i
    {
      ModUnique(i, 0 + i, n, 0);
      assert layout.Rotation(cs, region) == 0;
    }
  }

  lemma SequentialBlocks(layout: Layout, cs: nat, regions: seq<nat>)
    requires layout.Valid() && layout.mode.Sequential?
    ensures Flat<nat>(layout.Expand(cs), regions) == Flat<nat>(Spread(layout), regions)
  {
    forall region | region in regions
      ensures layout.Expand(cs)(region) == Spread(layout)(region)
    {
      SequentialRegion(layout, cs, region);
    }
    FlatEqual(layout.Expand(cs), Spread(layout), regions);
  }

  lemma SequentialLines(layout: Layout, cs: nat, blocks: seq<nat>)
    requires layout.mode.Sequential?
    ensures Flat(layout.Deliver(cs), blocks) == Flat(LinesOfBlock(layout), blocks)
  {
    forall block | block in blocks
      ensures layout.Deliver(cs)(block) == LinesOfBlock(layout)(block)
    {
      var lines := layout.BlockLines(block);
      forall i: nat | i < |lines|
        ensures Visit(0, 1, |lines|, i) == i
      {
        ModUnique(i, i, |lines|, 0);
      }
    }
    FlatEqual(layout.Deliver(cs), LinesOfBlock(layout), blocks);
  }
}
