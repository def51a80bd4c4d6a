/** How `Open` turns options into a layout, with its defaults, limits and refusals. */
module Opening {
  import opened Layouts
  import opened Modular
  import opened Text

  const DEFAULT_SEQUENTIAL_BUFFER_BYTES: int := 0x10_0000
  const DEFAULT_BLOCK_BYTES: int := 0x40_0000
  const DEFAULT_REGION_BYTES: int := 0x4000_0000
  const DEFAULT_MAX_LINE_BYTES: int := 0x1_0000
  const PAGE_BYTES: int := 0x1000
  const ALIGNED_BYTES: int := 0x1_0000
  const MAX_INT64: int := 0x7fff_ffff_ffff_ffff

  datatype Options = Options(
    sequentialBufferBytes: int,
    blockBytes: int,
    regionBytes: int,
    maxLineBytes: int,
    seed: nat,
    shardCount: int,
    shardIndex: int,
    mode: nat,
    reuse: bool)

  datatype OpenError =
    | InvalidMode
    | ShardOutside
    | SequentialShards
    | ReuseShards
    | LineOverflow
    | SizesOverflow
    | OffsetsOverflow
    | BufferOverflow
    | RegionTooSmall
    | RegionOverflow

  datatype Result<T> = Ok(value: T) | Refused(error: OpenError)

  /** The largest native integer: 32 or 64 bits wide. */
  predicate Native(maxInt: int) {
    maxInt == 0x7fff_ffff || maxInt == MAX_INT64
  }

  predicate Representable(options: Options, maxInt: int) {
    && Native(maxInt)
    && options.sequentialBufferBytes <= maxInt && options.blockBytes <= maxInt && options.maxLineBytes <= maxInt
    && options.shardCount <= maxInt && options.regionBytes <= MAX_INT64
  }

  function PositiveOrDefault(value: int, default: int): (r: int)
    requires default > 0
    ensures r > 0
  {
    if value < 1 then default else value
  }

  function BufferBytes(capacity: int): int {
    if capacity < ALIGNED_BYTES then capacity else capacity + PAGE_BYTES - 1
  }

  function EffectiveSeed(options: Options, random: nat): (seed: nat)
    ensures options.mode != 0 ==> seed != 0
  {
    if options.mode == 0 then 0
    else if options.seed != 0 then options.seed
    else if random != 0 then random
    else MIX_INCREMENT
  }

  function EffectiveBlock(options: Options): (bytes: int)
    ensures bytes > 0
  {
    if options.mode == 0 then PositiveOrDefault(options.sequentialBufferBytes, DEFAULT_SEQUENTIAL_BUFFER_BYTES)
    else PositiveOrDefault(options.blockBytes, DEFAULT_BLOCK_BYTES)
  }

  function EffectiveRegion(options: Options): (bytes: int)
    ensures bytes > 0
  {
    if options.mode == 0 then Max(DEFAULT_REGION_BYTES, EffectiveBlock(options))
    else PositiveOrDefault(options.regionBytes, DEFAULT_REGION_BYTES)
  }

  /** The decisions of `Open` about a regular file, in its order. */
  function Effective(file: seq<byte>, options: Options, random: nat, maxInt: int, mix: Mixer): Result<Layout> {
    var maxLineBytes, shardCount := PositiveOrDefault(options.maxLineBytes, DEFAULT_MAX_LINE_BYTES),
      Max(options.shardCount, 1);
    var blockBytes, regionBytes := EffectiveBlock(options), EffectiveRegion(options);
    var blocksPerRegion := regionBytes / blockBytes;
    if options.mode >= 2 then Refused(InvalidMode)
    else if options.shardIndex < 0 || options.shardIndex >= shardCount then Refused(ShardOutside)
    else if options.mode == 0 && (shardCount != 1 || options.shardIndex != 0) then Refused(SequentialShards)
    else if options.reuse && shardCount > 1 then Refused(ReuseShards)
    else if maxLineBytes > maxInt - 2 then Refused(LineOverflow)
    else if blockBytes > maxInt - maxLineBytes - 3 then Refused(SizesOverflow)
    else if blockBytes + maxLineBytes + 3 > 0xffff_ffff then Refused(OffsetsOverflow)
    else if BufferBytes(blockBytes + maxLineBytes + 3) > maxInt then Refused(BufferOverflow)
    else if regionBytes < blockBytes then Refused(RegionTooSmall)
    else if blocksPerRegion > MAX_INT64 / blockBytes then Refused(RegionOverflow)
    else
      QuotientIsPositive(regionBytes, blockBytes);
      Ok(Layout(file, if options.mode == 0 then Sequential else Shuffled, blockBytes, blocksPerRegion,
                Max(1, DEFAULT_REGION_BYTES / (blocksPerRegion * blockBytes)), maxLineBytes,
                shardCount, options.shardIndex, options.reuse, EffectiveSeed(options, random), mix))
  }

  lemma QuotientIsPositive(a: int, b: int)
    requires 0 < b <= a
    ensures a / b >= 1 && (a / b) * b > 0 && (a / b) * b <= a
  {
    assert a == (a / b) * b + a % b;
    FactorPositive(a / b + 1, b);
    FactorPositive(a / b, b);
  }

  lemma FactorPositive(x: int, b: int)
    requires b > 0
    ensures x * b > 0 <==> x > 0
  {
  }

  /** What `Open` accepts is a valid layout, so everything proved about layouts holds of every opened pool. */
  lemma OpensValid(file: seq<byte>, options: Options, random: nat, maxInt: int, mix: Mixer)
    requires Representable(options, maxInt) && |file| <= MAX_INT64
    requires Effective(file, options, random, maxInt, mix).Ok?
    ensures Effective(file, options, random, maxInt, mix).value.Valid()
  {
    QuotientIsPositive(EffectiveRegion(options), EffectiveBlock(options));
  }

  lemma QuotientFits(a: int, b: int, limit: int)
    requires 0 < b && 0 <= a <= limit
    ensures a / b <= limit / b
  {
    var q, r := a / b, limit / b;
    assert a == q * b + a % b && limit == r * b + limit % b;
    assert (r + 1 - q) * b == r * b + b - q * b;
    FactorPositive(r + 1 - q, b);
  }

  /** The sizes and shards that `Open` accepts. */
  predicate Acceptable(options: Options, maxInt: int) {
    var shards, bytes := Max(options.shardCount, 1),
        EffectiveBlock(options) + PositiveOrDefault(options.maxLineBytes, DEFAULT_MAX_LINE_BYTES) + 3;
    && options.mode < 2 && 0 <= options.shardIndex < shards
    && (options.mode == 0 || options.reuse ==> shards == 1)
    && bytes < 0x1_0000_0000 && BufferBytes(bytes) <= maxInt
    && EffectiveBlock(options) <= EffectiveRegion(options)
  }

  /** `Open` accepts exactly the acceptable options; its check for an overflowing region size never fires. */
  lemma OpensExactly(file: seq<byte>, options: Options, random: nat, maxInt: int, mix: Mixer)
    requires Representable(options, maxInt)
    ensures Effective(file, options, random, maxInt, mix).Ok? <==> Acceptable(options, maxInt)
    ensures Effective(file, options, random, maxInt, mix) != Refused(RegionOverflow)
  {
    QuotientFits(EffectiveRegion(options), EffectiveBlock(options), MAX_INT64);
  }

  /** What pools must agree on to share a file's lines: everything but the shard and the line limit. */
  predicate Sharing(a: Options, b: Options) {
    && a.mode == b.mode == 1 && a.blockBytes == b.blockBytes && a.regionBytes == b.regionBytes
    && a.seed == b.seed != 0 && a.shardCount == b.shardCount && a.reuse == b.reuse
  }

  lemma OpenedAlike(file: seq<byte>, a: Options, b: Options, randomA: nat, randomB: nat, maxInt: int, mix: Mixer)
    requires Sharing(a, b)
    requires Effective(file, a, randomA, maxInt, mix).Ok? && Effective(file, b, randomB, maxInt, mix).Ok?
    ensures var x, y := Effective(file, a, randomA, maxInt, mix).value, Effective(file, b, randomB, maxInt, mix).value;
      Alike(x, y) && y.shardIndex == b.shardIndex && x.shardCount == Max(a.shardCount, 1) && x.file == file
        && x.reuse == a.reuse
  {
  }
}
