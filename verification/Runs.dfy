/** What holds of whole runs, whatever calls they are made of. */
module Runs {
  import opened Layouts
  import opened Loading
  import opened Modular
  import opened Opening
  import opened Pools
  import opened Sequences
  import opened Text

  /**
   Two pools over the same source with the same options hand out the same lines in the same order, however
   their calls of `Next`, `NextBatch` and `Reset` are mixed: one run is a prefix of the other. The line limits
   may differ; they only decide where a run fails.
   */
  lemma OneSequence(p: Pool, q: Pool)
    requires p.Valid() && q.Valid() && Alike(p.layout, q.layout) && p.layout.shardIndex == q.layout.shardIndex
    requires |p.history| <= |q.history|
    ensures p.history <= q.history
  {
    hide Pool.Ready;
    hide Layout.Stream;
    hide Layout.Valid;
    hide Carried;
    var n: nat :| p.history <= p.layout.Stream(n);
    var m: nat :| q.history <= q.layout.Stream(m);
    SameStream(p.layout, q.layout, m);
    if n <= m {
      StreamGrows(p.layout, n, m);
    } else {
      StreamGrows(p.layout, m, n);
    }
  }

  /** A sequential pool that reached the end has handed out the lines of the file in order. */
  lemma SequentialRun(p: Pool)
    requires p.Valid() && !p.closed && p.terminal == Some(EndOfFile)
    requires p.layout.mode.Sequential? && !p.layout.reuse
    ensures p.history == Lines(p.layout.file)
  {
    hide Pool.Delivered;
    hide Carried;
    SequentialInOrder(p.layout, 0);
  }

  ghost function Histories(pools: seq<Pool>): nat -> seq<seq<byte>>
    reads pools
  {
    var lines := seq(|pools|, i requires 0 <= i < |pools| reads pools => pools[i].history);
    (i: nat) => if i < |lines| then lines[i] else []
  }

  /**
   One pool per shard, each at its end: together they have handed out every line of the file exactly once.
   Their line limits may differ.
   */
  lemma ShardedRun(layout: Layout, pools: seq<Pool>)
    requires layout.Valid() && !layout.reuse && |pools| == layout.shardCount
    requires forall i :: 0 <= i < |pools| ==>
      pools[i].Valid() && Alike(layout, pools[i].layout) && pools[i].layout.shardIndex == i
    requires forall i :: 0 <= i < |pools| ==> !pools[i].closed && pools[i].terminal == Some(EndOfFile)
    ensures multiset(Flat(Histories(pools), Iota(0, |pools|))) == multiset(Lines(layout.file))
  {
    hide Pool.Delivered;
    hide Carried;
    hide Layout.CycleLines;
    ShardsCoverFile(layout, 0);
    forall i | i in Iota(0, |pools|)
      ensures Histories(pools)(i) == LinesOfShard(layout, 0)(i)
    {
      assert pools[i].history == pools[i].layout.CycleLines(0);
      LimitIrrelevant(Shard(layout, i), pools[i].layout, 0);
    }
    FlatEqual(Histories(pools), LinesOfShard(layout, 0), Iota(0, |pools|));
  }

  /** A pool over a file, opened with the given options; `random` is the seed drawn where none is given. */
  ghost predicate OpenedWith(pool: Pool, file: seq<byte>, options: Options, random: nat, maxInt: int, mix: Mixer)
    reads pool, pool.buffer, pool.offsets, pool.Kernel()
  {
    pool.Valid() && Effective(file, options, random, maxInt, mix) == Ok(pool.layout)
  }

  /**
   The promise of the shard options: pools with the same source, block size, region size, nonzero seed and shard
   count, one for each shard index, collectively return every line exactly once.
   */
  lemma ShardsShareFile(file: seq<byte>, options: seq<Options>, randoms: seq<nat>, pools: seq<Pool>, maxInt: int,
                        mix: Mixer)
    requires |options| == |randoms| == |pools| > 0 && |options| == Max(options[0].shardCount, 1)
    requires forall i :: 0 <= i < |options| ==>
      Sharing(options[0], options[i]) && options[i].shardIndex == i && !options[i].reuse
    requires forall i :: 0 <= i < |pools| ==> OpenedWith(pools[i], file, options[i], randoms[i], maxInt, mix)
    requires forall i :: 0 <= i < |pools| ==> !pools[i].closed && pools[i].terminal == Some(EndOfFile)
    ensures multiset(Flat(Histories(pools), Iota(0, |pools|))) == multiset(Lines(file))
  {
    hide Effective;
    hide Sharing;
    hide Layout.Valid;
    hide Alike;
    hide Flat;
    var layout := pools[0].layout;
    forall i | 0 <= i < |pools|
      ensures Alike(layout, pools[i].layout) && pools[i].layout.shardIndex == i
      ensures layout.shardCount == |pools| && layout.file == file && !layout.reuse
    {
      OpenedAlike(file, options[0], options[i], randoms[0], randoms[i], maxInt, mix);
    }
    assert pools[0].Valid();
    ShardedRun(layout, pools);
  }

  /** One call of `Next` on a pool that does not start over. */
  method NextOfRun(pool: Pool) returns (line: seq<byte>, err: Option<Error>)
    requires pool.Valid() && pool.IsOpen() && !pool.layout.reuse
    modifies pool, pool.buffer, pool.offsets, pool.Kernel()
    ensures pool.Valid() && !pool.closed && pool.terminal == err && pool.ahead == old(pool.ahead)
    ensures pool.buffer == old(pool.buffer) || fresh(pool.buffer)
    ensures pool.offsets == old(pool.offsets) || fresh(pool.offsets)
    ensures pool.Excused(err, old(pool.faults))
    ensures err.None? ==> |line| <= pool.layout.maxLineBytes && pool.history == old(pool.history) + [line]
    ensures err.None? ==> pool.Sized() && pool.Positioned() && old(pool.Pending()) == [line] + pool.Pending()
    ensures err.Some? ==> pool.history == old(pool.history)
    ensures err == Some(EndOfFile) ==> old(pool.Pending()) == []
    ensures err.Some? && err.value.LineTooLong? ==> !Short(pool.layout, old(pool.Pending()))
  {
    hide Pool.Pending;
    hide Pool.Positioned;
    hide Pool.Sized;
    hide Pool.Loaded;
    hide Pool.Balanced;
    hide Pool.Delivered;
    hide Pool.AheadOk;
    hide Carried;
    hide SomeLongLine;
    hide Skippable;
    hide Layout.CycleLines;
    hide Layout.Stream;
    line, err := pool.Next();
  }

  /**
   How a run may end that had `pending` to return: at the end of the file with all of it returned; and without a fault
   only so, unless a line to come is over the limit, which then is the error.
   */
  ghost predicate RunEnds(layout: Layout, pending: seq<seq<byte>>, lines: seq<seq<byte>>, err: Option<Error>,
    faultless: bool) {
    && err.Some? && Short(layout, lines) && (err == Some(EndOfFile) ==> lines == pending)
    && (faultless ==>
          (err == Some(EndOfFile) <==> Short(layout, pending)) && (err.value.EndOfFile? || err.value.LineTooLong?))
  }

  lemma RunFails(layout: Layout, pending: seq<seq<byte>>, err: Option<Error>, faultless: bool)
    requires err.Some? && (err == Some(EndOfFile) ==> pending == [])
    requires err.value.LineTooLong? ==> !Short(layout, pending)
    requires faultless ==> err.value.EndOfFile? || err.value.LineTooLong?
    ensures RunEnds(layout, pending, [], err, faultless)
  {
  }

  lemma RunGoesOn(layout: Layout, line: seq<byte>, pending: seq<seq<byte>>, lines: seq<seq<byte>>, err: Option<Error>,
                  later: bool, faultless: bool)
    requires RunEnds(layout, pending, lines, err, later) && |line| <= layout.maxLineBytes && (faultless ==> later)
    ensures RunEnds(layout, [line] + pending, [line] + lines, err, faultless)
  {
    assert Short(layout, [line]);
    hide Short;
    ShortParts(layout, [line], pending);
    ShortParts(layout, [line], lines);
  }

  /** Calling `Next` until it fails: the lines returned and the error that ended the run. */
  method Drain(pool: Pool) returns (lines: seq<seq<byte>>, err: Option<Error>)
    requires pool.Valid() && pool.IsOpen() && !pool.layout.reuse
    modifies pool, pool.buffer, pool.offsets, pool.Kernel()
    ensures pool.Valid() && pool.terminal == err && pool.faults >= old(pool.faults)
    ensures pool.history == old(pool.history) + lines
    ensures RunEnds(pool.layout, old(pool.Pending()), lines, err, pool.faults == old(pool.faults))
    decreases |pool.Pending()|
  {
    hide RunEnds;
    hide Short;
    hide Pool.Pending;
    hide Pool.Positioned;
    hide Pool.Sized;
    hide Pool.Loaded;
    hide Pool.Balanced;
    hide Pool.Delivered;
    hide Pool.AheadOk;
    hide Pool.Truthful;
    hide Carried;
    hide Skippable;
    ghost var before := pool.Pending();
    var line;
    line, err := NextOfRun(pool);
    if err.Some? {
      RunFails(pool.layout, before, err, pool.faults == old(pool.faults));
      return [], err;
    }
    ghost var pending, faults := pool.Pending(), pool.faults;
    lines, err := Drain(pool);
    RunGoesOn(pool.layout, line, pending, lines, err, pool.faults == faults, pool.faults == old(pool.faults));
    lines := [line] + lines;
  }

  /** A shard's lines are lines of the file, so a file without long lines fails no shard. */
  lemma ShardLinesShort(layout: Layout, cycle: nat)
    requires layout.Valid() && Short(layout, Lines(layout.file))
    ensures Short(layout, layout.CycleLines(cycle))
  {
    hide Layout.CycleLines;
    var shards := Iota(0, layout.shardCount);
    ShardsCoverFile(layout, cycle);
    FlatPart(LinesOfShard(layout, cycle), shards, layout.shardIndex);
    assert Shard(layout, layout.shardIndex) == layout;
    ShortAmong(layout, layout.CycleLines(cycle), Lines(layout.file));
  }

  /**
   The run of a fresh pool, with or without reads ahead: without faults it returns its lines to the end exactly if
   none of them is over the limit, which is so if the file has no such line.
   */
  method FreshRun(source: Layout, prefetch: bool) returns (pool: Pool, lines: seq<seq<byte>>, err: Option<Error>)
    requires source.Valid() && !source.reuse
    ensures fresh(pool) && pool.Valid() && pool.layout == source && pool.history == lines && pool.terminal == err
    ensures RunEnds(source, source.CycleLines(0), lines, err, pool.faults == 0)
    ensures pool.faults == 0 && Short(source, Lines(source.file)) ==>
      err == Some(EndOfFile) && lines == source.CycleLines(0)
  {
    hide Short;
    hide Layout.CycleLines;
    hide Pool.Pending;
    hide Pool.Positioned;
    hide Pool.Loaded;
    hide Pool.Balanced;
    hide Pool.Delivered;
    hide Pool.AheadOk;
    hide Pool.Truthful;
    hide Carried;
    hide Skippable;
    pool := new Pool(source);
    if prefetch {
      pool.OpenPrefetch();
    }
    lines, err := Drain(pool);
    if Short(source, Lines(source.file)) {
      ShardLinesShort(source, 0);
    }
  }
}
