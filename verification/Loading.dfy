/**
 What a pool's block load relies on: the range it reads, the byte it carries from one block to the
 next, the blocks it may skip, and the errors it reports.
 */
module Loading {
  import opened Blocks
  import opened Layouts
  import opened LineIndex
  import opened Modular
  import opened Text

  const TAIL_READ_BYTES: nat := 4096
  const LINE_READ_BYTES: nat := 65536

  datatype Option<T> = None | Some(value: T)

  datatype Error =
    | Closed
    | EndOfFile
    | SourceChanged
    | StatFailed
    | ReadFailed
    | UnexpectedEnd
    | LineTooLong(offset: int)

  /** What loading a block can report: never the end of the file. */
  ghost predicate IsLoadError(err: Option<Error>) {
    err != Some(EndOfFile) && err != Some(Closed)
  }

  datatype ReadError = NoError | AtEnd | Fault

  // ----- limits -----

  function BufferLimit(layout: Layout): nat {
    Min(layout.blockBytes + layout.maxLineBytes, |layout.file|) + 3
  }

  function OffsetLimit(layout: Layout): nat {
    Min(layout.blockBytes, |layout.file|) + 1
  }

  function Lookahead(layout: Layout): nat {
    Min(Min(TAIL_READ_BYTES, layout.maxLineBytes + 2), layout.blockBytes / 8)
  }

  /** A line of the file is longer than the limit. */
  ghost predicate TooLongAt(layout: Layout, p: int) {
    0 <= p < |layout.file| && |LineAt(layout.file, p)| > layout.maxLineBytes
  }

  ghost predicate Short(layout: Layout, lines: seq<seq<byte>>) {
    AllShort(lines, layout.maxLineBytes)
  }

  /** The range a block load reads: `skip` leaves room for a byte the pool already knows. */
  function BlockReadRange(layout: Layout, block: nat, carried: nat): (r: (int, nat, nat, nat))
    requires layout.Valid() && block < layout.BlockCount()
    ensures var (readOffset, skip, ownershipEnd, readBytes) := r;
      && readOffset == layout.Start(block) - 1
      && skip <= 1 && (skip == 1 <==> block == 0 || block == carried) && readOffset + skip >= 0
      && ownershipEnd == layout.End(block) - readOffset && 2 <= ownershipEnd <= OffsetLimit(layout)
      && ownershipEnd <= readBytes <= BufferLimit(layout)
      && readOffset + readBytes <= |layout.file|
  {
    BlockBounds(layout, block);
    var blockStart := block * layout.blockBytes;
    var baseBytes := Min(layout.blockBytes, |layout.file| - blockStart);
    var lookahead := Min(Lookahead(layout), |layout.file| - blockStart - baseBytes);
    assert (block + 1) * layout.blockBytes == blockStart + layout.blockBytes;
    (blockStart - 1, if block == 0 || block == carried then 1 else 0, 1 + baseBytes, 1 + baseBytes + lookahead)
  }

  // ----- skipping -----

  /** No block in the interval owns a line, so the pool may skip it. */
  ghost predicate Skippable(layout: Layout, from: nat, to: nat) {
    forall block: nat :: from <= block < to ==> layout.BlockLines(block) == []
  }

  lemma ContinuationSkippable(layout: Layout, block: nat, p: nat, nextStart: nat)
    requires layout.Valid() && block < layout.BlockCount()
    requires layout.Start(block) <= p < layout.End(block)
    requires NextStart(layout.file, p) == Min(nextStart, |layout.file|)
    ensures Skippable(layout, block + 1, ContinuationEnd(layout, nextStart))
  {
    hide NextStart;
    forall b: nat | block + 1 <= b < ContinuationEnd(layout, nextStart)
      ensures layout.BlockLines(b) == []
    {
      WithinContinuation(layout, block, b, nextStart);
      NoLinesWithin(layout.file, p, layout.Start(b), layout.End(b));
    }
  }

  function ContinuationEnd(layout: Layout, nextStart: nat): nat
    requires layout.blockBytes >= 1
  {
    if nextStart >= |layout.file| then layout.BlockCount() else nextStart / layout.blockBytes
  }

  lemma WithinContinuation(layout: Layout, block: nat, b: nat, nextStart: nat)
    requires layout.Valid() && block < b < ContinuationEnd(layout, nextStart)
    requires block < layout.BlockCount()
    ensures layout.End(block) <= layout.Start(b) <= layout.End(b) <= Min(nextStart, |layout.file|)
  {
    var size := layout.blockBytes;
    MulMonotone(block + 1, b, size);
    assert (b + 1) * size == b * size + size;
    if nextStart < |layout.file| {
      var q := nextStart / size;
      assert q * size <= nextStart;
      MulMonotone(b + 1, q, size);
    } else {
      BlockBounds(layout, b);
    }
  }

  /** `carried` is the file byte just before block `block`, if there is such a block to load. */
  ghost predicate Carried(layout: Layout, block: nat, carried: byte)
    requires layout.Valid()
  {
    && block <= layout.BlockCount()
    && (0 < block < layout.BlockCount() ==> carried == ByteAt(layout.file, ClippedStart(layout, block) - 1))
  }

  /** A pool that has loaded nothing carries nothing that matters. */
  lemma NothingCarried(layout: Layout)
    requires layout.Valid()
    ensures forall b: byte :: Carried(layout, 0, b)
  {
  }

  ghost function ClippedStart(layout: Layout, block: nat): (p: nat)
    ensures p <= |layout.file|
  {
    Min(layout.Start(block), |layout.file|)
  }

  lemma ByteBefore(layout: Layout, block: nat, carriedBlock: nat, carried: byte)
    requires layout.Valid() && block < layout.BlockCount() && Carried(layout, carriedBlock, carried)
    requires block == 0 || block == carriedBlock
    ensures -1 <= layout.Start(block) - 1 < |layout.file|
    ensures (if block == 0 then LF else carried) == ByteAt(layout.file, layout.Start(block) - 1)
  {
    BlockBounds(layout, block);
  }

  lemma NextCarried(layout: Layout, block: nat, data: seq<byte>)
    requires layout.Valid() && block < layout.BlockCount()
    requires View(data, layout.file, layout.Start(block) - 1, |data|)
    requires 0 < layout.End(block) - (layout.Start(block) - 1) <= |data|
    ensures Carried(layout, block + 1, data[layout.End(block) - layout.Start(block)])
  {
    BlockBounds(layout, block);
    assert data[layout.End(block) - layout.Start(block)] == ByteAt(layout.file, layout.End(block) - 1);
    if block + 1 < layout.BlockCount() {
      BlockBounds(layout, block + 1);
    }
  }

  lemma LimitsFit(layout: Layout)
    requires layout.Valid()
    ensures OffsetLimit(layout) < 0x1_0000_0000 && BufferLimit(layout) < 0x1_0000_0000
  {
  }

  /** A block whose open last line is completed: all its lines, none too long. */
  lemma Completed(layout: Layout, block: nat, readOffset: int, own: nat, data: seq<byte>, offsets: seq<uint32>,
                  from: nat, cr: bool,
                  longer: seq<byte>, cr': bool)
    requires layout.Valid() && block < layout.BlockCount() && |longer| <= BufferLimit(layout)
    requires readOffset == layout.Start(block) - 1 && own == layout.End(block) - readOffset
    requires Indexed(layout.file, readOffset + 1, layout.End(block), layout.maxLineBytes, data, offsets, from, cr)
    requires data[..own] <= longer && offsets[|offsets| - 1] as nat < own
    requires var last := offsets[|offsets| - 1] as nat;
      IsLine(longer, layout.file, readOffset, last, |longer|) && !TooLongAt(layout, readOffset + last)
    requires longer[|longer| - 1] == LF && (!cr' ==> !cr && longer[|longer| - 2] != CR)
    ensures |longer| < 0x1_0000_0000
    ensures var all := offsets + [|longer| as uint32];
      WellCut(longer, all, cr') && Cut(longer, all) == layout.BlockLines(block)
        && Short(layout, layout.BlockLines(block))
  {
    hide IsLine;
    hide LineAt;
    hide Cut;
    hide WellCut;
    hide LinesIn;
    hide AllShort;
    LimitsFit(layout);
    hide BufferLimit;
    BlockBounds(layout, block);
    hide Boundary;
    hide Layout.Start;
    hide Layout.End;
    hide Layout.BlockCount;
    hide Indexed;
    IndexedExtended(layout.file, layout.Start(block), layout.End(block), layout.maxLineBytes, data, offsets, from,
      cr, longer, cr');
    assert Cut(longer, offsets + [|longer| as uint32]) == layout.BlockLines(block);
  }

  /** A line of the block is too long, and this is where it starts. */
  ghost predicate LongLineOf(layout: Layout, block: nat, p: int)
    requires layout.Valid()
  {
    && StartsLine(layout.file, layout.Start(block), layout.End(block), p) && TooLongAt(layout, p)
  }

  ghost predicate SomeLongLine(layout: Layout, p: int)
    requires layout.Valid()
  {
    exists block: nat :: block < layout.BlockCount() && LongLineOf(layout, block, p)
  }

  lemma SkippedBlock(layout: Layout, cycleSeed: nat, block: nat)
    requires layout.BlockLines(block) == []
    ensures layout.Deliver(cycleSeed)(block) == []
  {
  }

  /** The error means what it says: the block owns a line over the limit. */
  lemma LongLineIsOwned(layout: Layout, block: nat, p: int)
    requires layout.Valid() && block < layout.BlockCount() && LongLineOf(layout, block, p)
    ensures LineAt(layout.file, p) in layout.BlockLines(block) && !Short(layout, layout.BlockLines(block))
  {
    var file, start, end := layout.file, layout.Start(block), layout.End(block);
    BlockBounds(layout, block);
    LinesInConcat(file, start, p, end);
    assert FirstStart(file, p) == p;
    var rest := LinesIn(file, p, end);
    assert rest[0] == LineAt(file, p);
    assert layout.BlockLines(block)[|LinesIn(file, start, p)|] == rest[0];
  }

  lemma ShortParts(layout: Layout, a: seq<seq<byte>>, b: seq<seq<byte>>)
    ensures Short(layout, a + b) <==> Short(layout, a) && Short(layout, b)
  {
    if Short(layout, a + b) {
      assert forall k :: 0 <= k < |a| ==> a[k] == (a + b)[k];
      assert forall k :: 0 <= k < |b| ==> b[k] == (a + b)[|a| + k];
    }
  }

  /** Shortness does not depend on the order, and parts of short lines are short. */
  lemma ShortAmong(layout: Layout, part: seq<seq<byte>>, whole: seq<seq<byte>>)
    requires multiset(part) <= multiset(whole) && Short(layout, whole)
    ensures Short(layout, part)
  {
    forall k | 0 <= k < |part|
      ensures |part[k]| <= layout.maxLineBytes
    {
      assert part[k] in multiset(part);
      assert part[k] in whole;
    }
  }

  /** A block with a line over the limit leaves one among what its shuffled lines begin. */
  lemma LongBlockPending(layout: Layout, cycleSeed: nat, block: nat, rest: seq<seq<byte>>)
    ensures !Short(layout, layout.BlockLines(block)) ==> !Short(layout, layout.BlockOrder(cycleSeed, block) + rest)
  {
    hide Layout.BlockLines;
    hide Layout.BlockOrder;
    BlockOrderPermutes(layout, cycleSeed, block);
    ShortParts(layout, layout.BlockOrder(cycleSeed, block), rest);
    if Short(layout, layout.BlockOrder(cycleSeed, block)) {
      ShortAmong(layout, layout.BlockLines(block), layout.BlockOrder(cycleSeed, block));
    }
  }

  /** Among the lines to come in this cycle, or in the next one if it begins at once, is one over the limit. */
  ghost predicate TooLongAhead(layout: Layout, cycle: nat, pending: seq<seq<byte>>)
    requires layout.Valid()
  {
    !Short(layout, pending) || (pending == [] && layout.reuse && !Short(layout, layout.CycleLines(cycle + 1)))
  }
}
