/**
 The pool: a cursor over an immutable file that keeps one block and its line offsets. The file is a
 value; reads return exact slices of it or fail, whenever they like.
 */
module Pools {
  import opened Aheads
  import opened Batches
  import opened Bitmaps
  import opened Blocks
  import opened Layouts
  import opened LineIndex
  import opened Loading
  import opened Modular
  import opened Schedules
  import opened Sequences
  import opened Text
  import Kernels

  // ----- the pool -----

  class Pool {
    const layout: Layout
    var terminal: Option<Error>
    var closed: bool
    var prefetching: bool
    var ahead: Ahead? // reads in flight, on platforms that have them
    // the loaded block: `buffer[..length]` and `offsets[..count]` are the source's two slices
    var buffer: array<byte>
    var length: nat
    var offsets: array<uint32>
    var count: nat
    var cr: bool
    var lineCursor: nat
    var nextLine: nat
    var lineStep: nat
    // the byte before block `carriedBlock`
    var carriedBlock: nat
    var carried: byte
    // blocks inside the last line that ran past its block
    var continuationStart: nat
    var continuationEnd: nat
    // the schedule
    var regionCursor: nat
    var nextRegion: nat
    var regionAdvance: nat
    var regionBlockBase: nat
    var regionBlocks: nat
    var regionBlockNext: nat
    var regionRotation: nat
    var cursor: nat
    var cycleStartCursor: nat
    var cycle: nat
    var cycleSeed: nat
    ghost var region: nat
    ghost var history: seq<seq<byte>> // the lines handed out since open or reset
    ghost var faults: nat // reads that failed or came back short, and failed checks of the source

    // ----- storage -----

    ghost predicate Sized()
      reads `buffer, `length, `offsets, `count, buffer, offsets
    {
      && layout.Valid()
      && buffer as object != offsets
      && length <= buffer.Length <= BufferLimit(layout)
      && count <= offsets.Length <= OffsetLimit(layout)
    }

    ghost function Data(): seq<byte>
      requires length <= buffer.Length
      reads `buffer, `length, buffer
    {
      buffer[..length]
    }

    ghost function Offsets(): seq<uint32>
      requires count <= offsets.Length
      reads `offsets, `count, offsets
    {
      offsets[..count]
    }

    ghost function Kernel(): set<object>
      reads `ahead
    {
      if ahead == null then {} else {ahead}
    }

    ghost predicate AheadOk()
      reads `ahead, Kernel()
    {
      ahead != null ==> ahead.Valid() && ahead.layout == layout
    }

    /** An error other than the end of the file or a line too long has a fault behind it, counted since `before`. */
    ghost predicate Excused(err: Option<Error>, before: nat)
      reads `faults
    {
      before <= faults && (err.Some? && faults == before ==> err.value.EndOfFile? || err.value.LineTooLong?)
    }

    /** A positional read: an exact slice of the file, possibly cut short by a failure. */
    method ReadAt(lo: nat, hi: nat, offset: nat) returns (read: nat, err: ReadError)
      requires lo <= hi <= buffer.Length && offset + (hi - lo) <= |layout.file|
      modifies `faults, buffer
      ensures lo + read <= hi
      ensures buffer[..lo] == old(buffer[..lo])
      ensures buffer[lo..lo + read] == layout.file[offset..offset + read]
      ensures lo + read < hi ==> err != NoError
      ensures faults == old(faults) + if lo + read < hi || err == Fault then 1 else 0
    {
      read := 0;
      while lo + read < hi
        invariant lo + read <= hi
        invariant buffer[..lo] == old(buffer[..lo]) && faults == old(faults)
        invariant buffer[lo..lo + read] == layout.file[offset..offset + read]
      {
        var stop: bool := *;
        if stop {
          var fault: bool := *;
          faults := faults + 1;
          return read, if fault then Fault else AtEnd;
        }
        buffer[lo + read] := layout.file[offset + read];
        read := read + 1;
      }
      var quiet: bool, fault: bool := *, *;
      err := if quiet then NoError else if fault then Fault else AtEnd;
      faults := faults + if err == Fault then 1 else 0;
    }

    /** Size and modification time as the operating system reports them now. */
    method ValidateSource() returns (err: Option<Error>)
      modifies `faults
      ensures err in {None, Some(SourceChanged), Some(StatFailed)}
      ensures faults == old(faults) + if err.Some? then 1 else 0
    {
      var changed: bool, failed: bool := *, *;
      err := if failed then Some(StatFailed) else if changed then Some(SourceChanged) else None;
      faults := faults + if err.Some? then 1 else 0;
    }

    /** `resized`: the same bytes in storage of at least `size`, grown in steps up to the limit. */
    method Resized(old_: array<byte>, used: nat, size: nat) returns (grown: array<byte>)
      requires layout.Valid() && used <= old_.Length <= BufferLimit(layout) && size <= BufferLimit(layout)
      ensures size <= grown.Length <= BufferLimit(layout)
      ensures grown == old_ || (fresh(grown) && used <= grown.Length)
      ensures used <= grown.Length && grown[..used] == old_[..used]
    {
      if old_.Length >= size {
        return old_;
      }
      var maximum := BufferLimit(layout);
      var capacity := size + 2;
      if old_.Length == 0 && |layout.file| > layout.blockBytes {
        capacity := Max(capacity, Min(maximum, layout.blockBytes + 2 + Lookahead(layout)));
      } else if old_.Length > 0 {
        var base := Min(layout.blockBytes + 2, maximum);
        var tailCapacity := if old_.Length > base then old_.Length - base else 0;
        var nextTailCapacity, maximumTailCapacity := tailCapacity * 2, maximum - base;
        if nextTailCapacity < TAIL_READ_BYTES {
          nextTailCapacity := TAIL_READ_BYTES;
        }
        if nextTailCapacity < tailCapacity || nextTailCapacity > maximumTailCapacity {
          nextTailCapacity := maximumTailCapacity;
        }
        capacity := Max(capacity, base + nextTailCapacity);
      }
      if capacity > maximum || capacity < old_.Length {
        capacity := maximum;
      }
      grown := new byte[capacity];
      forall i | 0 <= i < used {
        grown[i] := old_[i];
      }
    }

    method ResizeBuffer(size: nat)
      requires Sized() && size <= BufferLimit(layout)
      modifies `buffer, `length
      ensures Sized() && length == size
      ensures buffer == old(buffer) || fresh(buffer)
      ensures Data()[..Min(old(length), size)] == old(Data())[..Min(old(length), size)]
    {
      buffer := Resized(buffer, length, size);
      length := size;
    }

    /** Afterwards either 64 slots are free or the storage has its final size. */
    method GrowOffsets()
      requires Sized()
      modifies `offsets
      ensures Sized() && (offsets == old(offsets) || fresh(offsets))
      ensures Offsets() == old(Offsets())
      ensures offsets.Length == OffsetLimit(layout) || offsets.Length - count >= 64
    {
      var maximum := OffsetLimit(layout);
      if offsets.Length >= maximum {
        return;
      }
      var capacity := offsets.Length * 2;
      if capacity == 0 {
        capacity := Min(maximum, Max(1024, maximum / 32));
      } else if capacity < offsets.Length {
        capacity := maximum;
      } else {
        capacity := Max(capacity, 1024);
        if capacity >= maximum - 1 {
          capacity := maximum;
        }
      }
      var grown := new uint32[capacity];
      forall i | 0 <= i < count {
        grown[i] := offsets[i];
      }
      offsets := grown;
    }

    method AppendOffset(offset: uint32)
      requires Sized() && count < OffsetLimit(layout)
      modifies `offsets, `count, offsets
      ensures Sized() && (offsets == old(offsets) || fresh(offsets))
      ensures Offsets() == old(Offsets()) + [offset] && Data() == old(Data())
    {
      if count == offsets.Length {
        GrowOffsets();
      }
      offsets[count] := offset;
      count := count + 1;
    }

    method IndexByte(lo: nat, hi: nat, b: byte) returns (i: int)
      requires lo <= hi <= length <= buffer.Length
      ensures i < 0 ==> forall j :: lo <= j < hi ==> Data()[j] != b
      ensures i >= 0 ==> lo + i < hi && Data()[lo + i] == b && forall j :: lo <= j < lo + i ==> Data()[j] != b
    {
      i := 0;
      while lo + i < hi
        invariant 0 <= i <= hi - lo
        invariant forall j :: lo <= j < lo + i ==> Data()[j] != b
      {
        if buffer[lo + i] == b {
          return;
        }
        i := i + 1;
      }
      i := -1;
    }

    // ----- loading a block -----

    /** Finds every line end in `[lineStart, end)`; room for progress is never lacking. */
    method IndexBlock(lineStart: nat, end: nat) returns (lastEnd: nat)
      requires Sized() && count == 1 && offsets[0] as nat == lineStart && !cr
      requires 1 <= lineStart < end <= length && end <= OffsetLimit(layout)
      modifies `offsets, `count, `cr, offsets
      ensures Sized() && (offsets == old(offsets) || fresh(offsets))
      ensures Splits(Data(), Offsets(), lineStart, end) && lastEnd == Offsets()[count - 1] as nat
      ensures Hinted(Data(), Offsets(), cr) && Data() == old(Data())
    {
      hide IndexedTo;
      hide Splits;
      hide Hinted;
      ghost var data := Data();
      ghost var src := data[lineStart..end];
      var position := lineStart;
      IndexNothing(data, src, lineStart, Offsets());
      while position < end
        invariant Sized() && (offsets == old(offsets) || fresh(offsets))
        invariant lineStart <= position <= end && Data() == data
        invariant IndexedTo(data, src, lineStart, position, Offsets(), cr)
      {
        var consumed := IndexMoreBytes(position, end, src, lineStart);
        position := position + consumed;
      }
      IndexedCount(data, src, lineStart, position, Offsets(), cr);
      IndexedAll(data, src, lineStart, Offsets(), cr);
      lastEnd := offsets[count - 1] as nat;
    }

    /** One round of `IndexBlock`: at least one byte is examined. */
    method IndexMoreBytes(position: nat, end: nat, ghost src: seq<byte>, ghost lineStart: nat) returns (consumed: nat)
      requires Sized() && position < end == lineStart + |src| <= length && end <= OffsetLimit(layout)
      requires IndexedTo(Data(), src, lineStart, position, Offsets(), cr)
      modifies `offsets, `count, `cr, offsets
      ensures Sized() && (offsets == old(offsets) || fresh(offsets))
      ensures 0 < consumed && position + consumed <= end && Data() == old(Data())
      ensures IndexedTo(Data(), src, lineStart, position + consumed, Offsets(), cr)
    {
      hide IndexedTo;
      ghost var data, before, old_ := Data(), Offsets(), cr;
      IndexedCount(data, src, lineStart, position, before, cr);
      if offsets.Length - count < 64 {
        GrowOffsets();
      }
      ghost var more;
      var hint;
      consumed, hint, more := StoreEnds(position, end);
      IndexMore(data, src, lineStart, position, before, old_, more, consumed, hint);
      cr := cr || hint || buffer[position - 1] == CR;
    }

    method StoreEnds(position: nat, end: nat) returns (consumed: nat, hint: bool, ghost more: seq<uint32>)
      requires Sized() && position < end <= length
      requires offsets.Length - count >= 64 || offsets.Length - count >= end - position
      modifies `count, offsets
      ensures Sized() && 0 < consumed && position + consumed <= end
      ensures Data() == old(Data()) && Offsets() == old(Offsets()) + more
      ensures more == EndsOf(Data()[position..end], position, consumed)
      ensures HasCrLf(Data()[position..end], consumed) ==> hint
    {
      LimitsFit(layout);
      hide EndsOf;
      hide HasCrLf;
      hide BufferLimit;
      hide OffsetLimit;
      ghost var data := Data();
      var src, written, vectorized: bool := buffer[..length][position..end], 0, *;
      written, consumed, hint := Kernels.Ends(offsets, count, src, position as uint32, vectorized);
      more := offsets[count..count + written];
      NoEnds(src, position);
      assert offsets[..count + written] == offsets[..count] + more;
      count := count + written;
      assert Data() == data;
    }

    /** Measures one line of a cut. */
    method Measure(k: nat, ghost from: nat, ghost to: nat) returns (long: bool)
      requires Sized() && Splits(Data(), Offsets(), from, to) && k + 1 < count
      ensures long <==> LongLine(Data(), Offsets(), k, layout.maxLineBytes)
    {
      SplitsBounds(Data(), Offsets(), from, to, k);
      hide Splits;
      hide ExceedsLineLimit;
      assert Offsets()[k] == offsets[k] && Offsets()[k + 1] == offsets[k + 1];
      long := ExceedsLineLimit(buffer[..length][offsets[k]..offsets[k + 1]], layout.maxLineBytes);
    }

    /** The first line over the limit, if there is one. */
    method MeasureLines(readOffset: int, ghost from: nat, ghost to: nat) returns (err: Option<Error>, ghost at: nat)
      requires Sized() && Splits(Data(), Offsets(), from, to)
      ensures at < count
      ensures forall k :: 0 <= k < at ==> !LongLine(Data(), Offsets(), k, layout.maxLineBytes)
      ensures err.None? ==> at == count - 1
      ensures err.Some? ==> at < count - 1 && LongLine(Data(), Offsets(), at, layout.maxLineBytes)
      ensures err.Some? ==> err.value == LineTooLong(readOffset + Offsets()[at] as int)
    {
      SplitsCount(Data(), Offsets(), from, to);
      hide Splits;
      hide LongLine;
      var i := 0;
      while i + 1 < count
        invariant 0 <= i < count
        invariant forall k :: 0 <= k < i ==> !LongLine(Data(), Offsets(), k, layout.maxLineBytes)
      {
        var long := Measure(i, from, to);
        if long {
          return Some(LineTooLong(readOffset + offsets[i] as int)), i;
        }
        i := i + 1;
      }
      return None, count - 1;
    }

    /** The widest gap decides most blocks; otherwise every line is measured. */
    method CheckLineLimit(readOffset: int, ghost from: nat, ghost to: nat) returns (err: Option<Error>, ghost at: nat)
      requires Sized() && Splits(Data(), Offsets(), from, to)
      ensures at < count
      ensures forall k :: 0 <= k < at ==> !LongLine(Data(), Offsets(), k, layout.maxLineBytes)
      ensures err.None? ==> at == count - 1
      ensures err.Some? ==> at < count - 1 && LongLine(Data(), Offsets(), at, layout.maxLineBytes)
      ensures err.Some? ==> err.value == LineTooLong(readOffset + Offsets()[at] as int)
    {
      SplitsCount(Data(), Offsets(), from, to);
      hide Splits;
      hide LongLine;
      at := count - 1;
      var largest := MaxGap(offsets[..count]);
      if largest <= layout.maxLineBytes + 1 {
        forall k | 0 <= k < count - 1
          ensures !LongLine(Data(), Offsets(), k, layout.maxLineBytes)
        {
          NarrowLine(Data(), Offsets(), from, to, k, largest, layout.maxLineBytes);
        }
        return None, at;
      }
      err, at := MeasureLines(readOffset, from, to);
    }

    /** Ends an unterminated last line so that trimming gives it back verbatim. */
    method Terminate(end: nat) returns (newEnd: nat)
      requires Sized() && 1 <= end == length && end + 2 <= BufferLimit(layout)
      modifies `buffer, `length, `cr, buffer
      ensures Sized() && (buffer == old(buffer) || fresh(buffer))
      ensures length == newEnd
      ensures Data() == old(Data()) + Ending(old(Data()))
      ensures cr == (old(cr) || old(Data())[end - 1] == CR)
    {
      ghost var data := Data();
      var returned := buffer[end - 1] == CR;
      newEnd := if returned then end + 2 else end + 1;
      ResizeBuffer(newEnd);
      hide BufferLimit;
      assert Data()[..end] == data[..end] == data;
      if returned {
        buffer[end] := CR;
        cr := true;
      }
      buffer[newEnd - 1] := LF;
      assert Data()[..end] == data;
      assert Data()[end..] == Ending(data);
    }

    /** Cuts the buffer at a line end found past the block and measures the line. */
    method FinishLine(readOffset: int, lineStart: nat, lineEnd: nat,
                      ghost prefix: seq<byte>) returns (err: Option<Error>)
      requires Sized() && 1 <= lineStart < lineEnd <= length && prefix <= Data()[..lineEnd]
      requires View(Data(), layout.file, readOffset, lineEnd)
      requires Data()[lineEnd - 1] == LF && forall j :: lineStart <= j < lineEnd - 1 ==> Data()[j] != LF
      modifies `length, `cr
      ensures Sized()
      ensures err.None? ==> Ended(readOffset, lineStart, lineEnd, prefix, old(cr))
      ensures err.Some? ==>
        err.value == LineTooLong(readOffset + lineStart) && TooLongAt(layout, readOffset + lineStart)
    {
      length := lineEnd;
      assert Data() == old(Data())[..lineEnd];
      IsLineOf(Data(), layout.file, readOffset, lineStart, lineEnd);
      LimitOnLine(layout.file, Data(), readOffset, lineStart, lineEnd, layout.maxLineBytes);
      assert buffer[lineStart..lineEnd] == Data()[lineStart..lineEnd];
      if ExceedsLineLimit(buffer[lineStart..lineEnd], layout.maxLineBytes) {
        return Some(LineTooLong(readOffset + lineStart));
      }
      cr := cr || buffer[lineEnd - 2] == CR;
      return None;
    }

    /** The bytes the buffer holds so far of a line that has not ended. */
    ghost predicate Open(readOffset: int, lineStart: nat)
      requires length <= buffer.Length
      reads `buffer, `length, buffer
    {
      && View(Data(), layout.file, readOffset, length) && 1 <= lineStart < length
      && forall j :: lineStart <= j < length ==> Data()[j] != LF
    }

    /** The last line of the file has no line feed. */
    method FinishLastLine(readOffset: int, lineStart: nat, ghost prefix: seq<byte>) returns (lineEnd: nat,
                          err: Option<Error>)
      requires Sized() && Open(readOffset, lineStart) && readOffset + length == |layout.file| && prefix <= Data()
      requires lineStart <= layout.blockBytes
      modifies `buffer, `length, `cr, buffer
      ensures Sized() && (buffer == old(buffer) || fresh(buffer))
      ensures err.None? ==> Ended(readOffset, lineStart, lineEnd, prefix, old(cr))
      ensures err.Some? ==>
        err.value == LineTooLong(readOffset + lineStart) && TooLongAt(layout, readOffset + lineStart)
    {
      hide IsLine;
      hide LineAt;
      hide ExceedsLineLimit;
      ghost var data := Data();
      LimitOnLastLine(layout.file, data, readOffset, lineStart, length, layout.maxLineBytes);
      assert buffer[lineStart..length] == data[lineStart..length];
      if ExceedsLineLimit(buffer[lineStart..length], layout.maxLineBytes) {
        return 0, Some(LineTooLong(readOffset + lineStart));
      }
      IsLastLine(data, layout.file, readOffset, lineStart);
      lineEnd := Terminate(length);
      return lineEnd, None;
    }

    /** The buffer ends with the complete line at `lineStart`, which is not too long. */
    ghost predicate Ended(readOffset: int, lineStart: nat, lineEnd: nat, prefix: seq<byte>, hinted: bool)
      requires length <= buffer.Length
      reads `buffer, `length, `cr, buffer
    {
      && lineEnd == length && 2 <= lineEnd && IsLine(Data(), layout.file, readOffset, lineStart, lineEnd)
      && !TooLongAt(layout, readOffset + lineStart)
      && Data()[lineEnd - 1] == LF && (!cr ==> !hinted && Data()[lineEnd - 2] != CR)
      && prefix <= Data()
    }

    /** Finds the end of a line that runs past its block, reading on as far as the limit allows. */
    method ExtendLine(readOffset: int, lineStart: nat, searchStart: nat) returns (lineEnd: nat, err: Option<Error>)
      requires Sized() && 1 <= lineStart < searchStart <= length && lineStart <= layout.blockBytes
      requires View(Data(), layout.file, readOffset, length)
      requires forall j :: lineStart <= j < searchStart ==> Data()[j] != LF
      modifies `buffer, `length, `cr, buffer, `faults
      ensures Sized() && (buffer == old(buffer) || fresh(buffer))
      ensures err.None? ==> Ended(readOffset, lineStart, lineEnd, old(Data())[..searchStart], old(cr))
      ensures err.Some? && err.value.LineTooLong? ==>
        err.value == LineTooLong(readOffset + lineStart) && TooLongAt(layout, readOffset + lineStart)
      ensures IsLoadError(err)
      ensures Excused(err, old(faults))
    {
      hide IsLine;
      hide TooLongAt;
      var limit := lineStart + layout.maxLineBytes + 2;
      ghost var prefix := Data()[..searchStart];
      var newline := IndexByte(searchStart, length, LF);
      if newline >= 0 {
        lineEnd := searchStart + newline + 1;
        ViewPrefix(Data(), layout.file, readOffset, length, lineEnd);
        err := FinishLine(readOffset, lineStart, lineEnd, prefix);
        return;
      }
      err := None;
      lineEnd := 0;
      var done := false;
      while length < limit && !done
        invariant Sized() && (buffer == old(buffer) || fresh(buffer))
        invariant !done ==> Open(readOffset, lineStart) && prefix <= Data() && cr == old(cr)
        invariant done && err.None? ==> Ended(readOffset, lineStart, lineEnd, prefix, old(cr))
        invariant done && err.Some? && err.value.LineTooLong? ==>
          err.value == LineTooLong(readOffset + lineStart) && TooLongAt(layout, readOffset + lineStart)
        invariant IsLoadError(err) && Excused(err, old(faults))
        decreases !done, limit - length
      {
        done, lineEnd, err := ExtendOnce(readOffset, lineStart, limit, prefix);
      }
      if !done {
        LongIsTooLong(readOffset, lineStart);
        err := Some(LineTooLong(readOffset + lineStart));
      }
    }

    /** One round of `ExtendLine`: the line ends, the file ends, or the buffer grows. */
    method ExtendOnce(readOffset: int, lineStart: nat, limit: nat, ghost prefix: seq<byte>)
      returns (done: bool, lineEnd: nat, err: Option<Error>)
      requires Sized() && Open(readOffset, lineStart) && prefix <= Data() && lineStart <= layout.blockBytes
      requires length < limit == lineStart + layout.maxLineBytes + 2
      modifies `buffer, `length, `cr, buffer, `faults
      ensures Sized() && (buffer == old(buffer) || fresh(buffer))
      ensures !done ==> Open(readOffset, lineStart) && prefix <= Data() && cr == old(cr) && length > old(length)
      ensures done && err.None? ==> Ended(readOffset, lineStart, lineEnd, prefix, old(cr))
      ensures done && err.Some? && err.value.LineTooLong? ==>
        err.value == LineTooLong(readOffset + lineStart) && TooLongAt(layout, readOffset + lineStart)
      ensures IsLoadError(err)
      ensures Excused(err, old(faults))
    {
      hide IsLine;
      hide TooLongAt;
      done, lineEnd, err := true, 0, None;
      var absoluteEnd := readOffset + length;
      if absoluteEnd == |layout.file| {
        lineEnd, err := FinishLastLine(readOffset, lineStart, prefix);
        return;
      }
      var readBytes := Min(Min(LINE_READ_BYTES, Max(TAIL_READ_BYTES, layout.blockBytes)), limit - length);
      readBytes := Min(readBytes, |layout.file| - absoluteEnd);
      var oldLength := length;
      var whole, fault := ReadMore(readOffset, readBytes, lineStart, prefix);
      var newline := IndexByte(oldLength, length, LF);
      if newline >= 0 {
        lineEnd := oldLength + newline + 1;
        ViewPrefix(Data(), layout.file, readOffset, length, lineEnd);
        err := FinishLine(readOffset, lineStart, lineEnd, prefix);
      } else {
        done, err := AfterRead(whole, fault, readOffset + length == |layout.file|);
      }
    }

    /** What a read that did not end the line means: go on, or an error. */
    method AfterRead(whole: bool, fault: ReadError, atEnd: bool) returns (done: bool, err: Option<Error>)
      modifies `faults
      ensures !done ==> err.None? && (whole || atEnd)
      ensures done ==> err.Some? && !err.value.LineTooLong?
      ensures IsLoadError(err)
      ensures old(faults) <= faults && (err.Some? ==> fault == Fault || !whole)
    {
      done, err := true, None;
      if fault == Fault {
        err := Some(ReadFailed);
      } else if whole {
        done := false;
      } else if atEnd {
        done := false;
      } else {
        err := ValidateSource();
        if err.None? {
          err := Some(UnexpectedEnd);
        }
      }
    }

    lemma LongIsTooLong(readOffset: int, lineStart: nat)
      requires Sized() && Open(readOffset, lineStart) && length >= lineStart + layout.maxLineBytes + 2
      ensures TooLongAt(layout, readOffset + lineStart)
    {
      UnendedIsLong(layout.file, Data(), readOffset, lineStart, layout.maxLineBytes);
    }

    /** Grows the buffer and appends what a read delivers. */
    method ReadMore(readOffset: int, readBytes: nat, ghost lineStart: nat, ghost prefix: seq<byte>)
      returns (whole: bool, fault: ReadError)
      requires Sized() && Open(readOffset, lineStart) && prefix <= Data()
      requires 0 < readBytes && length + readBytes <= BufferLimit(layout)
      requires readOffset + length + readBytes <= |layout.file|
      modifies `buffer, `length, buffer, `faults
      ensures Sized() && (buffer == old(buffer) || fresh(buffer))
      ensures old(Data()) <= Data() && prefix <= Data() && length <= old(length) + readBytes
      ensures View(Data(), layout.file, readOffset, length)
      ensures whole <==> length == old(length) + readBytes
      ensures !whole ==> fault != NoError
      ensures faults == old(faults) + if !whole || fault == Fault then 1 else 0
    {
      var absoluteEnd, oldLength := readOffset + length, length;
      ghost var data := Data();
      ResizeBuffer(oldLength + readBytes);
      assert Data()[..oldLength] == data;
      var read;
      read, fault := ReadAt(oldLength, length, absoluteEnd);
      whole := read == readBytes;
      length := oldLength + read;
      ReadExtends(data, Data(), layout.file, readOffset);
    }

    ghost predicate Storage()
      reads `buffer, `length, `offsets, `count, `carriedBlock, `carried, buffer, offsets
    {
      Sized() && Carried(layout, carriedBlock, carried)
    }

    /** The bytes of a block from `skip` on are in the buffer. */
    ghost predicate Filled(readOffset: int, skip: nat, readBytes: nat)
      requires length <= buffer.Length
      reads `buffer, `length, buffer
    {
      && length == readBytes && skip <= readBytes && 0 <= readOffset + skip <= readOffset + readBytes <= |layout.file|
      && Data()[skip..] == layout.file[readOffset + skip..readOffset + readBytes]
    }

    /** Takes the bytes that were read ahead for a block, if there are any and they are those the load wants. */
    method TakeAhead(block: nat, readOffset: int, skip: nat, readBytes: nat) returns (adopted: bool)
      requires Sized() && AheadOk() && skip <= 1 <= readBytes <= BufferLimit(layout) && 0 <= readOffset + skip
      requires block < layout.BlockCount() && readOffset + readBytes <= |layout.file|
      requires RequestFor(layout, block, carriedBlock) == Request(block, readOffset + skip, readBytes - skip)
      modifies `buffer, `length, Kernel()
      ensures Sized() && AheadOk() && (buffer == old(buffer) || fresh(buffer))
      ensures adopted ==> Filled(readOffset, skip, readBytes)
    {
      hide RequestFor;
      hide BufferLimit;
      hide OffsetLimit;
      hide Aheads.Reading;
      adopted := false;
      if ahead == null {
        return;
      }
      var data;
      adopted, data := ahead.Adopt(block, carriedBlock);
      if adopted {
        var empty := new byte[0];
        buffer := Resized(empty, 0, readBytes);
        length := readBytes;
        forall i | skip <= i < readBytes {
          buffer[i] := data[i - skip];
        }
        assert Data()[skip..] == data;
      }
    }

    /** Fills the buffer from the file. */
    method ReadFile(readOffset: int, skip: nat, readBytes: nat) returns (err: Option<Error>)
      requires Sized() && skip <= readBytes <= BufferLimit(layout)
      requires 0 <= readOffset + skip && readOffset + readBytes <= |layout.file|
      modifies `buffer, `length, `faults, buffer
      ensures Sized() && (buffer == old(buffer) || fresh(buffer))
      ensures err.None? ==> Filled(readOffset, skip, readBytes)
      ensures IsLoadError(err) && (err.Some? ==> !err.value.LineTooLong?) && Excused(err, old(faults))
    {
      hide BufferLimit;
      hide OffsetLimit;
      err := None;
      ResizeBuffer(readBytes);
      var read, fault := ReadAt(skip, readBytes, (readOffset + skip) as nat);
      if read != readBytes - skip {
        err := ValidateSource();
        if err.None? {
          err := Some(if fault == Fault then ReadFailed else UnexpectedEnd);
        }
      } else if fault == Fault {
        err := Some(ReadFailed);
      } else {
        assert Data()[skip..] == buffer[skip..readBytes];
      }
    }

    /** Fills the buffer from the file, unless the bytes were read ahead. */
    method ReadBlock(block: nat, readOffset: int, skip: nat, readBytes: nat) returns (err: Option<Error>)
      requires Sized() && AheadOk() && skip <= 1 <= readBytes <= BufferLimit(layout) && 0 <= readOffset + skip
      requires block < layout.BlockCount() && readOffset + readBytes <= |layout.file|
      requires RequestFor(layout, block, carriedBlock) == Request(block, readOffset + skip, readBytes - skip)
      modifies `buffer, `length, `faults, buffer, Kernel()
      ensures Sized() && AheadOk() && (buffer == old(buffer) || fresh(buffer))
      ensures err.None? ==> Filled(readOffset, skip, readBytes)
      ensures IsLoadError(err) && (err.Some? ==> !err.value.LineTooLong?) && Excused(err, old(faults))
    {
      hide BufferLimit;
      hide OffsetLimit;
      hide RequestFor;
      hide Filled;
      err := None;
      var adopted := TakeAhead(block, readOffset, skip, readBytes);
      if !adopted {
        err := ReadFile(readOffset, skip, readBytes);
      }
    }

    /** Reads a block, the byte before it unless known, and a little of what follows. */
    method FetchBlock(block: nat) returns (readOffset: int, ownershipEnd: nat, err: Option<Error>)
      requires Storage() && AheadOk() && block < layout.BlockCount()
      modifies `buffer, `length, `carriedBlock, `carried, `faults, buffer, Kernel()
      ensures Storage() && AheadOk() && (buffer == old(buffer) || fresh(buffer))
      ensures err.None? ==> Fetched(block, readOffset, ownershipEnd)
      ensures IsLoadError(err) && (err.Some? ==> !err.value.LineTooLong?) && Excused(err, old(faults))
    {
      hide BlockReadRange;
      hide Layout.Start;
      hide Layout.End;
      hide Carried;
      hide Filled;
      hide Fetched;
      var (origin, skip, own, readBytes) := BlockReadRange(layout, block, carriedBlock);
      readOffset, ownershipEnd := origin, own;
      err := ReadBlock(block, readOffset, skip, readBytes);
      if err.None? {
        CompleteFetch(block, readOffset, skip, ownershipEnd, readBytes);
      }
    }

    /** Puts the known byte in front and remembers the byte before the next block. */
    method CompleteFetch(block: nat, readOffset: int, skip: nat, ownershipEnd: nat, readBytes: nat)
      requires Storage() && block < layout.BlockCount() && Filled(readOffset, skip, readBytes)
      requires BlockReadRange(layout, block, carriedBlock) == (readOffset, skip, ownershipEnd, readBytes)
      modifies `carriedBlock, `carried, buffer
      ensures Storage() && Fetched(block, readOffset, ownershipEnd)
    {
      hide BlockReadRange;
      hide Layout.Start;
      hide Layout.End;
      hide Layout.BlockCount;
      hide View;
      hide Carried;
      hide BufferLimit;
      hide OffsetLimit;
      if skip == 1 {
        ByteBefore(layout, block, carriedBlock, carried);
        PutKnown(readOffset, readBytes, if block == 0 then LF else carried);
      }
      FetchedView(Data(), layout.file, readOffset, skip);
      NextCarried(layout, block, Data());
      carriedBlock, carried := block + 1, buffer[ownershipEnd - 1];
    }

    /** The byte that was not read is the one the pool knows. */
    method PutKnown(readOffset: int, readBytes: nat, known: byte)
      requires Sized() && Filled(readOffset, 1, readBytes)
      modifies buffer
      ensures Sized() && Filled(readOffset, 1, readBytes) && Data()[0] == known
    {
      ghost var rest := Data()[1..];
      buffer[0] := known;
      assert Data()[1..] == rest;
    }

    /** The offsets cut the buffer into exactly the lines that start in the block. */
    ghost predicate Holds(block: nat)
      requires Sized()
      reads `buffer, `length, `offsets, `count, `cr, buffer, offsets
    {
      && WellCut(Data(), Offsets(), cr) && Cut(Data(), Offsets()) == layout.BlockLines(block)
      && Short(layout, layout.BlockLines(block))
    }

    /** The first line start the block owns. */
    method FindFirst(block: nat, readOffset: int, ownershipEnd: nat) returns (found: bool, lineStart: nat)
      requires Sized() && Fetched(block, readOffset, ownershipEnd)
      ensures !found ==> layout.BlockLines(block) == []
      ensures found ==> 1 <= lineStart < ownershipEnd && Data()[lineStart - 1] == LF
      ensures found ==> FirstStart(layout.file, readOffset + 1) == readOffset + lineStart
    {
      ViewPrefix(Data(), layout.file, readOffset, length, ownershipEnd);
      BlockBounds(layout, block);
      lineStart := 1;
      if buffer[0] != LF {
        var newline := IndexByte(1, ownershipEnd, LF);
        if newline < 0 {
          NoStart(layout.file, layout.Start(block), layout.End(block), Data());
          return false, 0;
        }
        lineStart := 2 + newline;
        if lineStart >= ownershipEnd {
          NoStart(layout.file, layout.Start(block), layout.End(block), Data());
          return false, 0;
        }
        FirstStartAfter(layout.file, layout.Start(block), Data(), ownershipEnd, lineStart - 1);
      } else {
        FirstStartHere(layout.file, layout.Start(block), Data(), ownershipEnd);
      }
      return true, lineStart;
    }

    /** The buffer holds the block, the byte before it and a little of what follows. */
    ghost predicate Fetched(block: nat, readOffset: int, ownershipEnd: nat)
      requires Sized()
      reads `buffer, `length, `offsets, `count, buffer, offsets
    {
      && block < layout.BlockCount()
      && readOffset == layout.Start(block) - 1 && ownershipEnd == layout.End(block) - readOffset
      && 2 <= ownershipEnd <= OffsetLimit(layout) && ownershipEnd <= length
      && View(Data(), layout.file, readOffset, length)
    }

    /** A fetched block, indexed. */
    ghost predicate IndexedBlock(block: nat, readOffset: int, from: nat)
      requires Sized()
      reads `buffer, `length, `offsets, `count, `cr, buffer, offsets
    {
      readOffset + 1 >= 0 && Indexed(layout.file, readOffset + 1, layout.End(block), layout.maxLineBytes, Data(),
        Offsets(), from, cr)
    }

    /** Cuts a fetched block into lines and completes the one that runs past its end. */
    method CutBlock(block: nat, readOffset: int, ownershipEnd: nat) returns (err: Option<Error>)
      requires Storage() && Fetched(block, readOffset, ownershipEnd)
      modifies `buffer, `length, `offsets, `count, `cr, `lineCursor, `nextLine, `continuationStart, `continuationEnd,
        `faults
      modifies buffer, offsets
      ensures Storage() && (buffer == old(buffer) || fresh(buffer)) && (offsets == old(offsets) || fresh(offsets))
      ensures lineCursor == nextLine == 0
      ensures err.None? ==> Holds(block)
      ensures Skippable(layout, old(continuationStart), old(continuationEnd)) ==>
        Skippable(layout, continuationStart, continuationEnd)
      ensures err.Some? && err.value.LineTooLong? ==> LongLineOf(layout, block, err.value.offset)
      ensures IsLoadError(err)
      ensures Excused(err, old(faults))
    {
      hide View;
      hide Carried;
      hide Skippable;
      hide Holds;
      hide LongLineOf;
      hide Layout.Start;
      hide Layout.End;
      count, cr := 0, false;
      lineCursor, nextLine := 0, 0;
      err := None;
      var found, lineStart := FindFirst(block, readOffset, ownershipEnd);
      if found {
        err := CutFrom(block, readOffset, ownershipEnd, lineStart);
      } else {
        NothingHeld(block);
      }
    }

    method CutFrom(block: nat, readOffset: int, ownershipEnd: nat, lineStart: nat) returns (err: Option<Error>)
      requires Storage() && Fetched(block, readOffset, ownershipEnd) && count == 0 && !cr
      requires 1 <= lineStart < ownershipEnd && Data()[lineStart - 1] == LF
      requires FirstStart(layout.file, readOffset + 1) == readOffset + lineStart
      modifies `buffer, `length, `offsets, `count, `cr, `continuationStart, `continuationEnd, `faults
      modifies buffer, offsets
      ensures Storage() && (buffer == old(buffer) || fresh(buffer)) && (offsets == old(offsets) || fresh(offsets))
      ensures err.None? ==> Holds(block)
      ensures Skippable(layout, old(continuationStart), old(continuationEnd)) ==>
        Skippable(layout, continuationStart, continuationEnd)
      ensures err.Some? && err.value.LineTooLong? ==> LongLineOf(layout, block, err.value.offset)
      ensures IsLoadError(err)
      ensures Excused(err, old(faults))
    {
      hide Splits;
      hide View;
      hide Hinted;
      hide Carried;
      hide LongLine;
      hide Skippable;
      hide IndexedBlock;
      hide Holds;
      hide Layout.Start;
      hide Layout.End;
      hide LongLineOf;
      LimitsFit(layout);
      hide BufferLimit;
      hide OffsetLimit;
      AppendOffset(lineStart as uint32);
      assert Offsets()[0] == lineStart as uint32;
      var lastEnd := IndexBlock(lineStart, ownershipEnd);
      ghost var at;
      err, at := CheckLineLimit(readOffset, lineStart, ownershipEnd);
      if err.Some? {
        LongIsReported(block, readOffset, ownershipEnd, lineStart, at);
      } else {
        NowIndexed(block, readOffset, ownershipEnd, lineStart);
        err := CompleteBlock(block, readOffset, ownershipEnd, lastEnd, lineStart);
      }
    }

    /** Completes the last owned line if the block ends inside it. */
    method CompleteBlock(block: nat, readOffset: int, ownershipEnd: nat, lastEnd: nat, ghost from: nat)
      returns (err: Option<Error>)
      requires Storage() && Fetched(block, readOffset, ownershipEnd) && IndexedBlock(block, readOffset, from)
      requires count > 0 && lastEnd == Offsets()[count - 1] as nat
      modifies `buffer, `length, `offsets, `count, `cr, `continuationStart, `continuationEnd, buffer, offsets, `faults
      ensures Storage() && (buffer == old(buffer) || fresh(buffer)) && (offsets == old(offsets) || fresh(offsets))
      ensures err.None? ==> Holds(block)
      ensures Skippable(layout, old(continuationStart), old(continuationEnd)) ==>
        Skippable(layout, continuationStart, continuationEnd)
      ensures err.Some? && err.value.LineTooLong? ==> LongLineOf(layout, block, err.value.offset)
      ensures IsLoadError(err)
      ensures Excused(err, old(faults))
    {
      hide Indexed;
      hide View;
      hide Carried;
      hide Skippable;
      hide Holds;
      hide Layout.Start;
      hide Layout.End;
      hide LongLineOf;
      err := None;
      if lastEnd < ownershipEnd {
        LastIsOpen(block, readOffset, ownershipEnd, from);
        if readOffset + ownershipEnd < |layout.file| {
          err := ExtendBlock(block, readOffset, ownershipEnd, lastEnd, from);
        } else {
          err := EndBlock(block, readOffset, ownershipEnd, lastEnd, from);
        }
      } else {
        WholeHeld(block, readOffset, ownershipEnd, from);
      }
    }

    /** The last owned line ends in a later block. */
    method ExtendBlock(block: nat, readOffset: int, ownershipEnd: nat, lastEnd: nat,
                       ghost from: nat) returns (err: Option<Error>)
      requires Storage() && ownershipEnd <= length && View(Data(), layout.file, readOffset, length)
      requires OpenBlock(block, readOffset, ownershipEnd, lastEnd, from)
      modifies `buffer, `length, `offsets, `count, `cr, `continuationStart, `continuationEnd, buffer, offsets, `faults
      ensures Storage() && (buffer == old(buffer) || fresh(buffer)) && (offsets == old(offsets) || fresh(offsets))
      ensures err.None? ==> Holds(block)
      ensures Skippable(layout, old(continuationStart), old(continuationEnd)) ==>
        Skippable(layout, continuationStart, continuationEnd)
      ensures err.Some? && err.value.LineTooLong? ==> LongLineOf(layout, block, err.value.offset)
      ensures IsLoadError(err)
      ensures Excused(err, old(faults))
    {
      hide Before;
      hide View;
      hide Carried;
      hide Skippable;
      hide Holds;
      hide Ended;
      hide LongLineOf;
      hide TooLongAt;
      hide Layout.Start;
      hide Layout.End;
      hide BufferLimit;
      hide HeldWith;
      ghost var data, all, hinted := Data(), Offsets(), cr;
      var lineEnd;
      lineEnd, err := ExtendLine(readOffset, lastEnd, ownershipEnd);
      if err.None? {
        LastContinues(block, readOffset, ownershipEnd, from, data, all, hinted, lineEnd);
        ExtendedHeld(block, readOffset, ownershipEnd, from, data, all, hinted, lineEnd);
        CloseExtended(block, (readOffset + lineEnd) as nat, lineEnd as uint32);
      } else if err.value.LineTooLong? {
        LastIsLong(block, readOffset, ownershipEnd, from, data, all, hinted);
      }
    }

    /** The file ends in the block without a line feed. */
    method EndBlock(block: nat, readOffset: int, ownershipEnd: nat, lastEnd: nat,
                    ghost from: nat) returns (err: Option<Error>)
      requires Storage() && ownershipEnd <= length && View(Data(), layout.file, readOffset, length)
      requires OpenBlock(block, readOffset, ownershipEnd, lastEnd, from) && readOffset + ownershipEnd == |layout.file|
      modifies `buffer, `length, `offsets, `count, `cr, buffer, offsets
      ensures Storage() && (buffer == old(buffer) || fresh(buffer)) && (offsets == old(offsets) || fresh(offsets))
      ensures err.None? ==> Holds(block)
      ensures err.Some? && err.value.LineTooLong? ==> LongLineOf(layout, block, err.value.offset)
      ensures IsLoadError(err)
      ensures err.Some? ==> err.value.LineTooLong?
    {
      hide Before;
      hide View;
      hide Carried;
      hide Holds;
      hide Ended;
      hide LongLineOf;
      hide TooLongAt;
      hide Layout.Start;
      hide Layout.End;
      hide BufferLimit;
      hide HeldWith;
      ghost var data, all, hinted := Data(), Offsets(), cr;
      ViewCut(data, layout.file, readOffset, ownershipEnd);
      length := ownershipEnd;
      assert Data() == data[..ownershipEnd];
      var lineEnd;
      lineEnd, err := FinishLastLine(readOffset, lastEnd, data[..ownershipEnd]);
      if err.None? {
        ExtendedHeld(block, readOffset, ownershipEnd, from, data, all, hinted, lineEnd);
        AppendLast(block, lineEnd as uint32);
      } else {
        LastIsLong(block, readOffset, ownershipEnd, from, data, all, hinted);
      }
    }

    /** The blocks inside the line need no load: nothing starts in them. */
    method CloseExtended(block: nat, nextStart: nat, offset: uint32)
      requires Storage() && count < OffsetLimit(layout) && HeldWith(block, offset)
      requires Skippable(layout, block + 1, ContinuationEnd(layout, nextStart))
      modifies `offsets, `count, `continuationStart, `continuationEnd, offsets
      ensures Storage() && (offsets == old(offsets) || fresh(offsets)) && Holds(block)
      ensures Skippable(layout, continuationStart, continuationEnd)
    {
      hide Skippable;
      hide Carried;
      hide WellCut;
      hide Cut;
      continuationStart, continuationEnd := block + 1, ContinuationEnd(layout, nextStart);
      AppendLast(block, offset);
    }

    method AppendLast(ghost block: nat, offset: uint32)
      requires Storage() && count < OffsetLimit(layout) && HeldWith(block, offset)
      modifies `offsets, `count, offsets
      ensures Storage() && (offsets == old(offsets) || fresh(offsets)) && Holds(block)
    {
      hide Carried;
      hide WellCut;
      hide Cut;
      ghost var data := Data();
      AppendOffset(offset);
      assert Data() == data;
    }

    /** One more offset and the buffer holds the block. */
    ghost predicate HeldWith(block: nat, offset: uint32)
      requires Sized()
      reads `buffer, `length, `offsets, `count, `cr, buffer, offsets
    {
      && WellCut(Data(), Offsets() + [offset], cr) && Cut(Data(), Offsets() + [offset]) == layout.BlockLines(block)
      && Short(layout, layout.BlockLines(block))
    }

    ghost predicate OpenBlock(block: nat, readOffset: int, ownershipEnd: nat, lastEnd: nat, from: nat)
      requires Sized()
      reads `buffer, `length, `offsets, `count, `cr, buffer, offsets
    {
      && Before(block, readOffset, ownershipEnd, from, Data(), Offsets(), cr)
      && 0 < count < OffsetLimit(layout) && lastEnd == Offsets()[count - 1] as nat
      && 1 <= lastEnd <= layout.blockBytes && lastEnd < ownershipEnd <= length
      && (forall j :: lastEnd <= j < ownershipEnd ==> Data()[j] != LF)
    }

    /** What the pool knew of a block when its last line was still open. */
    ghost predicate Before(block: nat, readOffset: int, ownershipEnd: nat, from: nat, data: seq<byte>,
                           all: seq<uint32>, hinted: bool)
      requires layout.Valid()
    {
      && block < layout.BlockCount() && readOffset == layout.Start(block) - 1
        && ownershipEnd == layout.End(block) - readOffset
      && Indexed(layout.file, readOffset + 1, layout.End(block), layout.maxLineBytes, data, all, from, hinted)
      && all[|all| - 1] as nat < ownershipEnd
    }

    lemma WholeHeld(block: nat, readOffset: int, ownershipEnd: nat, from: nat)
      requires Sized() && Fetched(block, readOffset, ownershipEnd) && IndexedBlock(block, readOffset, from)
      requires count > 0 && Offsets()[count - 1] as nat >= ownershipEnd
      ensures Holds(block)
    {
      BlockBounds(layout, block);
      IndexedWhole(layout.file, layout.Start(block), layout.End(block), layout.maxLineBytes, Data(), Offsets(), from,
        cr);
    }

    lemma LastIsOpen(block: nat, readOffset: int, ownershipEnd: nat, from: nat)
      requires Sized() && Fetched(block, readOffset, ownershipEnd) && IndexedBlock(block, readOffset, from)
      requires count > 0 && Offsets()[count - 1] as nat < ownershipEnd
      ensures OpenBlock(block, readOffset, ownershipEnd, Offsets()[count - 1] as nat, from)
      ensures readOffset + ownershipEnd <= |layout.file|
    {
      BlockBounds(layout, block);
      hide Layout.Start;
      hide Layout.End;
      hide Splits;
      IndexedOpen(layout.file, layout.Start(block), layout.End(block), layout.maxLineBytes, Data(), Offsets(), from,
        cr);
    }

    lemma LastIsLong(block: nat, readOffset: int, ownershipEnd: nat, from: nat, data: seq<byte>, all: seq<uint32>,
                     hinted: bool)
      requires layout.Valid() && Before(block, readOffset, ownershipEnd, from, data, all, hinted)
      requires TooLongAt(layout, readOffset + all[|all| - 1] as int)
      ensures LongLineOf(layout, block, readOffset + all[|all| - 1] as int)
    {
      hide Layout.Start;
      hide Layout.End;
      IndexedOpen(layout.file, layout.Start(block), layout.End(block), layout.maxLineBytes, data, all, from, hinted);
    }

    lemma LastContinues(block: nat, readOffset: int, ownershipEnd: nat, from: nat, data: seq<byte>, all: seq<uint32>,
                        hinted: bool,
                        lineEnd: nat)
      requires Sized() && Before(block, readOffset, ownershipEnd, from, data, all, hinted)
      requires Ended(readOffset, all[|all| - 1] as nat, lineEnd, data[..ownershipEnd], hinted)
      ensures 0 <= readOffset + lineEnd
      ensures Skippable(layout, block + 1, ContinuationEnd(layout, (readOffset + lineEnd) as nat))
    {
      hide Layout.Start;
      hide Layout.End;
      hide NextStart;
      hide Skippable;
      hide LineAt;
      hide Content;
      var last := readOffset + all[|all| - 1] as int;
      IndexedOpen(layout.file, layout.Start(block), layout.End(block), layout.maxLineBytes, data, all, from, hinted);
      hide Indexed;
      ContinuationSkippable(layout, block, last, (readOffset + lineEnd) as nat);
    }

    lemma ExtendedHeld(block: nat, readOffset: int, ownershipEnd: nat, from: nat, data: seq<byte>, all: seq<uint32>,
                       hinted: bool,
                       lineEnd: nat)
      requires Sized() && Before(block, readOffset, ownershipEnd, from, data, all, hinted)
      requires Ended(readOffset, all[|all| - 1] as nat, lineEnd, data[..ownershipEnd], hinted)
      requires Offsets() == all
      ensures lineEnd < 0x1_0000_0000 && HeldWith(block, lineEnd as uint32)
    {
      hide Indexed;
      hide IsLine;
      hide TooLongAt;
      hide BufferLimit;
      hide WellCut;
      hide Cut;
      hide Short;
      hide Layout.Start;
      hide Layout.End;
      hide Layout.BlockCount;
      hide Layout.BlockLines;
      Completed(layout, block, readOffset, ownershipEnd, data, all, from, hinted, Data(), cr);
    }

    lemma NothingHeld(block: nat)
      requires Sized() && count == 0 && layout.BlockLines(block) == []
      ensures Holds(block)
    {
    }

    lemma NowIndexed(block: nat, readOffset: int, ownershipEnd: nat, from: nat)
      requires Sized() && Fetched(block, readOffset, ownershipEnd) && 1 <= from
      requires Splits(Data(), Offsets(), from, ownershipEnd) && Data()[from - 1] == LF && Hinted(Data(), Offsets(), cr)
      requires FirstStart(layout.file, readOffset + 1) == readOffset + from
      requires forall k :: 0 <= k < count - 1 ==> !LongLine(Data(), Offsets(), k, layout.maxLineBytes)
      ensures IndexedBlock(block, readOffset, from)
    {
      hide Splits;
      hide Hinted;
      hide LongLine;
      hide View;
      hide Layout.Start;
      hide Layout.End;
      hide OffsetLimit;
      hide BufferLimit;
      BlockBounds(layout, block);
      ViewPrefix(Data(), layout.file, readOffset, length, ownershipEnd);
    }

    lemma LongIsReported(block: nat, readOffset: int, ownershipEnd: nat, from: nat, at: nat)
      requires Sized() && Fetched(block, readOffset, ownershipEnd) && 1 <= from
      requires Splits(Data(), Offsets(), from, ownershipEnd) && Data()[from - 1] == LF
      requires LongLine(Data(), Offsets(), at, layout.maxLineBytes)
      ensures LongLineOf(layout, block, readOffset + Offsets()[at] as int)
    {
      hide Splits;
      hide LongLine;
      hide LineAt;
      var start, end := (readOffset + 1) as nat, layout.End(block);
      BlockBounds(layout, block);
      ViewPrefix(Data(), layout.file, readOffset, length, ownershipEnd);
      hide View;
      hide Layout.Start;
      hide Layout.End;
      IndexedLong(layout.file, start, end, Data(), Offsets(), from, layout.maxLineBytes, at);
    }

    lemma HeldIsShort(block: nat)
      requires Sized() && Holds(block)
      ensures Short(layout, layout.BlockLines(block))
    {
    }

    /** Loads a block; afterwards the lines to hand out are the block's, in the cycle's order. */
    method LoadBlock(block: nat) returns (err: Option<Error>)
      requires Storage() && AheadOk() && block < layout.BlockCount()
      modifies `buffer, `length, `offsets, `count, `cr, `lineCursor, `nextLine, `lineStep, `faults
      modifies `carriedBlock, `carried, `continuationStart, `continuationEnd, buffer, offsets, Kernel()
      ensures Storage() && AheadOk() && (buffer == old(buffer) || fresh(buffer))
        && (offsets == old(offsets) || fresh(offsets))
      ensures err.None? ==> Loaded() && lineCursor == 0 && Current() == layout.BlockOrder(cycleSeed, block)
      ensures Skippable(layout, old(continuationStart), old(continuationEnd)) ==>
        Skippable(layout, continuationStart, continuationEnd)
      ensures err.Some? && err.value.LineTooLong? ==> LongLineOf(layout, block, err.value.offset)
      ensures IsLoadError(err)
      ensures err.None? ==> Short(layout, layout.BlockLines(block))
      ensures err.Some? && err.value.LineTooLong? ==> !Short(layout, layout.BlockLines(block))
      ensures Excused(err, old(faults))
      ensures faults == old(faults) ==>
        (err.None? <==> Short(layout, layout.BlockLines(block))) && (err.Some? ==> err.value.LineTooLong?)
    {
      hide Skippable;
      hide LongLineOf;
      hide Carried;
      hide Fetched;
      hide Holds;
      hide Loaded;
      hide Current;
      var readOffset, ownershipEnd;
      readOffset, ownershipEnd, err := FetchBlock(block);
      if err.None? {
        err := CutBlock(block, readOffset, ownershipEnd);
        if err.None? {
          HeldIsShort(block);
          OrderLines(block);
        } else if err.value.LineTooLong? {
          LongLineIsOwned(layout, block, err.value.offset);
        }
      }
    }

    /** Chooses the order in which the lines of the loaded block are handed out. */
    method OrderLines(block: nat)
      requires Storage() && Holds(block) && lineCursor == nextLine == 0
      modifies `lineStep, `nextLine
      ensures Storage() && Loaded() && Current() == layout.BlockOrder(cycleSeed, block)
    {
      hide Carried;
      hide WellCut;
      hide Cut;
      hide Short;
      hide Current;
      hide Loaded;
      hide PermutationStep;
      hide PermutationStart;
      hide Layout.BlockLines;
      LimitsFit(layout);
      hide BufferLimit;
      if count > 1 {
        if layout.mode.Sequential? {
          lineStep, nextLine := 1, 0;
        } else {
          lineStep, nextLine := PermutationParams(count - 1, layout.mix(cycleSeed, block), layout.mix);
        }
      }
      BlockIsCurrent(block);
    }

    lemma BlockIsCurrent(block: nat)
      requires Sized() && Holds(block) && lineCursor == 0
      requires count > 1 ==> lineStep == layout.LineStep(count - 1, cycleSeed, block)
      requires count > 1 ==> nextLine == layout.LineStart(count - 1, cycleSeed, block)
      ensures Loaded() && Current() == layout.BlockOrder(cycleSeed, block)
    {
      hide WellCut;
      hide Cut;
      if count <= 1 {
        assert Cut(Data(), Offsets()) == [];
      }
    }

    /** Lines are loaded, and the walk over them has a next position while any remain. */
    ghost predicate Loaded()
      requires Sized()
      reads `buffer, `length, `offsets, `count, `cr, `lineCursor, `nextLine, `lineStep, buffer, offsets
    {
      && WellCut(Data(), Offsets(), cr) && Short(layout, Cut(Data(), Offsets()))
      && (lineCursor + 1 < count ==> nextLine < count - 1 && lineStep <= count - 1)
    }

    /** The loaded lines still to hand out, in order. */
    ghost function Current(): seq<seq<byte>>
      requires Sized()
      reads `buffer, `length, `offsets, `count, `lineCursor, `nextLine, `lineStep, buffer, offsets
    {
      if lineCursor + 1 < count then
        Gather(Cut(Data(), Offsets()), Walk(nextLine, lineStep, count - 1, count - 1 - lineCursor))
      else []
    }

    // ----- the schedule -----

    /** The counters describe a position in the cycle's schedule. */
    ghost predicate Positioned()
      reads `cycle, `cycleSeed, `regionCursor, `nextRegion, `regionAdvance
      reads `regionBlockNext, `regionBlocks, `regionBlockBase, `regionRotation, `region
    {
      && layout.Valid() && cycleSeed == layout.CycleSeed(cycle)
      && regionCursor <= layout.RegionsForShard()
      && (layout.RegionCount() > 0 ==> nextRegion == layout.ShardRegion(cycleSeed, regionCursor))
      && Advances(layout, cycleSeed, regionAdvance)
      && regionBlockNext <= regionBlocks
      && (regionBlocks > 0 ==> InRegion(layout, cycleSeed, region, regionBlockBase, regionBlocks, regionRotation))
      && (regionBlocks > 0 ==> regionCursor > 0 && region == layout.ShardRegion(cycleSeed, regionCursor - 1))
    }

    ghost function RegionRest(): seq<nat>
      requires Positioned()
      reads `cycle, `cycleSeed, `regionCursor, `nextRegion, `regionAdvance
      reads `regionBlockNext, `regionBlocks, `regionBlockBase, `regionRotation, `region
    {
      if regionBlockNext < regionBlocks then layout.RegionBlocks(cycleSeed, region)[regionBlockNext..] else []
    }

    /** The blocks still to visit in this cycle, in order. */
    ghost function RemainingBlocks(): seq<nat>
      requires Positioned()
      reads `cycle, `cycleSeed, `regionCursor, `nextRegion, `regionAdvance
      reads `regionBlockNext, `regionBlocks, `regionBlockBase, `regionRotation, `region
    {
      RegionRest() + After(layout, cycleSeed, regionCursor)
    }

    /** Begins a cycle at the first region of this shard. */
    method StartCycle(next: nat)
      requires Storage()
      modifies `cycle, `cycleStartCursor, `cycleSeed, `regionCursor, `regionBlockNext, `regionBlocks, `continuationStart
      modifies `continuationEnd, `lineCursor, `nextLine, `count, `cr, `nextRegion, `regionAdvance
      ensures Storage() && Positioned() && Loaded() && Current() == []
      ensures cycle == next && RemainingBlocks() == layout.ShardBlocks(cycleSeed)
      ensures cycleStartCursor == cursor && count == 0
      ensures Skippable(layout, continuationStart, continuationEnd)
    {
      hide Carried;
      hide Positioned;
      hide Loaded;
      hide Current;
      hide RemainingBlocks;
      hide Skippable;
      hide Layout.ShardBlocks;
      cycleStartCursor := cursor;
      RewindSchedule(next);
      DropBlock();
    }

    method DropBlock()
      requires Storage()
      modifies `continuationStart, `continuationEnd, `lineCursor, `nextLine, `count, `cr
      ensures Storage() && Loaded() && Current() == [] && count == 0
      ensures Skippable(layout, continuationStart, continuationEnd)
    {
      hide Carried;
      hide Loaded;
      hide Current;
      continuationStart, continuationEnd := 0, 0;
      lineCursor, nextLine, count := 0, 0, 0;
      cr := false;
      NothingLoaded();
    }

    method RewindSchedule(next: nat)
      requires layout.Valid()
      modifies `cycle, `cycleSeed, `regionCursor, `regionBlockNext, `regionBlocks, `nextRegion, `regionAdvance
      ensures Positioned() && cycle == next && RemainingBlocks() == layout.ShardBlocks(cycleSeed)
    {
      hide Advances;
      hide Layout.ShardRegion;
      hide Layout.RegionCount;
      hide RemainingBlocks;
      hide Layout.ShardBlocks;
      cycle := next;
      cycleSeed := layout.CycleSeed(next);
      regionCursor, regionBlockNext, regionBlocks := 0, 0, 0;
      nextRegion, regionAdvance := ChooseRegions(layout, cycleSeed);
      AllRemains();
    }

    lemma AllRemains()
      requires Positioned() && regionCursor == 0 && regionBlocks == 0
      ensures RemainingBlocks() == layout.ShardBlocks(cycleSeed)
    {
      assert layout.ShardRegions(cycleSeed)[0..] == layout.ShardRegions(cycleSeed);
    }

    lemma NothingLoaded()
      requires Sized() && count == 0
      ensures Loaded() && Current() == []
    {
    }

    /** Moves on to this shard's next region. */
    method EnterNextRegion()
      requires Positioned() && regionCursor < layout.RegionsForShard() && regionBlockNext == regionBlocks
      modifies `regionCursor, `nextRegion, `regionBlockBase, `regionBlocks, `regionBlockNext, `regionRotation, `region
      ensures Positioned() && RemainingBlocks() == old(RemainingBlocks())
      ensures regionCursor == old(regionCursor) + 1 && regionBlockNext < regionBlocks
    {
      hide Layout.RegionsForShard;
      hide Layout.RegionCount;
      hide Layout.ShardRegion;
      hide Layout.CycleSeed;
      hide InRegion;
      hide Advances;
      hide RemainingBlocks;
      Unentered(regionCursor);
      NextOfShard(layout, cycleSeed, regionCursor, nextRegion, regionAdvance);
      var entered := nextRegion;
      region := entered;
      regionCursor := regionCursor + 1;
      nextRegion := NextRegion(layout, nextRegion, regionAdvance);
      regionBlockBase, regionBlocks, regionRotation := RegionAt(layout, cycleSeed, entered);
      regionBlockNext := 0;
      Entered();
    }

    lemma Unentered(cursor: nat)
      requires Positioned() && cursor == regionCursor < layout.RegionsForShard() && regionBlockNext == regionBlocks
      ensures RemainingBlocks() == layout.RegionBlocks(cycleSeed, nextRegion) + After(layout, cycleSeed, cursor + 1)
      ensures nextRegion < layout.RegionCount()
    {
      EnterRegion(layout, cycleSeed, cursor);
    }

    lemma Entered()
      requires Positioned() && regionBlockNext == 0 < regionBlocks
      ensures RemainingBlocks() == layout.RegionBlocks(cycleSeed, region) + After(layout, cycleSeed, regionCursor)
    {
      WholeRegion(layout, cycleSeed, region);
    }

    /** The next block of the current region. */
    method TakeBlock() returns (block: nat)
      requires Positioned() && regionBlockNext < regionBlocks
      modifies `regionBlockNext
      ensures Positioned() && block < layout.BlockCount() && regionBlockNext == old(regionBlockNext) + 1
      ensures old(RemainingBlocks()) == [block] + RemainingBlocks()
    {
      hide After;
      hide Layout.RegionCount;
      hide Layout.RegionsForShard;
      hide Layout.ShardRegion;
      hide Layout.RegionBlocks;
      hide Layout.CycleSeed;
      hide InRegion;
      block := BlockOfRegion(layout, cycleSeed, region, regionBlockBase, regionRotation, regionBlockNext, regionBlocks);
      regionBlockNext := regionBlockNext + 1;
    }

    /**
     `upcomingBlocksLocked`: the next blocks that will be loaded in this cycle unless the interval of blocks
     to skip changes, as many as fit.
     */
    method UpcomingBlocks(blocks: array<nat>) returns (written: nat)
      requires Sized() && Positioned() && blocks as object != buffer && blocks as object != offsets
      modifies blocks
      ensures written <= blocks.Length
      ensures blocks[..written] == Leading(Unskipped(RemainingBlocks(), continuationStart, continuationEnd),
        blocks.Length)
      ensures Distinct(blocks[..written]) && forall b :: b in blocks[..written] ==> b < layout.BlockCount()
    {
      hide Layout.RegionsForShard;
      hide Layout.RegionCount;
      hide Layout.ShardRegion;
      hide Layout.CycleSeed;
      hide InRegion;
      hide Advances;
      hide After;
      hide Layout.RegionBlocks;
      hide Unskipped;
      hide Rest;
      hide Distinct;
      ghost var skipFrom, skipTo := continuationStart, continuationEnd;
      ghost var all := Unskipped(RemainingBlocks(), skipFrom, skipTo);
      var next, size, base, rotation := regionBlockNext, regionBlocks, regionBlockBase, regionRotation;
      var place, upcoming := regionCursor, nextRegion;
      ghost var at := region;
      WhatRemains();
      written := 0;
      while written < blocks.Length
        invariant written <= blocks.Length && At(layout, cycleSeed, at, base, rotation, next, size, place, upcoming)
        invariant all == blocks[..written] + Unskipped(Rest(layout, cycleSeed, at, next, size, place), skipFrom, skipTo)
        decreases layout.RegionsForShard() - place, size - next
      {
        if next == size {
          if place == layout.RegionsForShard() {
            NothingRemains(layout, cycleSeed, at, size, place);
            break;
          }
          ghost var before := at;
          at := upcoming;
          base, size, rotation, upcoming :=
            LookIntoRegion(layout, cycleSeed, place, upcoming, regionAdvance, before, size);
          next, place := 0, place + 1;
        }
        var block := LookAtBlock(layout, cycleSeed, at, base, rotation, next, size, place);
        UnskippedKeeps(all, blocks[..written], block, Rest(layout, cycleSeed, at, next + 1, size, place), skipFrom,
          skipTo);
        next := next + 1;
        if block < continuationStart || block >= continuationEnd {
          ghost var kept := blocks[..written];
          blocks[written] := block;
          assert blocks[..written + 1] == kept + [block];
          written := written + 1;
        }
      }
      LeadingPart(all, blocks[..written],
        Unskipped(Rest(layout, cycleSeed, at, next, size, place), skipFrom, skipTo), blocks.Length);
    }

    lemma WhatRemains()
      requires Positioned()
      ensures RemainingBlocks() == Rest(layout, cycleSeed, region, regionBlockNext, regionBlocks, regionCursor)
      ensures var all := Unskipped(RemainingBlocks(), continuationStart, continuationEnd);
        Distinct(all) && forall b :: b in all ==> b < layout.BlockCount()
    {
      hide After;
      hide Layout.RegionCount;
      hide Layout.RegionsForShard;
      hide Layout.ShardRegion;
      if regionBlockNext < regionBlocks {
        RestDistinct(layout, cycleSeed, regionCursor, regionBlockNext);
      } else {
        AfterDistinct(layout, cycleSeed, regionCursor);
        assert RemainingBlocks() == After(layout, cycleSeed, regionCursor);
      }
      UnskippedDistinct(RemainingBlocks(), continuationStart, continuationEnd);
    }

    /** The blocks that will be loaded next in this cycle, as many as are read ahead. */
    ghost function NextBlocks(): (next: seq<nat>)
      requires Positioned()
      reads `cycle, `cycleSeed, `regionCursor, `nextRegion, `regionAdvance, `continuationStart, `continuationEnd
      reads `regionBlockNext, `regionBlocks, `regionBlockBase, `regionRotation, `region
      ensures |next| <= AHEAD_DEPTH && Existing(layout, next) && Distinct(next)
    {
      WhatRemains();
      var all := Unskipped(RemainingBlocks(), continuationStart, continuationEnd);
      assert forall k :: 0 <= k < |all| ==> all[k] in all;
      Leading(all, AHEAD_DEPTH)
    }

    /** `readAheadLocked`: the reads in flight turn to the blocks that the pool will load next. */
    method ReadAhead() returns (ghost log: seq<Submission>)
      requires Sized() && Positioned() && AheadOk()
      modifies `prefetching, Kernel()
      ensures AheadOk() && (ahead == null || !old(prefetching) ==> log == [] && prefetching == old(prefetching))
      ensures ahead != null ==>
        ahead.submissions == old(ahead.submissions) + log && ahead.arrivals == old(ahead.arrivals)
      ensures ahead != null && !old(prefetching) ==> ahead.slots == old(ahead.slots)
      ensures ahead != null && old(prefetching) ==>
        var due := Due(layout, old(ahead.slots), NextBlocks(), |NextBlocks()|, carriedBlock);
        && (if prefetching then Submitted(due, log) else Stopped(due, log))
        && Wanted(ahead.slots, NextBlocks()) && StartedSince(Kept(old(ahead.slots), NextBlocks()), log, ahead.slots)
    {
      hide Positioned;
      hide RemainingBlocks;
      hide BufferLimit;
      hide OffsetLimit;
      hide Due;
      hide Submitted;
      hide Stopped;
      hide StartedSince;
      hide Wanted;
      hide TableOk;
      hide Distinct;
      log := [];
      if !prefetching || ahead == null {
        return;
      }
      var blocks := new nat[AHEAD_DEPTH];
      var written := UpcomingBlocks(blocks);
      var upcoming := blocks[..written];
      assert upcoming == NextBlocks();
      prefetching, log := ahead.StartReads(upcoming, carriedBlock);
    }

    // ----- handing out lines -----

    /** The lines still to hand out in this cycle, in order. */
    ghost function Pending(): seq<seq<byte>>
      requires Sized() && Positioned()
      reads `buffer, `length, `offsets, `count, `lineCursor, `nextLine, `lineStep, buffer, offsets
      reads `cycle, `cycleSeed, `regionCursor, `nextRegion, `regionAdvance
      reads `regionBlockNext, `regionBlocks, `regionBlockBase, `regionRotation, `region
    {
      Current() + Flat(layout.Deliver(cycleSeed), RemainingBlocks())
    }

    /** Storage and counters are consistent; nothing is said about what was handed out. */
    ghost predicate Stocked()
      reads `buffer, `length, `offsets, `count, `cr, `lineCursor, `nextLine, `lineStep, `carriedBlock, `carried
      reads `continuationStart, `continuationEnd
      reads `cycle, `cycleSeed, `regionCursor, `nextRegion, `regionAdvance
      reads `regionBlockNext, `regionBlocks, `regionBlockBase, `regionRotation, `region, buffer, offsets
    {
      Storage() && Positioned() && Loaded() && Skippable(layout, continuationStart, continuationEnd)
    }

    /** What was handed out and what is pending make up the cycles begun so far; the cursor counts the former. */
    ghost predicate Balanced()
      requires Sized() && Positioned() && Counted()
      reads this, buffer, offsets
    {
      && history + Pending() == layout.Stream(cycle + 1) && history[..cycleStartCursor] == layout.Stream(cycle)
      && (!layout.reuse ==> cycle == 0)
    }

    ghost predicate Counted()
      reads `cursor, `cycleStartCursor, `history
    {
      cycleStartCursor <= cursor == |history|
    }

    ghost predicate Ready()
      reads this, buffer, offsets
    {
      Stocked() && Counted() && Balanced()
    }

    /** The lines handed out are the first ones of the cycles, whatever calls handed them out. */
    ghost predicate Delivered()
      requires layout.Valid()
      reads `history
    {
      exists n: nat :: (!layout.reuse ==> n <= 1) && history <= layout.Stream(n)
    }

    /** An error that sticks means what it says. */
    ghost predicate Truthful()
      requires layout.Valid()
      reads `terminal, `history
    {
      && terminal != Some(Closed)
      && (terminal == Some(EndOfFile) ==> if layout.reuse then layout.file == [] else history == layout.CycleLines(0))
      && (terminal.Some? && terminal.value.LineTooLong? ==> SomeLongLine(layout, terminal.value.offset))
    }

    /** The pool's invariant: it holds in every state a caller can see. */
    ghost predicate Valid()
      reads this, buffer, offsets, Kernel()
    {
      && Storage() && AheadOk() && |history| == cursor && Delivered() && (!closed ==> Truthful())
      && (!closed && terminal.None? ==> Ready())
    }

    ghost predicate IsOpen()
      reads `closed, `terminal
    {
      !closed && terminal.None?
    }

    lemma ReadyDelivers()
      requires Ready()
      ensures Delivered()
    {
      hide Pending;
      hide Loaded;
      hide Skippable;
      hide Carried;
      hide Layout.Stream;
      var n: nat := cycle + 1;
      assert history <= layout.Stream(n);
    }

    /** Nothing pending in a pool that does not start over means that everything was handed out. */
    lemma EndIsTrue()
      requires Ready()
      ensures Pending() == [] && !layout.reuse ==> history == layout.CycleLines(0)
    {
      hide Pending;
      hide Loaded;
      hide Skippable;
      hide Carried;
      hide Layout.CycleLines;
      if Pending() == [] && !layout.reuse {
        StreamStep(layout, 0);
      }
    }

    /** Loads the next block unless it lies inside a line already handed out. */
    method VisitBlock() returns (err: Option<Error>)
      requires Stocked() && AheadOk() && lineCursor + 1 >= count && regionBlockNext < regionBlocks
      modifies `buffer, `length, `offsets, `count, `cr, `lineCursor, `nextLine, `lineStep, `faults
      modifies `carriedBlock, `carried, `continuationStart, `continuationEnd, `regionBlockNext, buffer, offsets,
        Kernel()
      ensures Storage() && AheadOk() && (buffer == old(buffer) || fresh(buffer))
        && (offsets == old(offsets) || fresh(offsets))
      ensures err.None? ==> Stocked() && Pending() == old(Pending()) && regionBlockNext == old(regionBlockNext) + 1
      ensures err.Some? && err.value.LineTooLong? ==> SomeLongLine(layout, err.value.offset)
      ensures IsLoadError(err)
      ensures Excused(err, old(faults))
      ensures err.Some? && err.value.LineTooLong? ==> !Short(layout, old(Pending()))
    {
      hide Positioned;
      hide RemainingBlocks;
      hide Loaded;
      hide Current;
      hide Flat;
      hide Carried;
      hide Layout.BlockOrder;
      hide LongLineOf;
      hide Layout.BlockLines;
      err := None;
      NothingCurrent();
      ghost var before := RemainingBlocks();
      var block := TakeBlock();
      FlatHead(layout.Deliver(cycleSeed), block, RemainingBlocks());
      if continuationStart <= block < continuationEnd {
        SkippedBlock(layout, cycleSeed, block);
        NothingCurrent();
      } else {
        LongBlockPending(layout, cycleSeed, block, Flat(layout.Deliver(cycleSeed), RemainingBlocks()));
        assert old(Pending())
            == layout.BlockOrder(cycleSeed, block) + Flat(layout.Deliver(cycleSeed), RemainingBlocks());
        err := LoadBlock(block);
      }
    }

    lemma NothingCurrent()
      requires Sized() && lineCursor + 1 >= count
      ensures Current() == []
    {
    }

    /** Moves on to the next region; what is pending stays pending. */
    method StepRegion() returns (err: Option<Error>)
      requires Stocked() && regionCursor < layout.RegionsForShard() && regionBlockNext == regionBlocks
      modifies `regionCursor, `nextRegion, `regionBlockBase, `regionBlocks, `regionBlockNext, `regionRotation,
        `region, `faults
      ensures Storage()
      ensures err.None? ==> Stocked() && Pending() == old(Pending()) && regionCursor == old(regionCursor) + 1
      ensures IsLoadError(err) && (err.Some? ==> !err.value.LineTooLong?)
      ensures Excused(err, old(faults))
    {
      hide Positioned;
      hide RemainingBlocks;
      hide Loaded;
      hide Current;
      hide Flat;
      hide Carried;
      hide Skippable;
      err := None;
      if regionCursor > 0 && regionCursor % layout.regionsPerCheck == 0 {
        err := ValidateSource();
      }
      if err.None? {
        EnterNextRegion();
      }
    }

    /** At the end of a cycle: the end, or another cycle if this one handed out anything. */
    method FinishCycle() returns (err: Option<Error>)
      requires Ready() && lineCursor + 1 >= count && regionBlockNext == regionBlocks
        && regionCursor == layout.RegionsForShard()
      modifies `cycle, `cycleStartCursor, `cycleSeed, `regionCursor, `regionBlockNext, `regionBlocks,
        `continuationStart, `faults
      modifies `continuationEnd, `lineCursor, `nextLine, `count, `cr, `nextRegion, `regionAdvance
      ensures Storage() && old(Pending()) == []
      ensures err.None? ==> Ready() && layout.reuse && cycle == old(cycle) + 1 && count == 0
      ensures err.None? ==> Pending() == layout.CycleLines(cycle) && cycleStartCursor == cursor > old(cycleStartCursor)
      ensures err == Some(EndOfFile) && layout.reuse ==> layout.file == []
      ensures err != Some(Closed) && (err.Some? ==> !err.value.LineTooLong?)
      ensures Excused(err, old(faults))
    {
      hide Positioned;
      hide Loaded;
      hide Carried;
      hide Skippable;
      hide Pending;
      hide Current;
      hide RemainingBlocks;
      hide Layout.ShardBlocks;
      hide Layout.CycleLines;
      hide Balanced;
      NothingPending();
      CycleIsOver();
      err := ValidateSource();
      if err.None? {
        if !layout.reuse || |layout.file| == 0 || cursor == cycleStartCursor {
          err := Some(EndOfFile);
        } else {
          StartCycle(cycle + 1);
          CycleHasBegun();
        }
      }
    }

    /** At its end a cycle has handed out all it had; a cycle that handed out nothing had nothing. */
    lemma CycleIsOver()
      requires Ready() && Pending() == []
      ensures Storage() && Counted() && history == layout.Stream(cycle + 1)
      ensures layout.reuse && cursor == cycleStartCursor ==> layout.file == []
    {
      hide Layout.Stream;
      hide Pending;
      hide Positioned;
      hide Loaded;
      hide Skippable;
      hide Carried;
      assert history == layout.Stream(cycle + 1);
      CycleSpent(layout, cycle, history, cycleStartCursor);
    }

    lemma CycleHasBegun()
      requires Storage() && Positioned() && Loaded() && Skippable(layout, continuationStart, continuationEnd)
      requires Current() == [] && RemainingBlocks() == layout.ShardBlocks(cycleSeed)
      requires cycleStartCursor == cursor == |history| && history == layout.Stream(cycle)
        && (!layout.reuse ==> cycle == 0)
      ensures Ready() && Pending() == layout.CycleLines(cycle)
    {
      hide Layout.CycleLines;
      hide Layout.Stream;
      hide Loaded;
      hide Skippable;
      hide Carried;
      AllPending();
      StreamStep(layout, cycle);
    }

    lemma InBounds()
      requires Positioned()
      ensures regionCursor <= layout.RegionsForShard() && regionBlockNext <= regionBlocks
    {
    }

    lemma NothingPending()
      requires Stocked() && lineCursor + 1 >= count && regionBlockNext == regionBlocks
        && regionCursor == layout.RegionsForShard()
      ensures Pending() == []
    {
      assert layout.ShardRegions(cycleSeed)[regionCursor..] == [];
    }

    lemma AllPending()
      requires Stocked() && Current() == [] && RemainingBlocks() == layout.ShardBlocks(cycleSeed)
      ensures Pending() == layout.CycleLines(cycle)
    {
    }

    /** The rest of the schedule is unchanged, or it was empty and another cycle has begun. */
    ghost predicate Continues(cycleBefore: nat, pendingBefore: seq<seq<byte>>)
      requires Sized() && Positioned()
      reads this, buffer, offsets
    {
      || (cycle == cycleBefore && Pending() == pendingBefore)
      || (cycle == cycleBefore + 1 && pendingBefore == [] && layout.reuse && Pending() == layout.CycleLines(cycle)
          && cursor == cycleStartCursor)
    }

    /** Visits blocks until one owns a line. */
    method LoadNextBlock() returns (err: Option<Error>)
      requires Ready() && AheadOk() && lineCursor + 1 >= count
      modifies this, buffer, offsets, Kernel()
      ensures Storage() && AheadOk() && ahead == old(ahead) && (buffer == old(buffer) || fresh(buffer))
        && (offsets == old(offsets) || fresh(offsets))
      ensures history == old(history) && cursor == old(cursor) && terminal == old(terminal) && closed == old(closed)
      ensures err.None? ==> Ready() && lineCursor + 1 < count && Continues(old(cycle), old(Pending()))
      ensures err == Some(EndOfFile) ==> old(Pending()) == [] && (layout.reuse ==> layout.file == [])
      ensures err.Some? && err.value.LineTooLong? ==> SomeLongLine(layout, err.value.offset)
      ensures err != Some(Closed)
      ensures Excused(err, old(faults))
      ensures err.Some? && err.value.LineTooLong? ==> TooLongAhead(layout, old(cycle), old(Pending()))
    {
      hide Positioned;
      hide Loaded;
      hide Carried;
      hide Skippable;
      hide Pending;
      hide SomeLongLine;
      hide Layout.CycleLines;
      hide BufferLimit;
      hide OffsetLimit;
      err := None;
      ghost var cycle0, pending0 := cycle, Pending();
      while err.None? && lineCursor + 1 >= count
        invariant Storage() && (buffer == old(buffer) || fresh(buffer)) && (offsets == old(offsets) || fresh(offsets))
        invariant history == old(history) && cursor == old(cursor) && terminal == old(terminal) && closed == old(closed)
        invariant err.None? ==> Ready() && Continues(cycle0, pending0)
        invariant err == Some(EndOfFile) ==> pending0 == [] && (layout.reuse ==> layout.file == [])
        invariant err.Some? && err.value.LineTooLong? ==> SomeLongLine(layout, err.value.offset)
        invariant err.Some? && err.value.LineTooLong? ==> TooLongAhead(layout, cycle0, pending0)
        invariant err != Some(Closed) && AheadOk() && ahead == old(ahead) && Excused(err, old(faults))
        decreases err.None?, cursor - cycleStartCursor, layout.RegionsForShard() - regionCursor,
          regionBlocks - regionBlockNext
      {
        InBounds();
        err := Advance();
      }
    }

    twostate lemma StillBalanced()
      requires old(Ready()) && Stocked() && Pending() == old(Pending())
      requires unchanged(`history, `cursor, `cycle, `cycleStartCursor)
      ensures Ready()
    {
      hide Loaded;
      hide Pending;
      hide Positioned;
      hide Skippable;
      hide Carried;
      hide Layout.Stream;
    }

    /** One step of the schedule: a block, a region, or the end of the cycle. */
    method Advance() returns (err: Option<Error>)
      requires Ready() && AheadOk() && lineCursor + 1 >= count
      modifies this, buffer, offsets, Kernel()
      ensures Storage() && AheadOk() && ahead == old(ahead) && (buffer == old(buffer) || fresh(buffer))
        && (offsets == old(offsets) || fresh(offsets))
      ensures history == old(history) && cursor == old(cursor) && terminal == old(terminal) && closed == old(closed)
      ensures err.None? ==> Ready()
      ensures err.None? && cycle == old(cycle) ==>
        Pending() == old(Pending()) && cycleStartCursor == old(cycleStartCursor)
      ensures err.None? && cycle != old(cycle) ==> cycle == old(cycle) + 1 && old(Pending()) == [] && layout.reuse
      ensures err.None? && cycle != old(cycle) ==> Pending() == layout.CycleLines(cycle)
      ensures err.None? && cycle != old(cycle) ==> old(cycleStartCursor) < cycleStartCursor == cursor
      ensures err.None? ==>
        || old(cycleStartCursor) < cycleStartCursor
        || (old(cycleStartCursor) == cycleStartCursor && old(regionCursor) < regionCursor)
        || (old(cycleStartCursor) == cycleStartCursor && old(regionCursor) == regionCursor
            && old(regionBlocks) == regionBlocks && old(regionBlockNext) < regionBlockNext)
      ensures err == Some(EndOfFile) ==> old(Pending()) == [] && (layout.reuse ==> layout.file == [])
      ensures err.Some? && err.value.LineTooLong? ==> SomeLongLine(layout, err.value.offset)
      ensures err != Some(Closed)
      ensures Excused(err, old(faults))
      ensures err.Some? && err.value.LineTooLong? ==> !Short(layout, old(Pending()))
    {
      hide Positioned;
      hide Loaded;
      hide Carried;
      hide Skippable;
      hide Pending;
      hide SomeLongLine;
      hide Layout.CycleLines;
      hide BufferLimit;
      hide OffsetLimit;
      hide Balanced;
      hide AheadOk;
      hide Short;
      hide Current;
      hide Delivered;
      hide Layout.RegionsForShard;
      hide Layout.Stream;
      InBounds();
      if regionBlockNext < regionBlocks {
        err := VisitBlock();
        if err.None? {
          StillBalanced();
        }
      } else if regionCursor == layout.RegionsForShard() {
        err := FinishCycle();
      } else {
        err := StepRegion();
        if err.None? {
          StillBalanced();
        }
      }
    }

    /** What a call hands out comes off the front of what was pending, possibly after starting another cycle. */
    ghost predicate Hands(cycleBefore: nat, pendingBefore: seq<seq<byte>>, lines: seq<seq<byte>>)
      requires Sized() && Positioned()
      reads this, buffer, offsets
    {
      || (cycle == cycleBefore && pendingBefore == lines + Pending())
      || (cycle == cycleBefore + 1 && pendingBefore == [] && layout.reuse
        && layout.CycleLines(cycle) == lines + Pending())
    }

    // ----- the calls -----

    /** A pool over an opened file. */
    constructor (source: Layout)
      requires source.Valid()
      ensures Begun() && layout == source && ahead == null && faults == 0 && fresh(buffer) && fresh(offsets)
    {
      layout := source;
      terminal, closed := None, false;
      buffer, length, offsets, count, cr := new byte[0], 0, new uint32[0], 0, false;
      carriedBlock, carried := 0, 0;
      regionBlockBase, regionRotation, lineStep := 0, 0, 0;
      cursor, history, faults := 0, [], 0;
      prefetching, ahead := false, null;
      new;
      hide Begun;
      NothingCarried(layout);
      Rewind();
    }

    /** Part of opening where prefetching is asked for: some platforms keep reads in flight. */
    method OpenPrefetch()
      requires Begun() && ahead == null
      modifies `ahead, `prefetching
      ensures Begun() && fresh(Kernel())
    {
      hide Pending;
      hide Loaded;
      hide Skippable;
      hide Positioned;
      hide Carried;
      hide Layout.Stream;
      hide Layout.CycleLines;
      hide SomeLongLine;
      var available: bool := *;
      if available {
        ahead := new Ahead(layout);
      }
      prefetching := true;
    }

    /** Nothing was handed out yet, and all of the first cycle is pending. */
    ghost predicate Begun()
      reads this, buffer, offsets, Kernel()
    {
      Valid() && IsOpen() && Ready() && history == [] && cycle == 0 && Pending() == layout.CycleLines(0)
    }

    /** Back to the start of the first cycle. What the buffers and the carried byte hold does not matter. */
    method Rewind()
      requires Storage() && AheadOk() && !closed
      modifies this
      ensures buffer == old(buffer) && offsets == old(offsets) && ahead == old(ahead) && faults == old(faults)
      ensures Begun()
    {
      hide Positioned;
      hide Loaded;
      hide Carried;
      hide Skippable;
      hide Pending;
      hide Current;
      hide RemainingBlocks;
      hide Layout.ShardBlocks;
      hide Layout.CycleLines;
      hide Layout.Stream;
      hide Begun;
      hide Balanced;
      hide BufferLimit;
      hide OffsetLimit;
      cursor, history := 0, [];
      terminal := None;
      StartCycle(0);
      FirstCycle();
    }

    lemma FirstCycle()
      requires Storage() && Positioned() && Loaded() && Skippable(layout, continuationStart, continuationEnd)
      requires Current() == [] && RemainingBlocks() == layout.ShardBlocks(cycleSeed)
      requires AheadOk() && IsOpen() && history == [] && cycle == cycleStartCursor == cursor == 0
      ensures Begun()
    {
      hide Positioned;
      hide Loaded;
      hide Carried;
      hide Skippable;
      hide Pending;
      hide Current;
      hide RemainingBlocks;
      hide Layout.ShardBlocks;
      hide Layout.CycleLines;
      hide Layout.Stream;
      hide Begun;
      StreamStep(layout, 0);
      CycleHasBegun();
      NowBegun();
    }

    lemma NowBegun()
      requires Ready() && AheadOk() && IsOpen() && history == [] && cycle == 0 && Pending() == layout.CycleLines(0)
      ensures Begun()
    {
      hide Pending;
      hide Positioned;
      hide Loaded;
      hide Carried;
      hide Skippable;
      hide Balanced;
      hide Delivered;
      hide Layout.CycleLines;
      ReadyDelivers();
    }

    /** Rewinds after checking the source: the pool then behaves like a freshly opened one. */
    method Reset() returns (err: Option<Error>)
      requires Valid()
      modifies this
      ensures buffer == old(buffer) && offsets == old(offsets) && ahead == old(ahead)
      ensures Valid() && closed == old(closed)
      ensures closed ==> err == Some(Closed) && history == old(history)
      ensures !closed && err.Some? ==> terminal == err && history == old(history)
      ensures err.None? ==> Begun()
      ensures !closed ==> (err.None? <==> faults == old(faults))
      ensures faults >= old(faults)
    {
      hide Ready;
      hide SomeLongLine;
      hide Layout.CycleLines;
      hide Carried;
      if closed {
        return Some(Closed);
      }
      err := ValidateSource();
      if err.Some? {
        terminal := err;
        return;
      }
      Rewind();
    }

    /** Releases the buffers. Every later call reports that the pool is closed. */
    method Close()
      requires Valid()
      modifies this
      ensures Valid() && closed && history == old(history)
      ensures buffer == old(buffer) || fresh(buffer)
      ensures offsets == old(offsets) || fresh(offsets)
    {
      hide Delivered;
      hide Carried;
      hide Ready;
      hide Truthful;
      if closed {
        return;
      }
      closed, terminal := true, None;
      ahead, prefetching := null, false;
      Release();
      ClosedIsValid();
    }

    method Release()
      requires Storage()
      modifies `buffer, `length, `offsets, `count
      ensures Storage() && fresh(buffer) && fresh(offsets)
    {
      hide Carried;
      buffer, length, offsets, count := new byte[0], 0, new uint32[0], 0;
    }

    lemma ClosedIsValid()
      requires Storage() && ahead == null && |history| == cursor && Delivered() && closed
      ensures Valid()
    {
      hide Carried;
      hide Delivered;
    }

    /** The bytes of a line of the loaded block without its ending. */
    method LineOf(index: nat) returns (line: seq<byte>)
      requires Sized() && Loaded() && index + 1 < count
      ensures line == Cut(Data(), Offsets())[index] && |line| <= layout.maxLineBytes
    {
      hide Cut;
      TrimIsContent(Data(), Offsets(), cr, index);
      assert offsets[index] == Offsets()[index] && offsets[index + 1] == Offsets()[index + 1];
      var start, end := offsets[index] as nat, offsets[index + 1] as nat;
      line := buffer[..length][start..end - 1];
      if cr && |line| > 0 && line[|line| - 1] == CR {
        line := line[..|line| - 1];
      }
    }

    /** Moves the walk over the loaded lines on by one. */
    method StepLine() returns (index: nat)
      requires Sized() && Loaded() && lineCursor + 1 < count
      modifies `lineCursor, `nextLine
      ensures Loaded() && index + 1 < count && lineCursor == old(lineCursor) + 1
      ensures old(Current()) == [Cut(Data(), Offsets())[index]] + Current()
    {
      hide WellCut;
      hide Cut;
      hide Gather;
      hide Walk;
      hide Short;
      hide WhenNegative;
      LimitsFit(layout);
      var lines := count - 1;
      index := nextLine;
      TakeStep(Cut(Data(), Offsets()), index, lines - lineStep, lines, lines - lineCursor);
      var after := index - (lines - lineStep);
      nextLine := after + WhenNegative(after, lines);
      lineCursor := lineCursor + 1;
    }

    /** Counts lines that have just left what was pending. */
    method CountLines(n: nat, ghost lines: seq<seq<byte>>)
      requires Stocked() && Counted() && n == |lines| && (!layout.reuse ==> cycle == 0)
      requires history + (lines + Pending()) == layout.Stream(cycle + 1)
        && history[..cycleStartCursor] == layout.Stream(cycle)
      modifies `cursor, `history
      ensures Ready() && history == old(history) + lines
    {
      hide Positioned;
      hide Loaded;
      hide Pending;
      hide Carried;
      hide Skippable;
      hide Layout.Stream;
      HandedOut(history, lines + Pending(), lines, Pending(), cycleStartCursor);
      cursor := cursor + n;
      history := history + lines;
    }

    /** Hands out the next line of the loaded block. */
    method TakeLine() returns (line: seq<byte>)
      requires Ready() && lineCursor + 1 < count
      modifies `lineCursor, `nextLine, `cursor, `history
      ensures Ready() && history == old(history) + [line] && old(Pending()) == [line] + Pending()
      ensures |line| <= layout.maxLineBytes
    {
      hide Positioned;
      hide Loaded;
      hide Current;
      hide RemainingBlocks;
      hide Carried;
      hide Skippable;
      hide Flat;
      hide Cut;
      hide Layout.Stream;
      ghost var pending := Pending();
      var index := StepLine();
      line := LineOf(index);
      assert pending == [line] + Pending();
      CountLines(1, [line]);
    }

    /** Hands out the next line, loading blocks as needed; one successful load always brings a line. */
    method NextLine() returns (line: seq<byte>, err: Option<Error>)
      requires Ready() && AheadOk()
      modifies this, buffer, offsets, Kernel()
      ensures Storage() && AheadOk() && ahead == old(ahead) && (buffer == old(buffer) || fresh(buffer))
        && (offsets == old(offsets) || fresh(offsets))
      ensures terminal == old(terminal) && closed == old(closed) && |history| == cursor
      ensures history == if err.None? then old(history) + [line] else old(history)
      ensures err.None? ==> Ready() && Hands(old(cycle), old(Pending()), [line]) && |line| <= layout.maxLineBytes
      ensures err == Some(EndOfFile) ==> old(Pending()) == [] && (layout.reuse ==> layout.file == [])
      ensures err.Some? && err.value.LineTooLong? ==> SomeLongLine(layout, err.value.offset)
      ensures err != Some(Closed)
      ensures Excused(err, old(faults))
      ensures err.Some? && err.value.LineTooLong? ==> TooLongAhead(layout, old(cycle), old(Pending()))
    {
      hide Positioned;
      hide Loaded;
      hide Pending;
      hide Carried;
      hide Skippable;
      hide SomeLongLine;
      hide Balanced;
      hide Layout.CycleLines;
      hide BufferLimit;
      hide OffsetLimit;
      line, err := [], None;
      if lineCursor + 1 >= count {
        err := LoadNextBlock();
        if err.Some? {
          return;
        }
      }
      line := TakeLine();
    }

    /** `Next`: the next line, or an error that sticks until a successful `Reset`. */
    method Next() returns (line: seq<byte>, err: Option<Error>)
      requires Valid()
      modifies this, buffer, offsets, Kernel()
      ensures Valid() && (buffer == old(buffer) || fresh(buffer)) && (offsets == old(offsets) || fresh(offsets))
      ensures closed == old(closed)
      ensures closed ==> err == Some(Closed)
      ensures !closed && old(terminal).Some? ==> err == old(terminal)
      ensures !closed ==> terminal == err
      ensures history == if err.None? then old(history) + [line] else old(history)
      ensures err.None? ==> |line| <= layout.maxLineBytes
      ensures old(IsOpen()) && err.None? ==> Hands(old(cycle), old(Pending()), [line])
      ensures ahead == old(ahead) && (if old(IsOpen()) then Excused(err, old(faults)) else faults == old(faults))
      ensures old(IsOpen()) && err == Some(EndOfFile) ==> old(Pending()) == [] && (layout.reuse ==> layout.file == [])
      ensures old(IsOpen()) && err.Some? && err.value.LineTooLong? ==> TooLongAhead(layout, old(cycle), old(Pending()))
    {
      hide Positioned;
      hide Loaded;
      hide Pending;
      hide Carried;
      hide Skippable;
      hide SomeLongLine;
      hide Balanced;
      hide Delivered;
      hide Hands;
      hide Layout.CycleLines;
      hide BufferLimit;
      hide OffsetLimit;
      if closed {
        return [], Some(Closed);
      }
      if terminal.Some? {
        return [], terminal;
      }
      EndIsTrue();
      line, err := NextLine();
      if err.Some? {
        terminal := err;
      } else {
        ReadyDelivers();
      }
    }

    /** The pool and a batch share no storage. */
    ghost predicate Apart(batch: Batch)
      reads `buffer, `offsets, batch`buffer, batch`offsets
    {
      && buffer != batch.buffer && offsets != batch.offsets
      && buffer as object != batch.offsets && offsets as object != batch.buffer
    }

    /** Takes storage from elsewhere and forgets the loaded block. */
    method Adopt(data: array<byte>, ends: array<uint32>)
      requires Storage() && data as object != ends
      requires data.Length <= BufferLimit(layout) && ends.Length <= OffsetLimit(layout)
      modifies `buffer, `length, `offsets, `count, `lineCursor, `nextLine, `cr
      ensures Storage() && Loaded() && Current() == [] && buffer == data && offsets == ends
    {
      hide Carried;
      buffer, length, offsets, count := data, 0, ends, 0;
      lineCursor, nextLine, cr := 0, 0, false;
      NothingLoaded();
    }

    /** Swaps storage with a batch: it takes the loaded block, the pool takes what the batch held. */
    method HandOver(batch: Batch)
      requires Storage() && Loaded() && lineCursor + 1 < count && batch.Valid() && Apart(batch)
      requires batch.buffer.Length <= BufferLimit(layout) && batch.offsets.Length <= OffsetLimit(layout)
      modifies `buffer, `length, `offsets, `count, `lineCursor, `nextLine, `cr, batch
      ensures Storage() && Loaded() && Current() == [] && batch.Valid() && Apart(batch)
      ensures buffer == old(batch.buffer) && offsets == old(batch.offsets)
      ensures batch.buffer == old(buffer) && batch.offsets == old(offsets)
      ensures batch.Rest() == old(Current()) && batch.remaining == old(count) - 1 - old(lineCursor)
    {
      hide Carried;
      hide WellCut;
      hide Cut;
      hide Gather;
      hide Walk;
      hide Short;
      var data, ends := batch.buffer, batch.offsets;
      batch.Fill(buffer, length, offsets, count, cr, nextLine, lineStep, lineCursor);
      Adopt(data, ends);
    }

    lemma CurrentIsShort()
      requires Sized() && Loaded()
      ensures Short(layout, Current())
    {
      hide WellCut;
      hide Cut;
    }

    /** Hands out all that remains of the loaded block. */
    method DeliverBlock(batch: Batch)
      requires Ready() && lineCursor + 1 < count && batch.Valid() && Apart(batch)
      requires batch.buffer.Length <= BufferLimit(layout) && batch.offsets.Length <= OffsetLimit(layout)
      modifies `buffer, `length, `offsets, `count, `lineCursor, `nextLine, `cr, `cursor, `history, batch
      ensures Ready() && batch.Valid() && Apart(batch)
      ensures buffer == old(batch.buffer) && offsets == old(batch.offsets)
      ensures batch.buffer == old(buffer) && batch.offsets == old(offsets)
      ensures history == old(history) + batch.Rest() && old(Pending()) == batch.Rest() + Pending() && batch.Rest() != []
      ensures Short(layout, batch.Rest())
    {
      hide Positioned;
      hide Loaded;
      hide Current;
      hide RemainingBlocks;
      hide Carried;
      hide Skippable;
      hide Flat;
      hide Layout.Stream;
      hide Short;
      hide Batch.Rest;
      hide Batch.Valid;
      ghost var pending := Pending();
      CurrentIsShort();
      HandOver(batch);
      assert pending == batch.Rest() + Pending();
      hide Pending;
      CountLines(batch.remaining, batch.Rest());
    }

    /** Reading ahead changes nothing of what is pending. */
    method ReadAheadReady()
      requires Ready() && AheadOk()
      modifies `prefetching, Kernel()
      ensures Ready() && AheadOk() && Pending() == old(Pending())
    {
      hide Pending;
      hide Positioned;
      hide Loaded;
      hide Skippable;
      hide Carried;
      hide Balanced;
      hide AheadOk;
      hide BufferLimit;
      hide OffsetLimit;
      ghost var log := ReadAhead();
      StillBalanced();
    }

    /** Hands out the rest of the loaded block, or of the next one that owns a line. */
    method NextBlock(batch: Batch) returns (err: Option<Error>)
      requires Ready() && AheadOk() && batch.Valid() && batch.remaining == 0 && Apart(batch)
      requires batch.buffer.Length <= BufferLimit(layout) && batch.offsets.Length <= OffsetLimit(layout)
      modifies this, buffer, offsets, batch, Kernel()
      ensures Storage() && AheadOk() && ahead == old(ahead) && batch.Valid() && Apart(batch)
      ensures buffer in {old(buffer), old(batch.buffer)} || fresh(buffer)
      ensures offsets in {old(offsets), old(batch.offsets)} || fresh(offsets)
      ensures batch.buffer in {old(buffer), old(batch.buffer)} || fresh(batch.buffer)
      ensures batch.offsets in {old(offsets), old(batch.offsets)} || fresh(batch.offsets)
      ensures terminal == old(terminal) && closed == old(closed) && |history| == cursor
      ensures history == old(history) + batch.Rest() && (err.None? ==> Short(layout, batch.Rest()))
      ensures err.None? <==> batch.Rest() != []
      ensures err.None? ==> Ready() && Hands(old(cycle), old(Pending()), batch.Rest())
      ensures err == Some(EndOfFile) ==> old(Pending()) == [] && (layout.reuse ==> layout.file == [])
      ensures err.Some? && err.value.LineTooLong? ==> SomeLongLine(layout, err.value.offset)
      ensures err != Some(Closed)
      ensures Excused(err, old(faults))
      ensures err.Some? && err.value.LineTooLong? ==> TooLongAhead(layout, old(cycle), old(Pending()))
    {
      hide Positioned;
      hide Short;
      hide Loaded;
      hide Pending;
      hide Carried;
      hide Skippable;
      hide SomeLongLine;
      hide Balanced;
      hide Layout.CycleLines;
      hide BufferLimit;
      hide OffsetLimit;
      hide AheadOk;
      hide Current;
      hide Delivered;
      hide Layout.Stream;
      err := None;
      if lineCursor + 1 >= count {
        ReadAheadReady();
        err := LoadNextBlock();
        if err.Some? {
          return;
        }
      }
      DeliverBlock(batch);
    }

    /**
     `NextBatch`: the rest of the current block, or the next block. What the batch held becomes the
     pool's storage if it is within the pool's limits.
     */
    method NextBatch(batch: Batch) returns (err: Option<Error>)
      requires Valid() && batch.Valid() && Apart(batch)
      modifies this, buffer, offsets, Kernel(), batch, batch.buffer, batch.offsets
      ensures Valid() && batch.Valid() && Apart(batch)
      ensures buffer in {old(buffer), old(batch.buffer)} || fresh(buffer)
      ensures offsets in {old(offsets), old(batch.offsets)} || fresh(offsets)
      ensures batch.buffer in {old(buffer), old(batch.buffer)} || fresh(batch.buffer)
      ensures batch.offsets in {old(offsets), old(batch.offsets)} || fresh(batch.offsets)
      ensures closed == old(closed)
      ensures closed ==> err == Some(Closed)
      ensures !closed && old(terminal).Some? ==> err == old(terminal)
      ensures !closed ==> terminal == err
      ensures err.None? <==> batch.Rest() != []
      ensures history == old(history) + batch.Rest() && (err.None? ==> Short(layout, batch.Rest()))
      ensures old(IsOpen()) && err.None? ==> Hands(old(cycle), old(Pending()), batch.Rest())
      ensures ahead == old(ahead) && (if old(IsOpen()) then Excused(err, old(faults)) else faults == old(faults))
      ensures old(IsOpen()) && err == Some(EndOfFile) ==> old(Pending()) == [] && (layout.reuse ==> layout.file == [])
      ensures old(IsOpen()) && err.Some? && err.value.LineTooLong? ==> TooLongAhead(layout, old(cycle), old(Pending()))
    {
      hide Ready;
      hide Truthful;
      hide Pending;
      hide Positioned;
      hide Carried;
      hide Delivered;
      hide Hands;
      hide Short;
      hide TooLongAhead;
      batch.remaining := 0;
      if closed {
        return Some(Closed);
      }
      if terminal.Some? {
        return terminal;
      }
      batch.Fit(BufferLimit(layout), OffsetLimit(layout));
      hide BufferLimit;
      hide OffsetLimit;
      err := NextOpenBlock(batch);
    }

    /** `NextBlock` with an error that sticks. */
    method NextOpenBlock(batch: Batch) returns (err: Option<Error>)
      requires Valid() && IsOpen() && batch.Valid() && batch.remaining == 0 && Apart(batch)
      requires batch.buffer.Length <= BufferLimit(layout) && batch.offsets.Length <= OffsetLimit(layout)
      modifies this, buffer, offsets, Kernel(), batch
      ensures Valid() && batch.Valid() && Apart(batch)
      ensures buffer in {old(buffer), old(batch.buffer)} || fresh(buffer)
      ensures offsets in {old(offsets), old(batch.offsets)} || fresh(offsets)
      ensures batch.buffer in {old(buffer), old(batch.buffer)} || fresh(batch.buffer)
      ensures batch.offsets in {old(offsets), old(batch.offsets)} || fresh(batch.offsets)
      ensures !closed && terminal == err && ahead == old(ahead) && Excused(err, old(faults))
      ensures err.None? <==> batch.Rest() != []
      ensures history == old(history) + batch.Rest() && (err.None? ==> Short(layout, batch.Rest()))
      ensures err.None? ==> Hands(old(cycle), old(Pending()), batch.Rest())
      ensures err == Some(EndOfFile) ==> old(Pending()) == [] && (layout.reuse ==> layout.file == [])
      ensures err.Some? && err.value.LineTooLong? ==> TooLongAhead(layout, old(cycle), old(Pending()))
    {
      hide Positioned;
      hide Short;
      hide Loaded;
      hide Pending;
      hide Carried;
      hide Skippable;
      hide SomeLongLine;
      hide Balanced;
      hide Delivered;
      hide TooLongAhead;
      hide Layout.CycleLines;
      hide BufferLimit;
      hide OffsetLimit;
      hide Hands;
      EndIsTrue();
      err := NextBlock(batch);
      if err.Some? {
        assert history == old(history);
        terminal := err;
      } else {
        ReadyDelivers();
      }
    }
  }
}
