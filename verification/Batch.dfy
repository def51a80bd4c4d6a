/** The lines of one block, handed over by a pool together with the storage that holds them. */
module Batches {
  import opened Bitmaps
  import opened Blocks
  import opened Layouts
  import opened LineIndex
  import opened Modular
  import opened Schedules
  import opened Sequences
  import opened Text

  class Batch {
    var offsets: array<uint32>
    var count: nat
    var buffer: array<byte>
    var length: nat
    var remaining: nat
    var next: nat
    var back: nat
    var lines: nat
    var cr: bool

    constructor ()
      ensures Valid() && Rest() == [] && fresh(buffer) && fresh(offsets)
    {
      offsets, buffer := new uint32[0], new byte[0];
      count, length, remaining, next, back, lines, cr := 0, 0, 0, 0, 0, 0, false;
    }

    ghost predicate Valid()
      reads this, buffer, offsets
    {
      && buffer as object != offsets && count <= offsets.Length && length <= buffer.Length
      && (remaining > 0 ==> Filled())
    }

    /** Lines remain: the storage cuts into `lines` lines and the walk over them is at `next`. */
    ghost predicate Filled()
      requires count <= offsets.Length && length <= buffer.Length
      reads this, buffer, offsets
    {
      && count == lines + 1 && WellCut(buffer[..length], offsets[..count], cr)
      && next < lines && back <= lines && remaining <= lines
    }

    ghost function All(): seq<seq<byte>>
      requires count <= offsets.Length && length <= buffer.Length
      reads `offsets, `count, `buffer, `length, buffer, offsets
    {
      Cut(buffer[..length], offsets[..count])
    }

    /** The lines not returned yet, in order. */
    ghost function Rest(): (rest: seq<seq<byte>>)
      requires Valid()
      reads this, buffer, offsets
      ensures |rest| == remaining
    {
      if remaining == 0 then [] else Gather(All(), Walk(next, lines - back, lines, remaining))
    }

    method Next() returns (line: seq<byte>, ok: bool)
      requires Valid()
      modifies `remaining, `next
      ensures Valid()
      ensures ok <==> old(Rest()) != []
      ensures ok ==> old(Rest()) == [line] + Rest()
      ensures !ok ==> Rest() == []
    {
      hide WellCut;
      hide Cut;
      hide Gather;
      hide Walk;
      hide WhenNegative;
      if remaining <= 0 {
        return [], false;
      }
      LinesFit();
      TakeStep(All(), next, back, lines, remaining);
      line := LineOf(next);
      remaining := remaining - 1;
      next := Around(next - back);
      return line, true;
    }

    /** Offsets are 32 bits wide and ascend, so there are not many. */
    lemma LinesFit()
      requires Valid() && remaining > 0
      ensures 0 < lines < 0x1_0000_0000
    {
      SplitsSpread(offsets[..count], lines);
    }

    /** An index that fell below zero comes around from the other end. */
    function Around(index: int): int
      reads `lines
    {
      index + WhenNegative(index, lines)
    }

    /** The trimmed line at an index; the byte before a line start makes the guard for empty lines needless. */
    method LineOf(index: nat) returns (line: seq<byte>)
      requires Valid() && remaining > 0 && index < lines
      ensures line == All()[index]
    {
      line := View(index, offsets[index] as nat, offsets[index + 1] as nat);
    }

    /** Lets go of storage larger than the pool may keep. */
    method Fit(bytes: nat, slots: nat)
      requires Valid() && remaining == 0
      modifies this
      ensures Valid() && remaining == 0 && buffer.Length <= bytes && offsets.Length <= slots
      ensures buffer == old(buffer) || fresh(buffer)
      ensures offsets == old(offsets) || fresh(offsets)
    {
      if buffer.Length > bytes {
        buffer, length := new byte[0], 0;
      }
      if offsets.Length > slots {
        offsets, count := new uint32[0], 0;
      }
    }

    /** Takes over a block of which `taken` lines were returned already. */
    method Fill(data: array<byte>, size: nat, ends: array<uint32>, slots: nat, hint: bool, index: nat, step: nat,
                taken: nat)
      requires data as object != ends && size <= data.Length && taken + 1 < slots <= ends.Length
      requires WellCut(data[..size], ends[..slots], hint) && index < slots - 1 && step <= slots - 1
      modifies this
      ensures Valid() && buffer == data && offsets == ends && remaining == slots - 1 - taken
      ensures Rest() == Gather(Cut(data[..size], ends[..slots]), Walk(index, step, slots - 1, slots - 1 - taken))
    {
      hide WellCut;
      hide Cut;
      hide Gather;
      hide Walk;
      buffer, length, offsets, count := data, size, ends, slots;
      next, lines := index, slots - 1;
      back, remaining, cr := lines - step, lines - taken, hint;
    }

    /**
     Iterates over the remaining lines. The loop body asks for more `keep` times and then stops, so that the lines
     it did not reach remain, or panics, so that all lines remain.
     */
    method Lines(keep: nat, panics: bool) returns (visited: seq<seq<byte>>)
      requires Valid()
      modifies `remaining, `next
      ensures Valid()
      ensures visited == old(Rest())[..Min(keep + 1, |old(Rest())|)]
      ensures Rest() == if panics && |visited| == keep + 1 then old(Rest()) else old(Rest())[|visited|..]
    {
      if lines - back == 1 && 0 < remaining <= lines - next {
        visited := Consecutive(keep, panics);
      } else {
        visited := Strided(keep, panics);
      }
    }

    /** The m-th remaining line is the one at the walk's m-th position. */
    lemma RestAt(m: nat)
      requires Valid() && m < remaining
      ensures Visit(next, lines - back, lines, m) < |All()| == lines
      ensures Rest()[m] == All()[Visit(next, lines - back, lines, m)]
    {
    }

    /** Moves to the walk's m-th position, which leaves the lines from the m-th on. */
    method Leave(index: nat, left: nat)
      requires Valid() && left <= remaining
      requires left > 0 ==> index == Visit(next, lines - back, lines, remaining - left)
      modifies `remaining, `next
      ensures Valid()
      ensures Rest() == old(Rest()[remaining - left..])
    {
      hide WellCut;
      hide Cut;
      hide Gather;
      hide Walk;
      hide Visit;
      if left > 0 {
        GatherDrop(All(), next, lines - back, lines, remaining, remaining - left);
      }
      next, remaining := index, left;
    }

    /** Lines that follow each other share their boundaries. */
    method Consecutive(keep: nat, panics: bool) returns (visited: seq<seq<byte>>)
      requires Valid() && lines - back == 1 && 0 < remaining <= lines - next
      modifies `remaining, `next
      ensures Valid()
      ensures visited == old(Rest())[..Min(keep + 1, |old(Rest())|)]
      ensures Rest() == if panics && |visited| == keep + 1 then old(Rest()) else old(Rest())[|visited|..]
    {
      hide WellCut;
      hide Cut;
      hide Gather;
      hide Walk;
      hide Visit;
      ghost var total := Rest();
      var first, all := next, remaining;
      visited := [];
      var start := offsets[first];
      var index := 0;
      while index < all && index <= keep
        invariant index <= all && index <= keep + 1 && |visited| == index
        invariant start == offsets[first + index]
        invariant visited == total[..index]
        modifies {}
      {
        var stop := offsets[first + 1 + index];
        var line := View(first + index, start as nat, stop as nat);
        RestAt(index);
        VisitConsecutive(first, lines, index);
        start := stop;
        visited := visited + [line];
        index := index + 1;
      }
      if panics && index == keep + 1 {
        return;
      }
      if index < all {
        VisitConsecutive(first, lines, index);
      }
      Leave(first + index, all - index);
    }

    /** Any other walk is taken two lines at a time, each of the two positions jumping two steps. */
    method Strided(keep: nat, panics: bool) returns (visited: seq<seq<byte>>)
      requires Valid()
      modifies `remaining, `next
      ensures Valid()
      ensures visited == old(Rest())[..Min(keep + 1, |old(Rest())|)]
      ensures Rest() == if panics && |visited| == keep + 1 then old(Rest()) else old(Rest())[|visited|..]
    {
      hide WellCut;
      hide Cut;
      hide Gather;
      hide Walk;
      hide Visit;
      hide Valid;
      hide Rest;
      hide All;
      hide WhenNegative;
      ghost var total := Rest();
      var step := lines - back;
      var twice := Around(step + step - lines);
      var backTwice := lines - twice;
      var first, second := next as int, Around(next - back);
      var left, stopped := remaining, false;
      visited := [];
      if left > 0 {
        Begins();
      }
      while left >= 2 && !stopped
        invariant remaining == |visited| + left
        invariant visited == total[..|visited|] && |visited| <= keep + 1 && (stopped <==> |visited| == keep + 1)
        invariant remaining == 0 ==> first == next
        invariant remaining > 0 ==> first == Visit(next, step, lines, |visited|)
        invariant remaining > 0 && !stopped ==> second == Visit(next, step, lines, |visited| + 1)
        modifies {}
      {
        ghost var v := |visited|;
        RestAt(v);
        RestAt(v + 1);
        var firstLine := LineOf(first);
        var secondLine := LineOf(second);
        var following := second;
        VisitTwoAhead(next, step, lines, v, twice);
        VisitTwoAhead(next, step, lines, v + 1, twice);
        first, second := Around(first - backTwice), Around(second - backTwice);
        visited := visited + [firstLine];
        if |visited| == keep + 1 {
          first, left, stopped := following, left - 1, true;
        } else {
          visited := visited + [secondLine];
          left, stopped := left - 2, |visited| == keep + 1;
        }
      }
      if left == 1 && !stopped {
        RestAt(|visited|);
        var line := LineOf(first);
        visited := visited + [line];
        first, left := second, 0;
      }
      if panics && |visited| == keep + 1 {
        return;
      }
      Leave(first, left);
    }

    /** The first two positions of the walk. */
    lemma Begins()
      requires Valid() && remaining > 0
      ensures next < lines && back <= lines && lines < offsets.Length && lines < 0x1_0000_0000
      ensures Visit(next, lines - back, lines, 0) == next
      ensures Visit(next, lines - back, lines, 1) == IndexAfter(next, back, lines)
    {
      LinesFit();
      ModUnique(next, next + 0 * (lines - back), lines, 0);
      VisitNext(next, lines - back, lines, 0);
      IndexUpdate(next, lines - back, lines);
    }

    /** The bytes between two offsets without the line ending. */
    method View(index: nat, start: nat, stop: nat) returns (line: seq<byte>)
      requires Valid() && remaining > 0 && index < lines && start == offsets[index] as nat
        && stop == offsets[index + 1] as nat
      ensures line == All()[index]
    {
      TrimIsContent(buffer[..length], offsets[..count], cr, index);
      UnguardedTrim(buffer[..length], offsets[..count], cr, index);
      var end := stop - 1;
      if cr && buffer[end - 1] == CR {
        end := end - 1;
      }
      line := buffer[..length][start..end];
    }
  }
}
