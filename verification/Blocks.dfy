/**
 One loaded block as plain sequences: a buffer that starts one byte before the block, the
 ascending offsets that cut it into lines, and the proof that the cut is the block's lines.
 */
module Blocks {
  import opened LineIndex
  import opened Text

  /** The byte at a file position; the position before the file counts as a line feed. */
  ghost function ByteAt(file: seq<byte>, p: int): byte
    requires -1 <= p < |file|
  {
    if p < 0 then LF else file[p]
  }

  /** The first `n` bytes of the buffer are the file's bytes from `origin` on. */
  ghost predicate View(buffer: seq<byte>, file: seq<byte>, origin: int, n: nat) {
    && -1 <= origin && n <= |buffer| && origin + n <= |file|
    && forall i :: 0 <= i < n ==> buffer[i] == ByteAt(file, origin + i)
  }

  // ----- cutting a buffer at offsets -----

  ghost function CutAt(buffer: seq<byte>, start: nat, end: nat): seq<byte> {
    if start <= end <= |buffer| then Content(buffer[start..end]) else []
  }

  ghost function Cut(buffer: seq<byte>, offsets: seq<uint32>): (lines: seq<seq<byte>>)
    ensures |lines| == if |offsets| == 0 then 0 else |offsets| - 1
  {
    if |offsets| == 0 then []
    else
      seq(|offsets| - 1, i requires 0 <= i < |offsets| - 1 =>
        CutAt(buffer, offsets[i] as nat, offsets[i + 1] as nat))
  }

  /** Every offset follows a line feed, and without the hint no line ends in a carriage return. */
  ghost predicate WellCut(buffer: seq<byte>, offsets: seq<uint32>, cr: bool) {
    && (forall i :: 0 <= i < |offsets| ==> 1 <= offsets[i] as int <= |buffer| && buffer[offsets[i] as int - 1] == LF)
    && (forall i, j :: 0 <= i < j < |offsets| ==> offsets[i] < offsets[j])
    && (!cr ==> forall i :: 0 < i < |offsets| && offsets[i] as int >= 2 ==> buffer[offsets[i] as int - 2] != CR)
  }

  /** The end of a line's content, as `Next` computes it. */
  function TrimmedEnd(buffer: seq<byte>, start: nat, end: nat, cr: bool): nat
    requires start < end <= |buffer|
  {
    if cr && end - 1 > start && buffer[end - 2] == CR then end - 2 else end - 1
  }

  lemma TrimIsContent(buffer: seq<byte>, offsets: seq<uint32>, cr: bool, i: nat)
    requires WellCut(buffer, offsets, cr) && i + 1 < |offsets|
    ensures offsets[i] < offsets[i + 1]
    ensures var start, end := offsets[i] as nat, offsets[i + 1] as nat;
      Cut(buffer, offsets)[i] == buffer[start..TrimmedEnd(buffer, start, end, cr)]
  {
    hide WellCut;
    hide Content;
    WellCutAt(buffer, offsets, cr, i);
    ContentTrim(buffer, offsets[i] as nat, offsets[i + 1] as nat);
  }

  lemma WellCutAt(buffer: seq<byte>, offsets: seq<uint32>, cr: bool, i: nat)
    requires WellCut(buffer, offsets, cr) && i + 1 < |offsets|
    ensures 1 <= offsets[i] < offsets[i + 1] && offsets[i + 1] as int <= |buffer|
    ensures buffer[offsets[i] as int - 1] == buffer[offsets[i + 1] as int - 1] == LF
    ensures !cr ==> buffer[offsets[i + 1] as int - 2] != CR
  {
  }

  lemma ContentTrim(buffer: seq<byte>, start: nat, end: nat)
    requires start < end <= |buffer| && buffer[end - 1] == LF
    ensures Content(buffer[start..end]) == buffer[start..TrimmedEnd(buffer, start, end, true)]
  {
    var raw := buffer[start..end];
    if |raw| >= 2 && raw[|raw| - 2] == CR {
      assert raw[..|raw| - 2] == buffer[start..end - 2];
    } else {
      assert raw[..|raw| - 1] == buffer[start..end - 1];
    }
  }

  /** The byte before a line start is a line feed, so trimming needs no guard for empty lines. */
  lemma UnguardedTrim(buffer: seq<byte>, offsets: seq<uint32>, cr: bool, i: nat)
    requires WellCut(buffer, offsets, cr) && i + 1 < |offsets|
    ensures 1 <= offsets[i] < offsets[i + 1]
    ensures var start, end := offsets[i] as nat, offsets[i + 1] as nat;
      TrimmedEnd(buffer, start, end, cr) == if cr && buffer[end - 2] == CR then end - 2 else end - 1
  {
    WellCutAt(buffer, offsets, cr, i);
  }

  // ----- splitting at line feeds -----

  /** `offsets` cuts `[from, to)` exactly after each of its line feeds. */
  ghost predicate Splits(buffer: seq<byte>, offsets: seq<uint32>, from: nat, to: nat) {
    && |offsets| >= 1 && offsets[0] as nat == from && from <= to <= |buffer|
    && (forall i :: 0 <= i < |offsets| ==> offsets[i] as nat <= to)
    && (forall i, j :: 0 <= i < j < |offsets| ==> offsets[i] < offsets[j])
    && (forall i :: 0 < i < |offsets| ==> buffer[offsets[i] as int - 1] == LF)
    && (forall i, j :: 0 < i < |offsets| && offsets[i - 1] as int <= j < offsets[i] as int - 1 ==> buffer[j] != LF)
    && (forall j :: offsets[|offsets| - 1] as int <= j < to ==> buffer[j] != LF)
  }

  lemma {:induction false} EndsSplit(buffer: seq<byte>, from: nat, to: nat, n: nat)
    requires from + n <= to <= |buffer| && |buffer| < 0x1_0000_0000
    ensures Splits(buffer, [from as uint32] + EndsOf(buffer[from..to], from, n), from, from + n)
    decreases n
  {
    var src := buffer[from..to];
    var offsets := [from as uint32] + EndsOf(src, from, n);
    if n > 0 {
      EndsSplit(buffer, from, to, n - 1);
      var before := [from as uint32] + EndsOf(src, from, n - 1);
      if src[n - 1] == LF {
        assert offsets == before + [(from + n) as uint32];
        SplitsGrow(buffer, before, from, from + n);
      } else {
        assert offsets == before;
      }
    } else {
      assert offsets == [from as uint32];
    }
  }

  lemma SplitsGrow(buffer: seq<byte>, before: seq<uint32>, from: nat, to: nat)
    requires 0 < to <= |buffer| && to < 0x1_0000_0000
    requires Splits(buffer, before, from, to - 1) && buffer[to - 1] == LF
    ensures Splits(buffer, before + [to as uint32], from, to)
  {
  }

  lemma {:induction false} EndsConcat(src: seq<byte>, base: nat, k: nat, c: nat)
    requires k + c <= |src| && base + |src| < 0x1_0000_0000
    ensures EndsOf(src, base, k + c) == EndsOf(src, base, k) + EndsOf(src[k..], base + k, c)
    decreases c
  {
    if c > 0 {
      EndsConcat(src, base, k, c - 1);
    }
  }

  /** At most one offset per byte. */
  lemma SplitsCount(buffer: seq<byte>, offsets: seq<uint32>, from: nat, to: nat)
    requires Splits(buffer, offsets, from, to)
    ensures |offsets| + from <= to + 1
    ensures offsets[|offsets| - 1] as nat >= from + |offsets| - 1
  {
    SplitsSpread(offsets, |offsets| - 1);
  }

  lemma {:induction false} SplitsSpread(offsets: seq<uint32>, i: nat)
    requires i < |offsets| && forall i, j :: 0 <= i < j < |offsets| ==> offsets[i] < offsets[j]
    ensures offsets[i] as int >= offsets[0] as int + i
  {
    if i > 0 {
      SplitsSpread(offsets, i - 1);
    }
  }

  // ----- the cut is the block's lines -----

  /** The buffer cut from `start` to `end` is the file's line at `origin + start`. */
  ghost predicate IsLine(buffer: seq<byte>, file: seq<byte>, origin: int, start: nat, end: nat) {
    && start < end <= |buffer| && 0 <= origin + start < |file|
    && NextStart(file, origin + start) == (if origin + end < |file| then origin + end else |file|)
    && Content(buffer[start..end]) == LineAt(file, origin + start)
  }

  lemma IsLineOf(buffer: seq<byte>, file: seq<byte>, origin: int, start: nat, end: nat)
    requires View(buffer, file, origin, end) && 1 <= start < end
    requires buffer[end - 1] == LF && forall j :: start <= j < end - 1 ==> buffer[j] != LF
    ensures IsLine(buffer, file, origin, start, end)
  {
    var p, r := origin + start, origin + end;
    forall i | p <= i < r - 1
      ensures file[i] != LF
    {
      assert buffer[i - origin] == ByteAt(file, i);
    }
    assert buffer[end - 1] == ByteAt(file, r - 1);
    NextStartIs(file, p, r);
    assert buffer[start..end] == file[p..r];
  }

  lemma CutIsLines(buffer: seq<byte>, file: seq<byte>, origin: int, offsets: seq<uint32>, hi: nat)
    requires 0 < |offsets| && hi <= |file| && 0 <= origin + offsets[0] as int <= |file|
    requires forall k :: 0 <= k < |offsets| - 1 ==>
      IsLine(buffer, file, origin, offsets[k] as nat, offsets[k + 1] as nat) && origin + offsets[k] as int < hi
    requires hi <= origin + offsets[|offsets| - 1] as int
    ensures Cut(buffer, offsets) == LinesFrom(file, origin + offsets[0] as int, hi)
  {
    hide IsLine;
    hide LineAt;
    hide NextStart;
    hide Cut;
    var starts := Starts(file, origin, offsets);
    forall k: nat | k < |offsets| - 1
      ensures starts[k] < hi && NextStart(file, starts[k]) == starts[k + 1]
      ensures Cut(buffer, offsets)[k] == LineAt(file, starts[k])
    {
      CutIsLine(buffer, file, origin, offsets, k);
    }
    StartsAreLines(file, starts, Cut(buffer, offsets), hi, 0);
    assert Cut(buffer, offsets)[0..] == Cut(buffer, offsets);
  }

  ghost function Starts(file: seq<byte>, origin: int, offsets: seq<uint32>): (starts: seq<nat>)
    ensures |starts| == |offsets| && forall k :: 0 <= k < |offsets| ==> starts[k] <= |file|
  {
    seq(|offsets|, k requires 0 <= k < |offsets| =>
      var p := origin + offsets[k] as int; if p < 0 then 0 else if p < |file| then p else |file|)
  }

  lemma {:induction false} StartsAreLines(file: seq<byte>, starts: seq<nat>, lines: seq<seq<byte>>, hi: nat, i: nat)
    requires |starts| == |lines| + 1 && i <= |lines| && hi <= |file|
    requires forall k :: 0 <= k < |starts| ==> starts[k] <= |file|
    requires forall k :: 0 <= k < |lines| ==> starts[k] < hi
    requires forall k: nat :: k < |lines| ==> NextStart(file, starts[k]) == starts[k + 1]
    requires forall k :: 0 <= k < |lines| ==> lines[k] == LineAt(file, starts[k])
    requires hi <= starts[|lines|]
    ensures lines[i..] == LinesFrom(file, starts[i], hi)
    decreases |lines| - i
  {
    hide LineAt;
    if i < |lines| {
      StartsAreLines(file, starts, lines, hi, i + 1);
      assert lines[i..] == [lines[i]] + lines[i + 1..];
    }
  }

  lemma CutIsLine(buffer: seq<byte>, file: seq<byte>, origin: int, offsets: seq<uint32>, i: nat)
    requires i + 1 < |offsets| && IsLine(buffer, file, origin, offsets[i] as nat, offsets[i + 1] as nat)
    ensures 0 <= origin + offsets[i] as int < |file|
    ensures 0 <= origin + offsets[i + 1] as int
    ensures Cut(buffer, offsets)[i] == LineAt(file, origin + offsets[i] as int)
    ensures NextStart(file, origin + offsets[i] as int)
         == if origin + offsets[i + 1] as int < |file| then origin + offsets[i + 1] as int else |file|
  {
    hide Content;
    hide NextStart;
  }

  /** All lines of a split but the open one at its end. */
  lemma SplitIsLines(buffer: seq<byte>, file: seq<byte>, origin: int, offsets: seq<uint32>, from: nat, to: nat)
    requires Splits(buffer, offsets, from, to) && View(buffer, file, origin, to) && 1 <= from
    ensures forall k :: 0 <= k < |offsets| - 1 ==>
      IsLine(buffer, file, origin, offsets[k] as nat, offsets[k + 1] as nat) && origin + offsets[k] as int < origin + to
  {
    forall k | 0 <= k < |offsets| - 1
      ensures IsLine(buffer, file, origin, offsets[k] as nat, offsets[k + 1] as nat)
    {
      assert buffer[offsets[k + 1] as int - 1] == LF;
      IsLineOf(buffer, file, origin, offsets[k] as nat, offsets[k + 1] as nat);
    }
  }

  // ----- where the first owned line starts; `start` is the block's first position -----

  lemma FirstStartHere(file: seq<byte>, start: nat, buffer: seq<byte>, own: nat)
    requires own >= 1 && View(buffer, file, start - 1, own) && buffer[0] == LF
    ensures FirstStart(file, start) == start
  {
    assert buffer[0] == ByteAt(file, start - 1);
  }

  /** A line that began before the block ends after its first line feed. */
  lemma FirstStartAfter(file: seq<byte>, start: nat, buffer: seq<byte>, own: nat, first: nat)
    requires 1 <= first < own && View(buffer, file, start - 1, own)
    requires buffer[first] == LF && forall j :: 0 <= j < first ==> buffer[j] != LF
    ensures FirstStart(file, start) == start + first
  {
    assert buffer[0] == ByteAt(file, start - 1);
    forall i | start - 1 <= i < start + first - 1
      ensures file[i] != LF
    {
      assert buffer[i - (start - 1)] == ByteAt(file, i);
    }
    assert buffer[first] == ByteAt(file, start - 1 + first);
    NextStartIs(file, start - 1, start + first);
  }

  /** A block without a line feed before its last byte owns no line. */
  lemma NoStart(file: seq<byte>, start: nat, end: nat, buffer: seq<byte>)
    requires start < end <= |file| && View(buffer, file, start - 1, end - start + 1)
    requires forall j :: 0 <= j < end - start ==> buffer[j] != LF
    ensures LinesIn(file, start, end) == []
  {
    assert buffer[0] == ByteAt(file, start - 1);
    forall i | start - 1 <= i < end - 1
      ensures file[i] != LF
    {
      assert buffer[i - (start - 1)] == ByteAt(file, i);
    }
    NextStartBeyond(file, start - 1, end);
  }

  lemma BlockIsCut(file: seq<byte>, start: nat, end: nat, buffer: seq<byte>, offsets: seq<uint32>)
    requires start <= end <= |file| && 0 < |offsets|
    requires FirstStart(file, start) == start - 1 + offsets[0] as int
    requires forall k :: 0 <= k < |offsets| - 1 ==>
      IsLine(buffer, file, start - 1, offsets[k] as nat, offsets[k + 1] as nat) && start - 1 + offsets[k] as int < end
    requires end <= start - 1 + offsets[|offsets| - 1] as int
    ensures Cut(buffer, offsets) == LinesIn(file, start, end)
  {
    hide LineAt;
    hide NextStart;
    hide IsLine;
    hide Cut;
    CutIsLines(buffer, file, start - 1, offsets, end);
  }

  /** Only bytes before the end of a line decide whether the buffer holds it. */
  lemma IsLinePrefix(b: seq<byte>, b': seq<byte>, file: seq<byte>, origin: int, start: nat, end: nat)
    requires IsLine(b, file, origin, start, end) && end <= |b'| && b[..end] == b'[..end]
    ensures IsLine(b', file, origin, start, end)
  {
    assert b[start..end] == b[..end][start..] == b'[..end][start..] == b'[start..end];
  }

  // ----- the last line of the file -----

  /** What terminating an unterminated line appends. */
  ghost function Ending(line: seq<byte>): seq<byte> {
    if |line| > 0 && line[|line| - 1] == CR then [CR, LF] else [LF]
  }

  /** A made-up line feed, with a made-up carriage return before it where needed, hides nothing. */
  lemma TerminatedContent(line: seq<byte>)
    requires LF !in line
    ensures Content(line + Ending(line)) == line
  {
    var raw := line + Ending(line);
    assert raw[|raw| - 1] == LF;
    if |line| > 0 && line[|line| - 1] == CR {
      assert raw[|raw| - 2] == CR && raw[..|raw| - 2] == line;
    } else if |line| > 0 {
      assert raw[|raw| - 2] == line[|line| - 1] && raw[..|raw| - 1] == line;
    } else {
      assert raw[..|raw| - 1] == line;
    }
  }

  lemma LastIsVerbatim(file: seq<byte>, p: nat)
    requires p < |file| && forall i :: p <= i < |file| ==> file[i] != LF
    ensures NextStart(file, p) == |file| && LineAt(file, p) == file[p..]
  {
    NextStartIs(file, p, |file|);
    hide NextStart;
    assert file[p..|file|] == file[p..];
    assert file[p..][|file| - p - 1] != LF;
  }

  lemma IsLastLine(data: seq<byte>, file: seq<byte>, origin: int, start: nat)
    requires 1 <= start < |data| && View(data, file, origin, |data|) && origin + |data| == |file|
    requires forall j :: start <= j < |data| ==> data[j] != LF
    ensures IsLine(data + Ending(data), file, origin, start, |data + Ending(data)|)
  {
    hide LineAt;
    hide NextStart;
    hide Content;
    var p, line := origin + start, data[start..];
    forall i | p <= i < |file|
      ensures file[i] == data[i - origin] != LF
    {
      assert data[i - origin] == ByteAt(file, i);
    }
    LastIsVerbatim(file, p);
    assert line == file[p..];
    assert line[|line| - 1] == data[|data| - 1];
    TerminatedContent(line);
    var all := data + Ending(data);
    assert all[start..|all|] == line + Ending(line);
  }

  // ----- the length limit -----

  /** The source's test on a raw line. */
  function ExceedsLineLimit(line: seq<byte>, limit: nat): bool {
    var n := |line|;
    if n <= limit then false
    else if line[n - 1] != LF then true
    else if n - 1 <= limit then false
    else n - 2 > limit || line[n - 2] != CR
  }

  /** The test measures what the pool returns: the line without its ending. */
  lemma LimitIsOnContent(line: seq<byte>, limit: nat)
    requires limit >= 1
    ensures ExceedsLineLimit(line, limit) <==> |Content(line)| > limit
  {
  }

  /** A line without a line feed in its first `limit + 2` bytes is too long, however it ends. */
  lemma UnendedIsLong(file: seq<byte>, buffer: seq<byte>, origin: int, start: nat, limit: nat)
    requires 1 <= start && start + limit + 2 <= |buffer| && View(buffer, file, origin, |buffer|)
    requires forall j :: start <= j < |buffer| ==> buffer[j] != LF
    ensures 0 <= origin + start < |file| && |LineAt(file, origin + start)| > limit
  {
    var p, q := origin + start, origin + |buffer|;
    forall i | p <= i < q
      ensures file[i] != LF
    {
      assert buffer[i - origin] == ByteAt(file, i);
    }
    if q < |file| {
      NextStartBeyond(file, p, q + 1);
    } else {
      NextStartIs(file, p, q);
      assert file[p..q][q - p - 1] == file[q - 1];
    }
  }

  /** The limit test on a line held by the buffer is the limit on the line of the file. */
  lemma LimitOnLine(file: seq<byte>, buffer: seq<byte>, origin: int, start: nat, end: nat, limit: nat)
    requires limit >= 1 && IsLine(buffer, file, origin, start, end)
    ensures ExceedsLineLimit(buffer[start..end], limit) <==> |LineAt(file, origin + start)| > limit
  {
    LimitIsOnContent(buffer[start..end], limit);
  }

  lemma LimitOnLastLine(file: seq<byte>, buffer: seq<byte>, origin: int, start: nat, end: nat, limit: nat)
    requires 1 <= start < end <= |buffer| && View(buffer, file, origin, end) && origin + end == |file|
    requires forall j :: start <= j < end ==> buffer[j] != LF
    ensures ExceedsLineLimit(buffer[start..end], limit) <==> end - start > limit
    ensures |LineAt(file, origin + start)| == end - start
  {
    var p := origin + start;
    forall i | p <= i < |file|
      ensures file[i] != LF
    {
      assert buffer[i - origin] == ByteAt(file, i);
    }
    NextStartIs(file, p, |file|);
    assert buffer[start..end][end - start - 1] == buffer[end - 1];
    assert file[p..|file|][|file| - p - 1] == file[|file| - 1];
  }

  // ----- filling and indexing the buffer -----

  lemma FetchedView(data: seq<byte>, file: seq<byte>, origin: int, skip: nat)
    requires -1 <= origin && skip <= 1 && skip <= |data| && 0 <= origin + skip && origin + |data| <= |file|
      && 0 < |data|
    requires data[skip..] == file[origin + skip..origin + |data|]
    requires skip == 1 ==> data[0] == ByteAt(file, origin)
    ensures View(data, file, origin, |data|)
  {
    forall i | 0 <= i < |data|
      ensures data[i] == ByteAt(file, origin + i)
    {
      if i >= skip {
        assert data[i] == data[skip..][i - skip];
      }
    }
  }

  lemma ViewPrefix(buffer: seq<byte>, file: seq<byte>, origin: int, n: nat, k: nat)
    requires View(buffer, file, origin, n) && k <= n
    ensures View(buffer, file, origin, k)
  {
  }

  lemma ViewCut(buffer: seq<byte>, file: seq<byte>, origin: int, k: nat)
    requires View(buffer, file, origin, |buffer|) && k <= |buffer|
    ensures View(buffer[..k], file, origin, k)
  {
  }

  lemma ReadExtends(before: seq<byte>, after: seq<byte>, file: seq<byte>, origin: int)
    requires View(before, file, origin, |before|) && before <= after && 0 <= origin + |before|
    requires origin + |after| <= |file| && after[|before|..] == file[origin + |before|..origin + |after|]
    ensures View(after, file, origin, |after|)
  {
    forall i | 0 <= i < |after|
      ensures after[i] == ByteAt(file, origin + i)
    {
      if i >= |before| {
        assert after[i] == after[|before|..][i - |before|];
      }
    }
  }

  lemma NarrowLine(data: seq<byte>, offsets: seq<uint32>, from: nat, to: nat, k: nat, largest: nat, limit: nat)
    requires Splits(data, offsets, from, to) && k < |offsets| - 1
    requires Widest(offsets, |offsets| - 1, largest) && largest <= limit + 1
    ensures !LongLine(data, offsets, k, limit)
  {
    assert Gap(offsets, k) <= largest;
    assert data[offsets[k + 1] as int - 1] == LF;
  }

  lemma SplitsBounds(data: seq<byte>, offsets: seq<uint32>, from: nat, to: nat, k: nat)
    requires Splits(data, offsets, from, to) && k + 1 < |offsets|
    ensures offsets[k] as int < offsets[k + 1] as int <= |data|
  {
  }

  /** The line at offset `k` of a cut fails the limit test. */
  ghost predicate LongLine(data: seq<byte>, offsets: seq<uint32>, k: int, limit: nat) {
    && 0 <= k < |offsets| - 1 && offsets[k] as int <= offsets[k + 1] as int <= |data|
    && ExceedsLineLimit(data[offsets[k] as int..offsets[k + 1] as int], limit)
  }

  lemma NoEnds(src: seq<byte>, base: nat)
    requires base + |src| < 0x1_0000_0000
    ensures EndsOf(src, base, 0) == []
  {
  }

  /** Without the hint no line of the cut ends in a carriage return. */
  ghost predicate Hinted(data: seq<byte>, offsets: seq<uint32>, cr: bool) {
    !cr ==> forall i :: 0 < i < |offsets| && 2 <= offsets[i] as int <= |data| ==> data[offsets[i] as int - 2] != CR
  }

  /** `IndexBlock` after the bytes before `position`; `src` is the part of the block it scans. */
  ghost predicate IndexedTo(data: seq<byte>, src: seq<byte>, lineStart: nat, position: nat, offsets: seq<uint32>,
    cr: bool) {
    && 1 <= lineStart <= position <= lineStart + |src| <= |data| && |data| < 0x1_0000_0000
    && src == data[lineStart..lineStart + |src|]
    && offsets == [lineStart as uint32] + EndsOf(src, lineStart, position - lineStart)
    && (!cr ==> forall i :: lineStart <= i < position && data[i] == LF ==> data[i - 1] != CR)
  }

  lemma IndexNothing(data: seq<byte>, src: seq<byte>, lineStart: nat, offsets: seq<uint32>)
    requires 1 <= lineStart <= lineStart + |src| <= |data| < 0x1_0000_0000
    requires src == data[lineStart..lineStart + |src|]
    requires |offsets| == 1 && offsets[0] as nat == lineStart
    ensures IndexedTo(data, src, lineStart, lineStart, offsets, false)
  {
    assert offsets == [lineStart as uint32] + [];
  }

  lemma IndexedCount(data: seq<byte>, src: seq<byte>, lineStart: nat, position: nat, offsets: seq<uint32>, cr: bool)
    requires IndexedTo(data, src, lineStart, position, offsets, cr)
    ensures 1 <= |offsets| <= position <= |data| && lineStart + |src| <= |data|
    ensures src == data[lineStart..lineStart + |src|] && lineStart <= position
  {
    EndsSplit(data, lineStart, lineStart + |src|, position - lineStart);
    hide EndsOf;
    hide Splits;
    SplitsCount(data, offsets, lineStart, position);
  }

  lemma IndexMore(data: seq<byte>, src: seq<byte>, lineStart: nat, position: nat, before: seq<uint32>, cr: bool,
                  more: seq<uint32>, consumed: nat, hint: bool)
    requires IndexedTo(data, src, lineStart, position, before, cr)
    requires position + consumed <= lineStart + |src|
    requires more == EndsOf(data[position..lineStart + |src|], position, consumed)
    requires HasCrLf(data[position..lineStart + |src|], consumed) ==> hint
    ensures IndexedTo(data, src, lineStart, position + consumed, before + more, cr || hint || data[position - 1] == CR)
  {
    hide EndsOf;
    var rest := data[position..lineStart + |src|];
    var k := position - lineStart;
    assert src[k..] == rest;
    EndsConcat(src, lineStart, k, consumed);
    HintMore(data, rest, lineStart, position, cr, consumed, hint);
    assert [lineStart as uint32] + (EndsOf(src, lineStart, k) + more) == before + more;
  }

  lemma HintMore(data: seq<byte>, rest: seq<byte>, lineStart: nat, position: nat, cr: bool, consumed: nat, hint: bool)
    requires 1 <= lineStart <= position && position + |rest| <= |data| && consumed <= |rest|
    requires rest == data[position..position + |rest|]
    requires !cr ==> forall i :: lineStart <= i < position && data[i] == LF ==> data[i - 1] != CR
    requires HasCrLf(rest, consumed) ==> hint
    ensures !(cr || hint || data[position - 1] == CR) ==>
      forall i :: lineStart <= i < position + consumed && data[i] == LF ==> data[i - 1] != CR
  {
    if !(cr || hint || data[position - 1] == CR) {
      forall i | lineStart <= i < position + consumed && data[i] == LF
        ensures data[i - 1] != CR
      {
        if i > position {
          assert rest[i - position] == LF && rest[i - position - 1] == data[i - 1];
        }
      }
    }
  }

  lemma IndexedAll(data: seq<byte>, src: seq<byte>, lineStart: nat, offsets: seq<uint32>, cr: bool)
    requires IndexedTo(data, src, lineStart, lineStart + |src|, offsets, cr)
    ensures Splits(data, offsets, lineStart, lineStart + |src|) && Hinted(data, offsets, cr)
  {
    EndsSplit(data, lineStart, lineStart + |src|, |src|);
    hide EndsOf;
    if !cr {
      forall i | 0 < i < |offsets| && 2 <= offsets[i] as int <= |data|
        ensures data[offsets[i] as int - 2] != CR
      {
        assert data[offsets[i] as int - 1] == LF;
      }
    }
  }

  // ----- an indexed block -----

  /**
   A block `[start, end)` of the file whose line feeds are indexed: `offsets` starts at the first
   line the block owns, and no complete line is over the limit.
   */
  ghost predicate Indexed(file: seq<byte>, start: nat, end: nat, limit: nat, data: seq<byte>, offsets: seq<uint32>,
                          from: nat, cr: bool) {
    && start < end <= |file| && 1 <= from && 1 <= limit
    && Splits(data, offsets, from, end - start + 1) && View(data, file, start - 1, end - start + 1)
    && data[from - 1] == LF && FirstStart(file, start) == start - 1 + from
    && Hinted(data, offsets, cr)
    && (forall k :: 0 <= k < |offsets| - 1 ==> !LongLine(data, offsets, k, limit))
  }

  ghost predicate AllShort(lines: seq<seq<byte>>, limit: nat) {
    forall k :: 0 <= k < |lines| ==> |lines[k]| <= limit
  }

  lemma IndexedLines(file: seq<byte>, start: nat, end: nat, limit: nat, data: seq<byte>, offsets: seq<uint32>,
                     from: nat, cr: bool, k: nat)
    requires Indexed(file, start, end, limit, data, offsets, from, cr) && k < |offsets| - 1
    ensures IsLine(data, file, start - 1, offsets[k] as nat, offsets[k + 1] as nat)
    ensures start - 1 + offsets[k] as int < end && offsets[k + 1] as int <= end - start + 1
    ensures |LineAt(file, start - 1 + offsets[k] as int)| <= limit
  {
    SplitIsLines(data, file, start - 1, offsets, from, end - start + 1);
    LimitOnLine(file, data, start - 1, offsets[k] as nat, offsets[k + 1] as nat, limit);
    assert !LongLine(data, offsets, k, limit);
  }

  /** A line whose bytes are all in the buffer. */
  lemma CompleteCut(file: seq<byte>, start: nat, end: nat, limit: nat, data: seq<byte>, offsets: seq<uint32>)
    requires start < end <= |file| && 0 < |offsets|
    requires FirstStart(file, start) == start - 1 + offsets[0] as int
    requires end <= start - 1 + offsets[|offsets| - 1] as int
    requires forall k: nat :: k < |offsets| - 1 ==>
      IsLine(data, file, start - 1, offsets[k] as nat, offsets[k + 1] as nat)
      && start - 1 + offsets[k] as int < end && |LineAt(file, start - 1 + offsets[k] as int)| <= limit
    ensures Cut(data, offsets) == LinesIn(file, start, end) && AllShort(Cut(data, offsets), limit)
  {
    hide LineAt;
    hide IsLine;
    hide Cut;
    hide NextStart;
    hide LinesIn;
    BlockIsCut(file, start, end, data, offsets);
    forall k: nat | k < |offsets| - 1
      ensures |Cut(data, offsets)[k]| <= limit
    {
      CutIsLine(data, file, start - 1, offsets, k);
    }
  }

  lemma IndexedWhole(file: seq<byte>, start: nat, end: nat, limit: nat, data: seq<byte>, offsets: seq<uint32>,
                     from: nat, cr: bool)
    requires Indexed(file, start, end, limit, data, offsets, from, cr)
    requires offsets[|offsets| - 1] as nat == end - start + 1
    ensures WellCut(data, offsets, cr)
    ensures Cut(data, offsets) == LinesIn(file, start, end) && AllShort(Cut(data, offsets), limit)
  {
    IndexedOffsets(file, start, end, limit, data, offsets, from, cr);
    forall k: nat | k < |offsets| - 1
      ensures IsLine(data, file, start - 1, offsets[k] as nat, offsets[k + 1] as nat)
      ensures start - 1 + offsets[k] as int < end && |LineAt(file, start - 1 + offsets[k] as int)| <= limit
    {
      IndexedLines(file, start, end, limit, data, offsets, from, cr, k);
    }
    CompleteCut(file, start, end, limit, data, offsets);
  }

  lemma IndexedOffsets(file: seq<byte>, start: nat, end: nat, limit: nat, data: seq<byte>, offsets: seq<uint32>,
                       from: nat, cr: bool)
    requires Indexed(file, start, end, limit, data, offsets, from, cr)
    ensures WellCut(data, offsets, cr) && offsets[0] as nat == from
  {
    forall i | 0 <= i < |offsets|
      ensures 1 <= offsets[i] as int <= |data| && data[offsets[i] as int - 1] == LF
    {
      assert i > 0 ==> offsets[0] < offsets[i];
    }
  }

  /** The last line was completed in a longer buffer. */
  lemma IndexedExtended(file: seq<byte>, start: nat, end: nat, limit: nat, data: seq<byte>, offsets: seq<uint32>,
                        from: nat, cr: bool,
                        longer: seq<byte>, cr': bool)
    requires Indexed(file, start, end, limit, data, offsets, from, cr) && |longer| < 0x1_0000_0000
    requires data[..end - start + 1] <= longer && offsets[|offsets| - 1] as nat < end - start + 1
    requires IsLine(longer, file, start - 1, offsets[|offsets| - 1] as nat, |longer|)
    requires |LineAt(file, start - 1 + offsets[|offsets| - 1] as int)| <= limit
    requires longer[|longer| - 1] == LF && (!cr' ==> !cr && longer[|longer| - 2] != CR)
    ensures var all := offsets + [|longer| as uint32];
      WellCut(longer, all, cr') && Cut(longer, all) == LinesIn(file, start, end) && AllShort(Cut(longer, all), limit)
  {
    hide IsLine;
    hide LineAt;
    hide WellCut;
    hide Cut;
    hide LinesIn;
    hide FirstStart;
    hide AllShort;
    hide View;
    hide Hinted;
    var own, all := end - start + 1, offsets + [|longer| as uint32];
    IndexedOffsets(file, start, end, limit, data, offsets, from, cr);
    ExtendedWellCut(data, longer, offsets, own, cr, cr');
    forall k: nat | k < |all| - 1
      ensures IsLine(longer, file, start - 1, all[k] as nat, all[k + 1] as nat)
      ensures start - 1 + all[k] as int < end && |LineAt(file, start - 1 + all[k] as int)| <= limit
    {
      if k < |offsets| - 1 {
        ExtendedLine(file, start, end, limit, data, offsets, from, cr, longer, k);
      }
    }
    CompleteCut(file, start, end, limit, longer, all);
  }

  lemma ExtendedLine(file: seq<byte>, start: nat, end: nat, limit: nat, data: seq<byte>, offsets: seq<uint32>,
                     from: nat, cr: bool,
                     longer: seq<byte>, k: nat)
    requires Indexed(file, start, end, limit, data, offsets, from, cr) && k < |offsets| - 1
    requires data[..end - start + 1] <= longer
    ensures IsLine(longer, file, start - 1, offsets[k] as nat, offsets[k + 1] as nat)
    ensures start - 1 + offsets[k] as int < end && |LineAt(file, start - 1 + offsets[k] as int)| <= limit
  {
    hide LineAt;
    hide IsLine;
    var own := end - start + 1;
    IndexedLines(file, start, end, limit, data, offsets, from, cr, k);
    hide Indexed;
    assert data[..own][..offsets[k + 1]] == longer[..own][..offsets[k + 1]];
    IsLinePrefix(data, longer, file, start - 1, offsets[k] as nat, offsets[k + 1] as nat);
  }

  lemma ExtendedWellCut(data: seq<byte>, longer: seq<byte>, offsets: seq<uint32>, own: nat, cr: bool, cr': bool)
    requires WellCut(data, offsets, cr) && 0 < |offsets| && own <= |data| && data[..own] <= longer
    requires forall i :: 0 <= i < |offsets| ==> offsets[i] as nat <= own
    requires own <= |longer| < 0x1_0000_0000 && offsets[|offsets| - 1] as nat < |longer|
    requires longer[|longer| - 1] == LF && (!cr' ==> !cr && longer[|longer| - 2] != CR)
    ensures WellCut(longer, offsets + [|longer| as uint32], cr')
  {
    assert forall i :: 0 <= i < own ==> longer[i] == data[..own][i] == data[i];
  }

  /** The line at the end of an indexed block starts in it and has not ended in it. */
  lemma IndexedOpen(file: seq<byte>, start: nat, end: nat, limit: nat, data: seq<byte>, offsets: seq<uint32>,
                    from: nat, cr: bool)
    requires Indexed(file, start, end, limit, data, offsets, from, cr)
    requires offsets[|offsets| - 1] as nat < end - start + 1
    ensures var last := offsets[|offsets| - 1] as nat;
      && 1 <= last && |offsets| <= end - start
      && (forall j :: last <= j < end - start + 1 ==> data[j] != LF)
      && StartsLine(file, start, end, start - 1 + last)
  {
    var last := offsets[|offsets| - 1] as nat;
    IndexedOffsets(file, start, end, limit, data, offsets, from, cr);
    SplitsCount(data, offsets, from, end - start + 1);
    assert data[last - 1] == ByteAt(file, start - 1 + last - 1);
  }

  /** A line starts at `p`, in `[start, end)`. */
  ghost predicate StartsLine(file: seq<byte>, start: nat, end: nat, p: int) {
    start <= p < end <= |file| && (p == 0 || file[p - 1] == LF)
  }

  /** A line that fails the limit test starts in the block and is over the limit. */
  lemma IndexedLong(file: seq<byte>, start: nat, end: nat, data: seq<byte>, offsets: seq<uint32>, from: nat,
                    limit: nat, at: nat)
    requires start < end <= |file| && 1 <= from && 1 <= limit
    requires Splits(data, offsets, from, end - start + 1) && View(data, file, start - 1, end - start + 1)
    requires data[from - 1] == LF && LongLine(data, offsets, at, limit)
    ensures StartsLine(file, start, end, start - 1 + offsets[at] as int)
    ensures |LineAt(file, start - 1 + offsets[at] as int)| > limit
  {
    hide IsLine;
    hide LineAt;
    hide NextStart;
    SplitIsLines(data, file, start - 1, offsets, from, end - start + 1);
    LimitOnLine(file, data, start - 1, offsets[at] as nat, offsets[at + 1] as nat, limit);
    hide ExceedsLineLimit;
    assert at > 0 ==> data[offsets[at] as int - 1] == LF && offsets[0] < offsets[at];
    assert data[offsets[at] as int - 1] == ByteAt(file, start - 1 + offsets[at] as int - 1);
  }
}
