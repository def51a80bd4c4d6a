/**
 The table of reads in flight. The kernel side is nondeterministic: a read may start, end at once
 at the end of the file, or be refused; a read that started may fail or come back short.
 */
module Aheads {
  import opened Layouts
  import opened Loading
  import opened Sequences
  import opened Text

  const AHEAD_DEPTH: nat := 3

  /** A read of `length` bytes at `offset`, for a block. */
  datatype Request = Request(block: nat, offset: nat, length: nat)

  datatype Outcome = Started | Ended | Refused

  /** What became of a request that was submitted. */
  datatype Submission = Submission(request: Request, outcome: Outcome)

  /** What a wait for a read brought. */
  datatype Arrival = Arrival(request: Request, read: nat, failed: bool) {
    predicate Whole() {
      !failed && read == request.length
    }
  }

  type Slots = seq<Option<Request>>

  /** The read that a block load issues when the byte before block `carried` is known. */
  function RequestFor(layout: Layout, block: nat, carried: nat): (r: Request)
    requires layout.Valid() && block < layout.BlockCount()
    ensures r.block == block && r.offset + r.length <= |layout.file|
  {
    var (readOffset, skip, ownershipEnd, readBytes) := BlockReadRange(layout, block, carried);
    Request(block, readOffset + skip, readBytes - skip)
  }

  predicate IsFor(entry: Option<Request>, block: nat) {
    entry.Some? && entry.value.block == block
  }

  ghost predicate Reading(slots: Slots, block: nat) {
    exists slot :: 0 <= slot < |slots| && IsFor(slots[slot], block)
  }

  /** No block is read into two slots, and every read stays within the file. */
  ghost predicate TableOk(layout: Layout, slots: Slots) {
    && |slots| == AHEAD_DEPTH
    && (forall i :: 0 <= i < |slots| && slots[i].Some? ==>
          slots[i].value.offset + slots[i].value.length <= |layout.file|)
    && (forall i, j :: 0 <= i < j < |slots| && slots[i].Some? ==> !IsFor(slots[j], slots[i].value.block))
  }

  /** Only blocks among the next ones are being read. */
  ghost predicate Wanted(slots: Slots, upcoming: seq<nat>) {
    forall i :: 0 <= i < |slots| && slots[i].Some? ==> slots[i].value.block in upcoming
  }

  /** The reads of other blocks are given up. */
  ghost function Kept(slots: Slots, upcoming: seq<nat>): (kept: Slots)
    ensures |kept| == |slots|
  {
    seq(|slots|, i requires 0 <= i < |slots| =>
      if slots[i].Some? && slots[i].value.block in upcoming then slots[i] else None)
  }

  lemma KeptReads(layout: Layout, slots: Slots, upcoming: seq<nat>)
    requires TableOk(layout, slots)
    ensures TableOk(layout, Kept(slots, upcoming)) && Wanted(Kept(slots, upcoming), upcoming)
    ensures forall block :: Reading(Kept(slots, upcoming), block) <==> Reading(slots, block) && block in upcoming
  {
    var kept := Kept(slots, upcoming);
    forall block | Reading(slots, block) && block in upcoming
      ensures Reading(kept, block)
    {
      var i :| 0 <= i < |slots| && IsFor(slots[i], block);
      assert IsFor(kept[i], block);
    }
  }

  /** A read started in an idle slot. */
  lemma StartedReads(layout: Layout, slots: Slots, slot: nat, request: Request)
    requires TableOk(layout, slots) && slot < |slots| && slots[slot].None? && !Reading(slots, request.block)
    requires request.offset + request.length <= |layout.file|
    ensures TableOk(layout, slots[slot := Some(request)])
    ensures forall block :: Reading(slots[slot := Some(request)], block) <==>
      Reading(slots, block) || block == request.block
  {
    var after := slots[slot := Some(request)];
    forall block | Reading(slots, block)
      ensures Reading(after, block)
    {
      var i :| 0 <= i < |slots| && IsFor(slots[i], block);
      assert IsFor(after[i], block);
    }
    assert IsFor(after[slot], request.block);
  }

  /** Four distinct numbers are more than the table has slots. */
  lemma FourAreMore(upcoming: seq<nat>, k: nat, a: nat, b: nat, c: nat)
    requires |upcoming| <= AHEAD_DEPTH && Distinct(upcoming) && k < |upcoming|
    requires a in upcoming && b in upcoming && c in upcoming && a != b && a != c && b != c
    ensures upcoming[k] in {a, b, c}
  {
    var x: nat :| x < |upcoming| && upcoming[x] == a;
    var y: nat :| y < |upcoming| && upcoming[y] == b;
    var z: nat :| z < |upcoming| && upcoming[z] == c;
  }

  /** With at most as many next blocks as slots, a block not being read leaves a slot idle. */
  lemma SlotIsFree(layout: Layout, slots: Slots, upcoming: seq<nat>, k: nat)
    requires TableOk(layout, slots) && Wanted(slots, upcoming) && |upcoming| <= AHEAD_DEPTH && Distinct(upcoming)
    requires k < |upcoming| && !Reading(slots, upcoming[k])
    ensures exists i :: 0 <= i < |slots| && slots[i].None?
  {
    if forall i :: 0 <= i < |slots| ==> slots[i].Some? {
      FourAreMore(upcoming, k, slots[0].value.block, slots[1].value.block, slots[2].value.block);
      assert false;
    }
  }

  /** The block whose load makes the byte before the k-th next block known. */
  function CarriedAt(upcoming: seq<nat>, k: nat, carried: nat): nat
    requires k <= |upcoming|
  {
    if k == 0 then carried else upcoming[k - 1] + 1
  }

  ghost predicate Existing(layout: Layout, upcoming: seq<nat>) {
    layout.Valid() && forall k :: 0 <= k < |upcoming| ==> upcoming[k] < layout.BlockCount()
  }

  /** The reads to submit for the first k next blocks: one for each that is not being read, as its load will want it. */
  ghost function Due(layout: Layout, slots: Slots, upcoming: seq<nat>, k: nat, carried: nat): seq<Request>
    requires Existing(layout, upcoming) && k <= |upcoming|
  {
    if k == 0 then []
    else
      Due(layout, slots, upcoming, k - 1, carried)
      + if Reading(slots, upcoming[k - 1]) then []
        else [RequestFor(layout, upcoming[k - 1], CarriedAt(upcoming, k - 1, carried))]
  }

  /** The due reads were submitted in order, and none of them was refused. */
  ghost predicate Submitted(due: seq<Request>, log: seq<Submission>) {
    |log| == |due| && forall i :: 0 <= i < |log| ==> log[i].request == due[i] && log[i].outcome != Refused
  }

  /** The due reads were submitted in order up to the first that was refused. */
  ghost predicate Stopped(due: seq<Request>, log: seq<Submission>) {
    && 0 < |log| <= |due| && Submitted(due[..|log| - 1], log[..|log| - 1])
    && log[|log| - 1] == Submission(due[|log| - 1], Refused)
  }

  /** The blocks being read: those that were, and those whose read was started since. */
  ghost predicate StartedSince(before: Slots, log: seq<Submission>, now: Slots) {
    forall block :: Reading(now, block) <==>
      Reading(before, block) || exists i :: 0 <= i < |log| && log[i].request.block == block && log[i].outcome == Started
  }

  lemma StartedMore(before: Slots, log: seq<Submission>, now: Slots, request: Request, outcome: Outcome, after: Slots)
    requires StartedSince(before, log, now)
    requires forall block :: Reading(after, block) <==>
      Reading(now, block) || (outcome == Started && block == request.block)
    ensures StartedSince(before, log + [Submission(request, outcome)], after)
  {
    var more := log + [Submission(request, outcome)];
    forall block
      ensures Reading(after, block) <==>
        || Reading(before, block)
        || exists i :: 0 <= i < |more| && more[i].request.block == block && more[i].outcome == Started
    {
      if Reading(now, block) && !Reading(before, block) {
        var i :| 0 <= i < |log| && log[i].request.block == block && log[i].outcome == Started;
        assert more[i] == log[i];
      }
      if outcome == Started && block == request.block {
        assert more[|log|].request.block == block && more[|log|].outcome == Started;
      }
      if i :| 0 <= i < |more| && more[i].request.block == block && more[i].outcome == Started {
        assert i < |log| ==> log[i] == more[i];
      }
    }
  }

  /** A prefix of distinct blocks says nothing about the block after it. */
  lemma NotYetDue(layout: Layout, slots: Slots, upcoming: seq<nat>, k: nat, carried: nat)
    requires Existing(layout, upcoming) && k < |upcoming| && Distinct(upcoming)
    ensures forall i :: 0 <= i < |Due(layout, slots, upcoming, k, carried)| ==>
      Due(layout, slots, upcoming, k, carried)[i].block != upcoming[k]
  {
    DueBlocks(layout, slots, upcoming, k, carried);
  }

  lemma {:induction false} DueBlocks(layout: Layout, slots: Slots, upcoming: seq<nat>, k: nat, carried: nat)
    requires Existing(layout, upcoming) && k <= |upcoming|
    ensures forall i :: 0 <= i < |Due(layout, slots, upcoming, k, carried)| ==>
      Due(layout, slots, upcoming, k, carried)[i].block in upcoming[..k]
  {
    hide RequestFor;
    if k > 0 {
      DueBlocks(layout, slots, upcoming, k - 1, carried);
      assert upcoming[..k] == upcoming[..k - 1] + [upcoming[k - 1]];
    }
  }

  /** Submitting reads for earlier blocks leaves it as it was whether the next one is being read. */
  lemma StillReading(layout: Layout, before: Slots, upcoming: seq<nat>, k: nat, carried: nat, kept: Slots,
                     log: seq<Submission>, now: Slots)
    requires Existing(layout, upcoming) && k < |upcoming| && Distinct(upcoming) && StartedSince(kept, log, now)
    requires forall block :: Reading(kept, block) <==> Reading(before, block) && block in upcoming
    requires Submitted(Due(layout, before, upcoming, k, carried), log)
    ensures Reading(now, upcoming[k]) <==> Reading(before, upcoming[k])
  {
    hide RequestFor;
    hide Due;
    NotYetDue(layout, before, upcoming, k, carried);
    assert upcoming[k] in upcoming;
  }

  /** A slot that becomes idle ends one read only. */
  lemma OthersStay(layout: Layout, slots: Slots, slot: nat, block: nat)
    requires TableOk(layout, slots) && slot < |slots| && IsFor(slots[slot], block)
    ensures !Reading(slots[slot := None], block)
    ensures forall other :: other != block ==> (Reading(slots[slot := None], other) <==> Reading(slots, other))
  {
    var after := slots[slot := None];
    forall other | other != block && Reading(slots, other)
      ensures Reading(after, other)
    {
      var i :| 0 <= i < |slots| && IsFor(slots[i], other);
      assert IsFor(after[i], other);
    }
  }

  /** The next block is due if it is not being read; what is due for more blocks only comes after. */
  lemma {:induction false} DueGrows(layout: Layout, slots: Slots, upcoming: seq<nat>, k: nat, n: nat, carried: nat)
    requires Existing(layout, upcoming) && k <= n <= |upcoming|
    ensures Due(layout, slots, upcoming, k, carried) <= Due(layout, slots, upcoming, n, carried)
    decreases n
  {
    hide RequestFor;
    if k < n {
      DueGrows(layout, slots, upcoming, k, n - 1, carried);
    }
  }

  lemma SubmittedMore(due: seq<Request>, log: seq<Submission>, request: Request, outcome: Outcome)
    requires Submitted(due, log) && outcome != Refused
    ensures Submitted(due + [request], log + [Submission(request, outcome)])
  {
  }

  /** A refused read is the last one submitted. */
  lemma RefusedLast(layout: Layout, slots: Slots, upcoming: seq<nat>, k: nat, carried: nat, log: seq<Submission>)
    requires Existing(layout, upcoming) && k < |upcoming| && !Reading(slots, upcoming[k])
    requires Submitted(Due(layout, slots, upcoming, k, carried), log)
    ensures var request := RequestFor(layout, upcoming[k], CarriedAt(upcoming, k, carried));
      Stopped(Due(layout, slots, upcoming, |upcoming|, carried), log + [Submission(request, Refused)])
  {
    hide RequestFor;
    var soFar, due := Due(layout, slots, upcoming, k, carried), Due(layout, slots, upcoming, |upcoming|, carried);
    var request := RequestFor(layout, upcoming[k], CarriedAt(upcoming, k, carried));
    DueGrows(layout, slots, upcoming, k + 1, |upcoming|, carried);
    assert soFar + [request] <= due;
    var more := log + [Submission(request, Refused)];
    assert more[..|more| - 1] == log && due[..|log|] == soFar;
  }

  /** What `StartReads` has done once it considered the first k next blocks. */
  ghost predicate Considered(layout: Layout, before: Slots, upcoming: seq<nat>, k: nat, carried: nat,
                             log: seq<Submission>, now: Slots)
    requires Existing(layout, upcoming) && k <= |upcoming|
  {
    Submitted(Due(layout, before, upcoming, k, carried), log) && StartedSince(Kept(before, upcoming), log, now)
  }

  lemma ConsideredNone(layout: Layout, before: Slots, upcoming: seq<nat>, carried: nat)
    requires Existing(layout, upcoming)
    ensures Considered(layout, before, upcoming, 0, carried, [], Kept(before, upcoming))
  {
  }

  lemma ConsideredAll(layout: Layout, before: Slots, upcoming: seq<nat>, carried: nat, log: seq<Submission>, now: Slots)
    requires Existing(layout, upcoming) && Considered(layout, before, upcoming, |upcoming|, carried, log, now)
    ensures Submitted(Due(layout, before, upcoming, |upcoming|, carried), log)
    ensures StartedSince(Kept(before, upcoming), log, now)
  {
  }

  /** Whether the next block is being read is what it was at first. */
  lemma ConsideredReading(layout: Layout, before: Slots, upcoming: seq<nat>, k: nat, carried: nat,
                          log: seq<Submission>, now: Slots)
    requires Existing(layout, upcoming) && k < |upcoming| && Distinct(upcoming) && TableOk(layout, before)
    requires Considered(layout, before, upcoming, k, carried, log, now)
    ensures Reading(now, upcoming[k]) <==> Reading(before, upcoming[k])
    ensures Reading(now, upcoming[k]) ==> Considered(layout, before, upcoming, k + 1, carried, log, now)
  {
    hide RequestFor;
    hide Reading;
    KeptReads(layout, before, upcoming);
    StillReading(layout, before, upcoming, k, carried, Kept(before, upcoming), log, now);
  }

  lemma ConsideredNext(layout: Layout, before: Slots, upcoming: seq<nat>, k: nat, carried: nat, log: seq<Submission>,
                       now: Slots,
                       outcome: Outcome, after: Slots)
    requires Existing(layout, upcoming) && k < |upcoming| && !Reading(before, upcoming[k])
    requires Considered(layout, before, upcoming, k, carried, log, now)
    requires forall block :: Reading(after, block) <==>
      Reading(now, block) || (outcome == Started && block == upcoming[k])
    ensures var more := log + [Submission(RequestFor(layout, upcoming[k], CarriedAt(upcoming, k, carried)), outcome)];
      && (outcome != Refused ==> Considered(layout, before, upcoming, k + 1, carried, more, after))
      && (outcome == Refused ==> Stopped(Due(layout, before, upcoming, |upcoming|, carried), more))
      && StartedSince(Kept(before, upcoming), more, after)
  {
    var request := RequestFor(layout, upcoming[k], CarriedAt(upcoming, k, carried));
    hide RequestFor;
    hide Reading;
    hide Kept;
    StartedMore(Kept(before, upcoming), log, now, request, outcome, after);
    if outcome == Refused {
      RefusedLast(layout, before, upcoming, k, carried, log);
    } else {
      SubmittedMore(Due(layout, before, upcoming, k, carried), log, request, outcome);
    }
  }

  class Ahead {
    const layout: Layout
    var slots: Slots // what each slot is reading
    ghost var submissions: seq<Submission>
    ghost var arrivals: seq<Arrival>

    constructor (source: Layout)
      requires source.Valid()
      ensures Valid() && layout == source && slots == [None, None, None] && submissions == [] && arrivals == []
    {
      layout := source;
      slots, submissions, arrivals := [None, None, None], [], [];
    }

    ghost predicate Valid()
      reads this
    {
      layout.Valid() && TableOk(layout, slots)
    }

    method Find(block: nat) returns (slot: int)
      requires Valid()
      ensures slot == -1 || (0 <= slot < |slots| && IsFor(slots[slot], block))
      ensures slot == -1 <==> !Reading(slots, block)
    {
      slot := 0;
      while slot < AHEAD_DEPTH
        invariant 0 <= slot <= AHEAD_DEPTH
        invariant forall i :: 0 <= i < slot ==> !IsFor(slots[i], block)
      {
        if IsFor(slots[slot], block) {
          return;
        }
        slot := slot + 1;
      }
      slot := -1;
    }

    method Idle() returns (slot: int)
      requires Valid()
      ensures slot == -1 || (0 <= slot < |slots| && slots[slot].None?)
      ensures slot == -1 ==> forall i :: 0 <= i < |slots| ==> slots[i].Some?
    {
      slot := 0;
      while slot < AHEAD_DEPTH
        invariant 0 <= slot <= AHEAD_DEPTH
        invariant forall i :: 0 <= i < slot ==> slots[i].Some?
      {
        if slots[slot].None? {
          return;
        }
        slot := slot + 1;
      }
      slot := -1;
    }

    /** Submits a read into an idle slot. A read that ends at once at the end of the file leaves the slot idle. */
    method Start(slot: nat, request: Request) returns (ok: bool, ghost outcome: Outcome)
      requires Valid() && slot < |slots| && slots[slot].None?
      modifies `slots, `submissions
      ensures submissions == old(submissions) + [Submission(request, outcome)] && (ok <==> outcome != Refused)
      ensures slots == if outcome == Started then old(slots)[slot := Some(request)] else old(slots)
    {
      var refused: bool, atEnd: bool := *, *;
      if !refused && !atEnd {
        slots := slots[slot := Some(request)];
      }
      ok, outcome := !refused, if refused then Refused else if atEnd then Ended else Started;
      submissions := submissions + [Submission(request, outcome)];
    }

    /** Gives up the reads of blocks that are no longer among the next ones. */
    method SettleStale(upcoming: seq<nat>)
      requires Valid()
      modifies `slots
      ensures slots == Kept(old(slots), upcoming)
    {
      var slot := 0;
      while slot < AHEAD_DEPTH
        invariant 0 <= slot <= AHEAD_DEPTH == |slots|
        invariant forall i :: slot <= i < AHEAD_DEPTH ==> slots[i] == old(slots)[i]
        invariant forall i :: 0 <= i < slot ==> slots[i] == Kept(old(slots), upcoming)[i]
      {
        if slots[slot].Some? && slots[slot].value.block !in upcoming {
          slots := slots[slot := None];
        }
        slot := slot + 1;
      }
    }

    /**
     Settles the reads of other blocks and submits those due for the next ones, in order and each as the block's load
     will want it, up to the first that is refused. Every read that is due finds a slot.
     */
    method StartReads(upcoming: seq<nat>, carriedBlock: nat) returns (ok: bool, ghost log: seq<Submission>)
      requires Valid() && |upcoming| <= AHEAD_DEPTH && Distinct(upcoming) && Existing(layout, upcoming)
      modifies `slots, `submissions
      ensures Valid() && Wanted(slots, upcoming) && submissions == old(submissions) + log
      ensures var due := Due(layout, old(slots), upcoming, |upcoming|, carriedBlock);
        if ok then Submitted(due, log) else Stopped(due, log)
      ensures StartedSince(Kept(old(slots), upcoming), log, slots)
    {
      hide RequestFor;
      hide Reading;
      hide TableOk;
      hide Wanted;
      hide Kept;
      hide Due;
      hide Submitted;
      hide Stopped;
      hide StartedSince;
      hide Considered;
      ghost var before, past := slots, submissions;
      KeptReads(layout, slots, upcoming);
      ConsideredNone(layout, slots, upcoming, carriedBlock);
      SettleStale(upcoming);
      var carried, k := carriedBlock, 0;
      log := [];
      while k < |upcoming|
        invariant k <= |upcoming| && Valid() && Wanted(slots, upcoming)
          && carried == CarriedAt(upcoming, k, carriedBlock)
        invariant submissions == past + log && Considered(layout, before, upcoming, k, carriedBlock, log, slots)
      {
        var request := RequestFor(layout, upcoming[k], carried);
        ConsideredReading(layout, before, upcoming, k, carriedBlock, log, slots);
        var found := Find(upcoming[k]);
        if found < 0 {
          ghost var outcome, now := Ended, slots;
          ok, outcome := StartNext(upcoming, k, request);
          ConsideredNext(layout, before, upcoming, k, carriedBlock, log, now, outcome, slots);
          log := log + [Submission(request, outcome)];
          if !ok {
            return;
          }
        }
        carried, k := upcoming[k] + 1, k + 1;
      }
      ok := true;
      ConsideredAll(layout, before, upcoming, carriedBlock, log, slots);
    }

    /** A slot is idle for the next block, and its read is submitted. */
    method StartNext(upcoming: seq<nat>, k: nat, request: Request) returns (ok: bool, ghost outcome: Outcome)
      requires Valid() && Wanted(slots, upcoming) && |upcoming| <= AHEAD_DEPTH && Distinct(upcoming) && k < |upcoming|
      requires request.block == upcoming[k] && request.offset + request.length <= |layout.file|
        && !Reading(slots, upcoming[k])
      modifies `slots, `submissions
      ensures Valid() && Wanted(slots, upcoming)
      ensures submissions == old(submissions) + [Submission(request, outcome)] && (ok <==> outcome != Refused)
      ensures forall block :: Reading(slots, block) <==>
        old(Reading(slots, block)) || (outcome == Started && block == request.block)
    {
      SlotIsFree(layout, slots, upcoming, k);
      var slot := Idle();
      assert slot >= 0;
      StartedReads(layout, slots, slot, request);
      hide Reading;
      ok, outcome := Start(slot, request);
    }

    /** Waits for the read of a slot, which leaves the slot idle: what arrived is what the file holds there. */
    method Wait(slot: nat) returns (read: nat, failed: bool, data: seq<byte>)
      requires Valid() && slot < |slots| && slots[slot].Some?
      modifies `slots, `arrivals
      ensures Valid() && slots == old(slots)[slot := None]
      ensures var request := old(slots)[slot].value;
        && arrivals == old(arrivals) + [Arrival(request, read, failed)]
        && read <= request.length && data == layout.file[request.offset..request.offset + read]
    {
      var request := slots[slot].value;
      read :| 0 <= read <= request.length;
      failed := *;
      data := layout.file[request.offset..request.offset + read];
      slots := slots[slot := None];
      arrivals := arrivals + [Arrival(request, read, failed)];
    }

    /**
     `adoptLocked` with buffered reads: takes the bytes read ahead for a block. The read was issued before the load,
     with a guess at which byte would be known; its bytes are taken exactly when it arrived whole and the guess came
     true.
     */
    method Adopt(block: nat, carried: nat) returns (adopted: bool, data: seq<byte>)
      requires Valid() && block < layout.BlockCount()
      modifies `slots, `arrivals
      ensures Valid() && !Reading(slots, block)
      ensures forall other :: other != block ==> (Reading(slots, other) <==> old(Reading(slots, other)))
      ensures !old(Reading(slots, block)) ==> !adopted && arrivals == old(arrivals)
      ensures old(Reading(slots, block)) ==>
        && |arrivals| == |old(arrivals)| + 1 && arrivals[..|old(arrivals)|] == old(arrivals)
        && var last := arrivals[|old(arrivals)|];
          && Some(last.request) in old(slots) && last.request.block == block
          && (adopted <==> last.Whole() && last.request == RequestFor(layout, block, carried))
      ensures adopted ==> var request := RequestFor(layout, block, carried);
        data == layout.file[request.offset..request.offset + request.length]
    {
      var wanted := RequestFor(layout, block, carried);
      hide RequestFor;
      var slot := Find(block);
      if slot < 0 {
        return false, [];
      }
      ghost var before := slots;
      var issued := slots[slot].value;
      assert Some(issued) in before;
      var read, failed;
      read, failed, data := Wait(slot);
      OthersStay(layout, before, slot, block);
      adopted := !failed && issued.offset == wanted.offset && issued.length == wanted.length && read >= issued.length;
    }
  }
}
