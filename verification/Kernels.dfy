/**
 Line ends through a vector kernel: whole 64-byte blocks of the source, then the tail in a block padded
 with zeros. The kernel is known by its contract; a byte loop stands for the assembly.
 */
module Kernels {
  import opened LineIndex
  import opened Text
  import B = Blocks

  /** The ends that 32-bit arithmetic yields, whatever the base offset. */
  ghost function WrappedEnds(src: seq<byte>, base: nat, n: nat): seq<uint32>
    requires n <= |src|
  {
    if n == 0 then []
    else WrappedEnds(src, base, n - 1) + if src[n - 1] == LF then [((base + n) % 0x1_0000_0000) as uint32] else []
  }

  lemma {:induction false} WrappedIs(src: seq<byte>, whole: seq<byte>, base: nat, n: nat)
    requires n <= |src| && src <= whole && base + |whole| < 0x1_0000_0000
    ensures WrappedEnds(src, base, n) == EndsOf(whole, base, n)
  {
    if n > 0 {
      WrappedIs(src, whole, base, n - 1);
    }
  }

  /** Zeros after a text add no line ends. */
  lemma {:induction false} PaddedEnds(rest: seq<byte>, block: seq<byte>, base: nat, n: nat)
    requires rest <= block && |rest| <= n <= |block| && base + |rest| < 0x1_0000_0000
    requires forall i :: |rest| <= i < |block| ==> block[i] == 0
    ensures WrappedEnds(block, base, n) == EndsOf(rest, base, |rest|)
  {
    if n == |rest| {
      PrefixEnds(rest, block, base, n);
    } else {
      PaddedEnds(rest, block, base, n - 1);
    }
  }

  lemma {:induction false} PrefixEnds(rest: seq<byte>, block: seq<byte>, base: nat, n: nat)
    requires rest <= block && n <= |rest| && base + |rest| < 0x1_0000_0000
    ensures WrappedEnds(block, base, n) == EndsOf(rest, base, n)
  {
    if n > 0 {
      PrefixEnds(rest, block, base, n - 1);
    }
  }

  lemma {:induction false} EndsAreFew(src: seq<byte>, base: nat, n: nat)
    requires n <= |src| && base + |src| < 0x1_0000_0000
    ensures |EndsOf(src, base, n)| <= n
  {
    if n > 0 {
      EndsAreFew(src, base, n - 1);
    }
  }

  lemma WrappedStep(src: seq<byte>, base: nat, n: nat)
    requires n < |src|
    ensures WrappedEnds(src, base, n + 1)
         == WrappedEnds(src, base, n) + if src[n] == LF then [((base + n + 1) % 0x1_0000_0000) as uint32] else []
    ensures CR in src[..n + 1] <==> CR in src[..n] || src[n] == CR
  {
    assert src[..n + 1] == src[..n] + [src[n]];
  }

  method Append(dst: array<uint32>, at: nat, written: nat, end: uint32)
    requires at + written < dst.Length
    modifies dst
    ensures dst[..at] == old(dst[..at]) && dst[at..at + written + 1] == old(dst[at..at + written]) + [end]
  {
    dst[at + written] := end;
  }

  /** The contract of the kernels: whole blocks, as long as 64 slots are free; the hint tells any carriage return. */
  method EndsBlocks(dst: array<uint32>, at: nat, src: seq<byte>, base: uint32) returns (written: nat, consumed: nat,
                    cr: bool)
    requires at + BLOCK_BYTES <= dst.Length && |src| % BLOCK_BYTES == 0
    modifies dst
    ensures dst[..at] == old(dst[..at])
    ensures consumed <= |src| && at + written <= dst.Length
    ensures dst[at..at + written] == WrappedEnds(src, base as nat, consumed)
    ensures cr <==> CR in src[..consumed]
    ensures |src| > 0 ==> consumed >= BLOCK_BYTES
    ensures consumed < |src| ==> |src| - consumed >= BLOCK_BYTES && dst.Length - at - written < BLOCK_BYTES
  {
    written, consumed, cr := 0, 0, false;
    assert dst[at..at] == WrappedEnds(src, base as nat, 0);
    hide WrappedEnds;
    while consumed < |src| && dst.Length - at - written >= BLOCK_BYTES
      invariant consumed <= |src| && consumed % BLOCK_BYTES == 0 && at + written <= dst.Length
        && (consumed == 0 ==> written == 0)
      invariant dst[..at] == old(dst[..at])
      invariant dst[at..at + written] == WrappedEnds(src, base as nat, consumed)
      invariant cr <==> CR in src[..consumed]
    {
      written, cr := EndsBlock(dst, at, written, src, base, consumed, cr);
      consumed := consumed + BLOCK_BYTES;
    }
  }

  method EndsBlock(dst: array<uint32>, at: nat, written: nat, src: seq<byte>, base: uint32, first: nat, cr: bool)
    returns (all: nat, hint: bool)
    requires first + BLOCK_BYTES <= |src| && at + written + BLOCK_BYTES <= dst.Length
    requires dst[at..at + written] == WrappedEnds(src, base as nat, first) && (cr <==> CR in src[..first])
    modifies dst
    ensures dst[..at] == old(dst[..at]) && at + all <= dst.Length
    ensures dst[at..at + all] == WrappedEnds(src, base as nat, first + BLOCK_BYTES)
    ensures hint <==> CR in src[..first + BLOCK_BYTES]
  {
    hide WrappedEnds;
    var k := 0;
    all, hint := written, cr;
    while k < BLOCK_BYTES
      invariant k <= BLOCK_BYTES && written <= all <= written + k
      invariant dst[..at] == old(dst[..at])
      invariant dst[at..at + all] == WrappedEnds(src, base as nat, first + k)
      invariant hint <==> CR in src[..first + k]
    {
      WrappedStep(src, base as nat, first + k);
      if src[first + k] == LF {
        Append(dst, at, all, ((base as nat + first + k + 1) % 0x1_0000_0000) as uint32);
        all := all + 1;
      }
      hint := hint || src[first + k] == CR;
      k := k + 1;
    }
  }

  /**
   `Ends`: the portable loop, or the kernel. Either way the ends of what was examined are stored, the hint is right,
   and the call stops early only for lack of room.
   */
  method Ends(dst: array<uint32>, at: nat, src: seq<byte>, base: uint32, vectorized: bool)
    returns (written: nat, consumed: nat, cr: bool)
    requires at <= dst.Length && base as nat + |src| < 0x1_0000_0000
    modifies dst
    ensures dst[..at] == old(dst[..at])
    ensures consumed <= |src| && Stored(dst, at, written, src, base as nat, consumed, cr)
    ensures consumed < |src| ==>
      dst.Length - at - written < BLOCK_BYTES && dst.Length - at - written < |src| - consumed
  {
    if !vectorized {
      written, consumed, cr := LineIndex.Ends(dst, at, src, base);
      return;
    }
    var whole := |src| - |src| % BLOCK_BYTES;
    written, consumed, cr := 0, 0, false;
    if whole > 0 && dst.Length - at >= BLOCK_BYTES {
      written, consumed, cr := EndsBlocks(dst, at, src[..whole], base);
      WrappedIs(src[..whole], src, base as nat, consumed);
      assert src[..whole][..consumed] == src[..consumed];
    }
    assert cr <==> CR in src[..consumed];
    assert HasCrLf(src, consumed) ==> CR in src[..consumed];
    var rest := |src| - consumed;
    if rest == 0 || rest >= BLOCK_BYTES || dst.Length - at - written < rest {
      return;
    }
    written, cr := Tail(dst, at, written, src, base, consumed, cr);
    consumed := |src|;
  }

  /** The last bytes, fewer than a block. */
  method Tail(dst: array<uint32>, at: nat, written: nat, src: seq<byte>, base: uint32, consumed: nat, cr: bool)
    returns (all: nat, hint: bool)
    requires consumed < |src| < consumed + BLOCK_BYTES && base as nat + |src| < 0x1_0000_0000
    requires Stored(dst, at, written, src, base as nat, consumed, cr) && (cr <==> CR in src[..consumed])
    requires dst.Length - at - written >= |src| - consumed
    modifies dst
    ensures dst[..at] == old(dst[..at])
    ensures Stored(dst, at, all, src, base as nat, |src|, hint)
  {
    hide EndsOf;
    hide WrappedEnds;
    hide HasCrLf;
    var block := src[consumed..] + seq(BLOCK_BYTES - (|src| - consumed), i => 0);
    var ends := new uint32[BLOCK_BYTES];
    TailEnds(src, base as nat, consumed, block);
    var n, examined, tailHint := EndsBlocks(ends, 0, block, (base as nat + consumed) as uint32);
    HintOfBoth(src, consumed, block, cr, tailHint);
    Copy(dst, at, written, ends, n);
    all, hint := written + n, cr || tailHint;
  }

  /** The ends of the padded tail are the ends that are still missing, and there is room for them. */
  lemma TailEnds(src: seq<byte>, base: nat, consumed: nat, block: seq<byte>)
    requires consumed <= |src| && |src| - consumed <= |block| && base + |src| < 0x1_0000_0000
      && src[consumed..] <= block
    requires forall i :: |src| - consumed <= i < |block| ==> block[i] == 0
    ensures EndsOf(src, base, |src|) == EndsOf(src, base, consumed) + WrappedEnds(block, base + consumed, |block|)
    ensures |WrappedEnds(block, base + consumed, |block|)| <= |src| - consumed
    ensures block[..|block|] == block
  {
    hide EndsOf;
    hide WrappedEnds;
    var rest := src[consumed..];
    PaddedEnds(rest, block, base + consumed, |block|);
    EndsAreFew(rest, base + consumed, |rest|);
    B.EndsConcat(src, base, consumed, |rest|);
  }

  /** `copy(dst[written:], ends[:n])`. */
  method Copy(dst: array<uint32>, at: nat, written: nat, ends: array<uint32>, n: nat)
    requires n <= ends.Length && at + written + n <= dst.Length && dst != ends
    modifies dst
    ensures dst[..at] == old(dst[..at]) && dst[at..at + written + n] == old(dst[at..at + written]) + ends[0..n]
  {
    ghost var stored := dst[at..at + written];
    var k := 0;
    while k < n
      invariant k <= n && dst[..at] == old(dst[..at])
      invariant dst[at..at + written + k] == stored + ends[0..k]
    {
      assert ends[0..k + 1] == ends[0..k] + [ends[k]];
      Append(dst, at, written + k, ends[k]);
      k := k + 1;
    }
  }

  /** A carriage return at the very end of the blocks counts, so no line ending is missed between them and the tail. */
  lemma HintOfBoth(src: seq<byte>, consumed: nat, block: seq<byte>, cr: bool, tailHint: bool)
    requires consumed <= |src| && src[consumed..] <= block
    requires forall i :: |src| - consumed <= i < |block| ==> block[i] == 0
    requires (cr <==> CR in src[..consumed]) && (tailHint <==> CR in block)
    ensures cr || tailHint <==> CR in src
    ensures HasCrLf(src, |src|) ==> cr || tailHint
    ensures src[..|src|] == src
  {
    if CR in src {
      var i :| 0 <= i < |src| && src[i] == CR;
      if i < consumed {
        assert src[..consumed][i] == CR;
      } else {
        assert block[i - consumed] == CR;
      }
    }
  }
}
