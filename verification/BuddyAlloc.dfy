/** The kernel heap (allocator.cpp): split, search, coalesce, malloc, realloc and free, working in
    place on headers in raw memory. Addresses are offsets from the first header. */
module BuddyAlloc {
  import opened Wrappers
  import opened Bytes
  import opened SizeClass
  import opened Tiling
  import opened PairWalk
  import opened SearchWalk
  import opened HeapFrames

  // ---------- the state of the search walk ----------

  /** The walk stands at `block`: `best` is a candidate not past it, or none lies before it. */
  ghost predicate Position(h: Blocks, tail: nat, size: nat, block: nat, best: Option<nat>) {
    && (block in h || block == tail)
    && (best.Some? ==> Candidate(h, size, best.value) && best.value <= block)
    && (best.None? ==> forall b :: b in h && b < block ==> !Candidate(h, size, b))
  }

  lemma PositionStart(h: Blocks, tail: nat, size: nat)
    requires Tiled(h, tail)
    ensures Position(h, tail, size, 0, None)
  {
  }

  lemma PositionBest(h: Blocks, tail: nat, size: nat, block: nat, best: Option<nat>)
    requires Position(h, tail, size, block, best)
    ensures best.Some? ==> Candidate(h, size, best.value) && best.value <= block
  {
  }

  /** Where the walk ends with nothing found, only an unpaired last block was not looked at. */
  lemma PositionEnd(h: Blocks, tail: nat, size: nat, block: nat)
    requires Tiled(h, tail) && Position(h, tail, size, block, None)
    requires block < tail ==> block in h && tail <= Next(h, block)
    ensures forall b: nat :: Candidate(h, size, b) ==> b == block && Next(h, b) == tail
  {
    hide Req, Next;
    TiledFacts(h, tail);
    if block < tail {
      NextIsNext(h, tail, block);
    }
  }

  /** A merge at the walk's place never swallows the best block, which lies at or before it. */
  lemma PositionMerge(h: Blocks, tail: nat, size: nat, block: nat, best: Option<nat>, choice: Option<nat>)
    requires Tiled(h, tail) && block in h && Next(h, block) in h && Position(h, tail, size, block, best)
    requires h[block].free && h[Next(h, block)].size == h[block].size
    requires choice == best || choice == Some(block)
    requires choice == Some(block) ==> size <= 2 * h[block].size
    requires choice.None? ==> 2 * h[block].size < size
    ensures Position(Merge(h, block, Next(h, block)), tail, size, Next(h, Next(h, block)), choice)
  {
    hide Req, Next;
    var c := Next(h, block);
    var r := Merge(h, block, c);
    NextIsNext(h, tail, block);
    NextIsNext(h, tail, c);
    assert r.Keys == h.Keys - {c};
  }

  /** An unmergeable pair may be passed, or its first block only. */
  lemma PositionPass(h: Blocks, tail: nat, size: nat, block: nat, best: Option<nat>, choice: Option<nat>)
    requires Tiled(h, tail) && block in h && Next(h, block) in h && Position(h, tail, size, block, best)
    requires choice == best || choice == Some(block) || choice == Some(Next(h, block))
    requires choice.Some? ==> Candidate(h, size, choice.value)
    requires choice.None? ==> !Candidate(h, size, block) && !Candidate(h, size, Next(h, block))
    ensures Position(h, tail, size, Next(h, block), choice)
    ensures Position(h, tail, size, Next(h, Next(h, block)), choice)
  {
    hide Req, Next;
    NextIsNext(h, tail, block);
    NextIsNext(h, tail, Next(h, block));
  }

  lemma BestUnlessLast(h: Blocks, tail: nat, size: nat)
    requires Tiled(h, tail)
    ensures Best(h, tail, size).None? ==> forall b :: Candidate(h, size, b) ==> b > 0 && Next(h, b) == tail
  {
    hide Req, Best, Obtainable;
    if Best(h, tail, size).None? {
      forall b | Candidate(h, size, b)
        ensures b > 0 && Next(h, b) == tail
      {
        if b == 0 || Next(h, b) in h {
          CandidateObtainable(h, tail, size, b);
        }
      }
    }
  }

  lemma SweptAlone(h: Blocks, tail: nat)
    requires Tiled(h, tail) && Next(h, 0) == tail
    ensures Swept(h, tail, 0) == h
  {
    hide Req, Next;
    TiledFacts(h, tail);
  }

  /** The steps of the search, as the functions that describe it take them. */
  lemma WalkMerges(h: Blocks, tail: nat, size: nat, b: nat, c: nat, best: Option<nat>)
    requires Tiled(h, tail) && b in h && c in h && c == Next(h, b)
    requires best.Some? ==> best.value in h && best.value <= b
    requires h[b].free && h[c].free && h[b].size == h[c].size
    ensures var r := Merge(h, b, c);
            && Tiled(r, tail) && b in r && (best.Some? ==> best.value in r) && b < Next(h, c)
            && Chosen(h, tail, size, b, best) == Chosen(r, tail, size, Next(h, c), ComparedMerged(r, size, best, b))
            && Swept(h, tail, b) == Swept(r, tail, Next(h, c))
  {
    hide Req, Tiled, Next;
    PairInside(h, tail, b);
    MergeTiled(h, tail, b, c);
  }

  lemma WalkPasses(h: Blocks, tail: nat, size: nat, b: nat, c: nat, best: Option<nat>)
    requires Tiled(h, tail) && b in h && c in h && c == Next(h, b)
    requires best.Some? ==> best.value in h && best.value <= b
    requires !(h[b].free && h[c].free && h[b].size == h[c].size)
    ensures var n := if Req(h[b].size) <= Req(h[c].size) then Next(h, c) else c;
            && c <= n && Chosen(h, tail, size, b, best) == Chosen(h, tail, size, n, Compared(h, size, best, b, c))
            && Swept(h, tail, b) == Swept(h, tail, n)
  {
    hide Req, Tiled, Next;
    PairInside(h, tail, b);
  }

  lemma WalkEnds(h: Blocks, tail: nat, size: nat, b: nat, best: Option<nat>)
    requires Tiled(h, tail) && (best.Some? ==> best.value in h && best.value <= b)
    requires b < tail ==> b in h && tail <= Next(h, b)
    ensures Chosen(h, tail, size, b, best) == best && Swept(h, tail, b) == h
  {
    hide Req;
    TiledFacts(h, tail);
  }

  /** One step of a coalescing pass. */
  lemma PassSteps(h: Blocks, tail: nat, b: nat)
    requires Tiled(h, tail) && b in h && Next(h, b) in h
    ensures var c := Next(h, b);
            if Mergeable(h, b, c) then
              && Tiled(Merge(h, b, c), tail) && Passed(h, tail, b) == Passed(Merge(h, b, c), tail, Next(h, c))
              && (Idle(h, tail, b) <==> Next(h, c) == tail)
            else
              var n := if Req(h[b].size) < Req(h[c].size) then c else Next(h, c);
              Passed(h, tail, b) == Passed(h, tail, n) && (Idle(h, tail, b) <==> Idle(h, tail, n))
  {
    hide Req, Tiled, Next;
    PairInside(h, tail, b);
    if Mergeable(h, b, Next(h, b)) {
      MergeTiled(h, tail, b, Next(h, b));
    }
  }

  lemma PassEnds(h: Blocks, tail: nat, b: nat)
    requires Tiled(h, tail) && (b < tail ==> b in h && tail <= Next(h, b))
    ensures Passed(h, tail, b) == h && Idle(h, tail, b)
  {
    hide Req;
    TiledFacts(h, tail);
  }

  class Allocator {
    const mem: array<Byte>
    const tail: nat
    ghost var blocks: Blocks

    ghost predicate Valid()
      reads this, mem
    {
      && tail == mem.Length <= REQUEST_LIMIT
      && Tiled(blocks, tail)
      && Represents(mem[..], blocks)
    }

    /** `init`: one free block. Its extent is `size` rounded up to a class, so it stays inside a region
        of `size` bytes exactly when `size` is a class, as the kernel's 1 GiB is. */
    constructor (region: array<Byte>, size: nat)
      requires HEADER <= size && region.Length == Req(size) <= REQUEST_LIMIT
      modifies region
      ensures mem == region && tail == Req(size)
      ensures Valid() && blocks == map[0 := Header(size, true)]
    {
      mem := region;
      tail := Req(size);
      blocks := map[0 := Header(size, true)];
      new;
      hide Req, Word, PutSize, PutFree;
      ReqIsLeastClass(size);
      ghost var h0: Blocks := map[0 := HeaderAt(mem[..], 0)];
      PutSizeRepresents(mem[..], h0, 0, size);
      SetSize(0, size);
      ghost var h1 := h0[0 := h0[0].(size := size)];
      PutFreeRepresents(mem[..], h1, 0, true);
      SetFree(0, true);
      assert h1[0 := h1[0].(free := true)] == blocks;
    }

    /** `block->size` */
    function SizeOf(b: nat): (size: nat)
      requires Valid() && b in blocks
      reads this, mem
      ensures size == blocks[b].size
    {
      HeaderAt(mem[..], b).size
    }

    /** `block->is_free` */
    predicate IsFree(b: nat)
      requires Valid() && b in blocks
      reads this, mem
      ensures IsFree(b) == blocks[b].free
    {
      HeaderAt(mem[..], b).free
    }

    /** `block->size = v` */
    method SetSize(b: nat, v: nat)
      requires b + HEADER <= mem.Length && v < WORD_LIMIT
      modifies mem
      ensures mem[..] == PutSize(old(mem[..]), b, v)
    {
      hide Word, Req;
      var w := WriteLE(v, 8);
      forall k | 0 <= k < 8 {
        mem[b + k] := w[k];
      }
      ghost var r := PutSize(old(mem[..]), b, v);
      assert forall i :: 0 <= i < mem.Length ==> mem[i] == r[i];
    }

    /** `block->is_free = v` */
    method SetFree(b: nat, v: bool)
      requires b + HEADER <= mem.Length
      modifies mem
      ensures mem[..] == PutFree(old(mem[..]), b, v)
    {
      mem[b + 8] := if v then 1 else 0;
    }

    /** `block->next()` */
    method NextOf(b: nat) returns (n: nat)
      requires b + HEADER <= mem.Length
      ensures n == b + Req(HeaderAt(mem[..], b).size)
      ensures Valid() && b in blocks ==> n == Next(blocks, b)
    {
      var extent := SizeRequired(HeaderAt(mem[..], b).size);
      n := b + extent;
    }

    /** `block->size *= 2` on a free block followed by a free block of the same size. */
    method MergeAt(b: nat, c: nat)
      requires Valid()
      requires b in blocks && c in blocks && c == Next(blocks, b)
      requires blocks[b].free && blocks[c].free && blocks[b].size == blocks[c].size
      modifies mem, `blocks
      ensures Valid() && blocks == Merge(old(blocks), b, c)
      ensures blocks.Keys == old(blocks).Keys - {c} && blocks[b] == old(blocks)[b].(size := 2 * old(blocks)[b].size)
      ensures forall d :: d in blocks && d != b ==> blocks[d] == old(blocks)[d]
      ensures Quiet(old(mem[..]), old(blocks), mem[..], blocks)
      // the swallowed header is still there to be read
      ensures c + HEADER <= tail && c + Req(HeaderAt(mem[..], c).size) == Next(old(blocks), c) == Next(blocks, b)
    {
      hide Req, Word, PutSize, Quiet, Represents, Tiled, HeaderAt, SizeOf;
      TiledFacts(blocks, tail);
      MergeQuiet(mem[..], blocks, tail, b, c);
      MergeTiled(blocks, tail, b, c);
      SetSize(b, SizeOf(b) * 2);
      blocks := Merge(blocks, b, c);
    }

    /** One step of `split_until`: `b` is halved and a free block is made of its second half. */
    method SplitAt(b: nat, half: nat)
      requires Valid()
      requires b in blocks && blocks[b].free && IsClass(half) && Req(blocks[b].size) == 2 * half
      modifies mem, `blocks
      ensures Valid() && blocks == Split(old(blocks), b, half)
      ensures Quiet(old(mem[..]), old(blocks), mem[..], blocks)
    {
      hide Req, Word, PutSize, IsClass;
      SplitTiled(blocks, tail, b, half);
      SplitQuiet(mem[..], blocks, tail, b, half);
      SetSize(b, half);
      SetSize(b + half, half);
      SetFree(b + half, true);
      blocks := Split(blocks, b, half);
    }

    /** `Block::split_until`: halves the free block `b` until its extent is `size`. */
    method SplitUntil(b: nat, size: nat) returns (found: Option<nat>)
      requires Valid() && b in blocks && blocks[b].free
      requires size == 0 || IsClass(size)
      modifies mem, `blocks
      ensures Valid() && Quiet(old(mem[..]), old(blocks), mem[..], blocks)
      ensures found.Some? <==> 0 < size <= old(Req(blocks[b].size))
      ensures found.None? ==> blocks == old(blocks) && mem[..] == old(mem[..])
      ensures found.Some? ==> found.value in blocks && blocks[found.value].free && Req(blocks[found.value].size) == size
      ensures found.Some? ==> Halved(old(blocks), blocks, b, size, found.value)
      ensures found.Some? ==>
                blocks[found.value] == if found.value == b then old(blocks[b]) else Header(size, true)
    {
      hide Req, Word, Quiet, Represents, SizeOf, IsFree, IsClass, Next, Tiled, Halved;
      QuietRefl(mem[..], blocks);
      NextDef(blocks, b);
      HalvedNone(blocks, tail, b);
      if size == 0 {
        return None;
      }
      var block := b;
      var extent := SizeRequired(SizeOf(block));
      ReqIsLeastClass(blocks[b].size);
      while size < extent
        invariant Valid() && Quiet(old(mem[..]), old(blocks), mem[..], blocks)
        invariant block in blocks && blocks[block].free && extent == Req(blocks[block].size)
        invariant IsClass(extent) && Halved(old(blocks), blocks, b, extent, block)
        invariant blocks[block] == if block == b then old(blocks[b]) else Header(extent, true)
        invariant b <= block && (block == b ==> extent == old(Req(blocks[b].size)))
        invariant size <= extent <==> size <= old(Req(blocks[b].size))
        invariant size > extent ==> blocks == old(blocks) && mem[..] == old(mem[..])
        invariant size == extent || (blocks == old(blocks) && mem[..] == old(mem[..])) || size < extent
        decreases extent
      {
        ClassGap(size, extent);
        ClassAtLeast(size);
        ghost var m, h := mem[..], blocks;
        ClassHalf(extent);
        extent := extent / 2;
        ReqOfClass(extent);
        HalvedMore(old(blocks), blocks, b, 2 * extent, block, extent);
        SplitAt(block, extent);
        QuietTrans(old(mem[..]), old(blocks), m, h, mem[..], blocks);
        NextIsNext(blocks, tail, block);
        NextDef(blocks, block);
        block := NextOf(block);
      }
      if size <= extent {
        return Some(block);
      }
      return None;
    }

    /** The part of the walk that merges a pair and compares the result with the best block so far. */
    method MergePair(size: nat, best: Option<nat>, block: nat, buddy: nat) returns (choice: Option<nat>)
      requires Valid() && Position(blocks, tail, size, block, best)
      requires best.Some? ==> best.value in blocks && best.value <= block
      requires block in blocks && buddy in blocks && buddy == Next(blocks, block)
      requires blocks[block].free && blocks[buddy].free && blocks[block].size == blocks[buddy].size
      modifies mem, `blocks
      ensures Valid() && Quiet(old(mem[..]), old(blocks), mem[..], blocks)
      ensures blocks == Merge(old(blocks), block, buddy)
      ensures buddy + HEADER <= tail && buddy + Req(HeaderAt(mem[..], buddy).size) == Next(old(blocks), buddy)
      ensures Position(blocks, tail, size, Next(old(blocks), buddy), choice)
      ensures choice.Some? ==> choice.value in blocks && choice.value < Next(old(blocks), buddy)
      ensures Chosen(blocks, tail, size, Next(old(blocks), buddy), choice) ==
              old(Chosen(blocks, tail, size, block, best))
      ensures Swept(blocks, tail, Next(old(blocks), buddy)) == old(Swept(blocks, tail, block))
      ensures choice == Some(block) <==>
                best == Some(block) || (&& size <= blocks[block].size
                                        && (best.Some? ==> blocks[block].size <= old(blocks)[best.value].size))
      ensures best.Some? ==> choice.Some? && best.value in blocks && choice.value in blocks
                             && Req(blocks[choice.value].size) <= Req(blocks[best.value].size)
      ensures Next(old(blocks), buddy) < tail ==> Next(old(blocks), buddy) in blocks
    {
      hide Req, Word, Quiet, Represents, SizeOf, IsFree, Tiled, Next, HeaderAt;
      ghost var h := blocks;
      PositionBest(blocks, tail, size, block, best);
      NextIsNext(blocks, tail, block);
      NextIsNext(blocks, tail, buddy);
      WalkMerges(h, tail, size, block, buddy, best);
      MergeAt(block, buddy);
      choice := best;
      if size <= SizeOf(block) && (best.None? || SizeOf(block) <= SizeOf(best.value)) {
        choice := Some(block);
      }
      PositionMerge(h, tail, size, block, best, choice);
      if best.Some? {
        assert best.value in h.Keys && best.value != buddy;
        ReqMonotone(blocks[choice.value].size, blocks[best.value].size);
      }
      assert Next(h, buddy) in h.Keys && Next(h, buddy) != buddy ==> Next(h, buddy) in blocks.Keys;
    }

    /** The part of the walk that compares an unmergeable pair with the best block so far; it never
        trades a block for one of a larger class. */
    method Consider(size: nat, best: Option<nat>, block: nat, buddy: nat) returns (choice: Option<nat>)
      requires Valid() && block in blocks && buddy in blocks
      requires best.Some? ==> Candidate(blocks, size, best.value)
      ensures choice == Compared(blocks, size, best, block, buddy)
      ensures choice == best || choice == Some(block) || choice == Some(buddy)
      ensures choice.Some? ==> Candidate(blocks, size, choice.value)
      ensures choice.None? ==> !Candidate(blocks, size, block) && !Candidate(blocks, size, buddy)
      ensures best.None? && Candidate(blocks, size, block) ==> choice == Some(block)
      ensures best.Some? ==> choice.Some? && Req(blocks[choice.value].size) <= Req(blocks[best.value].size)
      // of two in one class the first of a pair replaces the choice, a rounded second one does not
      ensures best.Some? && Candidate(blocks, size, block) && !Candidate(blocks, size, buddy) ==>
                (choice == Some(block) <==> best == Some(block) || blocks[block].size <= Req(blocks[best.value].size))
      ensures best.Some? && blocks[buddy].size == Req(blocks[best.value].size) && !Candidate(blocks, size, block) ==>
                choice == best
    {
      hide Req, Word, Represents, SizeOf, IsFree, Tiled;
      choice := best;
      var bestExtent := 0;
      if choice.Some? {
        bestExtent := SizeRequired(SizeOf(choice.value));
        ReqOfReq(blocks[best.value].size);
      }
      if IsFree(block) && size <= SizeOf(block) && (choice.None? || SizeOf(block) <= bestExtent) {
        if best.Some? {
          ReqMonotone(blocks[block].size, bestExtent);
        }
        choice := Some(block);
      }
      if IsFree(buddy) && size <= SizeOf(buddy) && (choice.None? || SizeOf(buddy) < bestExtent) {
        if best.Some? {
          ReqMonotone(blocks[buddy].size, bestExtent);
        }
        choice := Some(buddy);
      }
    }

    /** Where the walk that began on heap `start` stands: it settles on the same block, and leaves the same
        heap, as if it began here. */
    ghost predicate Walking(start: Blocks, size: nat, block: nat, buddy: nat, best: Option<nat>)
      requires Tiled(start, tail)
      reads this, mem
    {
      && Tiled(blocks, tail) && (block < tail ==> block in blocks && buddy == Next(blocks, block))
      && Position(blocks, tail, size, block, best) && (best.Some? ==> best.value in blocks && best.value <= block)
      && Chosen(blocks, tail, size, block, best) == Chosen(start, tail, size, 0, None)
      && Swept(blocks, tail, block) == Swept(start, tail, 0)
    }

    /** The body of the walk. */
    method Visit(ghost start: Blocks, size: nat, best: Option<nat>, block: nat, buddy: nat)
      returns (choice: Option<nat>, next: nat, nextBuddy: nat)
      requires Valid() && Tiled(start, tail) && Walking(start, size, block, buddy, best) && block < tail && buddy < tail
      modifies mem, `blocks
      ensures Valid() && Quiet(old(mem[..]), old(blocks), mem[..], blocks)
      ensures Walking(start, size, next, nextBuddy, choice) && block < next <= tail
    {
      hide Req, Word, Quiet, Represents, SizeOf, IsFree, Tiled, Next, Merge, Position, HeaderAt;
      hide Chosen, Swept, Compared, ComparedMerged, Mergeable, Paired;
      QuietRefl(mem[..], blocks);
      NextIsNext(blocks, tail, block);
      NextIsNext(blocks, tail, buddy);
      PositionBest(blocks, tail, size, block, best);
      nextBuddy := buddy;
      if IsFree(block) && IsFree(buddy) && SizeOf(block) == SizeOf(buddy) {
        choice := MergePair(size, best, block, buddy);
        next := NextOf(buddy);
        if next < tail {
          NextIsNext(blocks, tail, next);
          nextBuddy := NextOf(next);
        }
        return;
      }
      WalkPasses(blocks, tail, size, block, buddy, best);
      choice := Consider(size, best, block, buddy);
      PositionPass(blocks, tail, size, block, best, choice);
      var blockExtent := SizeRequired(SizeOf(block));
      var buddyExtent := SizeRequired(SizeOf(buddy));
      if blockExtent <= buddyExtent {
        next := NextOf(buddy);
        if next < tail {
          NextIsNext(blocks, tail, next);
          nextBuddy := NextOf(next);
        }
      } else {
        next := buddy;
        nextBuddy := NextOf(buddy);
      }
    }

    /** The split at the end of the search. */
    method Settle(best: nat, size: nat) returns (found: Option<nat>)
      requires Valid() && IsClass(size) && Candidate(blocks, size, best)
      modifies mem, `blocks
      ensures Valid() && Quiet(old(mem[..]), old(blocks), mem[..], blocks)
      ensures found.Some? && Halved(old(blocks), blocks, best, size, found.value)
      ensures found.value in blocks && blocks[found.value].free && Req(blocks[found.value].size) == size
    {
      hide Req, IsClass, Tiled, Represents, Quiet, Halved;
      ClassAtLeast(size);
      ReqIsLeastClass(blocks[best].size);
      found := SplitUntil(best, size);
    }

    /** `find_best`: one walk over neighbouring pairs that merges free pairs of equal size and splits the
        block it settles on. When it finds nothing, the only free block that could have stored the request,
        before the walk or after its merges, is the last one of the heap, left over without a partner. */
    method FindBest(size: nat) returns (found: Option<nat>)
      requires Valid() && IsClass(size)
      modifies mem, `blocks
      ensures Valid() && Quiet(old(mem[..]), old(blocks), mem[..], blocks)
      ensures found.Some? <==> Best(old(blocks), tail, size).Some?
      ensures found.Some? ==> found.value in blocks && blocks[found.value].free && Req(blocks[found.value].size) == size
      ensures found.Some? ==>
                var b, swept := Best(old(blocks), tail, size).value, Swept(old(blocks), tail, 0);
                b in swept && Halved(swept, blocks, b, size, found.value)
      ensures found.None? ==> blocks == Swept(old(blocks), tail, 0)
      ensures found.None? ==> forall b :: Candidate(old(blocks), size, b) ==> b > 0 && Next(old(blocks), b) == tail
      ensures found.None? ==> forall b :: Candidate(blocks, size, b) ==> b > 0 && Next(blocks, b) == tail
    {
      hide Req, Word, Quiet, Represents, SizeOf, IsFree, IsClass, Tiled, Next, Merge, Position, HeaderAt;
      hide Chosen, Swept, Compared, ComparedMerged, Mergeable, Paired, Halved;
      QuietRefl(mem[..], blocks);
      ghost var start := blocks;
      BestUnlessLast(start, tail, size);
      ClassAtLeast(size);
      assert 0 in blocks by { TiledHead(blocks, tail); }
      NextIsNext(blocks, tail, 0);
      var best: Option<nat> := None;
      var block: nat := 0;
      assert Position(blocks, tail, size, block, best) by { PositionStart(blocks, tail, size); }
      var buddy: nat := NextOf(block);
      if buddy == tail && IsFree(block) {
        TiledFacts(blocks, tail);
        ReqIsLeastClass(blocks[0].size);
        SweptAlone(blocks, tail);
        found := SplitUntil(block, size);
        return;
      }
      while block < tail && buddy < tail
        invariant Valid() && Quiet(old(mem[..]), old(blocks), mem[..], blocks)
        invariant Walking(start, size, block, buddy, best)
        invariant block == 0 ==> buddy < tail || !blocks[0].free
        decreases tail - block
      {
        ghost var m, h := mem[..], blocks;
        best, block, buddy := Visit(start, size, best, block, buddy);
        QuietTrans(old(mem[..]), old(blocks), m, h, mem[..], blocks);
      }
      PositionBest(blocks, tail, size, block, best);
      WalkEnds(blocks, tail, size, block, best);
      ghost var m1, h1 := mem[..], blocks;
      if best.Some? {
        found := Settle(best.value, size);
        QuietTrans(old(mem[..]), old(blocks), m1, h1, mem[..], blocks);
        return;
      }
      PositionEnd(blocks, tail, size, block);
      return None;
    }

    /** One pass of `coalescence` over neighbouring pairs. `nothing` may hold although the last pair
        of the heap was merged; either way nothing is then left for another pass. */
    method Pass() returns (nothing: bool)
      requires Valid()
      modifies mem, `blocks
      ensures Valid() && Quiet(old(mem[..]), old(blocks), mem[..], blocks)
      ensures blocks.Keys <= old(blocks.Keys)
      ensures blocks == Passed(old(blocks), tail, 0) && (nothing <==> Idle(old(blocks), tail, 0))
      ensures if nothing then Settled(blocks, tail, 0) else |blocks| < old(|blocks|)
    {
      hide Req, Word, Quiet, Represents, SizeOf, IsFree, Tiled, Next, Merge, Settled, SettledTo, Passed, Idle;
      ghost var start := blocks;
      QuietRefl(mem[..], blocks);
      TiledHead(blocks, tail);
      NextIsNext(blocks, tail, 0);
      var block := 0;
      var buddy := NextOf(block);
      nothing := true;
      SettledHere(blocks, tail, 0);
      while block < tail && buddy < tail
        invariant Valid() && Quiet(old(mem[..]), old(blocks), mem[..], blocks)
        invariant blocks.Keys <= old(blocks.Keys)
        invariant block < tail ==> block in blocks && buddy == Next(blocks, block)
        invariant Passed(blocks, tail, block) == Passed(start, tail, 0)
        invariant Idle(start, tail, 0) <==> nothing && Idle(blocks, tail, block)
        invariant nothing ==> SettledTo(blocks, tail, 0, block) || (block == tail && Settled(blocks, tail, 0))
        decreases tail - block
      {
        NextIsNext(blocks, tail, block);
        NextIsNext(blocks, tail, buddy);
        ghost var m, h, was := mem[..], blocks, block;
        PassSteps(blocks, tail, block);
        if IsFree(block) && IsFree(buddy) && SizeOf(block) == SizeOf(buddy) {
          MergeTiled(blocks, tail, block, buddy);
          if SettledTo(h, tail, 0, block) {
            SettledToMerge(h, tail, 0, block);
          }
          MergeAt(block, buddy);
          QuietTrans(old(mem[..]), old(blocks), m, h, mem[..], blocks);
          NextIsNext(blocks, tail, block);
          block := NextOf(block);
          if block < tail {
            NextIsNext(blocks, tail, block);
            buddy := NextOf(block);
            nothing := false;
          } else {
            PassEnds(blocks, tail, block);
            if nothing {
              SettledLast(blocks, tail, was);
            }
          }
        } else {
          if nothing {
            SettledStep(h, tail, 0, block);
          }
          var blockExtent := SizeRequired(SizeOf(block));
          var buddyExtent := SizeRequired(SizeOf(buddy));
          if blockExtent < buddyExtent {
            block := buddy;
            buddy := NextOf(buddy);
          } else {
            block := NextOf(buddy);
            if block < tail {
              NextIsNext(blocks, tail, block);
              buddy := NextOf(block);
            }
          }
        }
      }
      PassEnds(blocks, tail, block);
      if nothing && SettledTo(blocks, tail, 0, block) {
        SettledLast(blocks, tail, block);
      }
    }

    /** `coalescence`: passes until one has nothing left to do. It only removes block boundaries, and
        afterwards its own walk finds no pair to merge. */
    method Coalescence()
      requires Valid()
      modifies mem, `blocks
      ensures Valid() && Quiet(old(mem[..]), old(blocks), mem[..], blocks)
      ensures blocks.Keys <= old(blocks.Keys)
      ensures blocks == Coalesced(old(blocks), tail) && Settled(blocks, tail, 0)
    {
      hide Req, Quiet, Represents, Tiled, Next, Settled, Passed, Idle;
      QuietRefl(mem[..], blocks);
      while true
        invariant Valid() && Quiet(old(mem[..]), old(blocks), mem[..], blocks)
        invariant blocks.Keys <= old(blocks.Keys)
        invariant Coalesced(blocks, tail) == Coalesced(old(blocks), tail)
        decreases |blocks|
      {
        ghost var m, h := mem[..], blocks;
        var nothing := Pass();
        QuietTrans(old(mem[..]), old(blocks), m, h, mem[..], blocks);
        if nothing {
          return;
        }
      }
    }

    /** The search both `malloc` and `realloc` make: walk, and walk again after coalescing. */
    method Search(size: nat) returns (found: Option<nat>)
      requires Valid() && IsClass(size)
      modifies mem, `blocks
      ensures Valid() && Quiet(old(mem[..]), old(blocks), mem[..], blocks)
      ensures found.Some? ==> found.value in blocks && blocks[found.value].free && Req(blocks[found.value].size) == size
      ensures found.Some? <==> Obtainable(old(blocks), tail, size)
      ensures found.Some? ==> CutFrom(old(blocks), tail, size, blocks, found.value)
      ensures found.None? ==> blocks == Swept(Searched(old(blocks), tail, size), tail, 0)
      ensures found.None? ==> forall b :: Candidate(old(blocks), size, b) ==> b > 0 && Next(old(blocks), b) == tail
      ensures found.None? ==> forall b :: Candidate(blocks, size, b) ==> b > 0 && Next(blocks, b) == tail
    {
      hide Req, Word, Quiet, Represents, Tiled, Next, Best, Swept, Coalesced, Candidate, Obtainable, Halved;
      ObtainableIff(blocks, tail, size);
      found := FindBest(size);
      if found.None? {
        ghost var m, h := mem[..], blocks;
        Coalescence();
        QuietTrans(old(mem[..]), old(blocks), m, h, mem[..], blocks);
        m, h := mem[..], blocks;
        found := FindBest(size);
        QuietTrans(old(mem[..]), old(blocks), m, h, mem[..], blocks);
      }
    }

    /** `found->size = size + 16; found->is_free = false` */
    method Claim(b: nat, size: nat)
      requires Valid() && b in blocks && blocks[b].free
      requires size > 0 && size + HEADER <= REQUEST_LIMIT && Req(blocks[b].size) == Req(size + HEADER)
      modifies mem, `blocks
      ensures Valid() && blocks == old(blocks)[b := Header(size + HEADER, false)]
      ensures b !in Used(old(blocks)) && Used(blocks) == Used(old(blocks)) + {b}
      ensures Kept(old(mem[..]), old(blocks), mem[..], blocks, Used(old(blocks)))
    {
      hide Req, Word, PutSize, PutFree, Represents, Tiled, Next, HeaderAt, Kept;
      ghost var m, h := mem[..], blocks;
      NextIsNext(blocks, tail, b);
      ClaimKept(m, h, tail, b, size);
      SetSize(b, size + HEADER);
      SetFree(b, false);
      blocks := blocks[b := Header(size + HEADER, false)];
    }

    /** `malloc`: a block of its own for the request, and no other allocation touched. It succeeds whenever
        a large enough free block other than the last of the heap exists at the call, and exactly when one
        of its two searches finds a block, from the end of which it is cut. */
    method Malloc(size: nat) returns (p: Option<nat>)
      requires Valid() && size + HEADER <= REQUEST_LIMIT
      modifies mem, `blocks
      ensures Valid() && Kept(old(mem[..]), old(blocks), mem[..], blocks, Used(old(blocks)))
      ensures p.Some? <==> size > 0 && Obtainable(old(blocks), tail, Req(size + HEADER))
      ensures p.None? ==> Used(blocks) == Used(old(blocks))
      ensures p.None? ==>
                blocks == if size == 0 then old(blocks)
                          else Swept(Searched(old(blocks), tail, Req(size + HEADER)), tail, 0)
      ensures p.None? && size > 0 ==>
                && (forall b :: Candidate(old(blocks), Req(size + HEADER), b) ==> b > 0 && Next(old(blocks), b) == tail)
                && (forall b :: Candidate(blocks, Req(size + HEADER), b) ==> b > 0 && Next(blocks, b) == tail)
      ensures p.Some? ==> p.value >= HEADER && p.value - HEADER !in Used(old(blocks))
      ensures p.Some? ==> Used(blocks) == Used(old(blocks)) + {p.value - HEADER}
      ensures p.Some? ==> blocks[p.value - HEADER] == Header(size + HEADER, false)
      ensures p.Some? ==> CutFrom(old(blocks), tail, Req(size + HEADER), blocks, p.value - HEADER)
    {
      hide Req, Word, Represents, Tiled, Next, Obtainable, Candidate, CutFrom, Swept, Searched;
      if size != 0 {
        var actual := SizeRequired(size + HEADER);
        ReqIsLeastClass(size + HEADER);
        var found := Search(actual);
        if found.Some? {
          ghost var m, h := mem[..], blocks;
          Claim(found.value, size);
          CutFromClaimed(old(blocks), tail, actual, h, found.value, Header(size + HEADER, false));
          KeptTrans(old(mem[..]), old(blocks), m, h, mem[..], blocks, Used(old(blocks)));
          return Some(found.value + HEADER);
        }
      } else {
        QuietRefl(mem[..], blocks);
      }
      return None;
    }

    /** The address is one of a byte of the heap. */
    predicate Inside(p: int) {
      0 <= p < tail
    }

    /** A pointer the allocator gave out and has not taken back. */
    ghost predicate Live(p: int)
      reads this
    {
      p >= HEADER && p - HEADER in Used(blocks)
    }

    /** `free`: the block becomes free; every other allocation stays as it is. Null and pointers
        outside the heap are ignored. */
    method Free(ptr: Option<int>)
      requires Valid()
      requires ptr.Some? && Inside(ptr.value) ==> Live(ptr.value)
      modifies mem, `blocks
      ensures Valid()
      ensures ptr.None? || !Inside(ptr.value) ==> mem[..] == old(mem[..]) && blocks == old(blocks)
      ensures ptr.Some? && Inside(ptr.value) ==>
                var b := ptr.value - HEADER;
                && Used(blocks) == Used(old(blocks)) - {b}
                && blocks == old(blocks)[b := Header(Req(old(blocks)[b].size), true)]
                && Kept(old(mem[..]), old(blocks), mem[..], blocks, Used(old(blocks)) - {b})
    {
      hide Req, Word, PutSize, PutFree, Represents, Tiled, Next, HeaderAt, Kept;
      if ptr.Some? && 0 <= ptr.value && ptr.value < tail {
        var b := ptr.value - HEADER;
        ghost var m, h := mem[..], blocks;
        NextIsNext(blocks, tail, b);
        ReleaseKept(m, h, tail, b);
        var extent := SizeRequired(SizeOf(b));
        SetSize(b, extent);
        SetFree(b, true);
        blocks := blocks[b := Header(extent, true)];
      }
    }

    /** `memcpy` between two ranges that do not overlap. */
    method Copy(dst: nat, src: nat, n: nat)
      requires dst + n <= mem.Length && src + n <= mem.Length
      requires dst + n <= src || src + n <= dst
      modifies mem
      ensures forall i :: 0 <= i < mem.Length && !(dst <= i < dst + n) ==> mem[i] == old(mem[i])
      ensures mem[dst..dst + n] == old(mem[src..src + n])
    {
      forall k | 0 <= k < n {
        mem[dst + k] := mem[src + k];
      }
    }

    /** `realloc`: the result starts with the whole old payload, whether the block stayed or moved, and no
        other allocation is touched. When it fails the old block is still allocated and unchanged. Exactly
        when it finds a block for a request of a smaller class, the copy would overrun that block (see
        `CopyFits`); the model stops there. */
    method Realloc(ptr: Option<int>, size: nat) returns (p: Option<nat>, overran: bool)
      requires Valid() && size + HEADER <= REQUEST_LIMIT
      requires ptr.Some? && Inside(ptr.value) ==> Live(ptr.value)
      modifies mem, `blocks
      ensures Valid()
      ensures overran <==>
                && ptr.Some? && Inside(ptr.value) && size > 0 && Obtainable(old(blocks), tail, Req(size + HEADER))
                && Req(size + HEADER) < Req(old(blocks)[ptr.value - HEADER].size)
      ensures overran ==> p.None?
      ensures ptr.None? ==> (p.Some? <==> size > 0 && Obtainable(old(blocks), tail, Req(size + HEADER)))
      ensures ptr.Some? && Inside(ptr.value) && size > 0 ==>
                (p.Some? || overran <==> Req(size + HEADER) == Req(old(blocks)[ptr.value - HEADER].size)
                                         || Obtainable(old(blocks), tail, Req(size + HEADER)))
      ensures Kept(old(mem[..]), old(blocks), mem[..], blocks,
                   Used(old(blocks)) - (if ptr.Some? then {ptr.value - HEADER} else {}))
      // null: allocate
      ensures ptr.None? && p.None? ==> Used(blocks) == Used(old(blocks))
      ensures ptr.None? && p.Some? ==> p.value >= HEADER && p.value - HEADER !in Used(old(blocks))
      ensures ptr.None? && p.Some? ==> Used(blocks) == Used(old(blocks)) + {p.value - HEADER}
      ensures ptr.None? && p.Some? ==> CutFrom(old(blocks), tail, Req(size + HEADER), blocks, p.value - HEADER)
      // a pointer outside the heap: nothing, and no pointer
      ensures ptr.Some? && !Inside(ptr.value) ==> p.None? && mem[..] == old(mem[..]) && blocks == old(blocks)
      // zero bytes: release
      ensures size == 0 ==> p.None?
      ensures ptr.Some? && Inside(ptr.value) && size == 0 ==> Used(blocks) == Used(old(blocks)) - {ptr.value - HEADER}
      // otherwise: the same payload in a block for the new request
      ensures p.Some? ==>
                && p.value >= HEADER && p.value - HEADER in blocks
                && blocks[p.value - HEADER] == Header(size + HEADER, false)
      ensures ptr.Some? && Inside(ptr.value) && size > 0 && p.None? ==>
              Quiet(old(mem[..]), old(blocks), mem[..], blocks)
      ensures ptr.Some? && p.Some? ==> p.value == ptr.value || p.value - HEADER !in Used(old(blocks))
      ensures ptr.Some? && p.Some? ==>
                (p.value == ptr.value <==> Req(size + HEADER) == Req(old(blocks)[ptr.value - HEADER].size))
      // a block that moved: where `malloc` would have put it, and the old one free behind it
      ensures ptr.Some? && p.Some? && p.value != ptr.value ==>
                MovedFrom(old(blocks), tail, Req(size + HEADER), blocks, ptr.value - HEADER, p.value - HEADER)
      ensures ptr.Some? && p.Some? ==> Used(blocks) == Used(old(blocks)) - {ptr.value - HEADER} + {p.value - HEADER}
      ensures ptr.Some? && p.Some? ==>
              SamePayload(old(mem[..]), ptr.value, mem[..], p.value, old(blocks)[ptr.value - HEADER].size - HEADER)
    {
      hide Req, Word, Represents, Tiled, Next, Kept, SamePayload, Quiet, Obtainable, Candidate, CutFrom;
      hide MovedFrom;
      overran := false;
      if ptr.None? {
        p := Malloc(size);
        assert Used(old(blocks)) - {} == Used(old(blocks));
        return;
      }
      if size == 0 {
        KeptRefl(mem[..], blocks, Used(blocks) - {ptr.value - HEADER});
        Free(ptr);
        return None, false;
      }
      if 0 > ptr.value || tail <= ptr.value {
        KeptRefl(mem[..], blocks, Used(blocks) - {ptr.value - HEADER});
        return None, false;
      }
      var block := ptr.value - HEADER;
      var oldSize := SizeOf(block);
      var actual := SizeRequired(size + HEADER);
      var extent := SizeRequired(oldSize);
      if extent == actual {
        GrowInPlace(block, size);
        return Some(ptr.value), false;
      }
      ReqIsLeastClass(size + HEADER);
      var found := Search(actual);
      QuietKept(old(mem[..]), old(blocks), tail, mem[..], blocks, block);
      if found.Some? {
        if actual < extent {
          return None, true;
        }
        ghost var m, h := mem[..], blocks;
        Move(block, found.value, size);
        MovedFromClaimed(old(blocks), tail, actual, h, block, found.value, Header(size + HEADER, false));
        KeptTrans(old(mem[..]), old(blocks), m, h, mem[..], blocks, Used(old(blocks)) - {block});
        SamePayloadTrans(old(mem[..]), m, mem[..], ptr.value, found.value + HEADER, oldSize - HEADER);
        return Some(found.value + HEADER), false;
      }
      return None, false;
    }

    /** `old_block->size = size + 16` */
    method GrowInPlace(block: nat, size: nat)
      requires Valid() && block in Used(blocks)
      requires size > 0 && size + HEADER <= REQUEST_LIMIT && Req(blocks[block].size) == Req(size + HEADER)
      modifies mem, `blocks
      ensures Valid() && blocks == old(blocks)[block := Header(size + HEADER, false)]
      ensures Used(blocks) == Used(old(blocks))
      ensures Kept(old(mem[..]), old(blocks), mem[..], blocks, Used(old(blocks)) - {block})
      ensures SamePayload(old(mem[..]), block + HEADER, mem[..], block + HEADER, old(blocks)[block].size - HEADER)
    {
      hide Req, Word, Tiled, Next, HeaderAt, PutSize, Represents;
      ghost var m, h := mem[..], blocks;
      NextIsNext(h, tail, block);
      HeaderApart(h, tail, block);
      PutSizeRepresents(m, h, block, size + HEADER);
      RewriteTiled(h, tail, block, Header(size + HEADER, false));
      SetSize(block, size + HEADER);
      BlockEditKept(m, h, tail, mem[..], block);
      blocks := blocks[block := Header(size + HEADER, false)];
      assert blocks == h[block := h[block].(size := size + HEADER)];
      ghost var p, n := block + HEADER, h[block].size - HEADER;
      assert mem[..][p..p + n] == m[p..p + n];
    }

    /** Copies the payload of `block` into the larger block `b` and frees `block`, whose header keeps
        its unrounded size. */
    method Transfer(block: nat, b: nat)
      requires Valid() && block in Used(blocks) && b in Used(blocks) && b != block
      requires blocks[block].size <= Req(blocks[b].size)
      modifies mem, `blocks
      ensures Valid() && blocks == old(blocks)[block := Header(old(blocks)[block].size, true)]
      ensures Kept(old(mem[..]), old(blocks), mem[..], blocks, Used(old(blocks)) - {b, block})
      ensures SamePayload(old(mem[..]), block + HEADER, mem[..], b + HEADER, old(blocks)[block].size - HEADER)
    {
      hide Req, Word, Tiled, Next, HeaderAt, PutFree, Represents, Kept;
      var oldSize := SizeOf(block);
      NextIsNext(blocks, tail, block);
      NextIsNext(blocks, tail, b);
      NextDef(blocks, b);
      HeaderApart(blocks, tail, block);
      ghost var m := mem[..];
      Copy(b + HEADER, block + HEADER, oldSize - HEADER);
      MoveKept(m, blocks, tail, mem[..], block, b, oldSize - HEADER);
      SetFree(block, true);
      blocks := blocks[block := Header(oldSize, true)];
    }

    /** Claims the free block `b` for the request and moves the payload of `block` there. */
    method Move(block: nat, b: nat, size: nat)
      requires Valid() && block in Used(blocks) && b in blocks && blocks[b].free
      requires size > 0 && size + HEADER <= REQUEST_LIMIT && Req(blocks[b].size) == Req(size + HEADER)
      requires Req(blocks[block].size) <= Req(size + HEADER)
      modifies mem, `blocks
      ensures Valid()
      ensures blocks == old(blocks)[b := Header(size + HEADER, false)][block := Header(old(blocks)[block].size, true)]
      ensures b !in Used(old(blocks)) && Used(blocks) == Used(old(blocks)) - {block} + {b}
      ensures Kept(old(mem[..]), old(blocks), mem[..], blocks, Used(old(blocks)) - {block})
      ensures SamePayload(old(mem[..]), block + HEADER, mem[..], b + HEADER, old(blocks)[block].size - HEADER)
    {
      hide Req, Word, Tiled, Next, HeaderAt, Represents, Kept, SamePayload;
      ghost var m0, h0 := mem[..], blocks;
      ghost var others := Used(h0) - {block};
      CopyFits(blocks[block].size, size + HEADER);
      Claim(b, size);
      ghost var m1, h1 := mem[..], blocks;
      assert h1[block] == h0[block];
      Transfer(block, b);
      KeptPayload(m0, h0, tail, m1, h1, Used(h0), block);
      SamePayloadTrans(m0, m1, mem[..], block + HEADER, b + HEADER, h0[block].size - HEADER);
      KeptSubset(m0, h0, m1, h1, Used(h0), others);
      KeptSubset(m1, h1, mem[..], blocks, Used(h1) - {b, block}, others);
      KeptTrans(m0, h0, m1, h1, mem[..], blocks, others);
    }
  }
}
