/** The walk `coalescence` makes over pairs of neighbouring blocks, and when it finds nothing. */
module PairWalk {
  import opened SizeClass
  import opened Tiling

  ghost predicate Mergeable(h: Blocks, b: nat, c: nat) {
    b in h && c in h && h[b].free && h[c].free && h[b].size == h[c].size
  }

  /** `b` and the block after it form a pair. */
  ghost predicate Paired(h: Blocks, b: nat) {
    b in h && Next(h, b) in h
  }

  /** Where the walk goes from an unmergeable pair: to the second block when the first is in a
      smaller class, past both otherwise. */
  ghost function PairStep(h: Blocks, b: nat): (n: nat)
    requires Paired(h, b)
    ensures n > b
  {
    var c := Next(h, b);
    ReqIsLeastClass(h[b].size);
    ReqIsLeastClass(h[c].size);
    if Req(h[b].size) < Req(h[c].size) then c else Next(h, c)
  }

  /** The walk from `b` meets no pair it would merge. */
  ghost predicate Settled(h: Blocks, tail: nat, b: nat)
    requires Tiled(h, tail)
    decreases tail - b
  {
    Paired(h, b) ==> !Mergeable(h, b, Next(h, b)) && Settled(h, tail, PairStep(h, b))
  }

  /** The walk from `b` arrives at `x` and meets no pair it would merge on the way. */
  ghost predicate SettledTo(h: Blocks, tail: nat, b: nat, x: nat)
    requires Tiled(h, tail)
    decreases tail - b
  {
    b == x || (b < x && Paired(h, b) && !Mergeable(h, b, Next(h, b)) && SettledTo(h, tail, PairStep(h, b), x))
  }

  lemma {:induction false} SettledStep(h: Blocks, tail: nat, b: nat, x: nat)
    requires Tiled(h, tail) && SettledTo(h, tail, b, x)
    requires Paired(h, x) && !Mergeable(h, x, Next(h, x))
    ensures SettledTo(h, tail, b, PairStep(h, x))
    decreases tail - b
  {
    hide Req;
    if b < x {
      SettledStep(h, tail, PairStep(h, b), x);
    }
  }

  lemma {:induction false} SettledEnd(h: Blocks, tail: nat, b: nat, x: nat)
    requires Tiled(h, tail) && SettledTo(h, tail, b, x) && !Paired(h, x)
    ensures Settled(h, tail, b)
    decreases tail - b
  {
    hide Req;
    if b < x {
      SettledEnd(h, tail, PairStep(h, b), x);
    }
  }

  lemma SettledHere(h: Blocks, tail: nat, b: nat)
    requires Tiled(h, tail)
    ensures SettledTo(h, tail, b, b)
  {
  }

  /** A walk that has arrived at the tail, or at the last block, is over. */
  lemma SettledLast(h: Blocks, tail: nat, x: nat)
    requires Tiled(h, tail) && SettledTo(h, tail, 0, x)
    requires x < tail ==> x in h && tail <= Next(h, x)
    ensures Settled(h, tail, 0)
  {
    hide Req, SettledTo, Settled;
    TiledFacts(h, tail);
    SettledEnd(h, tail, 0, x);
  }

  /** Merging at the place the walk has reached does not disturb the walk up to it. */
  lemma {:induction false} SettledToMerge(h: Blocks, tail: nat, b: nat, x: nat)
    requires Tiled(h, tail) && SettledTo(h, tail, b, x)
    requires Paired(h, x) && Mergeable(h, x, Next(h, x))
    requires Tiled(Merge(h, x, Next(h, x)), tail)
    ensures SettledTo(Merge(h, x, Next(h, x)), tail, b, x)
    decreases tail - b
  {
    hide Req;
    if b < x {
      var r := Merge(h, x, Next(h, x));
      var c := Next(h, b);
      assert c <= x;
      HeaderApart(h, tail, x);
      assert r[b] == h[b] && Next(r, b) == c;
      ReqDoubles(h[x].size);
      if c < x {
        assert r[c] == h[c] && Next(r, c) == Next(h, c) && Next(h, c) <= x;
      }
      assert PairStep(r, b) == PairStep(h, b);
      SettledToMerge(h, tail, PairStep(h, b), x);
    }
  }

  // ---------- what coalescing leaves ----------

  /** The heap after merging the mergeable pair at `b`, where the walk goes on behind it. */
  ghost function MergedAt(h: Blocks, tail: nat, b: nat): (r: Blocks)
    requires Tiled(h, tail) && Paired(h, b) && Mergeable(h, b, Next(h, b))
    ensures r == Merge(h, b, Next(h, b)) && Tiled(r, tail) && |r| < |h|
  {
    MergeTiled(h, tail, b, Next(h, b));
    Merge(h, b, Next(h, b))
  }

  lemma PairInside(h: Blocks, tail: nat, b: nat)
    requires Tiled(h, tail) && Paired(h, b)
    ensures var c := Next(h, b);
            && b < c < Next(h, c) <= tail && (Next(h, c) == tail || Next(h, c) in h)
            && forall x :: x in h ==> x <= b || x == c || Next(h, c) <= x
  {
    hide Req, Tiled;
    NextIsNext(h, tail, b);
    NextIsNext(h, tail, Next(h, b));
  }

  /** The heap after one pass of `coalescence` from `b` on. */
  ghost function Passed(h: Blocks, tail: nat, b: nat): (r: Blocks)
    requires Tiled(h, tail)
    ensures Tiled(r, tail) && |r| <= |h|
    ensures !Idle(h, tail, b) ==> |r| < |h|
    decreases tail - b
  {
    if !Paired(h, b) then h
    else
      PairInside(h, tail, b);
      if Mergeable(h, b, Next(h, b)) then Passed(MergedAt(h, tail, b), tail, Next(h, Next(h, b)))
      else Passed(h, tail, PairStep(h, b))
  }

  /** The pass takes itself for the last one: it merged no pair but possibly one at the very end. */
  ghost predicate Idle(h: Blocks, tail: nat, b: nat)
    requires Tiled(h, tail)
    decreases tail - b
  {
    Paired(h, b) ==>
      (PairInside(h, tail, b);
       if Mergeable(h, b, Next(h, b)) then Next(h, Next(h, b)) == tail else Idle(h, tail, PairStep(h, b)))
  }

  /** The heap `coalescence` leaves. */
  ghost function Coalesced(h: Blocks, tail: nat): (r: Blocks)
    requires Tiled(h, tail)
    ensures Tiled(r, tail)
    decreases |h|
  {
    if Idle(h, tail, 0) then Passed(h, tail, 0) else Coalesced(Passed(h, tail, 0), tail)
  }

  lemma {:induction false} SettledPassed(h: Blocks, tail: nat, b: nat)
    requires Tiled(h, tail)
    ensures if Settled(h, tail, b) then Passed(h, tail, b) == h && Idle(h, tail, b) else |Passed(h, tail, b)| < |h|
    decreases tail - b
  {
    hide Req, Tiled, PairStep, Next;
    if Paired(h, b) && !Mergeable(h, b, Next(h, b)) {
      PairInside(h, tail, b);
      SettledPassed(h, tail, PairStep(h, b));
    }
  }

  lemma {:induction false} CoalescedSmaller(h: Blocks, tail: nat)
    requires Tiled(h, tail)
    ensures |Coalesced(h, tail)| <= |Passed(h, tail, 0)|
    decreases |h|
  {
    hide Req, Tiled, Passed, Idle;
    if !Idle(h, tail, 0) {
      CoalescedSmaller(Passed(h, tail, 0), tail);
    }
  }

  /** Coalescing leaves a heap as it is if and only if its walk meets no pair to merge. */
  lemma CoalescedIff(h: Blocks, tail: nat)
    requires Tiled(h, tail)
    ensures Coalesced(h, tail) == h <==> Settled(h, tail, 0)
  {
    hide Req, Tiled, Passed, Idle, Settled;
    SettledPassed(h, tail, 0);
    CoalescedSmaller(h, tail);
  }

  /** The walk comes to the pair at `x` and goes past both its blocks, although the second and the block
      behind it could be merged. */
  ghost predicate GoesPast(h: Blocks, tail: nat, x: nat)
    requires Tiled(h, tail)
  {
    && SettledTo(h, tail, 0, x) && Paired(h, x) && Paired(h, Next(h, x))
    && Req(h[Next(h, x)].size) <= Req(h[x].size) && Mergeable(h, Next(h, x), Next(h, Next(h, x)))
  }

  lemma {:induction false} OffWalk(h: Blocks, tail: nat, b: nat, y: nat) returns (x: nat)
    requires Tiled(h, tail) && Settled(h, tail, b) && (b in h || b == tail)
    requires y in h && b <= y && Paired(h, y) && Mergeable(h, y, Next(h, y))
    ensures SettledTo(h, tail, b, x) && Paired(h, x) && Next(h, x) == y && PairStep(h, x) == Next(h, y)
    decreases tail - b
  {
    hide Req, Tiled, Next, PairStep;
    if !Paired(h, b) {
      TiledFacts(h, tail);
      NextIsNext(h, tail, b);
      PairInside(h, tail, y);
      assert false;
    } else {
      PairInside(h, tail, b);
      PairStepCases(h, b);
      if Next(h, b) == y && PairStep(h, b) == Next(h, y) {
        x := b;
      } else {
        x := OffWalk(h, tail, PairStep(h, b), y);
      }
    }
  }

  lemma PairStepCases(h: Blocks, b: nat)
    requires Paired(h, b)
    ensures PairStep(h, b) == Next(h, b) || PairStep(h, b) == Next(h, Next(h, b))
  {
    hide Req, Next;
  }

  /** Where coalescing finds nothing more to do, free neighbours of equal size are left exactly where its walk
      goes past the first of them. */
  lemma LeftApart(h: Blocks, tail: nat)
    requires Tiled(h, tail) && Settled(h, tail, 0)
    ensures (exists y :: Paired(h, y) && Mergeable(h, y, Next(h, y))) <==> (exists x :: GoesPast(h, tail, x))
  {
    hide Req, Tiled, Settled, SettledTo;
    if y :| Paired(h, y) && Mergeable(h, y, Next(h, y)) {
      TiledHead(h, tail);
      var x := OffWalk(h, tail, 0, y);
      PairInside(h, tail, y);
      assert GoesPast(h, tail, x);
    }
    if x :| GoesPast(h, tail, x) {
      assert Paired(h, Next(h, x)) && Mergeable(h, Next(h, x), Next(h, Next(h, x)));
    }
  }

  /** A wholly free heap of 256 bytes, as the first search of malloc(240) leaves it after malloc(16) and
      `free`. */
  ghost function FreeHeap(): Blocks {
    map[0 := Header(128, true), 128 := Header(64, true), 192 := Header(64, true)]
  }

  lemma SmallClass()
    ensures Req(32) == 32 && Req(64) == 64 && Req(128) == 128 && Req(256) == 256
  {
  }

  lemma FreeHeapTiled()
    ensures var h := FreeHeap();
            && Tiled(h, 256) && h.Keys == {0, 128, 192}
            && Next(h, 0) == 128 && Next(h, 128) == 192 && Next(h, 192) == 256
  {
    hide Req, Tiled;
    SmallClass();
    OneTiled(Header(128, true));
    var h0: Blocks := map[0 := Header(128, true)];
    AppendTiled(h0, 128, Header(64, true));
    AppendTiled(h0[128 := Header(64, true)], 192, Header(64, true));
    assert h0[128 := Header(64, true)][192 := Header(64, true)] == FreeHeap();
  }

  /** Coalescing may leave two free buddies apart: it goes past the first of them. */
  lemma BuddiesLeft()
    ensures var h := FreeHeap();
            Tiled(h, 256) && Mergeable(h, 128, 192) && Next(h, 128) == 192 && Coalesced(h, 256) == h
  {
    hide Req, Tiled, Next, Coalesced;
    SmallClass();
    FreeHeapTiled();
    var h := FreeHeap();
    assert PairStep(h, 0) == 192;
    hide PairStep;
    assert Settled(h, 256, 192);
    assert Settled(h, 256, 0);
    CoalescedIff(h, 256);
  }
}
