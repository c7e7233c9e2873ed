/** The walk `find_best` makes over pairs of neighbouring blocks, as functions of the heap it starts on:
    which block it settles on, what its merges leave, and which block it never looks at. */
module SearchWalk {
  import opened Wrappers
  import opened SizeClass
  import opened Tiling
  import opened PairWalk

  ghost predicate Candidate(h: Blocks, size: nat, b: nat) {
    b in h && h[b].free && size <= h[b].size
  }

  /** The better of `best` and the two blocks of an unmergeable pair. The extent of `best` is taken before
      the first of them is compared. */
  ghost function Compared(h: Blocks, size: nat, best: Option<nat>, b: nat, c: nat): (choice: Option<nat>)
    requires b in h && c in h && (best.Some? ==> best.value in h)
    ensures choice == best || ((choice == Some(b) || choice == Some(c)) && Candidate(h, size, choice.value))
    ensures choice.Some? <==> best.Some? || Candidate(h, size, b) || Candidate(h, size, c)
  {
    var extent := if best.Some? then Req(h[best.value].size) else 0;
    var first := if Candidate(h, size, b) && (best.None? || h[b].size <= extent) then Some(b) else best;
    if Candidate(h, size, c) && (first.None? || h[c].size < extent) then Some(c) else first
  }

  /** The better of `best` and the block just merged. */
  ghost function ComparedMerged(h: Blocks, size: nat, best: Option<nat>, b: nat): (choice: Option<nat>)
    requires b in h && (best.Some? ==> best.value in h)
    ensures choice == best || (choice == Some(b) && size <= h[b].size)
    ensures choice.Some? <==> best.Some? || size <= h[b].size
  {
    if size <= h[b].size && (best.None? || h[b].size <= h[best.value].size) then Some(b) else best
  }

  /** No block that was compared is in a smaller class than the choice. */
  ghost predicate LeastOf(h: Blocks, choice: Option<nat>, xs: set<nat>)
    requires (choice.Some? ==> choice.value in h) && xs <= h.Keys
  {
    forall x :: x in xs ==> choice.Some? && Req(h[choice.value].size) <= Req(h[x].size)
  }

  /** Comparing a pair keeps a choice of the least class, except when both blocks could store the request
      and the second is wrongly passed over, there being no choice yet, or wrongly preferred. */
  lemma ComparedLeast(h: Blocks, size: nat, best: Option<nat>, b: nat, c: nat)
    requires b in h && c in h && (best.Some? ==> best.value in h)
    ensures var xs := (if best.Some? then {best.value} else {}) + (set x | x in {b, c} && Candidate(h, size, x));
            LeastOf(h, Compared(h, size, best, b, c), xs) <==>
            !(&& Candidate(h, size, b) && Candidate(h, size, c)
              && if best.None? then Req(h[c].size) < Req(h[b].size)
                 else Req(h[b].size) < Req(h[c].size) && h[c].size < Req(h[best.value].size))
  {
    hide Req;
    if best.Some? {
      ReqOfReq(h[best.value].size);
      ReqIsLeastClass(h[best.value].size);
      ReqCompare(h[b].size, h[best.value].size);
      ReqCompare(h[c].size, h[best.value].size);
    }
  }

  /** A size is within a class exactly when its own class is. */
  lemma ReqCompare(s: nat, t: nat)
    ensures s <= Req(t) <==> Req(s) <= Req(t)
  {
    hide Req;
    ReqIsLeastClass(s);
    ReqIsLeastClass(t);
  }

  /** The comparison after a merge always keeps the least class. */
  lemma MergedLeast(h: Blocks, size: nat, best: Option<nat>, b: nat)
    requires b in h && h[b].free && (best.Some? ==> best.value in h)
    ensures var xs := (if best.Some? then {best.value} else {}) + (if size <= h[b].size then {b} else {});
            LeastOf(h, ComparedMerged(h, size, best, b), xs)
  {
    hide Req;
    if best.Some? {
      if h[b].size <= h[best.value].size {
        ReqMonotone(h[b].size, h[best.value].size);
      } else {
        ReqMonotone(h[best.value].size, h[b].size);
      }
    }
  }

  /** Where the walk goes from an unmergeable pair: past both blocks, or to the second if it is in a
      smaller class. */
  ghost function SearchStep(h: Blocks, b: nat): (n: nat)
    requires Paired(h, b)
    ensures n == Next(h, b) || n == Next(h, Next(h, b))
    ensures b < Next(h, b) <= n && Next(h, b) < Next(h, Next(h, b))
  {
    var c := Next(h, b);
    ReqIsLeastClass(h[b].size);
    ReqIsLeastClass(h[c].size);
    if Req(h[b].size) <= Req(h[c].size) then Next(h, c) else c
  }

  /** The block the walk from `b` settles on if it has chosen `best` before. */
  ghost function Chosen(h: Blocks, tail: nat, size: nat, b: nat, best: Option<nat>): Option<nat>
    requires Tiled(h, tail) && (best.Some? ==> best.value in h && best.value <= b)
    decreases tail - b
  {
    if !Paired(h, b) then best
    else
      var c, n := Next(h, b), SearchStep(h, b);
      if Mergeable(h, b, c) then
        var r := MergedAt(h, tail, b);
        Chosen(r, tail, size, Next(h, c), ComparedMerged(r, size, best, b))
      else Chosen(h, tail, size, n, Compared(h, size, best, b, c))
  }

  /** The heap its merges leave. */
  ghost function Swept(h: Blocks, tail: nat, b: nat): Blocks
    requires Tiled(h, tail)
    decreases tail - b
  {
    if !Paired(h, b) then h
    else
      var c, n := Next(h, b), SearchStep(h, b);
      if Mergeable(h, b, c) then Swept(MergedAt(h, tail, b), tail, Next(h, c)) else Swept(h, tail, n)
  }

  /** The block at which the walk ends without having compared it; `seen` tells whether it compared `b`
      as the second of a pair. */
  ghost function Overlooked(h: Blocks, tail: nat, b: nat, seen: bool): (x: Option<nat>)
    requires Tiled(h, tail)
    ensures x.Some? ==> b <= x.value && (seen ==> b < x.value)
    decreases tail - b
  {
    if !Paired(h, b) then if b in h && !seen then Some(b) else None
    else
      var c, n := Next(h, b), SearchStep(h, b);
      if Mergeable(h, b, c) then Overlooked(MergedAt(h, tail, b), tail, Next(h, c), false)
      else Overlooked(h, tail, n, n == c)
  }

  /** `find_best`: a heap of one free block is not walked. */
  ghost function Best(h: Blocks, tail: nat, size: nat): Option<nat>
    requires Tiled(h, tail)
  {
    if Next(h, 0) == tail && h[0].free then if size <= Req(h[0].size) then Some(0) else None
    else Chosen(h, tail, size, 0, None)
  }

  lemma Unpaired(h: Blocks, tail: nat, b: nat)
    requires Tiled(h, tail) && (b in h || b == tail) && !Paired(h, b)
    ensures forall x :: x in h && b <= x ==> x == b && Next(h, x) == tail
  {
    hide Req, Next, Tiled;
    TiledFacts(h, tail);
    if b in h {
      NextIsNext(h, tail, b);
    }
  }

  /** The walk leaves what it has passed alone, and the block it stands at can only grow. */
  lemma {:induction false} SweptFacts(h: Blocks, tail: nat, b: nat)
    requires Tiled(h, tail)
    ensures Tiled(Swept(h, tail, b), tail)
    ensures forall x :: x < b ==> (x in Swept(h, tail, b) <==> x in h)
    ensures forall x :: x in h && x < b ==> x in Swept(h, tail, b) && Swept(h, tail, b)[x] == h[x]
    ensures forall size :: Candidate(h, size, b) ==> Candidate(Swept(h, tail, b), size, b)
    decreases tail - b
  {
    hide Req, Tiled, SearchStep;
    if Paired(h, b) {
      PairInside(h, tail, b);
      var c, n := Next(h, b), SearchStep(h, b);
      if Mergeable(h, b, c) {
        SweptFacts(MergedAt(h, tail, b), tail, Next(h, c));
      } else {
        SweptFacts(h, tail, n);
      }
    }
  }

  /** A choice once made is only traded for another. */
  lemma {:induction false} ChosenStays(h: Blocks, tail: nat, size: nat, b: nat, best: Option<nat>)
    requires Tiled(h, tail) && best.Some? && best.value in h && best.value <= b
    ensures Chosen(h, tail, size, b, best).Some?
    decreases tail - b
  {
    hide Req, Tiled, SearchStep, Compared, ComparedMerged;
    if Paired(h, b) {
      PairInside(h, tail, b);
      var c, n := Next(h, b), SearchStep(h, b);
      if Mergeable(h, b, c) {
        var r := MergedAt(h, tail, b);
        ChosenStays(r, tail, size, Next(h, c), ComparedMerged(r, size, best, b));
      } else {
        ChosenStays(h, tail, size, n, Compared(h, size, best, b, c));
      }
    }
  }

  /** Any large enough free block but the last of the heap is found or bettered. */
  lemma {:induction false} CandidateFound(h: Blocks, tail: nat, size: nat, b: nat, x: nat)
    requires Tiled(h, tail) && (b in h || b == tail) && b <= x
    requires Candidate(h, size, x) && Next(h, x) in h
    ensures Chosen(h, tail, size, b, None).Some?
    decreases tail - b
  {
    hide Req, Tiled, SearchStep, Compared, ComparedMerged;
    if !Paired(h, b) {
      Unpaired(h, tail, b);
    } else {
      PairInside(h, tail, b);
      var c, n := Next(h, b), SearchStep(h, b);
      if Mergeable(h, b, c) {
        var r := MergedAt(h, tail, b);
        var best := ComparedMerged(r, size, None, b);
        if best.Some? {
          ChosenStays(r, tail, size, Next(h, c), best);
        } else {
          MergeTiled(h, tail, b, c);
          CandidateFound(r, tail, size, Next(h, c), x);
        }
      } else {
        var best := Compared(h, size, None, b, c);
        if best.Some? {
          ChosenStays(h, tail, size, n, best);
        } else {
          CandidateFound(h, tail, size, n, x);
        }
      }
    }
  }

  /** Some block from `b` on is free and large enough, other than `o`. */
  ghost predicate Offers(h: Blocks, size: nat, b: nat, o: Option<nat>) {
    exists y: nat :: b <= y && Candidate(h, size, y) && o != Some(y)
  }

  lemma OffersFrom(h: Blocks, size: nat, b: nat, n: nat, o: Option<nat>)
    requires b <= n && forall y: nat :: b <= y < n ==> !Candidate(h, size, y)
    ensures Offers(h, size, b, o) <==> Offers(h, size, n, o)
  {
    hide Candidate;
    if Offers(h, size, b, o) {
      var y: nat :| b <= y && Candidate(h, size, y) && o != Some(y);
      assert n <= y;
    }
    if Offers(h, size, n, o) {
      var y: nat :| n <= y && Candidate(h, size, y) && o != Some(y);
      assert b <= y;
    }
  }

  /** The walk finds a block exactly if its merges leave one that is free and large enough, not counting
      the block it never compares. */
  lemma {:induction false} FoundIff(h: Blocks, tail: nat, size: nat, b: nat, seen: bool)
    requires Tiled(h, tail) && (b in h || b == tail) && (seen ==> !Candidate(h, size, b))
    ensures Chosen(h, tail, size, b, None).Some? <==> Offers(Swept(h, tail, b), size, b, Overlooked(h, tail, b, seen))
    decreases tail - b
  {
    hide Req, Tiled, SearchStep, Compared, ComparedMerged, Offers;
    if !Paired(h, b) {
      Unpaired(h, tail, b);
      OffersNone(h, size, b, Overlooked(h, tail, b, seen));
    } else {
      PairInside(h, tail, b);
      var c, n := Next(h, b), SearchStep(h, b);
      var next := if Mergeable(h, b, c) then Next(h, c) else n;
      var r := if Mergeable(h, b, c) then MergedAt(h, tail, b) else h;
      var o := Overlooked(r, tail, next, !Mergeable(h, b, c) && n == c);
      var best := if Mergeable(h, b, c) then ComparedMerged(r, size, None, b) else Compared(h, size, None, b, c);
      SweptFacts(r, tail, next);
      if best.Some? {
        ChosenStays(r, tail, size, next, best);
        assert Candidate(Swept(r, tail, next), size, best.value) && o != Some(best.value) && b <= best.value;
        assert Offers(Swept(r, tail, next), size, b, o) by { OffersThis(Swept(r, tail, next), size, b, o, best.value); }
      } else {
        FoundIff(r, tail, size, next, !Mergeable(h, b, c) && n == c);
        OffersFrom(Swept(r, tail, next), size, b, next, o);
      }
    }
  }

  lemma OffersNone(h: Blocks, size: nat, b: nat, o: Option<nat>)
    requires forall y: nat :: b <= y && Candidate(h, size, y) ==> o == Some(y)
    ensures !Offers(h, size, b, o)
  {
  }

  lemma OffersThis(h: Blocks, size: nat, b: nat, o: Option<nat>, y: nat)
    requires b <= y && Candidate(h, size, y) && o != Some(y)
    ensures Offers(h, size, b, o)
  {
  }

  // ---------- two searches, the second after coalescing ----------

  /** The search of heap `h` finds a block: a single free block is large enough, or else the merges of the walk
      leave a large enough free block other than the one it ends at without comparing it. */
  ghost predicate Offered(h: Blocks, tail: nat, size: nat)
    requires Tiled(h, tail)
  {
    if Next(h, 0) == tail && h[0].free then size <= Req(h[0].size)
    else Offers(Swept(h, tail, 0), size, 0, Overlooked(h, tail, 0, false))
  }

  lemma BestIff(h: Blocks, tail: nat, size: nat)
    requires Tiled(h, tail)
    ensures Best(h, tail, size).Some? <==> Offered(h, tail, size)
  {
    hide Req, Chosen, Swept, Overlooked, Offers;
    TiledHead(h, tail);
    FoundIff(h, tail, size, 0, false);
  }

  /** What `malloc` and `realloc` go by: the heap, or what a search without success and coalescing leave of it,
      offers a block. */
  ghost predicate Obtainable(h: Blocks, tail: nat, size: nat)
    requires Tiled(h, tail)
  {
    SweptFacts(h, tail, 0);
    Offered(h, tail, size) || Offered(Coalesced(Swept(h, tail, 0), tail), tail, size)
  }

  /** The heap the successful one of the two searches starts on. */
  ghost function Searched(h: Blocks, tail: nat, size: nat): (r: Blocks)
    requires Tiled(h, tail)
    ensures Tiled(r, tail)
  {
    SweptFacts(h, tail, 0);
    if Best(h, tail, size).Some? then h else Coalesced(Swept(h, tail, 0), tail)
  }

  /** In heap `r` the block at `found` was cut from the end of the block that search settles on, and the other
      blocks are those its merges left and the halves split off. */
  ghost predicate CutFrom(h: Blocks, tail: nat, size: nat, r: Blocks, found: int)
    requires Tiled(h, tail)
  {
    var h1 := Searched(h, tail, size);
    var b, swept := Best(h1, tail, size), Swept(h1, tail, 0);
    b.Some? && b.value in swept && 0 <= found && Halved(swept, r, b.value, size, found)
  }

  /** The header of the block found may change. */
  lemma CutFromClaimed(h: Blocks, tail: nat, size: nat, r: Blocks, found: nat, x: Header)
    requires Tiled(h, tail) && CutFrom(h, tail, size, r, found) && 0 < size
    ensures CutFrom(h, tail, size, r[found := x], found)
  {
    hide Req, Next, Best, Swept, Searched, Tiled;
  }

  /** In heap `r` the used block `block` of `h` is free, its contents having moved to the block at `found`. */
  ghost predicate MovedFrom(h: Blocks, tail: nat, size: nat, r: Blocks, block: int, found: int)
    requires Tiled(h, tail)
  {
    && block in h && CutFrom(h, tail, size, r[block := h[block]], found)
    && block in r && r[block] == Header(h[block].size, true)
  }

  lemma MovedFromClaimed(h: Blocks, tail: nat, size: nat, r: Blocks, block: nat, found: nat, x: Header)
    requires Tiled(h, tail) && block in h && block in r && r[block] == h[block] && block != found
    requires CutFrom(h, tail, size, r, found) && 0 < size
    ensures MovedFrom(h, tail, size, r[found := x][block := Header(h[block].size, true)], block, found)
  {
    hide Req, Next, Tiled, CutFrom;
    CutFromClaimed(h, tail, size, r, found, x);
    assert r[found := x][block := Header(h[block].size, true)][block := h[block]] == r[found := x];
  }

  /** It is decided by the two searches. */
  lemma ObtainableIff(h: Blocks, tail: nat, size: nat)
    requires Tiled(h, tail)
    ensures Tiled(Swept(h, tail, 0), tail)
    ensures Obtainable(h, tail, size) <==>
            Best(h, tail, size).Some? || Best(Coalesced(Swept(h, tail, 0), tail), tail, size).Some?
  {
    hide Best, Offered, Swept, Coalesced;
    SweptFacts(h, tail, 0);
    BestIff(h, tail, size);
    BestIff(Coalesced(Swept(h, tail, 0), tail), tail, size);
  }

  /** A large enough free block other than the last of the heap is enough. */
  lemma CandidateObtainable(h: Blocks, tail: nat, size: nat, x: nat)
    requires Tiled(h, tail) && Candidate(h, size, x) && (x == 0 || Next(h, x) in h)
    ensures Best(h, tail, size).Some? && Obtainable(h, tail, size)
  {
    hide Req, Chosen, Coalesced, Swept, Offered;
    TiledFacts(h, tail);
    NextIsNext(h, tail, 0);
    BestIff(h, tail, size);
    if !(Next(h, 0) == tail && h[0].free) {
      CandidateFound(h, tail, size, 0, x);
    }
  }

  /** What is left of 128 bytes after malloc(48), malloc(16), malloc(16) and freeing the first. */
  ghost function LastFree(): Blocks {
    map[0 := Header(32, false), 32 := Header(32, false), 64 := Header(64, true)]
  }

  lemma LastFreeTiled()
    ensures var h := LastFree();
            && Tiled(h, 128) && h.Keys == {0, 32, 64} && Next(h, 0) == 32 && Next(h, 32) == 64 && Next(h, 64) == 128
  {
    hide Req, Tiled;
    SmallClass();
    OneTiled(Header(32, false));
    var h0: Blocks := map[0 := Header(32, false)];
    AppendTiled(h0, 32, Header(32, false));
    AppendTiled(h0[32 := Header(32, false)], 64, Header(64, true));
    assert h0[32 := Header(32, false)][64 := Header(64, true)] == LastFree();
  }

  /** The last block may be missed: on this heap it would hold 48 bytes, yet malloc(48) fails. */
  lemma LastBlockMissed()
    ensures var h := LastFree();
            Tiled(h, 128) && Candidate(h, 64, 64) && !Obtainable(h, 128, 64)
  {
    hide Req, Tiled, Next, Coalesced, Obtainable;
    SmallClass();
    LastFreeTiled();
    var h := LastFree();
    assert SearchStep(h, 0) == 64 && PairStep(h, 0) == 64;
    hide SearchStep, PairStep;
    assert Chosen(h, 128, 64, 64, None) == None && Swept(h, 128, 64) == h;
    assert Best(h, 128, 64) == None && Swept(h, 128, 0) == h;
    assert Settled(h, 128, 64);
    CoalescedIff(h, 128);
    ObtainableIff(h, 128, 64);
  }

  /** What is left of 256 bytes after malloc(16) and `free`. */
  ghost function AllFree(): Blocks {
    map[0 := Header(128, true), 128 := Header(64, true), 192 := Header(32, true), 224 := Header(32, true)]
  }

  lemma AllFreeTiled()
    ensures var h := AllFree();
            && Tiled(h, 256) && h.Keys == {0, 128, 192, 224}
            && Next(h, 0) == 128 && Next(h, 128) == 192 && Next(h, 192) == 224 && Next(h, 224) == 256
  {
    hide Req, Tiled;
    SmallClass();
    OneTiled(Header(128, true));
    var h0: Blocks := map[0 := Header(128, true)];
    AppendTiled(h0, 128, Header(64, true));
    var h1 := h0[128 := Header(64, true)];
    AppendTiled(h1, 192, Header(32, true));
    var h2 := h1[192 := Header(32, true)];
    AppendTiled(h2, 224, Header(32, true));
    assert h2[224 := Header(32, true)] == AllFree();
  }

  /** A request for all of a wholly free heap may fail: the search merges the last two blocks only, coalescing
      none, and the second search the next two. */
  lemma FreeHeapRefused()
    ensures var h := AllFree();
            && Tiled(h, 256) && (forall b :: b in h ==> h[b].free)
            && Swept(h, 256, 0) == FreeHeap() && !Obtainable(h, 256, 256)
  {
    hide Req, Tiled, Next, Coalesced, Obtainable;
    SmallClass();
    AllFreeTiled();
    FreeHeapTiled();
    BuddiesLeft();
    var h, r := AllFree(), FreeHeap();
    assert SearchStep(h, 0) == 128 && SearchStep(h, 128) == 192 && SearchStep(r, 0) == 128;
    hide SearchStep;
    assert MergedAt(h, 256, 192) == r;
    assert Chosen(r, 256, 256, 256, None) == None && Swept(r, 256, 256) == r;
    assert Chosen(h, 256, 256, 192, None) == None && Swept(h, 256, 192) == r;
    assert Chosen(h, 256, 256, 128, None) == None && Swept(h, 256, 128) == r;
    assert Best(h, 256, 256) == None && Swept(h, 256, 0) == r;
    var q := MergedAt(r, 256, 128);
    assert q[128].size == 128;
    assert Chosen(q, 256, 256, 256, None) == None;
    assert Chosen(r, 256, 256, 128, None) == None;
    assert Best(r, 256, 256) == None;
    ObtainableIff(h, 256, 256);
  }
}
