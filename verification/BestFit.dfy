/** When the search settles on a block of the least class. It compares blocks in passing, so a smaller one
    may slip: the second of two, when nothing comes behind it; the first of two, when the second is preferred
    to it; or the choice so far, when it is traded for one of its class that is merged right after. */
module BestFit {
  import opened Wrappers
  import opened SizeClass
  import opened Tiling
  import opened PairWalk
  import opened SearchWalk

  /** The block that slips when the unmergeable pair `b`, `c` is compared. */
  ghost function Slip(h: Blocks, size: nat, best: Option<nat>, b: nat, c: nat): (xs: set<nat>)
    requires b in h && c in h && (best.Some? ==> best.value in h)
  {
    if best.None? then
      if Candidate(h, size, b) && Candidate(h, size, c) && Req(h[c].size) < Req(h[b].size) && !Paired(h, c) then {c}
      else {}
    else if !Candidate(h, size, c) || h[c].size >= Req(h[best.value].size) then {}
    else if Candidate(h, size, b) && Req(h[b].size) < Req(h[c].size) then {b}
    else if Req(h[c].size) < Req(h[b].size) && Req(h[c].size) == Req(h[best.value].size)
            && Paired(h, c) && Mergeable(h, c, Next(h, c)) then {best.value}
    else {}
  }

  /** The blocks that slip on the walk from `b`. */
  ghost function Slipped(h: Blocks, tail: nat, size: nat, b: nat, best: Option<nat>): set<nat>
    requires Tiled(h, tail) && (best.Some? ==> best.value in h && best.value <= b)
    decreases tail - b
  {
    if !Paired(h, b) then {}
    else
      var c, n := Next(h, b), SearchStep(h, b);
      if Mergeable(h, b, c) then
        var r := MergedAt(h, tail, b);
        Slipped(r, tail, size, Next(h, c), ComparedMerged(r, size, best, b))
      else Slip(h, size, best, b, c) + Slipped(h, tail, size, n, Compared(h, size, best, b, c))
  }

  ghost function Class(h: Blocks, b: nat): nat
    requires b in h
  {
    Req(h[b].size)
  }

  /** The candidate `y` is no smaller than the choice or than `k`, or it is the block the walk stands at and
      will be compared once more. */
  ghost predicate Fits(h: Blocks, b: nat, best: Option<nat>, k: nat, y: nat)
    requires y in h && (best.Some? ==> best.value in h)
  {
    || k <= Class(h, y)
    || (best.Some? && (Class(h, best.value) <= Class(h, y) || (y == b && best.value != b && Paired(h, b))))
  }

  /** All candidates compared so far fit, and a choice that is merged next has no equal before it. */
  ghost predicate Standing(h: Blocks, size: nat, b: nat, best: Option<nat>, seen: bool, k: nat) {
    && (best.Some? ==> Candidate(h, size, best.value) && best.value <= b && (best.value == b ==> seen))
    && (forall y: nat {:trigger Candidate(h, size, y)} :: Candidate(h, size, y) && (y < b || (y == b && seen)) ==>
          Fits(h, b, best, k, y))
    && (best == Some(b) && Paired(h, b) && Mergeable(h, b, Next(h, b)) ==>
          forall y: nat {:trigger Candidate(h, size, y)} :: Candidate(h, size, y) && y < b ==>
            k <= Class(h, y) || 2 * Class(h, b) <= Class(h, y))
  }

  lemma MergeFits(h: Blocks, tail: nat, size: nat, b: nat, best: Option<nat>, seen: bool, k: nat, y: nat)
    requires Tiled(h, tail) && Paired(h, b) && Mergeable(h, b, Next(h, b)) && Standing(h, size, b, best, seen, k)
    requires best.Some? ==> best.value in MergedAt(h, tail, b)
    requires var r := MergedAt(h, tail, b); Candidate(r, size, y) && y < Next(h, Next(h, b))
    ensures Fits(MergedAt(h, tail, b), Next(h, Next(h, b)), ComparedMerged(MergedAt(h, tail, b), size, best, b), k, y)
  {
    hide Req, Tiled, ComparedMerged;
    var r := MergedAt(h, tail, b);
    PairInside(h, tail, b);
    MergeTiled(h, tail, b, Next(h, b));
    MergedLeast(r, size, best, b);
    assert Class(r, b) == 2 * Class(h, b) by { ClassDoubles(h, tail, b); }
    if y != b {
      assert y < b && Candidate(h, size, y) && r[y] == h[y];
    }
  }

  lemma ClassDoubles(h: Blocks, tail: nat, b: nat)
    requires Tiled(h, tail) && b in h
    ensures Req(2 * h[b].size) == 2 * Class(h, b)
  {
    hide Req;
    ReqDoubles(h[b].size);
  }

  lemma MergeStands(h: Blocks, tail: nat, size: nat, b: nat, best: Option<nat>, seen: bool, k: nat)
    requires Tiled(h, tail) && Paired(h, b) && Mergeable(h, b, Next(h, b)) && Standing(h, size, b, best, seen, k)
    ensures var r := MergedAt(h, tail, b);
            && (best.Some? ==> best.value in r)
            && Standing(r, size, Next(h, Next(h, b)), ComparedMerged(r, size, best, b), false, k)
  {
    hide Req;
    hide Tiled, ComparedMerged, Fits;
    var c, r := Next(h, b), MergedAt(h, tail, b);
    PairInside(h, tail, b);
    forall y: nat {:trigger Candidate(r, size, y)} | Candidate(r, size, y) && y < Next(h, c)
      ensures Fits(r, Next(h, c), ComparedMerged(r, size, best, b), k, y)
    {
      MergeFits(h, tail, size, b, best, seen, k, y);
    }
  }

  /** What comparing a pair decides, in classes. */
  lemma ComparedClasses(h: Blocks, size: nat, best: Option<nat>, b: nat, c: nat)
    requires b in h && c in h && b != c && (best.Some? ==> best.value in h && best.value != c)
    ensures var choice := Compared(h, size, best, b, c);
            && (best.Some? ==> Class(h, choice.value) <= Class(h, best.value))
            && (choice == Some(c) ==> if best.Some? then h[c].size < Class(h, best.value) else !Candidate(h, size, b))
            && (Candidate(h, size, b) && choice != Some(c) ==> Class(h, choice.value) <= Class(h, b))
            && (Candidate(h, size, c) && choice != Some(c) ==>
                  if best.Some? then Class(h, best.value) <= Class(h, c)
                  else choice == Some(b) && Candidate(h, size, b))
  {
    hide Req;
    ComparedLeast(h, size, best, b, c);
    if best.Some? {
      ReqCompare(h[b].size, h[best.value].size);
      ReqCompare(h[c].size, h[best.value].size);
      ReqOfReq(h[best.value].size);
      if h[c].size >= Class(h, best.value) {
        ReqMonotone(Class(h, best.value), h[c].size);
      }
    }
  }

  lemma HalfClass(s: nat, t: nat)
    requires Req(s) < Req(t)
    ensures 2 * Req(s) <= Req(t)
  {
    hide Req;
    ReqIsLeastClass(s);
    ReqIsLeastClass(t);
    ClassGap(Req(s), Req(t));
  }

  lemma PassFits(h: Blocks, tail: nat, size: nat, b: nat, best: Option<nat>, seen: bool, k: nat, y: nat)
    requires Tiled(h, tail) && Paired(h, b) && !Mergeable(h, b, Next(h, b)) && Standing(h, size, b, best, seen, k)
    requires forall x :: x in Slip(h, size, best, b, Next(h, b)) ==> k <= Class(h, x)
    requires Candidate(h, size, y) && y <= Next(h, b)
    ensures Fits(h, SearchStep(h, b), Compared(h, size, best, b, Next(h, b)), k, y)
  {
    hide Req, Next, Tiled, Compared, Mergeable;
    var c := Next(h, b);
    PairInside(h, tail, b);
    ComparedClasses(h, size, best, b, c);
    var choice := Compared(h, size, best, b, c);
    if y < b {
      assert Fits(h, b, best, k, y);
    } else if y == b && choice == Some(c) && Class(h, b) < Class(h, c) {
      assert b in Slip(h, size, best, b, c);
    } else if y == c && choice == Some(b) && Class(h, c) < Class(h, b) && !Paired(h, c) && best.None? {
      assert c in Slip(h, size, best, b, c);
    }
  }

  /** A choice the walk goes on at, and merges, is in a smaller class than all others, or they slip with it. */
  lemma PassAhead(h: Blocks, tail: nat, size: nat, b: nat, best: Option<nat>, seen: bool, k: nat, y: nat)
    requires Tiled(h, tail) && Paired(h, b) && !Mergeable(h, b, Next(h, b)) && Standing(h, size, b, best, seen, k)
    requires forall x :: x in Slip(h, size, best, b, Next(h, b)) ==> k <= Class(h, x)
    requires var c := Next(h, b);
             && SearchStep(h, b) == c && Compared(h, size, best, b, c) == Some(c)
             && Paired(h, c) && Mergeable(h, c, Next(h, c))
    requires Candidate(h, size, y) && y <= b
    ensures k <= Class(h, y) || 2 * Class(h, Next(h, b)) <= Class(h, y)
  {
    hide Req, Next, Tiled, Compared, Mergeable;
    var c := Next(h, b);
    PairInside(h, tail, b);
    ComparedClasses(h, size, best, b, c);
    assert Class(h, c) < Class(h, b);
    HalfClass(h[c].size, h[b].size);
    if best.Some? && Class(h, c) < Class(h, best.value) {
      HalfClass(h[c].size, h[best.value].size);
    }
  }

  lemma PassStands(h: Blocks, tail: nat, size: nat, b: nat, best: Option<nat>, seen: bool, k: nat)
    requires Tiled(h, tail) && Paired(h, b) && !Mergeable(h, b, Next(h, b)) && Standing(h, size, b, best, seen, k)
    requires forall x :: x in Slip(h, size, best, b, Next(h, b)) ==> k <= Class(h, x)
    ensures var c := Next(h, b);
            Standing(h, size, SearchStep(h, b), Compared(h, size, best, b, c), SearchStep(h, b) == c, k)
  {
    hide Req, Next, Tiled, Compared;
    var c, n := Next(h, b), SearchStep(h, b);
    PairInside(h, tail, b);
    ComparedClasses(h, size, best, b, c);
    forall y: nat {:trigger Candidate(h, size, y)} | Candidate(h, size, y) && y <= c
      ensures Fits(h, n, Compared(h, size, best, b, c), k, y)
    {
      PassFits(h, tail, size, b, best, seen, k, y);
    }
    if Compared(h, size, best, b, c) == Some(n) && Paired(h, n) && Mergeable(h, n, Next(h, n)) {
      forall y: nat {:trigger Candidate(h, size, y)} | Candidate(h, size, y) && y < n
        ensures k <= Class(h, y) || 2 * Class(h, n) <= Class(h, y)
      {
        PassAhead(h, tail, size, b, best, seen, k, y);
      }
    }
  }

  /** Slipped blocks stay as they are, free and compared. */
  lemma {:induction false} SlippedFacts(h: Blocks, tail: nat, size: nat, b: nat, best: Option<nat>, seen: bool, x: nat)
    requires Tiled(h, tail) && (b in h || b == tail)
    requires best.Some? ==> Candidate(h, size, best.value) && best.value <= b && (best.value == b ==> seen)
    requires x in Slipped(h, tail, size, b, best)
    ensures Candidate(Swept(h, tail, b), size, x) && Overlooked(h, tail, b, seen) != Some(x)
    decreases tail - b
  {
    hide Req, Tiled, SearchStep, Compared, ComparedMerged, Slip;
    if Paired(h, b) {
      PairInside(h, tail, b);
      var c, n := Next(h, b), SearchStep(h, b);
      if Mergeable(h, b, c) {
        var r := MergedAt(h, tail, b);
        SlippedFacts(r, tail, size, Next(h, c), ComparedMerged(r, size, best, b), false, x);
      } else if x in Slip(h, size, best, b, c) {
        SlipFacts(h, tail, size, b, best, x);
        SweptFacts(h, tail, n);
      } else {
        SlippedFacts(h, tail, size, n, Compared(h, size, best, b, c), n == c, x);
      }
    }
  }

  lemma SlipFacts(h: Blocks, tail: nat, size: nat, b: nat, best: Option<nat>, x: nat)
    requires Tiled(h, tail) && Paired(h, b) && (best.Some? ==> Candidate(h, size, best.value) && best.value <= b)
    requires x in Slip(h, size, best, b, Next(h, b))
    ensures Candidate(h, size, x)
    ensures var c, n := Next(h, b), SearchStep(h, b);
            x < n || (x == n == c && !Paired(h, c))
  {
    hide Req, Tiled;
    PairInside(h, tail, b);
  }

  lemma SlipKept(h: Blocks, tail: nat, size: nat, b: nat, best: Option<nat>, x: nat)
    requires Tiled(h, tail) && Paired(h, b) && !Mergeable(h, b, Next(h, b))
    requires best.Some? ==> Candidate(h, size, best.value) && best.value <= b
    requires x in Slip(h, size, best, b, Next(h, b))
    ensures x in h && x in Swept(h, tail, b) && Swept(h, tail, b)[x] == h[x]
  {
    hide Req, Tiled, SearchStep, Slip;
    PairInside(h, tail, b);
    SlipFacts(h, tail, size, b, best, x);
    SweptFacts(h, tail, SearchStep(h, b));
  }

  /** One step of the walk, as the functions that describe it take it. */
  lemma AtEnd(h: Blocks, tail: nat, size: nat, b: nat, best: Option<nat>, seen: bool)
    requires Tiled(h, tail) && (best.Some? ==> best.value in h && best.value <= b) && !Paired(h, b)
    ensures Swept(h, tail, b) == h && Chosen(h, tail, size, b, best) == best && Slipped(h, tail, size, b, best) == {}
    ensures Overlooked(h, tail, b, seen) == if b in h && !seen then Some(b) else None
  {
  }

  lemma AtMerge(h: Blocks, tail: nat, size: nat, b: nat, best: Option<nat>, seen: bool)
    requires Tiled(h, tail) && (best.Some? ==> best.value in h && best.value <= b)
    requires Paired(h, b) && Mergeable(h, b, Next(h, b))
    ensures var r, n := MergedAt(h, tail, b), Next(h, Next(h, b));
            && b < n && (best.Some? ==> best.value in r)
            && var choice := ComparedMerged(r, size, best, b);
               && Swept(h, tail, b) == Swept(r, tail, n)
               && Chosen(h, tail, size, b, best) == Chosen(r, tail, size, n, choice)
               && Slipped(h, tail, size, b, best) == Slipped(r, tail, size, n, choice)
               && Overlooked(h, tail, b, seen) == Overlooked(r, tail, n, false)
  {
    hide Req, Tiled;
    PairInside(h, tail, b);
  }

  lemma AtPass(h: Blocks, tail: nat, size: nat, b: nat, best: Option<nat>, seen: bool)
    requires Tiled(h, tail) && (best.Some? ==> best.value in h && best.value <= b)
    requires Paired(h, b) && !Mergeable(h, b, Next(h, b))
    ensures var c, n := Next(h, b), SearchStep(h, b);
            var choice := Compared(h, size, best, b, c);
            && Swept(h, tail, b) == Swept(h, tail, n)
            && Chosen(h, tail, size, b, best) == Chosen(h, tail, size, n, choice)
            && Slipped(h, tail, size, b, best) == Slip(h, size, best, b, c) + Slipped(h, tail, size, n, choice)
            && Overlooked(h, tail, b, seen) == Overlooked(h, tail, n, n == c)
  {
    hide Req, Tiled;
    PairInside(h, tail, b);
  }

  lemma StandingBest(h: Blocks, size: nat, b: nat, best: Option<nat>, seen: bool, k: nat)
    requires Standing(h, size, b, best, seen, k)
    ensures best.Some? ==> Candidate(h, size, best.value) && best.value <= b && (best.value == b ==> seen)
  {
    hide Req, Fits;
  }

  lemma StandingAtEnd(h: Blocks, tail: nat, size: nat, b: nat, best: Option<nat>, seen: bool, k: nat)
    requires Tiled(h, tail) && (b in h || b == tail) && !Paired(h, b) && Standing(h, size, b, best, seen, k)
    ensures best.Some? ==> Candidate(h, size, best.value)
    ensures forall y: nat {:trigger Candidate(h, size, y)} ::
              Candidate(h, size, y) && Overlooked(h, tail, b, seen) != Some(y) ==>
                k <= Class(h, y) || (best.Some? && Class(h, best.value) <= Class(h, y))
  {
    hide Req, Tiled;
    Unpaired(h, tail, b);
  }

  /** A candidate smaller than the choice in the end is no smaller than `k`, if the slipped blocks are not. */
  lemma {:induction false} OnlySlipped(h: Blocks, tail: nat, size: nat, b: nat, best: Option<nat>, seen: bool, k: nat)
    requires Tiled(h, tail) && (b in h || b == tail) && Standing(h, size, b, best, seen, k)
    requires var s := Swept(h, tail, b);
             forall x :: x in Slipped(h, tail, size, b, best) && x in s ==> k <= Class(s, x)
    ensures var s, choice := Swept(h, tail, b), Chosen(h, tail, size, b, best);
            && (choice.Some? ==> Candidate(s, size, choice.value))
            && forall y: nat {:trigger Candidate(s, size, y)} ::
                 Candidate(s, size, y) && Overlooked(h, tail, b, seen) != Some(y) ==>
                   k <= Class(s, y) || (choice.Some? && Class(s, choice.value) <= Class(s, y))
    decreases tail - b
  {
    hide Req, Tiled, SearchStep, Compared, ComparedMerged, Slip, Standing, Slipped, Swept, Chosen, Overlooked;
    StandingBest(h, size, b, best, seen, k);
    if !Paired(h, b) {
      StandingAtEnd(h, tail, size, b, best, seen, k);
      AtEnd(h, tail, size, b, best, seen);
    } else {
      PairInside(h, tail, b);
      var c, n := Next(h, b), SearchStep(h, b);
      if Mergeable(h, b, c) {
        MergeStands(h, tail, size, b, best, seen, k);
        AtMerge(h, tail, size, b, best, seen);
        var r := MergedAt(h, tail, b);
        OnlySlipped(r, tail, size, Next(h, c), ComparedMerged(r, size, best, b), false, k);
      } else {
        AtPass(h, tail, size, b, best, seen);
        forall x | x in Slip(h, size, best, b, c)
          ensures x in h && k <= Class(h, x)
        {
          SlipKept(h, tail, size, b, best, x);
          assert k <= Class(Swept(h, tail, b), x);
        }
        PassStands(h, tail, size, b, best, seen, k);
        OnlySlipped(h, tail, size, n, Compared(h, size, best, b, c), n == c, k);
      }
    }
  }

  /** The search settles on a block of the least class that can store the request, of those its merges leave
      and it has compared. */
  ghost predicate IsBestFit(h: Blocks, tail: nat, size: nat)
    requires Tiled(h, tail)
  {
    var s, best := Swept(h, tail, 0), Best(h, tail, size);
    && (best.Some? ==> best.value in s)
    && forall y: nat {:trigger Candidate(s, size, y)} ::
         Candidate(s, size, y) && Overlooked(h, tail, 0, false) != Some(y) ==>
           best.Some? && Class(s, best.value) <= Class(s, y)
  }

  lemma AloneFacts(h: Blocks, tail: nat, size: nat)
    requires Tiled(h, tail) && Next(h, 0) == tail
    ensures h.Keys == {0} && Swept(h, tail, 0) == h && Overlooked(h, tail, 0, false) == Some(0)
    ensures Slipped(h, tail, size, 0, None) == {}
  {
    hide Req, Next;
    TiledFacts(h, tail);
    Unpaired(h, tail, 0);
  }

  /** It does so if and only if none of the blocks that slip is smaller than the one it settles on; if none
      slips, in particular. */
  lemma BestFitIff(h: Blocks, tail: nat, size: nat)
    requires Tiled(h, tail)
    ensures var s, best, xs := Swept(h, tail, 0), Best(h, tail, size), Slipped(h, tail, size, 0, None);
            && (forall x :: x in xs ==> Candidate(s, size, x))
            && (best.Some? ==> best.value in s)
            && (IsBestFit(h, tail, size) <==>
                  forall x :: x in xs ==> best.Some? && Class(s, best.value) <= Class(s, x))
  {
    hide Req, Slipped, Swept, Chosen, Overlooked;
    TiledHead(h, tail);
    var s, best, xs := Swept(h, tail, 0), Best(h, tail, size), Slipped(h, tail, size, 0, None);
    forall x | x in xs
      ensures Candidate(s, size, x) && Overlooked(h, tail, 0, false) != Some(x)
    {
      SlippedFacts(h, tail, size, 0, None, false, x);
    }
    if Next(h, 0) == tail && h[0].free {
      AloneFacts(h, tail, size);
    } else {
      OnlySlipped(h, tail, size, 0, None, false, 0);
      if forall x :: x in xs ==> best.Some? && Class(s, best.value) <= Class(s, x) {
        forall y: nat | Candidate(s, size, y) && Overlooked(h, tail, 0, false) != Some(y)
          ensures best.Some? && Class(s, best.value) <= Class(s, y)
        {
          OnlySlipped(h, tail, size, 0, None, false, if best.Some? then Class(s, best.value) else Class(s, y) + 1);
        }
      }
    }
  }

  // ---------- heaps on which it does not ----------

  lemma SmallClasses()
    ensures Req(32) == 32 && Req(40) == 64 && Req(64) == 64 && Req(80) == 128 && Req(128) == 128 && Req(256) == 256
  {
  }

  /** What is left of 256 bytes after malloc(48) three times, malloc(16), freeing the first three, and
      malloc(16). */
  ghost function HeapA(): Blocks {
    map[0 := Header(32, false), 32 := Header(32, false), 64 := Header(128, true), 192 := Header(64, true)]
  }

  lemma HeapATiled()
    ensures Tiled(HeapA(), 256) && HeapA().Keys == {0, 32, 64, 192}
    ensures var h := HeapA(); Next(h, 0) == 32 && Next(h, 32) == 64 && Next(h, 64) == 192 && Next(h, 192) == 256
  {
    hide Req, Tiled;
    SmallClasses();
    OneTiled(Header(32, false));
    var h0: Blocks := map[0 := Header(32, false)];
    AppendTiled(h0, 32, Header(32, false));
    var h1 := h0[32 := Header(32, false)];
    AppendTiled(h1, 64, Header(128, true));
    var h2 := h1[64 := Header(128, true)];
    AppendTiled(h2, 192, Header(64, true));
    var h3 := h2[192 := Header(64, true)];
    assert h3 == HeapA();
  }

  /** On this heap malloc(16) splits the block of 128 bytes, for the one of 64 behind it is the last. */
  lemma SecondSlips()
    ensures var h := HeapA();
            && Tiled(h, 256) && Best(h, 256, 32) == Some(64) && Slipped(h, 256, 32, 0, None) == {192}
            && !IsBestFit(h, 256, 32)
  {
    hide Req, Tiled, Next;
    SmallClasses();
    HeapATiled();
    var h := HeapA();
    assert SearchStep(h, 0) == 64 && SearchStep(h, 64) == 192;
    hide SearchStep;
    assert Compared(h, 32, None, 0, 32) == None && Compared(h, 32, None, 64, 192) == Some(64);
    assert Slip(h, 32, None, 0, 32) == {} && Slip(h, 32, None, 64, 192) == {192};
    hide Compared, Slip;
    assert Chosen(h, 256, 32, 64, None) == Some(64) && Slipped(h, 256, 32, 64, None) == {192};
    assert Swept(h, 256, 64) == h;
    BestFitIff(h, 256, 32);
  }

  /** What is left of 512 bytes after malloc(112), malloc(48), malloc(16), and freeing the first two. */
  ghost function HeapB(): Blocks {
    map[0 := Header(256, true), 256 := Header(32, true), 288 := Header(32, false), 320 := Header(64, true),
        384 := Header(128, true)]
  }

  lemma HeapBTiled()
    ensures Tiled(HeapB(), 512) && HeapB().Keys == {0, 256, 288, 320, 384}
    ensures var h := HeapB();
            && Next(h, 0) == 256 && Next(h, 256) == 288 && Next(h, 288) == 320
            && Next(h, 320) == 384 && Next(h, 384) == 512
  {
    hide Req, Tiled;
    SmallClasses();
    OneTiled(Header(256, true));
    var h0: Blocks := map[0 := Header(256, true)];
    AppendTiled(h0, 256, Header(32, true));
    var h1 := h0[256 := Header(32, true)];
    AppendTiled(h1, 288, Header(32, false));
    var h2 := h1[288 := Header(32, false)];
    AppendTiled(h2, 320, Header(64, true));
    var h3 := h2[320 := Header(64, true)];
    AppendTiled(h3, 384, Header(128, true));
    var h4 := h3[384 := Header(128, true)];
    assert h4 == HeapB();
  }

  /** On this heap malloc(48) splits the last block, for that is smaller than the first, and leaves the block
      of 64 bytes before it. */
  lemma FirstSlips()
    ensures var h := HeapB();
            && Tiled(h, 512) && Best(h, 512, 64) == Some(384) && Slipped(h, 512, 64, 0, None) == {320}
            && !IsBestFit(h, 512, 64)
  {
    hide Req, Tiled, Next;
    SmallClasses();
    HeapBTiled();
    var h := HeapB();
    assert SearchStep(h, 0) == 256 && SearchStep(h, 256) == 320 && SearchStep(h, 320) == 512;
    hide SearchStep;
    assert Compared(h, 64, None, 0, 256) == Some(0) && Slip(h, 64, None, 0, 256) == {};
    assert Compared(h, 64, Some(0), 256, 288) == Some(0) && Slip(h, 64, Some(0), 256, 288) == {};
    assert Compared(h, 64, Some(0), 320, 384) == Some(384) && Slip(h, 64, Some(0), 320, 384) == {320};
    hide Compared, Slip;
    assert Chosen(h, 512, 64, 320, Some(0)) == Some(384) && Slipped(h, 512, 64, 320, Some(0)) == {320};
    assert Swept(h, 512, 320) == h;
    assert Chosen(h, 512, 64, 256, Some(0)) == Some(384) && Slipped(h, 512, 64, 256, Some(0)) == {320};
    assert Swept(h, 512, 256) == h;
    BestFitIff(h, 512, 64);
  }

  /** What is left of 512 bytes after malloc(24) twice, reallocating the first to 112 bytes, malloc(24), and
      reallocating the second to 112 bytes: the blocks freed by `realloc` keep their unrounded sizes. */
  ghost function HeapC(): Blocks {
    map[0 := Header(128, false), 128 := Header(64, true), 192 := Header(40, false), 256 := Header(128, false),
        384 := Header(40, true), 448 := Header(40, true)]
  }

  lemma HeapCTiled()
    ensures Tiled(HeapC(), 512) && HeapC().Keys == {0, 128, 192, 256, 384, 448}
    ensures var h := HeapC();
            && Next(h, 0) == 128 && Next(h, 128) == 192 && Next(h, 192) == 256
            && Next(h, 256) == 384 && Next(h, 384) == 448 && Next(h, 448) == 512
  {
    hide Req, Tiled;
    SmallClasses();
    OneTiled(Header(128, false));
    var h0: Blocks := map[0 := Header(128, false)];
    AppendTiled(h0, 128, Header(64, true));
    var h1 := h0[128 := Header(64, true)];
    AppendTiled(h1, 192, Header(40, false));
    var h2 := h1[192 := Header(40, false)];
    AppendTiled(h2, 256, Header(128, false));
    var h3 := h2[256 := Header(128, false)];
    AppendTiled(h3, 384, Header(40, true));
    var h4 := h3[384 := Header(40, true)];
    AppendTiled(h4, 448, Header(40, true));
    var h5 := h4[448 := Header(40, true)];
    assert h5 == HeapC();
  }

  /** On this heap malloc(16) merges the last two blocks and splits them, for the first of them was preferred
      to the block of 64 bytes, its equal then. */
  lemma ChoiceSlips()
    ensures var h := HeapC();
            && Tiled(h, 512) && Best(h, 512, 32) == Some(384) && Slipped(h, 512, 32, 0, None) == {128}
            && !IsBestFit(h, 512, 32)
  {
    hide Req, Tiled, Next;
    SmallClasses();
    HeapCTiled();
    var h := HeapC();
    assert SearchStep(h, 0) == 128 && SearchStep(h, 128) == 256 && SearchStep(h, 256) == 384;
    hide SearchStep;
    assert Compared(h, 32, None, 0, 128) == Some(128) && Slip(h, 32, None, 0, 128) == {};
    assert Compared(h, 32, Some(128), 128, 192) == Some(128) && Slip(h, 32, Some(128), 128, 192) == {};
    assert Compared(h, 32, Some(128), 256, 384) == Some(384) && Slip(h, 32, Some(128), 256, 384) == {128};
    hide Compared, Slip;
    var r := MergedAt(h, 512, 384);
    assert r[384] == Header(80, true) && r[128] == h[128] && 512 !in r;
    assert Chosen(h, 512, 32, 384, Some(384)) == Some(384) && Swept(h, 512, 384) == r by {
      assert ComparedMerged(r, 32, Some(384), 384) == Some(384);
    }
    assert Slipped(h, 512, 32, 384, Some(384)) == {};
    assert Chosen(h, 512, 32, 256, Some(128)) == Some(384) && Slipped(h, 512, 32, 256, Some(128)) == {128};
    assert Swept(h, 512, 256) == r;
    assert Chosen(h, 512, 32, 128, Some(128)) == Some(384) && Slipped(h, 512, 32, 128, Some(128)) == {128};
    assert Swept(h, 512, 128) == r;
    BestFitIff(h, 512, 32);
  }
}
