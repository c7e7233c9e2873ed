/** The layout of a user address space: the pages the program loader maps (elf.cpp), the stack behind
    them (sched.cpp), and the ranges of `mmap` behind that (vmm.cpp). Addresses have 64 bits and wrap; the
    layout is in order exactly as long as they do not. */
module AddressSpace {
  import opened Paging
  import opened PageTable
  import opened Vmm

  const STACK_PAGES: nat := 16

  /** A loadable program segment. */
  datatype Segment = Segment(virtAddr: Word, memSize: Word, writable: bool, executable: bool)

  /** Present, for user code, and as writable and executable as asked. */
  function PageFlags(writable: bool, executable: bool): (flags: Word)
    ensures IsFlags(flags) && Present(flags) && flags % PAGE < 8
    ensures RightsOf(flags) == Rights(writable, true, executable)
  {
    5 + (if writable then 2 else 0) + (if executable then 0 else 0x8000_0000_0000_0000)
  }

  /** `align_up` on 64 bits. */
  function AlignUpWord(i: Word): (r: Word)
    ensures r % PAGE == 0 && (AlignUp(i) < WORDS ==> r == AlignUp(i)) && (r >= i <==> AlignUp(i) < WORDS)
  {
    AlignUp(i) % WORDS
  }

  function PageCount(s: Segment): nat {
    ((s.memSize + s.virtAddr % PAGE + PAGE - 1) % WORDS) / PAGE
  }

  function AddressAt(s: Segment, i: nat): Word {
    (s.virtAddr + i * PAGE) % WORDS
  }

  /** The addresses the loader maps for one segment, the first `n` of them. */
  function SegmentAddresses(s: Segment, n: nat): seq<Word> {
    seq(n, i requires 0 <= i < n => AddressAt(s, i))
  }

  function LoadAddresses(ss: seq<Segment>): seq<Word> {
    if ss == [] then [] else LoadAddresses(ss[..|ss| - 1]) + SegmentAddresses(ss[|ss| - 1], PageCount(ss[|ss| - 1]))
  }

  /** The address is one of those of some segment. */
  ghost predicate OfSegments(ss: seq<Segment>, a: Word) {
    exists k :: 0 <= k < |ss| && a in SegmentAddresses(ss[k], PageCount(ss[k]))
  }

  /** No segment is left out. */
  lemma {:induction false} LoadsAll(ss: seq<Segment>, a: Word)
    ensures a in LoadAddresses(ss) <==> OfSegments(ss, a)
  {
    hide PageCount, SegmentAddresses;
    if ss != [] {
      var before, n := ss[..|ss| - 1], |ss| - 1;
      LoadsAll(before, a);
      if k :| 0 <= k < |before| && a in SegmentAddresses(before[k], PageCount(before[k])) {
        assert a in SegmentAddresses(ss[k], PageCount(ss[k]));
      }
      if k :| 0 <= k < |ss| && a in SegmentAddresses(ss[k], PageCount(ss[k])) {
        assert k < n ==> a in SegmentAddresses(before[k], PageCount(before[k]));
      }
      assert a in SegmentAddresses(ss[n], PageCount(ss[n])) ==> OfSegments(ss, a);
    }
  }

  // ---------- the first free address ----------

  /** The free address behind the mapped pages, as the loop moves it. */
  function FreeAfter(mapped: seq<Word>): Word {
    if mapped == [] then 0
    else
      var free, page := FreeAfter(mapped[..|mapped| - 1]), mapped[|mapped| - 1];
      if page >= free then Plus(page, PAGE) else free
  }

  /** The same without the bound of 64 bits. */
  function EndAfter(mapped: seq<Word>): nat {
    if mapped == [] then 0
    else
      var end, page := EndAfter(mapped[..|mapped| - 1]), mapped[|mapped| - 1];
      if page >= end then page + PAGE else end
  }

  /** Where the stack starts. */
  function FirstFreeOf(mapped: seq<Word>): (free: Word)
    ensures free % PAGE == 0
  {
    AlignUpWord(FreeAfter(mapped))
  }

  /** `free` lies behind every mapped page, and no further than the page-aligned end of one of them. */
  ghost predicate FirstFree(mapped: seq<nat>, free: nat) {
    && free % PAGE == 0
    && (forall a :: a in mapped ==> a / PAGE < free / PAGE)
    && (if mapped == [] then free == 0 else exists a :: a in mapped && free == AlignUp(a + PAGE))
  }

  /** What the loops keep of the free address: it lies above every mapped one, by a page above one. */
  ghost predicate Highest(mapped: seq<nat>, free: nat) {
    && (forall i :: 0 <= i < |mapped| ==> mapped[i] < free)
    && (if mapped == [] then free == 0 else exists i :: 0 <= i < |mapped| && free == mapped[i] + PAGE)
  }

  lemma HighestStep(mapped: seq<nat>, free: nat, page: nat)
    requires Highest(mapped, free)
    ensures Highest(mapped + [page], if page >= free then page + PAGE else free)
  {
    var r := mapped + [page];
    assert r[|mapped|] == page;
    if page < free && mapped != [] {
      var i :| 0 <= i < |mapped| && free == mapped[i] + PAGE;
      assert r[i] == mapped[i];
    }
  }

  lemma HighestAligned(mapped: seq<nat>, free: nat)
    requires Highest(mapped, free)
    ensures FirstFree(mapped, AlignUp(free))
  {
    forall a | a in mapped
      ensures a / PAGE < AlignUp(free) / PAGE
    {
      PageBelow(a, AlignUp(free));
    }
    if mapped != [] {
      var i :| 0 <= i < |mapped| && free == mapped[i] + PAGE;
      assert mapped[i] in mapped;
    }
  }

  lemma {:induction false} EndHighest(mapped: seq<Word>)
    ensures Highest(mapped, EndAfter(mapped))
  {
    hide Highest;
    if mapped != [] {
      var before, page := mapped[..|mapped| - 1], mapped[|mapped| - 1];
      EndHighest(before);
      HighestStep(before, EndAfter(before), page);
      assert mapped == before + [page];
    } else {
      HighestNone(mapped);
    }
  }

  lemma HighestNone(mapped: seq<Word>)
    requires mapped == []
    ensures Highest(mapped, 0)
  {
  }

  lemma {:induction false} EndIsFree(mapped: seq<Word>)
    requires EndAfter(mapped) < WORDS
    ensures FreeAfter(mapped) == EndAfter(mapped)
  {
    if mapped != [] {
      EndIsFree(mapped[..|mapped| - 1]);
    }
  }

  /** The first free address lies behind every mapped page exactly if no sum on the way to it wraps. */
  lemma FirstFreeIff(mapped: seq<Word>)
    ensures FirstFree(mapped, FirstFreeOf(mapped)) <==> AlignUp(EndAfter(mapped)) < WORDS
    ensures (forall a :: a in mapped ==> a / PAGE < FirstFreeOf(mapped) / PAGE) <==> AlignUp(EndAfter(mapped)) < WORDS
    ensures AlignUp(EndAfter(mapped)) < WORDS ==> FirstFreeOf(mapped) == AlignUp(EndAfter(mapped))
  {
    hide EndAfter, FreeAfter;
    EndHighest(mapped);
    if EndAfter(mapped) < WORDS {
      EndIsFree(mapped);
    }
    var end, free := EndAfter(mapped), FirstFreeOf(mapped);
    HighestAligned(mapped, end);
    if AlignUp(end) >= WORDS && forall a :: a in mapped ==> a / PAGE < free / PAGE {
      var i :| 0 <= i < |mapped| && end == mapped[i] + PAGE;
      assert mapped[i] in mapped;
      LastPages(mapped[i], free);
      assert false;
    }
  }

  /** A page whose rounded end is past 2^64 leaves room for an aligned address behind it only where the sum
      itself does not wrap. */
  lemma LastPages(a: Word, free: Word)
    requires AlignUp(a + PAGE) >= WORDS && free % PAGE == 0 && a / PAGE < free / PAGE
    ensures a + PAGE < WORDS && AlignUp(a + PAGE) == WORDS && free != 0
  {
  }

  /** The loader's mapping loops: which addresses it maps, and the first free address behind them. */
  method Load(ss: seq<Segment>) returns (mapped: seq<Word>, free: Word)
    ensures mapped == LoadAddresses(ss) && free == FirstFreeOf(mapped)
    ensures forall a :: a in mapped <==> OfSegments(ss, a)
    ensures FirstFree(mapped, free) <==> AlignUp(EndAfter(mapped)) < WORDS
  {
    hide AlignUpWord, EndAfter, FirstFree, FreeAfter, LoadAddresses, SegmentAddresses, AddressAt, PageCount, Plus;
    hide OfSegments;
    mapped, free := [], 0;
    NothingLoaded(ss);
    for k := 0 to |ss|
      invariant mapped == LoadAddresses(ss[..k]) && free == FreeAfter(mapped)
    {
      ghost var before := mapped;
      SegmentStep(ss[k], 0);
      for i := 0 to PageCount(ss[k])
        invariant mapped == before + SegmentAddresses(ss[k], i) && free == FreeAfter(mapped)
      {
        var page := AddressAt(ss[k], i);
        SegmentStep(ss[k], i);
        FreeStep(mapped, page);
        mapped := mapped + [page];
        if page >= free {
          free := Plus(page, PAGE);
        }
      }
      LoadStep(ss, k);
    }
    assert ss[..|ss|] == ss;
    forall a
      ensures a in mapped <==> OfSegments(ss, a)
    {
      LoadsAll(ss, a);
    }
    FirstFreeIff(mapped);
    free := AlignUpWord(free);
  }

  lemma NothingLoaded(ss: seq<Segment>)
    ensures LoadAddresses(ss[..0]) == [] && FreeAfter([]) == 0
  {
  }

  lemma SegmentStep(s: Segment, i: nat)
    ensures SegmentAddresses(s, 0) == [] && SegmentAddresses(s, i + 1) == SegmentAddresses(s, i) + [AddressAt(s, i)]
  {
  }

  lemma FreeStep(mapped: seq<Word>, page: Word)
    ensures FreeAfter(mapped + [page]) == if page >= FreeAfter(mapped) then Plus(page, PAGE) else FreeAfter(mapped)
  {
    assert (mapped + [page])[..|mapped|] == mapped;
  }

  lemma LoadStep(ss: seq<Segment>, k: nat)
    requires k < |ss|
    ensures LoadAddresses(ss[..k + 1]) == LoadAddresses(ss[..k]) + SegmentAddresses(ss[k], PageCount(ss[k]))
  {
    assert ss[..k + 1][..k] == ss[..k];
  }

  lemma PageBelow(a: nat, free: nat)
    requires a < free && free % PAGE == 0
    ensures a / PAGE < free / PAGE
  {
  }

  /** With a segment in the last page of the address space the free address starts again from 0, and the
      stack is put behind the segment that comes next. */
  lemma LoadWraps()
    ensures var ss := [Segment(0xFFFF_FFFF_FFFF_F000, 0x1000, true, false), Segment(0x40_0000, 0x1000, true, false)];
            var mapped := LoadAddresses(ss);
            && mapped == [0xFFFF_FFFF_FFFF_F000, 0x40_0000] && FirstFreeOf(mapped) == 0x40_1000
            && !FirstFree(mapped, FirstFreeOf(mapped))
  {
    var a := Segment(0xFFFF_FFFF_FFFF_F000, 0x1000, true, false);
    var b := Segment(0x40_0000, 0x1000, true, false);
    assert PageCount(a) == 1 && PageCount(b) == 1;
    assert SegmentAddresses(a, 1) == [0xFFFF_FFFF_FFFF_F000] && SegmentAddresses(b, 1) == [0x40_0000];
    assert [a, b][..1] == [a] && [a][..0] == [];
    assert LoadAddresses([a]) == [0xFFFF_FFFF_FFFF_F000];
    var mapped := LoadAddresses([a, b]);
    assert mapped == [0xFFFF_FFFF_FFFF_F000, 0x40_0000];
    assert mapped[..1] == [0xFFFF_FFFF_FFFF_F000] && mapped[..1][..0] == [];
    assert FreeAfter(mapped[..1]) == 0 && FreeAfter(mapped) == 0x40_1000;
    assert 0xFFFF_FFFF_FFFF_F000 in mapped;
  }

  // ---------- the bytes of a segment ----------

  /** The page number of a wrapped address. */
  lemma WrappedPage(x: nat)
    ensures (x % WORDS) / PAGE == (x / PAGE) % (WORDS / PAGE)
  {
  }

  /** The page byte `k` of the segment lies in. */
  function BytePage(s: Segment, k: nat): nat {
    ((s.virtAddr + k) % WORDS) / PAGE
  }

  /** Byte `k` of the segment lies in a page the loader maps for it. */
  ghost predicate ByteMapped(s: Segment, k: nat) {
    exists a :: a in SegmentAddresses(s, PageCount(s)) && a / PAGE == BytePage(s, k)
  }

  /** Every byte of a segment does so exactly if the number of pages does not wrap. */
  lemma SegmentCovered(s: Segment)
    ensures (forall k: nat :: k < s.memSize ==> ByteMapped(s, k)) <==> s.memSize + s.virtAddr % PAGE + PAGE - 1 < WORDS
  {
    if s.memSize + s.virtAddr % PAGE + PAGE - 1 < WORDS {
      forall k: nat | k < s.memSize
        ensures ByteMapped(s, k)
      {
        var i := (s.virtAddr + k) / PAGE - s.virtAddr / PAGE;
        PageOffset(s, k, i);
        assert SegmentAddresses(s, PageCount(s))[i] == AddressAt(s, i);
        assert AddressAt(s, i) in SegmentAddresses(s, PageCount(s));
      }
    } else {
      TooFewPages(s);
    }
  }

  lemma PageOffset(s: Segment, k: nat, i: int)
    requires k < s.memSize && i == (s.virtAddr + k) / PAGE - s.virtAddr / PAGE
    requires s.memSize + s.virtAddr % PAGE + PAGE - 1 < WORDS
    ensures 0 <= i < PageCount(s) && AddressAt(s, i) / PAGE == ((s.virtAddr + k) % WORDS) / PAGE
  {
    var q, r := s.virtAddr / PAGE, s.virtAddr % PAGE;
    assert s.virtAddr + i * PAGE == (q + i) * PAGE + r;
    PageQuotient(q + i, r);
    assert (i + 1) * PAGE <= s.memSize + r + PAGE - 1;
    Quotients((i + 1) * PAGE, s.memSize + r + PAGE - 1);
    WrappedPage(s.virtAddr + i * PAGE);
    WrappedPage(s.virtAddr + k);
  }

  lemma Quotients(a: nat, b: nat)
    requires a <= b && a % PAGE == 0
    ensures a / PAGE <= b / PAGE && (a / PAGE) * PAGE == a
  {
  }

  /** Every page mapped for a segment holds a byte of it, unless the segment is empty but not aligned. */
  lemma NoPageToSpare(s: Segment)
    ensures (forall i: nat :: i < PageCount(s) ==> HoldsByte(s, i)) <==> s.memSize > 0 || s.virtAddr % PAGE == 0
  {
    if s.memSize > 0 || s.virtAddr % PAGE == 0 {
      forall i: nat | i < PageCount(s)
        ensures HoldsByte(s, i)
      {
        PageHolds(s, i);
      }
    } else {
      assert PageCount(s) == 1 && !HoldsByte(s, 0);
    }
  }

  /** Some byte of the segment lies in the `i`-th page mapped for it. */
  ghost predicate HoldsByte(s: Segment, i: nat) {
    exists k: nat :: k < s.memSize && BytePage(s, k) == AddressAt(s, i) / PAGE
  }

  lemma PageHolds(s: Segment, i: nat)
    requires i < PageCount(s) && (s.memSize > 0 || s.virtAddr % PAGE == 0)
    ensures HoldsByte(s, i)
  {
    var r := s.virtAddr % PAGE;
    var k := if i == 0 then 0 else i * PAGE - r;
    assert k < s.memSize by { assert i * PAGE + PAGE <= s.memSize + r + PAGE - 1; }
    assert BytePage(s, k) == AddressAt(s, i) / PAGE by {
      hide PageCount;
      var q := s.virtAddr / PAGE + i;
      WrappedPage(s.virtAddr + k);
      WrappedPage(s.virtAddr + i * PAGE);
      PageQuotient(q, r);
      PageQuotient(q, 0);
      assert s.virtAddr + i * PAGE == q * PAGE + r;
    }
  }

  /** A segment of nearly 2^64 bytes gets one page or none. */
  lemma TooFewPages(s: Segment)
    requires s.memSize + s.virtAddr % PAGE + PAGE - 1 >= WORDS
    ensures PAGE < s.memSize && !ByteMapped(s, PAGE)
  {
    assert PageCount(s) <= 1 && s.memSize > 2 * PAGE;
    var v := s.virtAddr;
    WrappedPage(v + PAGE);
    assert (v + PAGE) / PAGE == v / PAGE + 1;
    assert ((v + PAGE) % WORDS) / PAGE != v / PAGE;
    forall a | a in SegmentAddresses(s, PageCount(s))
      ensures a == v
    {
      assert AddressAt(s, 0) == v;
    }
  }

  // ---------- a task's address space ----------

  datatype MmapResult = NotSupported | Mapped(base: Word)

  /** The ranges, newest first, fill `[from, top)` without gap or overlap. */
  predicate Stacked(ranges: seq<MappedRange>, from: nat, top: nat) {
    if ranges == [] then top == from
    else
      && ranges[0].base + ranges[0].length == top
      && ranges[0].base % PAGE == 0 && ranges[0].length % PAGE == 0
      && Stacked(ranges[1..], from, ranges[0].base)
  }

  lemma {:induction false} StackedOrder(ranges: seq<MappedRange>, from: nat, top: nat, k: nat)
    requires Stacked(ranges, from, top) && k < |ranges|
    ensures from <= ranges[k].base && ranges[k].base + ranges[k].length <= top
    ensures forall j :: 0 <= j < k ==> ranges[k].base + ranges[k].length <= ranges[j].base
    decreases |ranges|
  {
    StackedGrows(ranges, from, top);
    if k > 0 {
      StackedOrder(ranges[1..], from, ranges[0].base, k - 1);
      forall j | 0 <= j < k
        ensures ranges[k].base + ranges[k].length <= ranges[j].base
      {
        assert j > 0 ==> ranges[j] == ranges[1..][j - 1];
      }
    } else {
      StackedGrows(ranges[1..], from, ranges[0].base);
    }
  }

  lemma {:induction false} StackedGrows(ranges: seq<MappedRange>, from: nat, top: nat)
    requires Stacked(ranges, from, top)
    ensures from <= top
  {
    if ranges != [] {
      StackedGrows(ranges[1..], from, ranges[0].base);
    }
  }

  /** Different ranges share no page. */
  lemma RangesDisjoint(ranges: seq<MappedRange>, from: nat, top: nat, j: nat, k: nat)
    requires Stacked(ranges, from, top) && j < k < |ranges|
    ensures ranges[k].base + ranges[k].length <= ranges[j].base
  {
    StackedOrder(ranges, from, top, k);
  }

  /** An address of a range's half-open interval resolves to that range, although the upper comparison
      is inclusive: every range found earlier starts behind it. */
  lemma AddressResolves(ranges: seq<MappedRange>, from: nat, top: nat, k: nat, virt: Word)
    requires Stacked(ranges, from, top) && top < WORDS && k < |ranges|
    requires ranges[k].base <= virt < ranges[k].base + ranges[k].length
    ensures Covers(ranges[k], virt) && forall j :: 0 <= j < k ==> !Covers(ranges[j], virt)
  {
    StackedOrder(ranges, from, top, k);
  }

  /** Some range covers an address exactly when it lies from the first base up to the end of the newest
      range, that end included: one address too many. */
  lemma {:induction false} CoveredExactly(ranges: seq<MappedRange>, from: nat, top: nat, virt: Word)
    requires Stacked(ranges, from, top) && top < WORDS
    ensures (exists k :: 0 <= k < |ranges| && Covers(ranges[k], virt)) <==> ranges != [] && from <= virt <= top
  {
    if ranges != [] {
      StackedOrder(ranges, from, top, 0);
      CoveredExactly(ranges[1..], from, ranges[0].base, virt);
      if k :| 0 <= k < |ranges[1..]| && Covers(ranges[1..][k], virt) {
        assert Covers(ranges[k + 1], virt);
      }
      if k :| 0 <= k < |ranges| && Covers(ranges[k], virt) {
        assert k > 0 ==> Covers(ranges[1..][k - 1], virt);
      }
      if from <= virt <= top {
        assert ranges[0].base <= virt ==> Covers(ranges[0], virt);
        assert virt < ranges[0].base ==> ranges[1..] != [];
      }
    }
  }

  // ---------- ranges on 64 bits ----------

  /** All lengths together. */
  function Total(ranges: seq<MappedRange>): nat {
    if ranges == [] then 0 else ranges[0].length + Total(ranges[1..])
  }

  /** The ranges, newest first, follow each other from `from` on, as far as 64 bits tell. */
  predicate Chained(ranges: seq<MappedRange>, from: Word) {
    ranges == [] || (&& ranges[0].base == (from + Total(ranges[1..])) % WORDS && ranges[0].length % PAGE == 0
                     && Chained(ranges[1..], from))
  }

  /** The address is one of the range's, which may go on from address 0. */
  predicate InRange(r: MappedRange, virt: Word) {
    Minus(virt, r.base) < r.length
  }

  /** Without a wrap the ranges are stacked. */
  lemma {:induction false} ChainedStacked(ranges: seq<MappedRange>, from: Word)
    requires Chained(ranges, from) && from + Total(ranges) <= WORDS && from % PAGE == 0
    requires from + Total(ranges) == WORDS ==> ranges != [] && ranges[0].length > 0
    ensures Stacked(ranges, from, from + Total(ranges))
  {
    if ranges != [] {
      if from + Total(ranges[1..]) < WORDS {
        ChainedStacked(ranges[1..], from);
        StackedAligned(ranges[1..], from, from + Total(ranges[1..]));
      }
    }
  }

  lemma {:induction false} StackedAligned(ranges: seq<MappedRange>, from: nat, top: nat)
    requires Stacked(ranges, from, top) && from % PAGE == 0
    ensures top % PAGE == 0
  {
  }

  /** With a wrap some range starts below 2^64 and ends there or behind. */
  lemma {:induction false} Straddles(ranges: seq<MappedRange>, from: Word) returns (k: nat)
    requires Chained(ranges, from) && from + Total(ranges) >= WORDS
    ensures k < |ranges| && ranges[k].base + ranges[k].length >= WORDS
    ensures ranges[k].base == from + Total(ranges[k + 1..])
  {
    if from + Total(ranges[1..]) >= WORDS {
      k := Straddles(ranges[1..], from);
      assert ranges[1..][k + 1..] == ranges[k + 2..];
      k := k + 1;
    } else {
      k := 0;
    }
  }

  /** A fault at any address of any range is answered from that range. */
  ghost predicate AllResolve(ranges: seq<MappedRange>) {
    forall k: nat, virt: Word {:trigger InRange(ranges[k], virt)} :: k < |ranges| && InRange(ranges[k], virt) ==>
      IsFirst(ranges, virt, k)
  }

  /** That is so exactly if the ranges end before 2^64. */
  lemma ResolvesIff(ranges: seq<MappedRange>, from: Word)
    requires Chained(ranges, from) && from % PAGE == 0
    ensures AllResolve(ranges) <==> from + Total(ranges) < WORDS
  {
    hide Chained;
    if from + Total(ranges) < WORDS {
      ChainedStacked(ranges, from);
      forall k: nat, virt: Word {:trigger InRange(ranges[k], virt)} | k < |ranges| && InRange(ranges[k], virt)
        ensures IsFirst(ranges, virt, k)
      {
        StackedOrder(ranges, from, from + Total(ranges), k);
        AddressResolves(ranges, from, from + Total(ranges), k, virt);
      }
    } else {
      var k := Straddles(ranges, from);
      assert InRange(ranges[k], ranges[k].base) && !Covers(ranges[k], ranges[k].base);
    }
  }

  /** Program, stack and ranges lie one behind the other, older ranges before newer ones. */
  ghost predicate InOrder(loaded: seq<Word>, stack: Word, ranges: seq<MappedRange>) {
    && (forall a :: a in loaded ==> a / PAGE < stack / PAGE)
    && (forall i: nat :: i < STACK_PAGES ==> stack <= StackPage(stack, i))
    && (forall k: nat, virt: Word {:trigger InRange(ranges[k], virt)} :: k < |ranges| && InRange(ranges[k], virt) ==>
          stack + STACK_PAGES * PAGE <= virt)
    && (forall j: nat, k: nat, u: Word, v: Word {:trigger InRange(ranges[j], u), InRange(ranges[k], v)} ::
          j < k < |ranges| && InRange(ranges[j], u) && InRange(ranges[k], v) ==> v < u)
  }

  /** The address of stack page `i`. */
  function StackPage(stack: Word, i: nat): Word
    requires i < STACK_PAGES
  {
    Plus(stack, i * PAGE)
  }

  lemma {:induction false} ChainedAt(ranges: seq<MappedRange>, from: Word, k: nat)
    requires Chained(ranges, from) && k < |ranges|
    ensures ranges[k].base == (from + Total(ranges[k + 1..])) % WORDS
    ensures Total(ranges[k + 1..]) + ranges[k].length == Total(ranges[k..]) <= Total(ranges)
  {
    if k > 0 {
      ChainedAt(ranges[1..], from, k - 1);
      assert ranges[1..][k..] == ranges[k + 1..] && ranges[1..][k - 1..] == ranges[k..];
    } else {
      assert ranges[0..] == ranges;
    }
  }

  /** Without a wrap the addresses of a range lie between its ends. */
  lemma InRangeBounds(ranges: seq<MappedRange>, from: Word, k: nat, virt: Word)
    requires Chained(ranges, from) && from + Total(ranges) <= WORDS && k < |ranges| && InRange(ranges[k], virt)
    ensures from + Total(ranges[k + 1..]) <= virt < from + Total(ranges[k..])
  {
    hide Chained;
    ChainedAt(ranges, from, k);
  }

  lemma {:induction false} TotalSuffix(ranges: seq<MappedRange>, j: nat, k: nat)
    requires j <= k <= |ranges|
    ensures Total(ranges[k..]) <= Total(ranges[j..])
    decreases k - j
  {
    if j < k {
      TotalSuffix(ranges, j + 1, k);
      assert ranges[j..][1..] == ranges[j + 1..];
    }
  }

  /** With a wrap some range reaches address 0. */
  lemma {:induction false} ReachesZero(ranges: seq<MappedRange>, from: Word) returns (k: nat)
    requires Chained(ranges, from) && from + Total(ranges) > WORDS
    ensures k < |ranges| && InRange(ranges[k], 0)
  {
    if from + Total(ranges[1..]) > WORDS {
      k := ReachesZero(ranges[1..], from);
      k := k + 1;
    } else {
      k := 0;
    }
  }

  lemma EndsInTime(loaded: seq<Word>, stack: Word, ranges: seq<MappedRange>)
    requires Chained(ranges, Plus(stack, STACK_PAGES * PAGE)) && forall a :: a in loaded ==> a / PAGE < stack / PAGE
    requires stack + STACK_PAGES * PAGE + Total(ranges) <= WORDS
    ensures InOrder(loaded, stack, ranges)
  {
    hide Chained, InRange;
    var from := Plus(stack, STACK_PAGES * PAGE);
    if stack + STACK_PAGES * PAGE < WORDS {
      forall k: nat, virt: Word {:trigger InRange(ranges[k], virt)} | k < |ranges| && InRange(ranges[k], virt)
        ensures stack + STACK_PAGES * PAGE <= virt
      {
        InRangeBounds(ranges, from, k, virt);
      }
      forall j: nat, k: nat, u: Word, v: Word {:trigger InRange(ranges[j], u), InRange(ranges[k], v)}
        | j < k < |ranges| && InRange(ranges[j], u) && InRange(ranges[k], v)
        ensures v < u
      {
        InRangeBounds(ranges, from, j, u);
        InRangeBounds(ranges, from, k, v);
        TotalSuffix(ranges, j + 1, k);
      }
    } else {
      forall k: nat, virt: Word {:trigger InRange(ranges[k], virt)} | k < |ranges|
        ensures !InRange(ranges[k], virt)
      {
        ChainedAt(ranges, from, k);
        assert ranges[k].length == 0;
        EmptyRange(ranges[k], virt);
      }
    }
  }

  lemma EmptyRange(r: MappedRange, virt: Word)
    requires r.length == 0
    ensures !InRange(r, virt)
  {
  }

  /** The layout of a task is in order exactly if program, stack and ranges together end by 2^64. */
  lemma InOrderIff(loaded: seq<Word>, ranges: seq<MappedRange>)
    requires Chained(ranges, Plus(FirstFreeOf(loaded), STACK_PAGES * PAGE))
    ensures InOrder(loaded, FirstFreeOf(loaded), ranges) <==>
            AlignUp(EndAfter(loaded)) + STACK_PAGES * PAGE + Total(ranges) <= WORDS
  {
    hide Chained, EndAfter, FirstFreeOf, InRange, FirstFree;
    var stack := FirstFreeOf(loaded);
    FirstFreeIff(loaded);
    if AlignUp(EndAfter(loaded)) < WORDS {
      if stack + STACK_PAGES * PAGE > WORDS {
        StackWraps(stack);
      } else if stack + STACK_PAGES * PAGE + Total(ranges) > WORDS {
        var k;
        if stack + STACK_PAGES * PAGE < WORDS {
          k := ReachesZero(ranges, stack + STACK_PAGES * PAGE);
        } else {
          k := StartsAtZero(ranges);
        }
        assert InRange(ranges[k], 0);
      } else {
        EndsInTime(loaded, stack, ranges);
      }
    }
  }

  lemma StackWraps(stack: Word)
    requires stack % PAGE == 0 && stack + STACK_PAGES * PAGE > WORDS
    ensures StackPage(stack, STACK_PAGES - 1) < stack
  {
  }

  lemma {:induction false} StartsAtZero(ranges: seq<MappedRange>) returns (k: nat)
    requires Chained(ranges, 0) && Total(ranges) > 0
    ensures k < |ranges| && InRange(ranges[k], 0)
  {
    if Total(ranges[1..]) > 0 {
      k := StartsAtZero(ranges[1..]);
      k := k + 1;
    } else {
      k := 0;
    }
  }

  /** A long enough `mmap` wraps, and the next one is put where the program is: here the program lies in page
      0x400 and the ranges start behind its stack, at 0x41_1000. */
  lemma MmapWraps()
    ensures var flags := PageFlags(true, false);
            var long := MappedRange(0x41_1000, 0xFFFF_FFFF_FFFE_F000, flags, Anonymous);
            var next := MappedRange(0x40_0000, 0x1000, flags, Anonymous);
            && FirstFreeOf([0x40_0000]) == 0x40_1000
            && Chained([next, long], Plus(0x40_1000, STACK_PAGES * PAGE))
            && InRange(next, 0x40_0000) && !InOrder([0x40_0000], 0x40_1000, [next, long])
  {
    var flags := PageFlags(true, false);
    var long := MappedRange(0x41_1000, 0xFFFF_FFFF_FFFE_F000, flags, Anonymous);
    var next := MappedRange(0x40_0000, 0x1000, flags, Anonymous);
    var ranges := [next, long];
    assert ranges[1..] == [long] && [long][1..] == [];
    assert Total([long]) == long.length && (0x41_1000 + long.length) % WORDS == 0x40_0000;
    var program: seq<Word> := [0x40_0000];
    assert program[..0] == [] && EndAfter(program) == 0x40_1000;
    FirstFreeIff(program);
    assert FirstFreeOf(program) == 0x40_1000 && Plus(0x40_1000, STACK_PAGES * PAGE) == 0x41_1000;
    assert Chained([long], 0x41_1000) && Chained(ranges, 0x41_1000);
    hide Chained, EndAfter, FirstFreeOf;
    InOrderIff(program, ranges);
    assert Total(ranges) == 0x1000 + long.length;
  }

  lemma PlusStep(a: Word, i: nat)
    requires i < STACK_PAGES
    ensures Plus(Plus(a, i * PAGE), PAGE) == Plus(a, (i + 1) * PAGE) && Plus(a, 0) == a
    ensures Plus(a, STACK_PAGES * PAGE) == (a + STACK_PAGES * PAGE + 0) % WORDS
  {
  }

  class UserSpace {
    const loaded: seq<Word>       // addresses mapped by the loader
    const stack: Word             // first of the stack pages, and the initial stack pointer
    const space: Pagemap
    var mmapAnonBase: Word

    ghost predicate Valid()
      reads this, space
    {
      && stack == FirstFreeOf(loaded) && Chained(space.ranges, Plus(stack, STACK_PAGES * PAGE))
      && mmapAnonBase == (stack + STACK_PAGES * PAGE + Total(space.ranges)) % WORDS
    }

    /** `new_user_task`: the program, and behind it the stack pages, from which `mmap` goes on. */
    constructor (ss: seq<Segment>, pml4: nat)
      ensures Valid() && loaded == LoadAddresses(ss) && space.ranges == []
      ensures mmapAnonBase == Plus(stack, STACK_PAGES * PAGE) && fresh(space) && space.pml4 == pml4
    {
      hide FirstFreeOf, Plus, FirstFree;
      var mapped, free := Load(ss);
      loaded, stack := mapped, free;
      var base := free;
      PlusStep(free, 0);
      for i := 0 to STACK_PAGES
        invariant base == Plus(free, i * PAGE)
      {
        PlusStep(free, i);
        base := Plus(base, PAGE);
      }
      mmapAnonBase := base;
      space := new Pagemap(pml4);
    }

    /** `syscall_mmap`: private anonymous memory only; a new range right behind the last one, put first
        in the list. It is as long as asked for exactly if rounding does not wrap. */
    method Mmap(length: Word, prot: bv32, flags: bv32) returns (r: MmapResult)
      requires Valid()
      modifies this, space
      ensures Valid()
      ensures r.NotSupported? <==> flags & 1 == 0 || flags & 2 != 0 || flags & 8 == 0
      ensures r.NotSupported? ==> space.ranges == old(space.ranges) && mmapAnonBase == old(mmapAnonBase)
      ensures r.Mapped? ==>
                && r.base == old(mmapAnonBase)
                && |space.ranges| == |old(space.ranges)| + 1 && space.ranges[1..] == old(space.ranges)
                && var range := space.ranges[0];
                   && range.base == r.base && mmapAnonBase == Plus(r.base, range.length)
                   && range.length % PAGE == 0 && (range.length >= length <==> AlignUp(length) < WORDS)
                   && (range.length >= length ==> range.length < length + PAGE)
                   && range.kind == Anonymous && range.flags == PageFlags(prot & 2 != 0, prot & 4 != 0)
                   && RightsOf(range.flags) == Rights(prot & 2 != 0, true, prot & 4 != 0)
    {
      hide FirstFreeOf, IsFlags, Chained, Total, AlignUpWord, AlignUp, Plus, PageFlags, RightsOf;
      if flags & 1 == 0 || flags & 2 != 0 || flags & 8 == 0 {
        return NotSupported;
      }
      var pageFlags := FlagsFor(prot);
      var base, aligned := mmapAnonBase, AlignUpWord(length);
      AlignUpNear(length);
      ChainGrows(space.ranges, stack, base, MappedRange(base, aligned, pageFlags, Anonymous));
      space.ranges := [MappedRange(base, aligned, pageFlags, Anonymous)] + space.ranges;
      mmapAnonBase := Plus(mmapAnonBase, aligned);
      return Mapped(base);
    }

    /** The page flags for the protection asked for. */
    static method FlagsFor(prot: bv32) returns (pageFlags: Word)
      ensures pageFlags == PageFlags(prot & 2 != 0, prot & 4 != 0)
    {
      pageFlags := 5;
      if prot & 2 != 0 {
        pageFlags := pageFlags + 2;
      }
      if prot & 4 == 0 {
        pageFlags := pageFlags + 0x8000_0000_0000_0000;
      }
    }

    /** Program, stack and ranges lie one behind the other exactly if they end by 2^64. */
    lemma PartsInOrder()
      requires Valid()
      ensures InOrder(loaded, stack, space.ranges) <==>
              AlignUp(EndAfter(loaded)) + STACK_PAGES * PAGE + Total(space.ranges) <= WORDS
    {
      InOrderIff(loaded, space.ranges);
    }

    /** Faults in the ranges are answered from the right one exactly if they end before 2^64. */
    lemma RangesResolve()
      requires Valid()
      ensures AllResolve(space.ranges) <==> Plus(stack, STACK_PAGES * PAGE) + Total(space.ranges) < WORDS
    {
      hide FirstFreeOf, Chained, Total, AllResolve;
      PlusAligned(stack);
      ResolvesIff(space.ranges, Plus(stack, STACK_PAGES * PAGE));
    }

    /** The initial stack pointer is the low end of the stack pages, so the first push of a task writes
        in front of them; without a program it is 0, and the push wraps to the end of the address space. */
    lemma FirstPushMissesStack(i: nat)
      requires Valid() && i < STACK_PAGES
      ensures Minus(stack, 8) / PAGE != StackPage(stack, i) / PAGE
    {
      hide FirstFreeOf;
      StackPages(stack, i);
    }
  }

  /** One more range at the end of the chain. */
  lemma ChainGrows(ranges: seq<MappedRange>, stack: Word, base: Word, r: MappedRange)
    requires Chained(ranges, Plus(stack, STACK_PAGES * PAGE)) && r.base == base && r.length % PAGE == 0
    requires base == (stack + STACK_PAGES * PAGE + Total(ranges)) % WORDS
    ensures Chained([r] + ranges, Plus(stack, STACK_PAGES * PAGE))
    ensures Plus(base, r.length) == (stack + STACK_PAGES * PAGE + Total([r] + ranges)) % WORDS
  {
    assert ([r] + ranges)[1..] == ranges;
    var total := Total(ranges);
    assert Total([r] + ranges) == r.length + total;
    hide Total;
    PlusWraps(stack + STACK_PAGES * PAGE, total);
    PlusWraps(stack + STACK_PAGES * PAGE + total, r.length);
  }

  lemma PlusWraps(a: nat, b: nat)
    ensures (a % WORDS + b) % WORDS == (a + b) % WORDS
  {
  }

  lemma PlusAligned(s: Word)
    requires s % PAGE == 0
    ensures Plus(s, STACK_PAGES * PAGE) % PAGE == 0
  {
  }

  lemma AlignUpNear(i: Word)
    ensures AlignUpWord(i) >= i ==> AlignUpWord(i) < i + PAGE
  {
  }

  lemma StackPages(s: Word, i: nat)
    requires s % PAGE == 0 && i < STACK_PAGES
    ensures Minus(s, 8) / PAGE != StackPage(s, i) / PAGE
  {
    var q, n := s / PAGE, WORDS / PAGE;
    assert s == q * PAGE && q < n;
    assert StackPage(s, i) / PAGE == if q + i < n then q + i else q + i - n;
    assert Minus(s, 8) / PAGE == if q > 0 then q - 1 else n - 1;
  }
}
