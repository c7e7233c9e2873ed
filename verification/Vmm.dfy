/** The virtual memory manager (vmm.cpp): mapping, address spaces and demand faults, on page tables in
    frames taken from the page allocator. Physical memory is an array of 64-bit words. */
module Vmm {
  import opened Wrappers
  import opened Paging
  import opened PageTable
  import PageAllocator

  datatype Kind = Direct | Anonymous

  datatype MappedRange = MappedRange(base: Word, length: Word, flags: Word, kind: Kind)

  /** `addr_to_range` accepts the address just past the range as well; the end wraps at 64 bits. */
  predicate Covers(r: MappedRange, virt: Word) {
    r.base <= virt <= Plus(r.base, r.length)
  }

  function Plus(a: Word, b: Word): (r: Word)
    ensures r == a + b || r == a + b - WORDS
  {
    (a + b) % WORDS
  }

  function Minus(a: Word, b: Word): (r: Word)
    ensures Plus(r, b) == a
  {
    (a - b) % WORDS
  }

  /** The `k`-th range is the first that covers the address. */
  ghost predicate IsFirst(ranges: seq<MappedRange>, virt: Word, k: nat) {
    k < |ranges| && Covers(ranges[k], virt) && forall j :: 0 <= j < k ==> !Covers(ranges[j], virt)
  }

  /** An address space: its top-level table and its ranges, newest first. */
  class Pagemap {
    const pml4: nat
    var ranges: seq<MappedRange>

    constructor (pml4: nat)
      ensures this.pml4 == pml4 && ranges == []
    {
      this.pml4 := pml4;
      ranges := [];
    }

    /** `addr_to_range`: the first range in the list that covers the address. */
    method AddrToRange(virt: Word) returns (range: Option<MappedRange>)
      ensures range.None? ==> forall r :: r in ranges ==> !Covers(r, virt)
      ensures range.Some? ==> exists k: nat :: IsFirst(ranges, virt, k) && ranges[k] == range.value
    {
      var current := 0;
      while current < |ranges|
        invariant current <= |ranges|
        invariant forall j :: 0 <= j < current ==> !Covers(ranges[j], virt)
      {
        var r := ranges[current];
        if virt >= r.base && virt <= Plus(r.base, r.length) {
          assert IsFirst(ranges, virt, current);
          return Some(r);
        }
        current := current + 1;
      }
      return None;
    }
  }

  datatype Fault = Handled | Unhandled | Panic

  /** Tables found on a walk are still found there, and one found anew had no owner before. */
  ghost predicate WalksKept(m: seq<Word>, own: Owners, m': seq<Word>) {
    forall r: nat, pn: nat, l: nat {:trigger TableAt(m', r, pn, l)} :: IsTable(own, r, 4) && 1 <= l <= 4 ==>
      if TableAt(m, r, pn, l).Some? then TableAt(m', r, pn, l) == TableAt(m, r, pn, l)
      else TableAt(m', r, pn, l).Some? ==> TableAt(m', r, pn, l).value !in own
  }

  /** What every operation keeps: tables stay tables and stay where they are on every walk, present
      top-level entries stay, roots that share a table go on sharing it. */
  ghost predicate Keeps(m: seq<Word>, own: Owners, m': seq<Word>, own': Owners) {
    && |m'| == |m|
    && (forall f :: f in own ==> f in own' && own'[f] == own[f])
    && TopsPersist(m, own, m') && WalksKept(m, own, m')
    && (forall r, s, pn :: IsTable(own, r, 4) && IsTable(own, s, 4) ==> (Alias(m', r, s, pn) <==> Alias(m, r, s, pn)))
  }

  /** At most empty tables were added: no translation changed. */
  ghost predicate Grows(m: seq<Word>, own: Owners, m': seq<Word>, own': Owners) {
    && Keeps(m, own, m', own')
    && (forall r, pn :: IsTable(own, r, 4) ==> Translate(m', r, pn) == Translate(m, r, pn))
    && (forall f: nat, i: nat :: i < ENTRIES && IsTable(own, f, 1) ==> Rd(m', f, i) == Rd(m, f, i))
  }

  /** Of all top-level entries only the root's for page `pn` may have changed. */
  ghost predicate TopsButOne(m: seq<Word>, own: Owners, m': seq<Word>, root: nat, pn: nat) {
    forall r: nat, i: nat {:trigger Rd(m', r, i)} ::
      IsTable(own, r, 4) && i < ENTRIES && !(r == root && i == Index(pn, 4)) ==> Rd(m', r, i) == Rd(m, r, i)
  }

  lemma GrowsRefl(m: seq<Word>, own: Owners)
    ensures Grows(m, own, m, own)
  {
  }

  lemma GrowsTrans(m0: seq<Word>, own0: Owners, m1: seq<Word>, own1: Owners, m2: seq<Word>, own2: Owners)
    requires Grows(m0, own0, m1, own1) && Grows(m1, own1, m2, own2)
    ensures Grows(m0, own0, m2, own2)
  {
    hide Rd, FrameOf, Index, TableAt, Translate, Alias, Keeps;
    KeepsTrans(m0, own0, m1, own1, m2, own2);
    assert forall r, l :: IsTable(own0, r, l) ==> IsTable(own1, r, l) by { KeepsTables(m0, own0, m1, own1); }
  }

  lemma KeepsTables(m: seq<Word>, own: Owners, m': seq<Word>, own': Owners)
    requires Keeps(m, own, m', own')
    ensures forall r, l :: IsTable(own, r, l) ==> IsTable(own', r, l)
  {
    hide TopsPersist, WalksKept, Alias;
  }

  /** Adding one table is a growth. */
  lemma AddTableGrows(m: seq<Word>, own: Owners, m': seq<Word>, t: nat, i: nat, n: nat)
    requires WellFormed(m, own) && AddsTable(m, m', t, i, n)
    requires t in own && own[t].Table? && own[t].level >= 2 && i < ENTRIES && !Present(Rd(m, t, i)) && n !in own
    ensures Grows(m, own, m', own[n := Table(own[t].level - 1)])
  {
    hide Rd, FrameOf, Index, TableAt, Translate, Alias, WellFormed;
    forall r, pn | IsTable(own, r, 4)
      ensures Translate(m', r, pn) == Translate(m, r, pn)
    {
      AddTableTranslate(m, own, m', t, i, n, r, pn);
    }
    forall r: nat, pn: nat, l: nat {:trigger TableAt(m', r, pn, l)} | IsTable(own, r, 4) && 1 <= l <= 4
      ensures if TableAt(m, r, pn, l).Some? then TableAt(m', r, pn, l) == TableAt(m, r, pn, l)
              else TableAt(m', r, pn, l).Some? ==> TableAt(m', r, pn, l).value !in own
    {
      AddTableWalk(m, own, m', t, i, n, r, pn, l);
    }
    forall r, s, pn | IsTable(own, r, 4) && IsTable(own, s, 4)
      ensures Alias(m', r, s, pn) <==> Alias(m, r, s, pn)
    {
      AddTableAlias(m, own, m', t, i, n, r, s, pn);
    }
  }

  /** The faulted-in entries hold frames allocated for them and for nothing else. */
  ghost predicate DemandOwned(m: seq<Word>, own: Owners, demand: set<(nat, nat)>) {
    forall t, i :: (t, i) in demand ==>
      IsTable(own, t, 1) && i < ENTRIES && FrameOf(Rd(m, t, i)) in own && own[FrameOf(Rd(m, t, i))] == Page(t, i)
  }

  /** Page `pn` of `root` was faulted in and has not been mapped over since. */
  ghost predicate Demanded(m: seq<Word>, demand: set<(nat, nat)>, root: nat, pn: nat) {
    TableAt(m, root, pn, 1).Some? && Slot(m, root, pn) in demand
  }

  /** Where page `pn` of `root` has its entry, once its tables exist. */
  ghost function Slot(m: seq<Word>, root: nat, pn: nat): (nat, nat)
    requires TableAt(m, root, pn, 1).Some?
  {
    (TableAt(m, root, pn, 1).value, Index(pn, 1))
  }

  class Machine {
    const mem: array<Word>
    const pmm: PageAllocator.PageAllocator
    const hhdm: Word
    ghost var own: Owners
    ghost var demand: set<(nat, nat)>

    ghost predicate Valid()
      reads this, mem, pmm, pmm.bitmap.buffer
    {
      && pmm.Valid() && pmm.PageZeroTaken() && mem as object != pmm.bitmap.buffer as object
      && pmm.bitmap.size <= FRAMES && mem.Length == ENTRIES * pmm.bitmap.size
      && WellFormed(mem[..], own)
      && (forall f :: f in own ==> f < pmm.bitmap.size && pmm.Bits()[f])
      && DemandOwned(mem[..], own, demand)
    }

    /** No page is free. */
    ghost predicate Full()
      requires pmm.bitmap.size <= 8 * pmm.bitmap.buffer.Length
      reads pmm, pmm.bitmap.buffer
    {
      forall p :: 0 <= p < pmm.bitmap.size ==> pmm.Bits()[p]
    }

    constructor (mem: array<Word>, pmm: PageAllocator.PageAllocator, hhdm: Word)
      requires pmm.Valid() && pmm.PageZeroTaken() && mem as object != pmm.bitmap.buffer as object
      requires pmm.bitmap.size <= FRAMES && mem.Length == ENTRIES * pmm.bitmap.size
      ensures Valid() && this.mem == mem && this.pmm == pmm && this.hhdm == hhdm && own == map[] && demand == {}
    {
      this.mem := mem;
      this.pmm := pmm;
      this.hhdm := hhdm;
      own := map[];
      demand := {};
    }

    /** A frame no one owns, filled with zeros; nothing on a panic. */
    method AllocZeroed() returns (frame: Option<nat>)
      requires Valid()
      modifies mem, pmm.bitmap.buffer, pmm`cursor, pmm`totalAllocated
      ensures pmm.Valid() && pmm.PageZeroTaken()
      ensures forall f :: f in own ==> pmm.Bits()[f]
      ensures frame.None? ==> mem[..] == old(mem[..]) && Full()
      ensures frame.Some? ==>
                var n := frame.value;
                && n < pmm.bitmap.size && n !in own && pmm.Bits()[n]
                && (forall i :: 0 <= i < ENTRIES ==> Rd(mem[..], n, i) == 0)
                && (forall f: nat, j: nat :: j < ENTRIES && f != n ==> Rd(mem[..], f, j) == old(Rd(mem[..], f, j)))
    {
      var address := pmm.AllocPages(1);
      if address.None? {
        NoRunFull(pmm.Bits(), old(pmm.cursor), pmm.bitmap.size);
        return None;
      }
      var n := address.value / PAGE;
      forall i | 0 <= i < ENTRIES {
        mem[ENTRIES * n + i] := 0;
      }
      return Some(n);
    }

    /** `memset` of a fresh top-level table, as `new_user_task` does: it translates nothing. */
    method NewRoot() returns (root: Option<nat>)
      requires Valid()
      modifies mem, pmm.bitmap.buffer, pmm`cursor, pmm`totalAllocated, `own
      ensures Valid() && Grows(old(mem[..]), old(own), mem[..], own)
      ensures root.None? ==> Full()
      ensures root.Some? ==>
                && root.value !in old(own) && IsTable(own, root.value, 4)
                && (forall i :: 0 <= i < ENTRIES ==> Rd(mem[..], root.value, i) == 0)
                && (forall pn :: Translate(mem[..], root.value, pn) == 0)
      ensures forall f: nat, i: nat :: i < ENTRIES && f in old(own) ==> Rd(mem[..], f, i) == old(Rd(mem[..], f, i))
    {
      hide Rd, FrameOf, Index, TableAt, Translate, WellFormed, Present, Grows;
      root := AllocZeroed();
      GrowsRefl(mem[..], own);
      if root.Some? {
        NewOwnerGrows(old(mem[..]), own, mem[..], root.value, Table(4));
        NewRootWellFormed(old(mem[..]), own, mem[..], root.value);
        own := own[root.value := Table(4)];
      }
    }

    /** `page_table_next_level`: follows entry `index` of `table`, adding an empty table if it is missing. */
    method NextLevel(table: nat, index: nat, ghost l: nat) returns (next: Option<nat>)
      requires Valid() && IsTable(own, table, l) && l >= 2 && index < ENTRIES
      modifies mem, pmm.bitmap.buffer, pmm`cursor, pmm`totalAllocated, `own
      ensures Valid() && Grows(old(mem[..]), old(own), mem[..], own)
      ensures next.Some? ==> Present(Rd(mem[..], table, index)) && next.value == Target(mem[..], table, index)
      ensures next.Some? ==> IsTable(own, next.value, l - 1)
      ensures next.None? ==> Full() && !Present(Rd(mem[..], table, index))
      ensures forall f: nat, i: nat :: i < ENTRIES && f in old(own) && !(f == table && i == index) ==>
                Rd(mem[..], f, i) == old(Rd(mem[..], f, i))
    {
      hide Rd, FrameOf, Grows, WellFormed, Present, DemandOwned, AddsTable, SetsEntry, Full;
      var entry := mem[ENTRIES * table + index];
      assert entry == Rd(mem[..], table, index) by { RdAt(mem[..], table, index); }
      if Present(entry) {
        GrowsRefl(mem[..], own);
        EdgeTarget(mem[..], own, table, index);
        next := Some(FrameOf(entry));
      } else {
        ghost var m := mem[..];
        var page := AllocZeroed();
        if page.None? {
          GrowsRefl(mem[..], own);
          return None;
        }
        ghost var m1 := mem[..];
        mem[ENTRIES * table + index] := TableEntry(page.value);
        WrittenAt(m1, mem[..], table, index, TableEntry(page.value));
        assert page.value != table;
        AddsTableAt(m, m1, mem[..], table, index, page.value);
        AddTableGrows(m, own, mem[..], table, index, page.value);
        AddTableWellFormed(m, own, mem[..], table, index, page.value);
        DemandElsewhere(m, own, mem[..], own[page.value := Table(l - 1)], demand);
        AddedWords(m, mem[..], table, index, page.value);
        own := own[page.value := Table(l - 1)];
        next := Some(page.value);
      }
    }

    /** The three `page_table_next_level` calls every walk starts with: the page's last-level table. */
    method LeafTable(root: nat, virt: Word) returns (leaf: Option<nat>)
      requires Valid() && IsTable(own, root, 4)
      modifies mem, pmm.bitmap.buffer, pmm`cursor, pmm`totalAllocated, `own
      ensures Valid() && Grows(old(mem[..]), old(own), mem[..], own)
      ensures leaf.Some? ==> TableAt(mem[..], root, PageOf(virt), 1) == leaf && IsTable(own, leaf.value, 1)
      ensures leaf.None? ==> Full() && old(TableAt(mem[..], root, PageOf(virt), 1).None?)
      ensures TopsButOne(old(mem[..]), old(own), mem[..], root, PageOf(virt))
    {
      hide Rd, FrameOf, Index, PageOf, WellFormed, Present, Grows, TableAt, Edge, Target, DemandOwned, TopsButOne, Full;
      ghost var m, o, pn := mem[..], own, PageOf(virt);
      WalkIndices(virt);
      RootTable(m, root, pn);
      leaf := StepWalk(root, pn, 4, root, (virt / 0x80_0000_0000) % ENTRIES);
      if leaf.None? {
        MissingBelow(m, o, mem[..], own, root, pn, 3);
        return;
      }
      ghost var m1, o1 := mem[..], own;
      leaf := StepWalk(root, pn, 3, leaf.value, (virt / 0x4000_0000) % ENTRIES);
      GrowsTrans(m, o, m1, o1, mem[..], own);
      TopsButOneTrans(m, o, m1, o1, mem[..], root, pn);
      if leaf.None? {
        MissingBelow(m, o, mem[..], own, root, pn, 2);
        return;
      }
      m1, o1 := mem[..], own;
      leaf := StepWalk(root, pn, 2, leaf.value, (virt / 0x20_0000) % ENTRIES);
      GrowsTrans(m, o, m1, o1, mem[..], own);
      TopsButOneTrans(m, o, m1, o1, mem[..], root, pn);
      if leaf.None? {
        MissingBelow(m, o, mem[..], own, root, pn, 1);
      }
    }

    /** One of those calls, for the table the walk for page `pn` has reached. */
    method StepWalk(ghost root: nat, ghost pn: nat, ghost l: nat, table: nat, index: nat) returns (next: Option<nat>)
      requires Valid() && IsTable(own, root, 4) && IsTable(own, table, l) && 2 <= l <= 4
      requires TableAt(mem[..], root, pn, l) == Some(table) && index == Index(pn, l)
      modifies mem, pmm.bitmap.buffer, pmm`cursor, pmm`totalAllocated, `own
      ensures Valid() && Grows(old(mem[..]), old(own), mem[..], own) && IsTable(own, root, 4)
      ensures next.Some? ==> TableAt(mem[..], root, pn, l - 1) == next && IsTable(own, next.value, l - 1)
      ensures next.None? ==> Full() && TableAt(mem[..], root, pn, l - 1).None?
      ensures TopsButOne(old(mem[..]), old(own), mem[..], root, pn)
    {
      hide Rd, FrameOf, Index, WellFormed, Present, Grows, Keeps, TableAt, Edge, Target, DemandOwned, Full;
      ghost var m, o := mem[..], own;
      RootTable(m, root, pn);
      next := NextLevel(table, index, l);
      GrowsKeeps(m, o, mem[..], own);
      KeepsIsTable(m, o, mem[..], own, root, 4);
      KeepsWalk(m, o, mem[..], own, root, pn, l);
      StepDown(mem[..], root, pn, l, table);
    }

    /** `*entry = e` for entry `i` of a last-level table. */
    method SetEntry(t: nat, i: nat, e: Word)
      requires Valid() && IsTable(own, t, 1) && i < ENTRIES
      modifies mem, `demand
      ensures Valid() && demand == old(demand) - {(t, i)}
      ensures SetsEntry(old(mem[..]), mem[..], t, i, e)
    {
      hide Rd, FrameOf, WellFormed;
      ghost var m := mem[..];
      assert ENTRIES * t + i < mem.Length;
      mem[ENTRIES * t + i] := e;
      WrittenAt(m, mem[..], t, i, e);
      SetEntryWellFormed(m, own, mem[..], t, i, e);
      demand := demand - {(t, i)};
      assert DemandOwned(mem[..], own, demand);
    }

    /** `map_page`: exactly a one-point update of the flat map, for this root and for those that share
        the page's tables. */
    method MapPage(root: nat, phy: Word, virt: Word, flags: Word) returns (ok: bool)
      requires Valid() && IsTable(own, root, 4) && IsFlags(flags)
      modifies mem, pmm.bitmap.buffer, pmm`cursor, pmm`totalAllocated, `own, `demand
      ensures Valid() && Keeps(old(mem[..]), old(own), mem[..], own)
      ensures ok ==> Updates(old(mem[..]), old(own), mem[..], root, PageOf(virt), MakeEntry(phy, flags))
      ensures ok ==> Leads(mem[..], root, PageOf(virt), FrameOf(phy), flags)
      ensures ok ==>
                && TableAt(mem[..], root, PageOf(virt), 1).Some?
                && demand == old(demand) - {Slot(mem[..], root, PageOf(virt))}
      ensures !ok ==>
                && Grows(old(mem[..]), old(own), mem[..], own) && demand == old(demand)
                && Full() && old(TableAt(mem[..], root, PageOf(virt), 1).None?)
      ensures TopsButOne(old(mem[..]), old(own), mem[..], root, PageOf(virt))
    {
      hide Rd, FrameOf, Index, PageOf, WellFormed, Present, Grows, TableAt, Translate, Updates, Keeps, SetsEntry;
      hide TopsButOne, Full;
      ghost var m, o := mem[..], own;
      var leaf := LeafTable(root, virt);
      GrowsKeeps(m, o, mem[..], own);
      ghost var m1 := mem[..];
      if leaf.None? {
        return false;
      }
      var i := (virt / 0x1000) % ENTRIES;
      WalkIndices(virt);
      SetEntry(leaf.value, i, MakeEntry(phy, flags));
      TopsButOneSet(m, o, m1, own, mem[..], root, PageOf(virt), leaf.value, i, MakeEntry(phy, flags));
      SetEntryUpdates(m, o, m1, own, mem[..], leaf.value, root, PageOf(virt), MakeEntry(phy, flags));
      SetEntryWalk(m1, own, mem[..], leaf.value, i, MakeEntry(phy, flags), root, PageOf(virt), 1);
      UpdatesLeads(m, o, mem[..], root, PageOf(virt), phy, flags);
      return true;
    }

    /** `map_pages`: exactly the update of a contiguous range of pages; where memory runs out, of the `done`
        first of them. */
    method MapPages(root: nat, phy: Word, virt: Word, size: nat, flags: Word) returns (ok: bool, ghost done: nat)
      requires Valid() && IsTable(own, root, 4) && IsFlags(flags)
      requires phy + AlignUp(size) <= WORDS && virt + AlignUp(size) <= WORDS
      requires PageOf(virt) + AlignUp(size) / PAGE <= PAGES
      modifies mem, pmm.bitmap.buffer, pmm`cursor, pmm`totalAllocated, `own, `demand
      ensures Valid() && Keeps(old(mem[..]), old(own), mem[..], own)
      ensures done <= AlignUp(size) / PAGE && (ok <==> done == AlignUp(size) / PAGE) && (!ok ==> Full())
      ensures phy + done * PAGE <= WORDS
      ensures UpdatesRange(old(mem[..]), old(own), mem[..], root, PageOf(virt), done, phy, flags)
      ensures RangeLeads(mem[..], root, PageOf(virt), done, FrameOf(phy), flags)
    {
      hide Rd, FrameOf, Index, PageOf, WellFormed, Present, Grows, TableAt;
      hide Translate, Updates, UpdatesRange, Keeps, AlignUp, Slot, Full, TopsButOne, Leads, RangeLeads, IsFlags;
      var n := AlignUp(size) / PAGE;
      AlignUpPages(size);
      ghost var m, o := mem[..], own;
      KeepsRefl(m, o);
      UpdatesNone(m, o, root, PageOf(virt), phy, flags);
      for i := 0 to n
        invariant Valid() && Keeps(m, o, mem[..], own) && IsTable(own, root, 4)
        invariant UpdatesRange(m, o, mem[..], root, PageOf(virt), i, phy, flags)
      {
        ghost var m1, o1 := mem[..], own;
        ok := MapPage(root, phy + i * PAGE, virt + i * PAGE, flags);
        KeepsTrans(m, o, m1, o1, mem[..], own);
        KeepsIsTable(m1, o1, mem[..], own, root, 4);
        if !ok {
          UpdatesKept(m, o, m1, o1, mem[..], own, root, PageOf(virt), i, phy, flags);
          done := i;
          UpdatesRangeLeads(m, o, mem[..], root, PageOf(virt), i, phy, flags);
          return;
        }
        PageOfStep(virt, i);
        UpdatesMore(m, o, m1, o1, mem[..], root, PageOf(virt), i, phy, flags);
      }
      UpdatesRangeLeads(m, o, mem[..], root, PageOf(virt), n, phy, flags);
      ok, done := true, n;
    }

    /** `map_kernel`: the upper half of `user` becomes the kernel's; nothing else changes, and every
        top-level entry the kernel had stays shared from now on (`KernelViewTranslate`). */
    method MapKernel(user: nat, kernel: nat)
      requires Valid() && IsTable(own, user, 4) && IsTable(own, kernel, 4)
      modifies mem
      ensures Valid()
      ensures forall r, pn :: IsTable(own, r, 4) ==>
                Translate(mem[..], r, pn) ==
                  Translate(old(mem[..]), if r == user && Index(pn, 4) >= 256 then kernel else r, pn)
      ensures CopiesUpper(old(mem[..]), mem[..], user, kernel)
      ensures KernelView(mem[..], user, kernel, set i | 256 <= i < ENTRIES && Present(Rd(old(mem[..]), kernel, i)))
    {
      hide Rd, FrameOf, Index, WellFormed, Present, Translate, TableAt;
      ghost var m := mem[..];
      for i := 256 to ENTRIES
        invariant forall j :: 256 <= j < i ==> Rd(mem[..], user, j) == Rd(m, kernel, j)
        invariant forall f: nat, j: nat :: j < ENTRIES && !(f == user && 256 <= j < i) ==>
                  Rd(mem[..], f, j) == Rd(m, f, j)
      {
        ghost var m1 := mem[..];
        assert Rd(m1, kernel, i) == Rd(m, kernel, i);
        RdAt(m1, kernel, i);
        mem[ENTRIES * user + i] := mem[ENTRIES * kernel + i];
        WrittenAt(m1, mem[..], user, i, Rd(m1, kernel, i));
      }
      CopyUpperWellFormed(m, own, mem[..], user, kernel);
      forall r, pn | IsTable(own, r, 4)
        ensures Translate(mem[..], r, pn) == Translate(m, if r == user && Index(pn, 4) >= 256 then kernel else r, pn)
      {
        CopyUpperTranslate(m, own, mem[..], user, kernel, r, pn);
      }
      assert DemandOwned(mem[..], own, demand);
    }

    /** `physical_addr`: the address of the mapped frame. It may add empty tables, which changes no
        translation. */
    method PhysicalAddr(root: nat, virt: Word) returns (phy: Option<nat>)
      requires Valid() && IsTable(own, root, 4)
      modifies mem, pmm.bitmap.buffer, pmm`cursor, pmm`totalAllocated, `own
      ensures Valid() && Grows(old(mem[..]), old(own), mem[..], own)
      ensures phy.Some? ==>
                && phy.value == FrameOf(Translate(old(mem[..]), root, PageOf(virt))) * PAGE
                && TableAt(mem[..], root, PageOf(virt), 1).Some?
      ensures phy.None? ==> Full() && old(TableAt(mem[..], root, PageOf(virt), 1).None?)
      ensures TopsButOne(old(mem[..]), old(own), mem[..], root, PageOf(virt))
    {
      hide Rd, FrameOf, Index, PageOf, WellFormed, Present, TableAt, TopsButOne, Full;
      var leaf := LeafTable(root, virt);
      if leaf.None? {
        return None;
      }
      WalkIndices(virt);
      var i := (virt / 0x1000) % ENTRIES;
      RdAt(mem[..], leaf.value, i);
      return Some(FrameOf(mem[ENTRIES * leaf.value + i]) * PAGE);
    }

    /** A page of its own, as the loader and `new_user_task` map them: a frame from the allocator is mapped
        and then zeroed. */
    method MapFresh(root: nat, virt: Word, flags: Word) returns (ok: bool)
      requires Valid() && IsTable(own, root, 4) && IsFlags(flags)
      modifies mem, pmm.bitmap.buffer, pmm`cursor, pmm`totalAllocated, `own, `demand
      ensures Valid() && Keeps(old(mem[..]), old(own), mem[..], own)
      ensures if ok then FilledFresh(flags, virt, old(mem[..]), old(own), old(demand), mem[..], own, demand, root)
              else Grows(old(mem[..]), old(own), mem[..], own) && demand == old(demand) && Full()
      ensures TopsButOne(old(mem[..]), old(own), mem[..], root, PageOf(virt))
    {
      hide Rd, FrameOf, Index, PageOf, WellFormed, Present, Grows, TableAt, Translate, Updates, Keeps, FilledFresh;
      hide DemandOwned, TopsButOne, Slot, IsFlags, Full;
      ghost var m, o, d, pn := mem[..], own, demand, PageOf(virt);
      TopsButOneRefl(m, o, root, pn);
      var frame := TakeFrame();
      ghost var o1 := own;
      GrowsKeeps(m, o, m, o1);
      if frame.None? {
        return false;
      }
      var n := frame.value;
      KeepsIsTable(m, o, m, o1, root, 4);
      FrameAddress(n);
      ok := MapPage(root, n * PAGE, virt, flags);
      ghost var m2, o2 := mem[..], own;
      KeepsTrans(m, o, m, o1, m2, o2);
      TopsButOneMore(m, o, o1, m2, root, pn);
      if !ok {
        GrowsTrans(m, o, m, o1, m2, o2);
        return;
      }
      KeepsOwner(m, o1, m2, o2, n);
      AdoptFrame(n, root, virt, flags, m, o, d);
    }

    /** The `memset` behind the mapping; from then on the frame belongs to the entry. */
    method AdoptFrame(n: nat, root: nat, virt: Word, flags: Word,
                      ghost m: seq<Word>, ghost o: Owners, ghost d: set<(nat, nat)>)
      requires Valid() && IsFlags(flags) && IsTable(o, root, 4) && Keeps(m, o, mem[..], own)
      requires n < pmm.bitmap.size && n !in o && n in own && own[n] == Page(n, ENTRIES) && n * PAGE < WORDS
      requires Updates(m, o[n := Page(n, ENTRIES)], mem[..], root, PageOf(virt), MakeEntry(n * PAGE, flags))
      requires TableAt(mem[..], root, PageOf(virt), 1).Some? && demand == d - {Slot(mem[..], root, PageOf(virt))}
      requires TopsButOne(m, o, mem[..], root, PageOf(virt))
      modifies mem, `own, `demand
      ensures Valid() && Keeps(m, o, mem[..], own) && TopsButOne(m, o, mem[..], root, PageOf(virt))
      ensures FilledFresh(flags, virt, m, o, d, mem[..], own, demand, root)
    {
      hide Rd, FrameOf, Index, PageOf, WellFormed, Present, Grows, TableAt, Translate, Updates, Keeps, FilledFresh;
      hide DemandOwned, TopsButOne, IsFlags, Edge, Target;
      ghost var m2, o2, pn := mem[..], own, PageOf(virt);
      KeepsIsTable(m, o, m2, o2, root, 4);
      ZeroFrame(n);
      ghost var m3 := mem[..];
      GrowsKeeps(m2, o2, m3, o2);
      KeepsTrans(m, o, m2, o2, m3, o2);
      TopsButOneNew(m, o, m2, o2, m3, root, pn, n);
      KeepsWalk(m2, o2, m3, o2, root, pn, 1);
      LeafIsTable(m3, o2, root, pn);
      ghost var slot := Slot(m3, root, pn);
      FrameAddress(n);
      own := own[n := Page(slot.0, slot.1)];
      demand := d + {slot};
      OwnFresh(m, o, d, m2, o2, m3, own, root, virt, flags, n);
    }

    /** A frame for a page whose entry is still to be made. */
    method TakeFrame() returns (frame: Option<nat>)
      requires Valid()
      modifies pmm.bitmap.buffer, pmm`cursor, pmm`totalAllocated, `own
      ensures Valid() && Grows(mem[..], old(own), mem[..], own)
      ensures frame.None? ==> own == old(own) && Full()
      ensures frame.Some? ==>
                var n := frame.value;
                n < pmm.bitmap.size && n !in old(own) && own == old(own)[n := Page(n, ENTRIES)]
    {
      hide Rd, FrameOf, WellFormed, Grows, DemandOwned;
      ghost var m, o := mem[..], own;
      GrowsRefl(m, o);
      var address := pmm.AllocPages(1);
      if address.None? {
        NoRunFull(pmm.Bits(), old(pmm.cursor), pmm.bitmap.size);
        return None;
      }
      var n := address.value / PAGE;
      NewOwnerGrows(m, o, m, n, Page(n, ENTRIES));
      NewPageWellFormed(m, o, m, n, Page(n, ENTRIES));
      DemandElsewhere(m, o, m, o[n := Page(n, ENTRIES)], demand);
      own := own[n := Page(n, ENTRIES)];
      return Some(n);
    }

    /** `memset` of a frame that is no table. */
    method ZeroFrame(n: nat)
      requires Valid() && n in own && own[n].Page?
      modifies mem
      ensures Valid() && Grows(old(mem[..]), own, mem[..], own)
      ensures forall i :: 0 <= i < ENTRIES ==> Rd(mem[..], n, i) == 0
      ensures forall f: nat, j: nat :: j < ENTRIES && f != n ==> Rd(mem[..], f, j) == Rd(old(mem[..]), f, j)
    {
      hide Rd, FrameOf, WellFormed, Grows, DemandOwned;
      ghost var m := mem[..];
      forall i | 0 <= i < ENTRIES {
        mem[ENTRIES * n + i] := 0;
      }
      ZeroedAt(m, mem[..], n);
      PageWriteGrows(m, own, mem[..], n);
      DemandElsewhere(m, own, mem[..], own, demand);
    }

    /** `handle_page_fault`: only a page without a present entry is filled, from the first range that
        covers the address: with a zeroed frame no one owned before, or with the page that lies at
        the address less the direct map's base. */
    method HandlePageFault(space: Pagemap, virt: Word) returns (result: Fault)
      requires Valid() && IsTable(own, space.pml4, 4)
      requires forall r :: r in space.ranges ==> IsFlags(r.flags)
      modifies mem, pmm.bitmap.buffer, pmm`cursor, pmm`totalAllocated, `own, `demand
      ensures Valid() && Keeps(old(mem[..]), old(own), mem[..], own)
      ensures result.Panic? ==> Grows(old(mem[..]), old(own), mem[..], own) && demand == old(demand) && Full()
      ensures result.Unhandled? ==>
                && Grows(old(mem[..]), old(own), mem[..], own) && demand == old(demand)
                && TableAt(mem[..], space.pml4, PageOf(virt), 1).Some?
                && (|| Present(Translate(old(mem[..]), space.pml4, PageOf(virt)))
                    || forall r :: r in space.ranges ==> !Covers(r, virt))
      ensures result.Handled? ==>
                && !Present(Translate(old(mem[..]), space.pml4, PageOf(virt)))
                && exists k: nat :: IsFirst(space.ranges, virt, k)
                               && FilledFrom(space.ranges[k], hhdm, virt, old(mem[..]), old(own), old(demand),
                                             mem[..], own, demand, space.pml4)
      ensures TopsButOne(old(mem[..]), old(own), mem[..], space.pml4, PageOf(virt))
    {
      hide Rd, FrameOf, Index, PageOf, WellFormed, Present, Grows, TableAt, Translate, Updates, Keeps, SetsEntry;
      hide FilledFrom, Covers, DemandOwned, TopsButOne, Full;
      ghost var m, o, pn := mem[..], own, PageOf(virt);
      var root := space.pml4;
      var leaf := LeafTable(root, virt);
      GrowsKeeps(m, o, mem[..], own);
      if leaf.None? {
        return Panic;
      }
      WalkIndices(virt);
      var i := (virt / 0x1000) % ENTRIES;
      var entry := mem[ENTRIES * leaf.value + i];
      EntryIsTranslation(m, o, mem[..], own, root, pn, leaf.value);
      if Present(entry) {
        return Unhandled;
      }
      var range := space.AddrToRange(virt);
      if range.None? {
        return Unhandled;
      }
      match range.value.kind {
        case Anonymous =>
          var ok := FillAnonymous(root, virt, leaf.value, i, range.value, m, o);
          if !ok {
            return Panic;
          }
        case Direct =>
          FillDirect(root, virt, leaf.value, i, range.value, m, o);
      }
      return Handled;
    }

    /** The anonymous case of a fault, the leaf table being found since state `m`, `o`. */
    method FillAnonymous(root: nat, virt: Word, leaf: nat, i: nat, range: MappedRange, ghost m: seq<Word>,
                         ghost o: Owners)
      returns (ok: bool)
      requires Valid() && IsTable(own, leaf, 1) && IsTable(o, root, 4) && Grows(m, o, mem[..], own)
      requires TableAt(mem[..], root, PageOf(virt), 1) == Some(leaf) && i == Index(PageOf(virt), 1)
      requires IsFlags(range.flags) && range.kind.Anonymous? && TopsButOne(m, o, mem[..], root, PageOf(virt))
      modifies mem, pmm.bitmap.buffer, pmm`cursor, pmm`totalAllocated, `own, `demand
      ensures Valid() && Keeps(m, o, mem[..], own) && TopsButOne(m, o, mem[..], root, PageOf(virt))
      ensures if ok then FilledFrom(range, hhdm, virt, m, o, old(demand), mem[..], own, demand, root)
              else Grows(m, o, mem[..], own) && demand == old(demand) && Full()
    {
      hide Rd, FrameOf, Index, PageOf, WellFormed, Present, Grows, TableAt, Translate, Updates, Keeps, SetsEntry;
      hide FilledFrom, DemandOwned, Slot, TopsButOne, Full, Edge, Target, MakeEntry, IsFlags;
      ghost var m1, o1, pn := mem[..], own, PageOf(virt);
      GrowsKeeps(m, o, m1, o1);
      var page := AllocZeroed();
      if page.None? {
        return false;
      }
      ghost var m2, n := mem[..], page.value;
      ghost var o2 := o1[n := Page(leaf, i)];
      NewOwnerGrows(m1, o1, m2, n, Page(leaf, i));
      NewPageWellFormed(m1, o1, m2, n, Page(leaf, i));
      DemandElsewhere(m1, o1, m2, o2, demand);
      GrowsTrans(m, o, m1, o1, m2, o2);
      KeepsIsTable(m, o, m1, o1, root, 4);
      GrowsKeeps(m1, o1, m2, o2);
      KeepsWalk(m1, o1, m2, o2, root, pn, 1);
      TopsButOneNew(m, o, m1, o1, m2, root, pn, n);
      GrowsKeeps(m, o, m2, o2);
      own := o2;
      FrameAddress(page.value);
      var e := MakeEntry(page.value * PAGE, range.flags);
      SetEntry(leaf, i, e);
      SetsAt(m2, mem[..], leaf, i, e);
      demand := demand + {(leaf, i)};
      DemandMore(mem[..], own, demand, leaf, i);
      SetEntryUpdates(m, o, m2, own, mem[..], leaf, root, pn, e);
      SetEntryWalk(m2, own, mem[..], leaf, i, e, root, pn, 1);
      TopsButOneSet(m, o, m2, o2, mem[..], root, pn, leaf, i, e);
      AnonymousFill(range, hhdm, virt, m, o, old(demand), m2, mem[..], own, demand, root, n, leaf, e);
      return true;
    }

    /** The direct case. */
    method FillDirect(root: nat, virt: Word, leaf: nat, i: nat, range: MappedRange, ghost m: seq<Word>, ghost o: Owners)
      requires Valid() && IsTable(own, leaf, 1) && IsTable(o, root, 4) && Grows(m, o, mem[..], own)
      requires TableAt(mem[..], root, PageOf(virt), 1) == Some(leaf) && i == Index(PageOf(virt), 1)
      requires IsFlags(range.flags) && range.kind.Direct? && TopsButOne(m, o, mem[..], root, PageOf(virt))
      modifies mem, `demand
      ensures Valid() && Keeps(m, o, mem[..], own) && TopsButOne(m, o, mem[..], root, PageOf(virt))
      ensures FilledFrom(range, hhdm, virt, m, o, old(demand), mem[..], own, demand, root)
    {
      hide Rd, FrameOf, Index, PageOf, WellFormed, Present, Grows, TableAt, Translate, Updates, Keeps, SetsEntry;
      hide FilledFrom, DemandOwned, TopsButOne;
      ghost var m1 := mem[..];
      var e := MakeEntry(Minus(virt, hhdm), range.flags);
      SetEntry(leaf, i, e);
      SetEntryUpdates(m, o, m1, own, mem[..], leaf, root, PageOf(virt), e);
      GrowsKeeps(m, o, m1, own);
      KeepsIsTable(m, o, m1, own, root, 4);
      SetEntryWalk(m1, own, mem[..], leaf, i, e, root, PageOf(virt), 1);
      TopsButOneSet(m, o, m1, own, mem[..], root, PageOf(virt), leaf, i, e);
      DirectFill(range, hhdm, virt, m, o, old(demand), mem[..], own, demand, root);
    }
  }

  /** Where neither part of the bitmap has a run of one page, every page is taken. */
  lemma NoRunFull(bits: seq<bool>, cursor: nat, size: nat)
    requires cursor <= size <= |bits|
    requires !PageAllocator.HasRun(bits, cursor, size, 1) && !PageAllocator.HasRun(bits, 0, cursor, 1)
    ensures forall p :: 0 <= p < size ==> bits[p]
  {
    forall p | 0 <= p < size
      ensures bits[p]
    {
      assert !PageAllocator.IsRun(bits, p, 1);
    }
  }

  /** Demand-faulted entries do not notice changes to frames that had no owner. */
  lemma DemandElsewhere(m: seq<Word>, own: Owners, m': seq<Word>, own': Owners, demand: set<(nat, nat)>)
    requires DemandOwned(m, own, demand) && Grows(m, own, m', own')
    ensures DemandOwned(m', own', demand)
  {
    hide Rd, FrameOf, Translate, TableAt, Alias, TopsPersist;
  }

  lemma DemandMore(m: seq<Word>, own: Owners, demand: set<(nat, nat)>, t: nat, i: nat)
    requires DemandOwned(m, own, demand - {(t, i)}) && IsTable(own, t, 1) && i < ENTRIES
    requires FrameOf(Rd(m, t, i)) in own && own[FrameOf(Rd(m, t, i))] == Page(t, i)
    ensures DemandOwned(m, own, demand)
  {
    hide Rd, FrameOf;
  }

  lemma EdgeTarget(m: seq<Word>, own: Owners, f: nat, i: nat)
    requires WellFormed(m, own) && Edge(m, own, f, i)
    ensures IsTable(own, Target(m, f, i), own[f].level - 1)
  {
  }

  lemma AddsTableAt(m: seq<Word>, m1: seq<Word>, m': seq<Word>, t: nat, i: nat, n: nat)
    requires n != t && n < FRAMES && ENTRIES * n + ENTRIES <= |m| == |m1|
    requires forall j :: 0 <= j < ENTRIES ==> Rd(m1, n, j) == 0
    requires forall f: nat, j: nat :: j < ENTRIES && f != n ==> Rd(m1, f, j) == Rd(m, f, j)
    requires SetsEntry(m1, m', t, i, TableEntry(n))
    ensures AddsTable(m, m', t, i, n)
  {
    hide Rd;
  }

  lemma AddedWords(m: seq<Word>, m': seq<Word>, t: nat, i: nat, n: nat)
    requires AddsTable(m, m', t, i, n)
    ensures Present(Rd(m', t, i)) && Target(m', t, i) == n
    ensures forall f: nat, j: nat :: j < ENTRIES && f != n && !(f == t && j == i) ==> Rd(m', f, j) == Rd(m, f, j)
  {
    hide Rd;
  }

  lemma RootTable(m: seq<Word>, root: nat, pn: nat)
    ensures TableAt(m, root, pn, 4) == Some(root)
  {
  }

  lemma StepDown(m: seq<Word>, root: nat, pn: nat, l: nat, t: nat)
    requires 2 <= l <= 4 && TableAt(m, root, pn, l) == Some(t)
    ensures TableAt(m, root, pn, l - 1) ==
            if Present(Rd(m, t, Index(pn, l))) then Some(Target(m, t, Index(pn, l))) else None
    ensures l == 4 ==> t == root
  {
    hide Rd, FrameOf, Index, Present;
  }

  lemma KeepsWalk(m: seq<Word>, own: Owners, m': seq<Word>, own': Owners, r: nat, pn: nat, l: nat)
    requires Keeps(m, own, m', own') && IsTable(own, r, 4) && 1 <= l <= 4
    ensures if TableAt(m, r, pn, l).Some? then TableAt(m', r, pn, l) == TableAt(m, r, pn, l)
            else TableAt(m', r, pn, l).Some? ==> TableAt(m', r, pn, l).value !in own
  {
    hide TableAt, Alias, TopsPersist;
  }

  /** A walk that stops now had no last-level table before the tree grew either. */
  lemma MissingBelow(m: seq<Word>, own: Owners, m': seq<Word>, own': Owners, root: nat, pn: nat, l: nat)
    requires Grows(m, own, m', own') && IsTable(own, root, 4) && 1 <= l <= 3 && TableAt(m', root, pn, l).None?
    ensures TableAt(m, root, pn, 1).None?
  {
    hide Keeps, Translate, Rd, Index, FrameOf, Present;
    KeepsWalk(m, own, m', own', root, pn, l);
    assert TableAt(m, root, pn, 3).None? ==> TableAt(m, root, pn, 2).None?;
  }

  lemma TopsButOneTrans(m: seq<Word>, own: Owners, m1: seq<Word>, own1: Owners, m': seq<Word>, root: nat, pn: nat)
    requires Grows(m, own, m1, own1) && TopsButOne(m, own, m1, root, pn) && TopsButOne(m1, own1, m', root, pn)
    ensures TopsButOne(m, own, m', root, pn)
  {
    hide Translate, Rd, Index, TableAt, Alias, TopsPersist, WalksKept;
    forall r: nat, i: nat {:trigger Rd(m', r, i)}
      | IsTable(own, r, 4) && i < ENTRIES && !(r == root && i == Index(pn, 4))
      ensures Rd(m', r, i) == Rd(m, r, i)
    {
      assert IsTable(own1, r, 4) && Rd(m1, r, i) == Rd(m, r, i);
    }
  }

  /** Filling a frame that is no table leaves the top-level tables alone. */
  lemma TopsButOneNew(m: seq<Word>, own: Owners, m1: seq<Word>, own1: Owners, m': seq<Word>, root: nat, pn: nat, n: nat)
    requires Keeps(m, own, m1, own1) && TopsButOne(m, own, m1, root, pn) && (n !in own1 || own1[n].Page?)
    requires forall f: nat, j: nat :: j < ENTRIES && f != n ==> Rd(m', f, j) == Rd(m1, f, j)
    ensures TopsButOne(m, own, m', root, pn)
  {
    hide Rd, Index, TableAt, Alias, TopsPersist, WalksKept;
  }

  lemma TopsButOneRefl(m: seq<Word>, own: Owners, root: nat, pn: nat)
    ensures TopsButOne(m, own, m, root, pn)
  {
  }

  lemma TopsButOneMore(m: seq<Word>, own: Owners, own1: Owners, m': seq<Word>, root: nat, pn: nat)
    requires Keeps(m, own, m, own1) && TopsButOne(m, own1, m', root, pn)
    ensures TopsButOne(m, own, m', root, pn)
  {
    hide Rd, Index, TableAt, Alias, TopsPersist, WalksKept;
  }

  /** So does storing in a last-level table. */
  lemma TopsButOneSet(m: seq<Word>, own: Owners, m1: seq<Word>, own1: Owners, m': seq<Word>, root: nat, pn: nat,
                      t: nat, i: nat, e: Word)
    requires Keeps(m, own, m1, own1) && TopsButOne(m, own, m1, root, pn)
    requires IsTable(own1, t, 1) && SetsEntry(m1, m', t, i, e)
    ensures TopsButOne(m, own, m', root, pn)
  {
    hide Rd, Index, TableAt, Alias, TopsPersist, WalksKept;
    forall r: nat, j: nat {:trigger Rd(m', r, j)}
      | IsTable(own, r, 4) && j < ENTRIES && !(r == root && j == Index(pn, 4))
      ensures Rd(m', r, j) == Rd(m, r, j)
    {
      assert IsTable(own1, r, 4) && Rd(m1, r, j) == Rd(m, r, j);
    }
  }

  lemma KeepsIsTable(m: seq<Word>, own: Owners, m': seq<Word>, own': Owners, f: nat, l: nat)
    requires Keeps(m, own, m', own') && IsTable(own, f, l)
    ensures IsTable(own', f, l)
  {
    hide TopsPersist, Alias;
  }

  lemma KeepsOwner(m: seq<Word>, own: Owners, m': seq<Word>, own': Owners, f: nat)
    requires Keeps(m, own, m', own') && f in own
    ensures f in own' && own'[f] == own[f]
  {
    hide TopsPersist, WalksKept, Alias;
  }

  lemma GrowsKeeps(m: seq<Word>, own: Owners, m': seq<Word>, own': Owners)
    requires Grows(m, own, m', own')
    ensures Keeps(m, own, m', own')
  {
  }

  lemma KeepsTrans(m0: seq<Word>, own0: Owners, m1: seq<Word>, own1: Owners, m2: seq<Word>, own2: Owners)
    requires Keeps(m0, own0, m1, own1) && Keeps(m1, own1, m2, own2)
    ensures Keeps(m0, own0, m2, own2)
  {
    hide Rd, FrameOf, Index, Alias, TableAt;
    KeepsTables(m0, own0, m1, own1);
    forall r: nat, pn: nat, l: nat {:trigger TableAt(m2, r, pn, l)} | IsTable(own0, r, 4) && 1 <= l <= 4
      ensures if TableAt(m0, r, pn, l).Some? then TableAt(m2, r, pn, l) == TableAt(m0, r, pn, l)
              else TableAt(m2, r, pn, l).Some? ==> TableAt(m2, r, pn, l).value !in own0
    {
      assert TableAt(m1, r, pn, l).Some? || TableAt(m1, r, pn, l).None?;
    }
  }

  /** The flat map after the call is the one before with one page changed. */
  ghost predicate Updates(m: seq<Word>, own: Owners, m': seq<Word>, root: nat, pn: nat, e: Word) {
    forall s: nat, q: nat {:trigger Translate(m', s, q)} :: IsTable(own, s, 4) && q < PAGES ==>
      Translate(m', s, q) == if q == pn && Alias(m, root, s, pn) then e else Translate(m, s, q)
  }

  lemma UpdatesLeads(m: seq<Word>, own: Owners, m': seq<Word>, root: nat, pn: nat, phy: Word, flags: Word)
    requires IsFlags(flags) && IsTable(own, root, 4) && pn < PAGES
    requires Updates(m, own, m', root, pn, MakeEntry(phy, flags))
    ensures Leads(m', root, pn, FrameOf(phy), flags)
  {
    hide Translate, FrameOf, PAGES, MakeEntry, FlagsOf, IsFlags;
  }

  ghost predicate UpdatesRange(m: seq<Word>, own: Owners, m': seq<Word>, root: nat, first: nat, n: nat, phy: Word,
                               flags: Word)
    requires IsFlags(flags) && phy + n * PAGE <= WORDS
  {
    forall s: nat, q: nat {:trigger Translate(m', s, q)} :: IsTable(own, s, 4) && q < PAGES ==>
      Translate(m', s, q) ==
      if first <= q < first + n && Alias(m, root, s, q) then MakeEntry(phy + (q - first) * PAGE, flags)
      else Translate(m, s, q)
  }

  /** Consecutive pages lead to consecutive frames. */
  ghost predicate RangeLeads(m: seq<Word>, root: nat, first: nat, n: nat, frame: nat, flags: Word) {
    forall q: nat :: first <= q < first + n ==> LeadsInRange(m, root, first, frame, flags, q)
  }

  ghost predicate LeadsInRange(m: seq<Word>, root: nat, first: nat, frame: nat, flags: Word, q: nat)
    requires first <= q
  {
    Leads(m, root, q, (frame + (q - first)) % FRAMES, flags)
  }

  lemma UpdatesRangeLeads(m: seq<Word>, own: Owners, m': seq<Word>, root: nat, first: nat, n: nat, phy: Word,
                          flags: Word)
    requires IsFlags(flags) && phy + n * PAGE <= WORDS && IsTable(own, root, 4) && first + n <= PAGES
    requires UpdatesRange(m, own, m', root, first, n, phy, flags)
    ensures RangeLeads(m', root, first, n, FrameOf(phy), flags)
  {
    hide Translate, FrameOf, PAGES, IsFlags;
    forall q: nat | first <= q < first + n
      ensures LeadsInRange(m', root, first, FrameOf(phy), flags, q)
    {
      FrameOfStep(phy, q - first);
      assert Translate(m', root, q) == MakeEntry(phy + (q - first) * PAGE, flags);
    }
  }

  lemma FrameOfStep(phy: Word, i: nat)
    requires phy + i * PAGE < WORDS
    ensures FrameOf(phy + i * PAGE) == (FrameOf(phy) + i) % FRAMES
  {
    var q, f := phy / PAGE / FRAMES, FrameOf(phy);
    assert (phy + i * PAGE) / PAGE == phy / PAGE + i && phy / PAGE == q * FRAMES + f;
    FramesRemainder(q, f + i);
  }

  lemma FramesRemainder(q: nat, y: nat)
    ensures (q * FRAMES + y) % FRAMES == y % FRAMES
  {
  }

  /** A fault was answered from `r`: by the directly mapped page, which counts as mapped, or by a zeroed
      frame that had no owner and now belongs to this entry alone, which counts as faulted in. */
  ghost predicate FilledFrom(r: MappedRange, hhdm: Word, virt: Word,
                             m: seq<Word>, own: Owners, demand: set<(nat, nat)>,
                             m': seq<Word>, own': Owners, demand': set<(nat, nat)>, root: nat)
    requires IsFlags(r.flags)
  {
    var pn := PageOf(virt);
    && TableAt(m', root, pn, 1).Some?
    && match r.kind
       case Direct =>
         && Updates(m, own, m', root, pn, MakeEntry(Minus(virt, hhdm), r.flags))
         && Leads(m', root, pn, FrameOf(Minus(virt, hhdm)), r.flags)
         && demand' == demand - {Slot(m', root, pn)}
       case Anonymous => FilledFresh(r.flags, virt, m, own, demand, m', own', demand', root)
  }

  /** The page got a zeroed frame that had no owner and now belongs to this entry alone. */
  ghost predicate FilledFresh(flags: Word, virt: Word, m: seq<Word>, own: Owners, demand: set<(nat, nat)>,
                              m': seq<Word>, own': Owners, demand': set<(nat, nat)>, root: nat)
    requires IsFlags(flags)
  {
    var pn := PageOf(virt);
    && TableAt(m', root, pn, 1).Some? && demand' == demand + {Slot(m', root, pn)}
    && exists n: nat ::
         && n < FRAMES && n !in own && n in own' && own'[n].Page?
         && (forall i :: 0 <= i < ENTRIES ==> Rd(m', n, i) == 0)
         && n * PAGE < WORDS && Updates(m, own, m', root, pn, MakeEntry(n * PAGE, flags))
         && Leads(m', root, pn, n, flags)
  }

  lemma DirectFill(r: MappedRange, hhdm: Word, virt: Word, m: seq<Word>, own: Owners, demand: set<(nat, nat)>,
                   m': seq<Word>, own': Owners, demand': set<(nat, nat)>, root: nat)
    requires IsFlags(r.flags) && r.kind.Direct? && IsTable(own, root, 4)
    requires Updates(m, own, m', root, PageOf(virt), MakeEntry(Minus(virt, hhdm), r.flags))
    requires TableAt(m', root, PageOf(virt), 1).Some? && demand' == demand - {Slot(m', root, PageOf(virt))}
    ensures FilledFrom(r, hhdm, virt, m, own, demand, m', own', demand', root)
  {
    hide Updates, Leads, MakeEntry, TableAt, Slot;
    UpdatesLeads(m, own, m', root, PageOf(virt), Minus(virt, hhdm), r.flags);
  }

  lemma AnonymousFill(r: MappedRange, hhdm: Word, virt: Word, m: seq<Word>, own: Owners, demand: set<(nat, nat)>,
                      m2: seq<Word>, m': seq<Word>, own': Owners, demand': set<(nat, nat)>,
                      root: nat, n: nat, t: nat, e: Word)
    requires IsFlags(r.flags) && r.kind.Anonymous? && n < FRAMES && n !in own && n in own' && own'[n].Page?
    requires n * PAGE < WORDS && forall i :: 0 <= i < ENTRIES ==> Rd(m2, n, i) == 0
    requires n != t && SetsEntry(m2, m', t, Index(PageOf(virt), 1), e) && e == MakeEntry(n * PAGE, r.flags)
    requires Updates(m, own, m', root, PageOf(virt), e) && IsTable(own, root, 4)
    requires TableAt(m', root, PageOf(virt), 1) == Some(t) && demand' == demand + {(t, Index(PageOf(virt), 1))}
    ensures FilledFrom(r, hhdm, virt, m, own, demand, m', own', demand', root)
  {
    hide Rd, FrameOf, Index, PageOf, Updates, TableAt, Leads, MakeEntry, IsFlags;
    assert forall i :: 0 <= i < ENTRIES ==> Rd(m', n, i) == Rd(m2, n, i);
    FrameAddress(n);
    UpdatesLeads(m, own, m', root, PageOf(virt), n * PAGE, r.flags);
  }

  lemma FrameAddress(n: nat)
    requires n < FRAMES
    ensures n * PAGE < WORDS && FrameOf(n * PAGE) == n
  {
    PageQuotient(n, 0);
    FrameRemainder(0, n);
  }

  lemma SetsAt(m: seq<Word>, m': seq<Word>, t: nat, i: nat, e: Word)
    requires SetsEntry(m, m', t, i, e)
    ensures Rd(m', t, i) == e
  {
  }

  lemma NewPageWellFormed(m: seq<Word>, own: Owners, m': seq<Word>, n: nat, w: Owner)
    requires WellFormed(m, own) && n !in own && w.Page? && |m'| == |m| && ENTRIES * n + ENTRIES <= |m|
    requires forall f: nat, j: nat :: j < ENTRIES && f != n ==> Rd(m', f, j) == Rd(m, f, j)
    ensures WellFormed(m', own[n := w])
  {
    hide Rd, FrameOf, Present;
    forall f: nat, j: nat {:trigger Edge(m', own[n := w], f, j)} | Edge(m', own[n := w], f, j)
      ensures f in own && Edge(m, own, f, j) && Target(m', f, j) == Target(m, f, j)
    {
    }
  }

  /** What the walk's last-level entry holds is the flat map's entry before the call. */
  lemma EntryIsTranslation(m: seq<Word>, own: Owners, m': seq<Word>, own': Owners, root: nat, pn: nat, t: nat)
    requires Grows(m, own, m', own') && IsTable(own, root, 4) && TableAt(m', root, pn, 1) == Some(t)
    requires ENTRIES * t + Index(pn, 1) < |m'|
    ensures m'[ENTRIES * t + Index(pn, 1)] == Translate(m, root, pn)
  {
    hide Index, TableAt;
    assert Translate(m', root, pn) == Translate(m, root, pn);
  }

  lemma KeepsRefl(m: seq<Word>, own: Owners)
    ensures Keeps(m, own, m, own)
  {
  }

  lemma UpdatesNone(m: seq<Word>, own: Owners, root: nat, first: nat, phy: Word, flags: Word)
    requires IsFlags(flags)
    ensures UpdatesRange(m, own, m, root, first, 0, phy, flags)
  {
  }

  /** Adding empty tables keeps a range of updates. */
  lemma UpdatesKept(m: seq<Word>, own: Owners, m1: seq<Word>, own1: Owners, m': seq<Word>, own': Owners,
                    root: nat, first: nat, n: nat, phy: Word, flags: Word)
    requires IsFlags(flags) && phy + n * PAGE <= WORDS
    requires Keeps(m, own, m1, own1) && UpdatesRange(m, own, m1, root, first, n, phy, flags)
    requires Grows(m1, own1, m', own')
    ensures UpdatesRange(m, own, m', root, first, n, phy, flags)
  {
    hide Rd, FrameOf, Index, TableAt, Translate, Alias, PAGES, TopsPersist, WalksKept;
    forall s: nat, q: nat {:trigger Translate(m', s, q)} | IsTable(own, s, 4) && q < PAGES
      ensures Translate(m', s, q) == Translate(m1, s, q)
    {
    }
  }

  /** Updating one more page extends the range. */
  lemma UpdatesMore(m: seq<Word>, own: Owners, m1: seq<Word>, own1: Owners, m': seq<Word>, root: nat, first: nat,
                    i: nat, phy: Word, flags: Word)
    requires IsFlags(flags) && phy + (i + 1) * PAGE <= WORDS && IsTable(own, root, 4)
    requires Keeps(m, own, m1, own1) && UpdatesRange(m, own, m1, root, first, i, phy, flags)
    requires Updates(m1, own1, m', root, first + i, MakeEntry(phy + i * PAGE, flags))
    ensures UpdatesRange(m, own, m', root, first, i + 1, phy, flags)
  {
    hide Rd, FrameOf, Index, TableAt, Translate, Alias, PAGES;
    forall s: nat, q: nat {:trigger Translate(m', s, q)} | IsTable(own, s, 4) && q < PAGES
      ensures Translate(m', s, q) ==
              if first <= q < first + (i + 1) && Alias(m, root, s, q) then MakeEntry(phy + (q - first) * PAGE, flags)
              else Translate(m, s, q)
    {
      assert IsTable(own1, s, 4) && (Alias(m1, root, s, q) <==> Alias(m, root, s, q));
      assert Translate(m1, s, q) ==
             if first <= q < first + i && Alias(m, root, s, q) then MakeEntry(phy + (q - first) * PAGE, flags)
             else Translate(m, s, q);
    }
  }

  lemma AlignUpPages(size: nat)
    ensures AlignUp(size) == (AlignUp(size) / PAGE) * PAGE
  {
  }

  /** Without wrapping, the next page of memory has the next page number. */
  lemma PageOfStep(virt: Word, i: nat)
    requires virt + i * PAGE < WORDS && PageOf(virt) + i < PAGES
    ensures PageOf(virt + i * PAGE) == PageOf(virt) + i
  {
    assert (virt + i * PAGE) / PAGE == virt / PAGE + i;
    var a, b := virt / PAGE / PAGES, virt / PAGE % PAGES;
    assert virt / PAGE + i == a * PAGES + (b + i);
  }

  /** Different demand-faulted pages never share a frame: if two of them, in any address spaces, lie in
      the same frame, they are one page reached through a shared upper-half table. */
  lemma DemandPrivate(m: seq<Word>, own: Owners, demand: set<(nat, nat)>, r: nat, p: nat, s: nat, q: nat)
    requires WellFormed(m, own) && DemandOwned(m, own, demand)
    requires IsTable(own, r, 4) && IsTable(own, s, 4) && p < PAGES && q < PAGES
    requires Demanded(m, demand, r, p) && Demanded(m, demand, s, q)
    requires FrameOf(Translate(m, r, p)) == FrameOf(Translate(m, s, q))
    ensures p == q && Alias(m, r, s, p)
    ensures Index(p, 4) < 256 ==> r == s
  {
    hide Rd, FrameOf, Present, Index, PAGES, WellFormed, Alias, TableAt;
    SameSlot(m, own, r, p, s, q);
    if Index(p, 4) < 256 {
      AliasLower(m, own, r, s, p);
    }
  }

  /** An update in the lower half of one address space is seen by no other. */
  lemma LowerUpdateIsPrivate(m: seq<Word>, own: Owners, m': seq<Word>, root: nat, pn: nat, e: Word, s: nat, q: nat)
    requires WellFormed(m, own) && IsTable(own, root, 4) && IsTable(own, s, 4) && q < PAGES
    requires Updates(m, own, m', root, pn, e) && Index(pn, 4) < 256
    ensures Translate(m', s, q) == if s == root && q == pn then e else Translate(m, s, q)
  {
    hide Rd, FrameOf, Index, Translate, PAGES, WellFormed;
    if Alias(m, root, s, pn) {
      AliasLower(m, own, root, s, pn);
    }
  }

  /** Growing the tree and then writing one last-level entry updates one page. */
  lemma SetEntryUpdates(m: seq<Word>, own: Owners, m1: seq<Word>, own1: Owners, m': seq<Word>, t: nat, root: nat,
                        pn: nat, e: Word)
    requires Grows(m, own, m1, own1) && WellFormed(m1, own1) && IsTable(own, root, 4) && pn < PAGES
    requires IsTable(own1, t, 1) && TableAt(m1, root, pn, 1) == Some(t) && SetsEntry(m1, m', t, Index(pn, 1), e)
    ensures Updates(m, own, m', root, pn, e)
    ensures Keeps(m, own, m', own1)
  {
    hide Rd, FrameOf, Index, Present, TableAt, Translate, WellFormed, PAGES;
    forall s: nat, q: nat {:trigger Translate(m', s, q)} | IsTable(own, s, 4) && q < PAGES
      ensures Translate(m', s, q) == if q == pn && Alias(m, root, s, pn) then e else Translate(m, s, q)
    {
      SetEntryTranslate(m1, own1, m', t, e, root, pn, s, q);
    }
    assert SetsEntry(m1, m', t, Index(pn, 1), e) && Index(pn, 1) < ENTRIES;
    SetEntryKeeps(m1, own1, m', t, Index(pn, 1), e);
    KeepsTrans(m, own, m1, own1, m', own1);
  }

  lemma SetEntryKeeps(m: seq<Word>, own: Owners, m': seq<Word>, t: nat, i: nat, e: Word)
    requires WellFormed(m, own) && IsTable(own, t, 1) && SetsEntry(m, m', t, i, e)
    ensures Keeps(m, own, m', own)
  {
    hide Rd, FrameOf, Index, Present, WellFormed, TableAt;
    forall r: nat, pn: nat, l: nat {:trigger TableAt(m', r, pn, l)} | IsTable(own, r, 4) && 1 <= l <= 4
      ensures TableAt(m', r, pn, l) == TableAt(m, r, pn, l)
    {
      SetEntryWalk(m, own, m', t, i, e, r, pn, l);
    }
    forall r, s, pn | IsTable(own, r, 4) && IsTable(own, s, 4)
      ensures Alias(m', r, s, pn) <==> Alias(m, r, s, pn)
    {
      assert Rd(m', r, Index(pn, 4)) == Rd(m, r, Index(pn, 4)) && Rd(m', s, Index(pn, 4)) == Rd(m, s, Index(pn, 4));
    }
  }

  lemma RdAt(m: seq<Word>, f: nat, i: nat)
    requires ENTRIES * f + i < |m|
    ensures Rd(m, f, i) == m[ENTRIES * f + i]
  {
  }

  /** A store through a table pointer changes that entry alone. */
  lemma WrittenAt(m: seq<Word>, m': seq<Word>, t: nat, i: nat, e: Word)
    requires i < ENTRIES && ENTRIES * t + i < |m| && m' == m[ENTRIES * t + i := e]
    ensures SetsEntry(m, m', t, i, e)
  {
  }

  /** Giving a zeroed frame nobody owned an owner changes nothing that was there. */
  lemma NewOwnerGrows(m: seq<Word>, own: Owners, m': seq<Word>, n: nat, w: Owner)
    requires WellFormed(m, own) && n !in own && |m'| == |m| && ENTRIES * n + ENTRIES <= |m|
    requires forall f: nat, j: nat :: j < ENTRIES && f != n ==> Rd(m', f, j) == Rd(m, f, j)
    ensures Grows(m, own, m', own[n := w])
  {
    hide Rd, FrameOf, Index, TableAt, Translate, WellFormed, Present;
    forall r, pn | IsTable(own, r, 4)
      ensures Translate(m', r, pn) == Translate(m, r, pn)
    {
      SameTablesWalk(m, own, m', r, pn, 1);
    }
    forall r: nat, pn: nat, l: nat {:trigger TableAt(m', r, pn, l)} | IsTable(own, r, 4) && 1 <= l <= 4
      ensures TableAt(m', r, pn, l) == TableAt(m, r, pn, l)
    {
      SameTablesWalk(m, own, m', r, pn, l);
    }
    forall r, s, pn | IsTable(own, r, 4) && IsTable(own, s, 4)
      ensures Alias(m', r, s, pn) <==> Alias(m, r, s, pn)
    {
      assert Rd(m', r, Index(pn, 4)) == Rd(m, r, Index(pn, 4)) && Rd(m', s, Index(pn, 4)) == Rd(m, s, Index(pn, 4));
    }
  }

  /** Zeroing a frame changes its words alone. */
  lemma ZeroedAt(m: seq<Word>, m': seq<Word>, n: nat)
    requires |m'| == |m| && ENTRIES * n + ENTRIES <= |m|
    requires forall k :: 0 <= k < |m| ==> m'[k] == if ENTRIES * n <= k < ENTRIES * n + ENTRIES then 0 else m[k]
    ensures forall i :: 0 <= i < ENTRIES ==> Rd(m', n, i) == 0
    ensures forall f: nat, j: nat :: j < ENTRIES && f != n ==> Rd(m', f, j) == Rd(m, f, j)
  {
  }

  /** What is written in a frame that is no table changes no translation. */
  lemma PageWriteGrows(m: seq<Word>, own: Owners, m': seq<Word>, n: nat)
    requires WellFormed(m, own) && n in own && own[n].Page? && |m'| == |m|
    requires forall f: nat, j: nat :: j < ENTRIES && f != n ==> Rd(m', f, j) == Rd(m, f, j)
    ensures WellFormed(m', own) && Grows(m, own, m', own)
  {
    hide Rd, FrameOf, Index, TableAt, Translate, Present;
    assert WellFormed(m', own) by { ElsewhereWellFormed(m, own, m', n); }
    hide WellFormed;
    forall r, pn | IsTable(own, r, 4)
      ensures Translate(m', r, pn) == Translate(m, r, pn)
    {
      SameTablesWalk(m, own, m', r, pn, 1);
    }
    forall r: nat, pn: nat, l: nat {:trigger TableAt(m', r, pn, l)} | IsTable(own, r, 4) && 1 <= l <= 4
      ensures TableAt(m', r, pn, l) == TableAt(m, r, pn, l)
    {
      SameTablesWalk(m, own, m', r, pn, l);
    }
    forall r, s, pn | IsTable(own, r, 4) && IsTable(own, s, 4)
      ensures Alias(m', r, s, pn) <==> Alias(m, r, s, pn)
    {
      assert Rd(m', r, Index(pn, 4)) == Rd(m, r, Index(pn, 4)) && Rd(m', s, Index(pn, 4)) == Rd(m, s, Index(pn, 4));
    }
  }

  lemma ElsewhereWellFormed(m: seq<Word>, own: Owners, m': seq<Word>, n: nat)
    requires WellFormed(m, own) && n in own && own[n].Page? && |m'| == |m|
    requires forall f: nat, j: nat :: j < ENTRIES && f != n ==> Rd(m', f, j) == Rd(m, f, j)
    ensures WellFormed(m', own)
  {
    hide Rd, FrameOf, Present;
    forall f: nat, j: nat {:trigger Edge(m', own, f, j)} | Edge(m', own, f, j)
      ensures Edge(m, own, f, j) && Target(m', f, j) == Target(m, f, j)
    {
    }
  }

  /** A frame that is no table may change hands. */
  lemma ReownWellFormed(m: seq<Word>, own: Owners, n: nat, w: Owner)
    requires WellFormed(m, own) && n in own && own[n].Page? && w.Page?
    ensures WellFormed(m, own[n := w])
  {
    hide Rd, FrameOf, Present;
    forall f: nat, j: nat {:trigger Edge(m, own[n := w], f, j)} | Edge(m, own[n := w], f, j)
      ensures Edge(m, own, f, j)
    {
    }
  }

  lemma LeafIsTable(m: seq<Word>, own: Owners, root: nat, pn: nat)
    requires WellFormed(m, own) && IsTable(own, root, 4) && TableAt(m, root, pn, 1).Some?
    ensures IsTable(own, Slot(m, root, pn).0, 1)
  {
    hide WellFormed, TableAt;
    TableAtIsTable(m, own, root, pn, 1);
  }

  /** The mapped and zeroed frame gets its entry as owner: from then on it is a page of its own. */
  lemma OwnFresh(m: seq<Word>, own: Owners, demand: set<(nat, nat)>, m2: seq<Word>, own2: Owners,
                 m': seq<Word>, own': Owners, root: nat, virt: Word, flags: Word, n: nat)
    requires IsFlags(flags) && IsTable(own, root, 4) && n < FRAMES && n * PAGE < WORDS
    requires WellFormed(m', own2) && Keeps(m, own, m', own2) && Grows(m2, own2, m', own2)
    requires n !in own && n in own2 && own2[n] == Page(n, ENTRIES)
    requires Updates(m, own[n := Page(n, ENTRIES)], m2, root, PageOf(virt), MakeEntry(n * PAGE, flags))
    requires forall i :: 0 <= i < ENTRIES ==> Rd(m', n, i) == 0
    requires TableAt(m', root, PageOf(virt), 1).Some? && FrameOf(n * PAGE) == n
    requires var slot := Slot(m', root, PageOf(virt));
             && DemandOwned(m', own2, demand - {slot}) && own' == own2[n := Page(slot.0, slot.1)]
             && IsTable(own2, slot.0, 1)
    ensures WellFormed(m', own') && Keeps(m, own, m', own')
    ensures DemandOwned(m', own', demand + {Slot(m', root, PageOf(virt))})
    ensures FilledFresh(flags, virt, m, own, demand, m', own', demand + {Slot(m', root, PageOf(virt))}, root)
  {
    hide Rd, FrameOf, Index, PageOf, TableAt, Translate, Present, Alias, TopsPersist, WalksKept, IsFlags, PAGES;
    var pn, e := PageOf(virt), MakeEntry(n * PAGE, flags);
    var slot := Slot(m', root, pn);
    ReownWellFormed(m', own2, n, Page(slot.0, slot.1));
    UpdatesMoved(m, own, own[n := Page(n, ENTRIES)], m2, own2, m', root, pn, e);
    assert Rd(m', slot.0, slot.1) == e by { UpdatedEntry(m, own, m', root, pn, e); }
    UpdatesLeads(m, own, m', root, pn, n * PAGE, flags);
    forall t, i | (t, i) in demand + {slot}
      ensures IsTable(own', t, 1) && i < ENTRIES
      ensures FrameOf(Rd(m', t, i)) in own' && own'[FrameOf(Rd(m', t, i))] == Page(t, i)
    {
      assert (t, i) != slot ==> (t, i) in demand - {slot};
    }
  }

  lemma UpdatesMoved(m: seq<Word>, own: Owners, own1: Owners, m2: seq<Word>, own2: Owners, m': seq<Word>,
                     root: nat, pn: nat, e: Word)
    requires Updates(m, own1, m2, root, pn, e) && Keeps(m, own, m', own2) && Grows(m2, own2, m', own2)
    requires forall f :: f in own ==> f in own1 && own1[f] == own[f]
    ensures Updates(m, own, m', root, pn, e)
  {
    hide TableAt, Translate, Alias, TopsPersist, WalksKept, PAGES;
  }

  lemma UpdatedEntry(m: seq<Word>, own: Owners, m': seq<Word>, root: nat, pn: nat, e: Word)
    requires Updates(m, own, m', root, pn, e) && IsTable(own, root, 4) && pn < PAGES && TableAt(m', root, pn, 1).Some?
    ensures Rd(m', Slot(m', root, pn).0, Slot(m', root, pn).1) == e
  {
    hide TableAt, Rd, Index, PAGES;
    assert Translate(m', root, pn) == e;
  }
}
