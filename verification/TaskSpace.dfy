/** The address space of a new user task (sched.cpp, elf.cpp): the kernel's upper half, and fresh pages for
    the program's segments and the stack behind them. Page addresses are taken on 64 bits. */
module TaskSpace {
  import opened Wrappers
  import opened Paging
  import opened PageTable
  import opened Vmm
  import opened FlatSpaces
  import opened VmmRuns
  import opened AddressSpace

  /** The mapping loop of the loader, for one segment. */
  function SegmentOps(i: nat, s: Segment, n: nat): seq<Op> {
    seq(n, k requires 0 <= k < n => MapNew(i, AddressAt(s, k), PageFlags(s.writable, s.executable)))
  }

  function LoadOps(i: nat, ss: seq<Segment>): seq<Op> {
    if ss == [] then [] else LoadOps(i, ss[..|ss| - 1]) + SegmentOps(i, ss[|ss| - 1], PageCount(ss[|ss| - 1]))
  }

  /** The stack loop of `new_user_task`. */
  function StackOps(i: nat, stack: Word): seq<Op> {
    seq(STACK_PAGES, k requires 0 <= k < STACK_PAGES => MapNew(i, StackPage(stack, k), PageFlags(true, false)))
  }

  /** The page lies under one of the addresses the loader or the stack loop maps. */
  ghost predicate TaskPage(ss: seq<Segment>, stack: Word, pn: nat) {
    || (exists a :: a in LoadAddresses(ss) && PageOf(a) == pn)
    || (exists k: nat :: k < STACK_PAGES && PageOf(StackPage(stack, k)) == pn)
  }

  /** Operations that map pages of their own in space `i`. */
  ghost predicate MapsIn(ops: seq<Op>, i: nat) {
    forall k :: 0 <= k < |ops| ==>
      ops[k].MapNew? && ops[k].space == i && IsFlags(ops[k].flags) && Present(ops[k].flags)
  }

  ghost predicate MapsPage(ops: seq<Op>, pn: nat) {
    exists k :: 0 <= k < |ops| && ops[k].MapNew? && PageOf(ops[k].virt) == pn
  }

  /** The flags the last of them gives the page. */
  function LastFlags(ops: seq<Op>, pn: nat): (flags: Option<Word>)
    ensures flags.Some? ==> IsFlags(flags.value) && Present(flags.value)
  {
    if ops == [] then None
    else
      var later := LastFlags(ops[1..], pn);
      if later.Some? then later
      else if Gives(ops[0], pn) then Some(ops[0].flags)
      else None
  }

  predicate Gives(op: Op, pn: nat) {
    op.MapNew? && PageOf(op.virt) == pn && IsFlags(op.flags) && Present(op.flags)
  }

  lemma {:induction false} LastFlagsOf(ops: seq<Op>, pn: nat, i: nat)
    requires MapsIn(ops, i)
    ensures LastFlags(ops, pn).Some? <==> MapsPage(ops, pn)
  {
    hide PageOf, IsFlags, Present;
    if ops != [] {
      LastFlagsOf(ops[1..], pn, i);
      MapsSplit(ops, pn);
      assert MapsPage([ops[0]], pn) <==> PageOf(ops[0].virt) == pn by { assert [ops[0]][0] == ops[0]; }
    }
  }

  lemma {:induction false} LoadOpsMap(i: nat, ss: seq<Segment>)
    ensures MapsIn(LoadOps(i, ss), i) && |LoadOps(i, ss)| == |LoadAddresses(ss)|
    ensures forall k :: 0 <= k < |LoadOps(i, ss)| ==>
              LoadOps(i, ss)[k].MapNew? && LoadOps(i, ss)[k].virt == LoadAddresses(ss)[k]
  {
    hide IsFlags, PageOf;
    if ss != [] {
      LoadOpsMap(i, ss[..|ss| - 1]);
    }
  }

  lemma StackOpsMap(i: nat, stack: Word)
    ensures MapsIn(StackOps(i, stack), i) && |StackOps(i, stack)| == STACK_PAGES
    ensures forall k: nat :: k < STACK_PAGES ==>
              StackOps(i, stack)[k].MapNew? && StackOps(i, stack)[k].virt == StackPage(stack, k)
  {
    hide PageOf;
    var flags := PageFlags(true, false);
    assert IsFlags(flags) && Present(flags);
    forall k | 0 <= k < STACK_PAGES
      ensures StackOps(i, stack)[k] == MapNew(i, StackPage(stack, k), flags)
    {
    }
  }

  lemma MapsInBoth(a: seq<Op>, b: seq<Op>, i: nat)
    requires MapsIn(a, i) && MapsIn(b, i)
    ensures MapsIn(a + b, i)
    ensures forall pn :: MapsPage(a + b, pn) <==> MapsPage(a, pn) || MapsPage(b, pn)
  {
    hide IsFlags, PageOf, Present;
    forall pn
      ensures MapsPage(a + b, pn) <==> MapsPage(a, pn) || MapsPage(b, pn)
    {
      if k :| 0 <= k < |a| && a[k].MapNew? && PageOf(a[k].virt) == pn {
        assert (a + b)[k] == a[k];
      }
      if k :| 0 <= k < |b| && b[k].MapNew? && PageOf(b[k].virt) == pn {
        assert (a + b)[|a| + k] == b[k];
      }
    }
  }

  /** The task's pages are those its operations map. */
  lemma TaskOpsMap(i: nat, ss: seq<Segment>, stack: Word)
    ensures MapsIn(LoadOps(i, ss) + StackOps(i, stack), i)
    ensures forall pn :: MapsPage(LoadOps(i, ss) + StackOps(i, stack), pn) <==> TaskPage(ss, stack, pn)
  {
    hide IsFlags, PageOf, LoadOps, LoadAddresses, StackOps, MapsIn;
    LoadOpsMap(i, ss);
    StackOpsMap(i, stack);
    MapsInBoth(LoadOps(i, ss), StackOps(i, stack), i);
    forall pn
      ensures MapsPage(LoadOps(i, ss), pn) <==> exists a :: a in LoadAddresses(ss) && PageOf(a) == pn
      ensures MapsPage(StackOps(i, stack), pn) <==>
              exists k: nat :: k < STACK_PAGES && PageOf(StackPage(stack, k)) == pn
    {
      LoadMapsPage(i, ss, pn);
      StackMapsPage(i, stack, pn);
    }
  }

  lemma LoadMapsPage(i: nat, ss: seq<Segment>, pn: nat)
    ensures MapsPage(LoadOps(i, ss), pn) <==> exists a :: a in LoadAddresses(ss) && PageOf(a) == pn
  {
    hide PageOf, LoadOps, LoadAddresses, MapsIn;
    LoadOpsMap(i, ss);
    var ops, addresses := LoadOps(i, ss), LoadAddresses(ss);
    if a :| a in addresses && PageOf(a) == pn {
      var k :| 0 <= k < |addresses| && addresses[k] == a;
      assert ops[k].virt == a;
    }
    if MapsPage(ops, pn) {
      var k :| 0 <= k < |ops| && ops[k].MapNew? && PageOf(ops[k].virt) == pn;
      assert addresses[k] in addresses;
    }
  }

  lemma StackMapsPage(i: nat, stack: Word, pn: nat)
    ensures MapsPage(StackOps(i, stack), pn) <==>
            exists k: nat :: k < STACK_PAGES && PageOf(StackPage(stack, k)) == pn
  {
    hide PageOf, StackOps, MapsIn;
    StackOpsMap(i, stack);
    var ops := StackOps(i, stack);
    if k: nat :| k < STACK_PAGES && PageOf(StackPage(stack, k)) == pn {
      assert ops[k].virt == StackPage(stack, k);
    }
    if MapsPage(ops, pn) {
      var k: nat :| k < |ops| && ops[k].MapNew? && PageOf(ops[k].virt) == pn;
      assert ops[k].virt == StackPage(stack, k);
    }
  }

  // ---------- what a task may do with its pages ----------

  ghost predicate InSegment(s: Segment, pn: nat) {
    exists i: nat :: i < PageCount(s) && PageOf(AddressAt(s, i)) == pn
  }

  ghost predicate InStack(stack: Word, pn: nat) {
    exists k: nat :: k < STACK_PAGES && PageOf(StackPage(stack, k)) == pn
  }

  /** The `k`-th segment is the last in the list that has the page. */
  ghost predicate LastSegment(ss: seq<Segment>, pn: nat, k: nat) {
    k < |ss| && InSegment(ss[k], pn) && forall j :: k < j < |ss| ==> !InSegment(ss[j], pn)
  }

  /** A stack page may be written but not executed, a page of the program may be used as the last segment it
      lies in says, both by user code. */
  ghost predicate TaskRights(ss: seq<Segment>, stack: Word, pn: nat, flags: Word) {
    if InStack(stack, pn) then RightsOf(flags) == Rights(true, true, false)
    else exists k: nat :: LastSegment(ss, pn, k) && RightsOf(flags) == Rights(ss[k].writable, true, ss[k].executable)
  }

  lemma {:induction false} LastFlagsBoth(a: seq<Op>, b: seq<Op>, pn: nat)
    ensures LastFlags(a + b, pn) == if LastFlags(b, pn).Some? then LastFlags(b, pn) else LastFlags(a, pn)
    decreases |a|
  {
    hide PageOf, IsFlags, Present;
    if a == [] {
      assert a + b == b;
    } else {
      assert (a + b)[1..] == a[1..] + b;
      LastFlagsBoth(a[1..], b, pn);
    }
  }

  lemma {:induction false} LastFlagsEqual(ops: seq<Op>, pn: nat, flags: Word)
    requires forall k :: 0 <= k < |ops| ==> ops[k].MapNew? && ops[k].flags == flags
    ensures LastFlags(ops, pn).Some? ==> LastFlags(ops, pn).value == flags
  {
    hide PageOf, IsFlags, Present;
    if ops != [] {
      LastFlagsEqual(ops[1..], pn, flags);
    }
  }

  lemma SegmentFlags(i: nat, s: Segment, pn: nat)
    ensures var flags := LastFlags(SegmentOps(i, s, PageCount(s)), pn);
            && (flags.Some? <==> InSegment(s, pn))
            && (flags.Some? ==> RightsOf(flags.value) == Rights(s.writable, true, s.executable))
  {
    hide PageOf, IsFlags, Present, PageCount, AddressAt, RightsOf, LastFlags;
    var ops := SegmentOps(i, s, PageCount(s));
    LastFlagsEqual(ops, pn, PageFlags(s.writable, s.executable));
    LastFlagsOf(ops, pn, i);
    if InSegment(s, pn) {
      var k: nat :| k < PageCount(s) && PageOf(AddressAt(s, k)) == pn;
      assert ops[k].virt == AddressAt(s, k);
    }
    if MapsPage(ops, pn) {
      var k: nat :| k < |ops| && ops[k].MapNew? && PageOf(ops[k].virt) == pn;
      assert ops[k].virt == AddressAt(s, k);
    }
  }

  lemma {:induction false} LoadFlags(i: nat, ss: seq<Segment>, pn: nat) returns (k: nat)
    ensures var flags := LastFlags(LoadOps(i, ss), pn);
            flags.Some? ==>
              LastSegment(ss, pn, k) && RightsOf(flags.value) == Rights(ss[k].writable, true, ss[k].executable)
  {
    hide PageOf, IsFlags, Present, PageCount, AddressAt, RightsOf, LastFlags, SegmentOps, InSegment;
    k := 0;
    if ss == [] {
      assert LastFlags([], pn) == None by { NoFlags(pn); }
    } else {
      var before, s := ss[..|ss| - 1], ss[|ss| - 1];
      LastFlagsBoth(LoadOps(i, before), SegmentOps(i, s, PageCount(s)), pn);
      SegmentFlags(i, s, pn);
      if InSegment(s, pn) {
        k := |ss| - 1;
      } else {
        k := LoadFlags(i, before, pn);
      }
    }
  }

  lemma NoFlags(pn: nat)
    ensures LastFlags([], pn) == None
  {
  }

  lemma TaskFlags(i: nat, ss: seq<Segment>, stack: Word, pn: nat)
    ensures var flags := LastFlags(LoadOps(i, ss) + StackOps(i, stack), pn);
            flags.Some? ==> TaskRights(ss, stack, pn, flags.value)
  {
    hide PageOf, IsFlags, Present, RightsOf, LastFlags, LoadOps, LastSegment, MapsIn, StackPage;
    var ops, flags := StackOps(i, stack), PageFlags(true, false);
    LastFlagsBoth(LoadOps(i, ss), ops, pn);
    LastFlagsEqual(ops, pn, flags);
    assert MapsIn(ops, i) by { StackOpsMap(i, stack); }
    LastFlagsOf(ops, pn, i);
    StackMapsPage(i, stack, pn);
    var k := LoadFlags(i, ss, pn);
  }

  /** After mapping fresh pages in space `i`, each of them is a page of its own with the flags it got last,
      seen also where its table is shared, and all other pages are as before. */
  ghost predicate Mapped(b: Book, r: Book, i: nat, ops: seq<Op>)
    requires i < |b.spaces|
  {
    && |r.spaces| == |b.spaces|
    && (forall j :: 0 <= j < |b.spaces| ==> r.spaces[j].slots == b.spaces[j].slots)
    && (forall j: nat, pn: nat {:trigger r.spaces[j].pages(pn)} :: j < |b.spaces| ==>
          if LastFlags(ops, pn).Some? && Shares(b, i, j, Index(pn, 4))
          then OwnPage(r.spaces[j].pages(pn), LastFlags(ops, pn).value)
          else r.spaces[j].pages(pn) == b.spaces[j].pages(pn))
  }

  predicate OwnPage(p: Mapping, flags: Word)
    requires IsFlags(flags)
  {
    && p.own && FrameOf(p.entry) * PAGE < WORDS && FlagsOf(p.entry) == flags
    && p.entry == MakeEntry(FrameOf(p.entry) * PAGE, flags)
  }

  lemma {:induction false} MapsRun(b: Book, i: nat, ops: seq<Op>, trace: seq<Event>)
    requires LegalRun(b, trace) && Follows(b, ops, trace) && !Stopped(trace)
    requires i < |b.spaces| && MapsIn(ops, i)
    ensures Mapped(b, Replay(b, trace), i, ops)
    decreases |ops|
  {
    hide Index, PageOf, IsFlags, Present, FrameOf, MakeEntry, Walked, FrameFree, OwnPage;
    if ops != [] {
      var e, b1 := trace[0], After(b, trace[0]);
      assert e.op == ops[0];
      MapsOne(b, i, e);
      MapsRun(b1, i, ops[1..], trace[1..]);
      MapsMore(b, b1, Replay(b, trace), i, ops);
    }
  }

  lemma MapsOne(b: Book, i: nat, e: Event)
    requires e.op.MapNew? && e.op.space == i && Legal(b, e.op) && Allowed(b, e) && !e.outcome.OutOfMemory?
    requires Present(e.op.flags)
    ensures Mapped(b, After(b, e), i, [e.op])
  {
    hide Index, PageOf, IsFlags, Present, FrameOf, FrameFree;
    var b' := After(b, e);
    assert [e.op][0] == e.op && [e.op][1..] == [];
    forall j: nat, pn: nat {:trigger b'.spaces[j].pages(pn)} | j < |b.spaces|
      ensures if LastFlags([e.op], pn).Some? && Shares(b, i, j, Index(pn, 4))
              then OwnPage(b'.spaces[j].pages(pn), LastFlags([e.op], pn).value)
              else b'.spaces[j].pages(pn) == b.spaces[j].pages(pn)
    {
      assert b'.spaces[j] == WriteIn(b, i, j, PageOf(e.op.virt), Mapping(e.outcome.entry, e.outcome.own));
      assert LastFlags([e.op], pn) == if Gives(e.op, pn) then Some(e.op.flags) else None;
    }
  }

  lemma MapsMore(b: Book, b1: Book, r: Book, i: nat, ops: seq<Op>)
    requires i < |b.spaces| && ops != []
    requires Mapped(b, b1, i, [ops[0]]) && Mapped(b1, r, i, ops[1..])
    ensures Mapped(b, r, i, ops)
  {
    hide Index, PageOf, IsFlags, Present, OwnPage;
    forall j: nat, pn: nat {:trigger r.spaces[j].pages(pn)} | j < |b.spaces|
      ensures if LastFlags(ops, pn).Some? && Shares(b, i, j, Index(pn, 4))
              then OwnPage(r.spaces[j].pages(pn), LastFlags(ops, pn).value)
              else r.spaces[j].pages(pn) == b.spaces[j].pages(pn)
    {
      assert [ops[0]][0] == ops[0] && [ops[0]][1..] == [];
      assert LastFlags([ops[0]], pn) == if Gives(ops[0], pn) then Some(ops[0].flags) else None;
      assert Shares(b1, i, j, Index(pn, 4)) <==> Shares(b, i, j, Index(pn, 4));
      assert b1.spaces[j].pages(pn) == b1.spaces[j].pages(pn);
    }
  }

  lemma MapsSplit(ops: seq<Op>, pn: nat)
    requires ops != [] && ops[0].MapNew?
    ensures MapsPage(ops, pn) <==> MapsPage([ops[0]], pn) || MapsPage(ops[1..], pn)
  {
    hide PageOf;
    if MapsPage(ops, pn) {
      var k :| 0 <= k < |ops| && ops[k].MapNew? && PageOf(ops[k].virt) == pn;
      assert k > 0 ==> ops[1..][k - 1] == ops[k];
      assert k == 0 ==> [ops[0]][0] == ops[k];
    }
    if MapsPage([ops[0]], pn) {
      assert ops[0] == [ops[0]][0];
    }
    if MapsPage(ops[1..], pn) {
      var k :| 0 <= k < |ops[1..]| && ops[1..][k].MapNew? && PageOf(ops[1..][k].virt) == pn;
      assert ops[k + 1] == ops[1..][k];
    }
  }

  /** What a new task's space is: empty in its lower half and the kernel's in its upper half, except for
      the pages of program and stack, which are the task's own, with the flags of their segment. Other spaces
      change only where such a page lies below a slot they share. */
  ghost predicate TaskMade(b: Book, r: Book, ss: seq<Segment>, stack: Word)
    requires b.spaces != []
  {
    var u, b1 := |b.spaces|, AddSpace(b, 0);
    var flags := (pn: nat) => LastFlags(LoadOps(u, ss) + StackOps(u, stack), pn);
    && |r.spaces| == u + 1
    && (forall pn: nat {:trigger flags(pn)} :: flags(pn).Some? <==> TaskPage(ss, stack, pn))
    && (forall pn: nat {:trigger flags(pn)} :: flags(pn).Some? ==> TaskRights(ss, stack, pn, flags(pn).value))
    && (forall j: nat, pn: nat {:trigger r.spaces[j].pages(pn)} :: j <= u ==>
          if flags(pn).Some? && Shares(b1, u, j, Index(pn, 4))
          then OwnPage(r.spaces[j].pages(pn), flags(pn).value)
          else r.spaces[j].pages(pn) == if j < u then b.spaces[j].pages(pn)
                                        else if Index(pn, 4) >= 256 then b.spaces[0].pages(pn) else Mapping(0, false))
  }

  /** `new_user_task`, as far as its address space goes: the new space, then the program, then the stack
      behind it. Unless memory runs out the task gets such a space, and its pages lie in frames no other
      page of its own lies in. */
  method NewUserTask(machine: Machine, spaces: seq<Pagemap>, ss: seq<Segment>, ghost b: Book)
    returns (more: seq<Pagemap>, stack: Word, ok: bool, ghost r: Book)
    requires machine.Valid() && Holds(machine, spaces, b) && b.spaces != [] && Settled(machine, b, false)
    modifies machine, machine.mem, machine.pmm.bitmap.buffer, machine.pmm, set i | 0 <= i < |spaces| :: spaces[i]
    ensures machine.Valid() && r.spaces != [] && Holds(machine, more, r) && Settled(machine, r, !ok)
    ensures spaces <= more && stack == FirstFreeOf(LoadAddresses(ss)) && SharedViews(r) && FramesPrivate(r)
    ensures ok ==> TaskMade(b, r, ss, stack)
  {
    hide Holds, Settled, LegalRun, Follows, Replay, SharedViews, FramesPrivate;
    hide FirstFree, FirstFreeOf, TaskMade, LoadOps;
    HeldSpaces(machine, spaces, b);
    var mapped, free := Load(ss);
    stack := free;
    var ops := [NewSpace] + (LoadOps(|spaces|, ss) + StackOps(|spaces|, stack));
    ghost var trace;
    more, ok, trace := RunOps(machine, spaces, ops, b);
    r := Replay(b, trace);
    if ok {
      TaskRun(b, ss, stack, trace);
    }
  }

  lemma TaskRun(b: Book, ss: seq<Segment>, stack: Word, trace: seq<Event>)
    requires b.spaces != [] && LegalRun(b, trace) && !Stopped(trace)
    requires var u := |b.spaces|; Follows(b, [NewSpace] + (LoadOps(u, ss) + StackOps(u, stack)), trace)
    ensures TaskMade(b, Replay(b, trace), ss, stack)
  {
    hide Index, PageOf, IsFlags, Present, FrameOf, LoadOps, StackOps, TaskPage, MapsPage, MapsIn, LastFlags, OwnPage;
    hide TaskRights;
    var u, b1 := |b.spaces|, After(b, trace[0]);
    var maps := LoadOps(u, ss) + StackOps(u, stack);
    assert ([NewSpace] + maps)[1..] == maps;
    assert b1 == AddSpace(b, trace[0].outcome.root);
    TaskOpsMap(u, ss, stack);
    MapsRun(b1, u, maps, trace[1..]);
    forall pn
      ensures LastFlags(maps, pn).Some? <==> TaskPage(ss, stack, pn)
    {
      LastFlagsOf(maps, pn, u);
    }
    forall pn | LastFlags(maps, pn).Some?
      ensures TaskRights(ss, stack, pn, LastFlags(maps, pn).value)
    {
      TaskFlags(u, ss, stack, pn);
    }
    var r := Replay(b, trace);
    forall j: nat, pn: nat {:trigger r.spaces[j].pages(pn)} | j <= u
      ensures Shares(b1, u, j, Index(pn, 4)) <==> Shares(AddSpace(b, 0), u, j, Index(pn, 4))
      ensures b1.spaces[j].pages(pn) ==
              if j < u then b.spaces[j].pages(pn)
              else if Index(pn, 4) >= 256 then b.spaces[0].pages(pn) else Mapping(0, false)
    {
    }
  }
}
