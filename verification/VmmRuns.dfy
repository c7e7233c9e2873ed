/** Whole runs of the virtual memory manager: page tables and address spaces hold a book of flat spaces
    through any interleaving of new address spaces, mappings, reservations, faults and queries. */
module VmmRuns {
  import opened Wrappers
  import opened Paging
  import opened PageTable
  import opened Vmm
  import opened FlatSpaces

  ghost function MappingAt(m: seq<Word>, demand: set<(nat, nat)>, root: nat, pn: nat): Mapping {
    Mapping(Translate(m, root, pn), Demanded(m, demand, root, pn))
  }

  /** The page tables of every space translate as its flat map, and tables are shared as the book says. */
  ghost predicate Agrees(m: seq<Word>, own: Owners, demand: set<(nat, nat)>, b: Book) {
    && b.spaces != [] && b.spaces[0].slots == UPPER
    && (forall i :: 0 <= i < |b.spaces| ==> IsTable(own, b.spaces[i].root, 4) && b.spaces[i].slots <= UPPER)
    && (forall i: nat, pn: nat {:trigger b.spaces[i].pages(pn)} :: i < |b.spaces| && pn < PAGES ==>
          b.spaces[i].pages(pn) == MappingAt(m, demand, b.spaces[i].root, pn))
    && (forall i: nat, j: nat, pn: nat {:trigger Alias(m, b.spaces[i].root, b.spaces[j].root, pn)} ::
          i < |b.spaces| && j < |b.spaces| && pn < PAGES ==>
            (Alias(m, b.spaces[i].root, b.spaces[j].root, pn) <==> Shares(b, i, j, Index(pn, 4))))
  }

  ghost function KernelSlots(m: seq<Word>, kernel: nat): set<nat> {
    set x | 256 <= x < ENTRIES && Present(Rd(m, kernel, x))
  }

  /** The book as it is when only the kernel's space exists. */
  ghost function Start(m: seq<Word>, demand: set<(nat, nat)>, kernel: nat, ranges: seq<MappedRange>, hhdm: Word): Book {
    Book([Space(kernel, UPPER, ranges, (pn: nat) => MappingAt(m, demand, kernel, pn))], KernelSlots(m, kernel), hhdm)
  }

  lemma StartAgrees(m: seq<Word>, own: Owners, demand: set<(nat, nat)>, kernel: nat, ranges: seq<MappedRange>,
                    hhdm: Word)
    requires IsTable(own, kernel, 4)
    ensures Agrees(m, own, demand, Start(m, demand, kernel, ranges, hhdm))
  {
    hide Translate, Demanded, Rd, Present, Index;
  }

  /** Where no translation changed, no page's mapping did. */
  lemma MappingKept(m: seq<Word>, own: Owners, demand: set<(nat, nat)>, m': seq<Word>, own': Owners, r: nat, pn: nat)
    requires DemandOwned(m, own, demand) && Keeps(m, own, m', own') && IsTable(own, r, 4)
    requires Translate(m', r, pn) == Translate(m, r, pn)
    ensures MappingAt(m', demand, r, pn) == MappingAt(m, demand, r, pn)
  {
    hide Translate, TableAt, Keeps, Rd, FrameOf, Index;
    KeepsWalk(m, own, m', own', r, pn, 1);
  }

  /** A written entry is seen through the roots that share its table, and nowhere else. */
  lemma MappingWritten(m: seq<Word>, own: Owners, demand: set<(nat, nat)>,
                       m': seq<Word>, own': Owners, demand': set<(nat, nat)>, root: nat, pn: nat, p: Mapping,
                       s: nat, q: nat)
    requires DemandOwned(m, own, demand) && Keeps(m, own, m', own') && WellFormed(m', own')
    requires IsTable(own, root, 4) && IsTable(own, s, 4) && pn < PAGES && q < PAGES
    requires Updates(m, own, m', root, pn, p.entry) && TableAt(m', root, pn, 1).Some?
    requires demand' == if p.own then demand + {Slot(m', root, pn)} else demand - {Slot(m', root, pn)}
    ensures MappingAt(m', demand', s, q) == if q == pn && Alias(m, root, s, pn) then p else MappingAt(m, demand, s, q)
  {
    hide Translate, TableAt, Keeps, Rd, FrameOf, Index, WellFormed, Alias, PAGES;
    KeepsWalk(m, own, m', own', s, q, 1);
    KeepsAlias(m, own, m', own', root, s, pn);
    SameSlot(m', own', root, pn, s, q);
  }

  lemma KeepsAlias(m: seq<Word>, own: Owners, m': seq<Word>, own': Owners, r: nat, s: nat, pn: nat)
    requires Keeps(m, own, m', own') && IsTable(own, r, 4) && IsTable(own, s, 4)
    ensures IsTable(own', r, 4) && IsTable(own', s, 4)
    ensures Alias(m', r, s, pn) <==> Alias(m, r, s, pn)
  {
    hide Alias, TopsPersist, WalksKept;
  }

  lemma AgreesKept(m: seq<Word>, own: Owners, m': seq<Word>, own': Owners, demand: set<(nat, nat)>, b: Book)
    requires Agrees(m, own, demand, b) && DemandOwned(m, own, demand) && Grows(m, own, m', own')
    ensures Agrees(m', own', demand, b)
  {
    hide Translate, Alias, MappingAt, Keeps, DemandOwned, Rd, Index, Shares, PAGES, UPPER;
    forall i: nat, pn: nat {:trigger b.spaces[i].pages(pn)} | i < |b.spaces| && pn < PAGES
      ensures b.spaces[i].pages(pn) == MappingAt(m', demand, b.spaces[i].root, pn)
    {
      MappingKept(m, own, demand, m', own', b.spaces[i].root, pn);
    }
    forall i: nat, j: nat, pn: nat {:trigger Alias(m', b.spaces[i].root, b.spaces[j].root, pn)}
      | i < |b.spaces| && j < |b.spaces| && pn < PAGES
      ensures Alias(m', b.spaces[i].root, b.spaces[j].root, pn) <==> Shares(b, i, j, Index(pn, 4))
    {
      KeepsAlias(m, own, m', own', b.spaces[i].root, b.spaces[j].root, pn);
    }
    forall i | 0 <= i < |b.spaces|
      ensures IsTable(own', b.spaces[i].root, 4)
    {
      KeepsIsTable(m, own, m', own', b.spaces[i].root, 4);
    }
  }

  lemma AgreesWritten(m: seq<Word>, own: Owners, demand: set<(nat, nat)>,
                      m': seq<Word>, own': Owners, demand': set<(nat, nat)>, b: Book, i: nat, pn: nat, p: Mapping)
    requires Agrees(m, own, demand, b) && i < |b.spaces| && pn < PAGES
    requires DemandOwned(m, own, demand) && Keeps(m, own, m', own') && WellFormed(m', own')
    requires var root := b.spaces[i].root;
             && Updates(m, own, m', root, pn, p.entry) && TableAt(m', root, pn, 1).Some?
             && demand' == if p.own then demand + {Slot(m', root, pn)} else demand - {Slot(m', root, pn)}
    ensures Agrees(m', own', demand', Write(b, i, pn, p))
  {
    hide Translate, Alias, MappingAt, Keeps, DemandOwned, Rd, Index, PAGES, UPPER, TableAt, WellFormed, Updates;
    var b' := Write(b, i, pn, p);
    forall j: nat, q: nat {:trigger b'.spaces[j].pages(q)} | j < |b'.spaces| && q < PAGES
      ensures b'.spaces[j].pages(q) == MappingAt(m', demand', b'.spaces[j].root, q)
    {
      assert b'.spaces[j] == WriteIn(b, i, j, pn, p);
      assert b.spaces[j].pages(q) == MappingAt(m, demand, b.spaces[j].root, q);
      assert Alias(m, b.spaces[i].root, b.spaces[j].root, pn) <==> Shares(b, i, j, Index(pn, 4));
      MappingWritten(m, own, demand, m', own', demand', b.spaces[i].root, pn, p, b.spaces[j].root, q);
    }
    forall j: nat, k: nat, q: nat {:trigger Alias(m', b'.spaces[j].root, b'.spaces[k].root, q)}
      | j < |b'.spaces| && k < |b'.spaces| && q < PAGES
      ensures Alias(m', b'.spaces[j].root, b'.spaces[k].root, q) <==> Shares(b', j, k, Index(q, 4))
    {
      assert Alias(m, b.spaces[j].root, b.spaces[k].root, q) <==> Shares(b, j, k, Index(q, 4));
      KeepsAlias(m, own, m', own', b.spaces[j].root, b.spaces[k].root, q);
    }
    forall j | 0 <= j < |b'.spaces|
      ensures IsTable(own', b'.spaces[j].root, 4) && b'.spaces[j].slots <= UPPER
    {
      KeepsIsTable(m, own, m', own', b.spaces[j].root, 4);
    }
  }

  /** Equal top-level entries lead through the same tables. */
  lemma {:induction false} SameTop(m: seq<Word>, r: nat, s: nat, pn: nat, l: nat)
    requires Rd(m, r, Index(pn, 4)) == Rd(m, s, Index(pn, 4)) && 1 <= l <= 3
    ensures TableAt(m, r, pn, l) == TableAt(m, s, pn, l)
    decreases 4 - l
  {
    hide Rd, Index, Present, FrameOf;
    RootTable(m, r, pn);
    RootTable(m, s, pn);
    if l < 3 {
      SameTop(m, r, s, pn, l + 1);
    }
  }

  /** A fresh root with the kernel's upper half: nothing older changed. */
  ghost predicate CopiedRoot(m: seq<Word>, own: Owners, m': seq<Word>, own': Owners, u: nat, k: nat) {
    && Keeps(m, own, m', own') && u !in own && IsTable(own', u, 4)
    && (forall r: nat, pn: nat {:trigger Translate(m', r, pn)} :: IsTable(own, r, 4) ==>
          Translate(m', r, pn) == Translate(m, r, pn))
    && (forall x :: 0 <= x < ENTRIES ==> Rd(m', k, x) == Rd(m, k, x))
    && (forall x :: 0 <= x < ENTRIES ==> Rd(m', u, x) == if x >= 256 then Rd(m, k, x) else 0)
  }

  /** Through the new root the kernel's upper half is seen and nothing else. */
  lemma NewMapping(m: seq<Word>, u: nat, k: nat, demand: set<(nat, nat)>, pn: nat)
    requires forall x :: 0 <= x < ENTRIES ==> Rd(m, u, x) == if x >= 256 then Rd(m, k, x) else 0
    ensures MappingAt(m, demand, u, pn) ==
            if Index(pn, 4) >= 256 then MappingAt(m, demand, k, pn) else Mapping(0, false)
  {
    hide Rd, Index, FrameOf;
    if Index(pn, 4) >= 256 {
      SameTop(m, u, k, pn, 1);
    } else {
      assert TableAt(m, u, pn, 4) == Some(u);
      assert TableAt(m, u, pn, 3) == None;
      assert TableAt(m, u, pn, 2) == None;
    }
  }

  /** The new root shares a table with another exactly where the kernel has one and shares it. */
  lemma NewAlias(m: seq<Word>, u: nat, k: nat, r: nat, pn: nat)
    requires forall x :: 0 <= x < ENTRIES ==> Rd(m, u, x) == if x >= 256 then Rd(m, k, x) else 0
    requires r != u
    ensures Alias(m, u, r, pn) <==> Index(pn, 4) in KernelSlots(m, k) && Alias(m, k, r, pn)
    ensures Alias(m, r, u, pn) <==> Alias(m, u, r, pn)
  {
    hide Rd, Index, FrameOf;
  }

  lemma AgreesNew(m: seq<Word>, own: Owners, m': seq<Word>, own': Owners, demand: set<(nat, nat)>, b: Book, u: nat)
    requires Agrees(m, own, demand, b) && DemandOwned(m, own, demand)
    requires CopiedRoot(m, own, m', own', u, b.spaces[0].root) && b.tops == KernelSlots(m, b.spaces[0].root)
    ensures Agrees(m', own', demand, AddSpace(b, u)) && KernelSlots(m', b.spaces[0].root) == b.tops
    ensures forall i :: 0 <= i < |b.spaces| ==> b.spaces[i].root != u
  {
    hide Translate, Alias, MappingAt, Keeps, DemandOwned, Rd, Index, PAGES, Present;
    var b', n, k := AddSpace(b, u), |b.spaces|, b.spaces[0].root;
    forall j: nat, q: nat {:trigger b'.spaces[j].pages(q)} | j < |b'.spaces| && q < PAGES
      ensures b'.spaces[j].pages(q) == MappingAt(m', demand, b'.spaces[j].root, q)
    {
      var i := if j < n then j else 0;
      assert b.spaces[i].pages(q) == MappingAt(m, demand, b.spaces[i].root, q);
      MappingKept(m, own, demand, m', own', b.spaces[i].root, q);
      NewMapping(m', u, k, demand, q);
    }
    forall i: nat, j: nat, q: nat {:trigger Alias(m', b'.spaces[i].root, b'.spaces[j].root, q)}
      | i < |b'.spaces| && j < |b'.spaces| && q < PAGES
      ensures Alias(m', b'.spaces[i].root, b'.spaces[j].root, q) <==> Shares(b', i, j, Index(q, 4))
    {
      NewShares(m, own, m', own', demand, b, u, i, j, q);
    }
    forall j | 0 <= j < |b'.spaces|
      ensures IsTable(own', b'.spaces[j].root, 4) && b'.spaces[j].slots <= UPPER
    {
      if j < n {
        KeepsIsTable(m, own, m', own', b.spaces[j].root, 4);
      }
    }
  }

  lemma NewShares(m: seq<Word>, own: Owners, m': seq<Word>, own': Owners, demand: set<(nat, nat)>, b: Book, u: nat,
                  i: nat, j: nat, pn: nat)
    requires Agrees(m, own, demand, b) && i <= |b.spaces| && j <= |b.spaces| && pn < PAGES
    requires CopiedRoot(m, own, m', own', u, b.spaces[0].root) && b.tops == KernelSlots(m, b.spaces[0].root)
    ensures var b' := AddSpace(b, u);
            Alias(m', b'.spaces[i].root, b'.spaces[j].root, pn) <==> Shares(b', i, j, Index(pn, 4))
  {
    hide Translate, MappingAt, Keeps, Rd, Index, PAGES, Present, TableAt;
    var n, k := |b.spaces|, b.spaces[0].root;
    assert KernelSlots(m', k) == KernelSlots(m, k);
    if i < n && j < n {
      assert Alias(m, b.spaces[i].root, b.spaces[j].root, pn) <==> Shares(b, i, j, Index(pn, 4));
      KeepsAlias(m, own, m', own', b.spaces[i].root, b.spaces[j].root, pn);
    } else if i < n || j < n {
      var o := if i < n then i else j;
      assert b.spaces[o].root in own;
      assert Alias(m, k, b.spaces[o].root, pn) <==> Shares(b, 0, o, Index(pn, 4));
      KeepsAlias(m, own, m', own', k, b.spaces[o].root, pn);
      NewAlias(m', u, k, b.spaces[o].root, pn);
    }
  }

  /** Different spaces have different roots. */
  lemma RootsDiffer(m: seq<Word>, own: Owners, demand: set<(nat, nat)>, b: Book, i: nat, j: nat)
    requires Agrees(m, own, demand, b) && i < |b.spaces| && j < |b.spaces| && b.spaces[i].root == b.spaces[j].root
    ensures i == j
  {
    hide Translate, MappingAt, Rd, Present, TableAt;
    assert Alias(m, b.spaces[i].root, b.spaces[j].root, 0);
    assert Index(0, 4) == 0;
  }

  /** A completed walk is what gives the kernel a new table below a top-level slot. */
  lemma WalkedTops(m: seq<Word>, own: Owners, m': seq<Word>, own': Owners, demand: set<(nat, nat)>, b: Book, i: nat,
                   pn: nat)
    requires Agrees(m, own, demand, b) && i < |b.spaces| && b.tops == KernelSlots(m, b.spaces[0].root)
    requires Keeps(m, own, m', own') && TopsButOne(m, own, m', b.spaces[i].root, pn)
    requires TableAt(m', b.spaces[i].root, pn, 1).Some?
    ensures Walked(b, i, pn).tops == KernelSlots(m', b.spaces[0].root)
  {
    hide Translate, MappingAt, Rd, Alias, WalksKept, Agrees, Index;
    var k := b.spaces[0].root;
    assert IsTable(own, k, 4) by { AgreesRoot(m, own, demand, b, 0); }
    if b.spaces[i].root == k {
      RootsDiffer(m, own, demand, b, i, 0);
      WalkPresent(m', k, pn);
    }
    forall x | 256 <= x < ENTRIES
      ensures x in Walked(b, i, pn).tops <==> x in KernelSlots(m', k)
    {
    }
  }

  lemma AgreesRoot(m: seq<Word>, own: Owners, demand: set<(nat, nat)>, b: Book, i: nat)
    requires Agrees(m, own, demand, b) && i < |b.spaces|
    ensures IsTable(own, b.spaces[i].root, 4) && b.spaces != []
  {
    hide Alias, MappingAt;
  }

  lemma WalkPresent(m: seq<Word>, root: nat, pn: nat)
    requires TableAt(m, root, pn, 1).Some?
    ensures Present(Rd(m, root, Index(pn, 4)))
  {
    hide Rd, Index, Present, FrameOf;
    assert TableAt(m, root, pn, 2).Some? && TableAt(m, root, pn, 3).Some?;
    RootTable(m, root, pn);
  }

  lemma AgreesViews(m: seq<Word>, own: Owners, demand: set<(nat, nat)>, b: Book)
    requires Agrees(m, own, demand, b)
    ensures SharedViews(b)
  {
    hide Alias, TableAt, Shares, Rd, Index, PAGES, Agrees;
    forall i: nat, j: nat, pn: nat {:trigger b.spaces[i].pages(pn), b.spaces[j].pages(pn)}
      | i < |b.spaces| && j < |b.spaces| && pn < PAGES && Shares(b, i, j, Index(pn, 4))
      ensures b.spaces[i].pages(pn) == b.spaces[j].pages(pn)
    {
      AgreesEntry(m, own, demand, b, i, pn);
      AgreesEntry(m, own, demand, b, j, pn);
      assert Alias(m, b.spaces[i].root, b.spaces[j].root, pn) by { AgreesAlias(m, own, demand, b, i, j, pn); }
      AliasTableAt(m, b.spaces[i].root, b.spaces[j].root, pn, 1);
    }
  }

  lemma AgreesAlias(m: seq<Word>, own: Owners, demand: set<(nat, nat)>, b: Book, i: nat, j: nat, pn: nat)
    requires Agrees(m, own, demand, b) && i < |b.spaces| && j < |b.spaces| && pn < PAGES
    ensures Alias(m, b.spaces[i].root, b.spaces[j].root, pn) <==> Shares(b, i, j, Index(pn, 4))
  {
    hide Alias, MappingAt, Shares;
  }

  lemma AgreesPrivate(m: seq<Word>, own: Owners, demand: set<(nat, nat)>, b: Book)
    requires Agrees(m, own, demand, b) && WellFormed(m, own) && DemandOwned(m, own, demand)
    ensures FramesPrivate(b)
  {
    hide Alias, Translate, Demanded, Shares, Rd, Index, PAGES, Agrees, WellFormed, DemandOwned, FrameOf;
    forall i: nat, p: nat, j: nat, q: nat {:trigger b.spaces[i].pages(p), b.spaces[j].pages(q)}
      | && i < |b.spaces| && j < |b.spaces| && p < PAGES && q < PAGES
        && b.spaces[i].pages(p).own && b.spaces[j].pages(q).own
        && FrameOf(b.spaces[i].pages(p).entry) == FrameOf(b.spaces[j].pages(q).entry)
      ensures p == q && Shares(b, i, j, Index(p, 4))
    {
      AgreesEntry(m, own, demand, b, i, p);
      AgreesEntry(m, own, demand, b, j, q);
      AgreesRoot(m, own, demand, b, i);
      AgreesRoot(m, own, demand, b, j);
      DemandPrivate(m, own, demand, b.spaces[i].root, p, b.spaces[j].root, q);
      AgreesAlias(m, own, demand, b, i, j, p);
    }
  }

  // ---------- the operations ----------

  /** `new_user_task`'s pagemap: a zeroed top-level table with the kernel's upper half. */
  method MakeSpace(machine: Machine, kernel: nat) returns (space: Option<Pagemap>)
    requires machine.Valid() && IsTable(machine.own, kernel, 4)
    modifies machine, machine.mem, machine.pmm.bitmap.buffer, machine.pmm
    ensures machine.Valid() && machine.demand == old(machine.demand)
    ensures space.None? ==>
              Grows(old(machine.mem[..]), old(machine.own), machine.mem[..], machine.own) && machine.Full()
    ensures space.Some? ==>
              var u := space.value.pml4;
              && fresh(space.value) && space.value.ranges == []
              && CopiedRoot(old(machine.mem[..]), old(machine.own), machine.mem[..], machine.own, u, kernel)
              && (forall pn :: Index(pn, 4) >= 256 ==>
                    Translate(machine.mem[..], u, pn) == Translate(machine.mem[..], kernel, pn))
              && (forall pn :: Index(pn, 4) < 256 ==> Translate(machine.mem[..], u, pn) == 0)
  {
    hide Rd, Present, Index, FrameOf, Translate, Keeps, Grows, WellFormed, KernelView, TableAt;
    ghost var m, o := machine.mem[..], machine.own;
    var root := machine.NewRoot();
    GrowsKeeps(m, o, machine.mem[..], machine.own);
    if root.None? {
      return None;
    }
    ghost var m1, o1 := machine.mem[..], machine.own;
    KeepsIsTable(m, o, m1, o1, kernel, 4);
    machine.MapKernel(root.value, kernel);
    NewSpaceKeeps(m, o, m1, o1, machine.mem[..], root.value, kernel);
    var p := new Pagemap(root.value);
    return Some(p);
  }

  /** Making a root and copying the upper half into it leaves everything older as it was. */
  lemma NewSpaceKeeps(m: seq<Word>, own: Owners, m1: seq<Word>, own1: Owners, m': seq<Word>, u: nat, k: nat)
    requires WellFormed(m1, own1) && Grows(m, own, m1, own1) && IsTable(own, k, 4)
    requires u !in own && IsTable(own1, u, 4) && CopiesUpper(m1, m', u, k)
    requires forall x :: 0 <= x < ENTRIES ==> Rd(m1, u, x) == 0
    requires forall f: nat, x: nat :: x < ENTRIES && f in own ==> Rd(m1, f, x) == Rd(m, f, x)
    requires forall r, pn :: IsTable(own1, r, 4) ==>
               Translate(m', r, pn) == Translate(m1, if r == u && Index(pn, 4) >= 256 then k else r, pn)
    ensures CopiedRoot(m, own, m', own1, u, k)
  {
    hide Rd, Present, FrameOf, Index, Translate, TableAt, WellFormed;
    KeepsTables(m, own, m1, own1);
    forall r, s, pn | IsTable(own, r, 4) && IsTable(own, s, 4)
      ensures Alias(m', r, s, pn) <==> Alias(m, r, s, pn)
    {
      assert Alias(m1, r, s, pn) <==> Alias(m, r, s, pn);
      assert Rd(m', r, Index(pn, 4)) == Rd(m1, r, Index(pn, 4)) && Rd(m', s, Index(pn, 4)) == Rd(m1, s, Index(pn, 4));
    }
    forall r: nat, pn: nat, l: nat {:trigger TableAt(m', r, pn, l)} | IsTable(own, r, 4) && 1 <= l <= 4
      ensures TableAt(m', r, pn, l) == TableAt(m1, r, pn, l)
    {
      CopiedWalk(m1, own1, m', u, k, r, pn, l);
    }
  }

  lemma CopiedWalk(m: seq<Word>, own: Owners, m': seq<Word>, u: nat, k: nat, r: nat, pn: nat, l: nat)
    requires WellFormed(m, own) && CopiesUpper(m, m', u, k) && IsTable(own, u, 4) && IsTable(own, k, 4)
    requires IsTable(own, r, 4) && r != u && 1 <= l <= 4
    ensures TableAt(m', r, pn, l) == TableAt(m, r, pn, l)
  {
    hide WellFormed, CopiesUpper, Rd, Index, Present, FrameOf;
    if l < 4 {
      CopyUpperWalk(m, own, m', u, k, r, pn, l);
    }
  }

  /** The machine and the address spaces hold exactly what the book says. */
  ghost predicate Holds(machine: Machine, spaces: seq<Pagemap>, b: Book)
    reads machine, machine.mem, set i | 0 <= i < |spaces| :: spaces[i]
  {
    && machine.hhdm == b.hhdm && |spaces| == |b.spaces|
    && (forall i :: 0 <= i < |spaces| ==> HoldsRanges(spaces[i], b.spaces[i]))
    && Agrees(machine.mem[..], machine.own, machine.demand, b)
  }

  ghost predicate HoldsRanges(space: Pagemap, s: Space)
    reads space
  {
    space.pml4 == s.root && space.ranges == s.ranges && forall r :: r in s.ranges ==> IsFlags(r.flags)
  }

  /** After a panic no page is free; otherwise the book knows the kernel's top-level tables. */
  ghost predicate Settled(machine: Machine, b: Book, panicked: bool)
    requires machine.pmm.bitmap.size <= 8 * machine.pmm.bitmap.buffer.Length && b.spaces != []
    reads machine, machine.mem, machine.pmm, machine.pmm.bitmap.buffer
  {
    if panicked then machine.Full() else b.tops == KernelSlots(machine.mem[..], b.spaces[0].root)
  }

  method ApplyMap(machine: Machine, spaces: seq<Pagemap>, i: nat, phy: Word, virt: Word, flags: Word, ghost b: Book)
    returns (ok: bool)
    requires machine.Valid() && Holds(machine, spaces, b) && Legal(b, Map(i, phy, virt, flags))
    requires b.spaces != [] && Settled(machine, b, false)
    modifies machine, machine.mem, machine.pmm.bitmap.buffer, machine.pmm
    ensures machine.Valid()
    ensures Holds(machine, spaces, After(b, Event(Map(i, phy, virt, flags), if ok then Done else OutOfMemory)))
    ensures Settled(machine, After(b, Event(Map(i, phy, virt, flags), if ok then Done else OutOfMemory)), !ok)
  {
    hide Rd, Present, Index, FrameOf, PageOf, Keeps, Grows, WellFormed, Updates, DemandOwned, Agrees, Write, Walked;
    hide TopsButOne, KernelSlots, TableAt;
    ghost var m, o, d := machine.mem[..], machine.own, machine.demand;
    AgreesRoot(m, o, d, b, i);
    ok := machine.MapPage(spaces[i].pml4, phy, virt, flags);
    if ok {
      ghost var p := Mapping(MakeEntry(phy, flags), false);
      AgreesWritten(m, o, d, machine.mem[..], machine.own, machine.demand, b, i, PageOf(virt), p);
      WalkedTops(m, o, machine.mem[..], machine.own, d, b, i, PageOf(virt));
      WriteWalked(b, i, PageOf(virt), p);
      AgreesTops(machine.mem[..], machine.own, machine.demand, Write(b, i, PageOf(virt), p), i, PageOf(virt));
    } else {
      AgreesKept(m, o, machine.mem[..], machine.own, d, b);
    }
  }

  lemma WriteWalked(b: Book, i: nat, pn: nat, p: Mapping)
    requires i < |b.spaces|
    ensures var b', w := Walked(Write(b, i, pn, p), i, pn), Walked(b, i, pn);
            && |b'.spaces| == |w.spaces| == |b.spaces| && b'.hhdm == w.hhdm == b.hhdm && b'.tops == w.tops
            && forall j :: 0 <= j < |b.spaces| ==>
                 && w.spaces[j] == b.spaces[j] && b'.spaces[j].root == b.spaces[j].root
                 && b'.spaces[j].ranges == b.spaces[j].ranges
  {
  }

  lemma AgreesTops(m: seq<Word>, own: Owners, demand: set<(nat, nat)>, b: Book, i: nat, pn: nat)
    requires Agrees(m, own, demand, b)
    ensures Agrees(m, own, demand, Walked(b, i, pn))
  {
    hide Alias, MappingAt, Rd, Index;
  }

  method ApplyQuery(machine: Machine, spaces: seq<Pagemap>, i: nat, virt: Word, ghost b: Book)
    returns (phy: Option<nat>)
    requires machine.Valid() && Holds(machine, spaces, b) && Legal(b, Query(i, virt))
    requires b.spaces != [] && Settled(machine, b, false)
    modifies machine, machine.mem, machine.pmm.bitmap.buffer, machine.pmm
    ensures machine.Valid()
    ensures var e := Event(Query(i, virt), if phy.Some? then Address(phy.value) else OutOfMemory);
            && Allowed(b, e) && Holds(machine, spaces, After(b, e)) && Settled(machine, After(b, e), phy.None?)
  {
    hide Rd, Present, Index, FrameOf, PageOf, Keeps, Grows, WellFormed, DemandOwned, Agrees, Walked;
    hide TopsButOne, KernelSlots, TableAt, Translate;
    ghost var m, o, d, pn := machine.mem[..], machine.own, machine.demand, PageOf(virt);
    AgreesRoot(m, o, d, b, i);
    AgreesEntry(m, o, d, b, i, pn);
    phy := machine.PhysicalAddr(spaces[i].pml4, virt);
    if phy.Some? {
      WalkedAgrees(m, o, machine.mem[..], machine.own, d, b, i, pn);
    } else {
      AgreesKept(m, o, machine.mem[..], machine.own, d, b);
    }
  }

  /** A completed walk changes no page. */
  lemma WalkedAgrees(m: seq<Word>, own: Owners, m': seq<Word>, own': Owners, demand: set<(nat, nat)>, b: Book, i: nat,
                     pn: nat)
    requires Agrees(m, own, demand, b) && DemandOwned(m, own, demand) && Grows(m, own, m', own') && i < |b.spaces|
    requires TopsButOne(m, own, m', b.spaces[i].root, pn) && TableAt(m', b.spaces[i].root, pn, 1).Some?
    requires b.tops == KernelSlots(m, b.spaces[0].root)
    ensures var r := Walked(b, i, pn);
            && r.spaces == b.spaces && r.hhdm == b.hhdm && Agrees(m', own', demand, r)
            && r.tops == KernelSlots(m', b.spaces[0].root)
  {
    hide Agrees, DemandOwned, Grows, Keeps, TopsButOne, TableAt, KernelSlots, Walked;
    AgreesKept(m, own, m', own', demand, b);
    GrowsKeeps(m, own, m', own');
    WalkedTops(m, own, m', own', demand, b, i, pn);
    WalkedSpaces(b, i, pn);
    AgreesTops(m', own', demand, b, i, pn);
  }

  lemma WalkedSpaces(b: Book, i: nat, pn: nat)
    ensures Walked(b, i, pn).spaces == b.spaces && Walked(b, i, pn).hhdm == b.hhdm
  {
  }

  lemma AgreesEntry(m: seq<Word>, own: Owners, demand: set<(nat, nat)>, b: Book, i: nat, pn: nat)
    requires Agrees(m, own, demand, b) && i < |b.spaces| && pn < PAGES
    ensures b.spaces[i].pages(pn).entry == Translate(m, b.spaces[i].root, pn)
    ensures b.spaces[i].pages(pn).own <==> Demanded(m, demand, b.spaces[i].root, pn)
  {
    hide Alias, Translate, Demanded;
    assert b.spaces[i].pages(pn) == MappingAt(m, demand, b.spaces[i].root, pn);
  }

  method ApplyTouch(machine: Machine, spaces: seq<Pagemap>, i: nat, virt: Word, ghost b: Book)
    returns (ghost outcome: Outcome, panicked: bool)
    requires machine.Valid() && Holds(machine, spaces, b) && Legal(b, Touch(i, virt))
    requires b.spaces != [] && Settled(machine, b, false)
    modifies machine, machine.mem, machine.pmm.bitmap.buffer, machine.pmm
    ensures machine.Valid() && (panicked <==> outcome == OutOfMemory)
    ensures var e := Event(Touch(i, virt), outcome);
            && Allowed(b, e) && Holds(machine, spaces, After(b, e)) && Settled(machine, After(b, e), panicked)
  {
    hide Rd, Present, Index, FrameOf, PageOf, Keeps, Grows, WellFormed, DemandOwned, Agrees, Walked, Write, Updates;
    hide TopsButOne, KernelSlots, TableAt, Translate, FilledFrom, Supplied, Covers, IsFlags;
    ghost var m, o, d, pn := machine.mem[..], machine.own, machine.demand, PageOf(virt);
    AgreesRoot(m, o, d, b, i);
    AgreesEntry(m, o, d, b, i, pn);
    var fault := machine.HandlePageFault(spaces[i], virt);
    panicked := fault == Fault.Panic;
    match fault {
      case Panic =>
        outcome := OutOfMemory;
        AgreesKept(m, o, machine.mem[..], machine.own, d, b);
      case Unhandled =>
        outcome := Refused;
        WalkedAgrees(m, o, machine.mem[..], machine.own, d, b, i, pn);
      case Handled =>
        assert forall k: nat :: IsFirst(spaces[i].ranges, virt, k) ==> spaces[i].ranges[k] in b.spaces[i].ranges;
        ghost var k: nat :| IsFirst(spaces[i].ranges, virt, k)
                            && FilledFrom(spaces[i].ranges[k], machine.hhdm, virt, m, o, d,
                                          machine.mem[..], machine.own, machine.demand, spaces[i].pml4);
        ghost var p := FilledAgrees(m, o, d, machine.mem[..], machine.own, machine.demand, b, i, virt, k);
        outcome := Filled(p.entry, p.own);
        WriteWalked(b, i, pn, p);
    }
  }

  /** What a handled fault has done to the flat spaces. */
  lemma FilledAgrees(m: seq<Word>, own: Owners, demand: set<(nat, nat)>,
                     m': seq<Word>, own': Owners, demand': set<(nat, nat)>, b: Book, i: nat, virt: Word, k: nat)
    returns (p: Mapping)
    requires Agrees(m, own, demand, b) && DemandOwned(m, own, demand) && i < |b.spaces|
    requires IsFirst(b.spaces[i].ranges, virt, k) && IsFlags(b.spaces[i].ranges[k].flags)
    requires FilledFrom(b.spaces[i].ranges[k], b.hhdm, virt, m, own, demand, m', own', demand', b.spaces[i].root)
    requires Keeps(m, own, m', own') && WellFormed(m', own') && TopsButOne(m, own, m', b.spaces[i].root, PageOf(virt))
    requires b.tops == KernelSlots(m, b.spaces[0].root)
    ensures Supplied(b, i, virt, p.entry, p.own)
    ensures var pn := PageOf(virt);
            && Agrees(m', own', demand', Walked(Write(b, i, pn, p), i, pn))
            && Walked(b, i, pn).tops == KernelSlots(m', b.spaces[0].root)
  {
    hide Rd, Present, Index, FrameOf, PageOf, Keeps, WellFormed, DemandOwned, Agrees, Walked, Write, Updates, PAGES;
    hide TopsButOne, KernelSlots, TableAt, FilledFrom, Supplied, IsFirst, IsFlags;
    var pn := PageOf(virt);
    p := FilledMapping(m, own, demand, m', own', demand', b, i, virt, k);
    AgreesWritten(m, own, demand, m', own', demand', b, i, pn, p);
    WalkedTops(m, own, m', own', demand, b, i, pn);
    AgreesTops(m', own', demand', Write(b, i, pn, p), i, pn);
  }

  /** The mapping a handled fault has put in. */
  lemma FilledMapping(m: seq<Word>, own: Owners, demand: set<(nat, nat)>,
                      m': seq<Word>, own': Owners, demand': set<(nat, nat)>, b: Book, i: nat, virt: Word, k: nat)
    returns (p: Mapping)
    requires Agrees(m, own, demand, b) && DemandOwned(m, own, demand) && i < |b.spaces|
    requires IsFirst(b.spaces[i].ranges, virt, k) && IsFlags(b.spaces[i].ranges[k].flags)
    requires FilledFrom(b.spaces[i].ranges[k], b.hhdm, virt, m, own, demand, m', own', demand', b.spaces[i].root)
    ensures Supplied(b, i, virt, p.entry, p.own)
    ensures var root, pn := b.spaces[i].root, PageOf(virt);
            && Updates(m, own, m', root, pn, p.entry) && TableAt(m', root, pn, 1).Some?
            && demand' == if p.own then demand + {Slot(m', root, pn)} else demand - {Slot(m', root, pn)}
  {
    hide Rd, Present, Index, PageOf, Agrees, Updates, TableAt, Translate, IsFlags, Covers, DemandOwned, FrameOf;
    var r, root, pn := b.spaces[i].ranges[k], b.spaces[i].root, PageOf(virt);
    match r.kind {
      case Direct =>
        p := Mapping(MakeEntry(Minus(virt, b.hhdm), r.flags), false);
      case Anonymous =>
        p := FreshMapping(m, own, demand, m', own', demand', b, i, virt, r.flags);
    }
    assert FromRange(b, r, virt, p.entry, p.own);
  }

  /** The mapping a page of its own has got. */
  lemma FreshMapping(m: seq<Word>, own: Owners, demand: set<(nat, nat)>,
                     m': seq<Word>, own': Owners, demand': set<(nat, nat)>, b: Book, i: nat, virt: Word, flags: Word)
    returns (p: Mapping)
    requires Agrees(m, own, demand, b) && DemandOwned(m, own, demand) && i < |b.spaces| && IsFlags(flags)
    requires FilledFresh(flags, virt, m, own, demand, m', own', demand', b.spaces[i].root)
    ensures p.own && FreshEntry(b, flags, p.entry)
    ensures var root, pn := b.spaces[i].root, PageOf(virt);
            && Updates(m, own, m', root, pn, p.entry) && TableAt(m', root, pn, 1).Some?
            && demand' == demand + {Slot(m', root, pn)}
  {
    hide Rd, Present, Index, PageOf, Agrees, Updates, TableAt, Translate, IsFlags, DemandOwned, FrameOf;
    var root, pn := b.spaces[i].root, PageOf(virt);
    var n: nat :| n < FRAMES && n !in own && n * PAGE < WORDS
                  && Updates(m, own, m', root, pn, MakeEntry(n * PAGE, flags));
    FrameAddress(n);
    p := Mapping(MakeEntry(n * PAGE, flags), true);
    UnownedFree(m, own, demand, b, n);
  }

  method ApplyMapNew(machine: Machine, spaces: seq<Pagemap>, i: nat, virt: Word, flags: Word, ghost b: Book)
    returns (ghost outcome: Outcome, ok: bool)
    requires machine.Valid() && Holds(machine, spaces, b) && Legal(b, MapNew(i, virt, flags))
    requires b.spaces != [] && Settled(machine, b, false)
    modifies machine, machine.mem, machine.pmm.bitmap.buffer, machine.pmm
    ensures machine.Valid() && (ok <==> outcome != OutOfMemory)
    ensures var e := Event(MapNew(i, virt, flags), outcome);
            && Allowed(b, e) && Holds(machine, spaces, After(b, e)) && Settled(machine, After(b, e), !ok)
  {
    hide Rd, Present, Index, FrameOf, PageOf, Keeps, Grows, WellFormed, DemandOwned, Agrees, Walked, Write, Updates;
    hide TopsButOne, KernelSlots, TableAt, Translate, FilledFresh, FreshEntry, IsFlags;
    ghost var m, o, d, pn := machine.mem[..], machine.own, machine.demand, PageOf(virt);
    AgreesRoot(m, o, d, b, i);
    ok := machine.MapFresh(spaces[i].pml4, virt, flags);
    if !ok {
      outcome := OutOfMemory;
      AgreesKept(m, o, machine.mem[..], machine.own, d, b);
      return;
    }
    ghost var p := FreshMapping(m, o, d, machine.mem[..], machine.own, machine.demand, b, i, virt, flags);
    outcome := Filled(p.entry, p.own);
    AgreesWritten(m, o, d, machine.mem[..], machine.own, machine.demand, b, i, pn, p);
    WalkedTops(m, o, machine.mem[..], machine.own, d, b, i, pn);
    WriteWalked(b, i, pn, p);
    AgreesTops(machine.mem[..], machine.own, machine.demand, Write(b, i, pn, p), i, pn);
  }

  /** Pages of their own lie in frames with an owner. */
  lemma UnownedFree(m: seq<Word>, own: Owners, demand: set<(nat, nat)>, b: Book, n: nat)
    requires Agrees(m, own, demand, b) && DemandOwned(m, own, demand) && n !in own
    ensures FrameFree(b, n)
  {
    hide Rd, Index, FrameOf, TableAt, Alias, PAGES;
    forall i: nat, pn: nat {:trigger b.spaces[i].pages(pn)}
      | i < |b.spaces| && pn < PAGES && b.spaces[i].pages(pn).own
      ensures FrameOf(b.spaces[i].pages(pn).entry) != n
    {
      assert b.spaces[i].pages(pn) == MappingAt(m, demand, b.spaces[i].root, pn);
    }
  }

  method ApplyNew(machine: Machine, spaces: seq<Pagemap>, ghost b: Book) returns (space: Option<Pagemap>)
    requires machine.Valid() && Holds(machine, spaces, b) && Legal(b, NewSpace)
    requires b.spaces != [] && Settled(machine, b, false)
    modifies machine, machine.mem, machine.pmm.bitmap.buffer, machine.pmm
    ensures machine.Valid() && (space.Some? ==> fresh(space.value))
    ensures var e := Event(NewSpace, if space.Some? then Made(space.value.pml4) else OutOfMemory);
            && Allowed(b, e) && Settled(machine, After(b, e), space.None?)
            && Holds(machine, if space.Some? then spaces + [space.value] else spaces, After(b, e))
  {
    hide Rd, Present, Index, Keeps, Grows, WellFormed, DemandOwned, Agrees, KernelSlots, TableAt, Translate, CopiedRoot;
    ghost var m, o, d := machine.mem[..], machine.own, machine.demand;
    AgreesRoot(m, o, d, b, 0);
    space := MakeSpace(machine, spaces[0].pml4);
    if space.None? {
      AgreesKept(m, o, machine.mem[..], machine.own, d, b);
    } else {
      AgreesNew(m, o, machine.mem[..], machine.own, d, b, space.value.pml4);
    }
  }

  /** `range_list_head.add`: the range goes to the front of its space's list. */
  method ApplyReserve(machine: Machine, spaces: seq<Pagemap>, i: nat, range: MappedRange, ghost b: Book)
    requires machine.Valid() && Holds(machine, spaces, b) && Legal(b, Reserve(i, range))
    requires b.spaces != [] && Settled(machine, b, false)
    modifies set i | 0 <= i < |spaces| :: spaces[i]
    ensures machine.Valid()
    ensures var e := Event(Reserve(i, range), Done);
            Holds(machine, spaces, After(b, e)) && Settled(machine, After(b, e), false)
  {
    hide Agrees, KernelSlots, WellFormed, DemandOwned, IsFlags;
    SpacesDiffer(machine, spaces, b, i);
    spaces[i].ranges := [range] + spaces[i].ranges;
    ReservedAgrees(machine.mem[..], machine.own, machine.demand, b, i, range);
  }

  lemma SpacesDiffer(machine: Machine, spaces: seq<Pagemap>, b: Book, i: nat)
    requires Holds(machine, spaces, b) && i < |spaces|
    ensures forall j :: 0 <= j < |spaces| && j != i ==> spaces[j] != spaces[i]
  {
    hide Agrees, IsFlags;
    forall j | 0 <= j < |spaces| && spaces[j] == spaces[i]
      ensures j == i
    {
      RootsDiffer(machine.mem[..], machine.own, machine.demand, b, j, i);
    }
  }

  lemma ReservedAgrees(m: seq<Word>, own: Owners, demand: set<(nat, nat)>, b: Book, i: nat, range: MappedRange)
    requires Agrees(m, own, demand, b) && Legal(b, Reserve(i, range))
    ensures Agrees(m, own, demand, After(b, Event(Reserve(i, range), Done)))
  {
    hide MappingAt, Alias, Rd, Index, IsFlags;
    var b' := After(b, Event(Reserve(i, range), Done));
    forall j: nat, pn: nat {:trigger b'.spaces[j].pages(pn)} | j < |b'.spaces| && pn < PAGES
      ensures b'.spaces[j].pages(pn) == MappingAt(m, demand, b'.spaces[j].root, pn)
    {
      assert b.spaces[j].pages(pn) == MappingAt(m, demand, b.spaces[j].root, pn);
    }
    forall j: nat, k: nat, pn: nat {:trigger Alias(m, b'.spaces[j].root, b'.spaces[k].root, pn)}
      | j < |b'.spaces| && k < |b'.spaces| && pn < PAGES
      ensures Alias(m, b'.spaces[j].root, b'.spaces[k].root, pn) <==> Shares(b', j, k, Index(pn, 4))
    {
      assert Alias(m, b.spaces[j].root, b.spaces[k].root, pn) <==> Shares(b, j, k, Index(pn, 4));
    }
  }

  /** One operation. */
  method Apply(machine: Machine, spaces: seq<Pagemap>, op: Op, ghost b: Book)
    returns (more: seq<Pagemap>, ok: bool, ghost outcome: Outcome)
    requires machine.Valid() && Holds(machine, spaces, b) && Legal(b, op)
    requires b.spaces != [] && Settled(machine, b, false)
    modifies machine, machine.mem, machine.pmm.bitmap.buffer, machine.pmm, set i | 0 <= i < |spaces| :: spaces[i]
    ensures machine.Valid() && (ok <==> outcome != OutOfMemory)
    ensures Allowed(b, Event(op, outcome)) && After(b, Event(op, outcome)).spaces != []
    ensures Holds(machine, more, After(b, Event(op, outcome))) && Settled(machine, After(b, Event(op, outcome)), !ok)
    ensures spaces <= more && forall i :: |spaces| <= i < |more| ==> fresh(more[i])
  {
    hide Holds, Settled, After, WellFormed, DemandOwned, Supplied, IsFlags, Present, PageOf, FrameOf;
    more, ok, outcome := spaces, true, Done;
    match op {
      case NewSpace =>
        var space := ApplyNew(machine, spaces, b);
        ok := space.Some?;
        if ok {
          more := spaces + [space.value];
        }
        outcome := if ok then Made(space.value.pml4) else OutOfMemory;
      case Map(i, phy, virt, flags) =>
        ok := ApplyMap(machine, spaces, i, phy, virt, flags, b);
        outcome := if ok then Done else OutOfMemory;
      case MapNew(i, virt, flags) =>
        outcome, ok := ApplyMapNew(machine, spaces, i, virt, flags, b);
      case Reserve(i, range) =>
        ApplyReserve(machine, spaces, i, range, b);
      case Touch(i, virt) =>
        var panicked;
        outcome, panicked := ApplyTouch(machine, spaces, i, virt, b);
        ok := !panicked;
      case Query(i, virt) =>
        var phy := ApplyQuery(machine, spaces, i, virt, b);
        ok := phy.Some?;
        outcome := if ok then Address(phy.value) else OutOfMemory;
    }
    HeldSpaces(machine, more, After(b, Event(op, outcome)));
  }

  lemma HeldSpaces(machine: Machine, spaces: seq<Pagemap>, b: Book)
    requires Holds(machine, spaces, b)
    ensures |spaces| == |b.spaces| > 0 && machine.hhdm == b.hhdm
  {
    hide Alias, MappingAt, HoldsRanges;
  }

  /** A run from the book the machine holds. */
  method RunOps(machine: Machine, spaces: seq<Pagemap>, ops: seq<Op>, ghost first: Book)
    returns (more: seq<Pagemap>, ok: bool, ghost trace: seq<Event>)
    requires machine.Valid() && Holds(machine, spaces, first)
    requires first.spaces != [] && Settled(machine, first, false)
    modifies machine, machine.mem, machine.pmm.bitmap.buffer, machine.pmm, set i | 0 <= i < |spaces| :: spaces[i]
    ensures machine.Valid() && spaces <= more
    ensures LegalRun(first, trace) && Follows(first, ops, trace) && (ok <==> !Stopped(trace))
    ensures var b := Replay(first, trace);
            && b.spaces != [] && Holds(machine, more, b) && Settled(machine, b, !ok)
            && SharedViews(b) && FramesPrivate(b)
  {
    hide Legal, After, Allowed, Holds, Settled, WellFormed, DemandOwned, SharedViews, FramesPrivate;
    ghost var b := first;
    more, trace, ok := spaces, [], true;
    for k := 0 to |ops|
      invariant machine.Valid() && spaces <= more
      invariant forall i :: |spaces| <= i < |more| ==> fresh(more[i])
      invariant LegalRun(first, trace) && Follows(first, ops[..k], trace) && b == Replay(first, trace)
      invariant b.spaces != [] && Holds(machine, more, b) && Settled(machine, b, !ok)
      invariant ok <==> !Stopped(trace)
    {
      assert ops[..k + 1] == ops[..k] + [ops[k]];
      HeldSpaces(machine, more, b);
      if ok && CarriedOut(ops[k], |more|) {
        assert Legal(b, ops[k]) by { LegalHere(b, ops[k]); }
        ghost var outcome;
        more, ok, outcome := Apply(machine, more, ops[k], b);
        ghost var e := Event(ops[k], outcome);
        ReplayAppend(first, trace, e);
        FollowsAppend(first, ops[..k], trace, ops[k], [e]);
        b := After(b, e);
        trace := trace + [e];
      } else {
        assert ok ==> !Legal(b, ops[k]) by { LegalHere(b, ops[k]); }
        assert trace + [] == trace;
        FollowsAppend(first, ops[..k], trace, ops[k], []);
      }
    }
    assert ops[..|ops|] == ops;
    HeldIsolated(machine, more, b);
  }

  /** Every run: any interleaving of new address spaces, mappings, reservations, faults and queries acts
      on the page tables as on flat address spaces, each operation with an outcome it may have there,
      until memory runs out. Spaces see the same pages below shared slots, and no two pages of their own lie
      in one frame. */
  method Interleave(machine: Machine, kernel: Pagemap, ops: seq<Op>)
    returns (spaces: seq<Pagemap>, ghost trace: seq<Event>)
    requires machine.Valid() && IsTable(machine.own, kernel.pml4, 4)
    requires forall r :: r in kernel.ranges ==> IsFlags(r.flags)
    modifies machine, machine.mem, machine.pmm.bitmap.buffer, machine.pmm, kernel
    ensures machine.Valid() && spaces != [] && spaces[0] == kernel
    ensures var b := old(Start(machine.mem[..], machine.demand, kernel.pml4, kernel.ranges, machine.hhdm));
            && LegalRun(b, trace) && Follows(b, ops, trace) && Replay(b, trace).spaces != []
            && Holds(machine, spaces, Replay(b, trace)) && Settled(machine, Replay(b, trace), Stopped(trace))
            && SharedViews(Replay(b, trace)) && FramesPrivate(Replay(b, trace))
  {
    hide Holds, Settled, WellFormed, DemandOwned, Start, SharedViews, FramesPrivate, LegalRun, Follows, Replay;
    StartHolds(machine, kernel);
    ghost var first := Start(machine.mem[..], machine.demand, kernel.pml4, kernel.ranges, machine.hhdm);
    var ok;
    spaces, ok, trace := RunOps(machine, [kernel], ops, first);
  }

  lemma HeldIsolated(machine: Machine, spaces: seq<Pagemap>, b: Book)
    requires machine.Valid() && Holds(machine, spaces, b)
    ensures SharedViews(b) && FramesPrivate(b)
  {
    hide Agrees, WellFormed, DemandOwned, HoldsRanges, SharedViews, FramesPrivate;
    AgreesViews(machine.mem[..], machine.own, machine.demand, b);
    AgreesPrivate(machine.mem[..], machine.own, machine.demand, b);
  }

  lemma LegalHere(b: Book, op: Op)
    ensures Legal(b, op) <==> CarriedOut(op, |b.spaces|)
  {
    hide CarriedOut;
  }

  lemma StartHolds(machine: Machine, kernel: Pagemap)
    requires machine.Valid() && IsTable(machine.own, kernel.pml4, 4)
    requires forall r :: r in kernel.ranges ==> IsFlags(r.flags)
    ensures var b := Start(machine.mem[..], machine.demand, kernel.pml4, kernel.ranges, machine.hhdm);
            b.spaces != [] && Holds(machine, [kernel], b) && Settled(machine, b, false)
  {
    hide Agrees, KernelSlots, MappingAt, WellFormed, DemandOwned;
    StartAgrees(machine.mem[..], machine.own, machine.demand, kernel.pml4, kernel.ranges, machine.hhdm);
  }
}
