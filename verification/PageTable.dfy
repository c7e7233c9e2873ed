/** Four-level page tables as words in physical memory, in the format of section 4.5 of volume 3A of
    the Intel Software Developer's Manual, and what they translate. Frame `f` holds the 512 words
    from `512 * f` on. */
module PageTable {
  import opened Wrappers
  import opened Paging

  const ENTRIES: nat := 512
  const WORDS: nat := 0x1_0000_0000_0000_0000
  const FRAMES: nat := 0x100_0000_0000      // 40 bits of frame number
  const PAGES: nat := 0x10_0000_0000        // 36 bits of page number

  type Word = x: int | 0 <= x < 0x1_0000_0000_0000_0000

  // ---------- entries ----------

  predicate Present(e: Word) {
    e % 2 == 1
  }

  /** The frame number in bits 12 to 51. */
  function FrameOf(e: Word): (f: nat)
    ensures f < FRAMES
  {
    (e / PAGE) % FRAMES
  }

  /** Only the flag bits 0 to 11 and the no-execute bit 63 are used. */
  predicate IsFlags(flags: Word) {
    flags % 0x8000_0000_0000_0000 < PAGE
  }

  /** Bits 0 to 11 and 63. */
  function FlagsOf(e: Word): (flags: Word)
    ensures IsFlags(flags)
  {
    e % PAGE + (e / 0x8000_0000_0000_0000) * 0x8000_0000_0000_0000
  }

  /** What a page may be used for, by bits 1, 2 and 63 of its entry. */
  datatype Rights = Rights(write: bool, user: bool, execute: bool)

  function RightsOf(e: Word): Rights {
    Rights(e / 2 % 2 == 1, e / 4 % 2 == 1, e < 0x8000_0000_0000_0000)
  }

  const ALL_RIGHTS := Rights(true, true, true)

  lemma EvenPlus(k: nat, x: nat)
    ensures (2 * k + x) % 2 == x % 2
  {
  }

  /** Bits 1 and 2 lie in the lowest twelve. */
  lemma LowBits(q: nat, r: nat)
    requires r < PAGE
    ensures (q * PAGE + r) / 2 % 2 == r / 2 % 2 && (q * PAGE + r) / 4 % 2 == r / 4 % 2
  {
    assert (q * PAGE + r) / 2 == 2 * (q * 0x400) + r / 2 && (q * PAGE + r) / 4 == 2 * (q * 0x200) + r / 4;
    EvenPlus(q * 0x400, r / 2);
    EvenPlus(q * 0x200, r / 4);
  }

  /** Rights depend on the flags alone. */
  lemma RightsOfFlags(e: Word)
    ensures RightsOf(FlagsOf(e)) == RightsOf(e)
  {
    var low, high := e % PAGE, e / 0x8000_0000_0000_0000;
    LowBits(e / PAGE, low);
    LowBits(high * 0x8_0000_0000_0000, low);
  }

  /** `(phy & 0x000FFFFFFFFFF000) | flags` */
  function MakeEntry(phy: Word, flags: Word): (e: Word)
    requires IsFlags(flags)
    ensures FrameOf(e) == FrameOf(phy) && FlagsOf(e) == flags && (Present(e) <==> Present(flags))
  {
    MakeEntryParts(FrameOf(phy), flags);
    FrameOf(phy) * PAGE + flags
  }

  lemma MakeEntryParts(frame: nat, flags: Word)
    requires frame < FRAMES && IsFlags(flags)
    ensures var e := frame * PAGE + flags;
            && e < WORDS && FrameOf(e) == frame && FlagsOf(e) == flags && e % 2 == flags % 2
  {
    var no := 0x8000_0000_0000_0000;
    var high, low := flags / no, flags % no;
    var q := high * 0x800 * FRAMES + frame;
    var e := frame * PAGE + flags;
    assert high <= 1 && e == q * PAGE + low && e == high * no + (frame * PAGE + low);
    PageParity(q, low);
    PageParity(high * 0x800 * FRAMES, low);
    PageQuotient(q, low);
    FrameRemainder(high * 0x800, frame);
  }

  lemma PageParity(q: nat, r: nat)
    ensures (q * PAGE + r) % 2 == r % 2
  {
  }

  lemma PageQuotient(q: nat, r: nat)
    requires r < PAGE
    ensures (q * PAGE + r) / PAGE == q
  {
  }

  lemma FrameRemainder(q: nat, r: nat)
    requires r < FRAMES
    ensures (q * FRAMES + r) % FRAMES == r
  {
  }

  function Pow2(k: nat): nat {
    if k == 0 then 1 else 2 * Pow2(k - 1)
  }

  /** Bit `i` of a number. */
  predicate Bit(x: nat, i: nat) {
    if i == 0 then x % 2 == 1 else Bit(x / 2, i - 1)
  }

  lemma {:induction false} BitSplit(q: nat, k: nat, r: nat, i: nat)
    requires r < Pow2(k)
    ensures Bit(q * Pow2(k) + r, i) <==> if i < k then Bit(r, i) else Bit(q, i - k)
    decreases k
  {
    if k > 0 {
      var half := q * Pow2(k - 1);
      assert q * Pow2(k) == 2 * half;
      if i > 0 {
        assert (2 * half + r) / 2 == half + r / 2;
        BitSplit(q, k - 1, r / 2, i - 1);
      }
    }
  }

  lemma {:induction false} BitZero(i: nat)
    ensures !Bit(0, i)
  {
    if i > 0 {
      BitZero(i - 1);
    }
  }

  lemma Powers()
    ensures Pow2(12) == PAGE && Pow2(40) == FRAMES && Pow2(51) == 0x8_0000_0000_0000
  {
    assert Pow2(12) == PAGE;
    assert Pow2(24) == 0x100_0000;
    assert Pow2(36) == 0x10_0000_0000;
    assert Pow2(48) == 0x1_0000_0000_0000;
  }

  /** A frame's address is the entry's bits 12 to 51: `e & 0x000FFFFFFFFFF000`. */
  lemma FrameBits(e: Word, i: nat)
    ensures Bit(FrameOf(e) * PAGE, i) <==> 12 <= i < 52 && Bit(e, i)
  {
    hide Pow2, Bit;
    Powers();
    var frame, q := FrameOf(e), e / PAGE;
    BitSplit(frame, 12, 0, i);
    BitSplit(q, 12, e % PAGE, i);
    BitZero(i);
    if i >= 12 {
      assert q == (q / FRAMES) * FRAMES + frame;
      BitSplit(q / FRAMES, 40, frame, i - 12);
      BitSplit(0, 40, frame, i - 12);
      if i >= 52 {
        BitZero(i - 52);
      }
    }
  }

  /** The arithmetic is the masking and joining of words, bit for bit: bits 12 to 51 are the address's, all
      others the flags'. */
  lemma EntryBits(phy: Word, flags: Word, i: nat)
    requires IsFlags(flags)
    ensures Bit(MakeEntry(phy, flags), i) <==> if 12 <= i < 52 then Bit(phy, i) else Bit(flags, i)
  {
    hide Pow2, Bit;
    Powers();
    var no := 0x8000_0000_0000_0000;
    var high, low, frame := flags / no, flags % no, FrameOf(phy);
    var upper := high * 0x800;
    assert high * no == (upper * FRAMES) * PAGE;
    assert MakeEntry(phy, flags) == (upper * FRAMES + frame) * PAGE + low;
    BitSplit(upper * FRAMES + frame, 12, low, i);
    BitSplit(upper * FRAMES, 12, low, i);
    FrameBits(phy, i);
    BitSplit(frame, 12, 0, i);
    if i >= 12 {
      BitSplit(upper, 40, frame, i - 12);
      BitSplit(upper, 40, 0, i - 12);
      BitSplit(0, 40, frame, i - 12);
      BitZero(i - 12);
    }
  }

  /** `new_page | PAGE_PRESENT | PAGE_WRITABLE | PAGE_USER` */
  function TableEntry(frame: nat): (e: Word)
    requires frame < FRAMES
    ensures FrameOf(e) == frame && Present(e) && RightsOf(e) == ALL_RIGHTS
  {
    PageParity(frame, 7);
    PageQuotient(frame, 7);
    LowBits(frame, 7);
    frame * PAGE + 7
  }

  /** Masked address and flags do not overlap, so joining them bitwise adds them. */
  lemma MaskedOr(phy: bv64, flags: bv64)
    requires flags & 0x000F_FFFF_FFFF_F000 == 0
    ensures (phy & 0x000F_FFFF_FFFF_F000) | flags == (phy & 0x000F_FFFF_FFFF_F000) + flags
    ensures ((phy & 0x000F_FFFF_FFFF_F000) | flags) & 0x000F_FFFF_FFFF_F000 == phy & 0x000F_FFFF_FFFF_F000
    ensures ((phy & 0x000F_FFFF_FFFF_F000) | flags) & 1 == flags & 1
  {
  }

  // ---------- addresses ----------

  /** The page number a virtual address selects: its bits 12 to 47. */
  function PageOf(virt: Word): (pn: nat)
    ensures pn < PAGES
  {
    (virt / PAGE) % PAGES
  }

  /** The index the walk uses in the level-`l` table: bits 39, 30, 21 and 12 up. */
  function Index(pn: nat, l: nat): (i: nat)
    requires 1 <= l <= 4
    ensures i < ENTRIES
  {
    if l == 4 then (pn / 0x800_0000) % ENTRIES
    else if l == 3 then (pn / 0x4_0000) % ENTRIES
    else if l == 2 then (pn / 0x200) % ENTRIES
    else pn % ENTRIES
  }

  /** The shifts and masks of the walk pick the indices of the page number. */
  lemma WalkIndices(virt: Word)
    ensures (virt / 0x80_0000_0000) % ENTRIES == Index(PageOf(virt), 4)
    ensures (virt / 0x4000_0000) % ENTRIES == Index(PageOf(virt), 3)
    ensures (virt / 0x20_0000) % ENTRIES == Index(PageOf(virt), 2)
    ensures (virt / 0x1000) % ENTRIES == Index(PageOf(virt), 1)
  {
    var v := virt / PAGE;
    var a, p := v / PAGES, v % PAGES;
    assert virt / 0x80_0000_0000 == v / 0x800_0000 && virt / 0x4000_0000 == v / 0x4_0000 &&
           virt / 0x20_0000 == v / 0x200;
    WindowIgnoresHigh(a, p);
  }

  lemma WindowIgnoresHigh(a: nat, p: nat)
    requires p < PAGES
    ensures ((a * PAGES + p) / 0x800_0000) % ENTRIES == (p / 0x800_0000) % ENTRIES
    ensures ((a * PAGES + p) / 0x4_0000) % ENTRIES == (p / 0x4_0000) % ENTRIES
    ensures ((a * PAGES + p) / 0x200) % ENTRIES == (p / 0x200) % ENTRIES
    ensures (a * PAGES + p) % ENTRIES == p % ENTRIES
  {
    WindowTop(a, p);
    WindowThird(a, p);
    WindowSecond(a, p);
    assert a * PAGES + p == (a * 0x800_0000) * ENTRIES + p;
    EntriesRemainder(a * 0x800_0000, p);
  }

  lemma WindowTop(a: nat, p: nat)
    ensures ((a * PAGES + p) / 0x800_0000) % ENTRIES == (p / 0x800_0000) % ENTRIES
  {
    assert (a * PAGES + p) / 0x800_0000 == a * ENTRIES + p / 0x800_0000;
    EntriesRemainder(a, p / 0x800_0000);
  }

  lemma WindowThird(a: nat, p: nat)
    ensures ((a * PAGES + p) / 0x4_0000) % ENTRIES == (p / 0x4_0000) % ENTRIES
  {
    assert (a * PAGES + p) / 0x4_0000 == (a * 0x200) * ENTRIES + p / 0x4_0000;
    EntriesRemainder(a * 0x200, p / 0x4_0000);
  }

  lemma WindowSecond(a: nat, p: nat)
    ensures ((a * PAGES + p) / 0x200) % ENTRIES == (p / 0x200) % ENTRIES
  {
    assert (a * PAGES + p) / 0x200 == (a * 0x4_0000) * ENTRIES + p / 0x200;
    EntriesRemainder(a * 0x4_0000, p / 0x200);
  }

  lemma EntriesRemainder(k: nat, y: nat)
    ensures (k * ENTRIES + y) % ENTRIES == y % ENTRIES
  {
  }

  /** The four indices determine the page. */
  lemma IndicesDetermine(p: nat, q: nat)
    requires p < PAGES && q < PAGES
    requires forall l :: 1 <= l <= 4 ==> Index(p, l) == Index(q, l)
    ensures p == q
  {
    FromIndices(p);
    FromIndices(q);
    assert Index(p, 1) == Index(q, 1) && Index(p, 2) == Index(q, 2) && Index(p, 3) == Index(q, 3) &&
           Index(p, 4) == Index(q, 4);
  }

  lemma FromIndices(p: nat)
    requires p < PAGES
    ensures p == 0x800_0000 * Index(p, 4) + 0x4_0000 * Index(p, 3) + 0x200 * Index(p, 2) + Index(p, 1)
  {
    assert (p / 0x800_0000) % ENTRIES == p / 0x800_0000;
    var a, b := p / 0x200, p / 0x4_0000;
    assert p == 0x200 * a + p % 0x200;
    assert a == 0x200 * b + a % 0x200;
    assert b == 0x200 * (p / 0x800_0000) + b % 0x200;
  }

  // ---------- tables ----------

  /** What a frame was allocated for. */
  datatype Owner = Table(level: nat) | Page(table: nat, index: nat)

  type Owners = map<nat, Owner>

  function Rd(m: seq<Word>, f: nat, i: nat): Word {
    if ENTRIES * f + i < |m| then m[ENTRIES * f + i] else 0
  }

  ghost predicate IsTable(own: Owners, f: nat, l: nat) {
    f in own && own[f] == Table(l) && 1 <= l <= 4
  }

  /** Entry `i` of the upper-level table `f` leads to another table. */
  ghost predicate Edge(m: seq<Word>, own: Owners, f: nat, i: nat) {
    f in own && own[f].Table? && own[f].level >= 2 && i < ENTRIES && Present(Rd(m, f, i))
  }

  ghost function Target(m: seq<Word>, f: nat, i: nat): nat {
    FrameOf(Rd(m, f, i))
  }

  /** Every table lies in memory, present entries lead one level down and grant all rights, and no table is
      reached by two entries, except that different roots may share one below the same index of their upper half. */
  ghost predicate WellFormed(m: seq<Word>, own: Owners) {
    && (forall f :: f in own ==> ENTRIES * f + ENTRIES <= |m| && (own[f].Table? ==> 1 <= own[f].level <= 4))
    && (forall f, i {:trigger Edge(m, own, f, i)} :: Edge(m, own, f, i) ==>
          IsTable(own, Target(m, f, i), own[f].level - 1) && RightsOf(Rd(m, f, i)) == ALL_RIGHTS)
    && (forall f, i, g, j {:trigger Edge(m, own, f, i), Edge(m, own, g, j)} ::
          Edge(m, own, f, i) && Edge(m, own, g, j) && Target(m, f, i) == Target(m, g, j) ==>
            i == j && (f == g || (own[f].level == 4 && i >= 256)))
  }

  /** The level-`l` table on the walk for page `pn` from `root`. */
  ghost function TableAt(m: seq<Word>, root: nat, pn: nat, l: nat): Option<nat>
    requires 1 <= l <= 4
    decreases 4 - l
  {
    if l == 4 then Some(root)
    else
      var up := TableAt(m, root, pn, l + 1);
      if up.Some? && Present(Rd(m, up.value, Index(pn, l + 1))) then Some(Target(m, up.value, Index(pn, l + 1)))
      else None
  }

  /** The flat map a root stands for: the entry of each page, zero where a table is missing. */
  ghost function Translate(m: seq<Word>, root: nat, pn: nat): Word {
    var t := TableAt(m, root, pn, 1);
    if t.Some? then Rd(m, t.value, Index(pn, 1)) else 0
  }

  /** The page's entry holds this frame and these flags. */
  ghost predicate Leads(m: seq<Word>, root: nat, pn: nat, frame: nat, flags: Word) {
    FrameOf(Translate(m, root, pn)) == frame && FlagsOf(Translate(m, root, pn)) == flags
  }

  /** The two roots use one table below the top-level entry for `pn`. */
  ghost predicate Alias(m: seq<Word>, r: nat, s: nat, pn: nat) {
    r == s || (Present(Rd(m, r, Index(pn, 4))) && Present(Rd(m, s, Index(pn, 4)))
               && Target(m, r, Index(pn, 4)) == Target(m, s, Index(pn, 4)))
  }

  function Both(a: Rights, b: Rights): Rights {
    Rights(a.write && b.write, a.user && b.user, a.execute && b.execute)
  }

  /** What the processor allows for a page: what every entry on the walk down to level `l` allows. */
  ghost function WalkRights(m: seq<Word>, root: nat, pn: nat, l: nat): Rights
    requires 1 <= l <= 4 && TableAt(m, root, pn, l).Some?
    decreases 4 - l
  {
    var here := RightsOf(Rd(m, TableAt(m, root, pn, l).value, Index(pn, l)));
    if l == 4 then here else Both(WalkRights(m, root, pn, l + 1), here)
  }

  /** No entry above the last level takes a right away. */
  lemma {:induction false} OpenAbove(m: seq<Word>, own: Owners, root: nat, pn: nat, l: nat)
    requires WellFormed(m, own) && IsTable(own, root, 4) && 2 <= l <= 4 && TableAt(m, root, pn, l).Some?
    requires Present(Rd(m, TableAt(m, root, pn, l).value, Index(pn, l)))
    ensures WalkRights(m, root, pn, l) == ALL_RIGHTS
    decreases 4 - l
  {
    hide Rd, Index, Present, FrameOf, RightsOf;
    TableAtIsTable(m, own, root, pn, l);
    var e := Edge(m, own, TableAt(m, root, pn, l).value, Index(pn, l));
    if l < 4 {
      OpenAbove(m, own, root, pn, l + 1);
    }
  }

  /** A page may be used exactly as its own entry says. */
  lemma RightsOfPage(m: seq<Word>, own: Owners, root: nat, pn: nat)
    requires WellFormed(m, own) && IsTable(own, root, 4) && TableAt(m, root, pn, 1).Some?
    ensures WalkRights(m, root, pn, 1) == RightsOf(Translate(m, root, pn))
  {
    hide Rd, Index, Present, FrameOf, RightsOf, WellFormed;
    OpenAbove(m, own, root, pn, 2);
  }

  lemma {:induction false} TableAtIsTable(m: seq<Word>, own: Owners, root: nat, pn: nat, l: nat)
    requires WellFormed(m, own) && IsTable(own, root, 4) && 1 <= l <= 4
    ensures TableAt(m, root, pn, l).Some? ==> IsTable(own, TableAt(m, root, pn, l).value, l)
    decreases 4 - l
  {
    hide Rd, Index, Present, FrameOf;
    if l < 4 {
      TableAtIsTable(m, own, root, pn, l + 1);
      var up := TableAt(m, root, pn, l + 1);
      if up.Some? {
        var e := Edge(m, own, up.value, Index(pn, l + 1));
      }
    }
  }

  /** Two walks meet in a table only along equal indices, from one root or from roots that share. */
  lemma {:induction false} TableAtInjective(m: seq<Word>, own: Owners, r: nat, p: nat, s: nat, q: nat, l: nat)
    requires WellFormed(m, own) && IsTable(own, r, 4) && IsTable(own, s, 4) && 1 <= l <= 4
    requires TableAt(m, r, p, l).Some? && TableAt(m, r, p, l) == TableAt(m, s, q, l)
    ensures forall k :: l < k <= 4 ==> Index(p, k) == Index(q, k)
    ensures l == 4 ==> r == s
    ensures l < 4 ==> Alias(m, r, s, p)
    decreases 4 - l
  {
    hide Rd, Index, Present, FrameOf;
    if l < 4 {
      TableAtIsTable(m, own, r, p, l + 1);
      TableAtIsTable(m, own, s, q, l + 1);
      var t, u := TableAt(m, r, p, l + 1).value, TableAt(m, s, q, l + 1).value;
      assert Edge(m, own, t, Index(p, l + 1)) && Edge(m, own, u, Index(q, l + 1));
      if t == u {
        TableAtInjective(m, own, r, p, s, q, l + 1);
      }
    }
  }

  /** Below a shared top-level entry two roots walk through the same tables. */
  lemma {:induction false} AliasTableAt(m: seq<Word>, r: nat, s: nat, pn: nat, l: nat)
    requires Alias(m, r, s, pn) && 1 <= l <= 3
    ensures TableAt(m, r, pn, l) == TableAt(m, s, pn, l)
    decreases 4 - l
  {
    hide Rd, Index, Present, FrameOf;
    if l < 3 {
      AliasTableAt(m, r, s, pn, l + 1);
    } else {
      assert TableAt(m, r, pn, 4) == Some(r) && TableAt(m, s, pn, 4) == Some(s);
    }
  }

  // ---------- growing the tree ----------

  /** `page_table_next_level` on a missing entry: frame `n` is zeroed and entry `i` of `t` leads to it. */
  ghost predicate AddsTable(m: seq<Word>, m': seq<Word>, t: nat, i: nat, n: nat) {
    && |m'| == |m| && n < FRAMES && ENTRIES * n + ENTRIES <= |m|
    && Rd(m', t, i) == TableEntry(n)
    && (forall j :: 0 <= j < ENTRIES ==> Rd(m', n, j) == 0)
    && (forall f: nat, j: nat :: j < ENTRIES && f != n && !(f == t && j == i) ==> Rd(m', f, j) == Rd(m, f, j))
  }

  lemma AddTableWellFormed(m: seq<Word>, own: Owners, m': seq<Word>, t: nat, i: nat, n: nat)
    requires WellFormed(m, own) && AddsTable(m, m', t, i, n)
    requires t in own && own[t].Table? && own[t].level >= 2 && i < ENTRIES && !Present(Rd(m, t, i)) && n !in own
    ensures WellFormed(m', own[n := Table(own[t].level - 1)])
  {
    hide Rd, FrameOf;
    var own' := own[n := Table(own[t].level - 1)];
    forall f: nat, j: nat {:trigger Edge(m', own', f, j)} | Edge(m', own', f, j)
      ensures f in own
      ensures || (f == t && j == i && Target(m', f, j) == n)
              || (Edge(m, own, f, j) && Target(m', f, j) == Target(m, f, j) != n)
    {
      assert f != n;
      if !(f == t && j == i) {
        assert Rd(m', f, j) == Rd(m, f, j);
        assert Edge(m, own, f, j);
      }
    }
  }

  /** Tables found before are still found, and the only one found anew is the new one. */
  lemma {:induction false} AddTableWalk(m: seq<Word>, own: Owners, m': seq<Word>, t: nat, i: nat, n: nat, r: nat,
                                        pn: nat, l: nat)
    requires WellFormed(m, own) && AddsTable(m, m', t, i, n)
    requires t in own && own[t].Table? && own[t].level >= 2 && i < ENTRIES && !Present(Rd(m, t, i)) && n !in own
    requires IsTable(own, r, 4) && 1 <= l <= 4
    ensures TableAt(m, r, pn, l).Some? ==> TableAt(m', r, pn, l) == TableAt(m, r, pn, l)
    ensures TableAt(m, r, pn, l).None? && TableAt(m', r, pn, l).Some? ==> TableAt(m', r, pn, l) == Some(n)
    decreases 4 - l
  {
    hide Rd, FrameOf, Index;
    if l < 4 {
      AddTableWalk(m, own, m', t, i, n, r, pn, l + 1);
      TableAtIsTable(m, own, r, pn, l + 1);
      var up := TableAt(m', r, pn, l + 1);
      if up.Some? {
        var j := Index(pn, l + 1);
        assert up.value == n ==> Rd(m', n, j) == 0;
        assert up.value != n && !(up.value == t && j == i) ==> Rd(m', up.value, j) == Rd(m, up.value, j);
      }
    }
  }

  /** An empty table changes no translation. */
  lemma AddTableTranslate(m: seq<Word>, own: Owners, m': seq<Word>, t: nat, i: nat, n: nat, r: nat, pn: nat)
    requires WellFormed(m, own) && AddsTable(m, m', t, i, n)
    requires t in own && own[t].Table? && own[t].level >= 2 && i < ENTRIES && !Present(Rd(m, t, i)) && n !in own
    requires IsTable(own, r, 4)
    ensures Translate(m', r, pn) == Translate(m, r, pn)
  {
    hide Rd, FrameOf, Index, Present;
    AddTableWalk(m, own, m', t, i, n, r, pn, 1);
    TableAtIsTable(m, own, r, pn, 1);
    var j := Index(pn, 1);
    assert Rd(m', n, j) == 0;
    var u := TableAt(m, r, pn, 1);
    assert u.Some? ==> Rd(m', u.value, j) == Rd(m, u.value, j);
  }

  lemma AddTableAlias(m: seq<Word>, own: Owners, m': seq<Word>, t: nat, i: nat, n: nat, r: nat, s: nat, pn: nat)
    requires WellFormed(m, own) && AddsTable(m, m', t, i, n)
    requires t in own && own[t].Table? && own[t].level >= 2 && i < ENTRIES && !Present(Rd(m, t, i)) && n !in own
    requires IsTable(own, r, 4) && IsTable(own, s, 4)
    ensures Alias(m', r, s, pn) <==> Alias(m, r, s, pn)
  {
    hide Rd, FrameOf, Index;
    var j := Index(pn, 4);
    assert (r == t && j == i) || Rd(m', r, j) == Rd(m, r, j);
    assert (s == t && j == i) || Rd(m', s, j) == Rd(m, s, j);
    var e := Edge(m, own, r, j) || Edge(m, own, s, j);
  }

  /** Walks depend on the words of tables only. */
  lemma {:induction false} SameTablesWalk(m: seq<Word>, own: Owners, m': seq<Word>, r: nat, pn: nat, l: nat)
    requires WellFormed(m, own) && IsTable(own, r, 4) && 1 <= l <= 4
    requires forall f, j :: f in own && own[f].Table? && 0 <= j < ENTRIES ==> Rd(m', f, j) == Rd(m, f, j)
    ensures TableAt(m', r, pn, l) == TableAt(m, r, pn, l)
    ensures l == 1 ==> Translate(m', r, pn) == Translate(m, r, pn)
    decreases 4 - l
  {
    hide Rd, FrameOf, Index, Present;
    TableAtIsTable(m, own, r, pn, l);
    if l < 4 {
      SameTablesWalk(m, own, m', r, pn, l + 1);
      TableAtIsTable(m, own, r, pn, l + 1);
    }
  }

  /** A zeroed frame nobody owned can become a root: it translates nothing. */
  lemma NewRootWellFormed(m: seq<Word>, own: Owners, m': seq<Word>, n: nat)
    requires WellFormed(m, own) && n !in own && |m'| == |m| && ENTRIES * n + ENTRIES <= |m|
    requires forall i :: 0 <= i < ENTRIES ==> Rd(m', n, i) == 0
    requires forall f, j :: f in own && 0 <= j < ENTRIES ==> Rd(m', f, j) == Rd(m, f, j)
    ensures WellFormed(m', own[n := Table(4)])
    ensures forall pn :: Translate(m', n, pn) == 0
  {
    hide Rd, FrameOf;
    var own' := own[n := Table(4)];
    forall f: nat, j: nat {:trigger Edge(m', own', f, j)} | Edge(m', own', f, j)
      ensures f in own && Edge(m, own, f, j) && Target(m', f, j) == Target(m, f, j)
    {
      assert f == n ==> Rd(m', n, j) == 0;
    }
    forall pn
      ensures Translate(m', n, pn) == 0
    {
      NoEntriesNoTable(m', n, pn);
    }
  }

  lemma NoEntriesNoTable(m: seq<Word>, n: nat, pn: nat)
    requires forall i :: 0 <= i < ENTRIES ==> Rd(m, n, i) == 0
    ensures Translate(m, n, pn) == 0
  {
    hide Rd, FrameOf, Index;
    assert TableAt(m, n, pn, 4) == Some(n);
    assert TableAt(m, n, pn, 3) == None;
    assert TableAt(m, n, pn, 2) == None;
  }

  // ---------- writing a translation ----------

  ghost predicate SetsEntry(m: seq<Word>, m': seq<Word>, t: nat, i: nat, e: Word) {
    && |m'| == |m| && Rd(m', t, i) == e
    && (forall f: nat, j: nat :: j < ENTRIES && !(f == t && j == i) ==> Rd(m', f, j) == Rd(m, f, j))
  }

  lemma SetEntryWellFormed(m: seq<Word>, own: Owners, m': seq<Word>, t: nat, i: nat, e: Word)
    requires WellFormed(m, own) && SetsEntry(m, m', t, i, e) && IsTable(own, t, 1)
    ensures WellFormed(m', own)
  {
    hide Rd, FrameOf, Present;
    forall f, j {:trigger Edge(m', own, f, j)} | Edge(m', own, f, j)
      ensures Edge(m, own, f, j) && Target(m', f, j) == Target(m, f, j)
    {
      assert Rd(m', f, j) == Rd(m, f, j);
    }
  }

  lemma {:induction false} SetEntryWalk(m: seq<Word>, own: Owners, m': seq<Word>, t: nat, i: nat, e: Word, r: nat,
                                        pn: nat, l: nat)
    requires WellFormed(m, own) && SetsEntry(m, m', t, i, e) && IsTable(own, t, 1)
    requires IsTable(own, r, 4) && 1 <= l <= 4
    ensures TableAt(m', r, pn, l) == TableAt(m, r, pn, l)
    decreases 4 - l
  {
    hide Rd, FrameOf, Present, Index;
    if l < 4 {
      SetEntryWalk(m, own, m', t, i, e, r, pn, l + 1);
      TableAtIsTable(m, own, r, pn, l + 1);
      var up, j := TableAt(m, r, pn, l + 1), Index(pn, l + 1);
      assert up.Some? ==> Rd(m', up.value, j) == Rd(m, up.value, j);
    }
  }

  /** Two walks end in one last-level entry exactly for the same page, from one root or from roots that share. */
  lemma SameSlot(m: seq<Word>, own: Owners, root: nat, pn: nat, s: nat, q: nat)
    requires WellFormed(m, own) && IsTable(own, root, 4) && IsTable(own, s, 4) && pn < PAGES && q < PAGES
    requires TableAt(m, root, pn, 1).Some?
    ensures (TableAt(m, s, q, 1) == TableAt(m, root, pn, 1) && Index(q, 1) == Index(pn, 1))
            <==> (q == pn && Alias(m, root, s, pn))
  {
    hide Rd, FrameOf, Present, Index, Alias, WellFormed, PAGES, TableAt;
    if q == pn && Alias(m, root, s, pn) {
      AliasTableAt(m, root, s, pn, 1);
    }
    if TableAt(m, s, q, 1) == TableAt(m, root, pn, 1) && Index(q, 1) == Index(pn, 1) {
      TableAtInjective(m, own, root, pn, s, q, 1);
      forall l | 1 <= l <= 4
        ensures Index(pn, l) == Index(q, l)
      {
      }
      IndicesDetermine(pn, q);
    }
  }

  /** Writing the entry of page `pn` below `root` changes the flat map at that page, for that root and
      for those that share its table, and nowhere else. */
  lemma SetEntryTranslate(m: seq<Word>, own: Owners, m': seq<Word>, t: nat, e: Word, root: nat, pn: nat, s: nat, q: nat)
    requires WellFormed(m, own) && IsTable(own, t, 1) && SetsEntry(m, m', t, Index(pn, 1), e)
    requires IsTable(own, root, 4) && IsTable(own, s, 4) && pn < PAGES && q < PAGES
    requires TableAt(m, root, pn, 1) == Some(t)
    ensures Translate(m', s, q) == if q == pn && Alias(m, root, s, pn) then e else Translate(m, s, q)
  {
    hide Rd, FrameOf, Present, Index, Alias, WellFormed, PAGES, TableAt;
    SetEntryWalk(m, own, m', t, Index(pn, 1), e, s, q, 1);
    SameSlot(m, own, root, pn, s, q);
  }

  // ---------- sharing the upper half ----------

  /** In the lower half no two roots share. */
  lemma AliasLower(m: seq<Word>, own: Owners, r: nat, s: nat, pn: nat)
    requires WellFormed(m, own) && IsTable(own, r, 4) && IsTable(own, s, 4)
    requires Index(pn, 4) < 256 && Alias(m, r, s, pn)
    ensures r == s
  {
    hide Rd, FrameOf, Index, Present;
    var e := Edge(m, own, r, Index(pn, 4)) && Edge(m, own, s, Index(pn, 4));
  }

  /** The words of root `u` from 256 on become those of root `k`. */
  ghost predicate CopiesUpper(m: seq<Word>, m': seq<Word>, u: nat, k: nat) {
    && |m'| == |m|
    && (forall i :: 256 <= i < ENTRIES ==> Rd(m', u, i) == Rd(m, k, i))
    && (forall f: nat, j: nat :: j < ENTRIES && !(f == u && j >= 256) ==> Rd(m', f, j) == Rd(m, f, j))
  }

  lemma CopyUpperWellFormed(m: seq<Word>, own: Owners, m': seq<Word>, u: nat, k: nat)
    requires WellFormed(m, own) && CopiesUpper(m, m', u, k) && IsTable(own, u, 4) && IsTable(own, k, 4)
    ensures WellFormed(m', own)
  {
    hide Rd, FrameOf, Present;
    forall f, j {:trigger Edge(m', own, f, j)} | Edge(m', own, f, j)
      ensures var g := if f == u && j >= 256 then k else f;
              Edge(m, own, g, j) && Target(m', f, j) == Target(m, g, j)
    {
      assert f == u && j >= 256 ==> Rd(m', u, j) == Rd(m, k, j);
    }
  }

  lemma {:induction false} CopyUpperWalk(m: seq<Word>, own: Owners, m': seq<Word>, u: nat, k: nat, r: nat, pn: nat,
                                         l: nat)
    requires WellFormed(m, own) && CopiesUpper(m, m', u, k) && IsTable(own, u, 4) && IsTable(own, k, 4)
    requires IsTable(own, r, 4) && 1 <= l <= 3
    ensures TableAt(m', r, pn, l) == TableAt(m, if r == u && Index(pn, 4) >= 256 then k else r, pn, l)
    decreases 4 - l
  {
    hide Rd, FrameOf, Present, Index;
    var g := if r == u && Index(pn, 4) >= 256 then k else r;
    if l < 3 {
      CopyUpperWalk(m, own, m', u, k, r, pn, l + 1);
      TableAtIsTable(m, own, g, pn, l + 1);
      var up, j := TableAt(m, g, pn, l + 1), Index(pn, l + 1);
      assert up.Some? ==> Rd(m', up.value, j) == Rd(m, up.value, j);
    } else {
      assert Rd(m', r, Index(pn, 4)) == Rd(m, g, Index(pn, 4));
      assert TableAt(m', r, pn, 4) == Some(r) && TableAt(m, g, pn, 4) == Some(g);
    }
  }

  /** After the copy `u` translates its upper half as `k` does and its lower half as before; all other
      roots translate as before. */
  lemma CopyUpperTranslate(m: seq<Word>, own: Owners, m': seq<Word>, u: nat, k: nat, r: nat, pn: nat)
    requires WellFormed(m, own) && CopiesUpper(m, m', u, k) && IsTable(own, u, 4) && IsTable(own, k, 4)
    requires IsTable(own, r, 4)
    ensures Translate(m', r, pn) == Translate(m, if r == u && Index(pn, 4) >= 256 then k else r, pn)
  {
    hide Rd, FrameOf, Present, Index;
    var g := if r == u && Index(pn, 4) >= 256 then k else r;
    CopyUpperWalk(m, own, m', u, k, r, pn, 1);
    TableAtIsTable(m, own, g, pn, 1);
    var t, j := TableAt(m, g, pn, 1), Index(pn, 1);
    assert t.Some? ==> Rd(m', t.value, j) == Rd(m, t.value, j);
  }

  /** Root `u` holds the kernel's top-level entries in `slots`. */
  ghost predicate KernelView(m: seq<Word>, u: nat, k: nat, slots: set<nat>) {
    forall i :: i in slots ==> 256 <= i < ENTRIES && Present(Rd(m, k, i)) && Rd(m, u, i) == Rd(m, k, i)
  }

  /** Every top-level entry that was present is still the same. */
  ghost predicate TopsPersist(m: seq<Word>, own: Owners, m': seq<Word>) {
    forall r: nat, i: nat :: IsTable(own, r, 4) && i < ENTRIES && Present(Rd(m, r, i)) ==> Rd(m', r, i) == Rd(m, r, i)
  }

  /** Through the slots it shares, a root sees whatever the kernel maps there, now and later. */
  lemma KernelViewTranslate(m: seq<Word>, own: Owners, m': seq<Word>, u: nat, k: nat, slots: set<nat>, pn: nat)
    requires IsTable(own, u, 4) && IsTable(own, k, 4)
    requires KernelView(m, u, k, slots) && TopsPersist(m, own, m') && Index(pn, 4) in slots
    ensures KernelView(m', u, k, slots)
    ensures Alias(m', u, k, pn) && Translate(m', u, pn) == Translate(m', k, pn)
  {
    hide Rd, FrameOf, Index;
    AliasTableAt(m', u, k, pn, 1);
  }
}
