/** What the virtual memory manager is to its users: each address space is a flat map from page number to
    entry, and a store through one space is also seen through those that share the page's tables. */
module FlatSpaces {
  import opened Wrappers
  import opened Paging
  import opened PageTable
  import opened Vmm

  datatype Op =
    | NewSpace
    | Map(space: nat, phy: Word, virt: Word, flags: Word)
    | MapNew(space: nat, virt: Word, flags: Word)
    | Reserve(space: nat, range: MappedRange)
    | Touch(space: nat, virt: Word)
    | Query(space: nat, virt: Word)

  datatype Outcome =
    | Done
    | Made(root: nat)
    | Filled(entry: Word, own: bool)
    | Refused
    | Address(phy: nat)
    | OutOfMemory

  datatype Event = Event(op: Op, outcome: Outcome)

  // ---------- flat address spaces ----------

  /** The entry of a page, and whether the page got a frame of its own, by a fault or by `MapNew`. */
  datatype Mapping = Mapping(entry: Word, own: bool)

  /** A flat address space: its root, the top-level slots it shares since it was made, its ranges. */
  datatype Space = Space(root: nat, slots: set<nat>, ranges: seq<MappedRange>, pages: nat -> Mapping)

  /** All spaces, the kernel's first, and the upper-half slots under which the kernel has a table. */
  datatype Book = Book(spaces: seq<Space>, tops: set<nat>, hhdm: Word)

  const UPPER: set<nat> := set x | 256 <= x < ENTRIES

  /** Spaces `i` and `j` use one table below top-level slot `x`. */
  predicate Shares(b: Book, i: nat, j: nat, x: nat)
    requires i < |b.spaces| && j < |b.spaces|
  {
    i == j || (x in b.spaces[i].slots && x in b.spaces[j].slots)
  }

  /** Operations that name no space, and flag words with other bits, are not carried out. */
  predicate Legal(b: Book, op: Op) {
    CarriedOut(op, |b.spaces|)
  }

  predicate CarriedOut(op: Op, n: nat) {
    match op
    case NewSpace => n > 0
    case Map(i, _, _, flags) => i < n && IsFlags(flags)
    case MapNew(i, _, flags) => i < n && IsFlags(flags)
    case Reserve(i, r) => i < n && IsFlags(r.flags)
    case Touch(i, _) => i < n
    case Query(i, _) => i < n
  }

  /** Page `pn` becomes `p` in space `i` and in those that share its tables. */
  function Write(b: Book, i: nat, pn: nat, p: Mapping): Book
    requires i < |b.spaces|
  {
    b.(spaces := seq(|b.spaces|, j requires 0 <= j < |b.spaces| => WriteIn(b, i, j, pn, p)))
  }

  function WriteIn(b: Book, i: nat, j: nat, pn: nat, p: Mapping): Space
    requires i < |b.spaces| && j < |b.spaces|
  {
    var s := b.spaces[j];
    s.(pages := (q: nat) => if q == pn && Shares(b, i, j, Index(pn, 4)) then p else s.pages(q))
  }

  /** A walk leaves a table under the top-level slot it went through. */
  function Walked(b: Book, i: nat, pn: nat): Book {
    if i == 0 && Index(pn, 4) >= 256 then b.(tops := b.tops + {Index(pn, 4)}) else b
  }

  /** The upper half of the new space is the kernel's, its lower half is empty. */
  function AddSpace(b: Book, root: nat): Book
    requires b.spaces != []
  {
    var pages := (pn: nat) => if Index(pn, 4) >= 256 then b.spaces[0].pages(pn) else Mapping(0, false);
    b.(spaces := b.spaces + [Space(root, b.tops, [], pages)])
  }

  function After(b: Book, e: Event): Book
    requires Legal(b, e.op)
  {
    if e.outcome.OutOfMemory? then b
    else
      match e.op
      case NewSpace => if e.outcome.Made? then AddSpace(b, e.outcome.root) else b
      case Map(i, phy, virt, flags) =>
        Walked(Write(b, i, PageOf(virt), Mapping(MakeEntry(phy, flags), false)), i, PageOf(virt))
      case MapNew(i, virt, _) =>
        if e.outcome.Filled? then
          Walked(Write(b, i, PageOf(virt), Mapping(e.outcome.entry, e.outcome.own)), i, PageOf(virt))
        else b
      case Reserve(i, range) =>
        b.(spaces := b.spaces[i := b.spaces[i].(ranges := [range] + b.spaces[i].ranges)])
      case Touch(i, virt) =>
        if e.outcome.Filled? then
          Walked(Write(b, i, PageOf(virt), Mapping(e.outcome.entry, e.outcome.own)), i, PageOf(virt))
        else Walked(b, i, PageOf(virt))
      case Query(i, virt) => Walked(b, i, PageOf(virt))
  }

  /** No page that got a frame of its own, in any space, lies in frame `n`. */
  ghost predicate FrameFree(b: Book, n: nat) {
    forall i: nat, pn: nat {:trigger b.spaces[i].pages(pn)} ::
      i < |b.spaces| && pn < PAGES && b.spaces[i].pages(pn).own ==>
        FrameOf(b.spaces[i].pages(pn).entry) != n
  }

  /** What a fault may put in: from the first covering range, its page of the direct map or a frame
      no such page lies in. */
  ghost predicate Supplied(b: Book, i: nat, virt: Word, entry: Word, own: bool)
    requires i < |b.spaces|
  {
    exists k: nat :: IsFirst(b.spaces[i].ranges, virt, k) && FromRange(b, b.spaces[i].ranges[k], virt, entry, own)
  }

  /** An entry for a frame no page with one of its own lies in. */
  ghost predicate FreshEntry(b: Book, flags: Word, entry: Word)
    requires IsFlags(flags)
  {
    FrameFree(b, FrameOf(entry)) && FrameOf(entry) * PAGE < WORDS && entry == MakeEntry(FrameOf(entry) * PAGE, flags)
  }

  ghost predicate FromRange(b: Book, r: MappedRange, virt: Word, entry: Word, own: bool) {
    && IsFlags(r.flags)
    && match r.kind
       case Direct => !own && entry == MakeEntry(Minus(virt, b.hhdm), r.flags)
       case Anonymous => own && FreshEntry(b, r.flags, entry)
  }

  /** The outcomes an operation may have. Only those that need a frame may panic. */
  ghost predicate Allowed(b: Book, e: Event)
    requires Legal(b, e.op)
  {
    match e.op
    case NewSpace =>
      || e.outcome.OutOfMemory?
      || (e.outcome.Made? && forall i :: 0 <= i < |b.spaces| ==> b.spaces[i].root != e.outcome.root)
    case Map(_, _, _, _) => e.outcome.OutOfMemory? || e.outcome.Done?
    case MapNew(_, _, flags) =>
      e.outcome.OutOfMemory? || (e.outcome.Filled? && e.outcome.own && FreshEntry(b, flags, e.outcome.entry))
    case Reserve(_, _) => e.outcome.Done?
    case Touch(i, virt) =>
      || e.outcome.OutOfMemory?
      || (if || Present(b.spaces[i].pages(PageOf(virt)).entry)
             || (forall r :: r in b.spaces[i].ranges ==> !Covers(r, virt))
          then e.outcome.Refused?
          else e.outcome.Filled? && Supplied(b, i, virt, e.outcome.entry, e.outcome.own))
    case Query(i, virt) =>
      e.outcome.OutOfMemory? || e.outcome == Address(FrameOf(b.spaces[i].pages(PageOf(virt)).entry) * PAGE)
  }

  // ---------- runs ----------

  /** Only legal operations were carried out, with allowed outcomes; nothing follows a panic. */
  ghost predicate LegalRun(b: Book, trace: seq<Event>)
    decreases |trace|
  {
    trace == [] || (&& Legal(b, trace[0].op) && Allowed(b, trace[0]) && LegalRun(After(b, trace[0]), trace[1..])
                    && (trace[0].outcome.OutOfMemory? ==> |trace| == 1))
  }

  ghost predicate Stopped(trace: seq<Event>) {
    trace != [] && trace[|trace| - 1].outcome.OutOfMemory?
  }

  ghost function Replay(b: Book, trace: seq<Event>): Book
    requires LegalRun(b, trace)
    decreases |trace|
  {
    if trace == [] then b else Replay(After(b, trace[0]), trace[1..])
  }

  /** The run carries out `ops` in order up to a panic, skipping exactly the illegal ones. */
  ghost predicate Follows(b: Book, ops: seq<Op>, trace: seq<Event>)
    requires LegalRun(b, trace)
    decreases |ops|
  {
    if ops == [] then trace == []
    else if Legal(b, ops[0]) then
      && trace != [] && trace[0].op == ops[0]
      && (trace[0].outcome.OutOfMemory? || Follows(After(b, trace[0]), ops[1..], trace[1..]))
    else Follows(b, ops[1..], trace)
  }

  lemma {:induction false} ReplayAppend(b: Book, trace: seq<Event>, e: Event)
    requires LegalRun(b, trace) && !Stopped(trace)
    requires Legal(Replay(b, trace), e.op) && Allowed(Replay(b, trace), e)
    ensures LegalRun(b, trace + [e])
    ensures Replay(b, trace + [e]) == After(Replay(b, trace), e)
    decreases |trace|
  {
    hide Legal, After, Allowed;
    if trace == [] {
      assert trace + [e] == [e];
    } else {
      ReplayAppend(After(b, trace[0]), trace[1..], e);
      assert (trace + [e])[1..] == trace[1..] + [e];
    }
  }

  lemma {:induction false} FollowsAppend(b: Book, ops: seq<Op>, trace: seq<Event>, op: Op, next: seq<Event>)
    requires LegalRun(b, trace) && Follows(b, ops, trace) && LegalRun(b, trace + next)
    requires if !Stopped(trace) && Legal(Replay(b, trace), op) then |next| == 1 && next[0].op == op else next == []
    ensures Follows(b, ops + [op], trace + next)
    decreases |ops|
  {
    hide Legal, After, Allowed;
    if ops == [] {
      assert ops + [op] == [op] && trace + next == next;
    } else {
      assert (ops + [op])[1..] == ops[1..] + [op];
      if Legal(b, ops[0]) {
        assert (trace + next)[1..] == trace[1..] + next;
        if !trace[0].outcome.OutOfMemory? {
          FollowsAppend(After(b, trace[0]), ops[1..], trace[1..], op, next);
        }
      } else {
        FollowsAppend(b, ops[1..], trace, op, next);
      }
    }
  }

  // ---------- what follows for the spaces ----------

  /** Spaces that share a table see the same pages below it: a user space sees under its slots whatever
      the kernel maps there. */
  ghost predicate SharedViews(b: Book) {
    forall i: nat, j: nat, pn: nat {:trigger b.spaces[i].pages(pn), b.spaces[j].pages(pn)} ::
      i < |b.spaces| && j < |b.spaces| && pn < PAGES && Shares(b, i, j, Index(pn, 4)) ==>
        b.spaces[i].pages(pn) == b.spaces[j].pages(pn)
  }

  /** Two pages with frames of their own that lie in one frame are one page, seen from one space or from two
      that share its table. */
  ghost predicate FramesPrivate(b: Book) {
    forall i: nat, p: nat, j: nat, q: nat {:trigger b.spaces[i].pages(p), b.spaces[j].pages(q)} ::
      && i < |b.spaces| && j < |b.spaces| && p < PAGES && q < PAGES
      && b.spaces[i].pages(p).own && b.spaces[j].pages(q).own
      && FrameOf(b.spaces[i].pages(p).entry) == FrameOf(b.spaces[j].pages(q).entry) ==>
        p == q && Shares(b, i, j, Index(p, 4))
  }

  /** The store an event makes: through which space, to which page, and what. */
  datatype Store = Store(space: nat, page: nat, mapping: Mapping)

  function StoreOf(e: Event): Option<Store> {
    match e.op
    case Map(i, phy, virt, flags) =>
      if e.outcome.Done? && IsFlags(flags)
      then Some(Store(i, PageOf(virt), Mapping(MakeEntry(phy, flags), false)))
      else None
    case MapNew(i, virt, _) =>
      if e.outcome.Filled? then Some(Store(i, PageOf(virt), Mapping(e.outcome.entry, e.outcome.own))) else None
    case Touch(i, virt) =>
      if e.outcome.Filled? then Some(Store(i, PageOf(virt), Mapping(e.outcome.entry, e.outcome.own))) else None
    case _ => None
  }

  /** Space `u` translates its whole upper half as the kernel does. */
  ghost predicate UpperHalfSame(b: Book, u: nat) {
    && 0 < u < |b.spaces|
    && forall pn: nat {:trigger b.spaces[u].pages(pn)} :: pn < PAGES && Index(pn, 4) >= 256 ==>
         b.spaces[u].pages(pn) == b.spaces[0].pages(pn)
  }

  /** The store reaches both of space `u` and the kernel, or neither, or what is there already. */
  ghost predicate StoresAlike(b: Book, u: nat, w: Store)
    requires u < |b.spaces| && w.space < |b.spaces|
  {
    || Index(w.page, 4) < 256 || (Shares(b, w.space, u, Index(w.page, 4)) <==> Shares(b, w.space, 0, Index(w.page, 4)))
    || b.spaces[u].pages(w.page) == w.mapping
  }

  lemma NewSpaceUpperHalf(b: Book, root: nat)
    requires b.spaces != []
    ensures UpperHalfSame(AddSpace(b, root), |b.spaces|)
  {
  }

  lemma StoredAfter(b: Book, e: Event)
    requires Legal(b, e.op) && Allowed(b, e)
    ensures match StoreOf(e)
            case Some(w) =>
              && w.space < |b.spaces| && w.page < PAGES
              && After(b, e).spaces == Write(b, w.space, w.page, w.mapping).spaces
            case None =>
              && |b.spaces| <= |After(b, e).spaces|
              && forall j :: 0 <= j < |b.spaces| ==>
                   After(b, e).spaces[j].pages == b.spaces[j].pages && After(b, e).spaces[j].slots == b.spaces[j].slots
  {
    hide Write, Index, PageOf, MakeEntry, Supplied, IsFlags, FrameOf, Present;
  }

  lemma UpperHalfWrite(b: Book, u: nat, w: Store)
    requires UpperHalfSame(b, u) && w.space < |b.spaces| && w.page < PAGES
    ensures UpperHalfSame(Write(b, w.space, w.page, w.mapping), u) <==> StoresAlike(b, u, w)
  {
    hide Shares, Index;
    var b' := Write(b, w.space, w.page, w.mapping);
    assert b'.spaces[u] == WriteIn(b, w.space, u, w.page, w.mapping);
    assert b'.spaces[0] == WriteIn(b, w.space, 0, w.page, w.mapping);
    assert b.spaces[u].pages(w.page) == b.spaces[0].pages(w.page) || Index(w.page, 4) < 256;
    if UpperHalfSame(b', u) && Index(w.page, 4) >= 256 {
      assert b'.spaces[u].pages(w.page) == b'.spaces[0].pages(w.page);
    }
  }

  /** An event keeps the upper halves the same exactly if its store treats the two spaces alike. */
  lemma UpperHalfStep(b: Book, e: Event, u: nat)
    requires UpperHalfSame(b, u) && Legal(b, e.op) && Allowed(b, e)
    ensures StoreOf(e).Some? ==> StoreOf(e).value.space < |b.spaces|
    ensures UpperHalfSame(After(b, e), u) <==> StoreOf(e).None? || StoresAlike(b, u, StoreOf(e).value)
  {
    hide Legal, Allowed, After, StoresAlike, Write, Index, StoreOf;
    StoredAfter(b, e);
    if StoreOf(e).Some? {
      UpperHalfWrite(b, u, StoreOf(e).value);
    }
  }

  lemma SlotsKept(b: Book, e: Event)
    requires Legal(b, e.op)
    ensures |b.spaces| <= |After(b, e).spaces|
    ensures forall j :: 0 <= j < |b.spaces| ==> After(b, e).spaces[j].slots == b.spaces[j].slots
  {
    hide Index, PageOf, MakeEntry, IsFlags;
  }

  /** While every store goes to the lower half or below a slot that space `u` shares, it keeps seeing the
      kernel's upper half, whatever is mapped and faulted in there by whom. */
  lemma {:induction false} UpperHalfKept(b: Book, trace: seq<Event>, u: nat)
    requires LegalRun(b, trace) && UpperHalfSame(b, u) && u < |b.spaces|
    requires b.spaces[0].slots == UPPER && b.spaces[u].slots <= UPPER
    requires forall k :: 0 <= k < |trace| && StoreOf(trace[k]).Some? ==>
               var x := Index(StoreOf(trace[k]).value.page, 4);
               x < 256 || x in b.spaces[u].slots
    ensures UpperHalfSame(Replay(b, trace), u)
    decreases |trace|
  {
    hide Legal, Allowed, After, Write, Index, StoreOf, UpperHalfSame, UPPER;
    if trace != [] {
      UpperHalfStep(b, trace[0], u);
      SlotsKept(b, trace[0]);
      UpperHalfKept(After(b, trace[0]), trace[1..], u);
    }
  }
}
