/** The physical page allocator (pmm.cpp): a bitmap with one bit per page, set when the page is taken. */
module PageAllocator {
  import opened Wrappers
  import opened Bitmap
  import opened Paging

  /** `n` clear pages starting at `s`. */
  ghost predicate IsRun(bits: seq<bool>, s: nat, n: nat) {
    s + n <= |bits| && forall i :: s <= i < s + n ==> !bits[i]
  }

  /** A run of `n` clear pages inside `[from, to)`. */
  ghost predicate HasRun(bits: seq<bool>, from: nat, to: nat, n: nat) {
    exists s: nat :: from <= s && s + n <= to && IsRun(bits, s, n)
  }

  /** `s` is the lowest start of such a run. */
  ghost predicate LowestRun(bits: seq<bool>, from: nat, to: nat, n: nat, s: nat) {
    && from <= s && s + n <= to && IsRun(bits, s, n)
    && forall r: nat :: from <= r < s ==> !IsRun(bits, r, n)
  }

  /** A taken page at `i` blocks every run that would cover it. */
  lemma RunBlocked(bits: seq<bool>, i: nat, n: nat)
    requires i < |bits| && bits[i]
    ensures forall r: nat :: r <= i < r + n ==> !IsRun(bits, r, n)
  {
  }

  lemma LowestRunFound(bits: seq<bool>, from: nat, to: nat, n: nat, s: nat)
    requires from <= s && s + n <= to && s + n <= |bits|
    requires forall i :: s <= i < s + n ==> !bits[i]
    requires forall r: nat :: from <= r < s ==> !IsRun(bits, r, n)
    ensures LowestRun(bits, from, to, n, s)
  {
  }

  /** A scan that stopped at the limit with fewer than `n` clear pages behind it has missed no run. */
  lemma NoRunLeft(bits: seq<bool>, first: nat, limit: nat, stop: nat, n: nat)
    requires limit < stop + n
    requires forall r: nat :: first <= r < stop ==> !IsRun(bits, r, n)
    ensures !HasRun(bits, first, limit, n)
  {
    hide IsRun;
  }

  function Taken(bits: seq<bool>, s: nat, n: nat): (r: seq<bool>)
    requires s + n <= |bits|
    ensures |r| == |bits|
    ensures forall i :: 0 <= i < |bits| ==> r[i] == (bits[i] || s <= i < s + n)
  {
    seq(|bits|, i requires 0 <= i < |bits| => bits[i] || s <= i < s + n)
  }

  function Cleared(bits: seq<bool>, s: nat, n: nat): (r: seq<bool>)
    requires s + n <= |bits|
    ensures |r| == |bits|
    ensures forall i :: 0 <= i < |bits| ==> r[i] == (bits[i] && !(s <= i < s + n))
  {
    seq(|bits|, i requires 0 <= i < |bits| => bits[i] && !(s <= i < s + n))
  }

  lemma TakenStep(bits: seq<bool>, s: nat, n: nat)
    requires s + n < |bits|
    ensures Taken(bits, s, 0) == bits && Taken(bits, s, n + 1) == Taken(bits, s, n)[s + n := true]
  {
  }

  lemma ClearedStep(bits: seq<bool>, s: nat, n: nat)
    requires s + n < |bits|
    ensures Cleared(bits, s, 0) == bits && Cleared(bits, s, n + 1) == Cleared(bits, s, n)[s + n := false]
  {
  }

  function ClearCount(bits: seq<bool>): nat {
    if bits == [] then 0 else (if bits[0] then 0 else 1) + ClearCount(bits[1..])
  }

  lemma {:induction false} ClearCountSet(bits: seq<bool>, i: nat, v: bool)
    requires i < |bits|
    ensures ClearCount(bits[i := v]) == ClearCount(bits) + (if bits[i] then 1 else 0) - (if v then 1 else 0)
  {
    if i == 0 {
      assert bits[i := v][1..] == bits[1..];
    } else {
      ClearCountSet(bits[1..], i - 1, v);
      assert bits[i := v][1..] == bits[1..][i - 1 := v];
    }
  }

  lemma {:induction false} ClearCountAllSet(bits: seq<bool>)
    requires forall i :: 0 <= i < |bits| ==> bits[i]
    ensures ClearCount(bits) == 0
  {
    if bits != [] {
      ClearCountAllSet(bits[1..]);
    }
  }

  datatype Region = Region(base: nat, length: nat, usable: bool)

  /** Page-aligned usable regions that do not overlap, as the boot protocol delivers them. */
  predicate WellFormed(regions: seq<Region>) {
    && (forall k :: 0 <= k < |regions| && regions[k].usable ==>
          regions[k].base % PAGE == 0 && regions[k].length % PAGE == 0)
    && (forall j, k :: 0 <= j < k < |regions| && regions[j].usable && regions[k].usable ==>
          || regions[j].base + regions[j].length <= regions[k].base
          || regions[k].base + regions[k].length <= regions[j].base)
  }

  predicate InRegion(r: Region, page: nat) {
    r.usable && r.base <= page * PAGE && (page + 1) * PAGE <= r.base + r.length
  }

  /** The page lies in one of the first `n` usable regions. */
  ghost predicate UsablePage(regions: seq<Region>, n: nat, page: nat) {
    exists k :: 0 <= k < n && k < |regions| && InRegion(regions[k], page)
  }

  /** The end of the highest usable region among the first `n`. */
  function LastUsable(regions: seq<Region>, n: nat): nat
    requires n <= |regions|
  {
    if n == 0 then 0
    else
      var last, r := LastUsable(regions, n - 1), regions[n - 1];
      if r.usable && r.base + r.length > last then r.base + r.length else last
  }

  lemma {:induction false} LastUsableBounds(regions: seq<Region>, n: nat, k: nat)
    requires k < n <= |regions| && regions[k].usable
    ensures regions[k].base + regions[k].length <= LastUsable(regions, n)
  {
    if k < n - 1 {
      LastUsableBounds(regions, n - 1, k);
    }
  }

  /** It is no more than that. */
  lemma {:induction false} LastUsableAttained(regions: seq<Region>, n: nat)
    requires n <= |regions|
    ensures LastUsable(regions, n) == 0 ||
            exists k :: 0 <= k < n && regions[k].usable && LastUsable(regions, n) == regions[k].base + regions[k].length
  {
    if n > 0 {
      LastUsableAttained(regions, n - 1);
    }
  }

  /** Pages of the bitmap for `size` page bits. */
  function BitmapPages(size: nat): nat {
    (size / 8 + PAGE - 1) / PAGE
  }

  predicate Hosts(r: Region, size: nat) {
    r.usable && r.length >= size / 8
  }

  /** The region the bitmap is put in: the first usable one that is long enough, from index `k` on. */
  function Host(regions: seq<Region>, size: nat, k: nat): (h: nat)
    requires k <= |regions|
    ensures k <= h <= |regions|
    ensures h < |regions| ==> regions[h].usable && regions[h].length >= size / 8
    ensures forall j :: k <= j < h ==> !(regions[j].usable && regions[j].length >= size / 8)
    decreases |regions| - k
  {
    if k == |regions| || Hosts(regions[k], size) then k else Host(regions, size, k + 1)
  }

  /** In an aligned region the pages are those between the quotients the code computes. */
  lemma AlignedRegion(r: Region, page: nat)
    requires r.usable && r.base % PAGE == 0 && r.length % PAGE == 0
    ensures InRegion(r, page) <==> r.base / PAGE <= page < r.base / PAGE + r.length / PAGE
  {
  }

  lemma RegionsApart(regions: seq<Region>, j: nat, k: nat, page: nat)
    requires WellFormed(regions) && j < k < |regions|
    ensures !(InRegion(regions[j], page) && InRegion(regions[k], page))
  {
  }

  /** The bitmap's own pages are pages of its host region. */
  lemma HostFits(regions: seq<Region>, size: nat, host: nat)
    requires WellFormed(regions) && host < |regions| && Hosts(regions[host], size)
    ensures AlignUp(size / 8) / PAGE == BitmapPages(size)
    ensures regions[host].base / PAGE + BitmapPages(size) <= LastUsable(regions, |regions|) / PAGE
    ensures forall p: nat :: regions[host].base / PAGE <= p < regions[host].base / PAGE + BitmapPages(size) ==>
              UsablePage(regions, |regions|, p)
  {
    var r := regions[host];
    var bytes := size / 8;
    hide LastUsable, UsablePage;
    LastUsableBounds(regions, |regions|, host);
    assert BitmapPages(size) <= r.length / PAGE;
    forall p: nat | r.base / PAGE <= p < r.base / PAGE + BitmapPages(size)
      ensures UsablePage(regions, |regions|, p)
    {
      AlignedRegion(r, p);
      InRegionUsable(regions, host, p);
    }
  }

  lemma InRegionUsable(regions: seq<Region>, k: nat, p: nat)
    requires k < |regions| && InRegion(regions[k], p)
    ensures UsablePage(regions, |regions|, p)
  {
  }

  /** The page holds a byte of the bitmap. */
  predicate HoldsBitmap(regions: seq<Region>, size: nat, host: nat, page: nat)
    requires host < |regions|
  {
    regions[host].base / PAGE <= page < regions[host].base / PAGE + BitmapPages(size)
  }

  /** Which pages those are. */
  lemma BitmapBytes(regions: seq<Region>, size: nat, host: nat, page: nat)
    requires host < |regions| && regions[host].base % PAGE == 0
    ensures HoldsBitmap(regions, size, host, page) <==>
            exists i: nat :: i < size / 8 && ByteAt(regions[host].base, i) / PAGE == page
  {
    var base := regions[host].base;
    if HoldsBitmap(regions, size, host, page) {
      var i := (page - base / PAGE) * PAGE;
      assert ByteAt(base, i) == page * PAGE;
      assert i < size / 8;
    }
    if i: nat :| i < size / 8 && ByteAt(base, i) / PAGE == page {
      assert (base + i) / PAGE == base / PAGE + i / PAGE;
    }
  }

  function ByteAt(base: nat, i: nat): nat {
    base + i
  }

  /** The bits `init` is after: clear for usable pages that do not hold the bitmap. */
  ghost function Wanted(regions: seq<Region>, size: nat, host: nat): (s: seq<bool>)
    requires host < |regions|
    ensures |s| == size
    ensures forall p :: 0 <= p < size ==>
            s[p] == !(UsablePage(regions, |regions|, p) && !HoldsBitmap(regions, size, host, p))
  {
    seq(size, p requires 0 <= p < size => !(UsablePage(regions, |regions|, p) && !HoldsBitmap(regions, size, host, p)))
  }

  /** The one page whose bit `fill` does not reach, if it is not usable. */
  ghost predicate Missed(regions: seq<Region>, size: nat, page: nat) {
    size % 8 != 0 && page == size - size % 8 && !UsablePage(regions, |regions|, page)
  }

  class PageAllocator {
    const bitmap: Bitmap
    var cursor: nat
    var totalAllocated: nat
    var totalUsable: nat

    ghost predicate Valid()
      reads this, bitmap.buffer
    {
      bitmap.Valid() && cursor <= bitmap.size
    }

    /** Address 0 stands for failure, so page 0 must never be handed out. */
    ghost predicate PageZeroTaken()
      reads bitmap.buffer
    {
      bitmap.buffer.Length > 0 && Bits()[0]
    }

    /** One bit per page, set when the page is taken. */
    ghost function Bits(): (s: seq<bool>)
      reads bitmap.buffer
      ensures |s| == 8 * bitmap.buffer.Length
    {
      bitmap.Bits()
    }

    /** Sets the bits of `[from, to)`. */
    method Take(from: nat, to: nat)
      requires Valid() && from <= to <= bitmap.size
      modifies bitmap.buffer
      ensures Bits() == Taken(old(Bits()), from, to - from)
    {
      ghost var bits := Bits();
      for i := from to to
        invariant forall k :: 0 <= k < |bits| ==> Bits()[k] == (bits[k] || from <= k < i)
      {
        bitmap.Set(i, true);
      }
    }

    /** `inner_alloc`: scans from the cursor up to `limit` and takes the lowest run of `n` clear pages.
        The scan stops behind the run, or at the limit. */
    method InnerAlloc(n: nat, limit: nat) returns (address: nat)
      requires Valid() && PageZeroTaken() && n > 0 && limit <= bitmap.size
      modifies bitmap.buffer, `cursor
      ensures Valid() && PageZeroTaken() && cursor >= old(cursor) && address % PAGE == 0
      ensures address == 0 ==> !HasRun(old(Bits()), old(cursor), limit, n) && Bits() == old(Bits())
      ensures address != 0 ==>
                && LowestRun(old(Bits()), old(cursor), limit, n, address / PAGE)
                && Bits() == Taken(old(Bits()), address / PAGE, n) && cursor == address / PAGE + n
      ensures address == 0 ==> cursor == if old(cursor) < limit then limit else old(cursor)
    {
      hide IsRun, HasRun, LowestRun, Taken, Bit;
      ghost var bits, first := Bits(), cursor;
      var pages := 0;
      while cursor < limit
        invariant Valid() && Bits() == bits
        invariant first <= cursor && pages <= cursor - first && pages < n
        invariant if first < limit then cursor <= limit else cursor == first
        invariant forall i :: cursor - pages <= i < cursor ==> !bits[i]
        invariant forall r: nat :: first <= r < cursor - pages ==> !IsRun(bits, r, n)
        decreases limit - cursor
      {
        if !bitmap.Get(cursor) {
          cursor := cursor + 1;
          pages := pages + 1;
          if pages == n {
            var beginning := cursor - n;
            Take(beginning, cursor);
            assert LowestRun(bits, first, limit, n, beginning) by { LowestRunFound(bits, first, limit, n, beginning); }
            return beginning * PAGE;
          }
        } else {
          RunBlocked(bits, cursor, n);
          cursor := cursor + 1;
          pages := 0;
        }
      }
      NoRunLeft(bits, first, limit, cursor - pages, n);
      return 0;
    }

    /** `alloc_pages`: the lowest run from the cursor on, or else the lowest run below the cursor; no
        address, a panic, exactly when neither part holds one. A run across the cursor is not found. */
    method AllocPages(n: nat) returns (address: Option<nat>)
      requires Valid() && PageZeroTaken() && n > 0
      modifies bitmap.buffer, `cursor, `totalAllocated
      ensures Valid() && PageZeroTaken()
      ensures address.None? <==>
              !HasRun(old(Bits()), old(cursor), bitmap.size, n) && !HasRun(old(Bits()), 0, old(cursor), n)
      ensures address.None? ==>
                Bits() == old(Bits()) && totalAllocated == old(totalAllocated) && cursor == old(cursor)
      ensures address.Some? ==>
                var page := address.value / PAGE;
                && address.value == page * PAGE && page > 0
                && (LowestRun(old(Bits()), old(cursor), bitmap.size, n, page) ||
                    (!HasRun(old(Bits()), old(cursor), bitmap.size, n)
                     && LowestRun(old(Bits()), 0, old(cursor), n, page)))
                && Bits() == Taken(old(Bits()), page, n) && totalAllocated == old(totalAllocated) + n * PAGE
                && cursor == page + n
    {
      var last := cursor;
      var result := InnerAlloc(n, bitmap.size);
      if result == 0 {
        cursor := 0;
        result := InnerAlloc(n, last);
        if result == 0 {
          return None;
        }
      }
      totalAllocated := totalAllocated + n * PAGE;
      return Some(result);
    }

    /** `init`: marks every page taken, frees the pages of the usable regions, and takes back those
        that hold the bitmap itself. `buffer` is that memory. For a size that is no multiple of eight one
        page's bit may be left over from before. */
    constructor (regions: seq<Region>, buffer: array<bv8>)
      requires WellFormed(regions)
      requires var size := LastUsable(regions, |regions|) / PAGE;
               && size <= 8 * buffer.Length && (size % 8 != 0 ==> size < 8 * buffer.Length)
               && Host(regions, size, 0) < |regions|
      modifies buffer
      ensures Valid() && bitmap.buffer == buffer && bitmap.size == LastUsable(regions, |regions|) / PAGE
      ensures cursor == 0 && totalAllocated == 0
      ensures var wanted := Wanted(regions, bitmap.size, Host(regions, bitmap.size, 0));
              && totalUsable == PAGE * ClearCount(wanted)
              && forall p :: 0 <= p < bitmap.size ==>
                   Bits()[p] == if Missed(regions, bitmap.size, p) then old(Bit(buffer[p / 8], p % 8)) else wanted[p]
      ensures bitmap.size >= 8 && (forall r :: r in regions && r.usable ==> r.base > 0) ==> PageZeroTaken()
    {
      hide UsablePage, ClearCount, Hosts, BitmapPages, WellFormed, Bit, Filled, Wanted, Missed, HoldsBitmap;
      var last := 0;
      for k := 0 to |regions|
        invariant last == LastUsable(regions, k)
      {
        var end := regions[k].base + regions[k].length;
        if end > last && regions[k].usable {
          last := end;
        }
      }
      bitmap := new Bitmap(buffer, last / PAGE);
      cursor, totalAllocated, totalUsable := 0, 0, 0;
      new;
      var host := 0;
      while !Hosts(regions[host], bitmap.size)
        invariant host <= Host(regions, bitmap.size, 0) == Host(regions, bitmap.size, host) < |regions|
        decreases |regions| - host
      {
        host := host + 1;
      }
      ghost var was := Bits();
      bitmap.Fill(true);
      ghost var freed := FreeUsable(regions);
      TakeSelf(regions, host, freed);
      InitBits(regions, bitmap.size, host, was, Bits());
      if bitmap.size >= 8 && forall r :: r in regions && r.usable ==> r.base > 0 {
        LowPageTaken(regions, bitmap.size, host);
      }
    }

    /** Frees the usable pages. `freed` is what the bitmap would hold had every bit been set before. */
    method FreeUsable(regions: seq<Region>) returns (ghost freed: seq<bool>)
      requires Valid() && WellFormed(regions) && totalUsable == 0
      requires bitmap.size == LastUsable(regions, |regions|) / PAGE
      modifies bitmap.buffer, `totalUsable
      ensures |freed| == bitmap.size && totalUsable == PAGE * ClearCount(freed)
      ensures forall p :: 0 <= p < bitmap.size ==> freed[p] == !UsablePage(regions, |regions|, p)
      ensures forall p :: 0 <= p < bitmap.size ==> Bits()[p] == (old(Bits()[p]) && freed[p])
    {
      ghost var was := Bits();
      freed := seq(bitmap.size, _ => true);
      ClearCountAllSet(freed);
      for e := 0 to |regions|
        invariant |freed| == bitmap.size && totalUsable == PAGE * ClearCount(freed)
        invariant forall p :: 0 <= p < bitmap.size ==> freed[p] == !UsablePage(regions, e, p)
        invariant forall p :: 0 <= p < bitmap.size ==> Bits()[p] == (was[p] && freed[p])
      {
        if regions[e].usable {
          var pageStart := regions[e].base / PAGE;
          var pageEnd := regions[e].base / PAGE + regions[e].length / PAGE;
          if regions[e].base % PAGE != 0 {
            pageStart := pageStart + 1;
          }
          if regions[e].length % PAGE != 0 {
            pageEnd := pageEnd - 1;
          }
          LastUsableBounds(regions, |regions|, e);
          forall p: nat
            ensures InRegion(regions[e], p) <==> pageStart <= p < pageEnd
            ensures pageStart <= p < pageEnd ==> !UsablePage(regions, e, p)
          {
            AlignedRegion(regions[e], p);
            forall j: nat | j < e
              ensures !(InRegion(regions[j], p) && InRegion(regions[e], p))
            {
              RegionsApart(regions, j, e, p);
            }
          }
          freed := FreeRange(pageStart, pageEnd, freed);
        }
        assert forall p: nat :: UsablePage(regions, e + 1, p) <==> UsablePage(regions, e, p) || InRegion(regions[e], p);
      }
    }

    /** The inner loop, for one region. */
    method FreeRange(from: nat, to: nat, ghost bits: seq<bool>) returns (ghost freed: seq<bool>)
      requires Valid() && from <= to <= bitmap.size == |bits| && totalUsable == PAGE * ClearCount(bits)
      requires forall p :: from <= p < to ==> bits[p]
      modifies bitmap.buffer, `totalUsable
      ensures freed == Cleared(bits, from, to - from) && Bits() == Cleared(old(Bits()), from, to - from)
      ensures totalUsable == PAGE * ClearCount(freed)
    {
      hide Cleared, ClearCount;
      ghost var was := Bits();
      freed := bits;
      assert Cleared(bits, from, 0) == bits && Cleared(was, from, 0) == was;
      for i := from to to
        invariant |freed| == bitmap.size && totalUsable == PAGE * ClearCount(freed)
        invariant freed == Cleared(bits, from, i - from) && Bits() == Cleared(was, from, i - from)
      {
        ClearCountSet(freed, i, false);
        ClearedStep(bits, from, i - from);
        ClearedStep(was, from, i - from);
        bitmap.Set(i, false);
        freed := freed[i := false];
        totalUsable := totalUsable + PAGE;
      }
    }

    /** Takes back the pages that hold the bitmap; `freed` follows. */
    method TakeSelf(regions: seq<Region>, host: nat, ghost freed: seq<bool>)
      requires Valid() && WellFormed(regions) && host < |regions| && Hosts(regions[host], bitmap.size)
      requires bitmap.size == LastUsable(regions, |regions|) / PAGE == |freed|
      requires totalUsable == PAGE * ClearCount(freed)
      requires forall p :: 0 <= p < bitmap.size ==> freed[p] == !UsablePage(regions, |regions|, p)
      modifies bitmap.buffer, `totalUsable
      ensures totalUsable == PAGE * ClearCount(Wanted(regions, bitmap.size, host))
      ensures forall p :: 0 <= p < bitmap.size ==>
              Bits()[p] == (old(Bits()[p]) || HoldsBitmap(regions, bitmap.size, host, p))
    {
      var first := regions[host].base / PAGE;
      var n := AlignUp(bitmap.size / 8) / PAGE;
      HostFits(regions, bitmap.size, host);
      hide UsablePage, LastUsable, Hosts, BitmapPages;
      ghost var left := TakeRange(first, first + n, freed);
      assert left == Wanted(regions, bitmap.size, host);
    }

    /** The loop of that. */
    method TakeRange(from: nat, to: nat, ghost bits: seq<bool>) returns (ghost left: seq<bool>)
      requires Valid() && from <= to <= bitmap.size == |bits| && totalUsable == PAGE * ClearCount(bits)
      requires forall p :: from <= p < to ==> !bits[p]
      modifies bitmap.buffer, `totalUsable
      ensures left == Taken(bits, from, to - from) && Bits() == Taken(old(Bits()), from, to - from)
      ensures totalUsable == PAGE * ClearCount(left)
    {
      hide Taken, ClearCount;
      ghost var was := Bits();
      left := bits;
      assert Taken(bits, from, 0) == bits && Taken(was, from, 0) == was;
      for i := from to to
        invariant |left| == bitmap.size && totalUsable == PAGE * ClearCount(left)
        invariant left == Taken(bits, from, i - from) && Bits() == Taken(was, from, i - from)
      {
        ClearCountSet(left, i, true);
        TakenStep(bits, from, i - from);
        TakenStep(was, from, i - from);
        bitmap.Set(i, true);
        left := left[i := true];
        totalUsable := totalUsable - PAGE;
      }
    }
  }

  /** Filling, freeing the usable pages and taking back those of the bitmap leave the bits wanted. */
  lemma InitBits(regions: seq<Region>, size: nat, host: nat, was: seq<bool>, bits: seq<bool>)
    requires WellFormed(regions) && host < |regions| && Hosts(regions[host], size) && size <= |was| == |bits|
    requires size == LastUsable(regions, |regions|) / PAGE
    requires forall p :: 0 <= p < size ==>
               bits[p] == (|| (Filled(was, size)[p] && !UsablePage(regions, |regions|, p))
                           || HoldsBitmap(regions, size, host, p))
    ensures forall p :: 0 <= p < size ==>
              bits[p] == if Missed(regions, size, p) then was[p] else Wanted(regions, size, host)[p]
  {
    hide UsablePage, LastUsable, Hosts, BitmapPages, WellFormed;
    HostFits(regions, size, host);
  }

  /** Where no usable region starts at address 0, page 0 is taken. */
  lemma LowPageTaken(regions: seq<Region>, size: nat, host: nat)
    requires host < |regions| && size >= 8 && forall r :: r in regions && r.usable ==> r.base > 0
    ensures Wanted(regions, size, host)[0] && !Missed(regions, size, 0)
  {
  }
}
