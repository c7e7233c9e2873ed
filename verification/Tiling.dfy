/** The shape of the kernel heap: headers in raw memory that cut `[0, tail)` into blocks.
    Offsets are relative to the first header. A header is a 64-bit size and a flag byte, padded to
    16 bytes. */
module Tiling {
  import opened Bytes
  import opened SizeClass

  const HEADER: nat := 16

  datatype Header = Header(size: nat, free: bool)

  /** Headers by offset. */
  type Blocks = map<nat, Header>

  /** What the bytes at `b` mean when read as a header. */
  function HeaderAt(m: seq<Byte>, b: nat): Header
    requires b + HEADER <= |m|
  {
    Header(Word(m, b), m[b + 8] != 0)
  }

  function PutSize(m: seq<Byte>, b: nat, size: nat): (r: seq<Byte>)
    requires b + HEADER <= |m|
    ensures |r| == |m|
  {
    PutWord(m, b, size)
  }

  function PutFree(m: seq<Byte>, b: nat, free: bool): (r: seq<Byte>)
    requires b + HEADER <= |m|
    ensures |r| == |m|
  {
    m[b + 8 := if free then 1 else 0]
  }

  /** Memory holds the headers of `h`. */
  ghost predicate Represents(m: seq<Byte>, h: Blocks) {
    forall b :: b in h ==> b + HEADER <= |m| && HeaderAt(m, b) == h[b]
  }

  /** `Block::next`: where the block after `b` starts. */
  function Next(h: Blocks, b: nat): nat
    requires b in h
  {
    b + Req(h[b].size)
  }

  /** The headers cut `[0, tail)` without gap or overlap: each block ends where another begins (or
      at the tail) and no header lies strictly inside another block. */
  ghost predicate Tiled(h: Blocks, tail: nat) {
    && tail < WORD_LIMIT
    && 0 in h
    && (forall b :: b in h ==> HEADER <= h[b].size)
    && (forall b {:trigger Next(h, b)} :: b in h ==> Next(h, b) <= tail && (Next(h, b) == tail || Next(h, b) in h))
    && (forall b, c {:trigger Next(h, b), c in h} :: b in h && c in h && b < c ==> Next(h, b) <= c)
  }

  lemma NextDef(h: Blocks, b: nat)
    requires b in h
    ensures Next(h, b) == b + Req(h[b].size)
  {
  }

  lemma TiledHead(h: Blocks, tail: nat)
    requires Tiled(h, tail)
    ensures 0 in h && tail < WORD_LIMIT
  {
  }

  lemma TiledFacts(h: Blocks, tail: nat)
    requires Tiled(h, tail)
    ensures forall b {:trigger Next(h, b)} :: b in h ==> b + h[b].size <= Next(h, b) <= tail
    ensures forall b :: b in h ==> b + HEADER <= tail
  {
    hide Req;
    forall b | b in h
      ensures b + h[b].size <= Next(h, b) <= tail
    {
      ReqIsLeastClass(h[b].size);
    }
  }

  /** The header at `b` overlaps no other header and lies inside its block. */
  lemma HeaderApart(h: Blocks, tail: nat, b: nat)
    requires Tiled(h, tail) && b in h
    ensures HEADER <= h[b].size && b + h[b].size <= Next(h, b) <= tail
    ensures forall c :: c in h && c != b ==> c + HEADER <= b || b + HEADER <= c
  {
    hide Req;
    TiledFacts(h, tail);
    forall c | c in h && c != b
      ensures c + HEADER <= b || b + HEADER <= c
    {
      assert c < b ==> Next(h, c) <= b;
      assert b < c ==> Next(h, b) <= c;
    }
  }

  /** The block after `b`, or the tail, comes next in address order. */
  lemma NextIsNext(h: Blocks, tail: nat, b: nat)
    requires Tiled(h, tail) && b in h
    ensures b + HEADER <= Next(h, b) <= tail
    ensures Next(h, b) == tail || (Next(h, b) in h && Next(h, b) + HEADER <= tail)
    ensures forall d :: d in h ==> d <= b || Next(h, b) <= d
  {
    hide Req;
    TiledFacts(h, tail);
    forall d | d in h
      ensures d <= b || Next(h, b) <= d
    {
      assert b < d ==> Next(h, b) <= d;
    }
  }

  /** One more block behind a tiled heap makes a longer one. */
  lemma AppendTiled(h: Blocks, tail: nat, x: Header)
    requires Tiled(h, tail) && HEADER <= x.size && tail + Req(x.size) < WORD_LIMIT
    ensures tail !in h && Tiled(h[tail := x], tail + Req(x.size)) && Next(h[tail := x], tail) == tail + Req(x.size)
    ensures forall b {:trigger Next(h[tail := x], b)} :: b in h ==> Next(h[tail := x], b) == Next(h, b)
  {
    hide Req;
    TiledFacts(h, tail);
    ReqIsLeastClass(x.size);
    var r := h[tail := x];
    forall b {:trigger Next(r, b)} | b in h
      ensures Next(r, b) == Next(h, b)
    {
      assert r[b] == h[b];
    }
  }

  lemma OneTiled(x: Header)
    requires HEADER <= x.size && Req(x.size) < WORD_LIMIT
    ensures Tiled(map[0 := x], Req(x.size)) && Next(map[0 := x], 0) == Req(x.size)
  {
  }

  // ---------- following `next` from the first header ----------

  /** The headers met in memory by following `next` from `b` until the tail is reached or passed. */
  ghost function Walk(m: seq<Byte>, b: nat, tail: nat): seq<nat>
    requires tail <= |m|
    decreases tail - b
  {
    if b + HEADER > tail then []
    else
      var n := b + Req(HeaderAt(m, b).size);
      ReqIsLeastClass(HeaderAt(m, b).size);
      [b] + Walk(m, n, tail)
  }

  /** Where that walk stops. */
  ghost function WalkEnd(m: seq<Byte>, b: nat, tail: nat): nat
    requires tail <= |m|
    decreases tail - b
  {
    if b + HEADER > tail then b
    else
      ReqIsLeastClass(HeaderAt(m, b).size);
      WalkEnd(m, b + Req(HeaderAt(m, b).size), tail)
  }

  /** The sum of the extents of the blocks on a walk. */
  ghost function Extents(m: seq<Byte>, walk: seq<nat>): nat
    requires forall i :: 0 <= i < |walk| ==> walk[i] + HEADER <= |m|
  {
    if walk == [] then 0 else Req(HeaderAt(m, walk[0]).size) + Extents(m, walk[1..])
  }

  lemma WalkStep(m: seq<Byte>, b: nat, tail: nat, n: nat)
    requires b + HEADER <= tail <= |m| && n == b + Req(HeaderAt(m, b).size)
    ensures Walk(m, b, tail) == [b] + Walk(m, n, tail) && WalkEnd(m, b, tail) == WalkEnd(m, n, tail)
  {
    hide Req, HeaderAt;
  }

  lemma HeaderThere(m: seq<Byte>, h: Blocks, b: nat)
    requires Represents(m, h) && b in h
    ensures b + HEADER <= |m| && HeaderAt(m, b) == h[b]
  {
    hide HeaderAt;
  }

  lemma {:induction false} WalkFrom(m: seq<Byte>, h: Blocks, tail: nat, b: nat)
    requires Tiled(h, tail) && Represents(m, h) && tail <= |m|
    requires b in h || b == tail
    ensures WalkEnd(m, b, tail) == tail
    ensures forall c :: c in Walk(m, b, tail) <==> c in h && b <= c
    decreases tail - b
  {
    if b in h {
      hide Req, Word, Tiled, Represents, HeaderAt, Next, Walk, WalkEnd;
      var n := Next(h, b);
      NextIsNext(h, tail, b);
      NextDef(h, b);
      HeaderThere(m, h, b);
      WalkStep(m, b, tail, n);
      WalkFrom(m, h, tail, n);
    } else {
      hide Req, Word, Next;
      TiledFacts(h, tail);
      assert Walk(m, b, tail) == [];
    }
  }

  lemma {:induction false} WalkExtents(m: seq<Byte>, h: Blocks, tail: nat, b: nat)
    requires Tiled(h, tail) && Represents(m, h) && tail <= |m|
    requires b in h || b == tail
    ensures forall i :: 0 <= i < |Walk(m, b, tail)| ==> Walk(m, b, tail)[i] + HEADER <= |m|
    ensures Extents(m, Walk(m, b, tail)) == tail - b
    decreases tail - b
  {
    if b in h {
      hide Req, Word, Tiled, Represents, HeaderAt, Next, Walk;
      var n := Next(h, b);
      NextIsNext(h, tail, b);
      NextDef(h, b);
      HeaderThere(m, h, b);
      WalkStep(m, b, tail, n);
      WalkExtents(m, h, tail, n);
      assert Walk(m, b, tail)[1..] == Walk(m, n, tail);
    } else {
      assert Walk(m, b, tail) == [];
    }
  }

  /** On a tiled heap the walk from the first header reaches the tail exactly, visits exactly the
      blocks, and their extents add up to the heap. */
  lemma WalkVisitsBlocks(m: seq<Byte>, h: Blocks, tail: nat)
    requires Tiled(h, tail) && Represents(m, h) && tail <= |m|
    ensures WalkEnd(m, 0, tail) == tail
    ensures forall c :: c in Walk(m, 0, tail) <==> c in h
    ensures forall i :: 0 <= i < |Walk(m, 0, tail)| ==> Walk(m, 0, tail)[i] + HEADER <= |m|
    ensures Extents(m, Walk(m, 0, tail)) == tail
  {
    hide Req, Word, Walk, WalkEnd, Represents, Extents;
    WalkFrom(m, h, tail, 0);
    WalkExtents(m, h, tail, 0);
  }

  // ---------- the header edits of the allocator ----------

  /** `block->size *= 2` where `c` is the block after `b`: `c` stops being a block. */
  ghost function Merge(h: Blocks, b: nat, c: nat): Blocks
    requires b in h
  {
    (h - {c})[b := h[b].(size := 2 * h[b].size)]
  }

  lemma MergeTiled(h: Blocks, tail: nat, b: nat, c: nat)
    requires Tiled(h, tail) && b in h && c in h
    requires c == Next(h, b) && h[b].size == h[c].size
    ensures 2 * h[b].size < WORD_LIMIT
    ensures Tiled(Merge(h, b, c), tail)
    ensures Next(Merge(h, b, c), b) == Next(h, c)
    ensures forall d {:trigger Next(Merge(h, b, c), d)} :: d in h && d != b && d != c ==>
              Next(Merge(h, b, c), d) == Next(h, d)
    ensures |Merge(h, b, c)| < |h|
  {
    hide Req, IsClass;
    var r := Merge(h, b, c);
    var n := Next(h, c);
    assert c < n && b < c && 2 * h[b].size < WORD_LIMIT by {
      ReqIsLeastClass(h[b].size);
    }
    ReqDoubles(h[b].size);
    forall d | d in h && d != b && d != c
      ensures d < b || n <= d
    {
      assert b < d ==> Next(h, b) <= d;
      assert c < d ==> Next(h, c) <= d;
    }
    assert r.Keys == h.Keys - {c};
    assert Next(r, b) == n;
    forall d {:trigger Next(r, d)} | d in h && d != b && d != c
      ensures Next(r, d) == Next(h, d) && Next(h, d) != c
    {
      assert r[d] == h[d];
      assert d < b ==> Next(h, d) <= b;
    }
    forall d {:trigger Next(r, d)} | d in r
      ensures Next(r, d) <= tail && (Next(r, d) == tail || Next(r, d) in r)
    {
      assert d != b ==> Next(r, d) == Next(h, d);
    }
    forall d, e {:trigger Next(r, d), e in r} | d in r && e in r && d < e
      ensures Next(r, d) <= e
    {
      assert d != b ==> Next(r, d) == Next(h, d);
    }
  }

  /** One step of `split_until`: `b` is halved and a free header is written in its middle. */
  ghost function Split(h: Blocks, b: nat, half: nat): Blocks
    requires b in h
  {
    h[b := h[b].(size := half)][b + half := Header(half, true)]
  }

  lemma SplitTiled(h: Blocks, tail: nat, b: nat, half: nat)
    requires Tiled(h, tail) && b in h
    requires IsClass(half) && Req(h[b].size) == 2 * half
    ensures b + half !in h && b + half + HEADER <= tail
    ensures Tiled(Split(h, b, half), tail)
    ensures Next(Split(h, b, half), b) == b + half
    ensures forall d :: d in h && d != b ==> d + HEADER <= b || b + half + HEADER <= d
  {
    hide Req, IsClass;
    HeaderApart(h, tail, b);
    ClassAtLeast(half);
    ReqOfClass(half);
    var r := Split(h, b, half);
    var n := Next(h, b);
    assert n == b + 2 * half;
    forall d | d in h && d != b
      ensures d + HEADER <= b || n <= d
    {
      assert b < d ==> Next(h, b) <= d;
    }
    assert r.Keys == h.Keys + {b + half};
    assert Next(r, b) == b + half && Next(r, b + half) == n;
    forall d {:trigger Next(r, d)} | d in h && d != b
      ensures Next(r, d) == Next(h, d)
    {
      assert r[d] == h[d];
    }
    forall d {:trigger Next(r, d)} | d in r
      ensures Next(r, d) <= tail && (Next(r, d) == tail || Next(r, d) in r)
    {
      if d != b && d != b + half {
        assert Next(r, d) == Next(h, d);
      }
    }
    forall d, e {:trigger Next(r, d), e in r} | d in r && e in r && d < e
      ensures Next(r, d) <= e
    {
      if d != b && d != b + half {
        assert Next(r, d) == Next(h, d);
        assert e == b + half ==> Next(h, d) <= b;
      }
    }
  }

  /** From `h` to `r` block `b` was halved until its last part, at `found`, has the extent `size`: each part
      split off is half of what lay from it to the end of the block, and no other block changed. */
  ghost predicate Halved(h: Blocks, r: Blocks, b: nat, size: nat, found: nat)
    requires b in h
  {
    && b <= found && found + size == Next(h, b) && found in r
    && (forall d: nat {:trigger d in r} {:trigger d in h} :: d < b || Next(h, b) <= d ==>
          (d in r <==> d in h) && (d in r ==> r[d] == h[d]))
    && (forall d {:trigger d in r} :: d in r && b <= d < found ==> r[d].free && d + 2 * r[d].size == Next(h, b))
    && (forall d {:trigger d in r} :: d in r && found < d ==> Next(h, b) <= d)
  }

  lemma HalvedNone(h: Blocks, tail: nat, b: nat)
    requires Tiled(h, tail) && b in h
    ensures Halved(h, h, b, Req(h[b].size), b)
  {
    hide Req;
  }

  /** One more step of `split_until`. */
  lemma HalvedMore(h: Blocks, r: Blocks, b: nat, size: nat, found: nat, half: nat)
    requires b in h && Halved(h, r, b, size, found) && size == 2 * half > 0 && r[found].free
    ensures Halved(h, Split(r, found, half), b, half, found + half)
  {
    hide Req;
  }

  /** Rewriting the size of `b` within its class, or its flag, moves no block boundary. */
  lemma RewriteTiled(h: Blocks, tail: nat, b: nat, r: Header)
    requires Tiled(h, tail) && b in h
    requires HEADER <= r.size && Req(r.size) == Req(h[b].size)
    ensures Tiled(h[b := r], tail)
    ensures forall c {:trigger Next(h[b := r], c)} :: c in h ==> Next(h[b := r], c) == Next(h, c)
  {
    hide Req;
    assert forall c {:trigger Next(h[b := r], c)} :: c in h ==> Next(h[b := r], c) == Next(h, c);
  }

  /** Edits confined to the header at `b` leave every header 16 bytes away or more alone. */
  lemma EditElsewhere(m: seq<Byte>, r: seq<Byte>, h: Blocks, b: nat)
    requires Represents(m, h) && |r| == |m|
    requires forall i :: 0 <= i < |m| && !(b <= i < b + HEADER) ==> r[i] == m[i]
    requires forall c :: c in h ==> c + HEADER <= b || b + HEADER <= c
    ensures Represents(r, h)
  {
    forall c | c in h
      ensures HeaderAt(r, c) == h[c]
    {
      assert HeaderAt(m, c) == h[c];
      assert r[c..c + 8] == m[c..c + 8];
    }
  }

  /** Storing a size changes that size alone. */
  lemma PutSizeRepresents(m: seq<Byte>, h: Blocks, b: nat, size: nat)
    requires Represents(m, h) && b in h && size < WORD_LIMIT
    requires forall c :: c in h && c != b ==> c + HEADER <= b || b + HEADER <= c
    ensures Represents(PutSize(m, b, size), h[b := h[b].(size := size)])
    ensures forall i :: 0 <= i < |m| && !(b <= i < b + 8) ==> PutSize(m, b, size)[i] == m[i]
  {
    var r := PutSize(m, b, size);
    PutWordEffect(m, b, size);
    EditElsewhere(m, r, h - {b}, b);
    assert HeaderAt(m, b) == h[b];
    assert HeaderAt(r, b) == h[b].(size := size);
    forall c | c in h[b := h[b].(size := size)]
      ensures c + HEADER <= |r| && HeaderAt(r, c) == h[b := h[b].(size := size)][c]
    {
      assert c != b ==> c in h - {b};
    }
  }

  /** Storing the flag changes that flag alone. */
  lemma PutFreeRepresents(m: seq<Byte>, h: Blocks, b: nat, free: bool)
    requires Represents(m, h) && b in h
    requires forall c :: c in h && c != b ==> c + HEADER <= b || b + HEADER <= c
    ensures Represents(PutFree(m, b, free), h[b := h[b].(free := free)])
    ensures forall i :: 0 <= i < |m| && i != b + 8 ==> PutFree(m, b, free)[i] == m[i]
  {
    var r := PutFree(m, b, free);
    EditElsewhere(m, r, h - {b}, b);
    assert HeaderAt(m, b) == h[b];
    assert r[b..b + 8] == m[b..b + 8];
    forall c | c in h[b := h[b].(free := free)]
      ensures c + HEADER <= |r| && HeaderAt(r, c) == h[b := h[b].(free := free)][c]
    {
      assert c != b ==> c in h - {b};
    }
  }

  /** Whatever bytes lie at `b` can be taken as its header. */
  lemma AdoptHeader(m: seq<Byte>, h: Blocks, b: nat)
    requires Represents(m, h) && b + HEADER <= |m|
    ensures Represents(m, h[b := HeaderAt(m, b)])
  {
  }

  /** What one step of `split_until` stores. */
  ghost function SplitBytes(m: seq<Byte>, b: nat, half: nat): (r: seq<Byte>)
    requires b + half + HEADER <= |m|
    ensures |r| == |m|
  {
    PutFree(PutSize(PutSize(m, b, half), b + half, half), b + half, true)
  }

  lemma SplitRepresents(m: seq<Byte>, h: Blocks, tail: nat, b: nat, half: nat)
    requires Tiled(h, tail) && Represents(m, h) && b in h && tail == |m|
    requires IsClass(half) && Req(h[b].size) == 2 * half
    ensures b + half + HEADER <= tail
    ensures Represents(SplitBytes(m, b, half), Split(h, b, half))
    ensures forall i :: 0 <= i < |m| && !(b <= i < Next(h, b)) ==> SplitBytes(m, b, half)[i] == m[i]
  {
    hide Req, Word, IsClass, PutSize, PutFree, HeaderAt, Represents, Tiled;
    var c := b + half;
    SplitTiled(h, tail, b, half);
    HeaderApart(h, tail, b);
    TiledHead(h, tail);
    ClassAtLeast(half);
    PutSizeRepresents(m, h, b, half);
    var m1, h1 := PutSize(m, b, half), h[b := h[b].(size := half)];
    AdoptHeader(m1, h1, c);
    var h2 := h1[c := HeaderAt(m1, c)];
    PutSizeRepresents(m1, h2, c, half);
    var m3, h3 := PutSize(m1, c, half), h2[c := h2[c].(size := half)];
    PutFreeRepresents(m3, h3, c, true);
    assert h3[c := h3[c].(free := true)] == Split(h, b, half);
  }
}
