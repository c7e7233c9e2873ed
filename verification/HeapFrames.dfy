/** Frames of the kernel heap's header edits: which blocks keep their header and their bytes. */
module HeapFrames {
  import opened Bytes
  import opened SizeClass
  import opened Tiling

  /** Requests stay below half the address space, so no size computation wraps around. */
  const REQUEST_LIMIT: nat := 0x8000_0000_0000_0000

  ghost function Used(h: Blocks): set<nat> {
    set b | b in h && !h[b].free
  }

  /** The blocks `ks` are blocks in both states with the same header and the same bytes. */
  ghost predicate Kept(m: seq<Byte>, h: Blocks, m': seq<Byte>, h': Blocks, ks: set<nat>) {
    && |m'| == |m|
    && (forall b :: b in ks ==> b in h && b in h' && h'[b] == h[b])
    && (forall b, i {:trigger b in ks, m'[i]} :: b in ks && b <= i < Next(h, b) && i < |m| ==> m'[i] == m[i])
  }

  /** Only free memory changed. */
  ghost predicate Quiet(m: seq<Byte>, h: Blocks, m': seq<Byte>, h': Blocks) {
    Kept(m, h, m', h', Used(h)) && Used(h') == Used(h)
  }

  lemma QuietTrans(m0: seq<Byte>, h0: Blocks, m1: seq<Byte>, h1: Blocks, m2: seq<Byte>, h2: Blocks)
    requires Quiet(m0, h0, m1, h1) && Quiet(m1, h1, m2, h2)
    ensures Quiet(m0, h0, m2, h2)
  {
    hide Kept;
    KeptTrans(m0, h0, m1, h1, m2, h2, Used(h0));
  }

  lemma QuietRefl(m: seq<Byte>, h: Blocks)
    ensures Quiet(m, h, m, h)
  {
  }

  /** Headers of free blocks may change freely. */
  lemma SameUsedQuiet(m: seq<Byte>, h: Blocks, r: seq<Byte>, h': Blocks)
    requires Kept(m, h, r, h, Used(h))
    requires forall d :: d in h && !h[d].free ==> d in h' && h'[d] == h[d]
    requires forall d :: d in h' && !h'[d].free ==> d in h && !h[d].free
    ensures Quiet(m, h, r, h')
  {
    hide Req;
    assert Used(h') == Used(h);
  }

  /** Merging two free blocks touches only free memory. */
  lemma MergeQuiet(m: seq<Byte>, h: Blocks, tail: nat, b: nat, c: nat)
    requires Tiled(h, tail) && Represents(m, h) && tail == |m|
    requires b in h && c in h && c == Next(h, b) && h[b].size == h[c].size
    requires h[b].free && h[c].free
    ensures 2 * h[b].size < WORD_LIMIT
    ensures Represents(PutSize(m, b, 2 * h[b].size), Merge(h, b, c))
    ensures Quiet(m, h, PutSize(m, b, 2 * h[b].size), Merge(h, b, c))
    ensures HeaderAt(PutSize(m, b, 2 * h[b].size), c) == h[c]
  {
    hide Req, Word, PutSize, HeaderAt, Tiled, Kept, Next;
    MergeTiled(h, tail, b, c);
    HeaderApart(h, tail, b);
    PutSizeRepresents(m, h, b, 2 * h[b].size);
    var r := PutSize(m, b, 2 * h[b].size);
    FreeEditKept(m, h, tail, r, b);
    var h' := h[b := h[b].(size := 2 * h[b].size)];
    assert c in h' && h'[c] == h[c];
    assert forall d :: d in Merge(h, b, c) ==> d in h' && h'[d] == Merge(h, b, c)[d];
    SameUsedQuiet(m, h, r, Merge(h, b, c));
  }

  /** So does splitting a free block. */
  lemma SplitQuiet(m: seq<Byte>, h: Blocks, tail: nat, b: nat, half: nat)
    requires Tiled(h, tail) && Represents(m, h) && tail == |m|
    requires b in h && h[b].free && IsClass(half) && Req(h[b].size) == 2 * half
    ensures b + half + HEADER <= tail
    ensures Represents(SplitBytes(m, b, half), Split(h, b, half))
    ensures Quiet(m, h, SplitBytes(m, b, half), Split(h, b, half))
  {
    hide Req, Word, IsClass, SplitBytes, HeaderAt, Tiled, Kept, Next, Represents;
    SplitTiled(h, tail, b, half);
    SplitRepresents(m, h, tail, b, half);
    FreeEditKept(m, h, tail, SplitBytes(m, b, half), b);
    SameUsedQuiet(m, h, SplitBytes(m, b, half), Split(h, b, half));
  }

  /** An edit inside a free block keeps every used one. */
  lemma FreeEditKept(m: seq<Byte>, h: Blocks, tail: nat, r: seq<Byte>, b: nat)
    requires Tiled(h, tail) && tail == |m| == |r|
    requires b in h && h[b].free
    requires forall i :: 0 <= i < |m| && !(b <= i < Next(h, b)) ==> r[i] == m[i]
    ensures Kept(m, h, r, h, Used(h))
  {
    hide Req;
    forall d, i {:trigger d in Used(h), r[i]} | d in Used(h) && d <= i < Next(h, d) && i < |m|
      ensures r[i] == m[i]
    {
      assert d < b ==> Next(h, d) <= b;
      assert b < d ==> Next(h, b) <= d;
    }
  }

  /** Taking a free block for a request of its class touches no used block. */
  lemma ClaimKept(m: seq<Byte>, h: Blocks, tail: nat, b: nat, size: nat)
    requires Tiled(h, tail) && Represents(m, h) && tail == |m|
    requires b in h && h[b].free && b + HEADER <= |m|
    requires size + HEADER <= REQUEST_LIMIT && Req(h[b].size) == Req(size + HEADER)
    ensures var r := PutFree(PutSize(m, b, size + HEADER), b, false);
            var h' := h[b := Header(size + HEADER, false)];
            && Tiled(h', tail) && Represents(r, h')
            && Kept(m, h, r, h', Used(h))
  {
    hide Req, Word, PutSize, PutFree, HeaderAt;
    HeaderApart(h, tail, b);
    PutSizeRepresents(m, h, b, size + HEADER);
    var m1, h1 := PutSize(m, b, size + HEADER), h[b := h[b].(size := size + HEADER)];
    PutFreeRepresents(m1, h1, b, false);
    var h' := h[b := Header(size + HEADER, false)];
    assert h1[b := h1[b].(free := false)] == h';
    RewriteTiled(h, tail, b, Header(size + HEADER, false));
    FreeEditKept(m, h, tail, PutFree(m1, b, false), b);
  }

  /** An edit inside one block keeps every other used block. */
  lemma BlockEditKept(m: seq<Byte>, h: Blocks, tail: nat, r: seq<Byte>, b: nat)
    requires Tiled(h, tail) && tail == |m| == |r|
    requires b in h
    requires forall i :: 0 <= i < |m| && !(b <= i < Next(h, b)) ==> r[i] == m[i]
    ensures Kept(m, h, r, h, Used(h) - {b})
  {
    hide Req;
    forall d, i {:trigger d in Used(h), r[i]} | d in Used(h) - {b} && d <= i < Next(h, d) && i < |m|
      ensures r[i] == m[i]
    {
      assert d < b ==> Next(h, d) <= b;
      assert b < d ==> Next(h, b) <= d;
    }
  }

  /** Releasing a block touches no other used block. */
  lemma ReleaseKept(m: seq<Byte>, h: Blocks, tail: nat, b: nat)
    requires Tiled(h, tail) && Represents(m, h) && tail == |m|
    requires b in h && b + HEADER <= |m|
    ensures Req(h[b].size) < WORD_LIMIT
    ensures var r := PutFree(PutSize(m, b, Req(h[b].size)), b, true);
            var h' := h[b := Header(Req(h[b].size), true)];
            && Tiled(h', tail) && Represents(r, h')
            && Kept(m, h, r, h', Used(h) - {b})
  {
    hide Req, Word, PutSize, PutFree, HeaderAt, IsClass;
    var size := Req(h[b].size);
    HeaderApart(h, tail, b);
    TiledHead(h, tail);
    ReqIsLeastClass(h[b].size);
    ReqOfClass(size);
    PutSizeRepresents(m, h, b, size);
    var m1, h1 := PutSize(m, b, size), h[b := h[b].(size := size)];
    PutFreeRepresents(m1, h1, b, true);
    var h' := h[b := Header(size, true)];
    assert h1[b := h1[b].(free := true)] == h';
    RewriteTiled(h, tail, b, Header(size, true));
    BlockEditKept(m, h, tail, PutFree(m1, b, true), b);
  }

  lemma KeptTrans(m0: seq<Byte>, h0: Blocks, m1: seq<Byte>, h1: Blocks, m2: seq<Byte>, h2: Blocks, ks: set<nat>)
    requires Kept(m0, h0, m1, h1, ks) && Kept(m1, h1, m2, h2, ks)
    ensures Kept(m0, h0, m2, h2, ks)
  {
    hide Req;
    forall b, i {:trigger b in ks, m2[i]} | b in ks && b <= i < Next(h0, b) && i < |m0|
      ensures m2[i] == m0[i]
    {
      assert Next(h1, b) == Next(h0, b);
      assert m1[i] == m0[i];
    }
  }

  lemma KeptRefl(m: seq<Byte>, h: Blocks, ks: set<nat>)
    requires forall b :: b in ks ==> b in h
    ensures Kept(m, h, m, h, ks)
  {
  }

  /** The `n` payload bytes at `p` are those at `q` in the other memory. */
  ghost predicate SamePayload(m: seq<Byte>, p: int, m': seq<Byte>, q: int, n: int) {
    && 0 <= p && 0 <= q && 0 <= n && p + n <= |m| && q + n <= |m'|
    && m'[q..q + n] == m[p..p + n]
  }

  lemma SamePayloadTrans(m0: seq<Byte>, m1: seq<Byte>, m2: seq<Byte>, p: int, q: int, n: int)
    requires SamePayload(m0, p, m1, p, n) && SamePayload(m1, p, m2, q, n)
    ensures SamePayload(m0, p, m2, q, n)
  {
  }

  lemma KeptSubset(m: seq<Byte>, h: Blocks, m': seq<Byte>, h': Blocks, ks: set<nat>, js: set<nat>)
    requires Kept(m, h, m', h', ks) && js <= ks
    ensures Kept(m, h, m', h', js)
  {
  }

  /** A kept block keeps its payload. */
  lemma KeptPayload(m: seq<Byte>, h: Blocks, tail: nat, m': seq<Byte>, h': Blocks, ks: set<nat>, b: nat)
    requires Tiled(h, tail) && tail == |m| && Kept(m, h, m', h', ks) && b in ks
    ensures SamePayload(m, b + HEADER, m', b + HEADER, h[b].size - HEADER)
  {
    hide Req;
    HeaderApart(h, tail, b);
    assert forall i {:trigger m'[i]} :: b <= i < Next(h, b) ==> m'[i] == m[i];
  }

  lemma QuietKept(m: seq<Byte>, h: Blocks, tail: nat, m': seq<Byte>, h': Blocks, b: nat)
    requires Tiled(h, tail) && tail == |m| && Quiet(m, h, m', h') && b in Used(h)
    ensures Used(h') == Used(h) && h'[b] == h[b]
    ensures Kept(m, h, m', h', Used(h) - {b})
    ensures SamePayload(m, b + HEADER, m', b + HEADER, h[b].size - HEADER)
  {
    hide Req, Tiled;
    KeptSubset(m, h, m', h', Used(h), Used(h) - {b});
    KeptPayload(m, h, tail, m', h', Used(h), b);
  }

  /** Writing inside the payload of one block keeps every header and every other used block. */
  lemma PayloadEdit(m: seq<Byte>, h: Blocks, tail: nat, r: seq<Byte>, b: nat)
    requires Tiled(h, tail) && Represents(m, h) && tail == |m| == |r| && b in h
    requires forall i :: 0 <= i < |m| && !(b + HEADER <= i < Next(h, b)) ==> r[i] == m[i]
    ensures Represents(r, h)
    ensures Kept(m, h, r, h, Used(h) - {b})
  {
    hide Req, Kept;
    BlockEditKept(m, h, tail, r, b);
    TiledFacts(h, tail);
    forall c | c in h
      ensures c + HEADER <= |r| && HeaderAt(r, c) == h[c]
    {
      assert HeaderAt(m, c) == h[c];
      NextIsNext(h, tail, c);
      assert b < c ==> Next(h, b) <= c;
      assert forall i :: c <= i < c + HEADER ==> r[i] == m[i];
      assert r[c..c + 8] == m[c..c + 8];
    }
  }

  lemma FlagEdit(m: seq<Byte>, h: Blocks, tail: nat, b: nat, free: bool)
    requires Tiled(h, tail) && Represents(m, h) && tail == |m| && b in h && b + HEADER <= |m|
    ensures var r := PutFree(m, b, free);
            var h' := h[b := h[b].(free := free)];
            && Tiled(h', tail) && Represents(r, h')
            && Kept(m, h, r, h', Used(h) - {b})
            && forall i :: 0 <= i < |m| && i != b + 8 ==> r[i] == m[i]
  {
    hide Req, Word, PutFree, HeaderAt;
    HeaderApart(h, tail, b);
    PutFreeRepresents(m, h, b, free);
    RewriteTiled(h, tail, b, h[b].(free := free));
    BlockEditKept(m, h, tail, PutFree(m, b, free), b);
  }

  /** Filling the payload of `b` and then freeing `block` touches no third block. */
  lemma MoveKept(m: seq<Byte>, h: Blocks, tail: nat, r: seq<Byte>, block: nat, b: nat, n: nat)
    requires Tiled(h, tail) && Represents(m, h) && tail == |m| == |r| && b in h && block in h && b != block
    requires block + HEADER <= tail && b + HEADER + n <= Next(h, b) <= tail
    requires forall i :: 0 <= i < |m| && !(b + HEADER <= i < b + HEADER + n) ==> r[i] == m[i]
    ensures var r' := PutFree(r, block, true);
            var h' := h[block := h[block].(free := true)];
            && Tiled(h', tail) && Represents(r', h')
            && Kept(m, h, r', h', Used(h) - {b, block})
            && r'[b + HEADER..b + HEADER + n] == r[b + HEADER..b + HEADER + n]
  {
    hide Req, Word, PutFree, HeaderAt, Kept, Represents;
    PayloadEdit(m, h, tail, r, b);
    FlagEdit(r, h, tail, block, true);
    NextIsNext(h, tail, block);
    NextIsNext(h, tail, b);
    var r' := PutFree(r, block, true);
    var h' := h[block := h[block].(free := true)];
    KeptSubset(m, h, r, h, Used(h) - {b}, Used(h) - {b, block});
    KeptSubset(r, h, r', h', Used(h) - {block}, Used(h) - {b, block});
    KeptTrans(m, h, r, h, r', h', Used(h) - {b, block});
  }
}
