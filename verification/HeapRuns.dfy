/** Whole runs of the heap: to its clients it is a store of separate byte arrays. An allocation is
    named by the offset of its block; the pointer the client holds is 16 bytes further on. */
module HeapRuns {
  import opened Wrappers
  import opened Bytes
  import opened SizeClass
  import opened Tiling
  import opened SearchWalk
  import opened HeapFrames
  import opened BuddyAlloc

  datatype Op =
    | Malloc(size: nat)
    | Free(b: nat)
    | Realloc(b: nat, size: nat)
    | Store(b: nat, i: nat, v: Byte)

  datatype Event = Event(op: Op, result: Option<nat>)

  /** What the client knows: for each allocation it holds, the bytes it has written so far. */
  type Shadow = map<nat, seq<Option<Byte>>>

  function Unknown(n: nat): (s: seq<Option<Byte>>)
    ensures |s| == n && forall i :: 0 <= i < n ==> s[i] == None
  {
    seq(n, _ => None)
  }

  function Resize(s: seq<Option<Byte>>, n: nat): (r: seq<Option<Byte>>)
    ensures |r| == n
  {
    if n <= |s| then s[..n] else s + Unknown(n - |s|)
  }

  /** What a client may ask for: allocations it holds, requests below the limit, and no shrinking
      across size classes. */
  predicate Legal(s: Shadow, op: Op) {
    match op
    case Malloc(n) => n + HEADER <= REQUEST_LIMIT
    case Free(b) => b in s
    case Realloc(b, n) => b in s && n + HEADER <= REQUEST_LIMIT && (n > 0 ==> Req(|s[b]| + HEADER) <= Req(n + HEADER))
    case Store(b, i, _) => b in s && i < |s[b]|
  }

  /** The flat store after an event. */
  function After(s: Shadow, e: Event): Shadow
    requires Legal(s, e.op)
  {
    match e.op
    case Malloc(n) => if e.result.Some? then s[e.result.value := Unknown(n)] else s
    case Free(b) => s - {b}
    case Realloc(b, n) =>
      if n == 0 then s - {b}
      else if e.result.Some? then (s - {b})[e.result.value := Resize(s[b], n)]
      else s
    case Store(b, i, v) => s[b := s[b][i := Some(v)]]
  }

  /** A block given out is not one already held, except that `realloc` may return its own. */
  predicate Fresh(s: Shadow, e: Event) {
    e.result.Some? && !(e.op.Realloc? && e.result.value == e.op.b) ==> e.result.value !in s
  }

  /** Only legal operations were made, each answered with a fresh block. */
  predicate LegalRun(s: Shadow, trace: seq<Event>)
    decreases |trace|
  {
    trace == [] || (Legal(s, trace[0].op) && Fresh(s, trace[0]) && LegalRun(After(s, trace[0]), trace[1..]))
  }

  function Replay(s: Shadow, trace: seq<Event>): Shadow
    requires LegalRun(s, trace)
    decreases |trace|
  {
    if trace == [] then s else Replay(After(s, trace[0]), trace[1..])
  }

  lemma {:induction false} ReplayAppend(s: Shadow, trace: seq<Event>, e: Event)
    requires LegalRun(s, trace) && Legal(Replay(s, trace), e.op) && Fresh(Replay(s, trace), e)
    ensures LegalRun(s, trace + [e])
    ensures Replay(s, trace + [e]) == After(Replay(s, trace), e)
    decreases |trace|
  {
    hide Legal, After, Fresh;
    if trace == [] {
      assert trace + [e] == [e];
    } else {
      ReplayAppend(After(s, trace[0]), trace[1..], e);
      assert (trace + [e])[1..] == trace[1..] + [e];
    }
  }

  /** The run carries out `ops` in order, skipping exactly those the client may not ask for. */
  predicate Follows(s: Shadow, ops: seq<Op>, trace: seq<Event>)
    requires LegalRun(s, trace)
    decreases |ops|
  {
    if ops == [] then trace == []
    else if Legal(s, ops[0]) then
      trace != [] && trace[0].op == ops[0] && Follows(After(s, trace[0]), ops[1..], trace[1..])
    else Follows(s, ops[1..], trace)
  }

  lemma {:induction false} FollowsAppend(s: Shadow, ops: seq<Op>, trace: seq<Event>, op: Op, next: seq<Event>)
    requires LegalRun(s, trace) && Follows(s, ops, trace) && LegalRun(s, trace + next)
    requires if Legal(Replay(s, trace), op) then |next| == 1 && next[0].op == op else next == []
    ensures Follows(s, ops + [op], trace + next)
    decreases |ops|
  {
    hide Legal, After, Fresh;
    if ops == [] {
      assert ops + [op] == [op] && trace + next == next;
    } else {
      assert (ops + [op])[1..] == ops[1..] + [op];
      if Legal(s, ops[0]) {
        assert (trace + next)[1..] == trace[1..] + next;
        FollowsAppend(After(s, trace[0]), ops[1..], trace[1..], op, next);
      } else {
        FollowsAppend(s, ops[1..], trace, op, next);
      }
    }
  }

  /** The heap holds exactly the client's allocations, each with the bytes written to it. */
  ghost predicate Agrees(m: seq<Byte>, h: Blocks, s: Shadow) {
    && s.Keys == Used(h)
    && (forall b :: b in s ==> AgreesAt(m, b, h[b], s[b]))
  }

  ghost predicate AgreesAt(m: seq<Byte>, b: nat, h: Header, s: seq<Option<Byte>>) {
    && 0 < |s| && h == Header(|s| + HEADER, false) && b + HEADER + |s| <= |m|
    && forall i :: 0 <= i < |s| && s[i].Some? ==> m[b + HEADER + i] == s[i].value
  }

  lemma AgreesFits(m: seq<Byte>, b: nat, h: Header, s: seq<Option<Byte>>)
    requires AgreesAt(m, b, h, s)
    ensures 0 < |s| && h == Header(|s| + HEADER, false) && b + HEADER + |s| <= |m|
  {
  }

  /** Blocks the heap kept still agree. */
  lemma AgreesKept(m: seq<Byte>, h: Blocks, tail: nat, m': seq<Byte>, h': Blocks, ks: set<nat>, s: Shadow)
    requires Tiled(h, tail) && tail == |m| && Kept(m, h, m', h', ks)
    requires forall b :: b in s ==> b in ks && AgreesAt(m, b, h[b], s[b])
    ensures forall b :: b in s ==> b in h' && AgreesAt(m', b, h'[b], s[b])
  {
    hide Req, Tiled;
    forall b | b in s
      ensures AgreesAt(m', b, h'[b], s[b])
    {
      var n, p := |s[b]|, b + HEADER;
      KeptPayload(m, h, tail, m', h', ks, b);
      forall i | 0 <= i < n && s[b][i].Some?
        ensures m'[p + i] == s[b][i].value
      {
        assert m'[p + i] == m'[p..p + n][i] == m[p..p + n][i];
      }
    }
  }

  /** A reallocated block holds the client's bytes as far as the sizes allow. */
  lemma AgreesResized(m: seq<Byte>, b: nat, h: Header, s: seq<Option<Byte>>, m': seq<Byte>, c: nat, size: nat)
    requires AgreesAt(m, b, h, s) && SamePayload(m, b + HEADER, m', c + HEADER, |s|)
    requires 0 < size && c + HEADER + size <= |m'|
    ensures AgreesAt(m', c, Header(size + HEADER, false), Resize(s, size))
  {
    var n, p, q := |s|, b + HEADER, c + HEADER;
    forall i | 0 <= i < size && Resize(s, size)[i].Some?
      ensures m'[q + i] == Resize(s, size)[i].value
    {
      assert m'[q + i] == m'[q..q + n][i] == m[p..p + n][i];
    }
  }

  /** Different allocations never share a byte, header or payload. */
  lemma PayloadsDisjoint(m: seq<Byte>, h: Blocks, tail: nat, s: Shadow, b: nat, c: nat)
    requires Tiled(h, tail) && tail == |m| && Agrees(m, h, s)
    requires b in s && c in s && b < c
    ensures b + HEADER + |s[b]| <= c && c + HEADER + |s[c]| <= tail
  {
    hide Req;
    HeaderApart(h, tail, b);
    HeaderApart(h, tail, c);
    assert Next(h, b) <= c;
  }

  method ApplyMalloc(heap: Allocator, n: nat, ghost s: Shadow) returns (result: Option<nat>)
    requires heap.Valid() && Agrees(heap.mem[..], heap.blocks, s) && Legal(s, Malloc(n))
    modifies heap.mem, heap`blocks
    ensures heap.Valid() && Agrees(heap.mem[..], heap.blocks, After(s, Event(Malloc(n), result)))
    ensures Fresh(s, Event(Malloc(n), result))
  {
    hide Req, Tiled, Represents, Kept, Next, AgreesAt, SamePayload, CutFrom;
    hide Obtainable, Candidate, Swept, Searched;
    ghost var m, h := heap.mem[..], heap.blocks;
    var p := heap.Malloc(n);
    AgreesKept(m, h, heap.tail, heap.mem[..], heap.blocks, Used(h), s);
    if p.None? {
      return None;
    }
    HeaderApart(heap.blocks, heap.tail, p.value - HEADER);
    UnknownAgrees(heap.mem[..], p.value - HEADER, n);
    return Some(p.value - HEADER);
  }

  lemma UnknownAgrees(m: seq<Byte>, b: nat, n: nat)
    requires 0 < n && b + HEADER + n <= |m|
    ensures AgreesAt(m, b, Header(n + HEADER, false), Unknown(n))
  {
  }

  method ApplyFree(heap: Allocator, b: nat, ghost s: Shadow)
    requires heap.Valid() && Agrees(heap.mem[..], heap.blocks, s) && Legal(s, Free(b))
    modifies heap.mem, heap`blocks
    ensures heap.Valid() && Agrees(heap.mem[..], heap.blocks, After(s, Event(Free(b), None)))
  {
    hide Req, Tiled, Represents, Kept, Next, AgreesAt, SamePayload;
    ghost var m, h := heap.mem[..], heap.blocks;
    AgreesFits(m, b, h[b], s[b]);
    heap.Free(Some(b + HEADER));
    AgreesKept(m, h, heap.tail, heap.mem[..], heap.blocks, Used(h) - {b}, s - {b});
  }

  method ApplyRealloc(heap: Allocator, b: nat, n: nat, ghost s: Shadow) returns (result: Option<nat>)
    requires heap.Valid() && Agrees(heap.mem[..], heap.blocks, s) && Legal(s, Realloc(b, n))
    modifies heap.mem, heap`blocks
    ensures heap.Valid() && Agrees(heap.mem[..], heap.blocks, After(s, Event(Realloc(b, n), result)))
    ensures Fresh(s, Event(Realloc(b, n), result))
  {
    hide Req, Tiled, Represents, Kept, Next, AgreesAt, SamePayload, Resize, Quiet, CutFrom, MovedFrom;
    hide Obtainable, Candidate;
    ghost var m, h, tail := heap.mem[..], heap.blocks, heap.tail;
    AgreesFits(m, b, h[b], s[b]);
    var p, overran := heap.Realloc(Some(b + HEADER), n);
    AgreesKept(m, h, tail, heap.mem[..], heap.blocks, Used(h) - {b}, s - {b});
    if p.Some? {
      HeaderApart(heap.blocks, tail, p.value - HEADER);
      AgreesResized(m, b, h[b], s[b], heap.mem[..], p.value - HEADER, n);
      return Some(p.value - HEADER);
    }
    if n > 0 {
      QuietAgrees(m, h, tail, heap.mem[..], heap.blocks, s);
    }
    return None;
  }

  lemma QuietAgrees(m: seq<Byte>, h: Blocks, tail: nat, m': seq<Byte>, h': Blocks, s: Shadow)
    requires Tiled(h, tail) && tail == |m| && Quiet(m, h, m', h') && Agrees(m, h, s)
    ensures Agrees(m', h', s)
  {
    hide Req, Tiled, Kept;
    AgreesKept(m, h, tail, m', h', Used(h), s);
  }

  method ApplyStore(heap: Allocator, b: nat, i: nat, v: Byte, ghost s: Shadow)
    requires heap.Valid() && Agrees(heap.mem[..], heap.blocks, s) && Legal(s, Store(b, i, v))
    modifies heap.mem
    ensures heap.Valid() && Agrees(heap.mem[..], heap.blocks, After(s, Event(Store(b, i, v), None)))
  {
    hide Req, Tiled, Represents, Kept, Next, AgreesAt, SamePayload;
    ghost var m, h, tail := heap.mem[..], heap.blocks, heap.tail;
    AgreesFits(m, b, h[b], s[b]);
    HeaderApart(h, tail, b);
    heap.mem[b + HEADER + i] := v;
    PayloadEdit(m, h, tail, heap.mem[..], b);
    AgreesKept(m, h, tail, heap.mem[..], h, Used(h) - {b}, s - {b});
    StoreAgrees(m, b, h[b], s[b], i, v);
    assert heap.mem[..] == m[b + HEADER + i := v];
  }

  lemma StoreAgrees(m: seq<Byte>, b: nat, h: Header, s: seq<Option<Byte>>, i: nat, v: Byte)
    requires AgreesAt(m, b, h, s) && i < |s|
    ensures AgreesAt(m[b + HEADER + i := v], b, h, s[i := Some(v)])
  {
  }

  /** One request of a client that holds `s`. */
  method Apply(heap: Allocator, op: Op, ghost s: Shadow) returns (result: Option<nat>)
    requires heap.Valid() && Agrees(heap.mem[..], heap.blocks, s) && Legal(s, op)
    modifies heap.mem, heap`blocks
    ensures heap.Valid() && Agrees(heap.mem[..], heap.blocks, After(s, Event(op, result)))
    ensures Fresh(s, Event(op, result))
  {
    hide Req, Agrees, After, Legal;
    result := None;
    match op {
      case Malloc(n) => result := ApplyMalloc(heap, n, s);
      case Free(b) => ApplyFree(heap, b, s);
      case Realloc(b, n) => result := ApplyRealloc(heap, b, n, s);
      case Store(b, i, v) => ApplyStore(heap, b, i, v, s);
    }
  }

  /** Every run: whatever sequence of requests a client makes (those it may not make are skipped), the
      heap stays tiled, a block given out is never one already held, and every byte written is read
      back until it is overwritten or its block is freed, through any number of moves. */
  method Run(heap: Allocator, ops: seq<Op>) returns (trace: seq<Event>)
    requires heap.Valid() && Used(heap.blocks) == {}
    modifies heap.mem, heap`blocks
    ensures heap.Valid() && LegalRun(map[], trace) && Follows(map[], ops, trace)
    ensures Agrees(heap.mem[..], heap.blocks, Replay(map[], trace))
  {
    hide Req, Agrees, Legal, After, Fresh;
    trace := [];
    var s: Shadow := map[];
    assert Agrees(heap.mem[..], heap.blocks, s) by { NothingAgrees(heap.mem[..], heap.blocks); }
    for k := 0 to |ops|
      invariant heap.Valid() && LegalRun(map[], trace) && Follows(map[], ops[..k], trace)
      invariant s == Replay(map[], trace) && Agrees(heap.mem[..], heap.blocks, s)
    {
      assert ops[..k + 1] == ops[..k] + [ops[k]];
      if Legal(s, ops[k]) {
        var result := Apply(heap, ops[k], s);
        var e := Event(ops[k], result);
        ReplayAppend(map[], trace, e);
        FollowsAppend(map[], ops[..k], trace, ops[k], [e]);
        s := After(s, e);
        trace := trace + [e];
      } else {
        assert trace + [] == trace;
        FollowsAppend(map[], ops[..k], trace, ops[k], []);
      }
    }
    assert ops[..|ops|] == ops;
  }

  lemma NothingAgrees(m: seq<Byte>, h: Blocks)
    requires Used(h) == {}
    ensures Agrees(m, h, map[])
  {
  }
}
