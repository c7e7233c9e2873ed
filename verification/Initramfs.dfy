/** The archive loader (initramfs.cpp): entries in the "ustar Interchange Format" of the pax utility
    (IEEE Std 1003.1) become nodes below a directory. */
module Initramfs {
  import opened Wrappers
  import opened Bytes
  import opened Paths
  import opened Tree
  import opened FileSystem

  const BLOCK: nat := 512
  const MAGIC: seq<Byte> := [117, 115, 116, 97, 114, 0]  // "ustar" and a zero

  // ---------- numbers ----------

  predicate IsOctal(s: seq<Byte>) {
    forall i :: 0 <= i < |s| ==> 48 <= s[i] < 56
  }

  /** The number octal digits stand for, the last digit being the lowest. */
  function OctalValue(s: seq<Byte>): nat
    requires IsOctal(s)
  {
    if s == [] then 0 else OctalValue(s[..|s| - 1]) * 8 + (s[|s| - 1] - 48)
  }

  function Pow8(k: nat): nat {
    if k == 0 then 1 else 8 * Pow8(k - 1)
  }

  /** `n` in `k` octal digits, as archivers write sizes. */
  function OctalDigits(n: nat, k: nat): (s: seq<Byte>)
    ensures |s| == k && IsOctal(s)
  {
    if k == 0 then [] else OctalDigits(n / 8, k - 1) + [48 + n % 8]
  }

  lemma {:induction false} OctalRoundTrip(n: nat, k: nat)
    requires n < Pow8(k)
    ensures OctalValue(OctalDigits(n, k)) == n
  {
    if k > 0 {
      OctalRoundTrip(n / 8, k - 1);
      assert OctalDigits(n, k)[..k - 1] == OctalDigits(n / 8, k - 1);
    }
  }

  /** `octal_to_bin`: reads digits up to a zero byte or the end of the field. */
  method OctalToBin(m: seq<Byte>, at: nat, len: nat) returns (value: nat)
    requires at + len <= |m| && IsOctal(CString(m[at..at + len]))
    ensures value == OctalValue(CString(m[at..at + len]))
  {
    hide CString;
    ghost var field := m[at..at + len];
    ghost var digits := CString(field);
    value := 0;
    var i, left := at, len;
    while left > 0 && m[i] != 0
      invariant i == at + len - left && left <= len && i - at <= |digits|
      invariant value == OctalValue(digits[..i - at])
      decreases left
    {
      CStringMore(field, i - at);
      assert digits[..i - at + 1][..i - at] == digits[..i - at];
      value := value * 8 + (m[i] - 48);
      i := i + 1;
      left := left - 1;
    }
    CStringEnds(field, i - at);
    assert digits[..i - at] == digits;
  }

  lemma {:induction false} CStringMore(s: seq<Byte>, k: nat)
    requires k < |s| && k <= |CString(s)| && s[k] != 0
    ensures k < |CString(s)| && CString(s)[k] == s[k]
  {
  }

  lemma {:induction false} CStringEnds(s: seq<Byte>, k: nat)
    requires k <= |s| && k <= |CString(s)| && (k == |s| || s[k] == 0)
    ensures |CString(s)| == k
  {
  }

  lemma SliceOfSlice(m: seq<Byte>, a: nat, b: nat, c: nat, d: nat)
    requires a <= b <= |m| && c <= d <= b - a
    ensures m[a..b][c..d] == m[a + c..a + d]
  {
    var s, t := m[a..b][c..d], m[a + c..a + d];
    assert |s| == |t|;
    forall i | 0 <= i < |s|
      ensures s[i] == t[i]
    {
      assert m[a..b][c + i] == m[a + c + i];
    }
  }

  // ---------- archives ----------

  /** What an archive holds, by the names on the path of each entry. */
  datatype Entry = RootEntry | DirEntry(path: seq<Str>) | FileEntry(path: seq<Str>, payload: seq<Byte>)

  function Payload(e: Entry): seq<Byte> {
    if e.FileEntry? then e.payload else []
  }

  /** The ways to spell a path in the name field: with or without a leading `./`, and with or without a
      slash behind it. The top directory itself is `./`. */
  predicate Spells(name: Str, e: Entry) {
    match e
    case RootEntry => name == DOT + [SLASH]
    case _ =>
      && e.path != [] && AreNames(e.path)
      && (|| name == Join(e.path) || name == Join(e.path) + [SLASH]
          || name == DOT + [SLASH] + Join(e.path) || name == DOT + [SLASH] + (Join(e.path) + [SLASH]))
  }

  /** The 512 bytes of `h` are a header for `e`; fields the loader does not read, the prefix of the path among
      them, are free. */
  ghost predicate HeaderFor(h: seq<Byte>, e: Entry) {
    && |h| == BLOCK
    && h[257..263] == MAGIC
    && |CString(h[..100])| < 100 && Spells(CString(h[..100]), e)
    && IsOctal(CString(h[124..136])) && OctalValue(CString(h[124..136])) == |Payload(e)|
    && (e.FileEntry? ==> h[156] == 48 || h[156] == 0)
    && (e.DirEntry? ==> h[156] == 53)
  }

  function AlignToBlock(i: nat): (r: nat)
    ensures i <= r < i + BLOCK && r % BLOCK == 0
  {
    if i % BLOCK != 0 then (i / BLOCK + 1) * BLOCK else i
  }

  /** Where the entry after `e` starts. */
  function After(at: nat, e: Entry): nat {
    at + BLOCK + AlignToBlock(|Payload(e)|)
  }

  function End(at: nat, es: seq<Entry>): (end: nat)
    ensures end >= at && (es != [] ==> end > at)
    decreases |es|
  {
    if es == [] then at else End(After(at, es[0]), es[1..])
  }

  /** From `at` on memory holds the entries `es`, each a header and its payload in whole blocks. */
  ghost predicate Holds(m: seq<Byte>, at: nat, es: seq<Entry>)
    decreases |es|
  {
    es != [] ==>
      && After(at, es[0]) <= |m|
      && HeaderFor(m[at..at + BLOCK], es[0])
      && m[at + BLOCK..at + BLOCK + |Payload(es[0])|] == Payload(es[0])
      && Holds(m, After(at, es[0]), es[1..])
  }

  ghost predicate IsHeader(m: seq<Byte>, at: nat) {
    at + BLOCK <= |m| && m[at + 257..at + 263] == MAGIC
  }

  /** An archive of `size` bytes: its entries, and then its end or a block that is no header. */
  ghost predicate Archive(m: seq<Byte>, size: nat, es: seq<Entry>) {
    && Holds(m, 0, es)
    && var end := End(0, es);
       (es != [] && end == size) || ((es == [] || end < size) && end + BLOCK <= |m| && !IsHeader(m, end))
  }

  // ---------- the tree an archive describes ----------

  datatype Object = Dir | Data(bytes: seq<Byte>)

  /** Objects by the names leading to them. */
  type Listing = map<seq<Str>, Object>

  function Enter(t: Listing, e: Entry): Listing {
    match e
    case RootEntry => t
    case DirEntry(path) => t[path := Dir]
    case FileEntry(path, payload) => t[path := Data(payload)]
  }

  function Loaded(t: Listing, es: seq<Entry>): Listing
    decreases |es|
  {
    if es == [] then t else Loaded(Enter(t, es[0]), es[1..])
  }

  /** Parents come before their children, and each path comes once. */
  predicate Loadable(t: Listing, es: seq<Entry>)
    decreases |es|
  {
    es == [] ||
    (&& (!es[0].RootEntry? ==>
           && es[0].path != [] && AreNames(es[0].path) && es[0].path !in t
           && es[0].path[..|es[0].path| - 1] in t && t[es[0].path[..|es[0].path| - 1]] == Dir)
     && Loadable(Enter(t, es[0]), es[1..]))
  }

  /** The listing keeps what it lists and gains exactly the entries: files with their payload, and
      directories. */
  lemma {:induction false} LoadedLists(t: Listing, es: seq<Entry>)
    requires Loadable(t, es)
    ensures forall cs :: cs in Loaded(t, es) <==> cs in t || exists k :: 0 <= k < |es| && Names(es[k], cs)
    ensures forall cs :: cs in t ==> cs in Loaded(t, es) && Loaded(t, es)[cs] == t[cs]
    ensures forall k :: 0 <= k < |es| ==> Lists(Loaded(t, es), es[k])
    decreases |es|
  {
    if es != [] {
      var t1, rest := Enter(t, es[0]), es[1..];
      EnterLists(t, es[0]);
      LoadedLists(t1, rest);
      forall cs
        ensures cs in Loaded(t, es) <==> cs in t || exists k :: 0 <= k < |es| && Names(es[k], cs)
      {
        if k :| 0 <= k < |rest| && Names(rest[k], cs) {
          assert Names(es[k + 1], cs);
        }
        if k :| 0 <= k < |es| && Names(es[k], cs) {
          assert k > 0 ==> Names(rest[k - 1], cs);
        }
      }
      forall k | 0 <= k < |es|
        ensures Lists(Loaded(t, es), es[k])
      {
        assert k > 0 ==> es[k] == rest[k - 1];
      }
    }
  }

  predicate Names(e: Entry, cs: seq<Str>) {
    !e.RootEntry? && e.path == cs
  }

  /** The entry is listed as what it is. */
  predicate Lists(t: Listing, e: Entry) {
    match e
    case RootEntry => true
    case DirEntry(path) => path in t && t[path] == Dir
    case FileEntry(path, payload) => path in t && t[path] == Data(payload)
  }

  lemma EnterLists(t: Listing, e: Entry)
    requires Loadable(t, [e])
    ensures Lists(Enter(t, e), e)
    ensures forall cs :: cs in Enter(t, e) <==> cs in t || Names(e, cs)
    ensures forall cs :: cs in t ==> Enter(t, e)[cs] == t[cs]
  {
    hide IsName;
  }

  ghost function ObjectAt(ns: Nodes, c: Id): Object
    requires c in ns
  {
    if ns[c].kind == Directory then Dir else Data(ns[c].data)
  }

  /** The named paths that resolve below `d` are exactly those listed, and lead to what is listed. */
  ghost predicate Mirrors(ns: Nodes, d: Id, t: Listing) {
    && (forall cs :: cs in t ==> AreNames(cs))
    && forall cs {:trigger Fold(ns, d, cs)} :: AreNames(cs) ==>
         && (cs in t <==> Fold(ns, d, cs).Some?)
         && (cs in t ==> Fold(ns, d, cs).value in ns && ObjectAt(ns, Fold(ns, d, cs).value) == t[cs])
  }

  /** A freshly initialised file system lists its root alone. */
  lemma EmptyMirrors(ns: Nodes, root: Id)
    requires WellFormed(ns, root) && ns[root].children.Keys == {DOT, DOTDOT}
    ensures Mirrors(ns, root, map[[] := Dir])
  {
    hide WellFormed;
    RootIsDir(ns, root);
    forall cs | AreNames(cs)
      ensures Fold(ns, root, cs) == if cs == [] then Some(root) else None
    {
      if cs != [] {
        assert IsName(cs[0]);
        assert cs[0] !in ns[root].children.Keys;
      }
    }
  }

  /** The entry's path leads to a node that is what the entry says. */
  ghost predicate Found(ns: Nodes, d: Id, e: Entry) {
    match e
    case RootEntry => true
    case DirEntry(path) => Fold(ns, d, path).Some? && IsDir(ns, Fold(ns, d, path).value)
    case FileEntry(path, payload) =>
      && Fold(ns, d, path).Some? && Fold(ns, d, path).value in ns
      && ns[Fold(ns, d, path).value].kind == File && ns[Fold(ns, d, path).value].data == payload
  }

  lemma ListedFound(ns: Nodes, root: Id, d: Id, t: Listing, e: Entry)
    requires WellFormed(ns, root) && IsDir(ns, d) && Mirrors(ns, d, t) && Lists(t, e)
    ensures Found(ns, d, e)
  {
    hide WellFormed, Fold, IsName;
    if !e.RootEntry? {
      FoldReal(ns, root, d, e.path);
    }
  }

  lemma SpellsComponents(name: Str, e: Entry)
    requires !e.RootEntry? && Spells(name, e)
    ensures name != [] && 0 !in name && name != DOT + [SLASH]
    ensures Components(name) == e.path || Components(name) == [DOT] + e.path
  {
    hide Components, Join, FindSlash;
    var j := Join(e.path);
    JoinNonEmpty(e.path);
    ComponentsJoin(e.path);
    JoinEnd(e.path);
    TrailingSlash(j);
    if name != j && name != j + [SLASH] {
      BehindDot(if name == DOT + [SLASH] + j then j else j + [SLASH]);
    } else {
      NotDotSlash(e.path, name);
    }
  }

  lemma BehindDot(rest: Str)
    requires rest != []
    ensures Components(DOT + [SLASH] + rest) == [DOT] + Components(rest) && DOT + [SLASH] + rest != DOT + [SLASH]
  {
    var name := DOT + [SLASH] + rest;
    FindSlashAt(DOT, rest);
    assert name[..1] == DOT && name[2..] == rest;
  }

  lemma {:induction false} JoinEnd(ns: seq<Str>)
    requires AreNames(ns) && ns != []
    ensures Join(ns) != [] && Join(ns)[|Join(ns)| - 1] != SLASH
  {
    if |ns| > 1 {
      JoinEnd(ns[1..]);
    }
  }

  lemma NotDotSlash(ns: seq<Str>, name: Str)
    requires AreNames(ns) && ns != [] && (name == Join(ns) || name == Join(ns) + [SLASH])
    ensures name != DOT + [SLASH]
  {
    JoinEnd(ns);
    assert Join(ns) != DOT by {
      if |ns| > 1 {
        JoinEnd(ns[1..]);
        assert |Join(ns)| > 1;
      }
    }
    assert (DOT + [SLASH])[..1] == DOT && (Join(ns) + [SLASH])[..|Join(ns)|] == Join(ns);
  }

  // ---------- loading ----------

  /** Paths with and without a leading dot lead to the same places. */
  lemma FoldFromDot(ns: Nodes, root: Id, d: Id, cs: seq<Str>)
    requires WellFormed(ns, root) && IsDir(ns, d)
    ensures Fold(ns, d, [DOT] + cs) == Fold(ns, d, cs)
  {
    StepCases(ns, root, d, DOT);
    assert ([DOT] + cs)[1..] == cs;
  }

  /** The search for a new entry's path fails at its last name, in the directory it belongs to. */
  lemma NewPath(ns: Nodes, root: Id, d: Id, t: Listing, e: Entry, name: Str)
    requires WellFormed(ns, root) && IsDir(ns, d) && Mirrors(ns, d, t)
    requires !e.RootEntry? && Spells(name, e) && Loadable(t, [e])
    ensures var up, x := e.path[..|e.path| - 1], e.path[|e.path| - 1];
            && Fold(ns, d, up).Some? && IsDir(ns, Fold(ns, d, up).value)
            && IsName(x) && x !in ns[Fold(ns, d, up).value].children
            && Resolve(ns, d, Components(name)) == PathResult(Fold(ns, d, up), None, Some(x))
  {
    hide WellFormed, Components, Spells, ObjectAt, Join;
    var path := e.path;
    var up, x := path[..|path| - 1], path[|path| - 1];
    assert path == up + [x];
    SpellsComponents(name, e);
    var cs := Components(name);
    assert Fold(ns, d, up).Some? && Fold(ns, d, path) == None;
    assert IsDir(ns, Fold(ns, d, up).value) by { DirObject(ns, Fold(ns, d, up).value); FoldReal(ns, root, d, up); }
    FoldSnoc(ns, d, up, x);
    FoldFromDot(ns, root, d, path);
    FoldFromDot(ns, root, d, up);
    assert cs[..|cs| - 1] == if cs == path then up else [DOT] + up;
    ResolveIsFold(ns, d, cs);
  }

  lemma DirObject(ns: Nodes, c: Id)
    requires c in ns && ObjectAt(ns, c) == Dir
    ensures IsDir(ns, c)
  {
  }

  /** Entering a node in the tree enters it in the listing. */
  lemma AddedMirrors(ns: Nodes, root: Id, d: Id, t: Listing, up: seq<Str>, x: Str, kind: Kind, n: Id)
    requires WellFormed(ns, root) && IsDir(ns, d) && Mirrors(ns, d, t) && Unused(ns, n) && kind != None_
    requires AreNames(up) && Fold(ns, d, up).Some? && IsDir(ns, Fold(ns, d, up).value)
    requires IsName(x) && x !in ns[Fold(ns, d, up).value].children
    ensures Mirrors(Added(ns, Fold(ns, d, up).value, x, kind, n), d,
                    t[up + [x] := if kind == Directory then Dir else Data([])])
  {
    hide WellFormed, Added;
    var p := Fold(ns, d, up).value;
    var r := Added(ns, p, x, kind, n);
    var t' := t[up + [x] := if kind == Directory then Dir else Data([])];
    AddedNodes(ns, p, x, kind, n);
    forall cs {:trigger Fold(r, d, cs)} | AreNames(cs)
      ensures cs in t' <==> Fold(r, d, cs).Some?
      ensures cs in t' ==> Fold(r, d, cs).value in r && ObjectAt(r, Fold(r, d, cs).value) == t'[cs]
    {
      AddedFold(ns, root, p, x, kind, n, d, up, cs);
    }
  }

  /** Storing a file's contents stores them in the listing. */
  lemma StoredMirrors(ns: Nodes, root: Id, d: Id, t: Listing, path: seq<Str>, f: Id, data: seq<Byte>)
    requires WellFormed(ns, root) && IsDir(ns, d) && Mirrors(ns, d, t) && AreNames(path)
    requires Fold(ns, d, path) == Some(f) && f in ns && ns[f].kind == File
    ensures Mirrors(ns[f := ns[f].(data := data)], d, t[path := Data(data)])
  {
    hide WellFormed;
    var r := ns[f := ns[f].(data := data)];
    var t' := t[path := Data(data)];
    forall cs {:trigger Fold(r, d, cs)} | AreNames(cs)
      ensures cs in t' <==> Fold(r, d, cs).Some?
      ensures cs in t' ==> Fold(r, d, cs).value in r && ObjectAt(r, Fold(r, d, cs).value) == t'[cs]
    {
      DataOnlyFold(ns, f, data, d, cs);
      if Fold(ns, d, cs) == Some(f) {
        PathUnique(ns, root, d, cs, path);
      }
    }
  }

  /** One header and its payload: a node where its path says. */
  method LoadEntry(fs: FileSystem, dir: Id, m: seq<Byte>, at: nat, size: nat, ghost e: Entry, ghost t: Listing)
    returns (ok: bool)
    requires fs.Valid() && IsDir(fs.nodes, dir) && Mirrors(fs.nodes, dir, t)
    requires at + BLOCK + size <= |m| && HeaderFor(m[at..at + BLOCK], e) && size == |Payload(e)|
    requires m[at + BLOCK..at + BLOCK + size] == Payload(e) && Loadable(t, [e])
    modifies fs
    ensures ok && fs.Valid() && IsDir(fs.nodes, dir) && Mirrors(fs.nodes, dir, Enter(t, e))
  {
    hide WellFormed, Components, Resolve, Mirrors, Spells, Unused, Added, OctalValue;
    ghost var h := m[at..at + BLOCK];
    assert m[at..at + 100] == h[..100] && m[at + 156] == h[156];
    var name := CString(m[at..at + 100]);
    if name == DOT + [SLASH] {
      if !e.RootEntry? {
        SpellsComponents(name, e);
      }
      return true;
    }
    assert !e.RootEntry? by { RootSpelling(name, e); }
    NewPath(fs.nodes, fs.root, dir, t, e, name);
    SpellsComponents(name, e);
    var r := fs.PathToNode(name, Some(dir));
    if r.target != None || r.basename == None {
      return false;
    }
    ghost var ns, n, path := fs.nodes, fs.next, e.path;
    ghost var up, x := path[..|path| - 1], path[|path| - 1];
    assert path == up + [x];
    ghost var p := Fold(ns, dir, up).value;
    AddedNodes(ns, p, x, if e.DirEntry? then Directory else File, n);
    AddedMirrors(ns, fs.root, dir, t, up, x, if e.DirEntry? then Directory else File, n);
    AddedFold(ns, fs.root, p, x, if e.DirEntry? then Directory else File, n, dir, up, path);
    match m[at + 156] {
      case 48 =>
        ok := LoadFile(fs, dir, r.parent.value, r.basename.value, m[at + BLOCK..at + BLOCK + size], t, path);
      case 0 =>
        ok := LoadFile(fs, dir, r.parent.value, r.basename.value, m[at + BLOCK..at + BLOCK + size], t, path);
      case 53 =>
        var node := fs.Create(r.parent.value, r.basename.value, Directory);
        ok := true;
      case _ =>
        ok := false;
    }
  }

  /** The file case: create the node and write the payload into it. */
  method LoadFile(fs: FileSystem, ghost dir: Id, parent: Id, name: Str, payload: seq<Byte>, ghost t: Listing,
                  ghost path: seq<Str>)
    returns (ok: bool)
    requires fs.Valid() && IsDir(fs.nodes, dir) && IsDir(fs.nodes, parent)
    requires IsName(name) && name !in fs.nodes[parent].children
    requires Mirrors(Added(fs.nodes, parent, name, File, fs.next), dir, t[path := Data([])]) && AreNames(path)
    requires Fold(Added(fs.nodes, parent, name, File, fs.next), dir, path) == Some(fs.next)
    modifies fs
    ensures ok && fs.Valid() && IsDir(fs.nodes, dir) && Mirrors(fs.nodes, dir, t[path := Data(payload)])
  {
    hide WellFormed, Mirrors, Unused, Added;
    ghost var n := fs.next;
    AddedNodes(fs.nodes, parent, name, File, n);
    var node := fs.Create(parent, name, File);
    ghost var ns := fs.nodes;
    fs.Write(node.value, payload, 0);
    StoredMirrors(ns, fs.root, dir, t[path := Data([])], path, n, payload);
    assert fs.nodes[n].data == payload by { assert fs.nodes[n].data == fs.nodes[n].data[0..|payload|]; }
    assert t[path := Data([])][path := Data(payload)] == t[path := Data(payload)];
    ok := true;
  }

  lemma RootSpelling(name: Str, e: Entry)
    requires Spells(name, e) && name != DOT + [SLASH]
    ensures !e.RootEntry?
  {
  }

  /** `load_into`: from any archive with parents before children and no path twice, the named paths that
      then resolve below the directory are those there before and those of the archive, and they lead
      to directories and to files with their payload byte for byte. */
  method LoadInto(fs: FileSystem, dir: Id, m: seq<Byte>, size: nat, ghost es: seq<Entry>, ghost t: Listing)
    returns (ok: bool)
    requires fs.Valid() && IsDir(fs.nodes, dir) && Mirrors(fs.nodes, dir, t)
    requires Archive(m, size, es) && Loadable(t, es)
    modifies fs
    ensures ok && fs.Valid() && Mirrors(fs.nodes, dir, Loaded(t, es))
    ensures forall k :: 0 <= k < |es| ==> Found(fs.nodes, dir, es[k])
  {
    hide WellFormed, Mirrors, Unused, HeaderFor, Loadable, Loaded, Enter, After, Found, Lists;
    hide Payload, AtEntry, AlignToBlock, OctalValue, CString, Archive;
    var current: nat := 0;
    ghost var left, now := es, t;
    AtStart(m, size, es);
    while true
      invariant fs.Valid() && IsDir(fs.nodes, dir) && Mirrors(fs.nodes, dir, now)
      invariant AtEntry(m, es, current, left) && (left == [] ==> es == [] || current < size)
      invariant Loadable(now, left) && Loaded(now, left) == Loaded(t, es)
      decreases |left|
    {
      EntryOrEnd(m, size, es, current, left);
      if m[current + 257..current + 263] != MAGIC {
        break;
      }
      HeadFacts(m, es, current, left);
      HeadSize(m, current, left[0]);
      HeadLoads(left, now);
      var fileSize := OctalToBin(m, current + 124, 12);
      ok := LoadEntry(fs, dir, m, current, fileSize, left[0], now);
      now, left := Enter(now, left[0]), left[1..];
      current := current + BLOCK + AlignToBlock(fileSize);
      if current >= size {
        EntriesEnd(m, size, es, current, left);
        break;
      }
    }
    LoadedNone(now);
    LoadedLists(t, es);
    forall k | 0 <= k < |es|
      ensures Found(fs.nodes, dir, es[k])
    {
      ListedFound(fs.nodes, fs.root, dir, Loaded(t, es), es[k]);
    }
    ok := true;
  }

  /** The loader stands at the first of the remaining entries `left`, or behind the last one. */
  ghost predicate AtEntry(m: seq<Byte>, es: seq<Entry>, at: nat, left: seq<Entry>) {
    Holds(m, at, left) && End(at, left) == End(0, es) && (left == es || es != [])
  }

  lemma AtStart(m: seq<Byte>, size: nat, es: seq<Entry>)
    requires Archive(m, size, es)
    ensures AtEntry(m, es, 0, es)
  {
  }

  /** There it finds a header exactly when entries remain. */
  lemma EntryOrEnd(m: seq<Byte>, size: nat, es: seq<Entry>, at: nat, left: seq<Entry>)
    requires Archive(m, size, es) && AtEntry(m, es, at, left) && (left == [] ==> es == [] || at < size)
    ensures at + BLOCK <= |m| && (m[at + 257..at + 263] == MAGIC <==> left != [])
  {
    if left != [] {
      HeadIsHeader(m, at, left);
    }
  }

  /** Once it has passed the size of the archive no entries remain. */
  lemma EntriesEnd(m: seq<Byte>, size: nat, es: seq<Entry>, at: nat, left: seq<Entry>)
    requires Archive(m, size, es) && AtEntry(m, es, at, left) && es != [] && at >= size
    ensures left == []
  {
  }

  lemma LoadedNone(t: Listing)
    ensures Loaded(t, []) == t
  {
  }

  lemma HeadIsHeader(m: seq<Byte>, at: nat, es: seq<Entry>)
    requires Holds(m, at, es) && es != []
    ensures IsHeader(m, at)
  {
    SliceOfSlice(m, at, at + BLOCK, 257, 263);
  }

  /** What is known of the first of the remaining entries. */
  lemma HeadFacts(m: seq<Byte>, es: seq<Entry>, at: nat, left: seq<Entry>)
    requires AtEntry(m, es, at, left) && left != []
    ensures at + BLOCK + |Payload(left[0])| <= |m| && HeaderFor(m[at..at + BLOCK], left[0])
    ensures m[at + BLOCK..at + BLOCK + |Payload(left[0])|] == Payload(left[0])
    ensures AtEntry(m, es, at + BLOCK + AlignToBlock(|Payload(left[0])|), left[1..]) && es != []
  {
    hide HeaderFor, AlignToBlock, Payload;
  }

  /** Its size field is the length of its payload. */
  lemma HeadSize(m: seq<Byte>, at: nat, e: Entry)
    requires at + BLOCK <= |m| && HeaderFor(m[at..at + BLOCK], e)
    ensures IsOctal(CString(m[at + 124..at + 136])) && OctalValue(CString(m[at + 124..at + 136])) == |Payload(e)|
  {
    hide CString, OctalValue, Spells, Payload;
    SliceOfSlice(m, at, at + BLOCK, 124, 136);
  }

  lemma HeadLoads(left: seq<Entry>, t: Listing)
    requires left != [] && Loadable(t, left)
    ensures Loadable(t, [left[0]]) && Loadable(Enter(t, left[0]), left[1..])
    ensures Loaded(t, left) == Loaded(Enter(t, left[0]), left[1..])
  {
    hide Enter, IsName;
    assert [left[0]][1..] == [];
  }

  /** What the kernel does at boot: initialise the file system and load the archive into its root. The
      named paths that then resolve are exactly the archive's. */
  method LoadRoot(m: seq<Byte>, size: nat, ghost es: seq<Entry>) returns (fs: FileSystem, ok: bool)
    requires Archive(m, size, es) && Loadable(map[[] := Dir], es)
    ensures fresh(fs) && ok && fs.Valid() && Mirrors(fs.nodes, fs.root, Loaded(map[[] := Dir], es))
    ensures forall cs :: AreNames(cs) ==>
              (Fold(fs.nodes, fs.root, cs).Some? <==> cs == [] || exists k :: 0 <= k < |es| && Names(es[k], cs))
    ensures forall k :: 0 <= k < |es| ==> Found(fs.nodes, fs.root, es[k])
  {
    hide WellFormed, Loadable, Loaded, Archive, Fold, IsName;
    LoadedLists(map[[] := Dir], es);
    fs := new FileSystem();
    EmptyMirrors(fs.nodes, fs.root);
    ok := LoadInto(fs, fs.root, m, size, es, map[[] := Dir]);
  }

  /** A file of the archive, looked up by its path after loading and read whole: its payload. */
  method LoadAndRead(m: seq<Byte>, size: nat, ghost es: seq<Entry>, ghost k: nat, path: Str, buf: array<Byte>)
    returns (n: int)
    requires Archive(m, size, es) && Loadable(map[[] := Dir], es)
    requires k < |es| && es[k].FileEntry? && path == Join(es[k].path) && buf.Length == |es[k].payload|
    modifies buf
    ensures n == |es[k].payload| && buf[..] == es[k].payload
  {
    hide WellFormed, Mirrors, Loadable, Loaded, Archive, Components, Fold, Resolve, HeaderFor;
    LoadableNames(map[[] := Dir], es, k);
    JoinNonEmpty(es[k].path);
    ComponentsJoin(es[k].path);
    var fs, ok := LoadRoot(m, size, es);
    assert Found(fs.nodes, fs.root, es[k]);
    ResolveIsFold(fs.nodes, fs.root, es[k].path);
    assert fs.root in fs.nodes by { RootIsDir(fs.nodes, fs.root); }
    var r := fs.PathToNode(path, Some(fs.root));
    n := fs.Read(r.target.value, buf, buf.Length, 0);
    assert buf[..] == buf[..|es[k].payload|];
  }

  lemma {:induction false} LoadableNames(t: Listing, es: seq<Entry>, k: nat)
    requires Loadable(t, es) && k < |es| && !es[k].RootEntry?
    ensures es[k].path != [] && AreNames(es[k].path)
    decreases |es|
  {
    hide IsName, Enter;
    if k > 0 {
      LoadableNames(Enter(t, es[0]), es[1..], k - 1);
    }
  }

  // ---------- writing an archive ----------

  function Zeros(n: nat): (s: seq<Byte>)
    ensures |s| == n && forall i :: 0 <= i < n ==> s[i] == 0
  {
    seq(n, _ => 0)
  }

  function NameField(e: Entry): Str {
    if e.RootEntry? then DOT + [SLASH] else if e.DirEntry? then Join(e.path) + [SLASH] else Join(e.path)
  }

  /** The entry has a name, which fits its field, and so does the size. */
  predicate Packable(e: Entry) {
    && (!e.RootEntry? ==> e.path != [] && AreNames(e.path))
    && |NameField(e)| < 100 && |Payload(e)| < Pow8(11)
  }

  /** A header as archivers write it, with zeros in the fields the loader does not read. */
  function HeaderOf(e: Entry): (h: seq<Byte>)
    requires Packable(e)
    ensures |h| == BLOCK
  {
    (NameField(e) + Zeros(100 - |NameField(e)|)) + Zeros(24) + (OctalDigits(|Payload(e)|, 11) + [0]) + Zeros(20)
      + [if e.FileEntry? then 48 else 53] + Zeros(100) + MAGIC + Zeros(249)
  }

  function PackedEntry(e: Entry): (s: seq<Byte>)
    requires Packable(e)
    ensures |s| == After(0, e)
  {
    HeaderOf(e) + (Payload(e) + Zeros(AlignToBlock(|Payload(e)|) - |Payload(e)|))
  }

  /** The entries, and two blocks of zeros behind them. */
  function Pack(es: seq<Entry>): seq<Byte>
    requires forall k :: 0 <= k < |es| ==> Packable(es[k])
  {
    if es == [] then Zeros(2 * BLOCK) else PackedEntry(es[0]) + Pack(es[1..])
  }

  lemma HeaderOfEntry(e: Entry)
    requires Packable(e)
    ensures HeaderFor(HeaderOf(e), e)
  {
    hide CString, OctalDigits, OctalValue, Pow8, Join, AreNames, Spells;
    var h := HeaderOf(e);
    var name, size := NameField(e), OctalDigits(|Payload(e)|, 11);
    assert h[..100] == name + Zeros(100 - |name|);
    assert h[124..136] == size + [0];
    assert h[257..263] == MAGIC;
    NameFieldSpells(e);
    CStringOf(name, Zeros(100 - |name|));
    CStringOf(size, [0]);
    OctalRoundTrip(|Payload(e)|, 11);
  }

  lemma NameFieldSpells(e: Entry)
    requires Packable(e)
    ensures Spells(NameField(e), e) && 0 !in NameField(e)
  {
    hide Join;
    if !e.RootEntry? {
      JoinNonEmpty(e.path);
    }
  }

  lemma EntryHolds(before: seq<Byte>, e: Entry, rest: seq<Byte>)
    requires Packable(e)
    ensures var m, at := before + PackedEntry(e) + rest, |before|;
            && After(at, e) == |before + PackedEntry(e)| <= |m| && HeaderFor(m[at..at + BLOCK], e)
            && m[at + BLOCK..at + BLOCK + |Payload(e)|] == Payload(e)
  {
    hide HeaderFor, HeaderOf, Packable;
    var m, at := before + PackedEntry(e) + rest, |before|;
    HeaderOfEntry(e);
    var fill := Zeros(AlignToBlock(|Payload(e)|) - |Payload(e)|);
    assert m == before + HeaderOf(e) + Payload(e) + fill + rest;
    assert m[at..at + BLOCK] == HeaderOf(e);
  }

  lemma {:induction false} PackHolds(before: seq<Byte>, es: seq<Entry>)
    requires forall k :: 0 <= k < |es| ==> Packable(es[k])
    ensures var m, at := before + Pack(es), |before|;
            Holds(m, at, es) && End(at, es) + 2 * BLOCK == |m| && m[End(at, es)..] == Zeros(2 * BLOCK)
    decreases |es|
  {
    hide HeaderFor, HeaderOf, Packable, AlignToBlock, PackedEntry, After, Payload;
    var m := before + Pack(es);
    if es != [] {
      var e, rest := es[0], Pack(es[1..]);
      assert m == before + PackedEntry(e) + rest;
      EntryHolds(before, e, rest);
      PackHolds(before + PackedEntry(e), es[1..]);
    }
  }

  /** Packing makes an archive of its entries, so whatever can be packed and loaded comes out as it went in. */
  lemma PackIsArchive(es: seq<Entry>)
    requires forall k :: 0 <= k < |es| ==> Packable(es[k])
    ensures Archive(Pack(es), |Pack(es)|, es)
  {
    hide Packable, Pack, Holds, End;
    PackHolds([], es);
    var m, end := Pack(es), End(0, es);
    assert [] + m == m;
    assert m[end + 257..end + 263][0] == m[end..][257] == 0;
  }
}
