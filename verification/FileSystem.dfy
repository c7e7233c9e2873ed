/** The virtual file system's operations on its node tree: path resolution, `getcwd`, `chdir`
    (vfs.cpp), and the memory file system's `create`, `read` and `write` (tmpfs.cpp). */
module FileSystem {
  import opened Wrappers
  import opened Bytes
  import opened Paths
  import opened Tree

  /** A path string of a caller has no zero byte in it. */
  predicate IsCString(s: seq<Byte>) {
    0 !in s
  }

  /** What `getcwd` prints for directory `d`. */
  ghost function CwdPath(ns: Nodes, root: Id, d: Id): Str
    requires WellFormed(ns, root) && IsDir(ns, d)
  {
    [SLASH] + Join(NamesTo(ns, root, d))
  }

  datatype Outcome = Success | NoEntry | NotDirectory | OutOfRange

  class FileSystem {
    var nodes: Nodes
    var next: Id
    const root: Id

    ghost predicate Valid()
      reads this
    {
      WellFormed(nodes, root) && Unused(nodes, next)
    }

    /** `vfs::init`: the root directory alone. */
    constructor ()
      ensures Valid() && IsDir(nodes, root) && nodes[root].children.Keys == {DOT, DOTDOT}
    {
      root := 0;
      nodes := map[
        0 := Node(Directory, None, [], None, map[DOT := 1, DOTDOT := 2], []),
        1 := Node(None_, Some(0), DOT, Some(0), map[], []),
        2 := Node(None_, Some(0), DOTDOT, Some(0), map[], [])];
      next := 3;
    }

    // ---------- path resolution ----------

    /** `path_to_node`, with the path pointer advanced over `path`. Without a starting point the path
        must be absolute. */
    method PathToNode(path: Str, start: Option<Id>) returns (r: PathResult)
      requires Valid() && IsCString(path)
      requires start.Some? ==> start.value in nodes
      ensures path == [] ==> r == NOWHERE
      ensures path != [] && start.Some? ==> r == Resolve(nodes, start.value, Components(path))
      ensures path != [] && start.None? ==>
              r == if path[0] != SLASH then NOWHERE else Resolve(nodes, root, Components(path[1..]))
    {
      hide WellFormed, FindSlash;
      if |path| == 0 {
        return NOWHERE;
      }
      var p, current := path, root;
      if start.None? {
        if path[0] != SLASH {
          return NOWHERE;
        }
        p := path[1..];
      } else {
        current := start.value;
      }
      ghost var goal := Resolve(nodes, current, Components(p));
      assert current in nodes by { RootIsDir(nodes, root); }
      while true
        invariant Resolve(nodes, current, Components(p)) == goal
        invariant current in nodes
        decreases |p|
      {
        if nodes[current].kind != Directory {
          return NOWHERE;
        }
        var k := FindSlash(p);
        var last := k == |p| || k == |p| - 1;
        var name := p[..k];
        if name !in nodes[current].children {
          return PathResult(Some(current), None, Some(name));
        }
        var n := Reduce(nodes, nodes[current].children[name]);
        if last {
          return PathResult(Some(current), Some(n), Some(name));
        }
        assert Components(p)[1..] == Components(p[k + 1..]);
        ReduceIn(nodes, root, current, name);
        p := p[k + 1..];
        current := n;
      }
    }

    // ---------- the current directory ----------

    /** `chdir`: the new current directory, or the old one with an error. */
    method ChDir(cwd: Id, path: Str) returns (outcome: Outcome, dir: Id)
      requires Valid() && IsDir(nodes, cwd) && IsCString(path)
      ensures IsDir(nodes, dir)
      ensures var target := if path == [] then None
                            else if path[0] == SLASH then Fold(nodes, root, Components(path[1..]))
                            else Fold(nodes, cwd, Components(path));
              && (outcome == Success <==> target.Some? && IsDir(nodes, target.value))
              && (outcome == NoEntry <==> target.None?)
              && dir == if outcome == Success then target.value else cwd
    {
      hide WellFormed, Components;
      var r: PathResult;
      if path != [] && path[0] == SLASH {
        r := PathToNode(path, None);
        ResolveIsFold(nodes, root, Components(path[1..]));
        RootIsDir(nodes, root);
        FoldReal(nodes, root, root, Components(path[1..]));
      } else {
        r := PathToNode(path, Some(cwd));
        if path != [] {
          ResolveIsFold(nodes, cwd, Components(path));
          FoldReal(nodes, root, cwd, Components(path));
        }
      }
      if r.target == None {
        return NoEntry, cwd;
      }
      if nodes[r.target.value].kind != Directory {
        return NotDirectory, cwd;
      }
      return Success, r.target.value;
    }

    /** `getcwd`: collects the names up to, but not including, the root, and prints them from the top
        down. It stops with an error as soon as the buffer is full, so the path must be shorter. A size of
        0 also costs one byte of memory. */
    method GetCwd(cwd: Id, buf: array<Byte>, size: nat) returns (outcome: Outcome)
      requires Valid() && IsDir(nodes, cwd) && size <= buf.Length && 0 < buf.Length
      modifies buf
      ensures var path := CwdPath(nodes, root, cwd);
              && outcome == (if |path| < size then Success else OutOfRange)
              && var n := if |path| < size then |path| else AtLeastOne(size);
                 && (forall i :: 0 <= i < n ==> buf[i] == path[i])
                 && (forall i :: n <= i < buf.Length ==> buf[i] == old(buf[i]))
    {
      hide WellFormed, Join, Printed;
      var pushed: seq<Str> := [];
      var current := cwd;
      ghost var all, names := NamesTo(nodes, root, cwd), [];  // `names` is `pushed` from the top down
      while true
        invariant IsDir(nodes, current) && (current == root ==> cwd == root && names == [])
        invariant unchanged(buf) && NamesTo(nodes, root, current) + names == all
        invariant |names| == |pushed| && forall i :: 0 <= i < |names| ==> names[i] == pushed[|pushed| - 1 - i]
        decreases current
      {
        RootOrParent(nodes, root, current);
        var node := nodes[current];
        pushed := pushed + [node.name];
        names := [node.name] + names;
        if node.parent == None || nodes[node.parent.value].parent == None {
          break;
        }
        RootOrParent(nodes, root, node.parent.value);
        current := node.parent.value;
      }
      if cwd != root {
        RootOrParent(nodes, root, nodes[current].parent.value);
        assert NamesTo(nodes, root, nodes[current].parent.value) == [];
      }
      assert names == if cwd == root then [[]] else all;
      PrintedNames(nodes, root, cwd);
      outcome := PrintOut(pushed, names, buf, size);
    }

    // ---------- the memory file system ----------

    /** `DirectoryNode::create_dotentries` */
    method CreateDotEntries(d: Id)
      requires d in nodes && Unused(nodes, next)
      modifies this
      ensures next == old(next) + 2
      ensures var up := if old(nodes)[d].parent.Some? then old(nodes)[d].parent.value else d;
              var children := old(nodes)[d].children[DOT := old(next)][DOTDOT := old(next) + 1];
              nodes == old(nodes)[d := old(nodes)[d].(children := children)]
                                 [old(next) := Node(None_, Some(d), DOT, Some(d), map[], [])]
                                 [old(next) + 1 := Node(None_, Some(d), DOTDOT, Some(up), map[], [])]
    {
      var up := if nodes[d].parent.Some? then nodes[d].parent.value else d;
      var dot, dotdot := next, next + 1;
      next := next + 2;
      nodes := nodes[d := nodes[d].(children := nodes[d].children[DOT := dot][DOTDOT := dotdot])]
                    [dot := Node(None_, Some(d), DOT, Some(d), map[], [])]
                    [dotdot := Node(None_, Some(d), DOTDOT, Some(up), map[], [])];
    }

    /** `tmpfs::create` below an existing directory. Neither a file nor a directory: nothing happens. */
    method Create(parent: Id, name: Str, kind: Kind) returns (node: Option<Id>)
      requires Valid() && IsDir(nodes, parent) && IsName(name) && name !in nodes[parent].children
      modifies this
      ensures Valid()
      ensures kind == None_ ==> node == None && nodes == old(nodes)
      ensures kind != None_ ==> node == Some(old(next)) && nodes == Added(old(nodes), parent, name, kind, old(next))
    {
      hide WellFormed;
      if kind == None_ {
        return None;
      }
      var n := next;
      next := next + 1;
      ghost var was := nodes;
      AddedWellFormed(was, root, parent, name, kind, n);
      nodes := nodes[n := Node(kind, Some(parent), name, None, map[], [])];
      if kind == Directory {
        CreateDotEntries(n);
      }
      nodes := nodes[parent := nodes[parent].(children := nodes[parent].children[name := n])];
      assert nodes == Added(was, parent, name, kind, n);
      return Some(n);
    }

    /** `tmpfs::write`. A gap between the old end and the offset is storage of arbitrary content. */
    method Write(node: Id, buf: seq<Byte>, offset: nat)
      requires Valid() && node in nodes
      modifies `nodes
      ensures Valid() && node in nodes
      ensures nodes[node].kind != File ==> nodes == old(nodes)
      ensures nodes[node].kind == File ==> nodes == old(nodes)[node := old(nodes)[node].(data := nodes[node].data)]
      ensures nodes[node].kind == File ==>
                var was, now := old(nodes)[node].data, nodes[node].data;
                && |now| == (if offset + |buf| > |was| then offset + |buf| else |was|)
                && now[offset..offset + |buf|] == buf
                && forall i :: 0 <= i < |was| && !(offset <= i < offset + |buf|) ==> now[i] == was[i]
    {
      hide WellFormed;
      if nodes[node].kind != File {
        return;
      }
      var data := nodes[node].data;
      if offset + |buf| > |data| {
        var grown: seq<Byte> :| |grown| == offset + |buf| && data <= grown by { GrownExists(data, offset + |buf|); }
        data := grown;
      }
      data := data[..offset] + buf + data[offset + |buf|..];
      DataOnly(nodes, root, node, data);
      nodes := nodes[node := nodes[node].(data := data)];
    }

    /** `tmpfs::read` */
    method Read(node: Id, buf: array<Byte>, count: nat, offset: nat) returns (n: int)
      requires Valid() && node in nodes && count <= buf.Length
      modifies buf
      ensures nodes[node].kind != File ==> n == -1
      ensures nodes[node].kind == File ==>
                var data := nodes[node].data;
                && n == (if offset >= |data| then 0 else if offset + count > |data| then |data| - offset else count)
                && (n > 0 ==> buf[..n] == data[offset..offset + n])
      ensures forall i :: (if n > 0 then n else 0) <= i < buf.Length ==> buf[i] == old(buf[i])
    {
      hide WellFormed;
      if nodes[node].kind != File {
        return -1;
      }
      var data := nodes[node].data;
      if offset >= |data| {
        return 0;
      }
      n := if offset + count > |data| then |data| - offset else count;
      forall i | 0 <= i < n {
        buf[i] := data[offset + i];
      }
    }
  }

  lemma GrownExists(data: seq<Byte>, n: nat)
    requires |data| <= n
    ensures exists grown: seq<Byte> :: |grown| == n && data <= grown
  {
    var grown := data + seq(n - |data|, _ => 0);
    assert |grown| == n && data <= grown;
  }

  /** Contents play no part in the shape of the tree. */
  lemma DataOnly(ns: Nodes, root: Id, f: Id, data: seq<Byte>)
    requires WellFormed(ns, root) && f in ns
    ensures WellFormed(ns[f := ns[f].(data := data)], root)
  {
    hide IsName, DotEntries, Rooted, ChildLink;
    var r := ns[f := ns[f].(data := data)];
    forall d | IsDir(r, d)
      ensures DotEntries(r, d) && Rooted(r, root, d)
      ensures forall x :: x in r[d].children && x != DOT && x != DOTDOT ==> ChildLink(r, d, x, r[d].children[x])
    {
      assert IsDir(ns, d);
      DataOnlyDir(ns, root, f, data, d);
    }
  }

  lemma DataOnlyDir(ns: Nodes, root: Id, f: Id, data: seq<Byte>, d: Id)
    requires WellFormed(ns, root) && f in ns && IsDir(ns, d)
    ensures var r := ns[f := ns[f].(data := data)];
            && DotEntries(r, d) && Rooted(r, root, d)
            && forall x :: x in r[d].children && x != DOT && x != DOTDOT ==> ChildLink(r, d, x, r[d].children[x])
  {
    hide IsName, WellFormed;
    DirFacts(ns, root, d);
  }

  lemma {:induction false} DataOnlyFold(ns: Nodes, f: Id, data: seq<Byte>, d: Id, cs: seq<Str>)
    requires f in ns
    ensures Fold(ns[f := ns[f].(data := data)], d, cs) == Fold(ns, d, cs)
    decreases |cs|
  {
    if cs != [] {
      var r := ns[f := ns[f].(data := data)];
      assert Step(r, d, cs[0]) == Step(ns, d, cs[0]);
      var n := Step(ns, d, cs[0]);
      if n.Some? {
        DataOnlyFold(ns, f, data, n.value, cs[1..]);
      }
    }
  }

  // ---------- `getcwd` and `chdir` ----------

  /** The string in a buffer: its bytes up to the first zero. */
  function CString(s: seq<Byte>): (r: Str)
    ensures r <= s && 0 !in r && (|r| < |s| ==> s[|r|] == 0)
  {
    if s == [] || s[0] == 0 then [] else [s[0]] + CString(s[1..])
  }

  lemma {:induction false} CStringOf(p: Str, rest: seq<Byte>)
    requires 0 !in p && (rest == [] || rest[0] == 0)
    ensures CString(p + rest) == p
  {
    if p != [] {
      assert (p + rest)[1..] == p[1..] + rest;
      CStringOf(p[1..], rest);
    }
  }

  /** The printed path leads back to every directory but the root, which the resolver has no name for. */
  lemma CwdPathLeadsBack(ns: Nodes, root: Id, d: Id)
    requires WellFormed(ns, root) && IsDir(ns, d)
    ensures Fold(ns, root, Components(CwdPath(ns, root, d)[1..])) == if d != root then Some(d) else None
    ensures 0 !in CwdPath(ns, root, d)
    // it is a slash alone for the root, and names behind one slash each for the others
    ensures d == root ==> CwdPath(ns, root, d) == [SLASH]
    ensures d != root ==>
              var names := Components(CwdPath(ns, root, d)[1..]);
              AreNames(names) && CwdPath(ns, root, d) == [SLASH] + Join(names)
  {
    var names := NamesTo(ns, root, d);
    NamesToLead(ns, root, d);
    assert CwdPath(ns, root, d)[1..] == Join(names);
    if d != root {
      ComponentsJoin(names);
      JoinNonEmpty(names);
    } else {
      assert Components([]) == [[]];
      DirFacts(ns, root, root);
      assert [] in ns[root].children ==> ChildLink(ns, root, [], ns[root].children[[]]);
    }
  }

  /** `getcwd` into a zeroed buffer longer than the path, then `chdir` to the string found there from
      any directory: back where `getcwd` was called, unless that was the root. */
  method GetThenChange(fs: FileSystem, cwd: Id, other: Id, buf: array<Byte>) returns (outcome: Outcome, dir: Id)
    requires fs.Valid() && IsDir(fs.nodes, cwd) && IsDir(fs.nodes, other)
    requires |CwdPath(fs.nodes, fs.root, cwd)| < buf.Length && forall i :: 0 <= i < buf.Length ==> buf[i] == 0
    modifies buf
    ensures if cwd != fs.root then outcome == Success && dir == cwd else outcome == NoEntry && dir == other
  {
    hide WellFormed, Components, CString;
    ghost var path := CwdPath(fs.nodes, fs.root, cwd);
    var printed := fs.GetCwd(cwd, buf, buf.Length);
    assert printed == Success;
    CwdPathLeadsBack(fs.nodes, fs.root, cwd);
    var s := CString(buf[..]);
    assert buf[..] == path + buf[|path|..];
    CStringOf(path, buf[|path|..]);
    outcome, dir := fs.ChDir(other, s);
  }

  /** The first slash is stored before the size is looked at. */
  function AtLeastOne(size: nat): nat {
    if size == 0 then 1 else size
  }

  /** The printing loop: as much of the path as the buffer holds, and one byte even if its size is 0. */
  method PrintOut(pushed: seq<Str>, ghost names: seq<Str>, buf: array<Byte>, size: nat) returns (outcome: Outcome)
    requires size <= buf.Length && 0 < buf.Length && pushed != []
    requires |names| == |pushed| && forall i :: 0 <= i < |names| ==> names[i] == pushed[|pushed| - 1 - i]
    modifies buf
    ensures var path := Printed(names);
            && outcome == (if |path| < size then Success else OutOfRange)
            && var n := if |path| < size then |path| else AtLeastOne(size);
               && (forall i :: 0 <= i < n ==> buf[i] == path[i])
               && (forall i :: n <= i < buf.Length ==> buf[i] == old(buf[i]))
  {
    hide Printed;
    ghost var path := Printed(names);
    assert Printed(names[..0]) == [] by { PrintedNone(names); }
    var index := 0;
    for n := |pushed| downto 0
      invariant n == |pushed| || size > 0
      invariant index < AtLeastOne(size) && index == |Printed(names[..|names| - n])| <= |path|
      invariant forall i :: 0 <= i < index ==> buf[i] == path[i]
      invariant forall i :: index <= i < buf.Length ==> buf[i] == old(buf[i])
    {
      ghost var k := |names| - n - 1;
      ghost var start := index;
      PrintedAt(names, k);
      buf[index] := SLASH;
      index := index + 1;
      if index >= size {
        return OutOfRange;
      }
      var name := pushed[n];
      for j := 0 to |name|
        invariant index < size && index == start + 1 + j
        invariant forall i :: 0 <= i < index ==> buf[i] == path[i]
        invariant forall i :: index <= i < buf.Length ==> buf[i] == old(buf[i])
      {
        buf[index] := name[j];
        index := index + 1;
        if index >= size {
          return OutOfRange;
        }
      }
    }
    assert names[..|names|] == names;
    return Success;
  }

  lemma ReduceIn(ns: Nodes, root: Id, d: Id, n: Str)
    requires WellFormed(ns, root) && IsDir(ns, d) && n in ns[d].children
    ensures Reduce(ns, ns[d].children[n]) in ns
  {
    StepReal(ns, root, d, n);
  }

  lemma RootOrParent(ns: Nodes, root: Id, d: Id)
    requires WellFormed(ns, root) && IsDir(ns, d)
    ensures ns[d].parent == None <==> d == root
    ensures d != root ==> IsDir(ns, ns[d].parent.value) && ns[d].parent.value < d
    ensures d != root ==> NamesTo(ns, root, d) == NamesTo(ns, root, ns[d].parent.value) + [ns[d].name]
    ensures d == root ==> ns[d].name == []
  {
    assert Rooted(ns, root, d);
    if d != root {
      ParentBelow(ns, root, d);
    }
  }

  /** A slash before each name. */
  function Printed(names: seq<Str>): Str {
    if names == [] then [] else [SLASH] + names[0] + Printed(names[1..])
  }

  lemma {:induction false} PrintedAppend(a: seq<Str>, n: Str)
    ensures Printed(a + [n]) == Printed(a) + [SLASH] + n
  {
    if a == [] {
      assert (a + [n])[1..] == [];
    } else {
      assert (a + [n])[1..] == a[1..] + [n];
      PrintedAppend(a[1..], n);
    }
  }

  lemma PrintedNone(names: seq<Str>)
    ensures Printed(names[..0]) == []
  {
  }

  /** Where the `n`-th slash and name stand in the whole. */
  lemma PrintedAt(names: seq<Str>, n: nat)
    requires n < |names|
    ensures var at := |Printed(names[..n])|;
            && |Printed(names[..n + 1])| == at + 1 + |names[n]| <= |Printed(names)|
            && Printed(names)[at] == SLASH
            && forall j :: 0 <= j < |names[n]| ==> Printed(names)[at + 1 + j] == names[n][j]
  {
    hide Printed;
    assert names[..n + 1] == names[..n] + [names[n]];
    PrintedAppend(names[..n], names[n]);
    PrintedPrefix(names, n + 1);
    var more := Printed(names[..n]) + [SLASH] + names[n];
    assert more == Printed(names)[..|more|];
  }

  lemma {:induction false} PrintedPrefix(names: seq<Str>, n: nat)
    requires n <= |names|
    ensures Printed(names[..n]) <= Printed(names)
  {
    if n == 0 {
      assert names[..n] == [];
    } else {
      assert names[..n][1..] == names[1..][..n - 1];
      PrintedPrefix(names[1..], n - 1);
    }
  }

  lemma {:induction false} PrintedIsJoin(names: seq<Str>)
    requires names != []
    ensures Printed(names) == [SLASH] + Join(names)
  {
    if |names| > 1 {
      PrintedIsJoin(names[1..]);
    } else {
      assert names[1..] == [];
    }
  }

  lemma PrintedNames(ns: Nodes, root: Id, d: Id)
    requires WellFormed(ns, root) && IsDir(ns, d)
    ensures CwdPath(ns, root, d) == Printed(if d == root then [[]] else NamesTo(ns, root, d))
  {
    NamesToLead(ns, root, d);
    PrintedIsJoin(if d == root then [[]] else NamesTo(ns, root, d));
  }
}
