/** The node tree of the virtual file system (vfs.cpp) and what a path means in it. Nodes are numbered
    in the order of their creation, so a parent's number is below its children's. */
module Tree {
  import opened Wrappers
  import opened Bytes
  import opened Paths

  type Id = nat

  datatype Kind = None_ | File | Directory

  datatype Node = Node(kind: Kind, parent: Option<Id>, name: Str, redirect: Option<Id>, children: map<Str, Id>,
                       data: seq<Byte>)

  type Nodes = map<Id, Node>

  ghost predicate IsDir(ns: Nodes, d: Id) {
    d in ns && ns[d].kind == Directory
  }

  /** `d` has the two redirecting entries of `create_dotentries`. */
  ghost predicate DotEntries(ns: Nodes, d: Id)
    requires d in ns
  {
    var ch := ns[d].children;
    && DOT in ch && ch[DOT] in ns && ns[ch[DOT]].redirect == Some(d)
    && DOTDOT in ch && ch[DOTDOT] in ns
    && ns[ch[DOTDOT]].redirect == Some(if ns[d].parent.Some? then ns[d].parent.value else d)
  }

  /** `c` is the real child of `d` under the name `n`. */
  ghost predicate ChildLink(ns: Nodes, d: Id, n: Str, c: Id) {
    && IsName(n) && c in ns && d < c
    && ns[c].parent == Some(d) && ns[c].name == n && ns[c].redirect == None && ns[c].kind != None_
  }

  /** `c` is redirect-free and, unless it is the root, a child of a directory. */
  ghost predicate Rooted(ns: Nodes, root: Id, c: Id)
    requires c in ns
  {
    && ns[c].redirect == None
    && (c == root <==> ns[c].parent == None)
    && (c != root ==> IsDir(ns, ns[c].parent.value) && ns[c].name in ns[ns[c].parent.value].children
                      && ns[ns[c].parent.value].children[ns[c].name] == c && IsName(ns[c].name))
  }

  ghost predicate WellFormed(ns: Nodes, root: Id) {
    && IsDir(ns, root) && ns[root].name == []
    && (forall d :: IsDir(ns, d) ==> DotEntries(ns, d))
    && (forall d :: IsDir(ns, d) ==> Rooted(ns, root, d))
    && (forall d, n {:trigger ns[d].children[n]} {:trigger n in ns[d].children} ::
          IsDir(ns, d) && n in ns[d].children && n != DOT && n != DOTDOT ==> ChildLink(ns, d, n, ns[d].children[n]))
    && (forall c :: c in ns && ns[c].redirect.Some? ==> IsDir(ns, ns[c].redirect.value))
  }

  /** `reduce_node`: redirects lead to directories, which do not redirect further. */
  function Reduce(ns: Nodes, c: Id): Id {
    if c in ns && ns[c].redirect.Some? then ns[c].redirect.value else c
  }

  /** One step of a path: the entry `n` of directory `d`. */
  function Step(ns: Nodes, d: Id, n: Str): Option<Id> {
    if d in ns && ns[d].kind == Directory && n in ns[d].children then Some(Reduce(ns, ns[d].children[n])) else None
  }

  /** The node a list of components leads to. */
  function Fold(ns: Nodes, d: Id, cs: seq<Str>): Option<Id>
    decreases |cs|
  {
    if cs == [] then Some(d)
    else
      var n := Step(ns, d, cs[0]);
      if n.Some? then Fold(ns, n.value, cs[1..]) else None
  }

  lemma {:induction false} FoldAppend(ns: Nodes, d: Id, a: seq<Str>, b: seq<Str>)
    ensures Fold(ns, d, a + b) == if Fold(ns, d, a).Some? then Fold(ns, Fold(ns, d, a).value, b) else None
    decreases |a|
  {
    if a == [] {
      assert a + b == b;
    } else {
      assert (a + b)[1..] == a[1..] + b;
      var n := Step(ns, d, a[0]);
      if n.Some? {
        FoldAppend(ns, n.value, a[1..], b);
      }
    }
  }

  lemma FoldSnoc(ns: Nodes, d: Id, a: seq<Str>, x: Str)
    ensures Fold(ns, d, a + [x]) == if Fold(ns, d, a).Some? then Step(ns, Fold(ns, d, a).value, x) else None
  {
    FoldAppend(ns, d, a, [x]);
    if Fold(ns, d, a).Some? {
      var s := Step(ns, Fold(ns, d, a).value, x);
      assert s.Some? ==> Fold(ns, s.value, []) == s;
      assert [x][1..] == [];
    }
  }

  /** What each kind of step does. */
  lemma StepCases(ns: Nodes, root: Id, d: Id, n: Str)
    requires WellFormed(ns, root) && IsDir(ns, d)
    ensures Step(ns, d, DOT) == Some(d)
    ensures Step(ns, d, DOTDOT) == if d == root then Some(root) else ns[d].parent
    ensures n != DOT && n != DOTDOT && Step(ns, d, n).Some? ==> ChildLink(ns, d, n, Step(ns, d, n).value)
  {
    assert DotEntries(ns, d) && Rooted(ns, root, d);
    if n != DOT && n != DOTDOT && n in ns[d].children {
      assert ChildLink(ns, d, n, ns[d].children[n]);
    }
  }

  /** Nodes of a path of a well-formed tree are files or directories, never the redirecting entries. */
  lemma {:induction false} FoldReal(ns: Nodes, root: Id, d: Id, cs: seq<Str>)
    requires WellFormed(ns, root) && IsDir(ns, d)
    ensures Fold(ns, d, cs).Some? ==> Fold(ns, d, cs).value in ns && ns[Fold(ns, d, cs).value].kind != None_
    decreases |cs|
  {
    hide WellFormed, ChildLink;
    if cs != [] {
      StepReal(ns, root, d, cs[0]);
      var n := Step(ns, d, cs[0]);
      if n.Some? && cs[1..] != [] {
        if IsDir(ns, n.value) {
          FoldReal(ns, root, n.value, cs[1..]);
        } else {
          assert Step(ns, n.value, cs[1..][0]) == None;
        }
      }
    }
  }

  lemma StepReal(ns: Nodes, root: Id, d: Id, n: Str)
    requires WellFormed(ns, root) && IsDir(ns, d)
    ensures Step(ns, d, n).Some? ==> Step(ns, d, n).value in ns && ns[Step(ns, d, n).value].kind != None_
  {
    StepCases(ns, root, d, n);
    assert Rooted(ns, root, d);
  }

  // ---------- the result of `path_to_node` ----------

  datatype PathResult = PathResult(parent: Option<Id>, target: Option<Id>, basename: Option<Str>)

  const NOWHERE := PathResult(None, None, None)

  /** The search for components `cs` from `d`: the directory the last lookup was made in, what it found,
      and the name looked up. A missing component in the middle ends it like a missing last one. */
  function Resolve(ns: Nodes, d: Id, cs: seq<Str>): PathResult
    requires cs != []
    decreases |cs|
  {
    if !(d in ns && ns[d].kind == Directory) then NOWHERE
    else if cs[0] !in ns[d].children then PathResult(Some(d), None, Some(cs[0]))
    else
      var n := Reduce(ns, ns[d].children[cs[0]]);
      if |cs| == 1 then PathResult(Some(d), Some(n), Some(cs[0])) else Resolve(ns, n, cs[1..])
  }

  /** The target is the fold of child lookup over the components; when only the last one is missing,
      the result names the directory it is missing from. */
  lemma {:induction false} ResolveIsFold(ns: Nodes, d: Id, cs: seq<Str>)
    requires cs != []
    ensures Resolve(ns, d, cs).target == Fold(ns, d, cs)
    ensures var up := Fold(ns, d, cs[..|cs| - 1]);
            up.Some? && up.value in ns && ns[up.value].kind == Directory ==>
              Resolve(ns, d, cs).parent == up && Resolve(ns, d, cs).basename == Some(cs[|cs| - 1])
    decreases |cs|
  {
    if |cs| == 1 {
      assert cs[1..] == [] && cs[..0] == [];
      var n := Step(ns, d, cs[0]);
      assert n.Some? ==> Fold(ns, n.value, []) == n;
    } else {
      assert cs[..|cs| - 1][1..] == cs[1..][..|cs[1..]| - 1];
      assert cs[..|cs| - 1][0] == cs[0];
      var n := Step(ns, d, cs[0]);
      if n.Some? {
        ResolveIsFold(ns, n.value, cs[1..]);
      }
    }
  }

  /** Wherever the search stops, at a missing component, at a file in the middle or at the end, the result tells
      it: the directory, what it found there, and the component. */
  lemma {:induction false} ResolveStops(ns: Nodes, d: Id, cs: seq<Str>, k: nat)
    requires k < |cs| && Fold(ns, d, cs[..k]).Some?
    ensures var p := Fold(ns, d, cs[..k]).value;
            if !(p in ns && ns[p].kind == Directory) then Resolve(ns, d, cs) == NOWHERE
            else if cs[k] !in ns[p].children then Resolve(ns, d, cs) == PathResult(Some(p), None, Some(cs[k]))
            else k == |cs| - 1 ==> Resolve(ns, d, cs) == PathResult(Some(p), Step(ns, p, cs[k]), Some(cs[k]))
    decreases |cs|
  {
    if k > 0 {
      assert cs[..k][1..] == cs[1..][..k - 1] && cs[..k][0] == cs[0];
      ResolveStops(ns, Step(ns, d, cs[0]).value, cs[1..], k - 1);
    }
  }

  // ---------- dots ----------

  /** `.` deleted and `name/..` cancelled, `stack` being what is kept so far. */
  function Normal(stack: seq<Str>, cs: seq<Str>): seq<Str>
    decreases |cs|
  {
    if cs == [] then stack
    else if cs[0] == DOT then Normal(stack, cs[1..])
    else if cs[0] == DOTDOT && stack != [] && stack[|stack| - 1] != DOTDOT then Normal(stack[..|stack| - 1], cs[1..])
    else Normal(stack + [cs[0]], cs[1..])
  }

  /** No `.` is left, and no `..` behind a name. */
  predicate IsNormal(cs: seq<Str>) {
    DOT !in cs && forall i :: 0 < i < |cs| && cs[i] == DOTDOT ==> cs[i - 1] == DOTDOT
  }

  lemma {:induction false} NormalForm(stack: seq<Str>, cs: seq<Str>)
    requires IsNormal(stack)
    ensures IsNormal(Normal(stack, cs))
    decreases |cs|
  {
    if cs != [] && cs[0] != DOT {
      if cs[0] == DOTDOT && stack != [] && stack[|stack| - 1] != DOTDOT {
        NormalForm(stack[..|stack| - 1], cs[1..]);
      } else {
        NormalForm(stack + [cs[0]], cs[1..]);
      }
    } else if cs != [] {
      NormalForm(stack, cs[1..]);
    }
  }

  lemma {:induction false} NormalKeepsTarget(ns: Nodes, root: Id, d: Id, stack: seq<Str>, cs: seq<Str>)
    requires WellFormed(ns, root) && IsDir(ns, d)
    requires DOT !in stack
    requires Fold(ns, d, stack + cs).Some?
    ensures Fold(ns, d, Normal(stack, cs)) == Fold(ns, d, stack + cs)
    decreases |cs|
  {
    hide WellFormed, ChildLink;
    if cs == [] {
      assert stack + cs == stack;
    } else {
      var c, rest := cs[0], cs[1..];
      FoldAppend(ns, d, stack, cs);
      var p := Fold(ns, d, stack).value;
      assert Step(ns, p, c).Some? && IsDir(ns, p);
      FoldReal(ns, root, d, stack);
      StepCases(ns, root, p, c);
      if c == DOT {
        FoldAppend(ns, d, stack, rest);
        NormalKeepsTarget(ns, root, d, stack, rest);
      } else if c == DOTDOT && stack != [] && stack[|stack| - 1] != DOTDOT {
        var up, last := stack[..|stack| - 1], stack[|stack| - 1];
        assert stack == up + [last];
        CancelName(ns, root, d, up, last);
        FoldAppend(ns, d, up, rest);
        NormalKeepsTarget(ns, root, d, up, rest);
      } else {
        assert stack + cs == (stack + [c]) + rest;
        NormalKeepsTarget(ns, root, d, stack + [c], rest);
      }
    }
  }

  /** Going into a named directory and back up ends where it began. */
  lemma CancelName(ns: Nodes, root: Id, d: Id, up: seq<Str>, n: Str)
    requires WellFormed(ns, root) && IsDir(ns, d)
    requires n != DOT && n != DOTDOT
    requires Fold(ns, d, up + [n]).Some? && IsDir(ns, Fold(ns, d, up + [n]).value)
    ensures Fold(ns, d, up).Some?
    ensures Step(ns, Fold(ns, d, up + [n]).value, DOTDOT) == Fold(ns, d, up)
  {
    FoldSnoc(ns, d, up, n);
    var p, c := Fold(ns, d, up).value, Fold(ns, d, up + [n]).value;
    assert IsDir(ns, p) && Step(ns, p, n) == Some(c);
    StepCases(ns, root, p, n);
    StepCases(ns, root, c, DOTDOT);
    assert Rooted(ns, root, c);
  }

  /** A path all of whose steps resolve leads where it leads with dots and cancelled pairs removed. */
  lemma DotsCancel(ns: Nodes, root: Id, d: Id, cs: seq<Str>)
    requires WellFormed(ns, root) && IsDir(ns, d) && Fold(ns, d, cs).Some?
    ensures Fold(ns, d, Normal([], cs)) == Fold(ns, d, cs) && IsNormal(Normal([], cs))
  {
    assert [] + cs == cs;
    NormalForm([], cs);
    NormalKeepsTarget(ns, root, d, [], cs);
  }

  /** Going through a name and back up leads back exactly if the name is that of a directory. */
  lemma CancelIff(ns: Nodes, root: Id, d: Id, n: Str)
    requires WellFormed(ns, root) && IsDir(ns, d) && n != DOT && n != DOTDOT
    ensures Normal([], [n, DOTDOT]) == []
    ensures Fold(ns, d, [n, DOTDOT]) == Fold(ns, d, []) <==> Step(ns, d, n).Some? && IsDir(ns, Step(ns, d, n).value)
  {
    hide WellFormed;
    assert [n, DOTDOT] == [n] + [DOTDOT] && [] + [n] == [n] && [n, DOTDOT][1..] == [DOTDOT];
    assert Normal([], [n, DOTDOT]) == Normal([n], [DOTDOT]) == Normal([], []);
    FoldSnoc(ns, d, [], n);
    FoldSnoc(ns, d, [n], DOTDOT);
    if Step(ns, d, n).Some? && IsDir(ns, Step(ns, d, n).value) {
      CancelName(ns, root, d, [], n);
    }
  }

  /** No number of `..` leaves the root. */
  lemma {:induction false} RootStays(ns: Nodes, root: Id, cs: seq<Str>)
    requires WellFormed(ns, root) && forall i :: 0 <= i < |cs| ==> cs[i] == DOTDOT
    ensures Fold(ns, root, cs) == Some(root)
  {
    if cs != [] {
      StepCases(ns, root, root, DOTDOT);
      RootStays(ns, root, cs[1..]);
    }
  }

  // ---------- the absolute path of a directory ----------

  /** The names from the root down to directory `d`. */
  ghost function NamesTo(ns: Nodes, root: Id, d: Id): seq<Str>
    requires WellFormed(ns, root) && IsDir(ns, d)
    decreases d
  {
    if d == root then []
    else
      ParentBelow(ns, root, d);
      NamesTo(ns, root, ns[d].parent.value) + [ns[d].name]
  }

  lemma ParentBelow(ns: Nodes, root: Id, d: Id)
    requires WellFormed(ns, root) && IsDir(ns, d) && d != root
    ensures ns[d].parent.Some? && IsDir(ns, ns[d].parent.value) && ns[d].parent.value < d && IsName(ns[d].name)
    ensures Step(ns, ns[d].parent.value, ns[d].name) == Some(d)
  {
    assert Rooted(ns, root, d);
    var p := ns[d].parent.value;
    assert ChildLink(ns, p, ns[d].name, ns[p].children[ns[d].name]);
  }

  /** They lead back to it. */
  lemma {:induction false} NamesToLead(ns: Nodes, root: Id, d: Id)
    requires WellFormed(ns, root) && IsDir(ns, d)
    ensures Fold(ns, root, NamesTo(ns, root, d)) == Some(d)
    ensures AreNames(NamesTo(ns, root, d)) && (NamesTo(ns, root, d) == [] <==> d == root)
    decreases d
  {
    if d != root {
      ParentBelow(ns, root, d);
      var p := ns[d].parent.value;
      NamesToLead(ns, root, p);
      FoldSnoc(ns, root, NamesTo(ns, root, p), ns[d].name);
    }
  }

  // ---------- adding an entry ----------

  /** The tree with a new node `n` entered in directory `p`; a directory also gets its two redirecting
      entries, the next two nodes. */
  ghost function Added(ns: Nodes, p: Id, name: Str, kind: Kind, n: Id): Nodes
    requires p in ns
  {
    var ns1 := ns[p := ns[p].(children := ns[p].children[name := n])];
    if kind == Directory then
      ns1[n := Node(Directory, Some(p), name, None, map[DOT := n + 1, DOTDOT := n + 2], [])]
         [n + 1 := Node(None_, Some(n), DOT, Some(n), map[], [])]
         [n + 2 := Node(None_, Some(n), DOTDOT, Some(p), map[], [])]
    else ns1[n := Node(kind, Some(p), name, None, map[], [])]
  }

  ghost predicate Unused(ns: Nodes, n: Id) {
    forall c :: c in ns ==> c < n
  }

  /** The nodes of that tree. */
  lemma AddedNodes(ns: Nodes, p: Id, name: Str, kind: Kind, n: Id)
    requires p in ns && Unused(ns, n)
    ensures var r := Added(ns, p, name, kind, n);
            && (forall c :: c in ns ==>
                  c in r && r[c] == if c == p then ns[p].(children := ns[p].children[name := n]) else ns[c])
            && (forall c :: c in r ==> c in ns || c == n || (kind == Directory && (c == n + 1 || c == n + 2)))
            && n in r && r[n].kind == kind && r[n].parent == Some(p) && r[n].name == name && r[n].redirect == None
            && r[n].data == []
            && r[n].children == (if kind == Directory then map[DOT := n + 1, DOTDOT := n + 2] else map[])
            && (kind == Directory ==>
                  && n + 1 in r && n + 2 in r
                  && r[n + 1] == Node(None_, Some(n), DOT, Some(n), map[], [])
                  && r[n + 2] == Node(None_, Some(n), DOTDOT, Some(p), map[], []))
  {
  }

  lemma DirFacts(ns: Nodes, root: Id, d: Id)
    requires WellFormed(ns, root) && IsDir(ns, d)
    ensures DotEntries(ns, d) && Rooted(ns, root, d)
    ensures forall x :: x in ns[d].children && x != DOT && x != DOTDOT ==> ChildLink(ns, d, x, ns[d].children[x])
  {
  }

  /** Directories that were there keep their entries, and `p` gains one. */
  lemma AddedOldDir(ns: Nodes, root: Id, p: Id, name: Str, kind: Kind, n: Id, d: Id)
    requires WellFormed(ns, root) && IsDir(ns, p) && Unused(ns, n) && IsDir(ns, d)
    requires IsName(name) && name !in ns[p].children && kind != None_
    ensures var r := Added(ns, p, name, kind, n);
            && IsDir(r, d) && DotEntries(r, d) && Rooted(r, root, d)
            && forall x :: x in r[d].children && x != DOT && x != DOTDOT ==> ChildLink(r, d, x, r[d].children[x])
  {
    hide Added, WellFormed;
    AddedNodes(ns, p, name, kind, n);
    var r := Added(ns, p, name, kind, n);
    DirFacts(ns, root, d);
    RootIsDir(ns, root);
    forall x | x in r[d].children && x != DOT && x != DOTDOT
      ensures ChildLink(r, d, x, r[d].children[x])
    {
      if x in ns[d].children && !(d == p && x == name) {
        assert ChildLink(ns, d, x, ns[d].children[x]);
      }
    }
  }

  lemma AddedWellFormed(ns: Nodes, root: Id, p: Id, name: Str, kind: Kind, n: Id)
    requires WellFormed(ns, root) && IsDir(ns, p) && Unused(ns, n)
    requires IsName(name) && name !in ns[p].children && kind != None_
    ensures WellFormed(Added(ns, p, name, kind, n), root)
    ensures Unused(Added(ns, p, name, kind, n), n + 3)
  {
    hide Added, IsName, DotEntries, Rooted, ChildLink;
    AddedNodes(ns, p, name, kind, n);
    var r := Added(ns, p, name, kind, n);
    forall d | IsDir(r, d)
      ensures DotEntries(r, d) && Rooted(r, root, d)
      ensures forall x :: x in r[d].children && x != DOT && x != DOTDOT ==> ChildLink(r, d, x, r[d].children[x])
    {
      if d in ns {
        assert IsDir(ns, d);
        AddedOldDir(ns, root, p, name, kind, n, d);
      } else {
        AddedNewDir(ns, root, p, name, n);
      }
    }
    assert IsDir(r, root) by { AddedOldDir(ns, root, p, name, kind, n, root); }
  }

  lemma AddedNewDir(ns: Nodes, root: Id, p: Id, name: Str, n: Id)
    requires WellFormed(ns, root) && IsDir(ns, p) && Unused(ns, n) && IsName(name)
    ensures var r := Added(ns, p, name, Directory, n);
            && IsDir(r, n) && DotEntries(r, n) && Rooted(r, root, n)
            && forall x :: x in r[n].children && x != DOT && x != DOTDOT ==> ChildLink(r, n, x, r[n].children[x])
  {
    hide Added, WellFormed;
    AddedNodes(ns, p, name, Directory, n);
    assert root in ns by { RootIsDir(ns, root); }
  }

  lemma RootIsDir(ns: Nodes, root: Id)
    requires WellFormed(ns, root)
    ensures IsDir(ns, root) && ns[root].name == []
  {
  }

  /** Below `d`, named paths only go down. */
  lemma {:induction false} NamesGoDown(ns: Nodes, root: Id, d: Id, cs: seq<Str>)
    requires WellFormed(ns, root) && IsDir(ns, d) && AreNames(cs)
    ensures Fold(ns, d, cs).Some? ==> Fold(ns, d, cs).value >= d && (cs != [] ==> Fold(ns, d, cs).value > d)
    decreases |cs|
  {
    hide WellFormed;
    if cs != [] {
      var up, x := cs[..|cs| - 1], cs[|cs| - 1];
      assert cs == up + [x];
      FoldSnoc(ns, d, up, x);
      NamesGoDown(ns, root, d, up);
      if Fold(ns, d, cs).Some? {
        StepCases(ns, root, Fold(ns, d, up).value, x);
      }
    }
  }

  /** A node has one named path from `d`. */
  lemma {:induction false} PathUnique(ns: Nodes, root: Id, d: Id, a: seq<Str>, b: seq<Str>)
    requires WellFormed(ns, root) && IsDir(ns, d) && AreNames(a) && AreNames(b)
    requires Fold(ns, d, a).Some? && Fold(ns, d, a) == Fold(ns, d, b)
    ensures a == b
    decreases |a| + |b|
  {
    hide WellFormed;
    NamesGoDown(ns, root, d, a);
    NamesGoDown(ns, root, d, b);
    if a != [] && b != [] {
      var ua, xa, ub, xb := a[..|a| - 1], a[|a| - 1], b[..|b| - 1], b[|b| - 1];
      assert a == ua + [xa] && b == ub + [xb];
      FoldSnoc(ns, d, ua, xa);
      FoldSnoc(ns, d, ub, xb);
      StepCases(ns, root, Fold(ns, d, ua).value, xa);
      StepCases(ns, root, Fold(ns, d, ub).value, xb);
      PathUnique(ns, root, d, ua, ub);
    }
  }

  /** The new entry is found under its parent's path and its name; every other named path leads where it
      led. */
  lemma {:induction false} AddedFold(ns: Nodes, root: Id, p: Id, name: Str, kind: Kind, n: Id, d: Id, q: seq<Str>,
                                     cs: seq<Str>)
    requires WellFormed(ns, root) && IsDir(ns, p) && Unused(ns, n) && IsDir(ns, d)
    requires IsName(name) && name !in ns[p].children && kind != None_
    requires AreNames(q) && Fold(ns, d, q) == Some(p) && AreNames(cs)
    ensures Fold(Added(ns, p, name, kind, n), d, cs) == if cs == q + [name] then Some(n) else Fold(ns, d, cs)
    ensures cs == q + [name] ==> Fold(ns, d, cs) == None
    decreases |cs|
  {
    hide WellFormed;
    var r := Added(ns, p, name, kind, n);
    if cs == q + [name] {
      FoldSnoc(ns, d, q, name);
    }
    if cs != [] {
      var up, x := cs[..|cs| - 1], cs[|cs| - 1];
      assert cs == up + [x];
      FoldSnoc(ns, d, up, x);
      FoldSnoc(r, d, up, x);
      AddedFold(ns, root, p, name, kind, n, d, q, up);
      if Fold(ns, d, up).Some? {
        FoldReal(ns, root, d, up);
        StepAdded(ns, root, p, name, kind, n, Fold(ns, d, up).value, x);
        if Fold(ns, d, up) == Some(p) {
          PathUnique(ns, root, d, up, q);
        }
      }
      if up == q + [name] {
        assert Step(r, n, x) == None;
      }
    }
  }

  lemma ChildIn(ns: Nodes, root: Id, d: Id, x: Str)
    requires WellFormed(ns, root) && IsDir(ns, d) && x in ns[d].children && IsName(x)
    ensures ns[d].children[x] in ns && ns[ns[d].children[x]].redirect == None
  {
    assert ChildLink(ns, d, x, ns[d].children[x]);
  }

  lemma StepAdded(ns: Nodes, root: Id, p: Id, name: Str, kind: Kind, n: Id, c: Id, x: Str)
    requires WellFormed(ns, root) && IsDir(ns, p) && Unused(ns, n) && c in ns
    requires IsName(name) && name !in ns[p].children && kind != None_ && IsName(x)
    ensures Step(Added(ns, p, name, kind, n), c, x) == if c == p && x == name then Some(n) else Step(ns, c, x)
  {
    hide Added, WellFormed, IsName;
    AddedNodes(ns, p, name, kind, n);
    if IsDir(ns, c) && x in ns[c].children {
      ChildIn(ns, root, c, x);
    }
  }
}
