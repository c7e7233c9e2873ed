/** Path strings (vfs.cpp): how a path falls into components. Strings are sequences of bytes without
    the terminating zero. */
module Paths {
  import opened Bytes

  type Str = seq<Byte>

  const SLASH: Byte := 47
  const DOT: Str := [46]
  const DOTDOT: Str := [46, 46]

  /** Where `strchr` finds the first slash; the length if there is none. */
  function FindSlash(p: Str): (k: nat)
    ensures k <= |p|
    ensures forall i :: 0 <= i < k ==> p[i] != SLASH
    ensures k < |p| ==> p[k] == SLASH
  {
    if p == [] || p[0] == SLASH then 0 else 1 + FindSlash(p[1..])
  }

  /** The components of a path. One slash at the end of it adds none. */
  function Components(p: Str): (cs: seq<Str>)
    ensures |cs| > 0
    decreases |p|
  {
    var k := FindSlash(p);
    if k == |p| || k == |p| - 1 then [p[..k]] else [p[..k]] + Components(p[k + 1..])
  }

  /** A name a directory entry may have. */
  predicate IsName(n: Str) {
    n != [] && SLASH !in n && 0 !in n && n != DOT && n != DOTDOT
  }

  predicate AreNames(ns: seq<Str>) {
    forall i :: 0 <= i < |ns| ==> IsName(ns[i])
  }

  /** Names joined by slashes. */
  function Join(ns: seq<Str>): Str {
    if ns == [] then [] else if |ns| == 1 then ns[0] else ns[0] + [SLASH] + Join(ns[1..])
  }

  lemma FindSlashAt(a: Str, b: Str)
    requires SLASH !in a
    ensures FindSlash(a + [SLASH] + b) == |a|
    ensures FindSlash(a) == |a|
  {
    var p := a + [SLASH] + b;
    assert p[|a|] == SLASH;
    assert forall i :: 0 <= i < |a| ==> p[i] == a[i];
  }

  lemma {:induction false} JoinNonEmpty(ns: seq<Str>)
    requires AreNames(ns) && ns != []
    ensures Join(ns) != [] && Join(ns)[0] != SLASH && 0 !in Join(ns)
  {
    if |ns| > 1 {
      JoinNonEmpty(ns[1..]);
    }
  }

  predicate NoSlashes(cs: seq<Str>) {
    forall i :: 0 <= i < |cs| ==> SLASH !in cs[i]
  }

  lemma JoinSplit(cs: seq<Str>)
    requires NoSlashes(cs) && |cs| > 1
    ensures var p, rest := Join(cs), Join(cs[1..]);
            && FindSlash(p) == FindSlash(p + [SLASH]) == |cs[0]| && p[..|cs[0]|] == (p + [SLASH])[..|cs[0]|] == cs[0]
            && p[|cs[0]| + 1..] == rest && (p + [SLASH])[|cs[0]| + 1..] == rest + [SLASH]
            && |p| == |cs[0]| + 1 + |rest|
  {
    hide Components, FindSlash;
    var p, rest := Join(cs), Join(cs[1..]);
    FindSlashAt(cs[0], rest);
    FindSlashAt(cs[0], rest + [SLASH]);
    assert p == cs[0] + [SLASH] + rest;
    assert p + [SLASH] == cs[0] + [SLASH] + (rest + [SLASH]);
  }

  lemma LastComponent(c: Str)
    requires SLASH !in c
    ensures Components(c) == Components(c + [SLASH]) == [c]
  {
    hide FindSlash;
    FindSlashAt(c, []);
    assert c + [SLASH] == c + [SLASH] + [] && (c + [SLASH])[..|c|] == c == c[..|c|];
  }

  lemma FirstComponent(p: Str)
    requires FindSlash(p) + 1 < |p|
    ensures Components(p) == [p[..FindSlash(p)]] + Components(p[FindSlash(p) + 1..])
  {
    hide FindSlash;
  }

  /** Splitting undoes joining, whatever lies between the slashes, be it names, dots or nothing; only where
      nothing lies behind the last slash, that slash adds no component. */
  lemma {:induction false} ComponentsJoin(cs: seq<Str>)
    requires NoSlashes(cs) && cs != [] && (|cs| == 1 || cs[|cs| - 1] != [])
    ensures Components(Join(cs)) == cs && (|cs| > 1 ==> Join(cs) != [])
  {
    hide FindSlash, Components;
    if |cs| == 1 {
      assert Join(cs) == cs[0];
      LastComponent(cs[0]);
      assert cs == [cs[0]];
    } else {
      JoinSplit(cs);
      ComponentsJoin(cs[1..]);
      assert Join(cs[1..]) != [];
      FirstComponent(Join(cs));
      assert cs == [cs[0]] + cs[1..];
    }
  }

  /** One more slash behind any joined components adds none. */
  lemma {:induction false} ComponentsJoinSlash(cs: seq<Str>)
    requires NoSlashes(cs) && cs != []
    ensures Components(Join(cs) + [SLASH]) == cs
  {
    hide FindSlash, Components;
    if |cs| == 1 {
      assert Join(cs) == cs[0];
      LastComponent(cs[0]);
      assert cs == [cs[0]];
    } else {
      hide Join;
      JoinSplit(cs);
      ComponentsJoinSlash(cs[1..]);
      var q := Join(cs) + [SLASH];
      FirstComponent(q);
      assert cs == [cs[0]] + cs[1..];
    }
  }

  /** Every path is its components joined, with or without a slash behind them. */
  lemma {:induction false} JoinComponents(p: Str)
    ensures NoSlashes(Components(p))
    ensures p == Join(Components(p)) || p == Join(Components(p)) + [SLASH]
    decreases |p|
  {
    hide FindSlash;
    var k := FindSlash(p);
    if k == |p| || k == |p| - 1 {
      assert Components(p) == [p[..k]];
      assert k < |p| ==> p == p[..k] + [SLASH];
    } else {
      var rest := p[k + 1..];
      JoinComponents(rest);
      assert p == p[..k] + [SLASH] + rest;
      assert Components(p)[1..] == Components(rest) && |Components(rest)| > 0;
      assert rest != Join(Components(rest)) ==> p == (p[..k] + [SLASH] + Join(Components(rest))) + [SLASH];
    }
  }

  lemma {:induction false} JoinAppend(ns: seq<Str>, n: Str)
    requires ns != []
    ensures Join(ns + [n]) == Join(ns) + [SLASH] + n
  {
    if |ns| == 1 {
      assert (ns + [n])[1..] == [n];
    } else {
      JoinAppend(ns[1..], n);
      assert (ns + [n])[1..] == ns[1..] + [n];
    }
  }

  /** `a/` and `a` have the same components. */
  lemma {:induction false} TrailingSlash(p: Str)
    requires p != [] && p[|p| - 1] != SLASH
    ensures Components(p + [SLASH]) == Components(p)
    decreases |p|
  {
    var k := FindSlash(p);
    var q := p + [SLASH];
    if k == |p| {
      FindSlashAt(p, []);
      assert p + [SLASH] + [] == q;
      assert q[..k] == p == p[..k];
    } else {
      FindSlashAt(p[..k], p[k + 1..]);
      FindSlashAt(p[..k], p[k + 1..] + [SLASH]);
      assert p[..k] + [SLASH] + (p[k + 1..] + [SLASH]) == q;
      assert q[..k] == p[..k];
      assert q[k + 1..] == p[k + 1..] + [SLASH];
      TrailingSlash(p[k + 1..]);
    }
  }
}
