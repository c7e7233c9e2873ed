/** The intrusive circular list (list.hpp): heads linked both ways, standing for a sequence. */
module ListHead {

  class ListHead {
    var next: ListHead?
    var prev: ListHead?
    /** Which record the head is embedded in: what `LIST_ENTRY` computes from its address. */
    const entry: nat

    constructor (entry: nat)
      ensures this.entry == entry && next == null && prev == null
    {
      this.entry := entry;
      next, prev := null, null;
    }

    /** `init`: a list of its own. */
    method Init()
      modifies this
      ensures Ring([this])
    {
      next := this;
      prev := this;
    }

    /** `add`: puts `e` behind this head. */
    method Add(e: ListHead, ghost s: seq<ListHead>, ghost k: nat)
      requires Ring(s) && k < |s| && s[k] == this && e !in s
      modifies this, next, e
      ensures Ring(s[..k + 1] + [e] + s[k + 1..])
    {
      hide Distinct, Succ, Pred;
      ghost var r := s[..k + 1] + [e] + s[k + 1..];
      InsertedNeighbours(s, e, k);
      assert s[k].next == Succ(s, k);
      next.prev := e;
      e.next := next;
      e.prev := this;
      this.next := e;
      forall i | 0 <= i < |r|
        ensures r[i].next == Succ(r, i) && r[i].prev == Pred(r, i)
      {
        if i != k + 1 {
          ghost var j := if i <= k then i else i - 1;
          assert r[i] == s[j] && s[j] in s && old(s[j].next) == Succ(s, j) && old(s[j].prev) == Pred(s, j);
          DistinctAt(s, j, k);
        }
      }
    }

    /** `add_before`: puts `e` in front of this head, which for the first of the list is at its end. */
    method AddBefore(e: ListHead, ghost s: seq<ListHead>, ghost k: nat)
      requires Ring(s) && k < |s| && s[k] == this && e !in s
      modifies this, prev, e
      ensures Ring(if k == 0 then s + [e] else s[..k] + [e] + s[k..])
    {
      hide Distinct, Succ, Pred;
      ghost var at := if k == 0 then |s| - 1 else k - 1;
      ghost var r := s[..at + 1] + [e] + s[at + 1..];
      assert r == if k == 0 then s + [e] else s[..k] + [e] + s[k..];
      InsertedNeighbours(s, e, at);
      StandsBefore(s, k);
      assert s[k].prev == Pred(s, k) == s[at];
      prev.next := e;
      e.prev := prev;
      e.next := this;
      this.prev := e;
      forall i | 0 <= i < |r|
        ensures r[i].next == Succ(r, i) && r[i].prev == Pred(r, i)
      {
        if i != at + 1 {
          ghost var j := if i <= at then i else i - 1;
          assert r[i] == s[j] && s[j] in s && old(s[j].next) == Succ(s, j) && old(s[j].prev) == Pred(s, j);
          DistinctAt(s, j, at);
          DistinctAt(s, j, k);
        }
      }
    }

    /** `remove`: takes this head out and leaves it unlinked. */
    method Remove(ghost s: seq<ListHead>, ghost k: nat)
      requires Ring(s) && k < |s| && s[k] == this && |s| > 1
      modifies this, next, prev
      ensures Ring(s[..k] + s[k + 1..]) && next == null && prev == null
    {
      ghost var r := s[..k] + s[k + 1..];
      assert s[k].next == Succ(s, k) && s[k].prev == Pred(s, k);
      next.prev := prev;
      prev.next := next;
      this.next := null;
      this.prev := null;
      forall i | 0 <= i < |r|
        ensures r[i].next == Succ(r, i) && r[i].prev == Pred(r, i)
      {
        ghost var j := if i < k then i else i + 1;
        assert r[i] == s[j] && old(s[j].next) == Succ(s, j) && old(s[j].prev) == Pred(s, j);
      }
    }

    /** `empty` */
    predicate Empty()
      reads this
    {
      next == this
    }
  }

  ghost function Inserted(s: seq<ListHead>, e: ListHead, k: nat): seq<ListHead>
    requires k < |s|
  {
    s[..k + 1] + [e] + s[k + 1..]
  }

  lemma InsertedAt(s: seq<ListHead>, e: ListHead, k: nat)
    requires k < |s|
    ensures |Inserted(s, e, k)| == |s| + 1
    ensures forall i {:trigger Inserted(s, e, k)[i]} :: 0 <= i <= |s| ==>
              Inserted(s, e, k)[i] == if i <= k then s[i] else if i == k + 1 then e else s[i - 1]
  {
  }

  lemma InsertedDistinct(s: seq<ListHead>, e: ListHead, k: nat)
    requires Distinct(s) && k < |s| && e !in s
    ensures Distinct(Inserted(s, e, k))
  {
    InsertedAt(s, e, k);
  }

  lemma InsertedSucc(s: seq<ListHead>, e: ListHead, k: nat, i: nat)
    requires k < |s| && i <= |s|
    ensures |Inserted(s, e, k)| == |s| + 1
    ensures Succ(Inserted(s, e, k), i) ==
            if i == k then e else if i == k + 1 then Succ(s, k) else Succ(s, if i < k then i else i - 1)
  {
    InsertedAt(s, e, k);
  }

  lemma InsertedPred(s: seq<ListHead>, e: ListHead, k: nat, i: nat)
    requires Distinct(s) && k < |s| && i <= |s|
    ensures |Inserted(s, e, k)| == |s| + 1
    ensures Pred(Inserted(s, e, k), i) ==
            if i == k + 1 then s[k]
            else
              var j := if i <= k then i else i - 1;
              if s[j] == Succ(s, k) then e else Pred(s, j)
  {
    InsertedAt(s, e, k);
  }

  /** Who stands next to whom once `e` is put behind `s[k]`. */
  lemma InsertedNeighbours(s: seq<ListHead>, e: ListHead, k: nat)
    requires Distinct(s) && k < |s| && e !in s
    ensures var r := s[..k + 1] + [e] + s[k + 1..];
            && Distinct(r) && |r| == |s| + 1 && r[k + 1] == e && Succ(r, k + 1) == Succ(s, k) && Pred(r, k + 1) == s[k]
            && forall i :: 0 <= i < |r| && i != k + 1 ==>
                 var j := if i <= k then i else i - 1;
                 && r[i] == s[j] && Succ(r, i) == (if j == k then e else Succ(s, j))
                 && Pred(r, i) == (if s[j] == Succ(s, k) then e else Pred(s, j))
  {
    var r := Inserted(s, e, k);
    assert r == s[..k + 1] + [e] + s[k + 1..];
    hide Inserted, Succ, Pred, Distinct;
    InsertedAt(s, e, k);
    InsertedDistinct(s, e, k);
    forall i: nat | i <= |s|
      ensures Succ(r, i) == if i == k then e else if i == k + 1 then Succ(s, k) else Succ(s, if i < k then i else i - 1)
      ensures Pred(r, i) ==
              if i == k + 1 then s[k]
              else
                var j := if i <= k then i else i - 1;
                if s[j] == Succ(s, k) then e else Pred(s, j)
    {
      InsertedSucc(s, e, k, i);
      InsertedPred(s, e, k, i);
    }
  }

  lemma StandsBefore(s: seq<ListHead>, k: nat)
    requires k < |s|
    ensures var at := if k == 0 then |s| - 1 else k - 1;
            Pred(s, k) == s[at] && Succ(s, at) == s[k]
  {
  }

  lemma DistinctAt(s: seq<ListHead>, i: nat, j: nat)
    requires Distinct(s) && i < |s| && j < |s|
    ensures s[i] == s[j] <==> i == j
  {
  }

  ghost predicate Distinct(s: seq<ListHead>) {
    forall i, j :: 0 <= i < j < |s| ==> s[i] != s[j]
  }

  /** The heads of `s`, in this order, form a circle in both directions. */
  ghost predicate Ring(s: seq<ListHead>)
    reads s
  {
    && |s| > 0 && Distinct(s)
    && (forall i {:trigger s[i].next} :: 0 <= i < |s| ==> s[i].next == Succ(s, i))
    && (forall i {:trigger s[i].prev} :: 0 <= i < |s| ==> s[i].prev == Pred(s, i))
  }

  function Succ(s: seq<ListHead>, i: nat): ListHead
    requires i < |s|
  {
    if i + 1 < |s| then s[i + 1] else s[0]
  }

  function Pred(s: seq<ListHead>, i: nat): ListHead
    requires i < |s|
  {
    if i > 0 then s[i - 1] else s[|s| - 1]
  }
}
