/** The open-addressing hash map (hashmap.hpp): it behaves as a multiset of entries. Slots of erased
    entries are never used again, and a lookup tries every slot. */
module HashMap {
  import opened Wrappers
  import opened Bytes

  type Key = seq<Byte>

  /** `char` is signed, so bytes from 128 on are sign-extended. */
  function Extended(c: Byte): bv32 {
    if c < 128 then c as bv32 else (c as bv32) | 0xFFFF_FF00
  }

  function Times33(h: bv32): (r: bv32)
    ensures r == h * 33
  {
    (h << 5) + h
  }

  /** djb2a on a C string. */
  function Hash(key: Key): bv32 {
    if key == [] then 5381 else Times33(Hash(key[..|key| - 1])) ^ Extended(key[|key| - 1])
  }

  datatype Slot<V> = Empty | Deleted | Live(key: Key, value: V)

  ghost function EntryOf<V>(s: Slot<V>): multiset<(Key, V)> {
    if s.Live? then multiset{(s.key, s.value)} else multiset{}
  }

  /** The entries in a slot array. */
  ghost function Entries<V>(s: seq<Slot<V>>): multiset<(Key, V)> {
    if s == [] then multiset{} else EntryOf(s[0]) + Entries(s[1..])
  }

  /** How many slots are not empty, erased ones included. */
  ghost function Used<V>(s: seq<Slot<V>>): nat {
    if s == [] then 0 else (if s[0].Empty? then 0 else 1) + Used(s[1..])
  }

  lemma {:induction false} StoreSlot<V>(s: seq<Slot<V>>, i: nat, x: Slot<V>)
    requires i < |s|
    ensures Entries(s[i := x]) + EntryOf(s[i]) == Entries(s) + EntryOf(x)
  {
    hide EntryOf;
    if i == 0 {
      assert s[i := x][1..] == s[1..];
    } else {
      StoreSlot(s[1..], i - 1, x);
      assert s[i := x][1..] == s[1..][i - 1 := x];
      var first, rest, stored := EntryOf(s[0]), Entries(s[1..]), Entries(s[1..][i - 1 := x]);
      assert Entries(s[i := x]) == first + stored && Entries(s) == first + rest;
      assert (first + stored) + EntryOf(s[i]) == first + (stored + EntryOf(s[i]));
      assert (first + rest) + EntryOf(x) == first + (rest + EntryOf(x));
    }
  }

  lemma {:induction false} StoreUsed<V>(s: seq<Slot<V>>, i: nat, x: Slot<V>)
    requires i < |s|
    ensures Used(s[i := x]) == Used(s) - (if s[i].Empty? then 0 else 1) + (if x.Empty? then 0 else 1)
  {
    if i == 0 {
      assert s[i := x][1..] == s[1..];
    } else {
      StoreUsed(s[1..], i - 1, x);
      assert s[i := x][1..] == s[1..][i - 1 := x];
    }
  }

  lemma {:induction false} AppendSlot<V>(s: seq<Slot<V>>, x: Slot<V>)
    ensures Entries(s + [x]) == Entries(s) + EntryOf(x)
    ensures Used(s + [x]) == Used(s) + (if x.Empty? then 0 else 1)
  {
    if s == [] {
      assert s + [x] == [x];
    } else {
      assert (s + [x])[1..] == s[1..] + [x];
      AppendSlot(s[1..], x);
    }
  }

  lemma {:induction false} AllEmpty<V>(s: seq<Slot<V>>)
    requires forall i :: 0 <= i < |s| ==> s[i].Empty?
    ensures Entries(s) == multiset{} && Used(s) == 0
  {
    if s != [] {
      AllEmpty(s[1..]);
    }
  }

  /** A used count below the capacity leaves an empty slot. */
  lemma {:induction false} EmptySlotExists<V>(s: seq<Slot<V>>)
    requires Used(s) < |s|
    ensures exists i :: 0 <= i < |s| && s[i].Empty?
  {
    if !s[0].Empty? {
      EmptySlotExists(s[1..]);
      var i :| 0 <= i < |s[1..]| && s[1..][i].Empty?;
      assert s[i + 1].Empty?;
    }
  }

  lemma {:induction false} EntriesBound<V>(s: seq<Slot<V>>)
    ensures |Entries(s)| <= Used(s) <= |s|
  {
    if s != [] {
      EntriesBound(s[1..]);
    }
  }

  /** Membership in the entries is membership in a slot. */
  lemma {:induction false} EntryInSlot<V>(s: seq<Slot<V>>, key: Key, value: V)
    ensures (key, value) in Entries(s) <==> exists i :: 0 <= i < |s| && s[i] == Live(key, value)
  {
    if s != [] {
      EntryInSlot(s[1..], key, value);
      if i :| 0 <= i < |s[1..]| && s[1..][i] == Live(key, value) {
        assert s[i + 1] == Live(key, value);
      }
      if i :| 0 <= i < |s| && s[i] == Live(key, value) {
        assert i > 0 ==> s[1..][i - 1] == Live(key, value);
      }
    }
  }

  /** The probe sequence from any start reaches every slot. */
  function Probe(first: nat, i: nat, capacity: nat): (slot: nat)
    requires first < capacity && i < capacity
    ensures slot < capacity
  {
    (i + first) % capacity
  }

  /** The `i`-th slot tried from `first` on. */
  function Tried<V>(s: seq<Slot<V>>, first: nat, i: nat): Slot<V>
    requires first < |s| && i < |s|
  {
    s[Probe(first, i, |s|)]
  }

  /** The `i`-th slot tried is the first with the key. */
  ghost predicate FirstWith<V>(s: seq<Slot<V>>, first: nat, i: nat, key: Key, value: V) {
    && first < |s| && i < |s| && Tried(s, first, i) == Live(key, value)
    && forall j :: 0 <= j < i ==> !IsKey(Tried(s, first, j), key)
  }

  /** The `i`-th slot tried is the first empty one. */
  ghost predicate FirstEmpty<V>(s: seq<Slot<V>>, first: nat, i: nat) {
    && first < |s| && i < |s| && Tried(s, first, i).Empty?
    && forall j :: 0 <= j < i ==> !Tried(s, first, j).Empty?
  }

  lemma ProbeReaches(first: nat, capacity: nat, slot: nat) returns (i: nat)
    requires first < capacity && slot < capacity
    ensures i < capacity && Probe(first, i, capacity) == slot
  {
    i := if slot >= first then slot - first else slot + capacity - first;
    ModOnce(i + first, capacity);
  }

  lemma ModOnce(x: nat, m: nat)
    requires m > 0 && x < 2 * m
    ensures x % m == if x < m then x else x - m
  {
    if x < m {
      assert x / m == 0;
    } else {
      assert x == m * 1 + (x - m);
      assert x / m == 1;
    }
  }

  /** The load check, without the division. */
  lemma LoadCheck(size: nat, capacity: nat)
    requires capacity > 0
    ensures (size * 100) / capacity >= 75 <==> size * 100 >= 75 * capacity
  {
    QuotientAtLeast(size * 100, capacity, 75);
  }

  lemma QuotientAtLeast(x: nat, c: nat, k: nat)
    requires c > 0
    ensures x / c >= k <==> x >= k * c
  {
    BetweenMultiples(x / c, c, x % c, k);
  }

  lemma BetweenMultiples(q: nat, c: nat, r: nat, k: nat)
    requires r < c
    ensures q >= k <==> q * c + r >= k * c
  {
    if q >= k {
      TimesAtMost(k, q, c);
    } else {
      TimesAtMost(q + 1, k, c);
      assert (q + 1) * c == q * c + c;
    }
  }

  lemma {:induction false} TimesAtMost(a: nat, b: nat, c: nat)
    requires a <= b
    ensures a * c <= b * c
  {
    if a < b {
      TimesAtMost(a, b - 1, c);
      assert b * c == (b - 1) * c + c;
    }
  }

  class HashMap<V(!new)> {
    var slots: array<Slot<V>>
    var size: nat

    /** The count of insertions is exact, or one too low: an insertion that grows the map resets the
        count and then does not count itself. */
    ghost predicate Valid()
      reads this, slots
    {
      && slots.Length > 0
      && size <= Used(slots[..]) <= size + 1
      && size * 100 < 75 * slots.Length
    }

    ghost function Contents(): multiset<(Key, V)>
      reads this, slots
    {
      Entries(slots[..])
    }

    constructor (capacity: nat)
      requires capacity > 0
      ensures Valid() && Contents() == multiset{} && fresh(slots) && slots.Length == capacity
    {
      slots := new Slot<V>[capacity](_ => Empty);
      size := 0;
      new;
      AllEmpty(slots[..]);
    }

    /** `load_percentage` */
    function LoadPercentage(): nat
      requires slots.Length > 0
      reads this
    {
      (size * 100) / slots.Length
    }

    function FirstIndex(key: Key): (i: nat)
      requires slots.Length > 0
      reads this
      ensures i < slots.Length
    {
      (Hash(key) as nat) % slots.Length
    }

    /** Storing an entry makes the next insertion check the load first; growing happens at most once,
        for the insertions `Grow` makes never grow the map again. */
    method Insert(key: Key, value: V)
      requires Valid()
      modifies this, slots
      ensures Valid() && Contents() == old(Contents()) + multiset{(key, value)}
      ensures if old((size + 1) * 100 >= 75 * slots.Length)
              then fresh(slots) && slots.Length == 2 * old(slots.Length) && Used(slots[..]) == size + 1
              else slots == old(slots) && size == old(size) + 1 && Used(slots[..]) == old(Used(slots[..])) + 1
      decreases if (size + 1) * 100 >= 75 * slots.Length then 2 else 0
    {
      hide Hash, Entries, Used, Probe;
      LoadCheck(size + 1, slots.Length);
      EntriesBound(slots[..]);
      size := size + 1;
      if LoadPercentage() >= 75 {
        Grow();
      }
      EntriesBound(slots[..]);
      EmptySlotExists(slots[..]);
      Place(key, value);
    }

    /** The probing loop of `insert`: the first empty slot, erased slots being passed over. */
    method Place(key: Key, value: V)
      requires slots.Length > 0 && exists i :: 0 <= i < slots.Length && slots[i].Empty?
      modifies slots
      ensures Contents() == old(Contents()) + multiset{(key, value)} && Used(slots[..]) == old(Used(slots[..])) + 1
      ensures exists i: nat ::
                && FirstEmpty(old(slots[..]), FirstIndex(key), i)
                && slots[..] == old(slots[..])[Probe(FirstIndex(key), i, slots.Length) := Live(key, value)]
    {
      hide Hash, Entries, Used, Probe;
      var first := FirstIndex(key);
      ghost var e :| 0 <= e < slots.Length && slots[e].Empty?;
      ghost var goal := ProbeReaches(first, slots.Length, e);
      var i := 0;
      while i < slots.Length
        invariant i <= goal < slots.Length
        invariant slots[..] == old(slots[..])
        invariant forall j :: 0 <= j < i ==> !Tried(slots[..], first, j).Empty?
        decreases slots.Length - i
      {
        var attempt := Probe(first, i, slots.Length);
        if slots[attempt].Empty? {
          StoreSlot(slots[..], attempt, Live(key, value));
          StoreUsed(slots[..], attempt, Live(key, value));
          slots[attempt] := Live(key, value);
          assert slots[..] == old(slots[..])[attempt := Live(key, value)];
          assert FirstEmpty(old(slots[..]), first, i) && FirstIndex(key) == first;
          return;
        }
        i := i + 1;
      }
    }

    /** `grow`: twice the capacity, the live entries inserted again, the erased ones gone. */
    method Grow()
      requires slots.Length > 0 && size > 0
      requires size - 1 <= Used(slots[..]) <= size && (size - 1) * 100 < 75 * slots.Length
      modifies this
      ensures fresh(slots) && slots.Length == 2 * old(slots.Length)
      ensures Valid() && Contents() == old(Contents()) && Used(slots[..]) == size < slots.Length
      decreases 1
    {
      hide Hash, Entries, Used, Probe;
      var oldSlots := slots;
      ghost var all := oldSlots[..];
      EntriesBound(all);
      slots := new Slot<V>[2 * oldSlots.Length](_ => Empty);
      size := 0;
      AllEmpty(slots[..]);
      assert all[..0] == [];
      EntriesBound(all[..0]);
      for i := 0 to oldSlots.Length
        invariant fresh(slots) && slots.Length == 2 * oldSlots.Length && oldSlots[..] == all
        invariant Valid() && Used(slots[..]) == size <= Used(all[..i])
        invariant Contents() == Entries(all[..i])
      {
        assert all[..i + 1] == all[..i] + [all[i]];
        AppendSlot(all[..i], all[i]);
        UsedPrefix(all, i + 1);
        if oldSlots[i].Live? {
          Insert(oldSlots[i].key, oldSlots[i].value);
        }
      }
      assert all[..|all|] == all;
    }

    /** `get`: succeeds exactly when the key is there, with the value of an entry under it. */
    method Get(key: Key) returns (value: Option<V>)
      requires Valid()
      ensures value.None? ==> forall v :: (key, v) !in Contents()
      ensures value.Some? ==> (key, value.value) in Contents()
      ensures value.Some? ==> exists i: nat :: FirstWith(slots[..], FirstIndex(key), i, key, value.value)
    {
      hide Hash, Entries, Used, Probe;
      var first := FirstIndex(key);
      var i := 0;
      while i < slots.Length
        invariant i <= slots.Length
        invariant forall j :: 0 <= j < i ==> !IsKey(Tried(slots[..], first, j), key)
        decreases slots.Length - i
      {
        var attempt := Probe(first, i, slots.Length);
        if slots[attempt].Live? && slots[attempt].key == key {
          assert FirstWith(slots[..], first, i, key, slots[attempt].value);
          EntryInSlot(slots[..], key, slots[attempt].value);
          return Some(slots[attempt].value);
        }
        i := i + 1;
      }
      forall v
        ensures (key, v) !in Contents()
      {
        EntryInSlot(slots[..], key, v);
        if s :| 0 <= s < slots.Length && slots[..][s] == Live(key, v) {
          var j := ProbeReaches(first, slots.Length, s);
          ghost var tried := IsKey(Tried(slots[..], first, j), key);
        }
      }
      return None;
    }

    /** `erase`: all entries with the key, and no others. */
    method Erase(key: Key)
      requires Valid()
      modifies slots
      ensures Valid() && forall e :: Contents()[e] == if e.0 == key then 0 else old(Contents())[e]
    {
      hide Hash, Entries, Used, Probe;
      var first := FirstIndex(key);
      var i := 0;
      ghost var was := slots[..];
      while i < slots.Length
        invariant i <= slots.Length
        invariant Used(slots[..]) == Used(was)
        invariant forall j :: 0 <= j < i ==> !IsKey(slots[Probe(first, j, slots.Length)], key)
        invariant SameOthers(Contents(), Entries(was), key)
        decreases slots.Length - i
      {
        var attempt := Probe(first, i, slots.Length);
        if slots[attempt].Live? && slots[attempt].key == key {
          ghost var now := slots[..];
          EraseSlot(now, attempt, key);
          StoreUsed(now, attempt, Deleted);
          slots[attempt] := Deleted;
          assert slots[..] == now[attempt := Deleted];
        }
        i := i + 1;
      }
      forall e: (Key, V) | e.0 == key
        ensures Contents()[e] == 0
      {
        EntryInSlot(slots[..], key, e.1);
        if s :| 0 <= s < slots.Length && slots[..][s] == Live(key, e.1) {
          var j := ProbeReaches(first, slots.Length, s);
        }
      }
    }
  }

  ghost predicate SameOthers<V(!new)>(a: multiset<(Key, V)>, b: multiset<(Key, V)>, key: Key) {
    forall e: (Key, V) {:trigger a[e]} :: e.0 != key ==> a[e] == b[e]
  }

  lemma EraseSlot<V(!new)>(s: seq<Slot<V>>, i: nat, key: Key)
    requires i < |s| && IsKey(s[i], key)
    ensures SameOthers(Entries(s[i := Deleted]), Entries(s), key)
  {
    hide Entries;
    StoreSlot(s, i, Deleted);
    forall e: (Key, V) | e.0 != key
      ensures Entries(s[i := Deleted])[e] == Entries(s)[e]
    {
      assert (Entries(s[i := Deleted]) + EntryOf(s[i]))[e] == (Entries(s) + EntryOf<V>(Deleted))[e];
    }
  }

  predicate IsKey<V>(s: Slot<V>, key: Key) {
    s.Live? && s.key == key
  }

  lemma {:induction false} UsedPrefix<V>(s: seq<Slot<V>>, n: nat)
    requires n <= |s|
    ensures Used(s[..n]) <= Used(s)
  {
    if n > 0 {
      assert s[..n][1..] == s[1..][..n - 1];
      UsedPrefix(s[1..], n - 1);
    }
  }

  /** The contents are those of a map: one entry for each key. */
  ghost predicate IsMap<V(!new)>(c: multiset<(Key, V)>, m: map<Key, V>) {
    forall k, v {:trigger c[(k, v)]} :: c[(k, v)] == if k in m && m[k] == v then 1 else 0
  }

  /** Inserting only keys that are not there keeps them so; this is how directories use the map. */
  lemma InsertFreshKey<V(!new)>(c: multiset<(Key, V)>, m: map<Key, V>, key: Key, value: V)
    requires IsMap(c, m)
    ensures IsMap(c + multiset{(key, value)}, m[key := value]) <==> key !in m
  {
    var c' := c + multiset{(key, value)};
    if key in m {
      assert c[(key, m[key])] == 1;
      if m[key] == value {
        assert c'[(key, value)] == 2;
      } else {
        assert c'[(key, m[key])] == 1;
      }
    } else {
      forall k, v
        ensures c'[(k, v)] == if k in m[key := value] && m[key := value][k] == v then 1 else 0
      {
        assert c[(k, v)] == if k in m && m[k] == v then 1 else 0;
      }
    }
  }
}
