/** Block sizes: sixteen times a power of two (allocator.hpp). */
module SizeClass {

  const ALIGNMENT: nat := 16

  function Align(i: nat): (r: nat)
    ensures i <= r < i + ALIGNMENT && r % ALIGNMENT == 0
  {
    if i % ALIGNMENT != 0 then (i / ALIGNMENT + 1) * ALIGNMENT else i
  }

  /** A block extent: 16, 32, 64, ... */
  predicate IsClass(c: nat) {
    c == ALIGNMENT || (c > ALIGNMENT && c % 2 == 0 && IsClass(c / 2))
  }

  function DoubleUntil(actual: nat, size: nat): nat
    requires actual > 0
    decreases size - actual
  {
    if size > actual then DoubleUntil(2 * actual, size) else actual
  }

  /** `size_required`: the extent of a block whose header stores `size`. */
  function Req(size: nat): nat {
    DoubleUntil(ALIGNMENT, Align(size))
  }

  method SizeRequired(size: nat) returns (actual: nat)
    ensures actual == Req(size)
  {
    actual := ALIGNMENT;
    var s := Align(size);
    while s > actual
      invariant actual > 0
      invariant DoubleUntil(actual, s) == Req(size)
      decreases s - actual
    {
      actual := actual * 2;
    }
  }

  /** Distinct classes are at least a factor of two apart. */
  lemma {:induction false} ClassGap(c: nat, d: nat)
    requires IsClass(c) && IsClass(d) && c < d
    ensures 2 * c <= d
  {
    if c > ALIGNMENT {
      ClassGap(c / 2, d / 2);
    } else {
      ClassAtLeast(d / 2);
    }
  }

  lemma {:induction false} ClassAtLeast(c: nat)
    requires IsClass(c)
    ensures c >= ALIGNMENT && c % ALIGNMENT == 0
  {
    if c > ALIGNMENT {
      ClassAtLeast(c / 2);
    }
  }

  lemma ClassHalf(c: nat)
    requires IsClass(c) && c > ALIGNMENT
    ensures c % 2 == 0 && IsClass(c / 2)
  {
  }

  lemma {:induction false} DoubleUntilLeast(actual: nat, size: nat)
    requires IsClass(actual)
    ensures IsClass(DoubleUntil(actual, size))
    ensures DoubleUntil(actual, size) >= size
    ensures actual == DoubleUntil(actual, size) || DoubleUntil(actual, size) < 2 * size
    decreases size - actual
  {
    if size > actual {
      ClassAtLeast(actual);
      assert IsClass(2 * actual);
      DoubleUntilLeast(2 * actual, size);
    }
  }

  /** `size_required` is the least class that holds the header value. */
  lemma ReqIsLeastClass(size: nat)
    ensures IsClass(Req(size)) && size <= Req(size)
    ensures forall c: nat :: IsClass(c) && size <= c ==> Req(size) <= c
    ensures Req(size) >= ALIGNMENT && Req(size) % ALIGNMENT == 0
  {
    DoubleUntilLeast(ALIGNMENT, Align(size));
    ClassAtLeast(Req(size));
    forall c: nat | IsClass(c) && size <= c
      ensures Req(size) <= c
    {
      ClassAtLeast(c);
      assert Align(size) <= c;
      if c < Req(size) {
        ClassGap(c, Req(size));
      }
    }
  }

  lemma ReqOfClass(c: nat)
    ensures Req(c) == c <==> IsClass(c)
  {
    ReqIsLeastClass(c);
  }

  /** Doubling the header value doubles the extent exactly when the value exceeds half the smallest
      block; `free` after `realloc` leaves values that are not classes, so merging relies on this. */
  lemma ReqDoubles(s: nat)
    ensures Req(2 * s) == 2 * Req(s) <==> s > 8
  {
    ReqIsLeastClass(s);
    ReqIsLeastClass(2 * s);
    assert IsClass(2 * Req(s));
    if s > 8 {
      assert Req(2 * s) > ALIGNMENT;
      assert s <= Req(2 * s) / 2;
    } else {
      assert Req(2 * s) <= ALIGNMENT;
    }
  }

  lemma ReqOfReq(s: nat)
    ensures Req(Req(s)) == Req(s)
  {
    ReqIsLeastClass(s);
    ReqOfClass(Req(s));
  }

  lemma ReqMonotone(a: nat, b: nat)
    requires a <= b
    ensures Req(a) <= Req(b)
  {
    ReqIsLeastClass(a);
    ReqIsLeastClass(b);
  }

  /** Copying `old - 16` bytes into a block of class `Req(new)` stays inside it exactly when the
      block does not shrink across classes. */
  lemma CopyFits(oldHeader: nat, newHeader: nat)
    ensures oldHeader <= Req(newHeader) <==> Req(oldHeader) <= Req(newHeader)
  {
    ReqIsLeastClass(oldHeader);
    ReqIsLeastClass(newHeader);
  }
}
