/** Printing unsigned numbers (cstdio.cpp): the decimal and hexadecimal conversions of `vprintf`, which
    find each digit by dividing the value again from the start. */
module Printer {
  import opened Bytes

  const ZERO: Byte := 48

  /** The two bases the conversions use. */
  type Base = b: nat | b == 10 || b == 16 witness 10

  function Quot(v: nat, base: Base): nat {
    if base == 10 then v / 10 else v / 16
  }

  function Rem(v: nat, base: Base): (r: nat)
    ensures r < base && Times(Quot(v, base), base) + r == v
  {
    if base == 10 then v % 10 else v % 16
  }

  function Times(v: nat, base: Base): (p: nat)
    ensures p == v * base
  {
    if base == 10 then v * 10 else v * 16
  }

  /** `value` divided `k` times. */
  function Shifted(value: nat, base: Base, k: nat): nat {
    if k == 0 then value else Shifted(Quot(value, base), base, k - 1)
  }

  function DigitChar(d: nat, upper: bool): (c: Byte)
    requires d < 16
    ensures DigitValue(c) == d && (if d < 10 then 48 <= c < 58 else if upper then 65 <= c < 71 else 97 <= c < 103)
  {
    if d < 10 then ZERO + d else if upper then 65 + (d - 10) else 97 + (d - 10)
  }

  function DigitValue(c: Byte): nat {
    if 48 <= c < 58 then c - 48 else if 65 <= c < 71 then c - 65 + 10 else if 97 <= c < 103 then c - 97 + 10 else 0
  }

  /** A decimal digit, or a hexadecimal one in the case asked for. */
  predicate IsDigit(c: Byte, base: Base, upper: bool) {
    48 <= c < 58 || (base == 16 && if upper then 65 <= c < 71 else 97 <= c < 103)
  }

  /** The number a string of digits stands for, the last digit being the lowest. */
  function ValueOf(s: seq<Byte>, base: Base): nat {
    if s == [] then 0 else Times(ValueOf(s[..|s| - 1], base), base) + DigitValue(s[|s| - 1])
  }

  lemma {:induction false} ShiftedNext(value: nat, base: Base, k: nat)
    ensures Shifted(value, base, k + 1) == Quot(Shifted(value, base, k), base)
  {
    if k > 0 {
      ShiftedNext(Quot(value, base), base, k - 1);
    }
  }

  function Power(base: Base, k: nat): nat {
    if k == 0 then 1 else Times(Power(base, k - 1), base)
  }

  /** Dividing `k` times leaves nothing exactly when `k` digits are enough. */
  lemma {:induction false} ShiftedZero(value: nat, base: Base, k: nat)
    ensures Shifted(value, base, k) == 0 <==> value < Power(base, k)
  {
    if k > 0 {
      ShiftedZero(Quot(value, base), base, k - 1);
    }
  }

  /** `num_digits`: one less than the number of digits. */
  method NumDigits(x: nat, base: Base) returns (i: nat)
    ensures Shifted(x, base, i + 1) == 0 && (i > 0 ==> Shifted(x, base, i) > 0)
  {
    i := 0;
    var v := Quot(x, base);
    while v != 0
      invariant v == Shifted(x, base, i + 1)
      invariant i > 0 ==> Shifted(x, base, i) > 0
      decreases v
    {
      ShiftedNext(x, base, i + 1);
      i := i + 1;
      v := Quot(v, base);
    }
  }

  lemma {:induction false} LeadingZeros(n: nat, base: Base)
    ensures ValueOf(seq(n, _ => ZERO), base) == 0
  {
    if n > 0 {
      LeadingZeros(n - 1, base);
      assert seq(n, _ => ZERO)[..n - 1] == seq(n - 1, _ => ZERO);
    }
  }

  lemma ValueOfSnoc(s: seq<Byte>, c: Byte, base: Base)
    ensures ValueOf(s + [c], base) == Times(ValueOf(s, base), base) + DigitValue(c)
  {
    assert (s + [c])[..|s|] == s;
  }

  /** The conversion: padding zeros, and the digits from the highest to the lowest. */
  method PrintNumber(value: nat, base: Base, zeroPad: nat, upper: bool) returns (out: seq<Byte>, written: nat)
    ensures ValueOf(out, base) == value && written == |out|
    ensures forall i :: 0 <= i < |out| ==> out[i] == DigitChar(DigitValue(out[i]), upper) && DigitValue(out[i]) < base
    ensures forall i :: 0 <= i < |out| ==> IsDigit(out[i], base, upper)
    ensures |out| >= 1 && |out| >= zeroPad && value < Power(base, |out|)
    ensures |out| > 1 && |out| > zeroPad ==> Power(base, |out| - 1) <= value
  {
    hide ValueOf;
    out, written := [], 0;
    var digits := NumDigits(value, base);
    ShiftedZero(value, base, digits);
    ShiftedZero(value, base, digits + 1);
    if zeroPad != 0 && zeroPad > digits {
      assert out == seq(0, _ => ZERO);
      for j := 0 to zeroPad - digits - 1
        invariant out == seq(j, _ => ZERO)
      {
        out := out + [ZERO];
      }
      written := written + (zeroPad - digits - 1);
    }
    ghost var pad := |out|;
    assert out == seq(pad, _ => ZERO);
    LeadingZeros(pad, base);
    assert ValueOf(out, base) == 0;
    var di: int := digits;
    while di >= 0
      invariant -1 <= di <= digits
      invariant |out| == pad + digits - di == written
      invariant ValueOf(out, base) == Shifted(value, base, di + 1)
      invariant forall i :: 0 <= i < |out| ==>
                out[i] == DigitChar(DigitValue(out[i]), upper) && DigitValue(out[i]) < base
      decreases di
    {
      var v := value;
      for dii := 0 to di
        invariant dii <= di && Shifted(v, base, di - dii) == Shifted(value, base, di)
      {
        v := Quot(v, base);
      }
      var d := Rem(v, base);
      ShiftedNext(value, base, di);
      ValueOfSnoc(out, DigitChar(d, upper), base);
      out := out + [DigitChar(d, upper)];
      written := written + 1;
      di := di - 1;
    }
    PowerGrows(value, base, digits + 1, |out|);
  }

  lemma {:induction false} PowerGrows(value: nat, base: Base, k: nat, n: nat)
    requires k <= n && value < Power(base, k)
    ensures value < Power(base, n)
    decreases n
  {
    if k < n {
      PowerGrows(value, base, k, n - 1);
    }
  }
}
