/** Raw memory: bytes and the little-endian words stored in them. */
module Bytes {

  type Byte = x: int | 0 <= x < 256

  const WORD_LIMIT: nat := 0x1_0000_0000_0000_0000

  /** The unsigned number whose little-endian digits are `s`. */
  function ReadLE(s: seq<Byte>): nat {
    if s == [] then 0 else s[0] + 256 * ReadLE(s[1..])
  }

  /** The `n` low little-endian digits of `v`. */
  function WriteLE(v: nat, n: nat): (s: seq<Byte>)
    ensures |s| == n
  {
    if n == 0 then [] else [v % 256] + WriteLE(v / 256, n - 1)
  }

  function Pow256(n: nat): nat {
    if n == 0 then 1 else 256 * Pow256(n - 1)
  }

  lemma {:induction false} ReadWriteLE(v: nat, n: nat)
    requires v < Pow256(n)
    ensures ReadLE(WriteLE(v, n)) == v
  {
    if n > 0 {
      ReadWriteLE(v / 256, n - 1);
      assert WriteLE(v, n)[1..] == WriteLE(v / 256, n - 1);
    }
  }

  /** The 64-bit word stored at offset `o`. */
  function Word(m: seq<Byte>, o: nat): nat
    requires o + 8 <= |m|
  {
    ReadLE(m[o..o + 8])
  }

  function PutWord(m: seq<Byte>, o: nat, v: nat): (r: seq<Byte>)
    requires o + 8 <= |m|
    ensures |r| == |m|
  {
    m[..o] + WriteLE(v, 8) + m[o + 8..]
  }

  /** A word store is read back, and leaves every byte and word outside it alone. */
  lemma PutWordEffect(m: seq<Byte>, o: nat, v: nat)
    requires o + 8 <= |m| && v < WORD_LIMIT
    ensures Word(PutWord(m, o, v), o) == v
    ensures forall i :: 0 <= i < |m| && !(o <= i < o + 8) ==> PutWord(m, o, v)[i] == m[i]
    ensures forall p: nat :: p + 8 <= |m| && (p + 8 <= o || o + 8 <= p) ==> Word(PutWord(m, o, v), p) == Word(m, p)
  {
    var r := PutWord(m, o, v);
    assert r[o..o + 8] == WriteLE(v, 8);
    assert Pow256(8) == WORD_LIMIT by {
      assert Pow256(4) == 0x1_0000_0000;
    }
    ReadWriteLE(v, 8);
    forall p: nat | p + 8 <= |m| && (p + 8 <= o || o + 8 <= p)
      ensures Word(r, p) == Word(m, p)
    {
      assert r[p..p + 8] == m[p..p + 8];
    }
  }
}
