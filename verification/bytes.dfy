/** Bytes and 16-bit words as Python integers, and the big-endian split of a
    word into a high and a low byte that the request and response use. */
module Bytes {
  import opened Bits

  predicate IsByte(x: int) {
    0 <= x < 0x100
  }

  predicate IsBytes(s: seq<int>) {
    forall i :: 0 <= i < |s| ==> IsByte(s[i])
  }

  /** An unsigned 16-bit value. */
  predicate IsWord(x: int) {
    0 <= x < 0x1_0000
  }

  /** `(v >> 8) & 0xFF` */
  function HighByte(v: nat): nat {
    Shr(v, 8) % 0x100
  }

  /** `v & 0xFF` */
  function LowByte(v: nat): nat {
    v % 0x100
  }

  /** `(hi << 8) | lo` */
  function Join(hi: nat, lo: nat): nat {
    Or(hi * 0x100, lo)
  }

  lemma Pow2Byte()
    ensures Pow2(8) == 0x100
  {
  }

  /** `v >> 8` is `v / 256`. */
  lemma ShrByte(v: nat)
    ensures Shr(v, 8) == v / 0x100
  {
    Pow2Byte();
    ShrIsDiv(v, 8, 0x100);
  }

  /** Two bytes joined with a shift and an or make the word hi * 256 + lo. */
  lemma JoinValue(hi: nat, lo: nat)
    requires IsByte(hi) && IsByte(lo)
    ensures Join(hi, lo) == hi * 0x100 + lo
    ensures IsWord(Join(hi, lo))
  {
    Pow2Byte();
    OrComm(hi * 0x100, lo);
    OrDisjoint(lo, hi, 8);
  }

  /** Splitting a word into its high and low byte and joining them back gives
      the word again. */
  lemma SplitJoin(v: nat)
    requires IsWord(v)
    ensures IsByte(HighByte(v)) && IsByte(LowByte(v))
    ensures HighByte(v) * 0x100 + LowByte(v) == v
    ensures Join(HighByte(v), LowByte(v)) == v
  {
    ShrByte(v);
    JoinValue(HighByte(v), LowByte(v));
  }

  /** Joining two bytes and splitting the word gives the two bytes again. */
  lemma JoinSplit(hi: nat, lo: nat)
    requires IsByte(hi) && IsByte(lo)
    ensures HighByte(Join(hi, lo)) == hi
    ensures LowByte(Join(hi, lo)) == lo
  {
    var v := Join(hi, lo);
    JoinValue(hi, lo);
    ShrByte(v);
    DivUnique(v, 0x100, hi, lo);
    assert v % 0x100 == lo;
  }
}
