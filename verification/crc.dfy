/** CRC-16/MODBUS as `calculate_crc` computes it: the accumulator starts at
    0xFFFF; each byte is xor-ed into it and followed by eight rounds of "shift
    right by one, then xor 0xA001 if the bit shifted out was set"; the result
    is masked to 16 bits, with no final xor (MODBUS over Serial Line
    Specification V1.02, section 2.5.1.2 and Appendix B).
 */
module Crc16 {
  import opened Bits
  import opened Bytes

  const Init: nat := 0xFFFF
  /** The polynomial 0x8005 with its bits reversed. */
  const Poly: nat := 0xA001

  /** One pass of the inner loop: `crc & 1` is the low bit, `crc >>= 1` halves. */
  function Round(c: nat): nat {
    if c % 2 != 0 then Xor(c / 2, Poly) else c / 2
  }

  /** n passes of the inner loop. */
  function Rounds(c: nat, n: nat): nat {
    if n == 0 then c else Round(Rounds(c, n - 1))
  }

  /** One pass of the outer loop: xor the byte in, then exactly eight rounds. */
  function ByteStep(c: nat, b: nat): nat {
    Rounds(Xor(c, b), 8)
  }

  /** The outer loop over `data`, front to back, from accumulator `acc`. */
  function Fold(acc: nat, data: seq<int>): nat
    requires IsBytes(data)
    decreases |data|
  {
    if |data| == 0 then acc else Fold(ByteStep(acc, data[0]), data[1..])
  }

  /** `calculate_crc(data)`: the fold from 0xFFFF, then `& 0xFFFF`. The mask
      never changes the accumulator, which stays a 16-bit value throughout. */
  function Crc(data: seq<int>): (r: nat)
    requires IsBytes(data)
    ensures IsWord(r)
    ensures r == Fold(Init, data)
    ensures data == [] ==> r == Init
  {
    FoldBound(Init, data);
    Fold(Init, data) % 0x1_0000
  }

  lemma Pow2Word()
    ensures Pow2(16) == 0x1_0000
  {
    Pow2Byte();
    assert Pow2(12) == 0x1000;
  }

  /** A round keeps a 16-bit accumulator within 16 bits. */
  lemma RoundBound(c: nat)
    requires IsWord(c)
    ensures IsWord(Round(c))
  {
    Pow2Word();
    if c % 2 != 0 {
      XorBound(c / 2, Poly, 16);
    }
  }

  lemma {:induction false} RoundsBound(c: nat, n: nat)
    requires IsWord(c)
    ensures IsWord(Rounds(c, n))
  {
    if n > 0 {
      RoundsBound(c, n - 1);
      RoundBound(Rounds(c, n - 1));
    }
  }

  /** Xor-ing in a byte and running the eight rounds keeps a 16-bit
      accumulator within 16 bits. */
  lemma ByteStepBound(c: nat, b: nat)
    requires IsWord(c) && IsByte(b)
    ensures IsWord(ByteStep(c, b))
  {
    Pow2Word();
    XorBound(c, b, 16);
    RoundsBound(Xor(c, b), 8);
  }

  /** The accumulator stays within 0..0xFFFF across the whole outer loop. */
  lemma {:induction false} FoldBound(acc: nat, data: seq<int>)
    requires IsWord(acc) && IsBytes(data)
    ensures IsWord(Fold(acc, data))
    decreases |data|
  {
    if |data| > 0 {
      ByteStepBound(acc, data[0]);
      FoldBound(ByteStep(acc, data[0]), data[1..]);
    }
  }

  /** Appending a byte runs one more outer-loop pass on the fold so far. */
  lemma {:induction false} FoldSnoc(acc: nat, data: seq<int>, b: int)
    requires IsBytes(data) && IsByte(b)
    ensures IsBytes(data + [b])
    ensures Fold(acc, data + [b]) == ByteStep(Fold(acc, data), b)
    decreases |data|
  {
    if |data| == 0 {
      assert data + [b] == [b];
      assert [b][1..] == [];
    } else {
      assert (data + [b])[1..] == data[1..] + [b];
      FoldSnoc(ByteStep(acc, data[0]), data[1..], b);
    }
  }

  /** The CRC is a left fold: the CRC of `data + [b]` is one byte step applied
      to the CRC of `data`. */
  lemma CrcSnoc(data: seq<int>, b: int)
    requires IsBytes(data) && IsByte(b)
    ensures IsBytes(data + [b])
    ensures Crc(data + [b]) == ByteStep(Crc(data), b)
  {
    FoldSnoc(Init, data, b);
  }

  /** `calculate_crc` with its two nested loops. */
  method CalculateCrc(data: seq<int>) returns (crc: nat)
    requires IsBytes(data)
    ensures IsWord(crc)
    ensures crc == Crc(data)
  {
    crc := Init;
    var i := 0;
    while i < |data|
      invariant 0 <= i <= |data|
      invariant IsBytes(data[..i])
      invariant crc == Fold(Init, data[..i])
    {
      var pos := data[i];
      crc := Xor(crc, pos);
      ghost var start := crc;
      var j := 0;
      while j < 8
        invariant 0 <= j <= 8
        invariant crc == Rounds(start, j)
      {
        if crc % 2 != 0 {
          crc := crc / 2;
          crc := Xor(crc, Poly);
        } else {
          crc := crc / 2;
        }
        j := j + 1;
      }
      assert data[..i + 1] == data[..i] + [pos];
      FoldSnoc(Init, data[..i], pos);
      i := i + 1;
    }
    assert data[..|data|] == data;
    crc := crc % 0x1_0000;
  }

  /** An independent reference: the table-driven form of CRC-16/MODBUS, in
      which the accumulator shifts right by a whole byte and is xor-ed with
      the table entry selected by its low byte xor the input byte. */
  function TableEntry(i: nat): nat
    requires i < 0x100
  {
    Rounds(i, 8)
  }

  function TableStep(c: nat, b: nat): nat {
    Xor(Shr(c, 8), TableEntry(Xor(c, b) % 0x100))
  }

  function TableFold(acc: nat, data: seq<int>): nat
    requires IsBytes(data)
    decreases |data|
  {
    if |data| == 0 then acc else TableFold(TableStep(acc, data[0]), data[1..])
  }

  function TableCrc(data: seq<int>): nat
    requires IsBytes(data)
  {
    TableFold(Init, data)
  }

  /** The rounds distribute over xor: the CRC step is linear. */
  lemma RoundLinear(a: nat, b: nat)
    ensures Round(Xor(a, b)) == Xor(Round(a), Round(b))
  {
    XorDigits(a, b);
    var x, y := a / 2, b / 2;
    if a % 2 == 0 && b % 2 == 0 {
    } else if a % 2 != 0 && b % 2 == 0 {
      XorAssoc(x, y, Poly);
      XorComm(y, Poly);
      XorAssoc(x, Poly, y);
    } else if a % 2 == 0 {
      XorAssoc(x, y, Poly);
    } else {
      XorCancel(x, y, Poly);
    }
  }

  lemma {:induction false} RoundsLinear(a: nat, b: nat, n: nat)
    ensures Rounds(Xor(a, b), n) == Xor(Rounds(a, n), Rounds(b, n))
  {
    if n > 0 {
      RoundsLinear(a, b, n - 1);
      RoundLinear(Rounds(a, n - 1), Rounds(b, n - 1));
    }
  }

  /** A value whose n low bits are clear loses them in n rounds, without any
      xor with the polynomial. */
  lemma {:induction false} RoundsShifted(h: nat, n: nat)
    ensures Rounds(h * Pow2(n), n) == h
    decreases n
  {
    if n > 0 {
      var p := Pow2(n - 1);
      var x := h * Pow2(n);
      assert Pow2(n) == 2 * p;
      assert x == (2 * h) * p;
      RoundsShifted(2 * h, n - 1);
      assert Rounds(x, n - 1) == 2 * h;
      assert Round(2 * h) == h;
    }
  }

  /** The table-driven step equals the bitwise step, for any byte. */
  lemma TableStepAgrees(c: nat, b: nat)
    requires IsByte(b)
    ensures TableStep(c, b) == ByteStep(c, b)
  {
    var x := Xor(c, b);
    var lo, hi := x % 0x100, x / 0x100;
    Pow2Byte();
    XorDisjoint(lo, hi, 8);
    assert x == Xor(lo, hi * Pow2(8));
    RoundsLinear(lo, hi * Pow2(8), 8);
    RoundsShifted(hi, 8);
    ShrByte(x);
    XorShr(c, b, 8);
    ShrByte(b);
    XorZero(Shr(c, 8));
    XorComm(TableEntry(lo), hi);
  }

  lemma {:induction false} TableFoldAgrees(acc: nat, data: seq<int>)
    requires IsBytes(data)
    ensures TableFold(acc, data) == Fold(acc, data)
    decreases |data|
  {
    if |data| > 0 {
      TableStepAgrees(acc, data[0]);
      TableFoldAgrees(TableStep(acc, data[0]), data[1..]);
    }
  }

  /** The bitwise CRC agrees with the table-driven reference on every input. */
  lemma CrcMatchesTable(data: seq<int>)
    requires IsBytes(data)
    ensures Crc(data) == TableCrc(data)
  {
    TableFoldAgrees(Init, data);
  }
}
