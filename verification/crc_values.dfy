/** CRC-16/MODBUS evaluated on concrete bytes.

Each xor is rewritten as flips of single bits (Bits.XorBit), so a round of a
16-bit accumulator becomes plain arithmetic (RoundByFlips). A concrete byte
step is then checked against a trace that lists the accumulator after each
flipped bit and after each round.
 */
module CrcValues {
  import opened Bits
  import opened Bytes
  import opened Crc16

  /** 0xA001 has exactly bits 0, 13 and 15 set. */
  lemma PolyBits()
    ensures Poly == Xor(1, Xor(0x2000, 0x8000))
  {
    assert Pow2(15) == 0x8000;
    assert Pow2(1) == 2;
    XorDisjoint(0x2000, 1, 15);
    XorDisjoint(1, 0x5000, 1);
  }

  lemma PolySplit(h: nat)
    ensures Xor(h, Poly) == Xor(Xor(Xor(h, 0x2000), 0x8000), 1)
  {
    PolyBits();
    var m := Xor(0x2000, 0x8000);
    XorComm(1, m);
    XorAssoc(h, m, 1);
    XorAssoc(h, 0x2000, 0x8000);
  }

  /** Xor-ing in the polynomial flips bits 13, 15 and 0. */
  lemma PolyXor(h: nat)
    ensures Xor(h, Poly) == Flip(Flip(Flip(h, 0x2000), 0x8000), 1)
  {
    PolySplit(h);
    assert Pow2(13) == 0x2000;
    assert Pow2(15) == 0x8000;
    XorBit(h, 13, 0x2000);
    XorBit(Flip(h, 0x2000), 15, 0x8000);
    XorBit(Flip(Flip(h, 0x2000), 0x8000), 0, 1);
  }

  /** One round of a 16-bit accumulator in arithmetic alone: halve, and if
      the bit shifted out was set, set bit 15 and flip bits 13 and 0. */
  function RoundByFlips(c: nat): nat {
    if c % 2 == 0 then c / 2
    else c / 2 + 0x8000 + (if (c / 0x4000) % 2 == 0 then 0x2000 else -0x2000)
         + (if (c / 2) % 2 == 0 then 1 else -1)
  }

  /** The three flips of the polynomial on a value below 2^15, in plain
      arithmetic: bit 15 is clear, so flipping it adds 2^15. */
  lemma FlipsBelow(h: nat)
    requires h < 0x8000
    ensures Flip(Flip(Flip(h, 0x2000), 0x8000), 1)
            == h + 0x8000 + (if (h / 0x2000) % 2 == 0 then 0x2000 else -0x2000)
               + (if h % 2 == 0 then 1 else -1)
  {
    var q := h / 0x2000;
    assert h == q * 0x2000 + h % 0x2000;
    assert q < 4;
    var h1 := Flip(h, 0x2000);
    assert h1 == if q % 2 == 0 then h + 0x2000 else h - 0x2000;
    assert h1 < 0x8000 && h1 % 2 == h % 2;
    var h2 := Flip(h1, 0x8000);
    assert h2 == h1 + 0x8000;
  }

  lemma RoundFlips(c: nat)
    requires c < 0x1_0000
    ensures Round(c) == RoundByFlips(c)
  {
    if c % 2 != 0 {
      var h := c / 2;
      PolyXor(h);
      FlipsBelow(h);
      DivDiv(c, 0x2000);
    }
  }

  /** vs[j..] lists successive rounds of a 16-bit accumulator. */
  predicate RoundSteps(vs: seq<nat>, j: nat)
    decreases |vs| - j
  {
    j + 1 >= |vs|
    || (vs[j] < 0x1_0000 && vs[j + 1] == RoundByFlips(vs[j]) && RoundSteps(vs, j + 1))
  }

  /** If vs[j] is the accumulator after j rounds from c and vs goes on round
      by round, its last entry is the accumulator after |vs| - 1 rounds. */
  lemma {:induction false} RoundsTrace(c: nat, vs: seq<nat>, j: nat)
    requires j < |vs| && vs[j] == Rounds(c, j) && RoundSteps(vs, j)
    ensures Rounds(c, |vs| - 1) == vs[|vs| - 1]
    decreases |vs| - j
  {
    if j + 1 < |vs| {
      RoundFlips(vs[j]);
      RoundsTrace(c, vs, j + 1);
    }
  }

  /** A byte xor-ed in traced: ws flips the bits of b into c one at a time. */
  lemma XorByteTrace(c: nat, b: nat, ws: seq<nat>)
    requires b < 0x100
    requires |ws| == 9 && ws[0] == c && XorSteps(ws, b, 0, 1)
    ensures Xor(c, b) == ws[8]
  {
    XorZero(c);
    assert b % Pow2(0) == 0;
    XorTrace(c, b, ws, 0, 1);
    Pow2Byte();
    assert b % Pow2(8) == b;
  }

  /** One byte step traced: ws flips the bits of b into c one at a time, and
      vs runs the eight rounds from the result. */
  lemma ByteStepTrace(c: nat, b: nat, ws: seq<nat>, vs: seq<nat>)
    requires b < 0x100
    requires |ws| == 9 && ws[0] == c && XorSteps(ws, b, 0, 1)
    requires |vs| == 9 && vs[0] == ws[8] && RoundSteps(vs, 0)
    ensures ByteStep(c, b) == vs[8]
  {
    XorByteTrace(c, b, ws);
    assert vs[0] == Rounds(Xor(c, b), 0);
    RoundsTrace(Xor(c, b), vs, 0);
  }

  /** Entry 1 of the table-driven form is 0xC0C1. */
  lemma TableEntryOne()
    ensures TableEntry(1) == 0xC0C1
  {
    var vs := [1, 0xA001, 0xF001, 0xD801, 0xCC01, 0xC601, 0xC301, 0xC181, 0xC0C1];
    assert RoundSteps(vs, 0);
    RoundsTrace(1, vs, 0);
  }

  /** The nine byte steps of the CRC of the ASCII digits "123456789". */
  lemma CheckByte1()
    ensures ByteStep(0xFFFF, 0x31) == 0x947E
  {
    var ws := [0xFFFF, 0xFFFE, 0xFFFE, 0xFFFE, 0xFFFE, 0xFFEE, 0xFFCE, 0xFFCE, 0xFFCE];
    var vs := [0xFFCE, 0x7FE7, 0x9FF2, 0x4FF9, 0x87FD, 0xE3FF, 0xD1FE, 0x68FF, 0x947E];
    assert XorSteps(ws, 0x31, 0, 1);
    assert RoundSteps(vs, 0);
    ByteStepTrace(0xFFFF, 0x31, ws, vs);
  }

  lemma CheckByte2()
    ensures ByteStep(0x947E, 0x32) == 0xF595
  {
    var ws := [0x947E, 0x947E, 0x947C, 0x947C, 0x947C, 0x946C, 0x944C, 0x944C, 0x944C];
    var vs := [0x944C, 0x4A26, 0x2513, 0xB288, 0x5944, 0x2CA2, 0x1651, 0xAB29, 0xF595];
    assert XorSteps(ws, 0x32, 0, 1);
    assert RoundSteps(vs, 0);
    ByteStepTrace(0x947E, 0x32, ws, vs);
  }

  lemma CheckByte3()
    ensures ByteStep(0xF595, 0x33) == 0x7A75
  {
    var ws := [0xF595, 0xF594, 0xF596, 0xF596, 0xF596, 0xF586, 0xF5A6, 0xF5A6, 0xF5A6];
    var vs := [0xF5A6, 0x7AD3, 0x9D68, 0x4EB4, 0x275A, 0x13AD, 0xA9D7, 0xF4EA, 0x7A75];
    assert XorSteps(ws, 0x33, 0, 1);
    assert RoundSteps(vs, 0);
    ByteStepTrace(0xF595, 0x33, ws, vs);
  }

  lemma CheckByte4()
    ensures ByteStep(0x7A75, 0x34) == 0x30BA
  {
    var ws := [0x7A75, 0x7A75, 0x7A75, 0x7A71, 0x7A71, 0x7A61, 0x7A41, 0x7A41, 0x7A41];
    var vs := [0x7A41, 0x9D21, 0xEE91, 0xD749, 0xCBA5, 0xC5D3, 0xC2E8, 0x6174, 0x30BA];
    assert XorSteps(ws, 0x34, 0, 1);
    assert RoundSteps(vs, 0);
    ByteStepTrace(0x7A75, 0x34, ws, vs);
  }

  lemma CheckByte5()
    ensures ByteStep(0x30BA, 0x35) == 0xA471
  {
    var ws := [0x30BA, 0x30BB, 0x30BB, 0x30BF, 0x30BF, 0x30AF, 0x308F, 0x308F, 0x308F];
    var vs := [0x308F, 0xB846, 0x5C23, 0x8E10, 0x4708, 0x2384, 0x11C2, 0x8E1, 0xA471];
    assert XorSteps(ws, 0x35, 0, 1);
    assert RoundSteps(vs, 0);
    ByteStepTrace(0x30BA, 0x35, ws, vs);
  }

  lemma CheckByte6()
    ensures ByteStep(0xA471, 0x36) == 0x32E4
  {
    var ws := [0xA471, 0xA471, 0xA473, 0xA477, 0xA477, 0xA467, 0xA447, 0xA447, 0xA447];
    var vs := [0xA447, 0xF222, 0x7911, 0x9C89, 0xEE45, 0xD723, 0xCB90, 0x65C8, 0x32E4];
    assert XorSteps(ws, 0x36, 0, 1);
    assert RoundSteps(vs, 0);
    ByteStepTrace(0xA471, 0x36, ws, vs);
  }

  lemma CheckByte7()
    ensures ByteStep(0x32E4, 0x37) == 0x9D73
  {
    var ws := [0x32E4, 0x32E5, 0x32E7, 0x32E3, 0x32E3, 0x32F3, 0x32D3, 0x32D3, 0x32D3];
    var vs := [0x32D3, 0xB968, 0x5CB4, 0x2E5A, 0x172D, 0xAB97, 0xF5CA, 0x7AE5, 0x9D73];
    assert XorSteps(ws, 0x37, 0, 1);
    assert RoundSteps(vs, 0);
    ByteStepTrace(0x32E4, 0x37, ws, vs);
  }

  lemma CheckByte8()
    ensures ByteStep(0x9D73, 0x38) == 0x37DD
  {
    var ws := [0x9D73, 0x9D73, 0x9D73, 0x9D73, 0x9D7B, 0x9D6B, 0x9D4B, 0x9D4B, 0x9D4B];
    var vs := [0x9D4B, 0xEEA4, 0x7752, 0x3BA9, 0xBDD5, 0xFEEB, 0xDF74, 0x6FBA, 0x37DD];
    assert XorSteps(ws, 0x38, 0, 1);
    assert RoundSteps(vs, 0);
    ByteStepTrace(0x9D73, 0x38, ws, vs);
  }

  lemma CheckByte9()
    ensures ByteStep(0x37DD, 0x39) == 0x4B37
  {
    var ws := [0x37DD, 0x37DC, 0x37DC, 0x37DC, 0x37D4, 0x37C4, 0x37E4, 0x37E4, 0x37E4];
    var vs := [0x37E4, 0x1BF2, 0xDF9, 0xA6FD, 0xF37F, 0xD9BE, 0x6CDF, 0x966E, 0x4B37];
    assert XorSteps(ws, 0x39, 0, 1);
    assert RoundSteps(vs, 0);
    ByteStepTrace(0x37DD, 0x39, ws, vs);
  }

  /** The catalogued check value of CRC-16/MODBUS: the CRC of the ASCII
      digits "123456789" is 0x4B37. */
  lemma CheckValue()
    ensures Crc([0x31, 0x32, 0x33, 0x34, 0x35, 0x36, 0x37, 0x38, 0x39]) == 0x4B37
  {
    CheckByte1(); CheckByte2(); CheckByte3(); CheckByte4(); CheckByte5(); CheckByte6(); CheckByte7(); CheckByte8(); CheckByte9();
  }

  /** The six byte steps of the CRC of the request body sent to slave 1. */
  lemma BodyByte1()
    ensures ByteStep(0xFFFF, 1) == 0x807E
  {
    var ws := [0xFFFF, 0xFFFE, 0xFFFE, 0xFFFE, 0xFFFE, 0xFFFE, 0xFFFE, 0xFFFE, 0xFFFE];
    var vs := [0xFFFE, 0x7FFF, 0x9FFE, 0x4FFF, 0x87FE, 0x43FF, 0x81FE, 0x40FF, 0x807E];
    assert XorSteps(ws, 1, 0, 1);
    assert RoundSteps(vs, 0);
    ByteStepTrace(0xFFFF, 1, ws, vs);
  }

  lemma BodyByte2()
    ensures ByteStep(0x807E, 3) == 0x2140
  {
    var ws := [0x807E, 0x807F, 0x807D, 0x807D, 0x807D, 0x807D, 0x807D, 0x807D, 0x807D];
    var vs := [0x807D, 0xE03F, 0xD01E, 0x680F, 0x9406, 0x4A03, 0x8500, 0x4280, 0x2140];
    assert XorSteps(ws, 3, 0, 1);
    assert RoundSteps(vs, 0);
    ByteStepTrace(0x807E, 3, ws, vs);
  }

  lemma BodyByte3()
    ensures ByteStep(0x2140, 1) == 0x30E1
  {
    var ws := [0x2140, 0x2141, 0x2141, 0x2141, 0x2141, 0x2141, 0x2141, 0x2141, 0x2141];
    var vs := [0x2141, 0xB0A1, 0xF851, 0xDC29, 0xCE15, 0xC70B, 0xC384, 0x61C2, 0x30E1];
    assert XorSteps(ws, 1, 0, 1);
    assert RoundSteps(vs, 0);
    ByteStepTrace(0x2140, 1, ws, vs);
  }

  lemma BodyByte4()
    ensures ByteStep(0x30E1, 1) == 0x8831
  {
    var ws := [0x30E1, 0x30E0, 0x30E0, 0x30E0, 0x30E0, 0x30E0, 0x30E0, 0x30E0, 0x30E0];
    var vs := [0x30E0, 0x1870, 0xC38, 0x61C, 0x30E, 0x187, 0xA0C2, 0x5061, 0x8831];
    assert XorSteps(ws, 1, 0, 1);
    assert RoundSteps(vs, 0);
    ByteStepTrace(0x30E1, 1, ws, vs);
  }

  lemma BodyByte5()
    ensures ByteStep(0x8831, 0) == 0xD449
  {
    var ws := [0x8831, 0x8831, 0x8831, 0x8831, 0x8831, 0x8831, 0x8831, 0x8831, 0x8831];
    var vs := [0x8831, 0xE419, 0xD20D, 0xC907, 0xC482, 0x6241, 0x9121, 0xE891, 0xD449];
    assert XorSteps(ws, 0, 0, 1);
    assert RoundSteps(vs, 0);
    ByteStepTrace(0x8831, 0, ws, vs);
  }

  lemma BodyByte6()
    ensures ByteStep(0xD449, 1) == 0x36D4
  {
    var ws := [0xD449, 0xD448, 0xD448, 0xD448, 0xD448, 0xD448, 0xD448, 0xD448, 0xD448];
    var vs := [0xD448, 0x6A24, 0x3512, 0x1A89, 0xAD45, 0xF6A3, 0xDB50, 0x6DA8, 0x36D4];
    assert XorSteps(ws, 1, 0, 1);
    assert RoundSteps(vs, 0);
    ByteStepTrace(0xD449, 1, ws, vs);
  }

  /** The CRC of the request body `01 03 01 01 00 01` is 0x36D4. */
  lemma SlaveOneBodyCrc()
    ensures Crc([1, 3, 1, 1, 0, 1]) == 0x36D4
  {
    BodyByte1(); BodyByte2(); BodyByte3(); BodyByte4(); BodyByte5(); BodyByte6();
  }
}
