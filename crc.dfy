/**
 * CRC-16/MODBUS, the checksum that closes every RTU frame: a 16-bit register
 * seeded with 0xFFFF, shifted right once per bit, with the reflected generator
 * polynomial 0xA001 XOR-ed in whenever a 1 is shifted out.
 *
 * The master computes it with a 256-entry lookup table, one table step per
 * byte. This module holds the bit-by-bit reference definition, the table, a
 * proof that every table entry is the bitwise result for its index, a proof
 * that the table-driven fold equals the bitwise fold, and the imperative loop
 * the driver runs over its frame buffer.
 */
module Crc {
  /** Initial register value. */
  const Seed: bv16 := 0xFFFF

  /** The generator polynomial 0x8005, bit-reflected. */
  const Poly: bv16 := 0xA001

  // ---------------------------------------------------------------------------
  // Bitwise reference
  // ---------------------------------------------------------------------------

  /**
   * One bit round. `0 - (x & 1)` is all ones when the bit shifted out is 1 and
   * zero otherwise, so the polynomial is XOR-ed in exactly for a 1 bit.
   */
  function Round(x: bv16): (r: bv16)
  {
    (x >> 1) ^ ((0 - (x & 1)) & Poly)
  }

  /** Four rounds written out, so that the solver can evaluate them on constants. */
  function HalfRounds(x: bv16): bv16
  {
    Round(Round(Round(Round(x))))
  }

  /** Eight rounds written out. */
  function ByteRounds(x: bv16): bv16
  {
    HalfRounds(HalfRounds(x))
  }

  /** `k` rounds in sequence. */
  function Rounds(x: bv16, k: nat): bv16
    decreases k
  {
    if k == 0 then x else Rounds(Round(x), k - 1)
  }

  /** Bitwise processing of one byte: XOR it into the low byte, then one round per bit. */
  function BitwiseStep(crc: bv16, b: bv8): bv16
  {
    Rounds(crc ^ b as bv16, 8)
  }

  /** Reference CRC of a byte string: a left fold of `BitwiseStep` from `Seed`. */
  function Bitwise(s: seq<bv8>): bv16
    decreases |s|
  {
    if s == [] then Seed else BitwiseStep(Bitwise(s[..|s| - 1]), s[|s| - 1])
  }

  // ---------------------------------------------------------------------------
  // The lookup table, in sixteen rows of sixteen entries
  // ---------------------------------------------------------------------------

  const Row0: seq<bv16> := [0x0000, 0xC0C1, 0xC181, 0x0140, 0xC301, 0x03C0, 0x0280, 0xC241, 0xC601, 0x06C0, 0x0780, 0xC741, 0x0500, 0xC5C1, 0xC481, 0x0440]
  const Row1: seq<bv16> := [0xCC01, 0x0CC0, 0x0D80, 0xCD41, 0x0F00, 0xCFC1, 0xCE81, 0x0E40, 0x0A00, 0xCAC1, 0xCB81, 0x0B40, 0xC901, 0x09C0, 0x0880, 0xC841]
  const Row2: seq<bv16> := [0xD801, 0x18C0, 0x1980, 0xD941, 0x1B00, 0xDBC1, 0xDA81, 0x1A40, 0x1E00, 0xDEC1, 0xDF81, 0x1F40, 0xDD01, 0x1DC0, 0x1C80, 0xDC41]
  const Row3: seq<bv16> := [0x1400, 0xD4C1, 0xD581, 0x1540, 0xD701, 0x17C0, 0x1680, 0xD641, 0xD201, 0x12C0, 0x1380, 0xD341, 0x1100, 0xD1C1, 0xD081, 0x1040]
  const Row4: seq<bv16> := [0xF001, 0x30C0, 0x3180, 0xF141, 0x3300, 0xF3C1, 0xF281, 0x3240, 0x3600, 0xF6C1, 0xF781, 0x3740, 0xF501, 0x35C0, 0x3480, 0xF441]
  const Row5: seq<bv16> := [0x3C00, 0xFCC1, 0xFD81, 0x3D40, 0xFF01, 0x3FC0, 0x3E80, 0xFE41, 0xFA01, 0x3AC0, 0x3B80, 0xFB41, 0x3900, 0xF9C1, 0xF881, 0x3840]
  const Row6: seq<bv16> := [0x2800, 0xE8C1, 0xE981, 0x2940, 0xEB01, 0x2BC0, 0x2A80, 0xEA41, 0xEE01, 0x2EC0, 0x2F80, 0xEF41, 0x2D00, 0xEDC1, 0xEC81, 0x2C40]
  const Row7: seq<bv16> := [0xE401, 0x24C0, 0x2580, 0xE541, 0x2700, 0xE7C1, 0xE681, 0x2640, 0x2200, 0xE2C1, 0xE381, 0x2340, 0xE101, 0x21C0, 0x2080, 0xE041]
  const Row8: seq<bv16> := [0xA001, 0x60C0, 0x6180, 0xA141, 0x6300, 0xA3C1, 0xA281, 0x6240, 0x6600, 0xA6C1, 0xA781, 0x6740, 0xA501, 0x65C0, 0x6480, 0xA441]
  const Row9: seq<bv16> := [0x6C00, 0xACC1, 0xAD81, 0x6D40, 0xAF01, 0x6FC0, 0x6E80, 0xAE41, 0xAA01, 0x6AC0, 0x6B80, 0xAB41, 0x6900, 0xA9C1, 0xA881, 0x6840]
  const Row10: seq<bv16> := [0x7800, 0xB8C1, 0xB981, 0x7940, 0xBB01, 0x7BC0, 0x7A80, 0xBA41, 0xBE01, 0x7EC0, 0x7F80, 0xBF41, 0x7D00, 0xBDC1, 0xBC81, 0x7C40]
  const Row11: seq<bv16> := [0xB401, 0x74C0, 0x7580, 0xB541, 0x7700, 0xB7C1, 0xB681, 0x7640, 0x7200, 0xB2C1, 0xB381, 0x7340, 0xB101, 0x71C0, 0x7080, 0xB041]
  const Row12: seq<bv16> := [0x5000, 0x90C1, 0x9181, 0x5140, 0x9301, 0x53C0, 0x5280, 0x9241, 0x9601, 0x56C0, 0x5780, 0x9741, 0x5500, 0x95C1, 0x9481, 0x5440]
  const Row13: seq<bv16> := [0x9C01, 0x5CC0, 0x5D80, 0x9D41, 0x5F00, 0x9FC1, 0x9E81, 0x5E40, 0x5A00, 0x9AC1, 0x9B81, 0x5B40, 0x9901, 0x59C0, 0x5880, 0x9841]
  const Row14: seq<bv16> := [0x8801, 0x48C0, 0x4980, 0x8941, 0x4B00, 0x8BC1, 0x8A81, 0x4A40, 0x4E00, 0x8EC1, 0x8F81, 0x4F40, 0x8D01, 0x4DC0, 0x4C80, 0x8C41]
  const Row15: seq<bv16> := [0x4400, 0x84C1, 0x8581, 0x4540, 0x8701, 0x47C0, 0x4680, 0x8641, 0x8201, 0x42C0, 0x4380, 0x8341, 0x4100, 0x81C1, 0x8081, 0x4040]

  const Table: seq<bv16> :=
    ((Row0 + Row1) + (Row2 + Row3)) + ((Row4 + Row5) + (Row6 + Row7))
    + (((Row8 + Row9) + (Row10 + Row11)) + ((Row12 + Row13) + (Row14 + Row15)))

  /**
   * The table-driven step the driver performs per byte: the old high byte
   * shifted down, XOR the entry indexed by the byte XOR the old low byte.
   */
  function TableStep(crc: bv16, b: bv8): bv16
  {
    (crc >> 8) ^ Table[Index(crc ^ b as bv16) as int]
  }

  /** The low byte of a register. */
  function Index(x: bv16): bv8
  {
    (x & 0xFF) as bv8
  }

  /** Table-driven CRC of a byte string: a left fold of `TableStep` from `Seed`. */
  function TableCrc(s: seq<bv8>): bv16
    decreases |s|
  {
    if s == [] then Seed else TableStep(TableCrc(s[..|s| - 1]), s[|s| - 1])
  }

  // ---------------------------------------------------------------------------
  // Every table entry is the bitwise value of its index
  // ---------------------------------------------------------------------------

  /** `x` advanced by `n`, one increment at a time. */
  function Advance(x: bv16, n: nat): bv16
    decreases n
  {
    if n == 0 then x else Advance(x + 1, n - 1)
  }

  lemma {:induction false} AdvanceAdds(x: bv16, c: bv8)
    requires c < 16
    ensures Advance(x, c as int) == x + c as bv16
    decreases c as int
  {
    if c != 0 {
      assert (c - 1) as int == c as int - 1;
      assert (x + 1) + (c - 1) as bv16 == x + c as bv16;
      AdvanceAdds(x + 1, c - 1);
    }
  }

  /** Entries `j..` of `row` are the bitwise values of `x`, `x + 1`, ... */
  predicate RowAgrees(row: seq<bv16>, x: bv16, j: nat)
    requires j <= |row|
    decreases |row| - j
  {
    j == |row| || (row[j] == ByteRounds(x) && RowAgrees(row, x + 1, j + 1))
  }

  lemma {:induction false} RowAgreesAt(row: seq<bv16>, x: bv16, j: nat, k: nat)
    requires j <= k < |row| && RowAgrees(row, x, j)
    ensures row[k] == ByteRounds(Advance(x, k - j))
    decreases k - j
  {
    if j < k {
      RowAgreesAt(row, x + 1, j + 1, k);
    }
  }

  lemma RowEntry(row: seq<bv16>, n: bv8)
    requires |row| == 16 && RowAgrees(row, (n & 0xF0) as bv16, 0)
    ensures row[(n & 15) as int] == ByteRounds(n as bv16)
  {
    var x, c := (n & 0xF0) as bv16, n & 15;
    RowAgreesAt(row, x, 0, c as int);
    AdvanceAdds(x, c);
    assert x + c as bv16 == n as bv16;
  }

  lemma RowOk0()
    ensures RowAgrees(Row0, 0x00, 0)
  {
    assert RowAgrees(Row0, 0x0C, 12);
    assert RowAgrees(Row0, 0x08, 8);
    assert RowAgrees(Row0, 0x04, 4);
  }

  lemma TableRow0(n: bv8)
    requires n >> 4 == 0
    ensures Table[n as int] == ByteRounds(n as bv16)
  {
    RowOk0();
    RowEntry(Row0, n);
    InRow0(n);
  }

  lemma InRow0(n: bv8)
    requires n >> 4 == 0
    ensures Table[n as int] == Row0[(n & 15) as int]
  {
    assert n as int == 0 + (n & 15) as int;
  }

  lemma RowOk1()
    ensures RowAgrees(Row1, 0x10, 0)
  {
    assert RowAgrees(Row1, 0x1C, 12);
    assert RowAgrees(Row1, 0x18, 8);
    assert RowAgrees(Row1, 0x14, 4);
  }

  lemma TableRow1(n: bv8)
    requires n >> 4 == 1
    ensures Table[n as int] == ByteRounds(n as bv16)
  {
    RowOk1();
    RowEntry(Row1, n);
    InRow1(n);
  }

  lemma InRow1(n: bv8)
    requires n >> 4 == 1
    ensures Table[n as int] == Row1[(n & 15) as int]
  {
    assert n as int == 16 + (n & 15) as int;
  }

  lemma RowOk2()
    ensures RowAgrees(Row2, 0x20, 0)
  {
    assert RowAgrees(Row2, 0x2C, 12);
    assert RowAgrees(Row2, 0x28, 8);
    assert RowAgrees(Row2, 0x24, 4);
  }

  lemma TableRow2(n: bv8)
    requires n >> 4 == 2
    ensures Table[n as int] == ByteRounds(n as bv16)
  {
    RowOk2();
    RowEntry(Row2, n);
    InRow2(n);
  }

  lemma InRow2(n: bv8)
    requires n >> 4 == 2
    ensures Table[n as int] == Row2[(n & 15) as int]
  {
    assert n as int == 32 + (n & 15) as int;
  }

  lemma RowOk3()
    ensures RowAgrees(Row3, 0x30, 0)
  {
    assert RowAgrees(Row3, 0x3C, 12);
    assert RowAgrees(Row3, 0x38, 8);
    assert RowAgrees(Row3, 0x34, 4);
  }

  lemma TableRow3(n: bv8)
    requires n >> 4 == 3
    ensures Table[n as int] == ByteRounds(n as bv16)
  {
    RowOk3();
    RowEntry(Row3, n);
    InRow3(n);
  }

  lemma InRow3(n: bv8)
    requires n >> 4 == 3
    ensures Table[n as int] == Row3[(n & 15) as int]
  {
    assert n as int == 48 + (n & 15) as int;
  }

  lemma RowOk4()
    ensures RowAgrees(Row4, 0x40, 0)
  {
    assert RowAgrees(Row4, 0x4C, 12);
    assert RowAgrees(Row4, 0x48, 8);
    assert RowAgrees(Row4, 0x44, 4);
  }

  lemma TableRow4(n: bv8)
    requires n >> 4 == 4
    ensures Table[n as int] == ByteRounds(n as bv16)
  {
    RowOk4();
    RowEntry(Row4, n);
    InRow4(n);
  }

  lemma InRow4(n: bv8)
    requires n >> 4 == 4
    ensures Table[n as int] == Row4[(n & 15) as int]
  {
    assert n as int == 64 + (n & 15) as int;
  }

  lemma RowOk5()
    ensures RowAgrees(Row5, 0x50, 0)
  {
    assert RowAgrees(Row5, 0x5C, 12);
    assert RowAgrees(Row5, 0x58, 8);
    assert RowAgrees(Row5, 0x54, 4);
  }

  lemma TableRow5(n: bv8)
    requires n >> 4 == 5
    ensures Table[n as int] == ByteRounds(n as bv16)
  {
    RowOk5();
    RowEntry(Row5, n);
    InRow5(n);
  }

  lemma InRow5(n: bv8)
    requires n >> 4 == 5
    ensures Table[n as int] == Row5[(n & 15) as int]
  {
    assert n as int == 80 + (n & 15) as int;
  }

  lemma RowOk6()
    ensures RowAgrees(Row6, 0x60, 0)
  {
    assert RowAgrees(Row6, 0x6C, 12);
    assert RowAgrees(Row6, 0x68, 8);
    assert RowAgrees(Row6, 0x64, 4);
  }

  lemma TableRow6(n: bv8)
    requires n >> 4 == 6
    ensures Table[n as int] == ByteRounds(n as bv16)
  {
    RowOk6();
    RowEntry(Row6, n);
    InRow6(n);
  }

  lemma InRow6(n: bv8)
    requires n >> 4 == 6
    ensures Table[n as int] == Row6[(n & 15) as int]
  {
    assert n as int == 96 + (n & 15) as int;
  }

  lemma RowOk7()
    ensures RowAgrees(Row7, 0x70, 0)
  {
    assert RowAgrees(Row7, 0x7C, 12);
    assert RowAgrees(Row7, 0x78, 8);
    assert RowAgrees(Row7, 0x74, 4);
  }

  lemma TableRow7(n: bv8)
    requires n >> 4 == 7
    ensures Table[n as int] == ByteRounds(n as bv16)
  {
    RowOk7();
    RowEntry(Row7, n);
    InRow7(n);
  }

  lemma InRow7(n: bv8)
    requires n >> 4 == 7
    ensures Table[n as int] == Row7[(n & 15) as int]
  {
    assert n as int == 112 + (n & 15) as int;
  }

  lemma RowOk8()
    ensures RowAgrees(Row8, 0x80, 0)
  {
    assert RowAgrees(Row8, 0x8C, 12);
    assert RowAgrees(Row8, 0x88, 8);
    assert RowAgrees(Row8, 0x84, 4);
  }

  lemma TableRow8(n: bv8)
    requires n >> 4 == 8
    ensures Table[n as int] == ByteRounds(n as bv16)
  {
    RowOk8();
    RowEntry(Row8, n);
    InRow8(n);
  }

  lemma InRow8(n: bv8)
    requires n >> 4 == 8
    ensures Table[n as int] == Row8[(n & 15) as int]
  {
    assert n as int == 128 + (n & 15) as int;
  }

  lemma RowOk9()
    ensures RowAgrees(Row9, 0x90, 0)
  {
    assert RowAgrees(Row9, 0x9C, 12);
    assert RowAgrees(Row9, 0x98, 8);
    assert RowAgrees(Row9, 0x94, 4);
  }

  lemma TableRow9(n: bv8)
    requires n >> 4 == 9
    ensures Table[n as int] == ByteRounds(n as bv16)
  {
    RowOk9();
    RowEntry(Row9, n);
    InRow9(n);
  }

  lemma InRow9(n: bv8)
    requires n >> 4 == 9
    ensures Table[n as int] == Row9[(n & 15) as int]
  {
    assert n as int == 144 + (n & 15) as int;
  }

  lemma RowOk10()
    ensures RowAgrees(Row10, 0xA0, 0)
  {
    assert RowAgrees(Row10, 0xAC, 12);
    assert RowAgrees(Row10, 0xA8, 8);
    assert RowAgrees(Row10, 0xA4, 4);
  }

  lemma TableRow10(n: bv8)
    requires n >> 4 == 10
    ensures Table[n as int] == ByteRounds(n as bv16)
  {
    RowOk10();
    RowEntry(Row10, n);
    InRow10(n);
  }

  lemma InRow10(n: bv8)
    requires n >> 4 == 10
    ensures Table[n as int] == Row10[(n & 15) as int]
  {
    assert n as int == 160 + (n & 15) as int;
  }

  lemma RowOk11()
    ensures RowAgrees(Row11, 0xB0, 0)
  {
    assert RowAgrees(Row11, 0xBC, 12);
    assert RowAgrees(Row11, 0xB8, 8);
    assert RowAgrees(Row11, 0xB4, 4);
  }

  lemma TableRow11(n: bv8)
    requires n >> 4 == 11
    ensures Table[n as int] == ByteRounds(n as bv16)
  {
    RowOk11();
    RowEntry(Row11, n);
    InRow11(n);
  }

  lemma InRow11(n: bv8)
    requires n >> 4 == 11
    ensures Table[n as int] == Row11[(n & 15) as int]
  {
    assert n as int == 176 + (n & 15) as int;
  }

  lemma RowOk12()
    ensures RowAgrees(Row12, 0xC0, 0)
  {
    assert RowAgrees(Row12, 0xCC, 12);
    assert RowAgrees(Row12, 0xC8, 8);
    assert RowAgrees(Row12, 0xC4, 4);
  }

  lemma TableRow12(n: bv8)
    requires n >> 4 == 12
    ensures Table[n as int] == ByteRounds(n as bv16)
  {
    RowOk12();
    RowEntry(Row12, n);
    InRow12(n);
  }

  lemma InRow12(n: bv8)
    requires n >> 4 == 12
    ensures Table[n as int] == Row12[(n & 15) as int]
  {
    assert n as int == 192 + (n & 15) as int;
  }

  lemma RowOk13()
    ensures RowAgrees(Row13, 0xD0, 0)
  {
    assert RowAgrees(Row13, 0xDC, 12);
    assert RowAgrees(Row13, 0xD8, 8);
    assert RowAgrees(Row13, 0xD4, 4);
  }

  lemma TableRow13(n: bv8)
    requires n >> 4 == 13
    ensures Table[n as int] == ByteRounds(n as bv16)
  {
    RowOk13();
    RowEntry(Row13, n);
    InRow13(n);
  }

  lemma InRow13(n: bv8)
    requires n >> 4 == 13
    ensures Table[n as int] == Row13[(n & 15) as int]
  {
    assert n as int == 208 + (n & 15) as int;
  }

  lemma RowOk14()
    ensures RowAgrees(Row14, 0xE0, 0)
  {
    assert RowAgrees(Row14, 0xEC, 12);
    assert RowAgrees(Row14, 0xE8, 8);
    assert RowAgrees(Row14, 0xE4, 4);
  }

  lemma TableRow14(n: bv8)
    requires n >> 4 == 14
    ensures Table[n as int] == ByteRounds(n as bv16)
  {
    RowOk14();
    RowEntry(Row14, n);
    InRow14(n);
  }

  lemma InRow14(n: bv8)
    requires n >> 4 == 14
    ensures Table[n as int] == Row14[(n & 15) as int]
  {
    assert n as int == 224 + (n & 15) as int;
  }

  lemma RowOk15()
    ensures RowAgrees(Row15, 0xF0, 0)
  {
    assert RowAgrees(Row15, 0xFC, 12);
    assert RowAgrees(Row15, 0xF8, 8);
    assert RowAgrees(Row15, 0xF4, 4);
  }

  lemma TableRow15(n: bv8)
    requires n >> 4 == 15
    ensures Table[n as int] == ByteRounds(n as bv16)
  {
    RowOk15();
    RowEntry(Row15, n);
    InRow15(n);
  }

  lemma InRow15(n: bv8)
    requires n >> 4 == 15
    ensures Table[n as int] == Row15[(n & 15) as int]
  {
    assert n as int == 240 + (n & 15) as int;
  }

  /** The whole table agrees with the bitwise definition. */
  lemma TableEntry(n: bv8)
    ensures Table[n as int] == ByteRounds(n as bv16)
  {
    if n >> 4 == 0 { TableRow0(n); }
    else if n >> 4 == 1 { TableRow1(n); }
    else if n >> 4 == 2 { TableRow2(n); }
    else if n >> 4 == 3 { TableRow3(n); }
    else if n >> 4 == 4 { TableRow4(n); }
    else if n >> 4 == 5 { TableRow5(n); }
    else if n >> 4 == 6 { TableRow6(n); }
    else if n >> 4 == 7 { TableRow7(n); }
    else if n >> 4 == 8 { TableRow8(n); }
    else if n >> 4 == 9 { TableRow9(n); }
    else if n >> 4 == 10 { TableRow10(n); }
    else if n >> 4 == 11 { TableRow11(n); }
    else if n >> 4 == 12 { TableRow12(n); }
    else if n >> 4 == 13 { TableRow13(n); }
    else if n >> 4 == 14 { TableRow14(n); }
    else { TableRow15(n); }
  }

  /** Through eight rounds the high byte only shifts down: it never meets the polynomial. */
  lemma HighBytePasses(x: bv16)
    ensures ByteRounds(x) == (x >> 8) ^ ByteRounds(Index(x) as bv16)
  {
  }

  lemma ByteRoundsIsRounds(x: bv16)
    ensures ByteRounds(x) == Rounds(x, 8)
  {
    var y1 := Round(x);
    var y2 := Round(y1);
    var y3 := Round(y2);
    var y4 := Round(y3);
    var y5 := Round(y4);
    var y6 := Round(y5);
    var y7 := Round(y6);
    assert Rounds(x, 8) == Rounds(y1, 7) == Rounds(y2, 6) == Rounds(y3, 5) == Rounds(y4, 4);
    assert Rounds(y4, 4) == Rounds(y5, 3) == Rounds(y6, 2) == Rounds(y7, 1) == Round(y7);
  }

  /** One table step is one bitwise step. */
  lemma StepAgrees(crc: bv16, b: bv8)
    ensures TableStep(crc, b) == BitwiseStep(crc, b)
  {
    HighBytePasses(crc ^ b as bv16);
    TableEntry(Index(crc ^ b as bv16));
    ByteRoundsIsRounds(crc ^ b as bv16);
    assert (crc ^ b as bv16) >> 8 == crc >> 8;
  }

  /** The table-driven fold computes the bitwise CRC. */
  lemma {:induction false} TableCrcIsBitwise(s: seq<bv8>)
    ensures TableCrc(s) == Bitwise(s)
    decreases |s|
  {
    if s != [] {
      TableCrcIsBitwise(s[..|s| - 1]);
      StepAgrees(Bitwise(s[..|s| - 1]), s[|s| - 1]);
    }
  }

  // ---------------------------------------------------------------------------
  // A changed byte changes the CRC
  // ---------------------------------------------------------------------------

  lemma RoundInjective(x: bv16, y: bv16)
    ensures Round(x) == Round(y) ==> x == y
  {
  }

  /** The rounds lose no information. */
  lemma {:induction false} RoundsInjective(x: bv16, y: bv16, k: nat)
    ensures Rounds(x, k) == Rounds(y, k) ==> x == y
    decreases k
  {
    if k > 0 {
      RoundsInjective(Round(x), Round(y), k - 1);
      RoundInjective(x, y);
    }
  }

  lemma BitwisePrefix(s: seq<bv8>, n: nat)
    requires 0 < n <= |s|
    ensures Bitwise(s[..n]) == BitwiseStep(Bitwise(s[..n - 1]), s[n - 1])
  {
    assert s[..n][..n - 1] == s[..n - 1];
  }

  /** Different registers entering a step leave it different. */
  lemma StepInjective(c: bv16, d: bv16, b: bv8, e: bv8)
    requires c ^ b as bv16 != d ^ e as bv16
    ensures BitwiseStep(c, b) != BitwiseStep(d, e)
  {
    RoundsInjective(c ^ b as bv16, d ^ e as bv16, 8);
  }

  /** From the first differing byte on, the running CRCs of `s` and `t` differ. */
  lemma {:induction false} DivergesFrom(s: seq<bv8>, t: seq<bv8>, k: nat, n: nat)
    requires |s| == |t| && k < n <= |s|
    requires s[..k] == t[..k] && s[k] != t[k]
    requires forall i :: k < i < n ==> s[i] == t[i]
    ensures Bitwise(s[..n]) != Bitwise(t[..n])
    decreases n
  {
    var c, d := Bitwise(s[..n - 1]), Bitwise(t[..n - 1]);
    BitwisePrefix(s, n);
    BitwisePrefix(t, n);
    if n == k + 1 {
      assert c == d;
      StepInjective(c, d, s[k], t[k]);
    } else {
      DivergesFrom(s, t, k, n - 1);
      StepInjective(c, d, s[n - 1], t[n - 1]);
    }
  }

  /** Changing any one byte of a message changes its CRC. */
  lemma SingleByteChangeDetected(s: seq<bv8>, t: seq<bv8>, k: nat)
    requires |s| == |t| && k < |s| && s[k] != t[k]
    requires forall i :: 0 <= i < |s| && i != k ==> s[i] == t[i]
    ensures Bitwise(s) != Bitwise(t)
    ensures TableCrc(s) != TableCrc(t)
  {
    assert s[..k] == t[..k];
    assert s[..|s|] == s && t[..|t|] == t;
    DivergesFrom(s, t, k, |s|);
    TableCrcIsBitwise(s);
    TableCrcIsBitwise(t);
  }

  // ---------------------------------------------------------------------------
  // The driver's loop
  // ---------------------------------------------------------------------------

  /**
   * CRC of the first `length` bytes of `data`, one table step per byte: the
   * index is the byte XOR the register, truncated to eight bits, and the
   * register becomes its high byte XOR the table entry.
   */
  method Compute(data: array<bv8>, length: nat) returns (crc: bv16)
    requires length <= data.Length
    ensures crc == Bitwise(data[..length])
  {
    crc := Seed;
    var i := 0;
    while i < length
      invariant 0 <= i <= length
      invariant crc == TableCrc(data[..i])
    {
      crc := TableStep(crc, data[i]);
      assert data[..i + 1][..i] == data[..i];
      assert data[..i + 1][i] == data[i];
      i := i + 1;
    }
    TableCrcIsBitwise(data[..length]);
  }

  /** The read request for register 0 of slave 1 carries CRC 0x0A84. */
  lemma ReadRequestVector()
    ensures Bitwise([0x01, 0x03, 0x00, 0x00, 0x00, 0x01]) == 0x0A84
  {
    var s: seq<bv8> := [0x01, 0x03, 0x00, 0x00, 0x00, 0x01];
    var c := [Seed, 0x807E, 0x2140, 0xF020, 0xD8F1, 0x8419, 0x0A84];
    var n := 0;
    while n < 6
      invariant n <= 6 && Bitwise(s[..n]) == c[n]
    {
      assert s[..n + 1][..n] == s[..n];
      ByteRoundsIsRounds(c[n] ^ s[n] as bv16);
      n := n + 1;
    }
    assert s[..6] == s;
  }

  /** The reply of slave 1 carrying the value 100 in one register has CRC 0xAFB9. */
  lemma ReadResponseVector()
    ensures Bitwise([0x01, 0x03, 0x02, 0x00, 0x64]) == 0xAFB9
  {
    var s: seq<bv8> := [0x01, 0x03, 0x02, 0x00, 0x64];
    var c := [Seed, 0x807E, 0x2140, 0x31A1, 0xB8F0, 0xAFB9];
    var n := 0;
    while n < 5
      invariant n <= 5 && Bitwise(s[..n]) == c[n]
    {
      assert s[..n + 1][..n] == s[..n];
      ByteRoundsIsRounds(c[n] ^ s[n] as bv16);
      n := n + 1;
    }
    assert s[..5] == s;
  }
}
