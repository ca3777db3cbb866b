/** The lookup table of modules/libmiscdata/crc16.c and the proof that every one of its 256
    entries is eight bit steps of the reflected polynomial 0xA001.
    The rows are checked one at a time: a 256-element display is too deep for the solver. */
module Crc16Table {

  const ROW_0: seq<bv16> := [
    0x0000, 0xC0C1, 0xC181, 0x0140, 0xC301, 0x03C0, 0x0280, 0xC241,
    0xC601, 0x06C0, 0x0780, 0xC741, 0x0500, 0xC5C1, 0xC481, 0x0440]
  const ROW_1: seq<bv16> := [
    0xCC01, 0x0CC0, 0x0D80, 0xCD41, 0x0F00, 0xCFC1, 0xCE81, 0x0E40,
    0x0A00, 0xCAC1, 0xCB81, 0x0B40, 0xC901, 0x09C0, 0x0880, 0xC841]
  const ROW_2: seq<bv16> := [
    0xD801, 0x18C0, 0x1980, 0xD941, 0x1B00, 0xDBC1, 0xDA81, 0x1A40,
    0x1E00, 0xDEC1, 0xDF81, 0x1F40, 0xDD01, 0x1DC0, 0x1C80, 0xDC41]
  const ROW_3: seq<bv16> := [
    0x1400, 0xD4C1, 0xD581, 0x1540, 0xD701, 0x17C0, 0x1680, 0xD641,
    0xD201, 0x12C0, 0x1380, 0xD341, 0x1100, 0xD1C1, 0xD081, 0x1040]
  const ROW_4: seq<bv16> := [
    0xF001, 0x30C0, 0x3180, 0xF141, 0x3300, 0xF3C1, 0xF281, 0x3240,
    0x3600, 0xF6C1, 0xF781, 0x3740, 0xF501, 0x35C0, 0x3480, 0xF441]
  const ROW_5: seq<bv16> := [
    0x3C00, 0xFCC1, 0xFD81, 0x3D40, 0xFF01, 0x3FC0, 0x3E80, 0xFE41,
    0xFA01, 0x3AC0, 0x3B80, 0xFB41, 0x3900, 0xF9C1, 0xF881, 0x3840]
  const ROW_6: seq<bv16> := [
    0x2800, 0xE8C1, 0xE981, 0x2940, 0xEB01, 0x2BC0, 0x2A80, 0xEA41,
    0xEE01, 0x2EC0, 0x2F80, 0xEF41, 0x2D00, 0xEDC1, 0xEC81, 0x2C40]
  const ROW_7: seq<bv16> := [
    0xE401, 0x24C0, 0x2580, 0xE541, 0x2700, 0xE7C1, 0xE681, 0x2640,
    0x2200, 0xE2C1, 0xE381, 0x2340, 0xE101, 0x21C0, 0x2080, 0xE041]
  const ROW_8: seq<bv16> := [
    0xA001, 0x60C0, 0x6180, 0xA141, 0x6300, 0xA3C1, 0xA281, 0x6240,
    0x6600, 0xA6C1, 0xA781, 0x6740, 0xA501, 0x65C0, 0x6480, 0xA441]
  const ROW_9: seq<bv16> := [
    0x6C00, 0xACC1, 0xAD81, 0x6D40, 0xAF01, 0x6FC0, 0x6E80, 0xAE41,
    0xAA01, 0x6AC0, 0x6B80, 0xAB41, 0x6900, 0xA9C1, 0xA881, 0x6840]
  const ROW_A: seq<bv16> := [
    0x7800, 0xB8C1, 0xB981, 0x7940, 0xBB01, 0x7BC0, 0x7A80, 0xBA41,
    0xBE01, 0x7EC0, 0x7F80, 0xBF41, 0x7D00, 0xBDC1, 0xBC81, 0x7C40]
  const ROW_B: seq<bv16> := [
    0xB401, 0x74C0, 0x7580, 0xB541, 0x7700, 0xB7C1, 0xB681, 0x7640,
    0x7200, 0xB2C1, 0xB381, 0x7340, 0xB101, 0x71C0, 0x7080, 0xB041]
  const ROW_C: seq<bv16> := [
    0x5000, 0x90C1, 0x9181, 0x5140, 0x9301, 0x53C0, 0x5280, 0x9241,
    0x9601, 0x56C0, 0x5780, 0x9741, 0x5500, 0x95C1, 0x9481, 0x5440]
  const ROW_D: seq<bv16> := [
    0x9C01, 0x5CC0, 0x5D80, 0x9D41, 0x5F00, 0x9FC1, 0x9E81, 0x5E40,
    0x5A00, 0x9AC1, 0x9B81, 0x5B40, 0x9901, 0x59C0, 0x5880, 0x9841]
  const ROW_E: seq<bv16> := [
    0x8801, 0x48C0, 0x4980, 0x8941, 0x4B00, 0x8BC1, 0x8A81, 0x4A40,
    0x4E00, 0x8EC1, 0x8F81, 0x4F40, 0x8D01, 0x4DC0, 0x4C80, 0x8C41]
  const ROW_F: seq<bv16> := [
    0x4400, 0x84C1, 0x8581, 0x4540, 0x8701, 0x47C0, 0x4680, 0x8641,
    0x8201, 0x42C0, 0x4380, 0x8341, 0x4100, 0x81C1, 0x8081, 0x4040]

  const QUARTER_0: seq<bv16> := ROW_0 + ROW_1 + ROW_2 + ROW_3
  const QUARTER_1: seq<bv16> := ROW_4 + ROW_5 + ROW_6 + ROW_7
  const QUARTER_2: seq<bv16> := ROW_8 + ROW_9 + ROW_A + ROW_B
  const QUARTER_3: seq<bv16> := ROW_C + ROW_D + ROW_E + ROW_F

  const CRC16_TABLE: seq<bv16> := QUARTER_0 + QUARTER_1 + QUARTER_2 + QUARTER_3

  /** One step of the reflected shift register. */
  function Shift(crc: bv16): bv16 {
    if crc & 1 == 1 then (crc >> 1) ^ 0xA001 else crc >> 1
  }

  function Shift2(crc: bv16): bv16 { Shift(Shift(crc)) }

  function Shift4(crc: bv16): bv16 { Shift2(Shift2(crc)) }

  function Shift8(crc: bv16): bv16 { Shift4(Shift4(crc)) }

  /** Every table entry is eight bit steps applied to its index. */
  lemma TableEntry(i: bv8)
    ensures |CRC16_TABLE| == 256
    ensures CRC16_TABLE[i as int] == Shift8(i as bv16)
  {
    TableLayout();
    if i >> 6 == 0 {
      Quarter0(i);
    } else if i >> 6 == 1 {
      Quarter1(i);
    } else if i >> 6 == 2 {
      Quarter2(i);
    } else {
      Quarter3(i);
    }
  }

  /** Reading the table: the entry is the contribution of one byte to the register. */
  function Lookup(i: bv8): (entry: bv16)
    ensures entry == Shift8(i as bv16)
  {
    TableEntry(i);
    CRC16_TABLE[i as int]
  }

  lemma QuarterLengths()
    ensures |QUARTER_0| == |QUARTER_1| == |QUARTER_2| == |QUARTER_3| == 64
  {}

  lemma TableLayout()
    ensures |CRC16_TABLE| == 256
    ensures forall k :: 0 <= k < 64 ==> CRC16_TABLE[k] == QUARTER_0[k]
    ensures forall k :: 0 <= k < 64 ==> CRC16_TABLE[64 + k] == QUARTER_1[k]
    ensures forall k :: 0 <= k < 64 ==> CRC16_TABLE[128 + k] == QUARTER_2[k]
    ensures forall k :: 0 <= k < 64 ==> CRC16_TABLE[192 + k] == QUARTER_3[k]
  {
    QuarterLengths();
  }

  lemma Quarter0(i: bv8)
    requires i >> 6 == 0
    ensures 0 <= i as int < 64 && |QUARTER_0| == 64
    ensures QUARTER_0[i as int - 0] == Shift8(i as bv16)
  {
    if i >> 4 == 0x0 { Row0(i); } else if i >> 4 == 0x1 { Row1(i); } else if i >> 4 == 0x2 { Row2(i); } else if i >> 4 == 0x3 { Row3(i); }
  }

  lemma Quarter1(i: bv8)
    requires i >> 6 == 1
    ensures 64 <= i as int < 128 && |QUARTER_1| == 64
    ensures QUARTER_1[i as int - 64] == Shift8(i as bv16)
  {
    if i >> 4 == 0x4 { Row4(i); } else if i >> 4 == 0x5 { Row5(i); } else if i >> 4 == 0x6 { Row6(i); } else if i >> 4 == 0x7 { Row7(i); }
  }

  lemma Quarter2(i: bv8)
    requires i >> 6 == 2
    ensures 128 <= i as int < 192 && |QUARTER_2| == 64
    ensures QUARTER_2[i as int - 128] == Shift8(i as bv16)
  {
    if i >> 4 == 0x8 { Row8(i); } else if i >> 4 == 0x9 { Row9(i); } else if i >> 4 == 0xA { RowA(i); } else if i >> 4 == 0xB { RowB(i); }
  }

  lemma Quarter3(i: bv8)
    requires i >> 6 == 3
    ensures 192 <= i as int < 256 && |QUARTER_3| == 64
    ensures QUARTER_3[i as int - 192] == Shift8(i as bv16)
  {
    if i >> 4 == 0xC { RowC(i); } else if i >> 4 == 0xD { RowD(i); } else if i >> 4 == 0xE { RowE(i); } else if i >> 4 == 0xF { RowF(i); }
  }

  lemma Row0(i: bv8)
    requires i >> 4 == 0x0
    ensures 0x00 <= i as int < 0x10
    ensures ROW_0[i as int - 0x00] == Shift8(i as bv16)
  {
    if i == 0x00 {} else if i == 0x01 {} else if i == 0x02 {} else if i == 0x03 {}
    else if i == 0x04 {} else if i == 0x05 {} else if i == 0x06 {} else if i == 0x07 {}
    else if i == 0x08 {} else if i == 0x09 {} else if i == 0x0A {} else if i == 0x0B {}
    else if i == 0x0C {} else if i == 0x0D {} else if i == 0x0E {} else if i == 0x0F {}
  }

  lemma Row1(i: bv8)
    requires i >> 4 == 0x1
    ensures 0x10 <= i as int < 0x20
    ensures ROW_1[i as int - 0x10] == Shift8(i as bv16)
  {
    if i == 0x10 {} else if i == 0x11 {} else if i == 0x12 {} else if i == 0x13 {}
    else if i == 0x14 {} else if i == 0x15 {} else if i == 0x16 {} else if i == 0x17 {}
    else if i == 0x18 {} else if i == 0x19 {} else if i == 0x1A {} else if i == 0x1B {}
    else if i == 0x1C {} else if i == 0x1D {} else if i == 0x1E {} else if i == 0x1F {}
  }

  lemma Row2(i: bv8)
    requires i >> 4 == 0x2
    ensures 0x20 <= i as int < 0x30
    ensures ROW_2[i as int - 0x20] == Shift8(i as bv16)
  {
    if i == 0x20 {} else if i == 0x21 {} else if i == 0x22 {} else if i == 0x23 {}
    else if i == 0x24 {} else if i == 0x25 {} else if i == 0x26 {} else if i == 0x27 {}
    else if i == 0x28 {} else if i == 0x29 {} else if i == 0x2A {} else if i == 0x2B {}
    else if i == 0x2C {} else if i == 0x2D {} else if i == 0x2E {} else if i == 0x2F {}
  }

  lemma Row3(i: bv8)
    requires i >> 4 == 0x3
    ensures 0x30 <= i as int < 0x40
    ensures ROW_3[i as int - 0x30] == Shift8(i as bv16)
  {
    if i == 0x30 {} else if i == 0x31 {} else if i == 0x32 {} else if i == 0x33 {}
    else if i == 0x34 {} else if i == 0x35 {} else if i == 0x36 {} else if i == 0x37 {}
    else if i == 0x38 {} else if i == 0x39 {} else if i == 0x3A {} else if i == 0x3B {}
    else if i == 0x3C {} else if i == 0x3D {} else if i == 0x3E {} else if i == 0x3F {}
  }

  lemma Row4(i: bv8)
    requires i >> 4 == 0x4
    ensures 0x40 <= i as int < 0x50
    ensures ROW_4[i as int - 0x40] == Shift8(i as bv16)
  {
    if i == 0x40 {} else if i == 0x41 {} else if i == 0x42 {} else if i == 0x43 {}
    else if i == 0x44 {} else if i == 0x45 {} else if i == 0x46 {} else if i == 0x47 {}
    else if i == 0x48 {} else if i == 0x49 {} else if i == 0x4A {} else if i == 0x4B {}
    else if i == 0x4C {} else if i == 0x4D {} else if i == 0x4E {} else if i == 0x4F {}
  }

  lemma Row5(i: bv8)
    requires i >> 4 == 0x5
    ensures 0x50 <= i as int < 0x60
    ensures ROW_5[i as int - 0x50] == Shift8(i as bv16)
  {
    if i == 0x50 {} else if i == 0x51 {} else if i == 0x52 {} else if i == 0x53 {}
    else if i == 0x54 {} else if i == 0x55 {} else if i == 0x56 {} else if i == 0x57 {}
    else if i == 0x58 {} else if i == 0x59 {} else if i == 0x5A {} else if i == 0x5B {}
    else if i == 0x5C {} else if i == 0x5D {} else if i == 0x5E {} else if i == 0x5F {}
  }

  lemma Row6(i: bv8)
    requires i >> 4 == 0x6
    ensures 0x60 <= i as int < 0x70
    ensures ROW_6[i as int - 0x60] == Shift8(i as bv16)
  {
    if i == 0x60 {} else if i == 0x61 {} else if i == 0x62 {} else if i == 0x63 {}
    else if i == 0x64 {} else if i == 0x65 {} else if i == 0x66 {} else if i == 0x67 {}
    else if i == 0x68 {} else if i == 0x69 {} else if i == 0x6A {} else if i == 0x6B {}
    else if i == 0x6C {} else if i == 0x6D {} else if i == 0x6E {} else if i == 0x6F {}
  }

  lemma Row7(i: bv8)
    requires i >> 4 == 0x7
    ensures 0x70 <= i as int < 0x80
    ensures ROW_7[i as int - 0x70] == Shift8(i as bv16)
  {
    if i == 0x70 {} else if i == 0x71 {} else if i == 0x72 {} else if i == 0x73 {}
    else if i == 0x74 {} else if i == 0x75 {} else if i == 0x76 {} else if i == 0x77 {}
    else if i == 0x78 {} else if i == 0x79 {} else if i == 0x7A {} else if i == 0x7B {}
    else if i == 0x7C {} else if i == 0x7D {} else if i == 0x7E {} else if i == 0x7F {}
  }

  lemma Row8(i: bv8)
    requires i >> 4 == 0x8
    ensures 0x80 <= i as int < 0x90
    ensures ROW_8[i as int - 0x80] == Shift8(i as bv16)
  {
    if i == 0x80 {} else if i == 0x81 {} else if i == 0x82 {} else if i == 0x83 {}
    else if i == 0x84 {} else if i == 0x85 {} else if i == 0x86 {} else if i == 0x87 {}
    else if i == 0x88 {} else if i == 0x89 {} else if i == 0x8A {} else if i == 0x8B {}
    else if i == 0x8C {} else if i == 0x8D {} else if i == 0x8E {} else if i == 0x8F {}
  }

  lemma Row9(i: bv8)
    requires i >> 4 == 0x9
    ensures 0x90 <= i as int < 0xA0
    ensures ROW_9[i as int - 0x90] == Shift8(i as bv16)
  {
    if i == 0x90 {} else if i == 0x91 {} else if i == 0x92 {} else if i == 0x93 {}
    else if i == 0x94 {} else if i == 0x95 {} else if i == 0x96 {} else if i == 0x97 {}
    else if i == 0x98 {} else if i == 0x99 {} else if i == 0x9A {} else if i == 0x9B {}
    else if i == 0x9C {} else if i == 0x9D {} else if i == 0x9E {} else if i == 0x9F {}
  }

  lemma RowA(i: bv8)
    requires i >> 4 == 0xA
    ensures 0xA0 <= i as int < 0xB0
    ensures ROW_A[i as int - 0xA0] == Shift8(i as bv16)
  {
    if i == 0xA0 {} else if i == 0xA1 {} else if i == 0xA2 {} else if i == 0xA3 {}
    else if i == 0xA4 {} else if i == 0xA5 {} else if i == 0xA6 {} else if i == 0xA7 {}
    else if i == 0xA8 {} else if i == 0xA9 {} else if i == 0xAA {} else if i == 0xAB {}
    else if i == 0xAC {} else if i == 0xAD {} else if i == 0xAE {} else if i == 0xAF {}
  }

  lemma RowB(i: bv8)
    requires i >> 4 == 0xB
    ensures 0xB0 <= i as int < 0xC0
    ensures ROW_B[i as int - 0xB0] == Shift8(i as bv16)
  {
    if i == 0xB0 {} else if i == 0xB1 {} else if i == 0xB2 {} else if i == 0xB3 {}
    else if i == 0xB4 {} else if i == 0xB5 {} else if i == 0xB6 {} else if i == 0xB7 {}
    else if i == 0xB8 {} else if i == 0xB9 {} else if i == 0xBA {} else if i == 0xBB {}
    else if i == 0xBC {} else if i == 0xBD {} else if i == 0xBE {} else if i == 0xBF {}
  }

  lemma RowC(i: bv8)
    requires i >> 4 == 0xC
    ensures 0xC0 <= i as int < 0xD0
    ensures ROW_C[i as int - 0xC0] == Shift8(i as bv16)
  {
    if i == 0xC0 {} else if i == 0xC1 {} else if i == 0xC2 {} else if i == 0xC3 {}
    else if i == 0xC4 {} else if i == 0xC5 {} else if i == 0xC6 {} else if i == 0xC7 {}
    else if i == 0xC8 {} else if i == 0xC9 {} else if i == 0xCA {} else if i == 0xCB {}
    else if i == 0xCC {} else if i == 0xCD {} else if i == 0xCE {} else if i == 0xCF {}
  }

  lemma RowD(i: bv8)
    requires i >> 4 == 0xD
    ensures 0xD0 <= i as int < 0xE0
    ensures ROW_D[i as int - 0xD0] == Shift8(i as bv16)
  {
    if i == 0xD0 {} else if i == 0xD1 {} else if i == 0xD2 {} else if i == 0xD3 {}
    else if i == 0xD4 {} else if i == 0xD5 {} else if i == 0xD6 {} else if i == 0xD7 {}
    else if i == 0xD8 {} else if i == 0xD9 {} else if i == 0xDA {} else if i == 0xDB {}
    else if i == 0xDC {} else if i == 0xDD {} else if i == 0xDE {} else if i == 0xDF {}
  }

  lemma RowE(i: bv8)
    requires i >> 4 == 0xE
    ensures 0xE0 <= i as int < 0xF0
    ensures ROW_E[i as int - 0xE0] == Shift8(i as bv16)
  {
    if i == 0xE0 {} else if i == 0xE1 {} else if i == 0xE2 {} else if i == 0xE3 {}
    else if i == 0xE4 {} else if i == 0xE5 {} else if i == 0xE6 {} else if i == 0xE7 {}
    else if i == 0xE8 {} else if i == 0xE9 {} else if i == 0xEA {} else if i == 0xEB {}
    else if i == 0xEC {} else if i == 0xED {} else if i == 0xEE {} else if i == 0xEF {}
  }

  lemma RowF(i: bv8)
    requires i >> 4 == 0xF
    ensures 0xF0 <= i as int < 0x100
    ensures ROW_F[i as int - 0xF0] == Shift8(i as bv16)
  {
    if i == 0xF0 {} else if i == 0xF1 {} else if i == 0xF2 {} else if i == 0xF3 {}
    else if i == 0xF4 {} else if i == 0xF5 {} else if i == 0xF6 {} else if i == 0xF7 {}
    else if i == 0xF8 {} else if i == 0xF9 {} else if i == 0xFA {} else if i == 0xFB {}
    else if i == 0xFC {} else if i == 0xFD {} else if i == 0xFE {} else if i == 0xFF {}
  }
}
