/**
 The CRC-32 checksum of a frame (soaagent/crc32.c).

 Three descriptions of it are proved equal: the source's table-driven loop, the same
 register stepped one bit at a time, and the textbook long division of the message by the
 polynomial named in the file header (the algorithm of section 8 of RFC 1952).
 */
module Crc32 {

  /** The polynomial of the file header, x^32 left out, lowest bit the highest power. */
  const POLY: bv32 := 0xEDB88320

  /** The exponents written out in the file header, x^32 left out. */
  const EXPONENTS: set<int> := {26, 23, 22, 16, 12, 11, 10, 8, 7, 5, 4, 2, 1, 0}

  /** The register after one more bit, that bit already folded into its lowest position. */
  function BitStep(c: bv32): bv32
  {
    if c & 1 == 1 then (c >> 1) ^ POLY else c >> 1
  }

  function TwoSteps(c: bv32): bv32
  {
    BitStep(BitStep(c))
  }

  function FourSteps(c: bv32): bv32
  {
    TwoSteps(TwoSteps(c))
  }

  function ByteStep(c: bv32): bv32
  {
    FourSteps(FourSteps(c))
  }

  /** crc32tab, sixteen entries to a row. */
  function TableRow(row: int): (r: seq<bv32>)
    requires 0 <= row < 16
    ensures |r| == 16
  {
      if row == 0 then [
        0x00000000, 0x77073096, 0xee0e612c, 0x990951ba, 0x076dc419, 0x706af48f, 0xe963a535, 0x9e6495a3,
        0x0edb8832, 0x79dcb8a4, 0xe0d5e91e, 0x97d2d988, 0x09b64c2b, 0x7eb17cbd, 0xe7b82d07, 0x90bf1d91]
      else if row == 1 then [
        0x1db71064, 0x6ab020f2, 0xf3b97148, 0x84be41de, 0x1adad47d, 0x6ddde4eb, 0xf4d4b551, 0x83d385c7,
        0x136c9856, 0x646ba8c0, 0xfd62f97a, 0x8a65c9ec, 0x14015c4f, 0x63066cd9, 0xfa0f3d63, 0x8d080df5]
      else if row == 2 then [
        0x3b6e20c8, 0x4c69105e, 0xd56041e4, 0xa2677172, 0x3c03e4d1, 0x4b04d447, 0xd20d85fd, 0xa50ab56b,
        0x35b5a8fa, 0x42b2986c, 0xdbbbc9d6, 0xacbcf940, 0x32d86ce3, 0x45df5c75, 0xdcd60dcf, 0xabd13d59]
      else if row == 3 then [
        0x26d930ac, 0x51de003a, 0xc8d75180, 0xbfd06116, 0x21b4f4b5, 0x56b3c423, 0xcfba9599, 0xb8bda50f,
        0x2802b89e, 0x5f058808, 0xc60cd9b2, 0xb10be924, 0x2f6f7c87, 0x58684c11, 0xc1611dab, 0xb6662d3d]
      else if row == 4 then [
        0x76dc4190, 0x01db7106, 0x98d220bc, 0xefd5102a, 0x71b18589, 0x06b6b51f, 0x9fbfe4a5, 0xe8b8d433,
        0x7807c9a2, 0x0f00f934, 0x9609a88e, 0xe10e9818, 0x7f6a0dbb, 0x086d3d2d, 0x91646c97, 0xe6635c01]
      else if row == 5 then [
        0x6b6b51f4, 0x1c6c6162, 0x856530d8, 0xf262004e, 0x6c0695ed, 0x1b01a57b, 0x8208f4c1, 0xf50fc457,
        0x65b0d9c6, 0x12b7e950, 0x8bbeb8ea, 0xfcb9887c, 0x62dd1ddf, 0x15da2d49, 0x8cd37cf3, 0xfbd44c65]
      else if row == 6 then [
        0x4db26158, 0x3ab551ce, 0xa3bc0074, 0xd4bb30e2, 0x4adfa541, 0x3dd895d7, 0xa4d1c46d, 0xd3d6f4fb,
        0x4369e96a, 0x346ed9fc, 0xad678846, 0xda60b8d0, 0x44042d73, 0x33031de5, 0xaa0a4c5f, 0xdd0d7cc9]
      else if row == 7 then [
        0x5005713c, 0x270241aa, 0xbe0b1010, 0xc90c2086, 0x5768b525, 0x206f85b3, 0xb966d409, 0xce61e49f,
        0x5edef90e, 0x29d9c998, 0xb0d09822, 0xc7d7a8b4, 0x59b33d17, 0x2eb40d81, 0xb7bd5c3b, 0xc0ba6cad]
      else if row == 8 then [
        0xedb88320, 0x9abfb3b6, 0x03b6e20c, 0x74b1d29a, 0xead54739, 0x9dd277af, 0x04db2615, 0x73dc1683,
        0xe3630b12, 0x94643b84, 0x0d6d6a3e, 0x7a6a5aa8, 0xe40ecf0b, 0x9309ff9d, 0x0a00ae27, 0x7d079eb1]
      else if row == 9 then [
        0xf00f9344, 0x8708a3d2, 0x1e01f268, 0x6906c2fe, 0xf762575d, 0x806567cb, 0x196c3671, 0x6e6b06e7,
        0xfed41b76, 0x89d32be0, 0x10da7a5a, 0x67dd4acc, 0xf9b9df6f, 0x8ebeeff9, 0x17b7be43, 0x60b08ed5]
      else if row == 10 then [
        0xd6d6a3e8, 0xa1d1937e, 0x38d8c2c4, 0x4fdff252, 0xd1bb67f1, 0xa6bc5767, 0x3fb506dd, 0x48b2364b,
        0xd80d2bda, 0xaf0a1b4c, 0x36034af6, 0x41047a60, 0xdf60efc3, 0xa867df55, 0x316e8eef, 0x4669be79]
      else if row == 11 then [
        0xcb61b38c, 0xbc66831a, 0x256fd2a0, 0x5268e236, 0xcc0c7795, 0xbb0b4703, 0x220216b9, 0x5505262f,
        0xc5ba3bbe, 0xb2bd0b28, 0x2bb45a92, 0x5cb36a04, 0xc2d7ffa7, 0xb5d0cf31, 0x2cd99e8b, 0x5bdeae1d]
      else if row == 12 then [
        0x9b64c2b0, 0xec63f226, 0x756aa39c, 0x026d930a, 0x9c0906a9, 0xeb0e363f, 0x72076785, 0x05005713,
        0x95bf4a82, 0xe2b87a14, 0x7bb12bae, 0x0cb61b38, 0x92d28e9b, 0xe5d5be0d, 0x7cdcefb7, 0x0bdbdf21]
      else if row == 13 then [
        0x86d3d2d4, 0xf1d4e242, 0x68ddb3f8, 0x1fda836e, 0x81be16cd, 0xf6b9265b, 0x6fb077e1, 0x18b74777,
        0x88085ae6, 0xff0f6a70, 0x66063bca, 0x11010b5c, 0x8f659eff, 0xf862ae69, 0x616bffd3, 0x166ccf45]
      else if row == 14 then [
        0xa00ae278, 0xd70dd2ee, 0x4e048354, 0x3903b3c2, 0xa7672661, 0xd06016f7, 0x4969474d, 0x3e6e77db,
        0xaed16a4a, 0xd9d65adc, 0x40df0b66, 0x37d83bf0, 0xa9bcae53, 0xdebb9ec5, 0x47b2cf7f, 0x30b5ffe9]
      else [
        0xbdbdf21c, 0xcabac28a, 0x53b39330, 0x24b4a3a6, 0xbad03605, 0xcdd70693, 0x54de5729, 0x23d967bf,
        0xb3667a2e, 0xc4614ab8, 0x5d681b02, 0x2a6f2b94, 0xb40bbe37, 0xc30c8ea1, 0x5a05df1b, 0x2d02ef8d]
  }

  /** crc32tab[i] */
  function Table(i: bv32): bv32
    requires i <= 0xFF
  {
    TableRow((i >> 4) as int)[(i & 15) as int]
  }

  ghost predicate ComputedLow(row: int, base: bv32)
    requires 0 <= row < 16
  {
    && TableRow(row)[0] == ByteStep(base ^ 0)
    && TableRow(row)[1] == ByteStep(base ^ 1)
    && TableRow(row)[2] == ByteStep(base ^ 2)
    && TableRow(row)[3] == ByteStep(base ^ 3)
    && TableRow(row)[4] == ByteStep(base ^ 4)
    && TableRow(row)[5] == ByteStep(base ^ 5)
    && TableRow(row)[6] == ByteStep(base ^ 6)
    && TableRow(row)[7] == ByteStep(base ^ 7)
  }

  ghost predicate ComputedHigh(row: int, base: bv32)
    requires 0 <= row < 16
  {
    && TableRow(row)[8] == ByteStep(base ^ 8)
    && TableRow(row)[9] == ByteStep(base ^ 9)
    && TableRow(row)[10] == ByteStep(base ^ 10)
    && TableRow(row)[11] == ByteStep(base ^ 11)
    && TableRow(row)[12] == ByteStep(base ^ 12)
    && TableRow(row)[13] == ByteStep(base ^ 13)
    && TableRow(row)[14] == ByteStep(base ^ 14)
    && TableRow(row)[15] == ByteStep(base ^ 15)
  }

  lemma Row0Low() ensures ComputedLow(0, 0x00) {}
  lemma Row0High() ensures ComputedHigh(0, 0x00) {}
  lemma Row1Low() ensures ComputedLow(1, 0x10) {}
  lemma Row1High() ensures ComputedHigh(1, 0x10) {}
  lemma Row2Low() ensures ComputedLow(2, 0x20) {}
  lemma Row2High() ensures ComputedHigh(2, 0x20) {}
  lemma Row3Low() ensures ComputedLow(3, 0x30) {}
  lemma Row3High() ensures ComputedHigh(3, 0x30) {}
  lemma Row4Low() ensures ComputedLow(4, 0x40) {}
  lemma Row4High() ensures ComputedHigh(4, 0x40) {}
  lemma Row5Low() ensures ComputedLow(5, 0x50) {}
  lemma Row5High() ensures ComputedHigh(5, 0x50) {}
  lemma Row6Low() ensures ComputedLow(6, 0x60) {}
  lemma Row6High() ensures ComputedHigh(6, 0x60) {}
  lemma Row7Low() ensures ComputedLow(7, 0x70) {}
  lemma Row7High() ensures ComputedHigh(7, 0x70) {}
  lemma Row8Low() ensures ComputedLow(8, 0x80) {}
  lemma Row8High() ensures ComputedHigh(8, 0x80) {}
  lemma Row9Low() ensures ComputedLow(9, 0x90) {}
  lemma Row9High() ensures ComputedHigh(9, 0x90) {}
  lemma RowALow() ensures ComputedLow(10, 0xA0) {}
  lemma RowAHigh() ensures ComputedHigh(10, 0xA0) {}
  lemma RowBLow() ensures ComputedLow(11, 0xB0) {}
  lemma RowBHigh() ensures ComputedHigh(11, 0xB0) {}
  lemma RowCLow() ensures ComputedLow(12, 0xC0) {}
  lemma RowCHigh() ensures ComputedHigh(12, 0xC0) {}
  lemma RowDLow() ensures ComputedLow(13, 0xD0) {}
  lemma RowDHigh() ensures ComputedHigh(13, 0xD0) {}
  lemma RowELow() ensures ComputedLow(14, 0xE0) {}
  lemma RowEHigh() ensures ComputedHigh(14, 0xE0) {}
  lemma RowFLow() ensures ComputedLow(15, 0xF0) {}
  lemma RowFHigh() ensures ComputedHigh(15, 0xF0) {}

  lemma InRow(i: bv32, row: int, base: bv32)
    requires 0 <= row < 16 && ComputedLow(row, base) && ComputedHigh(row, base)
    requires i <= 0xFF && (i >> 4) as int == row && base == i & 0xF0
    ensures Table(i) == ByteStep(i)
  {
    hide ByteStep, TableRow;
  }

  /** Every entry of the table is the bit-by-bit register for its index. */
  lemma TableIsByteStep(i: bv32)
    requires i <= 0xFF
    ensures Table(i) == ByteStep(i)
  {
    hide ComputedLow, ComputedHigh, ByteStep, Table, TableRow;
    var hi := i >> 4;
    if hi == 0 {
      Row0Low();
      Row0High();
      InRow(i, 0, 0x00);
    } else if hi == 1 {
      Row1Low();
      Row1High();
      InRow(i, 1, 0x10);
    } else if hi == 2 {
      Row2Low();
      Row2High();
      InRow(i, 2, 0x20);
    } else if hi == 3 {
      Row3Low();
      Row3High();
      InRow(i, 3, 0x30);
    } else if hi == 4 {
      Row4Low();
      Row4High();
      InRow(i, 4, 0x40);
    } else if hi == 5 {
      Row5Low();
      Row5High();
      InRow(i, 5, 0x50);
    } else if hi == 6 {
      Row6Low();
      Row6High();
      InRow(i, 6, 0x60);
    } else if hi == 7 {
      Row7Low();
      Row7High();
      InRow(i, 7, 0x70);
    } else if hi == 8 {
      Row8Low();
      Row8High();
      InRow(i, 8, 0x80);
    } else if hi == 9 {
      Row9Low();
      Row9High();
      InRow(i, 9, 0x90);
    } else if hi == 10 {
      RowALow();
      RowAHigh();
      InRow(i, 10, 0xA0);
    } else if hi == 11 {
      RowBLow();
      RowBHigh();
      InRow(i, 11, 0xB0);
    } else if hi == 12 {
      RowCLow();
      RowCHigh();
      InRow(i, 12, 0xC0);
    } else if hi == 13 {
      RowDLow();
      RowDHigh();
      InRow(i, 13, 0xD0);
    } else if hi == 14 {
      RowELow();
      RowEHigh();
      InRow(i, 14, 0xE0);
    } else if hi == 15 {
      RowFLow();
      RowFHigh();
      InRow(i, 15, 0xF0);
    }
  }

  lemma LinearOddOdd(c: bv32, d: bv32)
    requires c & 1 == 1 && d & 1 == 1
    ensures (c ^ d) & 1 == 0 && (c ^ d) >> 1 == ((c >> 1) ^ POLY) ^ ((d >> 1) ^ POLY)
  {
  }

  lemma LinearOddEven(c: bv32, d: bv32)
    requires c & 1 == 1 && d & 1 == 0
    ensures (c ^ d) & 1 == 1 && ((c ^ d) >> 1) ^ POLY == ((c >> 1) ^ POLY) ^ (d >> 1)
  {
  }

  lemma LinearEvenOdd(c: bv32, d: bv32)
    requires c & 1 == 0 && d & 1 == 1
    ensures (c ^ d) & 1 == 1 && ((c ^ d) >> 1) ^ POLY == (c >> 1) ^ ((d >> 1) ^ POLY)
  {
  }

  lemma LinearEvenEven(c: bv32, d: bv32)
    requires c & 1 == 0 && d & 1 == 0
    ensures (c ^ d) & 1 == 0 && (c ^ d) >> 1 == (c >> 1) ^ (d >> 1)
  {
  }

  lemma OddOrEven(c: bv32)
    ensures c & 1 == 0 || c & 1 == 1
  {
  }

  lemma BitStepOdd(c: bv32, d: bv32)
    requires c & 1 == 1
    ensures BitStep(c ^ d) == BitStep(c) ^ BitStep(d)
  {
    OddOrEven(d);
    if d & 1 == 1 {
      LinearOddOdd(c, d);
    } else {
      LinearOddEven(c, d);
    }
  }

  lemma BitStepEven(c: bv32, d: bv32)
    requires c & 1 == 0
    ensures BitStep(c ^ d) == BitStep(c) ^ BitStep(d)
  {
    OddOrEven(d);
    if d & 1 == 1 {
      LinearEvenOdd(c, d);
    } else {
      LinearEvenEven(c, d);
    }
  }

  /** Stepping is linear over exclusive or. */
  lemma BitStepLinear(c: bv32, d: bv32)
    ensures BitStep(c ^ d) == BitStep(c) ^ BitStep(d)
  {
    hide BitStep;
    OddOrEven(c);
    if c & 1 == 1 {
      BitStepOdd(c, d);
    } else {
      BitStepEven(c, d);
    }
  }

  /** Exclusive or under a name, so that proofs about whole registers need not look at bits. */
  function Xor(c: bv32, d: bv32): bv32
  {
    c ^ d
  }

  lemma TwoStepsLinear(c: bv32, d: bv32)
    ensures TwoSteps(Xor(c, d)) == Xor(TwoSteps(c), TwoSteps(d))
  {
    hide BitStep, Xor;
    StepXor(c, d);
    StepXor(BitStep(c), BitStep(d));
  }

  lemma StepXor(c: bv32, d: bv32)
    ensures BitStep(Xor(c, d)) == Xor(BitStep(c), BitStep(d))
  {
    BitStepLinear(c, d);
  }

  lemma FourStepsLinear(c: bv32, d: bv32)
    ensures FourSteps(Xor(c, d)) == Xor(FourSteps(c), FourSteps(d))
  {
    hide TwoSteps, Xor;
    TwoStepsLinear(c, d);
    TwoStepsLinear(TwoSteps(c), TwoSteps(d));
  }

  lemma ByteStepLinear(c: bv32, d: bv32)
    ensures ByteStep(Xor(c, d)) == Xor(ByteStep(c), ByteStep(d))
  {
    hide FourSteps, Xor;
    FourStepsLinear(c, d);
    FourStepsLinear(FourSteps(c), FourSteps(d));
  }

  /** A register whose low byte is clear is only shifted. */
  lemma ByteStepShifts(c: bv32)
    requires c & 0xFF == 0
    ensures ByteStep(c) == c >> 8
  {
  }

  // ----- the source's loop, byte by byte -----

  /** The register after one more byte. */
  function Feed(c: bv32, b: bv8): bv32
  {
    ByteStep(Xor(c, b as bv32))
  }

  /** The register after all of data. */
  function Register(c: bv32, data: seq<bv8>): bv32
    decreases |data|
  {
    if data == [] then c else Register(Feed(c, data[0]), data[1..])
  }

  function Checksum(data: seq<bv8>): bv32
  {
    Xor(Register(0xFFFFFFFF, data), 0xFFFFFFFF)
  }

  /** A C char widened to 32 bits: bytes from 0x80 are negative. */
  function SignExtend(b: bv8): bv32
  {
    if b < 0x80 then b as bv32 else 0xFFFFFF00 | (b as bv32)
  }

  /** The index of the loop's table look-up. */
  function Index(crc: bv32, b: bv8): (i: bv32)
    ensures i <= 0xFF
  {
    (crc ^ SignExtend(b)) & 0xFF
  }

  /** The register shifted by a byte. */
  function ShiftByte(crc: bv32): bv32
  {
    (crc >> 8) & 0x00FFFFFF
  }

  function LowByte(x: bv32): (i: bv32)
    ensures i <= 0xFF
  {
    x & 0xFF
  }

  function HighBytes(x: bv32): bv32
  {
    x & 0xFFFFFF00
  }

  /** What the byte is added to: the register with the byte folded in. */
  function Folded(c: bv32, b: bv8): bv32
  {
    Xor(c, b as bv32)
  }

  lemma SignIsMaskedOff(c: bv32, b: bv8)
    ensures Index(c, b) == LowByte(Folded(c, b))
    ensures ShiftByte(c) == ShiftByte(Folded(c, b))
  {
  }

  lemma LowByteSplits(x: bv32)
    ensures x == Xor(HighBytes(x), LowByte(x))
  {
  }

  lemma HighBytesShift(x: bv32)
    ensures ByteStep(HighBytes(x)) == ShiftByte(x)
  {
    ByteStepShifts(HighBytes(x));
    hide ByteStep;
  }

  /** One turn of the source's loop is one byte of the register. */
  lemma {:induction false} LoopStep(c: bv32, b: bv8)
    ensures Xor(ShiftByte(c), Table(Index(c, b))) == Feed(c, b)
  {
    hide *;
    var x := Folded(c, b);
    SignIsMaskedOff(c, b);
    LowByteSplits(x);
    HighBytesShift(x);
    ByteStepLinear(HighBytes(x), LowByte(x));
    TableIsByteStep(LowByte(x));
    FeedIsFolded(c, b);
  }

  lemma FeedIsFolded(c: bv32, b: bv8)
    ensures Feed(c, b) == ByteStep(Folded(c, b)) && Folded(c, b) == Xor(c, b as bv32)
  {
  }

  /** The checksum of the digits 1 to 9 is the check value that CRC-32 is published with. */
  lemma CheckValue()
    ensures Checksum([0x31, 0x32, 0x33, 0x34, 0x35, 0x36, 0x37, 0x38, 0x39]) == 0xCBF4_3926
  {
    var data: seq<bv8> := [0x31, 0x32, 0x33, 0x34, 0x35, 0x36, 0x37, 0x38, 0x39];
    CheckSteps();
    hide Feed;
    assert Register(0xFFFF_FFFF, data[0..]) == Register(0x7C23_1048, data[0..][1..]) && data[0..][1..] == data[1..];
    assert Register(0x7C23_1048, data[1..]) == Register(0xB0AC_BB32, data[1..][1..]) && data[1..][1..] == data[2..];
    assert Register(0xB0AC_BB32, data[2..]) == Register(0x77B7_9C2D, data[2..][1..]) && data[2..][1..] == data[3..];
    assert Register(0x77B7_9C2D, data[3..]) == Register(0x641C_1F5C, data[3..][1..]) && data[3..][1..] == data[4..];
    assert Register(0x641C_1F5C, data[4..]) == Register(0x340A_C5E3, data[4..][1..]) && data[4..][1..] == data[5..];
    assert Register(0x340A_C5E3, data[5..]) == Register(0xF68D_2C9E, data[5..][1..]) && data[5..][1..] == data[6..];
    assert Register(0xF68D_2C9E, data[6..]) == Register(0xAFFC_9660, data[6..][1..]) && data[6..][1..] == data[7..];
    assert Register(0xAFFC_9660, data[7..]) == Register(0x651F_2550, data[7..][1..]) && data[7..][1..] == data[8..];
    assert Register(0x651F_2550, data[8..]) == Register(0x340B_C6D9, data[8..][1..]) && data[8..][1..] == data[9..];
    assert data[0..] == data && data[9..] == [];
  }

  lemma CheckSteps()
    ensures Feed(0xFFFF_FFFF, 0x31) == 0x7C23_1048
    ensures Feed(0x7C23_1048, 0x32) == 0xB0AC_BB32
    ensures Feed(0xB0AC_BB32, 0x33) == 0x77B7_9C2D
    ensures Feed(0x77B7_9C2D, 0x34) == 0x641C_1F5C
    ensures Feed(0x641C_1F5C, 0x35) == 0x340A_C5E3
    ensures Feed(0x340A_C5E3, 0x36) == 0xF68D_2C9E
    ensures Feed(0xF68D_2C9E, 0x37) == 0xAFFC_9660
    ensures Feed(0xAFFC_9660, 0x38) == 0x651F_2550
    ensures Feed(0x651F_2550, 0x39) == 0x340B_C6D9
  {
  }

  /** crc32 */
  method Crc32(data: seq<bv8>) returns (crc: bv32)
    ensures crc == Checksum(data)
  {
    hide Index, ShiftByte, Table, Feed, Xor;
    crc := 0 ^ 0xFFFFFFFF;
    var p := 0;
    while p < |data|
      invariant 0 <= p <= |data|
      invariant Register(crc, data[p..]) == Register(0xFFFFFFFF, data)
    {
      LoopStep(crc, data[p]);
      assert data[p..][1..] == data[p + 1..];
      crc := Xor(ShiftByte(crc), Table(Index(crc, data[p])));
      p := p + 1;
    }
    crc := Xor(crc, 0xFFFFFFFF);
  }

  // ----- bit by bit -----

  function Bit(b: bool): bv32
  {
    if b then 1 else 0
  }

  /** The register after the given bits. */
  function BitRegister(c: bv32, bits: seq<bool>): bv32
    decreases |bits|
  {
    if bits == [] then c else BitRegister(BitStep(Xor(c, Bit(bits[0]))), bits[1..])
  }

  function Half(w: bv32): bv32
  {
    w >> 1
  }

  predicate Odd(w: bv32)
  {
    w & 1 == 1
  }

  /** The n lowest bits of w in the order they enter the register, lowest first. */
  function WordBits(w: bv32, n: nat): (r: seq<bool>)
    ensures |r| == n
  {
    if n == 0 then [] else [Odd(w)] + WordBits(Half(w), n - 1)
  }

  function DataBits(data: seq<bv8>): (r: seq<bool>)
    ensures |r| == 8 * |data|
  {
    if data == [] then [] else WordBits(data[0] as bv32, 8) + DataBits(data[1..])
  }

  function Steps(c: bv32, n: nat): bv32
    decreases n
  {
    if n == 0 then c else Steps(BitStep(c), n - 1)
  }

  function Shifted(w: bv32, n: nat): bv32
    decreases n
  {
    if n == 0 then w else Shifted(Half(w), n - 1)
  }

  lemma LowBitSplits(w: bv32)
    ensures w == Xor(w & 1, w & 0xFFFFFFFE)
    ensures BitStep(w & 0xFFFFFFFE) == Half(w)
  {
  }

  lemma XorAssociates(a: bv32, b: bv32, c: bv32)
    ensures Xor(Xor(a, b), c) == Xor(a, Xor(b, c))
  {
  }

  /** Feeding a word is feeding its lowest bit and keeping the rest for later. */
  lemma FeedLowBit(c: bv32, w: bv32)
    ensures BitStep(Xor(c, w)) == Xor(BitStep(Xor(c, w & 1)), Half(w))
  {
    hide *;
    LowBitSplits(w);
    XorAssociates(c, w & 1, w & 0xFFFFFFFE);
    StepXor(Xor(c, w & 1), w & 0xFFFFFFFE);
  }

  lemma BitRegisterConcat(c: bv32, u: seq<bool>, v: seq<bool>)
    ensures BitRegister(c, u + v) == BitRegister(BitRegister(c, u), v)
    decreases |u|
  {
    if u == [] {
      assert u + v == v;
    } else {
      assert (u + v)[1..] == u[1..] + v;
      BitRegisterConcat(BitStep(Xor(c, Bit(u[0]))), u[1..], v);
    }
  }

  lemma LowBitIsBit(w: bv32)
    ensures w & 1 == Bit(Odd(w))
  {
  }

  /** Feeding n bits of a word one at a time is feeding the word and stepping n times. */
  lemma StepsFeedBits(c: bv32, w: bv32, n: nat)
    ensures Steps(Xor(c, w), n) == Xor(BitRegister(c, WordBits(w, n)), Shifted(w, n))
    decreases n
  {
    hide BitStep, Xor, Half, Odd;
    if n > 0 {
      LowBitIsBit(w);
      FeedLowBit(c, w);
      var next := BitStep(Xor(c, w & 1));
      StepsFeedBits(next, Half(w), n - 1);
      assert WordBits(w, n)[1..] == WordBits(Half(w), n - 1);
    }
  }

  lemma EightSteps(c: bv32)
    ensures Steps(c, 8) == ByteStep(c)
  {
    hide BitStep;
    assert Steps(c, 8) == Steps(TwoSteps(c), 6) == Steps(FourSteps(c), 4);
    assert Steps(FourSteps(c), 4) == Steps(TwoSteps(FourSteps(c)), 2);
  }

  lemma EightShifts(b: bv8, c: bv32)
    ensures Shifted(b as bv32, 8) == 0 && Xor(c, 0) == c
  {
  }

  lemma FeedIsEightBits(c: bv32, b: bv8)
    ensures Feed(c, b) == BitRegister(c, WordBits(b as bv32, 8))
  {
    hide *;
    FeedIsFolded(c, b);
    EightSteps(Xor(c, b as bv32));
    StepsFeedBits(c, b as bv32, 8);
    EightShifts(b, BitRegister(c, WordBits(b as bv32, 8)));
  }

  /** The byte-wise register is the bit-wise register of the message's bits. */
  lemma RegisterIsBitRegister(c: bv32, data: seq<bv8>)
    ensures Register(c, data) == BitRegister(c, DataBits(data))
    decreases |data|
  {
    hide Feed, WordBits;
    if data != [] {
      FeedIsEightBits(c, data[0]);
      BitRegisterConcat(c, WordBits(data[0] as bv32, 8), DataBits(data[1..]));
      RegisterIsBitRegister(Feed(c, data[0]), data[1..]);
    }
  }

  // ----- long division -----

  /** The remainder of a polynomial, written highest power first, modulo x^32 + ... + 1. */
  function Remainder(b: seq<bool>): (r: seq<bool>)
    requires |b| >= 32
    ensures |r| == 32
    decreases |b|
  {
    if |b| == 32 then b
    else if b[0] then Remainder(XorFront(b[1..], PolyBits()))
    else Remainder(b[1..])
  }

  /** The polynomial of the file header below x^32, highest power first. */
  function PolyBits(): (r: seq<bool>)
    ensures |r| == 32
  {
    seq(32, i => (31 - i) in EXPONENTS)
  }

  function Zeros(n: nat): (r: seq<bool>)
    ensures |r| == n
  {
    seq(n, i => false)
  }

  /** c added to the first coefficients of b. */
  function XorFront(b: seq<bool>, c: seq<bool>): (r: seq<bool>)
    ensures |r| == |b|
  {
    seq(|b|, i requires 0 <= i < |b| => if i < |c| then b[i] != c[i] else b[i])
  }

  /** One bit into a register kept as coefficients, highest power first. */
  function ShiftIn(c: seq<bool>, m: bool): (r: seq<bool>)
    requires |c| == 32
    ensures |r| == 32
  {
    XorFront(c[1..] + [false], if c[0] != m then PolyBits() else Zeros(32))
  }

  function Serial(c: seq<bool>, m: seq<bool>): (r: seq<bool>)
    requires |c| == 32
    ensures |r| == 32
    decreases |m|
  {
    if m == [] then c else Serial(ShiftIn(c, m[0]), m[1..])
  }

  lemma XorFrontShifts(c: seq<bool>, m: seq<bool>)
    requires |c| == 32 && m != []
    ensures var b := XorFront(m + Zeros(32), c);
            var rest := m[1..] + Zeros(32);
            && b[0] == (c[0] != m[0])
            && b[1..] == XorFront(rest, c[1..] + [false])
            && XorFront(b[1..], PolyBits()) == XorFront(rest, XorFront(c[1..] + [false], PolyBits()))
            && b[1..] == XorFront(rest, XorFront(c[1..] + [false], Zeros(32)))
  {
    hide PolyBits;
    var b := XorFront(m + Zeros(32), c);
    var rest := m[1..] + Zeros(32);
    assert m + Zeros(32) == [m[0]] + rest;
    forall i | 0 <= i < |rest|
      ensures b[1..][i] == XorFront(rest, c[1..] + [false])[i]
    {
    }
  }

  /** The serial register is long division of the message followed by 32 zeros. */
  lemma SerialIsRemainder(c: seq<bool>, m: seq<bool>)
    requires |c| == 32
    ensures Serial(c, m) == Remainder(XorFront(m + Zeros(32), c))
    decreases |m|
  {
    hide XorFront, PolyBits, Zeros;
    if m == [] {
      XorFrontZeros(c);
    } else {
      XorFrontShifts(c, m);
      SerialIsRemainder(ShiftIn(c, m[0]), m[1..]);
    }
  }

  lemma XorFrontZeros(c: seq<bool>)
    requires |c| == 32
    ensures XorFront([] + Zeros(32), c) == c
  {
  }

  lemma ShiftDistributes(a: bv32, b: bv32)
    ensures Half(a ^ b) == (a >> 1) ^ (b >> 1)
  {
  }

  lemma HalfOfXor(a: bv32, b: bv32)
    ensures Half(Xor(a, b)) == (a >> 1) ^ (b >> 1)
  {
    ShiftDistributes(a, b);
  }

  lemma XorHalf(a: bv32, b: bv32)
    ensures Half(Xor(a, b)) == Xor(Half(a), Half(b))
  {
    HalfOfXor(a, b);
  }

  lemma XorLowBit(a: bv32, b: bv32)
    ensures Xor(a, b) & 1 == (a & 1) ^ (b & 1)
  {
  }

  lemma XorOdd(a: bv32, b: bv32)
    ensures Odd(Xor(a, b)) == (Odd(a) != Odd(b))
  {
    hide Xor;
    XorLowBit(a, b);
    OddOrEven(a);
    OddOrEven(b);
  }

  lemma {:induction false} WordBitsXor(a: bv32, b: bv32, n: nat)
    ensures WordBits(Xor(a, b), n) == XorFront(WordBits(a, n), WordBits(b, n))
    decreases n
  {
    hide Xor, Odd, Half;
    if n == 0 {
    } else {
      XorHalf(a, b);
      XorOdd(a, b);
      WordBitsXor(Half(a), Half(b), n - 1);
      WordBitsFirst(a, n);
      WordBitsFirst(b, n);
      WordBitsFirst(Xor(a, b), n);
      hide WordBits;
      XorFirst(Odd(a), WordBits(Half(a), n - 1), Odd(b), WordBits(Half(b), n - 1));
    }
  }

  lemma WordBitsFirst(w: bv32, n: nat)
    requires n > 0
    ensures WordBits(w, n) == [Odd(w)] + WordBits(Half(w), n - 1)
  {
    hide Odd, Half;
  }

  lemma XorFirst(x: bool, a: seq<bool>, y: bool, b: seq<bool>)
    ensures XorFront([x] + a, [y] + b) == [x != y] + XorFront(a, b)
  {
  }

  lemma WordBitsSnoc(w: bv32, n: nat)
    ensures WordBits(w, n + 1) == WordBits(w, n) + [Odd(Shifted(w, n))]
    decreases n
  {
    hide Odd, Half;
    if n > 0 {
      WordBitsSnoc(Half(w), n - 1);
    }
  }

  lemma ShiftedTwice(w: bv32, m: nat, n: nat)
    ensures Shifted(w, m + n) == Shifted(Shifted(w, m), n)
    decreases m
  {
    hide Half;
    if m > 0 {
      ShiftedTwice(Half(w), m - 1, n);
    }
  }

  lemma ShiftedByEight(w: bv32)
    ensures Shifted(w, 8) == w >> 8
  {
  }

  lemma ShiftedOut(w: bv32)
    ensures Shifted(w, 32) == 0
  {
    ShiftedTwice(w, 8, 24);
    ShiftedTwice(w >> 8, 8, 16);
    ShiftedTwice(w >> 8 >> 8, 8, 8);
    ShiftedByEight(w);
    ShiftedByEight(w >> 8);
    ShiftedByEight(w >> 8 >> 8);
    ShiftedByEight(w >> 8 >> 8 >> 8);
  }

  lemma WordBitsByTwo(w: bv32, n: nat)
    ensures WordBits(w, n + 2) == [Odd(w), Odd(Half(w))] + WordBits(Half(Half(w)), n)
  {
    hide Odd, Half;
    assert WordBits(w, n + 2) == [Odd(w)] + WordBits(Half(w), n + 1);
  }

  lemma WordBitsByNibble(w: bv32, n: nat)
    ensures WordBits(w, n + 4) == [w & 1 == 1, w & 2 == 2, w & 4 == 4, w & 8 == 8] + WordBits(w >> 4, n)
  {
    hide WordBits, Half, Odd;
    WordBitsByTwo(w, n + 2);
    WordBitsByTwo(Half(Half(w)), n);
    LowestBit(w);
    NibbleShifts(w);
    FourFront(Odd(w), Odd(Half(w)), Odd(Half(Half(w))), Odd(Half(Half(Half(w)))), WordBits(w >> 4, n));
  }

  lemma FourFront(a: bool, b: bool, c: bool, d: bool, rest: seq<bool>)
    ensures [a, b] + ([c, d] + rest) == [a, b, c, d] + rest
  {
  }

  lemma LowestBit(w: bv32)
    ensures Odd(w) == (w & 1 == 1)
  {
  }

  lemma NibbleShifts(w: bv32)
    ensures Half(Half(Half(Half(w)))) == w >> 4
    ensures Odd(Half(w)) == (w & 2 == 2)
    ensures Odd(Half(Half(w))) == (w & 4 == 4)
    ensures Odd(Half(Half(Half(w)))) == (w & 8 == 8)
  {
  }

  /** Half of the polynomial's coefficients, from x^hi down to x^(hi - 15). */
  ghost function HalfPoly(hi: int): seq<bool>
  {
    seq(16, i => (hi - i) in EXPONENTS)
  }

  lemma HighHalfBits()
    ensures WordBits(0xEDB88320, 32) == HalfPoly(31) + WordBits(0xEDB8, 16)
  {
    hide WordBits;
    WordBitsByNibble(0xEDB88320, 28);
    WordBitsByNibble(0xEDB8832, 24);
    WordBitsByNibble(0xEDB883, 20);
    WordBitsByNibble(0xEDB88, 16);
  }

  lemma LowHalfBits()
    ensures WordBits(0xEDB8, 16) == HalfPoly(15)
  {
    hide WordBits;
    WordBitsByNibble(0xEDB8, 12);
    WordBitsByNibble(0xEDB, 8);
    WordBitsByNibble(0xED, 4);
    WordBitsByNibble(0xE, 0);
  }

  /** The constant 0xEDB88320 is the polynomial of the file header. */
  lemma PolyWordBits()
    ensures WordBits(POLY, 32) == PolyBits()
  {
    hide WordBits;
    HighHalfBits();
    LowHalfBits();
  }

  lemma OnesWordBits()
    ensures WordBits(0xFFFFFFFF, 32) == Ones()
  {
    hide WordBits;
    WordBitsByNibble(0xFFFFFFFF, 28);
    WordBitsByNibble(0xFFFFFFF, 24);
    WordBitsByNibble(0xFFFFFF, 20);
    WordBitsByNibble(0xFFFFF, 16);
    WordBitsByNibble(0xFFFF, 12);
    WordBitsByNibble(0xFFF, 8);
    WordBitsByNibble(0xFF, 4);
    WordBitsByNibble(0xF, 0);
  }

  lemma ZeroWordBits(n: nat)
    ensures WordBits(0, n) == Zeros(n)
  {
  }

  function Ones(): (r: seq<bool>)
    ensures |r| == 32
  {
    seq(32, i => true)
  }

  lemma BitStepIsXor(c: bv32, m: bool)
    ensures BitStep(Xor(c, Bit(m))) == Xor(Half(c), if Odd(c) != m then POLY else 0)
  {
    hide Xor, BitStep, Bit, Odd, Half;
    XorOdd(c, Bit(m));
    HalfDropsLowBit(c, m);
    StepByParity(Xor(c, Bit(m)));
  }

  lemma HalfDropsLowBit(c: bv32, m: bool)
    ensures Half(Xor(c, Bit(m))) == Half(c) && Odd(Bit(m)) == m
  {
  }

  lemma StepByParity(z: bv32)
    ensures BitStep(z) == Xor(Half(z), if Odd(z) then POLY else 0)
  {
    hide BitStep, Xor, Half, Odd;
    XorUnits(Half(z));
    if Odd(z) {
      OddStep(z);
    } else {
      EvenStep(z);
    }
  }

  lemma OddStep(z: bv32)
    ensures Odd(z) ==> BitStep(z) == Xor(Half(z), POLY)
  {
  }

  lemma EvenStep(z: bv32)
    ensures !Odd(z) ==> BitStep(z) == Half(z)
  {
  }

  /** The 32-bit register is the polynomial register written lowest bit first. */
  lemma BitStepIsShiftIn(c: bv32, m: bool)
    ensures WordBits(BitStep(Xor(c, Bit(m))), 32) == ShiftIn(WordBits(c, 32), m)
  {
    hide BitStep, Xor, XorFront, PolyBits, Zeros, Shifted, Half, Odd;
    BitStepIsXor(c, m);
    WordBitsXor(Half(c), if Odd(c) != m then POLY else 0, 32);
    if Odd(c) != m {
      PolyWordBits();
    } else {
      ZeroWordBits(32);
    }
    WordBitsShift(c);
  }

  lemma WordBitsShift(c: bv32)
    ensures WordBits(Half(c), 32) == WordBits(c, 32)[1..] + [false]
    ensures WordBits(c, 32)[0] == Odd(c)
  {
    hide Half;
    ShiftedOut(c);
    assert Shifted(c, 32) == Shifted(Half(c), 31);
    WordBitsSnoc(Half(c), 31);
    assert WordBits(c, 32)[1..] == WordBits(Half(c), 31);
  }

  lemma BitRegisterIsSerial(c: bv32, bits: seq<bool>)
    ensures WordBits(BitRegister(c, bits), 32) == Serial(WordBits(c, 32), bits)
    decreases |bits|
  {
    hide BitStep, Xor, WordBits, ShiftIn;
    if bits != [] {
      BitStepIsShiftIn(c, bits[0]);
      BitRegisterIsSerial(BitStep(Xor(c, Bit(bits[0]))), bits[1..]);
    }
  }

  /**
   The checksum is the CRC of the file header's polynomial: complement the message's first 32
   bits, append 32 zeros, divide, and complement the remainder.
   */
  lemma {:induction false} ChecksumIsLongDivision(data: seq<bv8>)
    ensures WordBits(Checksum(data), 32)
         == XorFront(Remainder(XorFront(DataBits(data) + Zeros(32), Ones())), Ones())
  {
    hide Xor, WordBits, XorFront, Zeros, Register, DataBits, Remainder, Serial;
    var c := Register(0xFFFFFFFF, data);
    WordBitsXor(c, 0xFFFFFFFF, 32);
    OnesWordBits();
    RegisterIsBitRegister(0xFFFFFFFF, data);
    BitRegisterIsSerial(0xFFFFFFFF, DataBits(data));
    SerialIsRemainder(Ones(), DataBits(data));
  }

  // ----- burst errors -----

  lemma BitStepInjective(c: bv32, d: bv32)
    requires BitStep(c) == BitStep(d)
    ensures c == d
  {
  }

  lemma XorIsZero(a: bv32, b: bv32)
    ensures Xor(a, b) == 0 <==> a == b
  {
  }

  lemma XorCancels(a: bv32, b: bv32, c: bv32)
    ensures Xor(a, c) == Xor(b, c) ==> a == b
  {
    hide Xor;
    XorAssociates(a, c, c);
    XorAssociates(b, c, c);
    XorUnits(a);
    XorUnits(b);
    XorUnits(c);
  }

  lemma BitRegisterInjective(c: bv32, d: bv32, bits: seq<bool>)
    requires BitRegister(c, bits) == BitRegister(d, bits)
    ensures c == d
    decreases |bits|
  {
    hide BitStep, Xor;
    if bits != [] {
      var m := Bit(bits[0]);
      BitRegisterInjective(BitStep(Xor(c, m)), BitStep(Xor(d, m)), bits[1..]);
      BitStepInjective(Xor(c, m), Xor(d, m));
      XorCancels(c, d, m);
    }
  }

  function Double(w: bv32): bv32
  {
    w << 1
  }

  ghost predicate Fits(d: bv32, mask: bv32)
  {
    d & !mask == 0
  }

  ghost predicate TopBitClear(d: bv32)
  {
    d & 0x80000000 == 0
  }

  /** The difference of two bit strings as a number, first bit lowest. */
  function Difference(u: seq<bool>, v: seq<bool>): bv32
    requires |u| == |v|
  {
    if u == [] then 0 else Xor(Double(Difference(u[1..], v[1..])), Bit(u[0] != v[0]))
  }

  /** The n lowest bits. */
  function Low(n: nat): bv32
  {
    if n == 0 then 0 else Double(Low(n - 1)) | 1
  }

  lemma {:induction false} DifferenceFits(u: seq<bool>, v: seq<bool>)
    requires |u| == |v|
    ensures Fits(Difference(u, v), Low(|u|))
  {
    if u == [] {
    } else {
      hide Xor, Double, Fits;
      DifferenceFits(u[1..], v[1..]);
      ShiftFits(Difference(u[1..], v[1..]), Low(|u| - 1), u[0] != v[0]);
    }
  }

  lemma ShiftFits(d: bv32, mask: bv32, b: bool)
    requires Fits(d, mask)
    ensures Fits(Xor(Double(d), Bit(b)), Double(mask) | 1)
  {
    ShiftStaysInMask(d, mask, Bit(b));
  }

  lemma ShiftStaysInMask(d: bv32, mask: bv32, x: bv32)
    requires d & !mask == 0 && (x == 0 || x == 1)
    ensures ((d << 1) ^ x) & !((mask << 1) | 1) == 0
  {
  }

  lemma {:induction false} LowGrows(m: nat, n: nat)
    requires m <= n
    ensures Fits(Low(m), Low(n))
    decreases n
  {
    if m == 0 {
    } else {
      hide Double, Fits;
      LowGrows(m - 1, n - 1);
      ShiftKeepsMask(Low(m - 1), Low(n - 1));
    }
  }

  lemma ShiftKeepsMask(d: bv32, mask: bv32)
    requires Fits(d, mask)
    ensures Fits(Double(d) | 1, Double(mask) | 1)
  {
  }

  lemma FitsBelowTop(d: bv32, low: bv32)
    requires Fits(d, low) && Fits(low, 0x7FFFFFFF)
    ensures TopBitClear(d)
  {
  }

  lemma LowOf31()
    ensures Low(31) == 0x7FFFFFFF
  {
    assert Low(3) == 7;
    assert Low(7) == 0x7F;
    assert Low(11) == 0x7FF;
    assert Low(15) == 0x7FFF;
    assert Low(19) == 0x7FFFF;
    assert Low(23) == 0x7FFFFF;
    assert Low(27) == 0x7FFFFFF;
  }

  lemma ShortDifferenceHasNoTopBit(u: seq<bool>, v: seq<bool>)
    requires |u| == |v| < 32
    ensures TopBitClear(Difference(u, v))
  {
    hide Low, Difference;
    DifferenceFits(u, v);
    LowGrows(|u|, 31);
    LowOf31();
    FitsBelowTop(Difference(u, v), Low(|u|));
  }

  /** A step whose result has no top bit came from that result shifted back. */
  lemma BitStepBack(z: bv32)
    requires TopBitClear(BitStep(z))
    ensures z == Double(BitStep(z))
  {
  }

  lemma XorUnits(a: bv32)
    ensures Xor(a, a) == 0 && Xor(a, 0) == a
  {
  }

  lemma XorSwapsInner(a: bv32, b: bv32, c: bv32, d: bv32)
    ensures Xor(Xor(a, b), Xor(c, d)) == Xor(Xor(a, c), Xor(b, d))
  {
    hide Xor;
    XorAssociates(a, b, Xor(c, d));
    XorAssociates(b, c, d);
    XorCommutes(b, c);
    XorAssociates(c, b, d);
    XorAssociates(a, c, Xor(b, d));
  }

  lemma XorCommutes(a: bv32, b: bv32)
    ensures Xor(a, b) == Xor(b, a)
  {
  }

  lemma XorRegroups(c: bv32, d: bv32, x: bv32, y: bv32)
    ensures Xor(c, d) == Xor(Xor(Xor(c, x), Xor(d, y)), Xor(x, y))
  {
    hide Xor;
    XorSwapsInner(c, x, d, y);
    XorAssociates(Xor(c, d), Xor(x, y), Xor(x, y));
    XorUnits(Xor(x, y));
    XorUnits(Xor(c, d));
  }

  lemma XorOfBits(p: bool, q: bool)
    ensures Xor(Bit(p), Bit(q)) == Bit(p != q)
  {
  }

  /** Undoing one step: if the next registers differ by w < 2^31, these differ by w shifted back. */
  lemma DifferenceStepsBack(c: bv32, d: bv32, p: bool, q: bool, w: bv32)
    requires Xor(BitStep(Xor(c, Bit(p))), BitStep(Xor(d, Bit(q)))) == w && TopBitClear(w)
    ensures Xor(c, d) == Xor(Double(w), Bit(p != q))
  {
    hide Xor, BitStep, Bit, Double, TopBitClear;
    var c', d' := Xor(c, Bit(p)), Xor(d, Bit(q));
    StepXor(c', d');
    BitStepBack(Xor(c', d'));
    XorRegroups(c, d, Bit(p), Bit(q));
    XorOfBits(p, q);
  }

  /** Two registers that end equal after at most 32 bits began apart by exactly those bits' difference. */
  lemma {:induction false} EqualEndsDifferAtStart(c: bv32, d: bv32, u: seq<bool>, v: seq<bool>)
    requires |u| == |v| <= 32
    requires BitRegister(c, u) == BitRegister(d, v)
    ensures Xor(c, d) == Difference(u, v)
    decreases |u|
  {
    hide BitStep, Xor, Bit, Double, TopBitClear;
    if u == [] {
      XorIsZero(c, d);
    } else {
      EqualEndsDifferAtStart(BitStep(Xor(c, Bit(u[0]))), BitStep(Xor(d, Bit(v[0]))), u[1..], v[1..]);
      ShortDifferenceHasNoTopBit(u[1..], v[1..]);
      DifferenceStepsBack(c, d, u[0], v[0], Difference(u[1..], v[1..]));
    }
  }

  lemma NoDifferenceIsEqual(u: seq<bool>, v: seq<bool>)
    requires |u| == |v| <= 32 && Difference(u, v) == 0
    ensures u == v
  {
    hide Xor, Bit, Double, TopBitClear;
    if u != [] {
      ShortDifferenceHasNoTopBit(u[1..], v[1..]);
      ShiftIsZero(Difference(u[1..], v[1..]), u[0] != v[0]);
      NoDifferenceIsEqual(u[1..], v[1..]);
      assert u == [u[0]] + u[1..] && v == [v[0]] + v[1..];
    }
  }

  lemma ShiftIsZero(d: bv32, b: bool)
    requires TopBitClear(d) && Xor(Double(d), Bit(b)) == 0
    ensures d == 0 && !b
  {
  }

  /** Bit strings that differ only inside one window of at most 32 bits end in different registers. */
  lemma {:induction false} BurstChangesRegister(c: bv32, pre: seq<bool>, u: seq<bool>, v: seq<bool>, post: seq<bool>)
    requires |u| == |v| <= 32 && u != v
    ensures BitRegister(c, pre + u + post) != BitRegister(c, pre + v + post)
  {
    hide BitRegister, Difference, Xor;
    var s := BitRegister(c, pre);
    BitRegisterConcat(c, pre + u, post);
    BitRegisterConcat(c, pre + v, post);
    BitRegisterConcat(c, pre, u);
    BitRegisterConcat(c, pre, v);
    if BitRegister(s, u) == BitRegister(s, v) {
      EqualEndsDifferAtStart(s, s, u, v);
      XorIsZero(s, s);
      NoDifferenceIsEqual(u, v);
    } else if BitRegister(c, pre + u + post) == BitRegister(c, pre + v + post) {
      BitRegisterInjective(BitRegister(s, u), BitRegister(s, v), post);
    }
  }

  /** The two bit strings agree outside one window of n bits. */
  ghost predicate AgreeOutside(a: seq<bool>, b: seq<bool>, at: nat, n: nat)
  {
    && |a| == |b| && at + n <= |a|
    && a[..at] == b[..at] && a[at + n..] == b[at + n..]
  }

  lemma DataBitsConcat(a: seq<bv8>, b: seq<bv8>)
    ensures DataBits(a + b) == DataBits(a) + DataBits(b)
  {
    hide WordBits;
    if a == [] {
      assert a + b == b;
    } else {
      assert (a + b)[1..] == a[1..] + b;
      DataBitsConcat(a[1..], b);
    }
  }

  lemma ByteFromBits(a: bv8, b: bv8)
    requires WordBits(a as bv32, 8) == WordBits(b as bv32, 8)
    ensures a == b
  {
    hide WordBits;
    var x, y := a as bv32, b as bv32;
    WordBitsByNibble(x, 4);
    WordBitsByNibble(y, 4);
    WordBitsByNibble(x >> 4, 0);
    WordBitsByNibble(y >> 4, 0);
    var p, q := WordBits(x, 8), WordBits(y, 8);
    assert p[0] == q[0] && p[1] == q[1] && p[2] == q[2] && p[3] == q[3];
    assert p[4] == q[4] && p[5] == q[5] && p[6] == q[6] && p[7] == q[7];
    SameMasksSameWord(x, y);
    SameWordSameByte(a, b);
  }

  lemma SameMasksSameWord(x: bv32, y: bv32)
    requires x <= 0xFF && y <= 0xFF
    requires (x & 1 == 1) == (y & 1 == 1) && (x & 2 == 2) == (y & 2 == 2)
    requires (x & 4 == 4) == (y & 4 == 4) && (x & 8 == 8) == (y & 8 == 8)
    requires ((x >> 4) & 1 == 1) == ((y >> 4) & 1 == 1) && ((x >> 4) & 2 == 2) == ((y >> 4) & 2 == 2)
    requires ((x >> 4) & 4 == 4) == ((y >> 4) & 4 == 4) && ((x >> 4) & 8 == 8) == ((y >> 4) & 8 == 8)
    ensures x == y
  {
  }

  lemma SameWordSameByte(a: bv8, b: bv8)
    requires a as bv32 == b as bv32
    ensures a == b
  {
  }

  lemma DataBitsInjective(a: seq<bv8>, b: seq<bv8>)
    requires DataBits(a) == DataBits(b)
    ensures a == b
  {
    hide WordBits;
    if a != [] {
      assert WordBits(a[0] as bv32, 8) == DataBits(a)[..8] == DataBits(b)[..8] == WordBits(b[0] as bv32, 8);
      assert DataBits(a[1..]) == DataBits(a)[8..] == DataBits(b)[8..] == DataBits(b[1..]);
      ByteFromBits(a[0], b[0]);
      DataBitsInjective(a[1..], b[1..]);
      assert a == [a[0]] + a[1..] && b == [b[0]] + b[1..];
    }
  }

  /** Every error burst of at most 32 bits changes the checksum. */
  lemma {:induction false} BurstIsDetected(a: seq<bv8>, b: seq<bv8>, at: nat, n: nat)
    requires |a| == |b| && a != b
    requires n <= 32 && AgreeOutside(DataBits(a), DataBits(b), at, n)
    ensures Checksum(a) != Checksum(b)
  {
    hide BitRegister, Register, DataBits, Xor;
    var p, q := DataBits(a), DataBits(b);
    var u, v := p[at..at + n], q[at..at + n];
    assert p == p[..at] + u + p[at + n..];
    assert q == p[..at] + v + p[at + n..];
    if u == v {
      DataBitsInjective(a, b);
    } else {
      RegisterIsBitRegister(0xFFFFFFFF, a);
      RegisterIsBitRegister(0xFFFFFFFF, b);
      BurstChangesRegister(0xFFFFFFFF, p[..at], u, v, p[at + n..]);
      XorCancels(Register(0xFFFFFFFF, a), Register(0xFFFFFFFF, b), 0xFFFFFFFF);
    }
  }

  /** In bytes: equal lengths, differing only inside at most four consecutive bytes. */
  lemma {:induction false} FourByteBurstIsDetected(pre: seq<bv8>, u: seq<bv8>, v: seq<bv8>, post: seq<bv8>)
    requires |u| == |v| <= 4 && u != v
    ensures Checksum(pre + u + post) != Checksum(pre + v + post)
  {
    hide Checksum, DataBits;
    var a, b := pre + u + post, pre + v + post;
    DataBitsConcat(pre + u, post);
    DataBitsConcat(pre + v, post);
    DataBitsConcat(pre, u);
    DataBitsConcat(pre, v);
    assert a[|pre|..|pre| + |u|] == u && b[|pre|..|pre| + |u|] == v;
    BurstIsDetected(a, b, 8 * |pre|, 8 * |u|);
  }
}
