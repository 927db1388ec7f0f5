/** CRC-16 over x^16 + x^12 + x^5 + 1: the table against division of polynomials over GF(2). */
module Crc16 {
  import opened Words
  import opened Bitwise

  type Row = r: seq<u16> | |r| == 8 witness [0, 0, 0, 0, 0, 0, 0, 0]

  const ROW_00: Row := [0x0000, 0x1021, 0x2042, 0x3063, 0x4084, 0x50a5, 0x60c6, 0x70e7]
  const ROW_01: Row := [0x8108, 0x9129, 0xa14a, 0xb16b, 0xc18c, 0xd1ad, 0xe1ce, 0xf1ef]
  const ROW_02: Row := [0x1231, 0x0210, 0x3273, 0x2252, 0x52b5, 0x4294, 0x72f7, 0x62d6]
  const ROW_03: Row := [0x9339, 0x8318, 0xb37b, 0xa35a, 0xd3bd, 0xc39c, 0xf3ff, 0xe3de]
  const ROW_04: Row := [0x2462, 0x3443, 0x0420, 0x1401, 0x64e6, 0x74c7, 0x44a4, 0x5485]
  const ROW_05: Row := [0xa56a, 0xb54b, 0x8528, 0x9509, 0xe5ee, 0xf5cf, 0xc5ac, 0xd58d]
  const ROW_06: Row := [0x3653, 0x2672, 0x1611, 0x0630, 0x76d7, 0x66f6, 0x5695, 0x46b4]
  const ROW_07: Row := [0xb75b, 0xa77a, 0x9719, 0x8738, 0xf7df, 0xe7fe, 0xd79d, 0xc7bc]
  const ROW_08: Row := [0x48c4, 0x58e5, 0x6886, 0x78a7, 0x0840, 0x1861, 0x2802, 0x3823]
  const ROW_09: Row := [0xc9cc, 0xd9ed, 0xe98e, 0xf9af, 0x8948, 0x9969, 0xa90a, 0xb92b]
  const ROW_0A: Row := [0x5af5, 0x4ad4, 0x7ab7, 0x6a96, 0x1a71, 0x0a50, 0x3a33, 0x2a12]
  const ROW_0B: Row := [0xdbfd, 0xcbdc, 0xfbbf, 0xeb9e, 0x9b79, 0x8b58, 0xbb3b, 0xab1a]
  const ROW_0C: Row := [0x6ca6, 0x7c87, 0x4ce4, 0x5cc5, 0x2c22, 0x3c03, 0x0c60, 0x1c41]
  const ROW_0D: Row := [0xedae, 0xfd8f, 0xcdec, 0xddcd, 0xad2a, 0xbd0b, 0x8d68, 0x9d49]
  const ROW_0E: Row := [0x7e97, 0x6eb6, 0x5ed5, 0x4ef4, 0x3e13, 0x2e32, 0x1e51, 0x0e70]
  const ROW_0F: Row := [0xff9f, 0xefbe, 0xdfdd, 0xcffc, 0xbf1b, 0xaf3a, 0x9f59, 0x8f78]
  const ROW_10: Row := [0x9188, 0x81a9, 0xb1ca, 0xa1eb, 0xd10c, 0xc12d, 0xf14e, 0xe16f]
  const ROW_11: Row := [0x1080, 0x00a1, 0x30c2, 0x20e3, 0x5004, 0x4025, 0x7046, 0x6067]
  const ROW_12: Row := [0x83b9, 0x9398, 0xa3fb, 0xb3da, 0xc33d, 0xd31c, 0xe37f, 0xf35e]
  const ROW_13: Row := [0x02b1, 0x1290, 0x22f3, 0x32d2, 0x4235, 0x5214, 0x6277, 0x7256]
  const ROW_14: Row := [0xb5ea, 0xa5cb, 0x95a8, 0x8589, 0xf56e, 0xe54f, 0xd52c, 0xc50d]
  const ROW_15: Row := [0x34e2, 0x24c3, 0x14a0, 0x0481, 0x7466, 0x6447, 0x5424, 0x4405]
  const ROW_16: Row := [0xa7db, 0xb7fa, 0x8799, 0x97b8, 0xe75f, 0xf77e, 0xc71d, 0xd73c]
  const ROW_17: Row := [0x26d3, 0x36f2, 0x0691, 0x16b0, 0x6657, 0x7676, 0x4615, 0x5634]
  const ROW_18: Row := [0xd94c, 0xc96d, 0xf90e, 0xe92f, 0x99c8, 0x89e9, 0xb98a, 0xa9ab]
  const ROW_19: Row := [0x5844, 0x4865, 0x7806, 0x6827, 0x18c0, 0x08e1, 0x3882, 0x28a3]
  const ROW_1A: Row := [0xcb7d, 0xdb5c, 0xeb3f, 0xfb1e, 0x8bf9, 0x9bd8, 0xabbb, 0xbb9a]
  const ROW_1B: Row := [0x4a75, 0x5a54, 0x6a37, 0x7a16, 0x0af1, 0x1ad0, 0x2ab3, 0x3a92]
  const ROW_1C: Row := [0xfd2e, 0xed0f, 0xdd6c, 0xcd4d, 0xbdaa, 0xad8b, 0x9de8, 0x8dc9]
  const ROW_1D: Row := [0x7c26, 0x6c07, 0x5c64, 0x4c45, 0x3ca2, 0x2c83, 0x1ce0, 0x0cc1]
  const ROW_1E: Row := [0xef1f, 0xff3e, 0xcf5d, 0xdf7c, 0xaf9b, 0xbfba, 0x8fd9, 0x9ff8]
  const ROW_1F: Row := [0x6e17, 0x7e36, 0x4e55, 0x5e74, 0x2e93, 0x3eb2, 0x0ed1, 0x1ef0]

  /** The 256-entry table, cut into 32 rows of eight. */
  const TABLE: seq<Row> := [
    ROW_00, ROW_01, ROW_02, ROW_03, ROW_04, ROW_05, ROW_06, ROW_07,
    ROW_08, ROW_09, ROW_0A, ROW_0B, ROW_0C, ROW_0D, ROW_0E, ROW_0F,
    ROW_10, ROW_11, ROW_12, ROW_13, ROW_14, ROW_15, ROW_16, ROW_17,
    ROW_18, ROW_19, ROW_1A, ROW_1B, ROW_1C, ROW_1D, ROW_1E, ROW_1F]

  function RowOf(k: nat): Row
    requires k < 32
  {
    TABLE[k]
  }

  /** Entry `i` of the table. */
  function Table(i: byte): u16 {
    RowOf(i / 8)[i % 8]
  }

  lemma Powers()
    ensures Shl(1, 8) == 0x100 && Shl(1, 15) == 0x8000 && Shl(1, 16) == 0x1_0000
  {
    assert Shl(1, 4) == 16;
    assert Shl(1, 12) == 4096;
  }

  /** Division steps per byte. */
  const BYTE: nat := 8

  function Xor16(a: u16, b: u16): u16 {
    Powers();
    XorParts(0, a, 0, b, 16);
    Xor(a, b)
  }

  function Xor8(a: byte, b: byte): byte {
    Powers();
    XorParts(0, a, 0, b, 8);
    Xor(a, b)
  }

  function Update(crc: u16, data: byte): u16 {
    Xor16(Wrap16(crc * 0x100), Table(Xor8(crc / 0x100, data)))
  }

  /** `Update` folded over a byte string. */
  function Fold(crc: u16, data: seq<byte>): u16
    decreases |data|
  {
    if data == [] then crc else Fold(Update(crc, data[0]), data[1..])
  }

  function Crc(data: seq<byte>): u16 {
    Fold(0, data)
  }

  method Of(data: seq<byte>) returns (crc: u16)
    ensures crc == Crc(data)
  {
    crc := 0;
    for i := 0 to |data|
      invariant Fold(crc, data[i..]) == Crc(data)
    {
      crc := Update(crc, data[i]);
      assert data[i..][1..] == data[i + 1..];
    }
  }

  // ---- Long division, one bit at a time ----

  const POLY: u16 := 0x1021

  /** Brings down one more bit of the dividend, and subtracts the divisor when it fits. */
  function DivideBit(reg: u16, bit: bool): u16 {
    if (reg >= 0x8000) != bit then Xor16(Wrap16(2 * reg), POLY) else Wrap16(2 * reg)
  }

  function Divide(reg: u16, bits: seq<bool>): u16
    decreases |bits|
  {
    if bits == [] then reg else Divide(DivideBit(reg, bits[0]), bits[1..])
  }

  /** The register after `n` zeros have been brought down. */
  function Zeros(reg: u16, n: nat): u16
    decreases n
  {
    if n == 0 then reg else Zeros(DivideBit(reg, false), n - 1)
  }

  /** The low `n` bits of a number, most significant first. */
  function BitsOf(v: nat, n: nat): seq<bool> {
    seq(n, i requires 0 <= i < n => BitAt(v, n - 1 - i))
  }

  function BitsOfByte(b: byte): seq<bool> {
    BitsOf(b, 8)
  }

  function Bits(data: seq<byte>): seq<bool> {
    if data == [] then [] else BitsOfByte(data[0]) + Bits(data[1..])
  }

  /** All but the top bit of a register. */
  function Low(a: u16): u16 {
    if a >= 0x8000 then a - 0x8000 else a
  }

  lemma XorTop(a: u16, b: u16)
    ensures Xor(Low(a), Low(b)) < 0x8000
    ensures Xor(a, b) == Xor(Low(a), Low(b)) + (if (a >= 0x8000) != (b >= 0x8000) then 0x8000 else 0)
  {
    Powers();
    ShlZero(15);
    var at, bt := if a >= 0x8000 then 1 else 0, if b >= 0x8000 then 1 else 0;
    assert Xor(at, bt) == if at != bt then 1 else 0;
    hide Xor;
    assert a == Shl(at, 15) + Low(a) && b == Shl(bt, 15) + Low(b);
    XorParts(at, Low(a), bt, Low(b), 15);
  }

  lemma ShiftXor(a: u16, b: u16)
    ensures (Xor16(a, b) >= 0x8000) == ((a >= 0x8000) != (b >= 0x8000))
    ensures Wrap16(2 * Xor16(a, b)) == Xor16(Wrap16(2 * a), Wrap16(2 * b))
  {
    hide Xor;
    XorTop(a, b);
    XorDoubles(Low(a), Low(b));
    DoubleWraps(a);
    DoubleWraps(b);
    DoubleWraps(Xor16(a, b));
  }

  lemma DoubleWraps(a: u16)
    ensures Wrap16(2 * a) == 2 * Low(a)
  {
  }

  lemma XorDoubles(a: nat, b: nat)
    ensures Xor(2 * a, 2 * b) == 2 * Xor(a, b)
  {
    XorHalves(2 * a, 2 * b);
  }

  /** One division step is linear over XOR, in the register and the incoming bit. */
  lemma DivideBitXor(a: u16, b: u16, x: bool, y: bool)
    ensures DivideBit(Xor16(a, b), x != y) == Xor16(DivideBit(a, x), DivideBit(b, y))
  {
    ShiftXor(a, b);
    var a2, b2 := Wrap16(2 * a), Wrap16(2 * b);
    XorInterchange(a2, POLY, b2, POLY);
    XorSelf(POLY);
    XorAssociates(a2, b2, POLY);
    XorAssociates(a2, POLY, b2);
    XorCommutes(POLY, b2);
  }

  lemma {:induction false} ZerosXor(a: u16, b: u16, n: nat)
    ensures Zeros(Xor16(a, b), n) == Xor16(Zeros(a, n), Zeros(b, n))
    decreases n
  {
    if n > 0 {
      DivideBitXor(a, b, false, false);
      ZerosXor(DivideBit(a, false), DivideBit(b, false), n - 1);
    }
  }

  // ---- Feeding up to sixteen bits is XORing them in at the top, then shifting ----

  /** Up to sixteen bits, left-aligned in a register. */
  function Align(bits: seq<bool>): u16
    decreases |bits|
  {
    if bits == [] then 0 else (if bits[0] then 0x8000 else 0) + Align(bits[1..]) / 2
  }

  /** The number that bits spell, most significant first. */
  function Number(bits: seq<bool>): nat
    decreases |bits|
  {
    if bits == [] then 0 else (if bits[0] then Shl(1, |bits| - 1) else 0) + Number(bits[1..])
  }

  lemma {:induction false} NumberOfBits(v: nat, n: nat)
    requires v < Shl(1, n)
    ensures Number(BitsOf(v, n)) == v
    decreases n
  {
    if n > 0 {
      TopBit(v, n - 1);
      var low := if v >= Shl(1, n - 1) then v - Shl(1, n - 1) else v;
      NumberOfBits(low, n - 1);
      forall k | 0 <= k < n - 1
        ensures BitAt(v, k) == BitAt(low, k)
      {
        LowBit(1, low, n - 1, k);
      }
      assert BitsOf(v, n)[1..] == BitsOf(low, n - 1);
    }
  }

  lemma {:induction false} AlignNumber(bits: seq<bool>, k: nat)
    requires |bits| + k == 16
    ensures Align(bits) == Shl(Number(bits), k)
    decreases |bits|
  {
    if bits == [] {
      ShlZero(k);
    } else {
      AlignNumber(bits[1..], k + 1);
      Powers();
      ShlAdds(1, k, 15);
      ShlPlus(Shl(1, |bits| - 1), Number(bits[1..]), k);
    }
  }

  lemma AlignEven(bits: seq<bool>)
    requires |bits| < 16
    ensures Align(bits) % 2 == 0
  {
    hide Align, Number;
    var k := 16 - |bits|;
    AlignNumber(bits, k);
    ShlEven(Number(bits), k);
    hide Shl;
  }

  lemma AlignShifts(a: u16, b: bool)
    requires a % 2 == 0
    ensures DivideBit((if b then 0x8000 else 0) + a / 2, b) == a
  {
  }

  lemma {:induction false} DivideAligned(reg: u16, bits: seq<bool>)
    requires |bits| <= 16
    ensures Divide(reg, bits) == Zeros(Xor16(reg, Align(bits)), |bits|)
    decreases |bits|
  {
    if bits == [] {
      XorCommutes(reg, 0);
    } else {
      var b, rest := bits[0], bits[1..];
      AlignEven(rest);
      AlignShifts(Align(rest), b);
      assert DivideBit(Align(bits), b) == Align(rest);
      hide Align, DivideBit, Xor16;
      DivideBitXor(reg, Align(bits), b, b);
      DivideAligned(DivideBit(reg, b), rest);
    }
  }

  lemma AlignByte(d: byte)
    ensures Align(BitsOfByte(d)) == d * 0x100
  {
    Powers();
    NumberOfBits(d, 8);
    AlignNumber(BitsOfByte(d), 8);
    ShlTimes(d);
  }

  // ---- The table holds eight steps of the division ----

  /** XOR with the divisor inverts bits 12, 5 and 0. */
  function FlipPoly(v: int): int {
    v + (if v / 0x1000 % 2 == 0 then 0x1000 else -0x1000)
      + (if v / 0x20 % 2 == 0 then 0x20 else -0x20)
      + (if v % 2 == 0 then 1 else -1)
  }

  function Doubled(v: int): int {
    if v >= 0x8000 then FlipPoly(2 * v - U16) else 2 * v
  }

  /** The row that four entries of another lead to, those from `j` on. */
  ghost predicate RowFrom(row: Row, src: Row, j: nat)
    requires j <= 4
  {
    && row[0] == Doubled(src[j]) && row[1] == FlipPoly(row[0])
    && row[2] == Doubled(src[j + 1]) && row[3] == FlipPoly(row[2])
    && row[4] == Doubled(src[j + 2]) && row[5] == FlipPoly(row[4])
    && row[6] == Doubled(src[j + 3]) && row[7] == FlipPoly(row[6])
  }

  /** Rows `2k` and `2k + 1` follow from row `k`. */
  ghost predicate RowsFrom(low: Row, high: Row, src: Row) {
    RowFrom(low, src, 0) && RowFrom(high, src, 4)
  }

  lemma Row00()
    ensures RowFrom(ROW_00, ROW_00, 0)
  {
  }

  lemma Row01()
    ensures RowFrom(ROW_01, ROW_00, 4)
  {
  }

  lemma Row02()
    ensures RowFrom(ROW_02, ROW_01, 0)
  {
  }

  lemma Row03()
    ensures RowFrom(ROW_03, ROW_01, 4)
  {
  }

  lemma Row04()
    ensures RowFrom(ROW_04, ROW_02, 0)
  {
  }

  lemma Row05()
    ensures RowFrom(ROW_05, ROW_02, 4)
  {
  }

  lemma Row06()
    ensures RowFrom(ROW_06, ROW_03, 0)
  {
  }

  lemma Row07()
    ensures RowFrom(ROW_07, ROW_03, 4)
  {
  }

  lemma Row08()
    ensures RowFrom(ROW_08, ROW_04, 0)
  {
  }

  lemma Row09()
    ensures RowFrom(ROW_09, ROW_04, 4)
  {
  }

  lemma Row0A()
    ensures RowFrom(ROW_0A, ROW_05, 0)
  {
  }

  lemma Row0B()
    ensures RowFrom(ROW_0B, ROW_05, 4)
  {
  }

  lemma Row0C()
    ensures RowFrom(ROW_0C, ROW_06, 0)
  {
  }

  lemma Row0D()
    ensures RowFrom(ROW_0D, ROW_06, 4)
  {
  }

  lemma Row0E()
    ensures RowFrom(ROW_0E, ROW_07, 0)
  {
  }

  lemma Row0F()
    ensures RowFrom(ROW_0F, ROW_07, 4)
  {
  }

  lemma Row10()
    ensures RowFrom(ROW_10, ROW_08, 0)
  {
  }

  lemma Row11()
    ensures RowFrom(ROW_11, ROW_08, 4)
  {
  }

  lemma Row12()
    ensures RowFrom(ROW_12, ROW_09, 0)
  {
  }

  lemma Row13()
    ensures RowFrom(ROW_13, ROW_09, 4)
  {
  }

  lemma Row14()
    ensures RowFrom(ROW_14, ROW_0A, 0)
  {
  }

  lemma Row15()
    ensures RowFrom(ROW_15, ROW_0A, 4)
  {
  }

  lemma Row16()
    ensures RowFrom(ROW_16, ROW_0B, 0)
  {
  }

  lemma Row17()
    ensures RowFrom(ROW_17, ROW_0B, 4)
  {
  }

  lemma Row18()
    ensures RowFrom(ROW_18, ROW_0C, 0)
  {
  }

  lemma Row19()
    ensures RowFrom(ROW_19, ROW_0C, 4)
  {
  }

  lemma Row1A()
    ensures RowFrom(ROW_1A, ROW_0D, 0)
  {
  }

  lemma Row1B()
    ensures RowFrom(ROW_1B, ROW_0D, 4)
  {
  }

  lemma Row1C()
    ensures RowFrom(ROW_1C, ROW_0E, 0)
  {
  }

  lemma Row1D()
    ensures RowFrom(ROW_1D, ROW_0E, 4)
  {
  }

  lemma Row1E()
    ensures RowFrom(ROW_1E, ROW_0F, 0)
  {
  }

  lemma Row1F()
    ensures RowFrom(ROW_1F, ROW_0F, 4)
  {
  }

  lemma LowRows(k: int)
    requires 0 <= k < 8
    ensures RowsFrom(RowOf(2 * k), RowOf(2 * k + 1), RowOf(k))
  {
    hide RowFrom;
    Row00(); Row01(); Row02(); Row03();
    Row04(); Row05(); Row06(); Row07();
    Row08(); Row09(); Row0A(); Row0B();
    Row0C(); Row0D(); Row0E(); Row0F();
  }

  lemma HighRows(k: int)
    requires 8 <= k < 16
    ensures RowsFrom(RowOf(2 * k), RowOf(2 * k + 1), RowOf(k))
  {
    hide RowFrom;
    Row10(); Row11(); Row12(); Row13();
    Row14(); Row15(); Row16(); Row17();
    Row18(); Row19(); Row1A(); Row1B();
    Row1C(); Row1D(); Row1E(); Row1F();
  }

  lemma TableAt(k: int, j: int)
    requires 0 <= k < 32 && 0 <= j < 8
    ensures Table(8 * k + j) == RowOf(k)[j]
  {
    assert (8 * k + j) / 8 == k && (8 * k + j) % 8 == j;
    hide RowOf;
  }

  lemma RowsAt(low: Row, high: Row, src: Row, j: int)
    requires RowsFrom(low, high, src) && 0 <= j < 8
    ensures j < 4 ==> low[2 * j] == Doubled(src[j]) && low[2 * j + 1] == FlipPoly(low[2 * j])
    ensures j >= 4 ==> high[2 * j - 8] == Doubled(src[j]) && high[2 * j - 7] == FlipPoly(high[2 * j - 8])
  {
    hide FlipPoly, Doubled;
  }

  /** Entries `2 i` and `2 i + 1` follow from entry `i`. */
  ghost predicate EntryDoubles(i: int)
    requires 0 <= i < 128
  {
    && Table(2 * i) == Doubled(Table(i))
    && Table(2 * i + 1) == FlipPoly(Table(2 * i))
  }

  lemma EntryDoublesAt(k: int, j: int)
    requires 0 <= k < 16 && 0 <= j < 8
    ensures EntryDoubles(8 * k + j)
  {
    hide FlipPoly, Doubled, Table, RowOf, RowsFrom;
    if k < 8 {
      LowRows(k);
    } else {
      HighRows(k);
    }
    RowsAt(RowOf(2 * k), RowOf(2 * k + 1), RowOf(k), j);
    TableAt(k, j);
    if j < 4 {
      TableAt(2 * k, 2 * j);
      TableAt(2 * k, 2 * j + 1);
    } else {
      TableAt(2 * k + 1, 2 * j - 8);
      TableAt(2 * k + 1, 2 * j - 7);
    }
  }

  lemma TableDoubles(i: int)
    requires 0 <= i < 128
    ensures EntryDoubles(i)
  {
    hide *;
    EntryDoublesAt(i / 8, i % 8);
  }

  lemma XorOne(v: nat)
    ensures Xor(v, 1) == if v % 2 == 0 then v + 1 else v - 1
  {
    assert Xor(v / 2, 0) == v / 2;
    XorHalves(v, 1);
  }

  lemma FlipIsXor(v: u16)
    ensures FlipPoly(v) == Xor16(v, POLY)
  {
    var h, l := v / 0x20, v % 0x20;
    var t, m := h / 0x80, h % 0x80;
    assert t == v / 0x1000;
    assert m % 2 == v / 0x20 % 2 && l % 2 == v % 2;
    XorOne(l);
    XorOne(m);
    XorOne(t);
    XorTwoParts(t, m, 1);
    XorPoly(h, l);
  }

  lemma XorTwoParts(t: nat, m: nat, x: nat)
    requires m < 0x80 && x < 0x80
    ensures Xor(t * 0x80 + m, 0x80 + x) == Xor(t, 1) * 0x80 + Xor(m, x)
  {
    hide Xor;
    ShlTimes(1);
    ShlTimes(t);
    ShlTimes(Xor(t, 1));
    XorParts(t, m, 1, x, 7);
  }

  lemma XorPoly(h: nat, l: nat)
    requires l < 0x20
    ensures Xor(h * 0x20 + l, POLY) == Xor(h, 0x81) * 0x20 + Xor(l, 1)
  {
    hide Xor;
    ShlTimes(1);
    ShlTimes(0x81);
    ShlTimes(h);
    ShlTimes(Xor(h, 0x81));
    XorParts(h, l, 0x81, 1, 5);
  }

  lemma {:induction false} ZerosOfZero(n: nat)
    ensures Zeros(0, n) == 0
  {
    if n > 0 {
      ZerosOfZero(n - 1);
    }
  }

  lemma {:induction false} ZerosLast(reg: u16, n: nat)
    ensures Zeros(DivideBit(reg, false), n) == DivideBit(Zeros(reg, n), false)
    decreases n
  {
    if n > 0 {
      ZerosLast(DivideBit(reg, false), n - 1);
    }
  }

  /** The divisor's low sixteen bits are what a single 1 leaves behind. */
  lemma ZerosOfOne()
    ensures Zeros(0x100, BYTE) == POLY
  {
    assert DivideBit(0x8000, false) == POLY;
    assert Zeros(0x4000, 2) == POLY;
    assert Zeros(0x1000, 4) == Zeros(0x2000, 3) == POLY;
    assert Zeros(0x400, 6) == Zeros(0x800, 5) == POLY;
    assert Zeros(0x200, 7) == POLY;
  }

  lemma XorByteOdd(h: int)
    requires 0 <= h < 128
    ensures Xor(2 * h * 0x100, 0x100) == (2 * h + 1) * 0x100
  {
    XorOne(2 * h);
    XorSelf(0);
    hide Xor;
    ShlTimes(2 * h);
    ShlTimes(1);
    ShlTimes(2 * h + 1);
    XorParts(2 * h, 0, 1, 0, 8);
  }

  lemma ZerosOdd(h: int)
    requires 0 <= h < 128
    ensures Zeros((2 * h + 1) * 0x100, BYTE) == Xor16(Zeros(2 * h * 0x100, BYTE), POLY)
  {
    hide Xor, Zeros;
    XorByteOdd(h);
    ZerosXor(2 * h * 0x100, 0x100, 8);
    ZerosOfOne();
  }

  lemma ZerosEven(h: int)
    requires 0 <= h < 128
    ensures Zeros(2 * h * 0x100, BYTE) == DivideBit(Zeros(h * 0x100, BYTE), false)
  {
    var v := h * 0x100;
    assert 2 * h * 0x100 == 2 * v;
    DivideSmall(v);
    hide *;
    ZerosLast(v, BYTE);
  }

  lemma DivideSmall(v: u16)
    requires v < 0x8000
    ensures DivideBit(v, false) == 2 * v
  {
  }

  lemma DoubledDivides(v: u16)
    ensures Doubled(v) == DivideBit(v, false)
  {
    hide FlipPoly;
    FlipIsXor(Wrap16(2 * v));
  }

  ghost predicate EntryDivides(i: byte) {
    Table(i) == Zeros(i * 0x100, BYTE)
  }

  /** Every entry of the table is its index divided as the top eight bits of the register. */
  lemma {:induction false} TableDivides(i: byte)
    ensures EntryDivides(i)
    decreases i
  {
    hide *;
    if i == 0 {
      TableZero();
    } else {
      var h := i / 2;
      TableDivides(h);
      TableEven(h);
      TableOdd(h);
      assert i == 2 * h || i == 2 * h + 1;
    }
  }

  lemma TableZero()
    ensures EntryDivides(0)
  {
    ZerosOfZero(BYTE);
    assert ROW_00[0] == 0;
  }

  lemma TableEven(h: int)
    requires 0 <= h < 128
    requires EntryDivides(h)
    ensures EntryDivides(2 * h)
  {
    TableDoubles(h);
    DoubledDivides(Table(h));
    ZerosEven(h);
    hide Table, Zeros, Doubled, DivideBit;
  }

  lemma TableOdd(h: int)
    requires 0 <= h < 128
    requires EntryDivides(2 * h)
    ensures EntryDivides(2 * h + 1)
  {
    hide Table, Zeros, FlipPoly, Xor16;
    TableDoubles(h);
    FlipIsXor(Table(2 * h));
    ZerosOdd(h);
  }

  // ---- The CRC is the remainder of long division ----

  lemma {:induction false} ZerosSmall(l: u16, n: nat)
    requires Shl(l, n) < U16
    ensures Zeros(l, n) == Shl(l, n)
    decreases n
  {
    if n > 0 {
      ShlFirst(l, n);
      ShlGrows(2 * l, n - 1);
      DivideSmall(l);
      hide DivideBit, Shl;
      ZerosSmall(2 * l, n - 1);
    }
  }

  /** XORing data into the high byte leaves the low byte alone. */
  lemma XorHighByte(h: byte, l: byte, d: byte)
    ensures Xor(h * 0x100 + l, d * 0x100) == Xor(Xor(h, d) * 0x100, l)
  {
    var i := Xor(h, d);
    ZeroXor(l);
    ZeroXor(i);
    hide Xor, Shl;
    ShlTimes(1);
    ShlTimes(h);
    ShlTimes(d);
    ShlTimes(i);
    ShlZero(8);
    XorParts(h, l, d, 0, 8);
    XorParts(i, 0, 0, l, 8);
  }

  /** One table lookup does the work of eight division steps. */
  ghost predicate UpdateIsDivision(crc: u16, d: byte) {
    Update(crc, d) == Divide(crc, BitsOfByte(d))
  }

  lemma DivideByte(crc: u16, d: byte)
    ensures Divide(crc, BitsOfByte(d)) == Zeros(Xor16(crc, d * 0x100), BYTE)
  {
    hide Xor, Divide, Zeros;
    AlignByte(d);
    DivideAligned(crc, BitsOfByte(d));
  }

  lemma ZerosOfParts(i: byte, l: byte)
    ensures Zeros(Xor16(i * 0x100, l), BYTE) == Xor16(Table(i), l * 0x100)
  {
    ShlTimes(l);
    hide Xor16, Zeros, Table, Shl;
    ZerosXor(i * 0x100, l, BYTE);
    TableDivides(i);
    ZerosSmall(l, BYTE);
  }

  lemma UpdateParts(h: byte, l: byte, d: byte)
    ensures Update(h * 0x100 + l, d) == Xor16(Table(Xor8(h, d)), l * 0x100)
  {
    hide Xor, Table;
    assert Wrap16((h * 0x100 + l) * 0x100) == l * 0x100;
    assert (h * 0x100 + l) / 0x100 == h;
    XorCommutes(Table(Xor8(h, d)), l * 0x100);
  }

  lemma XorHighByte16(h: byte, l: byte, d: byte)
    ensures Xor16(h * 0x100 + l, d * 0x100) == Xor16(Xor8(h, d) * 0x100, l)
  {
    hide Xor;
    XorHighByte(h, l, d);
  }

  lemma UpdateDividesParts(h: byte, l: byte, d: byte)
    ensures UpdateIsDivision(h * 0x100 + l, d)
  {
    hide Xor, Xor16, Xor8, Table, Zeros, Divide, BitsOfByte, Update;
    DivideByte(h * 0x100 + l, d);
    XorHighByte16(h, l, d);
    ZerosOfParts(Xor8(h, d), l);
    UpdateParts(h, l, d);
  }

  lemma UpdateDivides(crc: u16, d: byte)
    ensures UpdateIsDivision(crc, d)
  {
    hide *;
    UpdateDividesParts(crc / 0x100, crc % 0x100, d);
  }

  lemma ZeroXor(a: nat)
    ensures Xor(a, 0) == Xor(0, a) == a
  {
  }

  lemma {:induction false} DivideConcat(reg: u16, a: seq<bool>, b: seq<bool>)
    ensures Divide(reg, a + b) == Divide(Divide(reg, a), b)
    decreases |a|
  {
    if a == [] {
      assert a + b == b;
    } else {
      assert (a + b)[1..] == a[1..] + b;
      DivideConcat(DivideBit(reg, a[0]), a[1..], b);
    }
  }

  lemma {:induction false} FoldDivides(crc: u16, data: seq<byte>)
    ensures Fold(crc, data) == Divide(crc, Bits(data))
    decreases |data|
  {
    if data != [] {
      UpdateDivides(crc, data[0]);
      FoldDivides(Update(crc, data[0]), data[1..]);
      DivideConcat(crc, BitsOfByte(data[0]), Bits(data[1..]));
    }
  }

  lemma {:induction false} FoldConcat(crc: u16, a: seq<byte>, b: seq<byte>)
    ensures Fold(crc, a + b) == Fold(Fold(crc, a), b)
    decreases |a|
  {
    if a == [] {
      assert a + b == b;
    } else {
      assert (a + b)[1..] == a[1..] + b;
      FoldConcat(Update(crc, a[0]), a[1..], b);
    }
  }
}
