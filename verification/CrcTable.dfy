/** The 256-entry table of the checksum loop, and the proof that entry `i` is what the bit-serial
    division register makes of byte `i` in eight steps.
  */
module CrcTable {
  import opened Binary
  import opened BitRegister

  // Entries 8 * r to 8 * r + 7 are ROW_r.
  const ROW_0: seq<nat> := [0x0000, 0x1021, 0x2042, 0x3063, 0x4084, 0x50a5, 0x60c6, 0x70e7]
  const ROW_1: seq<nat> := [0x8108, 0x9129, 0xa14a, 0xb16b, 0xc18c, 0xd1ad, 0xe1ce, 0xf1ef]
  const ROW_2: seq<nat> := [0x1231, 0x0210, 0x3273, 0x2252, 0x52b5, 0x4294, 0x72f7, 0x62d6]
  const ROW_3: seq<nat> := [0x9339, 0x8318, 0xb37b, 0xa35a, 0xd3bd, 0xc39c, 0xf3ff, 0xe3de]
  const ROW_4: seq<nat> := [0x2462, 0x3443, 0x0420, 0x1401, 0x64e6, 0x74c7, 0x44a4, 0x5485]
  const ROW_5: seq<nat> := [0xa56a, 0xb54b, 0x8528, 0x9509, 0xe5ee, 0xf5cf, 0xc5ac, 0xd58d]
  const ROW_6: seq<nat> := [0x3653, 0x2672, 0x1611, 0x0630, 0x76d7, 0x66f6, 0x5695, 0x46b4]
  const ROW_7: seq<nat> := [0xb75b, 0xa77a, 0x9719, 0x8738, 0xf7df, 0xe7fe, 0xd79d, 0xc7bc]
  const ROW_8: seq<nat> := [0x48c4, 0x58e5, 0x6886, 0x78a7, 0x0840, 0x1861, 0x2802, 0x3823]
  const ROW_9: seq<nat> := [0xc9cc, 0xd9ed, 0xe98e, 0xf9af, 0x8948, 0x9969, 0xa90a, 0xb92b]
  const ROW_10: seq<nat> := [0x5af5, 0x4ad4, 0x7ab7, 0x6a96, 0x1a71, 0x0a50, 0x3a33, 0x2a12]
  const ROW_11: seq<nat> := [0xdbfd, 0xcbdc, 0xfbbf, 0xeb9e, 0x9b79, 0x8b58, 0xbb3b, 0xab1a]
  const ROW_12: seq<nat> := [0x6ca6, 0x7c87, 0x4ce4, 0x5cc5, 0x2c22, 0x3c03, 0x0c60, 0x1c41]
  const ROW_13: seq<nat> := [0xedae, 0xfd8f, 0xcdec, 0xddcd, 0xad2a, 0xbd0b, 0x8d68, 0x9d49]
  const ROW_14: seq<nat> := [0x7e97, 0x6eb6, 0x5ed5, 0x4ef4, 0x3e13, 0x2e32, 0x1e51, 0x0e70]
  const ROW_15: seq<nat> := [0xff9f, 0xefbe, 0xdfdd, 0xcffc, 0xbf1b, 0xaf3a, 0x9f59, 0x8f78]
  const ROW_16: seq<nat> := [0x9188, 0x81a9, 0xb1ca, 0xa1eb, 0xd10c, 0xc12d, 0xf14e, 0xe16f]
  const ROW_17: seq<nat> := [0x1080, 0x00a1, 0x30c2, 0x20e3, 0x5004, 0x4025, 0x7046, 0x6067]
  const ROW_18: seq<nat> := [0x83b9, 0x9398, 0xa3fb, 0xb3da, 0xc33d, 0xd31c, 0xe37f, 0xf35e]
  const ROW_19: seq<nat> := [0x02b1, 0x1290, 0x22f3, 0x32d2, 0x4235, 0x5214, 0x6277, 0x7256]
  const ROW_20: seq<nat> := [0xb5ea, 0xa5cb, 0x95a8, 0x8589, 0xf56e, 0xe54f, 0xd52c, 0xc50d]
  const ROW_21: seq<nat> := [0x34e2, 0x24c3, 0x14a0, 0x0481, 0x7466, 0x6447, 0x5424, 0x4405]
  const ROW_22: seq<nat> := [0xa7db, 0xb7fa, 0x8799, 0x97b8, 0xe75f, 0xf77e, 0xc71d, 0xd73c]
  const ROW_23: seq<nat> := [0x26d3, 0x36f2, 0x0691, 0x16b0, 0x6657, 0x7676, 0x4615, 0x5634]
  const ROW_24: seq<nat> := [0xd94c, 0xc96d, 0xf90e, 0xe92f, 0x99c8, 0x89e9, 0xb98a, 0xa9ab]
  const ROW_25: seq<nat> := [0x5844, 0x4865, 0x7806, 0x6827, 0x18c0, 0x08e1, 0x3882, 0x28a3]
  const ROW_26: seq<nat> := [0xcb7d, 0xdb5c, 0xeb3f, 0xfb1e, 0x8bf9, 0x9bd8, 0xabbb, 0xbb9a]
  const ROW_27: seq<nat> := [0x4a75, 0x5a54, 0x6a37, 0x7a16, 0x0af1, 0x1ad0, 0x2ab3, 0x3a92]
  const ROW_28: seq<nat> := [0xfd2e, 0xed0f, 0xdd6c, 0xcd4d, 0xbdaa, 0xad8b, 0x9de8, 0x8dc9]
  const ROW_29: seq<nat> := [0x7c26, 0x6c07, 0x5c64, 0x4c45, 0x3ca2, 0x2c83, 0x1ce0, 0x0cc1]
  const ROW_30: seq<nat> := [0xef1f, 0xff3e, 0xcf5d, 0xdf7c, 0xaf9b, 0xbfba, 0x8fd9, 0x9ff8]
  const ROW_31: seq<nat> := [0x6e17, 0x7e36, 0x4e55, 0x5e74, 0x2e93, 0x3eb2, 0x0ed1, 0x1ef0]

  const TABLE: seq<seq<nat>> := [
    ROW_0, ROW_1, ROW_2, ROW_3, ROW_4, ROW_5, ROW_6, ROW_7,
    ROW_8, ROW_9, ROW_10, ROW_11, ROW_12, ROW_13, ROW_14, ROW_15,
    ROW_16, ROW_17, ROW_18, ROW_19, ROW_20, ROW_21, ROW_22, ROW_23,
    ROW_24, ROW_25, ROW_26, ROW_27, ROW_28, ROW_29, ROW_30, ROW_31
  ]

  lemma TableSize()
    ensures |TABLE| == 32
  {
  }

  // ----- Each entry follows from an earlier one

  /** Adds the generator's low terms x^12, x^5 and 1 to a doubled word: three digits change. */
  function AddTaps(d: nat): int {
    d + (if d / 4096 % 2 == 0 then 4096 else -4096) + (if d / 32 % 2 == 0 then 32 else -32) + 1
  }

  /** One step of the division register. */
  function ShiftBit(crc: nat): int {
    if crc < 0x8000 then crc * 2 else AddTaps(crc * 2 - 0x1_0000)
  }

  /** The same step with one more term of x^16 added, so with the generator added once more. */
  function ShiftBitOdd(crc: nat): int {
    if crc < 0x8000 then AddTaps(crc * 2) else crc * 2 - 0x1_0000
  }

  /** Entries 2 * j and 2 * j + 1 are entry j shifted once more, with a clear and with a set last bit. */
  predicate DerivedPair(row: seq<nat>, half: seq<nat>, from: nat, k: nat)
    requires |row| == 8 && |half| == 8 && from <= 4 && k < 4
  {
    && half[from + k] < 0x1_0000
    && row[2 * k] == ShiftBit(half[from + k])
    && row[2 * k + 1] == ShiftBitOdd(half[from + k])
  }

  predicate DerivedRow(row: seq<nat>, half: seq<nat>, from: nat) {
    && |row| == 8 && |half| == 8 && from <= 4
    && DerivedPair(row, half, from, 0) && DerivedPair(row, half, from, 1)
    && DerivedPair(row, half, from, 2) && DerivedPair(row, half, from, 3)
  }

  lemma Rows0And1()
    ensures DerivedRow(ROW_0, ROW_0, 0) && DerivedRow(ROW_1, ROW_0, 4)
  {
  }

  lemma Rows2And3()
    ensures DerivedRow(ROW_2, ROW_1, 0) && DerivedRow(ROW_3, ROW_1, 4)
  {
  }

  lemma Rows4And5()
    ensures DerivedRow(ROW_4, ROW_2, 0) && DerivedRow(ROW_5, ROW_2, 4)
  {
  }

  lemma Rows6And7()
    ensures DerivedRow(ROW_6, ROW_3, 0) && DerivedRow(ROW_7, ROW_3, 4)
  {
  }

  lemma Rows8And9()
    ensures DerivedRow(ROW_8, ROW_4, 0) && DerivedRow(ROW_9, ROW_4, 4)
  {
  }

  lemma Rows10And11()
    ensures DerivedRow(ROW_10, ROW_5, 0) && DerivedRow(ROW_11, ROW_5, 4)
  {
  }

  lemma Rows12And13()
    ensures DerivedRow(ROW_12, ROW_6, 0) && DerivedRow(ROW_13, ROW_6, 4)
  {
  }

  lemma Rows14And15()
    ensures DerivedRow(ROW_14, ROW_7, 0) && DerivedRow(ROW_15, ROW_7, 4)
  {
  }

  lemma Rows16And17()
    ensures DerivedRow(ROW_16, ROW_8, 0) && DerivedRow(ROW_17, ROW_8, 4)
  {
  }

  lemma Rows18And19()
    ensures DerivedRow(ROW_18, ROW_9, 0) && DerivedRow(ROW_19, ROW_9, 4)
  {
  }

  lemma Rows20And21()
    ensures DerivedRow(ROW_20, ROW_10, 0) && DerivedRow(ROW_21, ROW_10, 4)
  {
  }

  lemma Rows22And23()
    ensures DerivedRow(ROW_22, ROW_11, 0) && DerivedRow(ROW_23, ROW_11, 4)
  {
  }

  lemma Rows24And25()
    ensures DerivedRow(ROW_24, ROW_12, 0) && DerivedRow(ROW_25, ROW_12, 4)
  {
  }

  lemma Rows26And27()
    ensures DerivedRow(ROW_26, ROW_13, 0) && DerivedRow(ROW_27, ROW_13, 4)
  {
  }

  lemma Rows28And29()
    ensures DerivedRow(ROW_28, ROW_14, 0) && DerivedRow(ROW_29, ROW_14, 4)
  {
  }

  lemma Rows30And31()
    ensures DerivedRow(ROW_30, ROW_15, 0) && DerivedRow(ROW_31, ROW_15, 4)
  {
  }

  ghost predicate IsCrcTable(table: seq<seq<nat>>) {
    && |table| == 32
    && (forall r | 0 <= r < 32 :: |table[r]| == 8)
    && (forall r | 0 <= r < 32 :: DerivedRow(table[r], table[r / 2], 4 * (r % 2)))
    && table[0][0] == 0
  }

  lemma RowDerived(r: nat)
    requires r < 32
    ensures |TABLE| == 32 && DerivedRow(TABLE[r], TABLE[r / 2], 4 * (r % 2))
  {
    TableSize();
    hide DerivedRow;
    Rows0And1();
    Rows2And3();
    Rows4And5();
    Rows6And7();
    Rows8And9();
    Rows10And11();
    Rows12And13();
    Rows14And15();
    Rows16And17();
    Rows18And19();
    Rows20And21();
    Rows22And23();
    Rows24And25();
    Rows26And27();
    Rows28And29();
    Rows30And31();
  }

  lemma TableIsCrcTable()
    ensures IsCrcTable(TABLE)
  {
    TableSize();
    assert TABLE[0][0] == 0;
    hide DerivedPair, TABLE;
    forall r | 0 <= r < 32
      ensures |TABLE[r]| == 8 && DerivedRow(TABLE[r], TABLE[r / 2], 4 * (r % 2))
    {
      RowDerived(r);
    }
  }

  // ----- From here on for any table built that way

  function Entry(table: seq<seq<nat>>, i: byte): nat
    requires IsCrcTable(table)
  {
    table[i / 8][i % 8]
  }

  lemma IndexOfHalf(i: byte, r: nat, k: nat)
    requires r == i / 8 && k == i % 8 / 2
    ensures i / 2 / 8 == r / 2 && i / 2 % 8 == 4 * (r % 2) + k
    ensures i % 8 == 2 * k + i % 2
  {
  }

  lemma PairOfRow(row: seq<nat>, half: seq<nat>, from: nat, k: nat)
    requires DerivedRow(row, half, from) && k < 4
    ensures half[from + k] < 0x1_0000
    ensures row[2 * k] == ShiftBit(half[from + k])
    ensures row[2 * k + 1] == ShiftBitOdd(half[from + k])
  {
  }

  lemma EntryDerived(table: seq<seq<nat>>, i: byte)
    requires IsCrcTable(table)
    ensures Entry(table, i / 2) < 0x1_0000
    ensures Entry(table, i) == if i % 2 == 0 then ShiftBit(Entry(table, i / 2)) else ShiftBitOdd(Entry(table, i / 2))
  {
    hide DerivedRow, ShiftBit, ShiftBitOdd;
    var r, k := i / 8, i % 8 / 2;
    IndexOfHalf(i, r, k);
    assert DerivedRow(table[r], table[r / 2], 4 * (r % 2));
    PairOfRow(table[r], table[r / 2], 4 * (r % 2), k);
  }

  // ----- The same steps on bit lists

  lemma LastBit(n: nat, k: nat)
    requires k > 0
    ensures Bits(n, k) == Bits(n / 2, k - 1) + [n % 2 == 1]
  {
  }

  const TAPS: Register := seq(16, i requires 0 <= i < 16 => Tap(i))

  function Flip(n: nat): nat {
    if n % 2 == 0 then n + 1 else n - 1
  }

  lemma FlipBits(n: nat, k: nat)
    requires k > 0
    ensures Bits(Flip(n), k) == Bits(n, k)[k - 1 := !Bits(n, k)[k - 1]]
  {
    assert Flip(n) / 2 == n / 2;
  }

  lemma BitsOfThree(h: nat, m: nat, l: nat)
    requires m < 128 && l < 32
    ensures Bits((h * 128 + m) * 32 + l, 16) == Bits(h, 4) + Bits(m, 7) + Bits(l, 5)
  {
    hide Bits, Pow2;
    SmallPowers();
    BitsOfParts(h * 128 + m, 11, l, 5);
    BitsOfParts(h, 4, m, 7);
  }

  lemma AddTapsParts(h: nat, m: nat, l: nat)
    requires h < 16 && m < 128 && l < 32 && l % 2 == 0
    ensures AddTaps((h * 128 + m) * 32 + l) == (Flip(h) * 128 + Flip(m)) * 32 + Flip(l)
    ensures Flip(h) < 16 && Flip(m) < 128 && Flip(l) < 32
  {
    var d := (h * 128 + m) * 32 + l;
    assert d / 4096 == h && d / 32 == h * 128 + m;
  }

  lemma AddTapsBits(d: word)
    requires d % 2 == 0
    ensures 0 <= AddTaps(d) < 0x1_0000
    ensures Bits(AddTaps(d), 16) == XorBits(Bits(d, 16), TAPS)
  {
    hide Bits, AddTaps, Flip;
    var h, m, l := d / 4096, d / 32 % 128, d % 32;
    AddTapsParts(h, m, l);
    BitsOfThree(h, m, l);
    BitsOfThree(Flip(h), Flip(m), Flip(l));
    FlipBits(h, 4);
    FlipBits(m, 7);
    FlipBits(l, 5);
    TapsOfParts(Bits(h, 4), Bits(m, 7), Bits(l, 5));
  }

  lemma TapsOfParts(x: seq<bool>, y: seq<bool>, z: seq<bool>)
    requires |x| == 4 && |y| == 7 && |z| == 5
    ensures XorBits(x + y + z, TAPS) == x[3 := !x[3]] + y[6 := !y[6]] + z[4 := !z[4]]
  {
  }

  lemma ShiftOfParts(r: Register, top: bool, rest: seq<bool>)
    requires |rest| == 15 && r == [top] + rest
    ensures Shift(r) == if top then XorBits(rest + [false], TAPS) else rest + [false]
  {
  }

  /** One step of the register word is one step of the bit register. */
  lemma ShiftBitBits(c: word)
    ensures 0 <= ShiftBit(c) < 0x1_0000 && 0 <= ShiftBitOdd(c) < 0x1_0000
    ensures Bits(ShiftBit(c), 16) == Shift(Bits(c, 16))
    ensures Bits(ShiftBitOdd(c), 16) == XorBits(Shift(Bits(c, 16)), TAPS)
  {
    hide Bits, AddTaps, Pow2;
    var top, l := c / 0x8000, c % 0x8000;
    SmallPowers();
    BitsOfParts(top, 1, l, 15);
    LastBit(top, 1);
    LastBit(2 * l, 16);
    ShiftOfParts(Bits(c, 16), top == 1, Bits(l, 15));
    AddTapsBits(2 * l);
    XorTwice(Bits(2 * l, 16), TAPS);
  }

  lemma XorTwice(a: seq<bool>, b: seq<bool>)
    requires |a| == |b|
    ensures XorBits(XorBits(a, b), b) == a
  {
  }

  /** Byte `i` in the upper half of the register. */
  function Loaded(i: nat): (r: Register) {
    Bits(i, 8) + Zeros(8)
  }

  lemma LoadedZero()
    ensures Loaded(0) == ZERO
  {
    BitsOfZero(8);
  }

  lemma LoadedDouble(i: nat)
    requires i < 128
    ensures !Loaded(i)[0] && Loaded(2 * i) == Shift(Loaded(i))
  {
    hide Bits, Pow2;
    SmallPowers();
    BitsOfParts(0, 1, i, 7);
    LastBit(0, 1);
    LastBit(2 * i, 8);
    ShiftOfParts(Loaded(i), false, Bits(i, 7) + Zeros(8));
    assert Bits(2 * i, 8) + Zeros(8) == Bits(i, 7) + Zeros(8) + [false];
  }

  lemma LoadedOdd(i: nat)
    requires i % 2 == 1
    ensures Loaded(i) == Loaded(i - 1)[7 := true] && !Loaded(i - 1)[7]
  {
    hide Bits;
    LastBit(i, 8);
    LastBit(i - 1, 8);
  }

  lemma {:induction false} ShiftNThenShift(r: Register, n: nat)
    ensures ShiftN(Shift(r), n) == Shift(ShiftN(r, n))
    decreases n
  {
    if n > 0 {
      ShiftNThenShift(Shift(r), n - 1);
    }
  }

  /** Bit 7 needs seven steps to reach the top; the eighth puts the generator's terms in its place. */
  lemma OneBitLoaded(n: nat)
    requires n == 7
    ensures ShiftN(ZERO[7 := true], n + 1) == TAPS
  {
    var r := ZERO[7 := true];
    ShiftNMovesUp(r, n);
    ShiftNThenShift(r, n);
    assert ShiftN(r, n) == [true] + Zeros(15);
    ShiftOfParts(ShiftN(r, n), true, Zeros(15));
  }

  lemma LoadedHalf(i: byte)
    ensures Loaded(i) == if i % 2 == 0 then Shift(Loaded(i / 2)) else XorBits(Shift(Loaded(i / 2)), ZERO[7 := true])
  {
    hide Loaded;
    LoadedDouble(i / 2);
    if i % 2 == 1 {
      LoadedOdd(i);
    }
  }

  lemma EntryStep(e: word, i: byte, n: nat)
    requires n == 8 && Bits(e, 16) == ShiftN(Loaded(i / 2), n)
    ensures Bits(if i % 2 == 0 then ShiftBit(e) else ShiftBitOdd(e), 16) == ShiftN(Loaded(i), n)
  {
    hide Bits, ShiftBit, ShiftBitOdd, Loaded;
    var r := Loaded(i / 2);
    ShiftBitBits(e);
    LoadedHalf(i);
    ShiftNThenShift(r, n);
    ShiftNLinear(Shift(r), ZERO[7 := true], n);
    OneBitLoaded(n - 1);
  }

  /** Every entry is the register after shifting its index through. */
  lemma {:induction false} EntryIsRegister(table: seq<seq<nat>>, i: byte, n: nat)
    requires IsCrcTable(table) && n == 8
    ensures Entry(table, i) < 0x1_0000
    ensures Bits(Entry(table, i), 16) == ShiftN(Loaded(i), n)
    decreases i
  {
    hide Bits, DerivedRow, ShiftBit, ShiftBitOdd, Loaded, ShiftN;
    if i == 0 {
      LoadedZero();
      ShiftNOfZero(n);
      BitsOfZero(16);
    } else {
      EntryDerived(table, i);
      EntryIsRegister(table, i / 2, n);
      EntryStep(Entry(table, i / 2), i, n);
      ShiftBitBits(Entry(table, i / 2));
    }
  }
}
