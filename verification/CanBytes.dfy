/** Where each field of a CAN payload sits in its eight bytes, byte by byte and without reference to how the program
    shifts and masks them.
  */
module CanBytes {
  import opened Binary
  import opened CanCodec

  function ByteAt(data: seq<byte>, i: nat): (n: nat)
    requires i < |data|
    ensures n < 256
  {
    data[i]
  }

  /** The low 48 bits of eight bytes. */
  function Low48(b: seq<byte>): nat
    requires |b| == 8
  {
    Middle(b) * 0x1_0000 + ByteAt(b, 6) * 256 + ByteAt(b, 7)
  }

  /** Bytes 2 to 5 as a number. */
  function Middle(b: seq<byte>): nat
    requires |b| == 8
  {
    ((ByteAt(b, 2) * 256 + ByteAt(b, 3)) * 256 + ByteAt(b, 4)) * 256 + ByteAt(b, 5)
  }

  lemma BytesNext(b: seq<byte>, n: nat)
    requires 0 < n <= |b|
    ensures FromBytes(b[..n]) == FromBytes(b[..n - 1]) * 256 + ByteAt(b, n - 1)
  {
    assert b[..n][..n - 1] == b[..n - 1];
  }

  lemma NumberOfBytes(b: seq<byte>)
    requires |b| == 8
    ensures Low48(b) < TWO_48 && FromBytes(b) == (ByteAt(b, 0) * 256 + ByteAt(b, 1)) * TWO_48 + Low48(b)
  {
    hide FromBytes, ByteAt;
    BytesNext(b, 1);
    BytesNext(b, 2);
    BytesNext(b, 3);
    BytesNext(b, 4);
    BytesNext(b, 5);
    BytesNext(b, 6);
    BytesNext(b, 7);
    BytesNext(b, 8);
    assert b[..8] == b && b[..0] == [];
    NoBytes();
  }

  lemma NoBytes()
    ensures FromBytes([]) == 0
  {
  }

  lemma SplitWord(b0: nat, b1: nat, low: nat, raw: nat)
    requires b0 < 256 && b1 < 256 && low < TWO_48 && raw == (b0 * 256 + b1) * TWO_48 + low
    ensures raw / TWO_60 == b0 / 16 && raw / TWO_48 % 4096 == b0 % 16 * 256 + b1 && raw % TWO_48 == low
  {
    assert raw / TWO_48 == b0 * 256 + b1;
    assert raw / TWO_60 == raw / TWO_48 / 4096;
  }

  lemma HighParts(b: seq<byte>)
    requires |b| == 8
    ensures FromBytes(b) / TWO_60 == ByteAt(b, 0) / 16
    ensures FromBytes(b) / TWO_48 % 4096 == ByteAt(b, 0) % 16 * 256 + ByteAt(b, 1)
    ensures FromBytes(b) % TWO_48 == Low48(b)
  {
    hide FromBytes, Low48, ByteAt;
    NumberOfBytes(b);
    SplitWord(ByteAt(b, 0), ByteAt(b, 1), Low48(b), FromBytes(b));
  }

  // ----- Fields that cross byte boundaries

  lemma TwoFromTop(high: nat, b6: nat, b7: nat, p: nat)
    requires b6 < 256 && b7 < 256 && p == high * 0x1_0000 + b6 * 256 + b7
    ensures p % 4 == b7 % 4 && p / 4 % 512 == b6 % 8 * 64 + b7 / 4
  {
    assert p == ((high * 32 + b6 / 8) * 512 + (b6 % 8 * 64 + b7 / 4)) * 4 + b7 % 4 by {
      assert b6 == b6 / 8 * 8 + b6 % 8 && b7 == b7 / 4 * 4 + b7 % 4;
    }
    LowDigits(high * 32 + b6 / 8, b6 % 8 * 64 + b7 / 4, b7 % 4, p);
  }

  lemma LowDigits(a: nat, b: nat, c: nat, p: nat)
    requires b < 512 && c < 4 && p == (a * 512 + b) * 4 + c
    ensures p % 4 == c && p / 4 % 512 == b
  {
    assert p / 4 == a * 512 + b;
  }

  lemma ElevenFromTop(high: nat, b6: nat, b7: nat, p: nat)
    requires b6 < 256 && b7 < 256 && p == high * 0x1_0000 + b6 * 256 + b7
    ensures p / 0x800 == high * 32 + b6 / 8
  {
    assert p == (high * 32 + b6 / 8) * 0x800 + (b6 % 8 * 256 + b7);
  }

  lemma ManeuverBits(high: nat, b6: nat, b7: nat, p: nat)
    requires b6 < 256 && b7 < 256 && p == high * 0x1_0000 + b6 * 256 + b7
    ensures p / 8 % 4 == b7 / 8 % 4
  {
    var t := b7 / 8;
    WithoutThree(high * 8192 + b6 * 32 + t, b7 % 8, p);
    LowTwo(high * 2048 + b6 * 8 + t / 4, t % 4, p / 8);
  }

  lemma WithoutThree(a: nat, c: nat, p: nat)
    requires c < 8 && p == a * 8 + c
    ensures p / 8 == a
  {
  }

  lemma LowTwo(a: nat, c: nat, p: nat)
    requires c < 4 && p == a * 4 + c
    ensures p % 4 == c
  {
  }

  lemma FiveFromTop(high: nat, b6: nat, b7: nat, p: nat)
    requires b6 < 256 && b7 < 256 && p == high * 0x1_0000 + b6 * 256 + b7
    ensures p / 0x20 == high * 2048 + (b6 * 8 + b7 / 32) && b6 * 8 + b7 / 32 < 2048
  {
  }

  lemma PositionBits(high: nat, b4: nat, b5: nat, b6: nat, q: nat)
    requires b4 < 256 && b5 < 256 && b6 < 256 && q == ((high * 256 + b4) * 256 + b5) * 32 + b6 / 8
    ensures q % 2048 == b5 % 64 * 32 + b6 / 8 && q / 2048 == (high * 256 + b4) * 4 + b5 / 64
  {
    var low, top := b5 % 64 * 32 + b6 / 8, (high * 256 + b4) * 4 + b5 / 64;
    assert b5 == b5 / 64 * 64 + b5 % 64 && low < 2048;
    assert q == top * 2048 + low;
  }

  lemma ColumnBits(high: nat, b4: nat, b5: nat, x: nat)
    requires b4 < 256 && b5 < 256 && x == (high * 256 + b4) * 4 + b5 / 64
    ensures x % 1024 == b4 * 4 + b5 / 64 && x / 1024 == high
  {
    var low := b4 * 4 + b5 / 64;
    assert x == high * 1024 + low && low < 1024;
  }

  lemma LightColumn(high: nat, b4: nat, b5: nat, x: nat)
    requires b4 < 256 && b5 < 256 && x == (high * 256 + b4) * 256 + b5
    ensures x % 1024 == b4 % 4 * 256 + b5 && x / 1024 == high * 64 + b4 / 4 && x / 0x1_0000 == high
  {
    assert x == (high * 64 + b4 / 4) * 1024 + (b4 % 4 * 256 + b5);
  }

  lemma LightTimes(high: nat, b4: nat, c: nat)
    requires b4 < 256 && c == high * 64 + b4 / 4
    ensures c % 16 == b4 / 4 % 16 && c / 16 % 4 == b4 / 64
  {
    var t := b4 / 4;
    assert t == t / 16 * 16 + t % 16 && t / 16 == b4 / 64 < 4;
    assert c == (high * 4 + t / 16) * 16 + t % 16;
    assert c / 16 == high * 4 + t / 16;
  }

  lemma NestedShifts(p: nat)
    ensures p / 0x40_0000 == p / 0x800 / 2048 && p / TWO_32 == p / 0x40_0000 / 1024
    ensures p / 0x1_0000 == p / 0x20 / 2048
  {
  }

  lemma NestedLightShifts(p: nat)
    ensures p / 0x400_0000 == p / 0x1_0000 / 1024 && p / 0x4000_0000 == p / 0x400_0000 / 16
    ensures p / TWO_32 == p / 0x1_0000 / 0x1_0000 && p / 0x100_0000_0000 == p / TWO_32 / 256
  {
  }

  // ----- Whole layouts

  /** The fields that records and candidate messages share. */
  lemma VehicleFields(b: seq<byte>)
    requires |b| == 8
    ensures var p := Low48(b);
            && p / 0x100_0000_0000 == ByteAt(b, 2) && p / TWO_32 % 256 == ByteAt(b, 3)
            && p / TWO_32 == ByteAt(b, 2) * 256 + ByteAt(b, 3)
            && p / 0x40_0000 % 1024 == ByteAt(b, 4) * 4 + ByteAt(b, 5) / 64
            && p / 0x800 % 2048 == ByteAt(b, 5) % 64 * 32 + ByteAt(b, 6) / 8
            && p / 4 % 512 == ByteAt(b, 6) % 8 * 64 + ByteAt(b, 7) / 4
            && p % 4 == ByteAt(b, 7) % 4
  {
    hide ByteAt;
    var p, high := Low48(b), ByteAt(b, 2) * 256 + ByteAt(b, 3);
    TwoFromTop(Middle(b), ByteAt(b, 6), ByteAt(b, 7), p);
    ElevenFromTop(Middle(b), ByteAt(b, 6), ByteAt(b, 7), p);
    PositionBits(high, ByteAt(b, 4), ByteAt(b, 5), ByteAt(b, 6), p / 0x800);
    ColumnBits(high, ByteAt(b, 4), ByteAt(b, 5), p / 0x800 / 2048);
    NestedShifts(p);
    NestedLightShifts(p);
  }

  /** The fields of a traffic-light message. */
  lemma LightFields(b: seq<byte>)
    requires |b| == 8
    ensures var p := Low48(b);
            && p / TWO_32 == ByteAt(b, 2) * 256 + ByteAt(b, 3)
            && p / 0x4000_0000 % 4 == ByteAt(b, 4) / 64 && p / 0x400_0000 % 16 == ByteAt(b, 4) / 4 % 16
            && p / 0x1_0000 % 1024 == ByteAt(b, 4) % 4 * 256 + ByteAt(b, 5)
            && p / 0x20 % 2048 == ByteAt(b, 6) * 8 + ByteAt(b, 7) / 32
            && p / 8 % 4 == ByteAt(b, 7) / 8 % 4
  {
    hide ByteAt;
    var p, high := Low48(b), ByteAt(b, 2) * 256 + ByteAt(b, 3);
    ManeuverBits(Middle(b), ByteAt(b, 6), ByteAt(b, 7), p);
    FiveFromTop(Middle(b), ByteAt(b, 6), ByteAt(b, 7), p);
    LightColumn(high, ByteAt(b, 4), ByteAt(b, 5), p / 0x20 / 2048);
    LightTimes(high, ByteAt(b, 4), p / 0x20 / 2048 / 1024);
    NestedShifts(p);
    NestedLightShifts(p);
  }

  // ----- The record decoder

  /** What the decoder accepts and what it makes of it: of any byte string only the first eight bytes count, the first
      four bits must be clear, and whatever stands above the speed is ignored. */
  lemma DecodedBytes(data: seq<byte>)
    ensures DecodePayload(data).Some? <==> |data| >= 8 && ByteAt(data, 0) < 16
    ensures |data| >= 8 ==> DecodePayload(data) == DecodePayload(data[..8])
    ensures DecodePayload(data).Some? ==>
              var ego := DecodePayload(data).value;
              && ego.timestamp == ByteAt(data, 0) * 256 + ByteAt(data, 1)
              && ego.speed == ByteAt(data, 3)
              && ego.x == ByteAt(data, 4) * 4 + ByteAt(data, 5) / 64
              && ego.y == ByteAt(data, 5) % 64 * 32 + ByteAt(data, 6) / 8
              && ego.heading == ByteAt(data, 6) % 8 * 64 + ByteAt(data, 7) / 4
              && ego.turnSignal == ByteAt(data, 7) % 4
  {
    hide FromBytes, Low48;
    if |data| >= 8 {
      var b := data[..8];
      assert b[..8] == b;
      HighParts(b);
      VehicleFields(b);
    }
  }
}
