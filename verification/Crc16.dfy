/** The CRC-16 that seals every IPC frame: generator x^16 + x^12 + x^5 + 1 (section 2 of ITU-T V.41),
    register initialised to 0, no reflection, no final inversion. The program keeps the register in a
    16-bit word and advances it one byte at a time with a 256-entry table.
  */
module Crc16 {
  import opened Binary
  import opened BitRegister
  import opened CrcTable

  lemma ByteXor(a: byte, b: byte)
    ensures Xor(a, b) < 256
  {
    SmallPowers();
    XorBound(a, b, 8);
  }

  lemma WordXor(a: word, b: word)
    ensures Xor(a, b) < 0x1_0000
  {
    SmallPowers();
    XorBound(a, b, 16);
  }

  function TableLookup(i: byte): word {
    TableIsCrcTable();
    EntryIsRegister(TABLE, i, 8);
    Entry(TABLE, i)
  }

  /** The register after one more message byte, as the checksum loop computes it. */
  function CrcByte(crc: word, d: byte): word {
    ByteXor(crc / 256, d);
    WordXor(TableLookup(Xor(crc / 256, d)), crc % 256 * 256);
    Xor(TableLookup(Xor(crc / 256, d)), crc % 256 * 256)
  }

  /** The register after the bytes of `data`, starting from 0. */
  ghost function Crc(data: seq<byte>): word {
    if |data| == 0 then 0 else CrcByte(Crc(data[..|data| - 1]), data[|data| - 1])
  }

  method CalcCrc16(data: array<byte>, size: nat) returns (crc: word)
    requires size <= data.Length
    ensures crc == Crc(data[..size])
  {
    crc := 0;
    for i := 0 to size
      invariant crc == Crc(data[..i])
    {
      assert data[..i + 1][..i] == data[..i];
      crc := CrcByte(crc, data[i]);
    }
  }

  // ----- The checksum is a remainder

  ghost function BitsOf(data: seq<byte>): (r: seq<bool>)
    ensures |r| == 8 * |data|
  {
    if |data| == 0 then [] else BitsOf(data[..|data| - 1]) + Bits(data[|data| - 1], 8)
  }

  lemma WordHalves(crc: word)
    ensures Bits(crc, 16) == Bits(crc / 256, 8) + Bits(crc % 256, 8)
    ensures Bits(crc % 256 * 256, 16) == Bits(crc % 256, 8) + Zeros(8)
  {
    hide Bits;
    SmallPowers();
    BitsOfParts(crc / 256, 8, crc % 256, 8);
    BitsOfParts(crc % 256, 8, 0, 8);
    BitsOfZero(8);
  }

  /** One table step is eight bits of the division register. */
  lemma CrcByteIsFeed(crc: word, d: byte, n: nat)
    requires n == 8
    ensures Bits(CrcByte(crc, d), 16) == Feed(Bits(crc, 16), Bits(d, n))
  {
    hide Bits, Xor, Entry, TABLE;
    var high, low := Bits(crc / 256, 8), Bits(crc % 256, 8);
    var t := Xor(crc / 256, d);
    ByteXor(crc / 256, d);
    WordHalves(crc);
    TableIsCrcTable();
    EntryIsRegister(TABLE, t, n);
    XorIsBitwise(crc / 256, d, 8);
    XorIsBitwise(TableLookup(t), crc % 256 * 256, 16);
    var r: Register := Zeros(8) + low;
    ShiftNMovesUp(r, n);
    ShiftNLinear(Loaded(t), r, n);
    FeedIsAddThenShift(Bits(crc, 16), Bits(d, n));
    assert AddTop(Bits(crc, 16), Bits(d, n)) == XorBits(Loaded(t), r);
  }

  lemma {:induction false} CrcIsFeed(data: seq<byte>)
    ensures Bits(Crc(data), 16) == Feed(ZERO, BitsOf(data))
  {
    hide Bits;
    hide CrcByte;
    if data == [] {
      BitsOfZero(16);
    } else {
      var rest, d := data[..|data| - 1], data[|data| - 1];
      CrcIsFeed(rest);
      CrcByteIsFeed(Crc(rest), d, 8);
      FeedConcat(ZERO, BitsOf(rest), Bits(d, 8));
    }
  }

  /** The checksum of every message is the remainder of message * x^16 divided by the generator. */
  lemma CrcIsLongDivision(data: seq<byte>)
    ensures Bits(Crc(data), 16) == Remainder(BitsOf(data) + Zeros(16))
  {
    CrcIsFeed(data);
    FeedIsLongDivision(BitsOf(data));
  }

  lemma {:induction false} BitsOfConcat(a: seq<byte>, b: seq<byte>)
    ensures BitsOf(a + b) == BitsOf(a) + BitsOf(b)
  {
    if b == [] {
      assert a + b == a;
    } else {
      var n := |b| - 1;
      BitsOfConcat(a, b[..n]);
      assert (a + b)[..|a + b| - 1] == a + b[..n];
      assert BitsOf(a) + BitsOf(b[..n]) + Bits(b[n], 8) == BitsOf(a) + (BitsOf(b[..n]) + Bits(b[n], 8));
    }
  }

  lemma CrcFromBits(a: word, b: word)
    requires Bits(a, 16) == Bits(b, 16)
    ensures a == b
  {
    hide Bits;
    SmallPowers();
    BitsInjective(a, b, 16);
  }

  // ----- Linearity

  function XorBytes(a: seq<byte>, b: seq<byte>): (r: seq<byte>)
    requires |a| == |b|
    ensures |r| == |a|
    ensures forall i | 0 <= i < |r| :: r[i] == Xor(a[i], b[i])
  {
    if a == [] then []
    else
      var n := |a| - 1;
      ByteXor(a[n], b[n]);
      XorBytes(a[..n], b[..n]) + [Xor(a[n], b[n])]
  }

  lemma {:induction false} XorBytesIsBitwise(a: seq<byte>, b: seq<byte>)
    requires |a| == |b|
    ensures BitsOf(XorBytes(a, b)) == XorBits(BitsOf(a), BitsOf(b))
  {
    hide Bits;
    if a != [] {
      var n := |a| - 1;
      XorBytesIsBitwise(a[..n], b[..n]);
      assert XorBytes(a, b)[..n] == XorBytes(a[..n], b[..n]);
      XorIsBitwise(a[n], b[n], 8);
    }
  }

  /** The checksum of an XOR of equally long messages is the XOR of their checksums. */
  lemma CrcLinear(a: seq<byte>, b: seq<byte>)
    requires |a| == |b|
    ensures Crc(XorBytes(a, b)) == Xor(Crc(a), Crc(b))
  {
    hide Bits, Xor;
    WordXor(Crc(a), Crc(b));
    XorBytesIsBitwise(a, b);
    CrcIsFeed(a);
    CrcIsFeed(b);
    CrcIsFeed(XorBytes(a, b));
    assert ZERO == XorBits(ZERO, ZERO);
    FeedLinear(ZERO, BitsOf(a), ZERO, BitsOf(b));
    XorIsBitwise(Crc(a), Crc(b), 16);
    CrcFromBits(Crc(XorBytes(a, b)), Xor(Crc(a), Crc(b)));
  }

  // ----- Zero residue and error detection

  lemma BitsOfTwo(hi: byte, lo: byte)
    ensures BitsOf([hi, lo]) == Bits(hi * 256 + lo, 16)
  {
    hide Bits;
    WordHalves(hi * 256 + lo);
    assert [hi, lo][..1] == [hi] && [hi][..0] == [];
  }

  /** A message followed by two bytes divides evenly iff those bytes are its checksum, high byte first. */
  lemma ZeroResidue(data: seq<byte>, hi: byte, lo: byte)
    ensures Crc(data + [hi, lo]) == 0 <==> hi * 256 + lo == Crc(data)
  {
    hide Bits, Crc, BitsOf, Feed;
    CrcIsFeed(data);
    CrcIsFeed(data + [hi, lo]);
    BitsOfConcat(data, [hi, lo]);
    BitsOfTwo(hi, lo);
    FeedConcat(ZERO, BitsOf(data), BitsOf([hi, lo]));
    ResidueIsZero(Bits(Crc(data), 16), BitsOf([hi, lo]));
    BitsOfZero(16);
    if Crc(data + [hi, lo]) == 0 {
      CrcFromBits(hi * 256 + lo, Crc(data));
    }
    if hi * 256 + lo == Crc(data) {
      CrcFromBits(Crc(data + [hi, lo]), 0);
    }
  }

  /** If a message divides evenly, no message damaged by a burst of at most 16 bits does. */
  lemma BurstChangesResidue(data: seq<byte>, error: seq<byte>, start: nat)
    requires |error| == |data| && Crc(data) == 0 && IsBurst(BitsOf(error), start)
    ensures Crc(XorBytes(data, error)) != 0
  {
    hide Bits;
    CrcLinear(data, error);
    CrcIsFeed(error);
    BurstNotDivisible(BitsOf(error), start);
    BitsOfZero(16);
  }
}
