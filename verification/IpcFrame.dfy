/** IPC frames on the wire: FF 55 AA, two command words, a big-endian LENGTH, the payload and a
    big-endian CRC over everything before it.
  */
module IpcFrame {
  import opened Binary
  import opened BitRegister
  import opened Crc16

  const SYNC: byte := 0xFF
  const START1: byte := 0x55
  const START2: byte := 0xAA
  const PREPARE_SIZE := 9
  const CRC_SIZE := 2
  const MAX_PACKET_SIZE := 0x400
  const TX_HEADER_SIZE := 4
  const TX_CMD: seq<byte> := [0x00, 0x05, 0x00, 0x01]

  datatype ParseResult = Ok | TooShort | HeaderMismatch | LengthInvalid | CrcMismatch

  // The frame the parser hands out: its payload is a slice of the buffer that was parsed.
  datatype Frame = Frame(canId: word, data: seq<byte>)

  const NO_FRAME := Frame(0, [])

  function U16(hi: byte, lo: byte): word {
    hi * 256 + lo
  }

  function BigEndian(w: word): (r: seq<byte>)
    ensures |r| == 2 && U16(r[0], r[1]) == w
  {
    [w / 256, w % 256]
  }

  // ----- Receiving

  /** The parser's verdict on a whole buffer, with the frame it fills in. */
  ghost function Parse(buf: seq<byte>): (ParseResult, Frame) {
    if |buf| < PREPARE_SIZE + CRC_SIZE then (TooShort, NO_FRAME)
    else if buf[0] != SYNC || buf[1] != START1 || buf[2] != START2 then (HeaderMismatch, NO_FRAME)
    else
      var length, avail := U16(buf[7], buf[8]), |buf| - PREPARE_SIZE;
      var take := if length <= avail then length else avail;
      if take < 8 then (LengthInvalid, NO_FRAME)
      else
        var frame := Frame(0, buf[PREPARE_SIZE..PREPARE_SIZE + take]);
        var body := |buf| - CRC_SIZE;
        if U16(buf[body], buf[body + 1]) != Crc(buf[..body]) then (CrcMismatch, frame) else (Ok, frame)
  }

  /** Only the first `len` bytes of the buffer are looked at. */
  method ParseFrame(buf: array<byte>, len: int) returns (result: ParseResult, frame: Frame)
    requires len <= buf.Length
    ensures (result, frame) == Parse(if len < 0 then [] else buf[..len])
  {
    hide Crc;
    frame := NO_FRAME;
    if len < PREPARE_SIZE + CRC_SIZE {
      return TooShort, frame;
    }
    if buf[0] != SYNC || buf[1] != START1 || buf[2] != START2 {
      return HeaderMismatch, frame;
    }
    var length := U16(buf[7], buf[8]);
    var avail := len - PREPARE_SIZE;
    var take := if length <= avail then length else avail;
    if take < 8 {
      return LengthInvalid, frame;
    }
    frame := Frame(0, buf[PREPARE_SIZE..PREPARE_SIZE + take]);
    assert buf[..len][PREPARE_SIZE..PREPARE_SIZE + take] == buf[PREPARE_SIZE..PREPARE_SIZE + take];
    var received := U16(buf[len - 2], buf[len - 1]);
    var calculated := CalcCrc16(buf, len - 2);
    assert buf[..len][..len - 2] == buf[..len - 2];
    result := if received != calculated then CrcMismatch else Ok;
  }

  // ----- Building

  /** A packet before its checksum. */
  function Packet(cmd: seq<byte>, payload: seq<byte>): (r: seq<byte>)
    requires |cmd| == 4 && |payload| <= 0xFFFF
    ensures |r| == PREPARE_SIZE + |payload|
  {
    [SYNC, START1, START2] + cmd + BigEndian(|payload|) + payload
  }

  /** Appends the checksum of all the bytes before it. */
  ghost function Sealed(packet: seq<byte>): (r: seq<byte>)
    ensures |r| == |packet| + CRC_SIZE
  {
    packet + BigEndian(Crc(packet))
  }

  function TxHeader(channels: byte, txOnlyChannels: byte, canId: word): (r: seq<byte>)
    ensures |r| == TX_HEADER_SIZE
  {
    [channels, txOnlyChannels] + BigEndian(canId)
  }

  predicate Fits(data: seq<byte>, outCap: nat) {
    && data != []
    && TX_HEADER_SIZE + |data| <= 0xFFFF
    && PREPARE_SIZE + TX_HEADER_SIZE + |data| + CRC_SIZE <= outCap
  }

  /** Assembles a transmit frame in `outBuf`; the result is its length, or -1 with the buffer untouched. */
  method BuildFrame(channels: byte, txOnlyChannels: byte, canId: word, data: seq<byte>, outBuf: array<byte>,
      outCap: nat)
    returns (total: int)
    requires outCap <= outBuf.Length
    modifies outBuf
    ensures total == -1 <==> !(1 <= |data| <= 65531 && |data| + 15 <= outCap)
    ensures !Fits(data, outCap) ==> total == -1 && outBuf[..] == old(outBuf[..])
    ensures Fits(data, outCap) ==>
      && total == PREPARE_SIZE + TX_HEADER_SIZE + |data| + CRC_SIZE
      && outBuf[..total] == Sealed(Packet(TX_CMD, TxHeader(channels, txOnlyChannels, canId) + data))
      && outBuf[total..] == old(outBuf[total..])
  {
    hide Crc;
    if data == [] {
      return -1;
    }
    var payloadSize := TX_HEADER_SIZE + |data|;
    var packetSize := PREPARE_SIZE + payloadSize;
    var totalSize := packetSize + CRC_SIZE;
    if payloadSize > 0xFFFF || totalSize > outCap {
      return -1;
    }
    WritePrefix(payloadSize, outBuf);
    ghost var prefix := outBuf[..PREPARE_SIZE];
    WriteTxHeader(channels, txOnlyChannels, canId, outBuf);
    assert outBuf[..PREPARE_SIZE] == prefix;
    ghost var header := outBuf[..PREPARE_SIZE + TX_HEADER_SIZE];
    assert header == prefix + TxHeader(channels, txOnlyChannels, canId);
    forall i | 0 <= i < |data| {
      outBuf[PREPARE_SIZE + TX_HEADER_SIZE + i] := data[i];
    }
    assert outBuf[..packetSize] == header + data;
    ghost var packet := Packet(TX_CMD, TxHeader(channels, txOnlyChannels, canId) + data);
    assert packet == header + data;
    var crc := CalcCrc16(outBuf, packetSize);
    outBuf[packetSize] := crc / 256;
    outBuf[packetSize + 1] := crc % 256;
    assert outBuf[..packetSize] == packet;
    assert outBuf[..totalSize] == packet + [crc / 256, crc % 256] == Sealed(packet);
    return totalSize;
  }

  method WritePrefix(payloadSize: word, outBuf: array<byte>)
    requires outBuf.Length >= PREPARE_SIZE
    modifies outBuf
    ensures outBuf[..PREPARE_SIZE] == [SYNC, START1, START2] + TX_CMD + BigEndian(payloadSize)
    ensures forall i | PREPARE_SIZE <= i < outBuf.Length :: outBuf[i] == old(outBuf[i])
  {
    outBuf[0] := SYNC;
    outBuf[1] := START1;
    outBuf[2] := START2;
    outBuf[3] := TX_CMD[0];
    outBuf[4] := TX_CMD[1];
    outBuf[5] := TX_CMD[2];
    outBuf[6] := TX_CMD[3];
    outBuf[7] := payloadSize / 256;
    outBuf[8] := payloadSize % 256;
  }

  method WriteTxHeader(channels: byte, txOnlyChannels: byte, canId: word, outBuf: array<byte>)
    requires outBuf.Length >= PREPARE_SIZE + TX_HEADER_SIZE
    modifies outBuf
    ensures outBuf[PREPARE_SIZE..PREPARE_SIZE + TX_HEADER_SIZE] == TxHeader(channels, txOnlyChannels, canId)
    ensures forall i | 0 <= i < outBuf.Length && !(PREPARE_SIZE <= i < PREPARE_SIZE + TX_HEADER_SIZE) ::
        outBuf[i] == old(outBuf[i])
  {
    outBuf[PREPARE_SIZE + 0] := channels;
    outBuf[PREPARE_SIZE + 1] := txOnlyChannels;
    outBuf[PREPARE_SIZE + 2] := canId / 256;
    outBuf[PREPARE_SIZE + 3] := canId % 256;
  }

  // ----- What the two say about each other

  lemma SealedParts(packet: seq<byte>)
    ensures var s := Sealed(packet); s[..|packet|] == packet && U16(s[|packet|], s[|packet| + 1]) == Crc(packet)
  {
  }

  /** Round trip: every sealed packet with at least 8 payload bytes parses to exactly its payload. */
  lemma ParseOfSealed(cmd: seq<byte>, payload: seq<byte>)
    requires |cmd| == 4 && 8 <= |payload| <= 0xFFFF
    ensures Parse(Sealed(Packet(cmd, payload))) == (Ok, Frame(0, payload))
  {
    hide Crc;
    var packet := Packet(cmd, payload);
    var s := Sealed(packet);
    SealedParts(packet);
    assert s[PREPARE_SIZE..PREPARE_SIZE + |payload|] == payload;
  }

  lemma AcceptedIsSealed(buf: seq<byte>)
    requires Parse(buf).0 == Ok
    ensures |buf| >= CRC_SIZE && U16(buf[|buf| - 2], buf[|buf| - 1]) == Crc(buf[..|buf| - 2])
  {
    hide Crc;
  }

  /** A buffer is accepted only if, header and all, it divides evenly by the generator. */
  lemma AcceptedDivides(buf: seq<byte>)
    requires Parse(buf).0 == Ok
    ensures Crc(buf) == 0
  {
    hide Crc, Parse;
    var body := |buf| - CRC_SIZE;
    AcceptedIsSealed(buf);
    ZeroResidue(buf[..body], buf[body], buf[body + 1]);
    assert buf[..body] + [buf[body], buf[body + 1]] == buf;
  }

  /** Burst detection: damage within 16 consecutive bits, in any field, makes the parser refuse the buffer. */
  lemma BurstIsRefused(buf: seq<byte>, error: seq<byte>, start: nat)
    requires Parse(buf).0 == Ok && |error| == |buf| && IsBurst(BitsOf(error), start)
    ensures Parse(XorBytes(buf, error)).0 != Ok
  {
    hide Crc, Parse;
    AcceptedDivides(buf);
    BurstChangesResidue(buf, error, start);
    if Parse(XorBytes(buf, error)).0 == Ok {
      AcceptedDivides(XorBytes(buf, error));
    }
  }

  /** The payload handed out stops before the checksum iff LENGTH claims no more than the payload bytes present. */
  lemma PayloadExcludesCrcIff(buf: seq<byte>)
    requires Parse(buf).0 == Ok
    ensures PREPARE_SIZE + |Parse(buf).1.data| <= |buf| - CRC_SIZE
        <==> U16(buf[7], buf[8]) <= |buf| - PREPARE_SIZE - CRC_SIZE
  {
    hide Crc;
  }

  /** Overstating LENGTH by 2 in an otherwise sealed packet makes the parser hand out the checksum as payload. */
  lemma OverstatedLength(cmd: seq<byte>, payload: seq<byte>)
    requires |cmd| == 4 && 8 <= |payload| <= 0xFFFD
    ensures var s := Sealed([SYNC, START1, START2] + cmd + BigEndian(|payload| + 2) + payload);
            Parse(s) == (Ok, Frame(0, payload + s[|s| - 2..]))
  {
    hide Crc;
    var packet := [SYNC, START1, START2] + cmd + BigEndian(|payload| + 2) + payload;
    var s := Sealed(packet);
    SealedParts(packet);
    assert s[PREPARE_SIZE..PREPARE_SIZE + |payload| + 2] == payload + s[|s| - 2..];
  }

  // ----- Both in terms of the bytes

  function LengthField(buf: seq<byte>): (n: nat)
    requires |buf| >= 9
    ensures n < 0x1_0000
  {
    buf[7] as int * 256 + buf[8] as int
  }

  predicate StartsFrame(buf: seq<byte>) {
    |buf| >= 3 && buf[0] == 0xFF && buf[1] == 0x55 && buf[2] == 0xAA
  }

  /** Exactly what the parser accepts: a buffer of at least 17 bytes with the start pattern and a LENGTH of at least 8
      that divides evenly as a whole. The payload starts at byte 9 and ends at LENGTH or at the end of the buffer. */
  lemma AcceptedIff(buf: seq<byte>)
    ensures Parse(buf).0 == Ok <==> |buf| >= 17 && StartsFrame(buf) && LengthField(buf) >= 8 && Crc(buf) == 0
    ensures Parse(buf).0 == Ok ==>
              var n := LengthField(buf); Parse(buf).1.data == if n <= |buf| - 9 then buf[9..9 + n] else buf[9..]
    ensures Parse(buf).1.canId == 0
  {
    hide Crc;
    if |buf| >= 17 {
      var body := |buf| - CRC_SIZE;
      ZeroResidue(buf[..body], buf[body], buf[body + 1]);
      assert buf[..body] + [buf[body], buf[body + 1]] == buf;
    }
  }

  /** And why it refuses the rest. */
  lemma RefusedIff(buf: seq<byte>)
    ensures Parse(buf).0 == TooShort <==> |buf| < 11
    ensures Parse(buf).0 == HeaderMismatch <==> |buf| >= 11 && !StartsFrame(buf)
    ensures Parse(buf).0 == LengthInvalid <==> |buf| >= 11 && StartsFrame(buf) && (|buf| < 17 || LengthField(buf) < 8)
    ensures Parse(buf).0 == CrcMismatch <==> |buf| >= 17 && StartsFrame(buf) && LengthField(buf) >= 8 && Crc(buf) != 0
    ensures Parse(buf).0 != Ok && Parse(buf).0 != CrcMismatch ==> Parse(buf).1.data == []
  {
    hide Crc;
    if |buf| >= 17 {
      var body := |buf| - CRC_SIZE;
      ZeroResidue(buf[..body], buf[body], buf[body + 1]);
      assert buf[..body] + [buf[body], buf[body + 1]] == buf;
    }
  }

  /** A built frame byte by byte: start pattern, commands 0x0005 and 0x0001, the length of channel header and data,
      the header with the channel mask before the transmit-only mask, the data, and a checksum that makes the whole
      divide evenly. */
  lemma BuiltFrame(channels: byte, txOnlyChannels: byte, canId: word, data: seq<byte>)
    requires |data| + 4 <= 0xFFFF
    ensures var s := Sealed(Packet(TX_CMD, TxHeader(channels, txOnlyChannels, canId) + data));
            && |s| == |data| + 15 && StartsFrame(s)
            && s[3] == 0x00 && s[4] == 0x05 && s[5] == 0x00 && s[6] == 0x01
            && LengthField(s) == |data| + 4
            && s[9] == channels && s[10] == txOnlyChannels && s[11] as int * 256 + s[12] as int == canId
            && s[13..|s| - 2] == data
            && Crc(s) == 0
  {
    hide Crc;
    var packet := Packet(TX_CMD, TxHeader(channels, txOnlyChannels, canId) + data);
    SealedParts(packet);
    var s := Sealed(packet);
    ZeroResidue(packet, s[|packet|], s[|packet| + 1]);
    assert packet + [s[|packet|], s[|packet| + 1]] == s;
  }
}
