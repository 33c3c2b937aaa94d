/** What a sender can rely on: frames separated by noise arrive as exactly the records they carry,
    however the stream is cut into reads.
  */
module StreamRoundTrip {
  import opened Binary
  import opened Crc16
  import opened IpcFrame
  import opened CanCodec
  import opened CanBytes
  import opened Receiver

  // A frame on the wire and the noise in front of it.
  datatype Item = Item(noise: seq<byte>, cmd: seq<byte>, payload: seq<byte>)

  /** Noise is any bytes at all without FF 55 AA in them. */
  predicate HeaderFree(noise: seq<byte>) {
    forall i | 0 <= i < |noise| :: !HeaderAt(noise, i)
  }

  predicate Sendable(item: Item) {
    && HeaderFree(item.noise)
    && |item.cmd| == 4
    && 8 <= |item.payload| <= MAX_PACKET_SIZE - PREPARE_SIZE - CRC_SIZE
  }

  ghost function FrameOf(item: Item): (frame: seq<byte>)
    requires Sendable(item)
    ensures |frame| == PREPARE_SIZE + |item.payload| + CRC_SIZE
  {
    Sealed(Packet(item.cmd, item.payload))
  }

  ghost function Wire(items: seq<Item>, tail: seq<byte>): seq<byte>
    requires forall i | 0 <= i < |items| :: Sendable(items[i])
  {
    if items == [] then tail else items[0].noise + FrameOf(items[0]) + Wire(items[1..], tail)
  }

  function Record(item: Item): seq<EgoVehicle> {
    match DecodePayload(item.payload)
    case Some(ego) => [ego]
    case None => []
  }

  function Records(items: seq<Item>): seq<EgoVehicle> {
    if items == [] then [] else Record(items[0]) + Records(items[1..])
  }

  // ----- A frame is taken whole

  lemma FrameFields(item: Item)
    requires Sendable(item)
    ensures var f := FrameOf(item);
            && HeaderAt(f, 0) && FrameLength(f, 0) == |f| && LengthOk(|f|) && CrcOk(f)
            && f[PREPARE_SIZE..|f| - CRC_SIZE] == item.payload
  {
    hide Crc;
    SealedParts(Packet(item.cmd, item.payload));
  }

  lemma FrameTaken(s: seq<byte>, p: nat, item: Item)
    requires Sendable(item) && p + |FrameOf(item)| <= |s| && s[p..p + |FrameOf(item)|] == FrameOf(item)
    ensures StepAt(s, p) == Take(|FrameOf(item)|) && EgoIn(FrameOf(item)) == Record(item)
  {
    hide CrcOk, FrameOf;
    var f := FrameOf(item);
    FrameFields(item);
    assert forall i | p <= i < p + |f| :: s[i] == s[p..p + |f|][i - p];
    assert HeaderAt(s, p) && FrameLength(s, p) == FrameLength(f, 0);
  }

  // ----- Noise is skipped

  /** FF 55 AA does not overlap itself, so noise and the frame behind it form no header across their seam. */
  lemma NoHeaderInNoise(s: seq<byte>, p: nat, noise: seq<byte>, i: nat)
    requires p + |noise| <= |s| && s[p..p + |noise|] == noise && HeaderFree(noise)
    requires p + |noise| < |s| ==> s[p + |noise|] == SYNC
    requires i < |noise|
    ensures !HeaderAt(s, p + i)
  {
    assert forall j | p <= j < p + |noise| :: s[j] == s[p..p + |noise|][j - p];
    assert !HeaderAt(noise, i);
  }

  lemma NoiseSkipped(s: seq<byte>, p: nat, noise: seq<byte>)
    requires p + |noise| <= |s| && s[p..p + |noise|] == noise && HeaderFree(noise)
    requires p + |noise| + 2 <= |s| && s[p + |noise|] == SYNC
    ensures Scan(s, p) == Scan(s, p + |noise|)
  {
    hide HeaderAt, HeaderFree;
    forall i | p <= i < p + |noise|
      ensures !HeaderAt(s, i)
    {
      NoHeaderInNoise(s, p, noise, i - p);
    }
    SkipHeaderless(s, p, p + |noise|);
  }

  lemma TailYieldsNothing(s: seq<byte>, p: nat)
    requires p <= |s| && HeaderFree(s[p..])
    ensures Scan(s, p).egos == [] && Scan(s, p).accepted == []
  {
    if |s| - p > 2 {
      forall i | p <= i < |s| - 2
        ensures !HeaderAt(s, i)
      {
        NoHeaderInNoise(s, p, s[p..], i - p);
      }
      SkipHeaderless(s, p, |s| - 2);
    }
  }

  // ----- The whole stream

  lemma {:induction false} ScanOfWire(s: seq<byte>, p: nat, items: seq<Item>, tail: seq<byte>)
    requires forall i | 0 <= i < |items| :: Sendable(items[i])
    requires HeaderFree(tail) && p <= |s| && s[p..] == Wire(items, tail)
    ensures Scan(s, p).egos == Records(items) && |Scan(s, p).accepted| == |items|
    decreases |items|
  {
    hide HeaderAt, HeaderFree, StepAt, EgoIn, Record, FrameOf;
    if items == [] {
      TailYieldsNothing(s, p);
    } else {
      var item, q := items[0], p + |items[0].noise|;
      var n := |FrameOf(item)|;
      WireParts(s, p, items, tail);
      FrameTaken(s, q, item);
      NoiseSkipped(s, p, item.noise);
      ScanOfWire(s, q + n, items[1..], tail);
    }
  }

  lemma WireParts(s: seq<byte>, p: nat, items: seq<Item>, tail: seq<byte>)
    requires forall i | 0 <= i < |items| :: Sendable(items[i])
    requires items != [] && p <= |s| && s[p..] == Wire(items, tail)
    ensures var q, n := p + |items[0].noise|, |FrameOf(items[0])|;
            && q + n <= |s| && s[p..q] == items[0].noise && s[q..q + n] == FrameOf(items[0])
                && s[q + n..] == Wire(items[1..], tail)
            && s[q] == SYNC
  {
    hide Crc;
    var a, f, w := items[0].noise, FrameOf(items[0]), Wire(items[1..], tail);
    var q, n := p + |a|, |f|;
    assert s[p..] == a + f + w;
    assert s[p..q] == s[p..][..|a|] == a;
    assert s[q..q + n] == s[p..][|a|..|a| + n] == f;
    assert s[q + n..] == s[p..][|a| + n..] == w;
    assert s[q] == f[0];
  }

  /** Records sent as ego messages. */
  predicate CarriesEgo(item: Item, ego: EgoVehicle) {
    EgoInRange(ego) && item.payload == ToBytes(Word(EGO_MSG_ID, ego.timestamp, EgoPayload(ego)), 8)
  }

  lemma {:induction false} RecordsAreEgos(items: seq<Item>, egos: seq<EgoVehicle>)
    requires |items| == |egos| && forall i | 0 <= i < |items| :: CarriesEgo(items[i], egos[i])
    ensures Records(items) == egos
  {
    hide DecodePayload, ToBytes, Word, EgoPayload;
    if items != [] {
      assert CarriesEgo(items[0], egos[0]);
      DecodeOfPacked(egos[0]);
      RecordsAreEgos(items[1..], egos[1..]);
      assert egos == [egos[0]] + egos[1..];
    }
  }

  /** Any list of in-range ego records, framed and sent with any header-free noise between the frames, is
      received as exactly that list, whatever reads the stream arrives in. */
  lemma EgosDelivered(chunks: seq<seq<byte>>, items: seq<Item>, tail: seq<byte>, egos: seq<EgoVehicle>)
    requires forall i | 0 <= i < |items| :: Sendable(items[i])
    requires |items| == |egos| && forall i | 0 <= i < |items| :: CarriesEgo(items[i], egos[i])
    requires HeaderFree(tail) && Flatten(chunks) == Wire(items, tail)
    ensures Received(chunks) == egos
  {
    hide Sendable, CarriesEgo, HeaderFree, Scan, Flatten;
    assert Flatten(chunks)[0..] == Flatten(chunks);
    ScanOfWire(Flatten(chunks), 0, items, tail);
    RecordsAreEgos(items, egos);
  }

  // ----- Frames that carry other messages

  /** How many of the frames carry a payload whose first four bits are clear. */
  function EgoFrames(items: seq<Item>): nat
    requires forall i | 0 <= i < |items| :: |items[i].payload| >= 8
  {
    if items == [] then 0 else (if ByteAt(items[0].payload, 0) < 16 then 1 else 0) + EgoFrames(items[1..])
  }

  lemma {:induction false} OneRecordPerEgoFrame(items: seq<Item>)
    requires forall i | 0 <= i < |items| :: |items[i].payload| >= 8
    ensures |Records(items)| == EgoFrames(items)
  {
    hide DecodePayload;
    if items != [] {
      DecodedBytes(items[0].payload);
      OneRecordPerEgoFrame(items[1..]);
    }
  }

  /** Of any sent frames exactly those deliver a record whose payload starts with a byte below 16. */
  lemma DeliveredCount(chunks: seq<seq<byte>>, items: seq<Item>, tail: seq<byte>)
    requires forall i | 0 <= i < |items| :: Sendable(items[i])
    requires HeaderFree(tail) && Flatten(chunks) == Wire(items, tail)
    ensures |Received(chunks)| == EgoFrames(items)
  {
    hide HeaderFree, Scan, Flatten, EgoFrames, Records;
    assert Flatten(chunks)[0..] == Flatten(chunks);
    ScanOfWire(Flatten(chunks), 0, items, tail);
    OneRecordPerEgoFrame(items);
  }

  lemma {:induction false} NoEgoFrames(items: seq<Item>)
    requires forall i | 0 <= i < |items| :: |items[i].payload| >= 8 && ByteAt(items[i].payload, 0) >= 16
    ensures EgoFrames(items) == 0
  {
    if items != [] {
      NoEgoFrames(items[1..]);
    }
  }

  /** So frames with other message ids deliver nothing. */
  lemma ForeignFramesDeliverNothing(chunks: seq<seq<byte>>, items: seq<Item>, tail: seq<byte>)
    requires forall i | 0 <= i < |items| :: Sendable(items[i]) && ByteAt(items[i].payload, 0) >= 16
    requires HeaderFree(tail) && Flatten(chunks) == Wire(items, tail)
    ensures Received(chunks) == []
  {
    hide HeaderFree, Received, Flatten, EgoFrames;
    DeliveredCount(chunks, items, tail);
    NoEgoFrames(items);
  }
}
