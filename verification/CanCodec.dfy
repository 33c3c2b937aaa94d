/** The 64-bit CAN payload: a 4-bit message id, a 12-bit timestamp and 48 bits of fields, packed most
    significant byte first.
  */
module CanCodec {
  import opened Binary

  const TWO_31 := 0x8000_0000
  const TWO_32 := 0x1_0000_0000
  const TWO_48 := 0x1_0000_0000_0000
  const TWO_60 := 0x1000_0000_0000_0000
  const TWO_64 := 0x1_0000_0000_0000_0000

  const EGO_MSG_ID := 0x0
  const NTP_SYNC_MSG_ID := 0x2
  const INTRO_MSG_ID := 0x4
  const STATUS_MSG_ID := 0x5
  const TRAFFIC_LIGHT_MSG_ID := 0x6

  datatype Option<+T> = None | Some(value: T)

  datatype EgoVehicle = EgoVehicle(x: nat, y: nat, speed: nat, heading: nat, turnSignal: nat, timestamp: nat)

  predicate EgoInRange(ego: EgoVehicle) {
    && ego.x < 1024 && ego.y < 2048 && ego.speed < 256
    && ego.heading < 512 && ego.turnSignal < 4 && ego.timestamp < 4096
  }

  // ----- Bytes

  /** A big-endian byte string as a number. */
  function FromBytes(data: seq<byte>): nat {
    if data == [] then 0 else FromBytes(data[..|data| - 1]) * 256 + data[|data| - 1]
  }

  /** The `n` low bytes of a number, most significant first. */
  function ToBytes(raw: nat, n: nat): (r: seq<byte>)
    ensures |r| == n
  {
    if n == 0 then [] else ToBytes(raw / 256, n - 1) + [raw % 256]
  }

  lemma {:induction false} FromToBytes(raw: nat, n: nat)
    requires raw < Pow2(8 * n)
    ensures FromBytes(ToBytes(raw, n)) == raw
  {
    if n > 0 {
      Pow2Sum(8 * (n - 1), 8);
      SmallPowers();
      FromToBytes(raw / 256, n - 1);
      assert ToBytes(raw, n)[..n - 1] == ToBytes(raw / 256, n - 1);
    }
  }

  lemma {:induction false} FromBytesBound(data: seq<byte>)
    ensures FromBytes(data) < Pow2(8 * |data|)
  {
    if data != [] {
      Pow2Sum(8 * (|data| - 1), 8);
      SmallPowers();
      FromBytesBound(data[..|data| - 1]);
    }
  }

  // ----- Packing

  /** The 64-bit word of a message: three fields side by side. */
  function Word(messageId: nat, timestamp: nat, payload48: nat): nat {
    messageId % 16 * TWO_60 + timestamp % 4096 * TWO_48 + payload48 % TWO_48
  }

  method PackCanData(messageId: byte, timestamp: word, payload48: nat, out8: array<byte>)
    requires out8.Length == 8
    modifies out8
    ensures out8[..] == ToBytes(Word(messageId, timestamp, payload48), 8)
  {
    var raw := Or(Or(messageId % 16 * TWO_60, timestamp % 4096 * TWO_48), payload48 % TWO_48);
    WordByOr(messageId, timestamp, payload48);
    ghost var whole := raw;
    var i := 7;
    while i >= 0
      invariant -1 <= i <= 7
      invariant ToBytes(whole, 8) == ToBytes(raw, i + 1) + out8[i + 1..]
      decreases i
    {
      ghost var before := raw;
      out8[i] := raw % 256;
      raw := raw / 256;
      assert ToBytes(before, i + 1) == ToBytes(raw, i) + [out8[i]];
      assert out8[i..] == [out8[i]] + out8[i + 1..];
      i := i - 1;
    }
    assert out8[0..] == out8[..];
  }

  lemma PowersOfTwo()
    ensures Pow2(12) == 4096 && Pow2(48) == TWO_48 && Pow2(60) == TWO_60 && Pow2(64) == TWO_64
  {
    hide Pow2;
    SmallPowers();
    Pow2Sum(8, 4);
    Pow2Sum(16, 16);
    Pow2Sum(32, 16);
    Pow2Sum(48, 12);
    Pow2Sum(60, 4);
  }

  lemma WordByOr(messageId: nat, timestamp: nat, payload48: nat)
    ensures Or(Or(messageId % 16 * TWO_60, timestamp % 4096 * TWO_48), payload48 % TWO_48)
        == Word(messageId, timestamp, payload48)
  {
    hide Or, Pow2;
    PowersOfTwo();
    OrOfFields(messageId % 16, 60, timestamp % 4096 * TWO_48);
    OrOfFields(messageId % 16 * 4096 + timestamp % 4096, 48, payload48 % TWO_48);
  }

  // ----- Decoding

  /** The ego fields of a 64-bit word, unless its message id is another message's. */
  function DecodeWord(raw: nat): Option<EgoVehicle> {
    if raw / TWO_60 % 16 != EGO_MSG_ID then None
    else
      var payload48 := raw % TWO_48;
      Some(EgoVehicle(
        payload48 / 0x40_0000 % 1024,
        payload48 / 0x800 % 2048,
        payload48 / TWO_32 % 256,
        payload48 / 4 % 512,
        payload48 % 4,
        raw / TWO_48 % 4096))
  }

  function DecodePayload(data: seq<byte>): Option<EgoVehicle> {
    if |data| < 8 then None else DecodeWord(FromBytes(data[..8]))
  }

  method DecodeCanPayload(data: seq<byte>) returns (ego: Option<EgoVehicle>)
    ensures ego == DecodePayload(data)
  {
    if |data| < 8 {
      return None;
    }
    var raw := 0;
    for i := 0 to 8
      invariant raw == FromBytes(data[..i]) < Pow2(8 * i)
    {
      ghost var high := raw;
      raw := Or(raw * 256 % TWO_64, data[i]);
      ShiftIn(high, data[i], i);
      assert data[..i + 1][..i] == data[..i];
    }
    ego := DecodeWord(raw);
  }

  lemma ShiftIn(high: nat, low: byte, i: nat)
    requires high < Pow2(8 * i) && i < 8
    ensures Or(high * 256 % TWO_64, low) == high * 256 + low < Pow2(8 * (i + 1))
  {
    hide Or, Pow2;
    SmallPowers();
    PowersOfTwo();
    Pow2Sum(8 * i, 8);
    Pow2Sum(8 * i + 8, 8 * (7 - i));
    OrOfFields(high, 8, low);
  }

  lemma WordFields(messageId: nat, timestamp: nat, payload48: nat)
    requires messageId < 16 && timestamp < 4096 && payload48 < TWO_48
    ensures var raw := Word(messageId, timestamp, payload48);
            raw / TWO_60 == messageId && raw / TWO_48 % 4096 == timestamp && raw % TWO_48 == payload48 && raw < TWO_64
  {
    var raw := Word(messageId, timestamp, payload48);
    assert raw == (messageId * 4096 + timestamp) * TWO_48 + payload48;
    assert raw / TWO_48 == messageId * 4096 + timestamp;
  }

  // ----- Message payloads

  /** Candidate status: type mask, then speed, x, y and heading where an ego record keeps them. */
  function StatusPayload(typeMask: nat, speed: nat, x: nat, y: nat, heading: nat): nat {
    Or(Or(Or(Or(typeMask % 256 * 0x100_0000_0000, speed % 256 * TWO_32), x % 1024 * 0x40_0000), y % 2048 * 0x800),
       heading % 512 * 4)
  }

  /** Candidate introduction: type mask and the conflict zone's centre. */
  function IntroPayload(typeMask: nat, zoneX: nat, zoneY: nat): nat {
    Or(Or(typeMask % 256 * TWO_32, zoneX % 1024 * 0x40_0000), zoneY % 2048 * 0x800)
  }

  /** Traffic light: id, colour, time left, zone centre and the maneuver ahead. */
  function TrafficLightPayload(id: nat, color: nat, timeLeft: nat, zoneX: nat, zoneY: nat, maneuver: nat): nat {
    Or(Or(Or(Or(Or(id % 256 * TWO_32, color % 4 * 0x4000_0000), timeLeft % 16 * 0x400_0000),
             zoneX % 1024 * 0x1_0000),
          zoneY % 2048 * 0x20),
       maneuver % 4 * 8)
  }

  /** Clock synchronisation: 40 bits of epoch milliseconds above the synchronisation state. */
  function NtpPayload(epochMs: nat, status: nat): nat {
    Or(epochMs % 0x100_0000_0000 * 256, status)
  }

  lemma FieldPowers()
    ensures Pow2(5) == 0x20 && Pow2(11) == 0x800 && Pow2(16) == 0x1_0000 && Pow2(22) == 0x40_0000
    ensures Pow2(26) == 0x400_0000 && Pow2(30) == 0x4000_0000 && Pow2(32) == TWO_32 && Pow2(40) == 0x100_0000_0000
  {
    hide Pow2;
    SmallPowers();
    Pow2Sum(8, 3);
    Pow2Sum(11, 11);
    Pow2Sum(22, 4);
    Pow2Sum(15, 15);
    Pow2Sum(16, 16);
    Pow2Sum(32, 8);
  }

  lemma StatusSum(t: nat, v: nat, x: nat, y: nat, h: nat)
    requires v < 256 && x < 1024 && y < 2048 && h < 512
    ensures Or(Or(Or(Or(t * 0x100_0000_0000, v * TWO_32), x * 0x40_0000), y * 0x800), h * 4)
         == t * 0x100_0000_0000 + v * TWO_32 + x * 0x40_0000 + y * 0x800 + h * 4
  {
    hide Or, Pow2;
    FieldPowers();
    OrOfFields(t, 40, v * TWO_32);
    OrOfFields(t * 256 + v, 32, x * 0x40_0000);
    OrOfFields((t * 256 + v) * 1024 + x, 22, y * 0x800);
    OrOfFields(((t * 256 + v) * 1024 + x) * 2048 + y, 11, h * 4);
  }

  lemma IntroSum(t: nat, x: nat, y: nat)
    requires x < 1024 && y < 2048
    ensures Or(Or(t * TWO_32, x * 0x40_0000), y * 0x800) == t * TWO_32 + x * 0x40_0000 + y * 0x800
  {
    hide Or, Pow2;
    FieldPowers();
    OrOfFields(t, 32, x * 0x40_0000);
    OrOfFields(t * 1024 + x, 22, y * 0x800);
  }

  lemma TrafficLightSum(i: nat, c: nat, t: nat, x: nat, y: nat, m: nat)
    requires c < 4 && t < 16 && x < 1024 && y < 2048 && m < 4
    ensures Or(Or(Or(Or(Or(i * TWO_32, c * 0x4000_0000), t * 0x400_0000), x * 0x1_0000), y * 0x20), m * 8)
         == i * TWO_32 + c * 0x4000_0000 + t * 0x400_0000 + x * 0x1_0000 + y * 0x20 + m * 8
  {
    hide Or, Pow2;
    FieldPowers();
    OrOfFields(i, 32, c * 0x4000_0000);
    OrOfFields(i * 4 + c, 30, t * 0x400_0000);
    OrOfFields((i * 4 + c) * 16 + t, 26, x * 0x1_0000);
    OrOfFields(((i * 4 + c) * 16 + t) * 1024 + x, 16, y * 0x20);
    OrOfFields((((i * 4 + c) * 16 + t) * 1024 + x) * 2048 + y, 5, m * 8);
  }

  lemma HeadingAndSignal(high: nat, h: nat, s: nat, p: nat)
    requires h < 512 && s < 4 && p == (high * 512 + h) * 4 + s
    ensures p % 4 == s && p / 4 % 512 == h && p / 0x800 == high
  {
    assert p / 4 == high * 512 + h;
  }

  lemma SpeedAndPosition(v: nat, x: nat, y: nat, high: nat)
    requires x < 1024 && y < 2048 && high == (v * 1024 + x) * 2048 + y
    ensures high % 2048 == y && high / 2048 % 1024 == x && high / 2048 / 1024 == v
  {
    assert high / 2048 == v * 1024 + x;
  }

  lemma NestedPosition(p: nat)
    ensures p / 0x40_0000 == p / 0x800 / 2048 && p / TWO_32 == p / 0x40_0000 / 1024
  {
  }

  lemma EgoFields(v: nat, x: nat, y: nat, h: nat, s: nat, p: nat)
    requires x < 1024 && y < 2048 && h < 512 && s < 4
    requires p == v * TWO_32 + x * 0x40_0000 + y * 0x800 + h * 4 + s
    ensures p % 4 == s && p / 4 % 512 == h && p / 0x800 % 2048 == y && p / 0x40_0000 % 1024 == x && p / TWO_32 == v
  {
    var high := (v * 1024 + x) * 2048 + y;
    HeadingAndSignal(high, h, s, p);
    SpeedAndPosition(v, x, y, high);
    NestedPosition(p);
  }

  /** Ego records use the status layout, with the turn signal in the last two bits and nothing above the speed. */
  function EgoPayload(ego: EgoVehicle): nat {
    ego.speed * TWO_32 + ego.x * 0x40_0000 + ego.y * 0x800 + ego.heading * 4 + ego.turnSignal
  }

  /** Decoding inverts packing for every record in range. */
  lemma DecodeOfPacked(ego: EgoVehicle)
    requires EgoInRange(ego)
    ensures DecodePayload(ToBytes(Word(EGO_MSG_ID, ego.timestamp, EgoPayload(ego)), 8)) == Some(ego)
  {
    hide Pow2, ToBytes, FromBytes, Word;
    var p := EgoPayload(ego);
    EgoFields(ego.speed, ego.x, ego.y, ego.heading, ego.turnSignal, p);
    UnpackWord(EGO_MSG_ID, ego.timestamp, p);
  }

  /** Packing then reading back the eight bytes gives every field of the word again. */
  lemma UnpackWord(messageId: nat, timestamp: nat, payload48: nat)
    requires messageId < 16 && timestamp < 4096 && payload48 < TWO_48
    ensures var data := ToBytes(Word(messageId, timestamp, payload48), 8);
            var raw := FromBytes(data);
            data[..8] == data && raw / TWO_60 == messageId && raw / TWO_48 % 4096 == timestamp
                && raw % TWO_48 == payload48
  {
    hide Pow2, ToBytes, FromBytes, Word;
    WordFields(messageId, timestamp, payload48);
    PowersOfTwo();
    FromToBytes(Word(messageId, timestamp, payload48), 8);
  }

  /** A candidate status read with the ego decoder's shifts shows the vehicle's own low bits, with the type mask above
      them. */
  lemma StatusCarriesVehicle(typeMask: nat, speed: nat, x: nat, y: nat, heading: nat)
    ensures var p := StatusPayload(typeMask, speed, x, y, heading);
            && p < TWO_48 && p / 0x100_0000_0000 == typeMask % 256 && p / TWO_32 % 256 == speed % 256
            && p / 0x40_0000 % 1024 == x % 1024 && p / 0x800 % 2048 == y % 2048 && p / 4 % 512 == heading % 512
                && p % 4 == 0
  {
    hide Or;
    var p := StatusPayload(typeMask, speed, x, y, heading);
    StatusSum(typeMask % 256, speed % 256, x % 1024, y % 2048, heading % 512);
    EgoFields(typeMask % 256 * 256 + speed % 256, x % 1024, y % 2048, heading % 512, 0, p);
  }

  /** No two fields of an introduction overlap. */
  lemma IntroCarriesZone(typeMask: nat, zoneX: nat, zoneY: nat)
    ensures var p := IntroPayload(typeMask, zoneX, zoneY);
            p / TWO_32 == typeMask % 256 && p / 0x40_0000 % 1024 == zoneX % 1024 && p / 0x800 % 2048 == zoneY % 2048
                && p % 0x800 == 0
  {
    hide Or;
    IntroSum(typeMask % 256, zoneX % 1024, zoneY % 2048);
    EgoFields(typeMask % 256, zoneX % 1024, zoneY % 2048, 0, 0, IntroPayload(typeMask, zoneX, zoneY));
  }

  /** No two fields of a traffic-light message overlap. */
  lemma TrafficLightCarriesFields(id: nat, color: nat, timeLeft: nat, zoneX: nat, zoneY: nat, maneuver: nat)
    ensures var p := TrafficLightPayload(id, color, timeLeft, zoneX, zoneY, maneuver);
            && p / TWO_32 == id % 256 && p / 0x4000_0000 % 4 == color % 4 && p / 0x400_0000 % 16 == timeLeft % 16
            && p / 0x1_0000 % 1024 == zoneX % 1024 && p / 0x20 % 2048 == zoneY % 2048 && p / 8 % 4 == maneuver % 4
                && p % 8 == 0
  {
    hide Or;
    var i, c, t, x, y, m := id % 256, color % 4, timeLeft % 16, zoneX % 1024, zoneY % 2048, maneuver % 4;
    TrafficLightSum(i, c, t, x, y, m);
    var p := TrafficLightPayload(id, color, timeLeft, zoneX, zoneY, maneuver);
    var high := (i * 4 + c) * 16 + t;
    var z := (high * 1024 + x) * 2048 + y;
    LowTrafficLightFields(z, m, p);
    NestedDivision(p);
    DeeperDivision(p);
    ZoneFields(high, x, y, z);
    HighTrafficLightFields(i, c, t, p);
  }

  lemma NestedDivision(p: nat)
    ensures p / 0x1_0000 == p / 0x20 / 2048
  {
  }

  lemma DeeperDivision(p: nat)
    ensures p / 0x400_0000 == p / 0x1_0000 / 1024
  {
  }

  lemma LowTrafficLightFields(z: nat, m: nat, p: nat)
    requires m < 4 && p == z * 32 + m * 8
    ensures p % 8 == 0 && p / 8 % 4 == m && p / 0x20 == z
  {
  }

  lemma ZoneFields(high: nat, x: nat, y: nat, z: nat)
    requires x < 1024 && y < 2048 && z == (high * 1024 + x) * 2048 + y
    ensures z % 2048 == y && z / 2048 % 1024 == x && z / 2048 / 1024 == high
  {
  }

  lemma HighTrafficLightFields(i: nat, c: nat, t: nat, p: nat)
    requires c < 4 && t < 16 && p / 0x400_0000 == (i * 4 + c) * 16 + t
    ensures p / 0x400_0000 % 16 == t && p / 0x4000_0000 % 4 == c && p / TWO_32 == i
  {
    assert p / 0x4000_0000 == i * 4 + c;
  }

  /** The synchronisation message's own timestamp is the low 12 bits of the epoch it carries. */
  lemma NtpCarriesClock(epochMs: nat, status: byte)
    ensures var p := NtpPayload(epochMs, status);
            p < TWO_48 && p / 256 == epochMs % 0x100_0000_0000 && p % 256 == status && p / 256 % 4096 == epochMs % 4096
  {
    hide Or, Pow2;
    SmallPowers();
    OrOfFields(epochMs % 0x100_0000_0000, 8, status);
  }
}
