/** The eight bytes of every transmitted message, and what the RTOS can read back from them: above all, which
    kind of message it was, since "no candidate" and "unavailable" share a message id with real statuses.
  */
module CanWire {
  import opened Binary
  import opened CanCodec
  import opened CanBytes
  import opened Vehicles
  import opened OtherVehicles
  import opened Candidates
  import SelfVehicle
  import opened CanTx
  import opened CanTxRuns

  const TYPE_NONE := 0x00
  const TYPE_COMM_ERROR := 0x80
  const LIGHT_ID_NONE := 0x00
  const LIGHT_ID_COMM_ERROR := 0x80

  function LightPayload(status: TrafficLightStatus): nat {
    match status
    case CommError(maneuver) => TrafficLightPayload(LIGHT_ID_COMM_ERROR, 0, 0, 0, 0, maneuver)
    case NoLight(x, y, maneuver) => TrafficLightPayload(LIGHT_ID_NONE, 0, 0, x, y, maneuver)
    case Light(id, record, x, y, maneuver) => TrafficLightPayload(id, record.color, record.timeLeft, x, y, maneuver)
  }

  function Payload(m: Message, clockMs: nat, syncStatus: byte): nat {
    match m
    case NtpSync => NtpPayload(clockMs, syncStatus)
    case Intro(sel) => IntroPayload(sel.typeMask, sel.centerX, sel.centerY)
    case Status(v, typeMask) => StatusPayload(typeMask, v.speed, v.x, v.y, v.heading)
    case NoCandidate => StatusPayload(TYPE_NONE, 0, 0, 0, 0)
    case Unavailable => StatusPayload(TYPE_COMM_ERROR, 0, 0, 0, 0)
    case TrafficLight(status) => LightPayload(status)
  }

  function MessageId(m: Message): nat {
    match m
    case NtpSync => NTP_SYNC_MSG_ID
    case Intro(_) => INTRO_MSG_ID
    case Status(_, _) | NoCandidate | Unavailable => STATUS_MSG_ID
    case TrafficLight(_) => TRAFFIC_LIGHT_MSG_ID
  }

  /** Messages about a vehicle or a light carry the time of its record, the others the time `clockMs` given. */
  function Stamp(m: Message, clockMs: nat): nat {
    match m
    case Intro(sel) => sel.vehicle.timestampMs
    case Status(v, _) => v.timestampMs
    case TrafficLight(Light(_, record, _, _, _)) => record.timestampMs
    case _ => clockMs
  }

  function Encode(m: Message, clockMs: nat, syncStatus: byte): (data: seq<byte>)
    ensures |data| == 8
  {
    ToBytes(Word(MessageId(m), Stamp(m, clockMs), Payload(m, clockMs, syncStatus)), 8)
  }

  // ----- Reading a message, from its bytes alone

  datatype Reading =
    | Clock(epochMs: nat, status: nat)
    | Introduction(typeMask: nat, x: nat, y: nat)
    | NobodyThere
    | LinkDown
    | CandidateReport(typeMask: nat, speed: nat, x: nat, y: nat, heading: nat)
    | LightLinkDown(maneuver: nat)
    | NoLightAhead(x: nat, y: nat, maneuver: nat)
    | LightReport(id: nat, color: nat, timeLeft: nat, x: nat, y: nat, maneuver: nat)
    | Unknown

  /** The reading of eight bytes, from the layout of the messages alone. */
  function Read(data: seq<byte>): Reading
    requires |data| == 8
  {
    var id := ByteAt(data, 0) / 16;
    if id == 2 then
      Clock((((ByteAt(data, 2) * 256 + ByteAt(data, 3)) * 256 + ByteAt(data, 4)) * 256 + ByteAt(data, 5)) * 256
            + ByteAt(data, 6), ByteAt(data, 7))
    else if id == 4 then
      Introduction(
        ByteAt(data, 3),
        ByteAt(data, 4) * 4 + ByteAt(data, 5) / 64,
        ByteAt(data, 5) % 64 * 32 + ByteAt(data, 6) / 8)
    else if id == 5 && ByteAt(data, 2) == 0x00 then NobodyThere
    else if id == 5 && ByteAt(data, 2) == 0x80 then LinkDown
    else if id == 5 then
      CandidateReport(
        ByteAt(data, 2),
        ByteAt(data, 3),
        ByteAt(data, 4) * 4 + ByteAt(data, 5) / 64,
        ByteAt(data, 5) % 64 * 32 + ByteAt(data, 6) / 8,
        ByteAt(data, 6) % 8 * 64 + ByteAt(data, 7) / 4)
    else if id == 6 && ByteAt(data, 3) == 0x80 then LightLinkDown(ByteAt(data, 7) / 8 % 4)
    else if id == 6 then
      var x, y := ByteAt(data, 4) % 4 * 256 + ByteAt(data, 5), ByteAt(data, 6) * 8 + ByteAt(data, 7) / 32;
      if ByteAt(data, 3) == 0x00 then NoLightAhead(x, y, ByteAt(data, 7) / 8 % 4)
      else
        LightReport(
          ByteAt(data, 3), ByteAt(data, 4) / 64, ByteAt(data, 4) / 4 % 16, x, y, ByteAt(data, 7) / 8 % 4)
    else Unknown
  }

  // ----- The same in terms of the number that the bytes make up

  function ReadFields(id: nat, p: nat): Reading {
    if id == NTP_SYNC_MSG_ID then Clock(p / 256, p % 256)
    else if id == INTRO_MSG_ID then Introduction(p / TWO_32 % 256, p / 0x40_0000 % 1024, p / 0x800 % 2048)
    else if id == STATUS_MSG_ID then
      var typeMask := p / 0x100_0000_0000;
      if typeMask == TYPE_NONE then NobodyThere
      else if typeMask == TYPE_COMM_ERROR then LinkDown
      else CandidateReport(typeMask, p / TWO_32 % 256, p / 0x40_0000 % 1024, p / 0x800 % 2048, p / 4 % 512)
    else if id == TRAFFIC_LIGHT_MSG_ID then
      var lightId, x, y, maneuver := p / TWO_32 % 256, p / 0x1_0000 % 1024, p / 0x20 % 2048, p / 8 % 4;
      if lightId == LIGHT_ID_COMM_ERROR then LightLinkDown(maneuver)
      else if lightId == LIGHT_ID_NONE then NoLightAhead(x, y, maneuver)
      else LightReport(lightId, p / 0x4000_0000 % 4, p / 0x400_0000 % 16, x, y, maneuver)
    else Unknown
  }

  lemma ClockBytes(b: seq<byte>)
    requires |b| == 8
    ensures Low48(b) / 256 == Middle(b) * 256 + ByteAt(b, 6) && Low48(b) % 256 == ByteAt(b, 7)
  {
    hide Middle, ByteAt;
  }

  lemma ReadIsReadFields(b: seq<byte>)
    requires |b| == 8
    ensures Read(b) == ReadFields(FromBytes(b) / TWO_60, FromBytes(b) % TWO_48)
  {
    hide FromBytes, Low48, ByteAt;
    HighParts(b);
    VehicleFields(b);
    LightFields(b);
    ClockBytes(b);
  }

  function ReadingOfLight(status: TrafficLightStatus): Reading {
    match status
    case CommError(maneuver) => LightLinkDown(maneuver % 4)
    case NoLight(x, y, maneuver) => NoLightAhead(x % 1024, y % 2048, maneuver % 4)
    case Light(id, record, x, y, maneuver) =>
      LightReport(id, record.color % 4, record.timeLeft % 16, x % 1024, y % 2048, maneuver % 4)
  }

  /** What a message says, cut down to the widths of its fields. */
  function ReadingOf(m: Message, clockMs: nat, syncStatus: byte): Reading {
    match m
    case NtpSync => Clock(clockMs % 0x100_0000_0000, syncStatus)
    case Intro(sel) => Introduction(sel.typeMask, sel.centerX % 1024, sel.centerY % 2048)
    case Status(v, typeMask) => CandidateReport(typeMask, v.speed, v.x % 1024, v.y % 2048, v.heading % 512)
    case NoCandidate => NobodyThere
    case Unavailable => LinkDown
    case TrafficLight(status) => ReadingOfLight(status)
  }

  /** Light ids that stand for a light rather than for the lack of one. */
  predicate ProperLight(status: TrafficLightStatus) {
    status.Light? ==> status.id != LIGHT_ID_NONE && status.id != LIGHT_ID_COMM_ERROR
  }

  /** Likewise type masks that stand for a conflict rather than for the lack of a candidate. */
  predicate Proper(m: Message) {
    && (m.Status? ==> m.typeMask != TYPE_NONE && m.typeMask != TYPE_COMM_ERROR)
    && (m.TrafficLight? ==> ProperLight(m.status))
  }

  lemma ReadPayload(id: nat, stamp: nat, p: nat, n: nat)
    requires id < 16 && p < TWO_48 && n == 8
    ensures var raw := FromBytes(ToBytes(Word(id, stamp, p), n));
            raw / TWO_60 == id && raw / TWO_48 % 4096 == stamp % 4096 && raw % TWO_48 == p
  {
    hide ToBytes, FromBytes;
    assert Word(id, stamp, p) == Word(id, stamp % 4096, p);
    UnpackWord(id, stamp % 4096, p);
  }

  lemma PayloadFits(m: Message, clockMs: nat, syncStatus: byte)
    ensures Payload(m, clockMs, syncStatus) < TWO_48
  {
    hide NtpPayload, IntroPayload, StatusPayload, TrafficLightPayload;
    match m
    case NtpSync => NtpCarriesClock(clockMs, syncStatus);
    case Intro(sel) => IntroCarriesZone(sel.typeMask, sel.centerX, sel.centerY);
    case Status(v, typeMask) => StatusCarriesVehicle(typeMask, v.speed, v.x, v.y, v.heading);
    case NoCandidate => StatusCarriesVehicle(TYPE_NONE, 0, 0, 0, 0);
    case Unavailable => StatusCarriesVehicle(TYPE_COMM_ERROR, 0, 0, 0, 0);
    case TrafficLight(CommError(w)) => TrafficLightCarriesFields(LIGHT_ID_COMM_ERROR, 0, 0, 0, 0, w);
    case TrafficLight(NoLight(x, y, w)) => TrafficLightCarriesFields(LIGHT_ID_NONE, 0, 0, x, y, w);
    case TrafficLight(Light(id, record, x, y, w)) =>
      TrafficLightCarriesFields(id, record.color, record.timeLeft, x, y, w);
  }

  lemma LightReads(status: TrafficLightStatus)
    ensures ReadFields(TRAFFIC_LIGHT_MSG_ID, LightPayload(status)) == ReadingOfLight(status) <==> ProperLight(status)
  {
    hide TrafficLightPayload;
    match status
    case CommError(w) => TrafficLightCarriesFields(LIGHT_ID_COMM_ERROR, 0, 0, 0, 0, w);
    case NoLight(x, y, w) => TrafficLightCarriesFields(LIGHT_ID_NONE, 0, 0, x, y, w);
    case Light(id, record, x, y, w) => TrafficLightCarriesFields(id, record.color, record.timeLeft, x, y, w);
  }

  lemma ClockReads(clockMs: nat, syncStatus: byte)
    ensures ReadFields(NTP_SYNC_MSG_ID, NtpPayload(clockMs, syncStatus)) == Clock(clockMs % 0x100_0000_0000, syncStatus)
  {
    hide NtpPayload;
    NtpCarriesClock(clockMs, syncStatus);
  }

  lemma IntroReads(typeMask: byte, x: word, y: word)
    ensures ReadFields(INTRO_MSG_ID, IntroPayload(typeMask, x, y)) == Introduction(typeMask, x % 1024, y % 2048)
  {
    hide IntroPayload;
    IntroCarriesZone(typeMask, x, y);
  }

  lemma StatusReads(typeMask: byte, speed: byte, x: word, y: word, heading: word)
    ensures ReadFields(STATUS_MSG_ID, StatusPayload(typeMask, speed, x, y, heading))
         == if typeMask == TYPE_NONE then NobodyThere
            else if typeMask == TYPE_COMM_ERROR then LinkDown
            else CandidateReport(typeMask, speed, x % 1024, y % 2048, heading % 512)
  {
    hide StatusPayload;
    StatusCarriesVehicle(typeMask, speed, x, y, heading);
  }

  lemma FieldsRead(m: Message, clockMs: nat, syncStatus: byte)
    ensures ReadFields(MessageId(m), Payload(m, clockMs, syncStatus)) == ReadingOf(m, clockMs, syncStatus)
        <==> Proper(m)
  {
    hide ReadFields, NtpPayload, IntroPayload, StatusPayload, LightPayload, ReadingOfLight;
    match m
    case NtpSync => ClockReads(clockMs, syncStatus);
    case Intro(sel) => IntroReads(sel.typeMask, sel.centerX, sel.centerY);
    case Status(v, typeMask) => StatusReads(typeMask, v.speed, v.x, v.y, v.heading);
    case NoCandidate => StatusReads(TYPE_NONE, 0, 0, 0, 0);
    case Unavailable => StatusReads(TYPE_COMM_ERROR, 0, 0, 0, 0);
    case TrafficLight(status) => LightReads(status);
  }

  /** Reading inverts encoding, kind and fields up to their widths, iff the message does not carry the mask or id that
      stands for the lack of what it reports. */
  lemma ReadOfEncoded(m: Message, clockMs: nat, syncStatus: byte)
    ensures Read(Encode(m, clockMs, syncStatus)) == ReadingOf(m, clockMs, syncStatus) <==> Proper(m)
  {
    hide Payload, ToBytes, FromBytes, Word, Read, ReadFields, ReadingOf, Stamp, Proper;
    PayloadFits(m, clockMs, syncStatus);
    ReadPayload(MessageId(m), Stamp(m, clockMs), Payload(m, clockMs, syncStatus), 8);
    ReadIsReadFields(Encode(m, clockMs, syncStatus));
    FieldsRead(m, clockMs, syncStatus);
  }

  /** Every message carries the low twelve bits of its time in the first two bytes. */
  lemma StampOfEncoded(m: Message, clockMs: nat, syncStatus: byte)
    ensures var data := Encode(m, clockMs, syncStatus);
            ByteAt(data, 0) % 16 * 256 + ByteAt(data, 1) == Stamp(m, clockMs) % 4096
  {
    hide Payload, ToBytes, FromBytes, Word, Stamp, ByteAt;
    PayloadFits(m, clockMs, syncStatus);
    ReadPayload(MessageId(m), Stamp(m, clockMs), Payload(m, clockMs, syncStatus), 8);
    HighParts(Encode(m, clockMs, syncStatus));
  }

  /** The two maneuver bits for each turn state. */
  lemma ManeuverOfTurn(v: VehicleInfo, t: SelfVehicle.TurnState)
    requires v.turnState == SelfVehicle.TurnStateName(t)
    ensures ManeuverCode(Some(v)) == match t
                                     case Straight => 0
                                     case RightTurn => 1
                                     case UnprotectedLeft => 2
                                     case LeftTurn => 3
    ensures ManeuverCode(None) == 0
  {
    assert |RIGHT_TURN| == 10 && |LEFT_TURN| == 9 && |STRAIGHT| == 8 && |UNPROTECTED_LEFT| == 16;
  }

  // ----- Runs

  lemma ChosenMask(o: Others, self: VehicleInfo, centers: Centers)
    requires WellSized(o) && Chosen(o, self, centers).Some?
    ensures Chosen(o, self, centers).value.typeMask
         in {RIGHT_VS_STRAIGHT, RIGHT_VS_LEFT, LEFT_VS_STRAIGHT, LEFT_VS_RIGHT}
  {
    hide SharedZone, DistanceSquared;
    var others := ValidVehicles(o, MAX_OTHER_VEHICLES);
    var i := NearestIndex(self, others, centers, |others|);
  }

  /** What the loop hands out: masks of real conflicts, and lights from the table of eight. */
  predicate FromLoop(m: Message) {
    && (m.Status? ==> m.typeMask != TYPE_NONE && m.typeMask != TYPE_COMM_ERROR)
    && (m.TrafficLight? && m.status.Light? ==> m.status.id < MAX_TRAFFIC_LIGHTS)
  }

  predicate AboutLightZero(m: Message) {
    m.TrafficLight? && m.status.Light? && m.status.id == LIGHT_ID_NONE
  }

  lemma ActiveSends(s: TxState, o: Others, input: TickInput, centers: Centers)
    requires WellSized(o)
    ensures forall m | m in ActivePart(s, o, input, centers).sent :: FromLoop(m)
  {
    hide Chosen;
    if input.self.Some? && Chosen(o, input.self.value, centers).Some? {
      ChosenMask(o, input.self.value, centers);
    }
  }

  lemma LightsFromTable(input: TickInput, centers: Centers)
    ensures FromLoop(TrafficLight(LightStatus(input, centers)))
  {
    hide LightNumber, FarthestZone;
  }

  lemma TickSends(s: TxState, o: Others, input: TickInput, centers: Centers)
    requires WellSized(o)
    ensures forall m | m in Tick(s, o, input, centers).sent :: FromLoop(m)
  {
    hide ActivePart, ApplyAll, LightStatus;
    ActiveSends(Activated(NtpReset(s)), ApplyAll(o, input.before), input, centers);
    LightsFromTable(input, centers);
  }

  lemma {:induction false} RunSends(ins: seq<TickInput>, centers: Centers, n: nat)
    requires n <= |ins|
    ensures forall m | m in Log(ins, centers, n) :: FromLoop(m)
  {
    hide Tick, FromLoop;
    if n > 0 {
      RunSends(ins, centers, n - 1);
      var p := Reached(ins, centers, n - 1);
      TickSends(p.state, p.others, ins[n - 1], centers);
    }
  }

  /** Every message of every run reads as what it says, except that a report about the traffic light with id 0 never
      does. */
  lemma RunReadsBack(ins: seq<TickInput>, centers: Centers, n: nat, clockMs: nat, syncStatus: byte)
    requires n <= |ins|
    ensures forall m | m in Log(ins, centers, n) ::
              Read(Encode(m, clockMs, syncStatus)) == ReadingOf(m, clockMs, syncStatus) <==> !AboutLightZero(m)
  {
    hide Encode, Read, ReadingOf, Log;
    RunSends(ins, centers, n);
    forall m | m in Log(ins, centers, n)
      ensures Read(Encode(m, clockMs, syncStatus)) == ReadingOf(m, clockMs, syncStatus) <==> !AboutLightZero(m)
    {
      ReadOfEncoded(m, clockMs, syncStatus);
    }
  }

  lemma SameFieldsSamePayload(id: nat, color: nat, timeLeft: nat, x: nat, y: nat, color': nat, timeLeft': nat, x': nat,
      y': nat, w: nat)
    requires color % 4 == color' % 4 && timeLeft % 16 == timeLeft' % 16
    requires x % 1024 == x' % 1024 && y % 2048 == y' % 2048
    ensures TrafficLightPayload(id, color, timeLeft, x, y, w) == TrafficLightPayload(id, color', timeLeft', x', y', w)
  {
    hide Or;
  }

  /** A report about a light is, bit for bit, the message that there is none iff the light has id 0, colour 0 and no
      time left. */
  lemma LightHiddenIff(id: byte, record: LightRecord, x: word, y: word, w: byte)
    ensures LightPayload(Light(id, record, x, y, w)) == LightPayload(NoLight(x, y, w)) <==>
            id == LIGHT_ID_NONE && record.color % 4 == 0 && record.timeLeft % 16 == 0
  {
    hide TrafficLightPayload;
    TrafficLightCarriesFields(id, record.color, record.timeLeft, x, y, w);
    TrafficLightCarriesFields(LIGHT_ID_NONE, 0, 0, x, y, w);
    if record.color % 4 == 0 && record.timeLeft % 16 == 0 {
      SameFieldsSamePayload(id, record.color, record.timeLeft, x, y, 0, 0, x, y, w);
    }
  }

  /** It is the message that the link is down iff the light has id 128 and all other fields but the maneuver are
      0; no light of the table has that id. */
  lemma LightLikeLinkErrorIff(id: byte, record: LightRecord, x: word, y: word, w: byte)
    ensures LightPayload(Light(id, record, x, y, w)) == LightPayload(CommError(w)) <==>
            && id == LIGHT_ID_COMM_ERROR && record.color % 4 == 0 && record.timeLeft % 16 == 0
            && x % 1024 == 0 && y % 2048 == 0
    ensures id < MAX_TRAFFIC_LIGHTS ==> LightPayload(Light(id, record, x, y, w)) != LightPayload(CommError(w))
  {
    hide TrafficLightPayload;
    TrafficLightCarriesFields(id, record.color, record.timeLeft, x, y, w);
    TrafficLightCarriesFields(LIGHT_ID_COMM_ERROR, 0, 0, 0, 0, w);
    if record.color % 4 == 0 && record.timeLeft % 16 == 0 && x % 1024 == 0 && y % 2048 == 0 {
      SameFieldsSamePayload(id, record.color, record.timeLeft, x, y, 0, 0, 0, 0, w);
    }
  }
}
