/** The transmit loop. One tick runs every 10 ms; it keeps three timers, the activation edge, the
    vehicle last introduced to the RTOS and whether the last active tick had a candidate.
  */
module CanTx {
  import opened Binary
  import opened CanCodec
  import opened Vehicles
  import opened OtherVehicles
  import opened Candidates
  import opened Scanf

  const TICK_MS := 10
  const STATUS_PERIOD_MS := 20
  const TRAFFIC_LIGHT_PERIOD_MS := 300
  const NTP_PERIOD_MS := 100

  const MAX_TRAFFIC_LIGHTS := 8
  const INVALID_ID: byte := 0xFF

  datatype LightRecord = LightRecord(color: byte, timeLeft: byte, timestampMs: nat)

  // The traffic lights heard of over MQTT, by id.
  type LightTable = map<byte, LightRecord>

  datatype TrafficLightStatus =
    | CommError(maneuver: byte)
    | NoLight(x: word, y: word, maneuver: byte)
    | Light(id: byte, record: LightRecord, x: word, y: word, maneuver: byte)

  // Messages in the order they are handed to the device. The vehicle of an introduction is not on the wire.
  datatype Message =
    | NtpSync
    | Intro(selection: Selection)
    | Status(vehicle: VehicleInfo, typeMask: byte)
    | NoCandidate
    | Unavailable
    | TrafficLight(status: TrafficLightStatus)

  // A locked section of the MQTT thread.
  datatype MqttStep = Update(v: VehicleInfo, updateMs: nat) | Cleanup(nowMs: nat, timeoutMs: nat)

  // What one tick finds: MQTT steps since the last tick, the flags and records it reads, and the MQTT
  // steps that fall between copying the table and setting the candidate.
  datatype TickInput = TickInput(
    before: seq<MqttStep>,
    active: bool,
    connected: bool,
    self: Option<VehicleInfo>,
    during: seq<MqttStep>,
    lightConnected: bool,
    lights: LightTable)

  datatype TxState = TxState(
    lastActive: bool,
    lastHadCandidate: bool,
    lastIntroVehicleId: byte,
    statusElapsedMs: nat,
    trafficLightElapsedMs: nat,
    ntpElapsedMs: nat)

  const INITIAL := TxState(false, false, VEHICLE_ID_NONE, STATUS_PERIOD_MS, TRAFFIC_LIGHT_PERIOD_MS / 2, NTP_PERIOD_MS)

  // ----- One tick as a function

  function Apply(o: Others, step: MqttStep): (o': Others)
    requires WellSized(o)
    ensures WellSized(o')
  {
    match step
    case Update(v, now) => Updated(o, v, now)
    case Cleanup(now, timeout) => Cleaned(o, now, timeout)
  }

  function ApplyAll(o: Others, steps: seq<MqttStep>): (o': Others)
    requires WellSized(o)
    ensures WellSized(o')
  {
    if steps == [] then o else Apply(ApplyAll(o, steps[..|steps| - 1]), steps[|steps| - 1])
  }

  /** The mode and candidate part of a tick: new state, candidate slot and messages, timers not yet advanced. */
  datatype Outcome = Outcome(state: TxState, candidate: Option<VehicleInfo>, sent: seq<Message>)

  function Deactivated(s: TxState): TxState {
    s.(lastActive := false, lastHadCandidate := false, lastIntroVehicleId := VEHICLE_ID_NONE, statusElapsedMs := 0)
  }

  function Activated(s: TxState): TxState {
    if s.lastActive then s
    else TxState(true, false, VEHICLE_ID_NONE, STATUS_PERIOD_MS, TRAFFIC_LIGHT_PERIOD_MS / 2, s.ntpElapsedMs)
  }

  function StatusDue(s: TxState): bool {
    s.statusElapsedMs >= STATUS_PERIOD_MS
  }

  /** No candidate this tick: say so if a status is due or one was announced before. */
  function Lose(s: TxState, notice: Message): Outcome {
    var say := StatusDue(s) || s.lastHadCandidate;
    Outcome(
      s.(statusElapsedMs := if say then 0 else s.statusElapsedMs,
         lastIntroVehicleId := VEHICLE_ID_NONE,
         lastHadCandidate := false),
      None,
      if say then [notice] else [])
  }

  function Announce(s: TxState, sel: Selection): Outcome {
    var isNew := sel.vehicle.vehicleId != s.lastIntroVehicleId;
    var say := StatusDue(s) || isNew;
    Outcome(
      s.(statusElapsedMs := if say then 0 else s.statusElapsedMs,
         lastIntroVehicleId := sel.vehicle.vehicleId,
         lastHadCandidate := true),
      Some(sel.vehicle),
      (if isNew then [Intro(sel)] else []) + (if say then [Status(sel.vehicle, sel.typeMask)] else []))
  }

  function Chosen(o: Others, self: VehicleInfo, centers: Centers): Option<Selection>
    requires WellSized(o)
  {
    var others := ValidVehicles(o, MAX_OTHER_VEHICLES);
    Select(self, others, centers, |others|)
  }

  function ActivePart(s: TxState, o: Others, input: TickInput, centers: Centers): Outcome
    requires WellSized(o)
  {
    if !input.connected then Lose(s, Unavailable)
    else if input.self.None? then Lose(s, NoCandidate)
    else
      match Chosen(o, input.self.value, centers)
      case Some(sel) => Announce(s, sel)
      case None => Lose(s, NoCandidate)
  }

  function Mode(s: TxState, o: Others, candidate: Option<VehicleInfo>, input: TickInput, centers: Centers): Outcome
    requires WellSized(o)
  {
    if input.active then ActivePart(Activated(s), o, input, centers)
    else if s.lastActive then Outcome(Deactivated(s), None, [NoCandidate])
    else Outcome(s, candidate, [])
  }

  function ManeuverCode(self: Option<VehicleInfo>): byte {
    if self.None? then 0
    else if self.value.turnState == RIGHT_TURN then 1
    else if self.value.turnState == UNPROTECTED_LEFT then 2
    else if self.value.turnState == LEFT_TURN then 3
    else 0
  }

  /** The id in a traffic light's name: TL and a number. A name without a number stands for id 0. */
  function LightNumber(name: string): byte {
    if |name| < 2 || name[0] != 'T' || name[1] != 'L' then INVALID_ID
    else
      var value := StrToL(name[2..]);
      if 0 <= value <= 255 then value else INVALID_ID
  }

  /** The light that our lane is linked to, if it has been heard of. */
  function LinkedLight(self: VehicleInfo, lights: LightTable): Option<(byte, LightRecord)> {
    var id := LightNumber(self.linkedTlId);
    if id < MAX_TRAFFIC_LIGHTS && id in lights then Some((id, lights[id])) else None
  }

  function LightStatus(input: TickInput, centers: Centers): TrafficLightStatus {
    var maneuver := ManeuverCode(input.self);
    if !input.lightConnected then CommError(maneuver)
    else if input.self.None? then NoLight(0, 0, maneuver)
    else
      var self := input.self.value;
      var zone := FarthestZone(self, centers, |Zones(self)|);
      var (x, y) := if zone.Some? then zone.value else (0, 0);
      match LinkedLight(self, input.lights)
      case None => NoLight(x, y, maneuver)
      case Some((id, record)) => Light(id, record, x, y, maneuver)
  }

  function LightDue(s: TxState): bool {
    s.trafficLightElapsedMs >= TRAFFIC_LIGHT_PERIOD_MS
  }

  /** A 32-bit timer after one more tick. */
  function Tick32(elapsed: nat): nat {
    (elapsed + TICK_MS) % TWO_32
  }

  function NtpReset(s: TxState): TxState {
    if s.ntpElapsedMs >= NTP_PERIOD_MS then s.(ntpElapsedMs := 0) else s
  }

  function NtpMessages(s: TxState): seq<Message> {
    if s.ntpElapsedMs >= NTP_PERIOD_MS then [NtpSync] else []
  }

  function LightMessages(s: TxState, input: TickInput, centers: Centers): seq<Message> {
    if LightDue(s) then [TrafficLight(LightStatus(input, centers))] else []
  }

  /** The timers at the end of the tick. */
  function Advanced(s: TxState): TxState {
    s.(statusElapsedMs := Tick32(s.statusElapsedMs),
       trafficLightElapsedMs := Tick32(if LightDue(s) then 0 else s.trafficLightElapsedMs),
       ntpElapsedMs := Tick32(s.ntpElapsedMs))
  }

  datatype TickResult = TickResult(state: TxState, others: Others, sent: seq<Message>)

  function Tick(s: TxState, o: Others, input: TickInput, centers: Centers): (r: TickResult)
    requires WellSized(o)
    ensures WellSized(r.others)
  {
    var s1 := NtpReset(s);
    var o1 := ApplyAll(o, input.before);
    var o2 := ApplyAll(o1, input.during);
    var mode := Mode(s1, o1, o2.candidate, input, centers);
    TickResult(
      Advanced(mode.state),
      o2.(candidate := mode.candidate),
      NtpMessages(s) + mode.sent + LightMessages(mode.state, input, centers))
  }

  // ----- The loop body

  class TxThread {
    const others: OtherVehicleManager
    const centers: Centers
    var lastActive: bool
    var lastHadCandidate: bool
    var lastIntroVehicleId: byte
    var candidateStatusElapsedMs: nat
    var trafficLightElapsedMs: nat
    var ntpSyncElapsedMs: nat
    // Everything sent so far.
    var log: seq<Message>

    ghost function State(): TxState
      reads this
    {
      TxState(
        lastActive, lastHadCandidate, lastIntroVehicleId,
        candidateStatusElapsedMs, trafficLightElapsedMs, ntpSyncElapsedMs)
    }

    constructor (others: OtherVehicleManager, centers: Centers)
      ensures this.others == others && this.centers == centers
      ensures State() == INITIAL && log == []
    {
      this.others := others;
      this.centers := centers;
      lastActive := false;
      lastHadCandidate := false;
      lastIntroVehicleId := VEHICLE_ID_NONE;
      candidateStatusElapsedMs := STATUS_PERIOD_MS;
      trafficLightElapsedMs := TRAFFIC_LIGHT_PERIOD_MS / 2;
      ntpSyncElapsedMs := NTP_PERIOD_MS;
      log := [];
    }

    method RunMqttSteps(steps: seq<MqttStep>)
      requires others.Valid()
      modifies others, others.table, others.valid, others.lastUpdatedMs
      ensures others.State() == ApplyAll(old(others.State()), steps)
    {
      for i := 0 to |steps|
        invariant others.State() == ApplyAll(old(others.State()), steps[..i])
      {
        assert steps[..i + 1][..i] == steps[..i];
        match steps[i]
        case Update(v, now) => others.Update(v, now);
        case Cleanup(now, timeout) => others.CleanupStale(now, timeout);
      }
      assert steps[..|steps|] == steps;
    }

    method Send(m: Message)
      modifies this`log
      ensures log == old(log) + [m]
    {
      log := log + [m];
    }

    /** Candidate mode ended: clear the slot and tell the RTOS once. */
    method EndCandidateMode()
      requires others.Valid()
      modifies this, others
      ensures State() == Deactivated(old(State())) && log == old(log) + [NoCandidate]
      ensures others.State() == old(others.State()).(candidate := None)
    {
      others.SetCandidate(None);
      Send(NoCandidate);
      lastActive := false;
      lastHadCandidate := false;
      lastIntroVehicleId := VEHICLE_ID_NONE;
      candidateStatusElapsedMs := 0;
    }

    method LoseCandidate(notice: Message, statusDue: bool)
      requires others.Valid() && statusDue == StatusDue(State())
      modifies this, others
      ensures var out := Lose(old(State()), notice); State() == out.state && log == old(log) + out.sent
      ensures others.State() == old(others.State()).(candidate := None)
    {
      others.SetCandidate(None);
      if statusDue || lastHadCandidate {
        Send(notice);
        candidateStatusElapsedMs := 0;
      }
      lastIntroVehicleId := VEHICLE_ID_NONE;
      lastHadCandidate := false;
    }

    method AnnounceCandidate(sel: Selection, statusDue: bool)
      requires others.Valid() && statusDue == StatusDue(State())
      modifies this, others
      ensures var out := Announce(old(State()), sel); State() == out.state && log == old(log) + out.sent
      ensures others.State() == old(others.State()).(candidate := Some(sel.vehicle))
    {
      others.SetCandidate(Some(sel.vehicle));
      var due := statusDue;
      if sel.vehicle.vehicleId != lastIntroVehicleId {
        Send(Intro(sel));
        lastIntroVehicleId := sel.vehicle.vehicleId;
        due := true;
      }
      if due {
        Send(Status(sel.vehicle, sel.typeMask));
        candidateStatusElapsedMs := 0;
      }
      lastHadCandidate := true;
    }

    method SendCandidateTrafficLight(input: TickInput)
      modifies this`log
      ensures log == old(log) + [TrafficLight(LightStatus(input, centers))]
    {
      var maneuver := ManeuverCode(input.self);
      if !input.lightConnected {
        Send(TrafficLight(CommError(maneuver)));
        return;
      }
      if input.self.None? {
        Send(TrafficLight(NoLight(0, 0, maneuver)));
        return;
      }
      var zone := SelectFarthestZoneCenter(input.self.value, centers);
      var (x, y) := if zone.Some? then zone.value else (0, 0);
      var id := LightNumber(input.self.value.linkedTlId);
      if id < MAX_TRAFFIC_LIGHTS && id in input.lights {
        Send(TrafficLight(Light(id, input.lights[id], x, y, maneuver)));
      } else {
        Send(TrafficLight(NoLight(x, y, maneuver)));
      }
    }

    method StartCandidateMode()
      requires !lastActive
      modifies this
      ensures State() == Activated(old(State())) && log == old(log)
    {
      lastActive := true;
      lastHadCandidate := false;
      lastIntroVehicleId := VEHICLE_ID_NONE;
      candidateStatusElapsedMs := STATUS_PERIOD_MS;
      trafficLightElapsedMs := TRAFFIC_LIGHT_PERIOD_MS / 2;
    }

    /** Choose, introduce, report. The table is copied before, and the slot set after, the MQTT steps in between. */
    method CandidatePart(input: TickInput, statusDue: bool)
      requires others.Valid() && statusDue == StatusDue(State())
      modifies this, others, others.table, others.valid, others.lastUpdatedMs
      ensures var o := old(others.State());
              var out := ActivePart(old(State()), o, input, centers);
              && State() == out.state && log == old(log) + out.sent
              && others.State() == ApplyAll(o, input.during).(candidate := out.candidate)
    {
      hide Select, ApplyAll;
      if !input.connected {
        RunMqttSteps(input.during);
        LoseCandidate(Unavailable, statusDue);
      } else if input.self.Some? {
        var copied := others.CopyValid(MAX_OTHER_VEHICLES);
        var selection := SelectCandidateVehicle(input.self.value, copied, centers);
        RunMqttSteps(input.during);
        if selection.Some? {
          AnnounceCandidate(selection.value, statusDue);
        } else {
          LoseCandidate(NoCandidate, statusDue);
        }
      } else {
        RunMqttSteps(input.during);
        LoseCandidate(NoCandidate, statusDue);
      }
    }

    method ActiveTick(input: TickInput) returns (lightDue: bool)
      requires others.Valid() && input.active
      modifies this, others, others.table, others.valid, others.lastUpdatedMs
      ensures var o := old(others.State());
              var after := ApplyAll(o, input.during);
              var out := Mode(old(State()), o, after.candidate, input, centers);
              && State() == out.state && log == old(log) + out.sent && lightDue == LightDue(Activated(old(State())))
              && others.State() == after.(candidate := out.candidate)
    {
      hide ActivePart, ApplyAll;
      var statusDue := candidateStatusElapsedMs >= STATUS_PERIOD_MS;
      lightDue := trafficLightElapsedMs >= TRAFFIC_LIGHT_PERIOD_MS;
      if !lastActive {
        StartCandidateMode();
        statusDue := true;
        lightDue := false;
      }
      CandidatePart(input, statusDue);
    }

    method InactiveTick(input: TickInput)
      requires others.Valid() && !input.active
      modifies this, others, others.table, others.valid, others.lastUpdatedMs
      ensures var o := old(others.State());
              var after := ApplyAll(o, input.during);
              var out := Mode(old(State()), o, after.candidate, input, centers);
              && State() == out.state && log == old(log) + out.sent
                  && trafficLightElapsedMs == old(trafficLightElapsedMs)
              && others.State() == after.(candidate := out.candidate)
    {
      RunMqttSteps(input.during);
      if lastActive {
        EndCandidateMode();
      }
    }

    method SendNtpWhenDue()
      modifies this
      ensures State() == NtpReset(old(State())) && log == old(log) + NtpMessages(old(State()))
    {
      if ntpSyncElapsedMs >= NTP_PERIOD_MS {
        Send(NtpSync);
        ntpSyncElapsedMs := 0;
      }
    }

    method FinishTick(input: TickInput, lightDue: bool)
      requires lightDue == LightDue(State())
      modifies this
      ensures State() == Advanced(old(State())) && log == old(log) + LightMessages(old(State()), input, centers)
    {
      hide LightStatus;
      if lightDue {
        SendCandidateTrafficLight(input);
        trafficLightElapsedMs := 0;
      }
      candidateStatusElapsedMs := Tick32(candidateStatusElapsedMs);
      trafficLightElapsedMs := Tick32(trafficLightElapsedMs);
      ntpSyncElapsedMs := Tick32(ntpSyncElapsedMs);
    }

    /** One iteration of the loop. */
    method RunTick(input: TickInput)
      requires others.Valid()
      modifies this, others, others.table, others.valid, others.lastUpdatedMs
      ensures var r := Tick(old(State()), old(others.State()), input, centers);
              State() == r.state && others.State() == r.others && log == old(log) + r.sent
    {
      hide Mode, ApplyAll, NtpReset, NtpMessages, LightMessages, Advanced, LightDue;
      RunMqttSteps(input.before);
      SendNtpWhenDue();
      ghost var s, o, after := State(), others.State(), ApplyAll(others.State(), input.during);
      ghost var mode := Mode(s, o, after.candidate, input, centers);
      LightTimerKept(s, o, after.candidate, input, centers);
      var lightDue := trafficLightElapsedMs >= TRAFFIC_LIGHT_PERIOD_MS;
      if !input.active {
        InactiveTick(input);
      } else {
        lightDue := ActiveTick(input);
      }
      FinishTick(input, lightDue);
      InOrder(old(log), NtpMessages(old(State())), mode.sent, LightMessages(mode.state, input, centers));
    }
  }

  lemma InOrder(log: seq<Message>, a: seq<Message>, b: seq<Message>, c: seq<Message>)
    ensures log + a + b + c == log + (a + b + c)
  {
  }

  /** Only an activation touches the traffic-light timer before the traffic-light part of the tick. */
  lemma LightTimerKept(s: TxState, o: Others, candidate: Option<VehicleInfo>, input: TickInput, centers: Centers)
    requires WellSized(o)
    ensures LightDue(Mode(s, o, candidate, input, centers).state) 
        == if input.active then LightDue(Activated(s)) else LightDue(s)
    ensures LightDue(s) == (s.trafficLightElapsedMs >= TRAFFIC_LIGHT_PERIOD_MS)
  {
    hide Select;
  }

  /** Printed light numbers are read back, leading zeros or not; a name without a number reads as id 0. */
  lemma LightNumberOfName(n: byte, w: nat, rest: string)
    requires w >= 1 && n < Pow10(w)
    requires rest == "" || !(IsDigit(rest[0]) || IsSpace(rest[0]) || rest[0] == '+' || rest[0] == '-')
    ensures LightNumber("TL" + Digits(n, w)) == n
    ensures LightNumber("TL" + rest) == 0
  {
    hide Digits, Pow10, StrToL;
    assert ("TL" + Digits(n, w))[2..] == Digits(n, w) && ("TL" + rest)[2..] == rest;
    StrToLOfDigits(n, w);
    StrToLWithoutDigits(rest);
  }

  /** Numbers above 255 and names of another form stand for no light. */
  lemma LightNumberRefused(n: nat, w: nat, name: string)
    requires w >= 1 && n < Pow10(w)
    ensures LightNumber("TL" + Digits(n, w)) == if n <= 255 then n else 255
    ensures n > 0 ==> LightNumber("TL-" + Digits(n, w)) == 255
    ensures !("TL" <= name) ==> LightNumber(name) == 255
  {
    hide Digits, Pow10, StrToL;
    assert ("TL" + Digits(n, w))[2..] == Digits(n, w) && ("TL-" + Digits(n, w))[2..] == "-" + Digits(n, w);
    StrToLOfDigits(n, w);
    StrToLOfNegative(n, w);
    if |name| >= 2 && name[0] == 'T' && name[1] == 'L' {
      assert name[..2] == "TL";
    }
  }
}
