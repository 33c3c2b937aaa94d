/** Whole runs of the transmit loop, from start-up, under any inputs and any MQTT steps between and inside
    the ticks: the candidate protocol the RTOS sees, and the exact schedule of every message.
  */
module CanTxRuns {
  import opened Binary
  import opened CanCodec
  import opened Vehicles
  import opened OtherVehicles
  import opened Candidates
  import opened CanTx

  // ----- Runs

  datatype Point = Point(state: TxState, others: Others)

  /** Where the loop is after the first `n` ticks. */
  function Reached(ins: seq<TickInput>, centers: Centers, n: nat): (p: Point)
    requires n <= |ins|
    ensures WellSized(p.others)
  {
    if n == 0 then Point(INITIAL, Empty())
    else
      var p := Reached(ins, centers, n - 1);
      var r := Tick(p.state, p.others, ins[n - 1], centers);
      Point(r.state, r.others)
  }

  /** The messages of tick `n`. */
  function Sent(ins: seq<TickInput>, centers: Centers, n: nat): seq<Message>
    requires n < |ins|
  {
    var p := Reached(ins, centers, n);
    Tick(p.state, p.others, ins[n], centers).sent
  }

  /** The messages of the first `n` ticks. */
  function Log(ins: seq<TickInput>, centers: Centers, n: nat): seq<Message>
    requires n <= |ins|
  {
    if n == 0 then [] else Log(ins, centers, n - 1) + Sent(ins, centers, n - 1)
  }

  /** The thread's loop, for as many ticks as it is left running. */
  method RunLoop(thread: TxThread, ins: seq<TickInput>)
    requires thread.others.Valid() && thread.others.State() == Empty() && thread.State() == INITIAL && thread.log == []
    modifies thread, thread.others, thread.others.table, thread.others.valid, thread.others.lastUpdatedMs
    ensures thread.State() == Reached(ins, thread.centers, |ins|).state
    ensures thread.others.State() == Reached(ins, thread.centers, |ins|).others
    ensures thread.log == Log(ins, thread.centers, |ins|)
  {
    hide Tick;
    for n := 0 to |ins|
      invariant thread.State() == Reached(ins, thread.centers, n).state
      invariant thread.others.State() == Reached(ins, thread.centers, n).others
      invariant thread.log == Log(ins, thread.centers, n)
    {
      thread.RunTick(ins[n]);
    }
  }

  // ----- The candidate protocol

  /** The vehicle the RTOS currently believes to be the candidate. */
  function Introduced(log: seq<Message>): Option<byte> {
    if log == [] then None
    else
      var rest, m := log[..|log| - 1], log[|log| - 1];
      if m.Intro? then Some(m.selection.vehicle.vehicleId)
      else if m.NoCandidate? || m.Unavailable? then None
      else Introduced(rest)
  }

  /** Every status reports the vehicle introduced last and not withdrawn since. */
  ghost predicate Legal(log: seq<Message>) {
    forall i | 0 <= i < |log| && log[i].Status? :: Introduced(log[..i]) == Some(log[i].vehicle.vehicleId)
  }

  predicate Withdraws(m: Message) {
    m.Intro? || m.NoCandidate? || m.Unavailable?
  }

  /** Message `j` introduces vehicle `id` and nothing after it introduces or withdraws one. */
  ghost predicate Stands(log: seq<Message>, j: nat, id: byte) {
    && j < |log| && log[j].Intro? && log[j].selection.vehicle.vehicleId == id
    && forall k | j < k < |log| :: !Withdraws(log[k])
  }

  lemma {:induction false} IntroducedMeans(log: seq<Message>, id: byte)
    ensures Introduced(log) == Some(id) <==> exists j: nat :: Stands(log, j, id)
  {
    if log != [] {
      var n := |log| - 1;
      IntroducedMeans(log[..n], id);
      if Introduced(log) == Some(id) {
        if log[n].Intro? {
          assert Stands(log, n, id);
        } else {
          var j: nat :| Stands(log[..n], j, id);
          assert Stands(log, j, id);
        }
      }
      if j: nat :| Stands(log, j, id) {
        if j < n {
          assert !Withdraws(log[n]);
          assert Stands(log[..n], j, id);
        }
      }
    }
  }

  lemma Extend(log: seq<Message>, m: Message)
    ensures Introduced(log + [m])
        == if m.Intro? then Some(m.selection.vehicle.vehicleId)
           else if m.NoCandidate? || m.Unavailable? then None
           else Introduced(log)
    ensures Legal(log) && (m.Status? ==> Introduced(log) == Some(m.vehicle.vehicleId)) <==> Legal(log + [m])
  {
    var l := log + [m];
    assert l[..|l| - 1] == log;
    assert forall i | 0 <= i < |log| :: l[i] == log[i] && l[..i] == log[..i];
    if Legal(l) {
      assert l[|log|] == m;
      forall i | 0 <= i < |log| && log[i].Status?
        ensures Introduced(log[..i]) == Some(log[i].vehicle.vehicleId)
      {
        assert l[i].Status?;
      }
    }
  }

  /** The loop's own memory of the protocol. */
  predicate Consistent(s: TxState) {
    && (s.lastHadCandidate <==> s.lastIntroVehicleId != VEHICLE_ID_NONE)
    && (!s.lastActive ==> !s.lastHadCandidate)
  }

  function Memory(s: TxState): Option<byte> {
    if s.lastHadCandidate then Some(s.lastIntroVehicleId) else None
  }

  /** What the candidate part of a tick may send, and how its memory follows. */
  lemma ModeProtocol(s: TxState, o: Others, candidate: Option<VehicleInfo>, input: TickInput, centers: Centers,
      log: seq<Message>)
    requires WellSized(o) && Consistent(s) && Legal(log) && Introduced(log) == Memory(s)
    requires candidate.Some? ==> Memory(s) == Some(candidate.value.vehicleId)
    requires input.self.Some? && Chosen(o, input.self.value, centers).Some?
        ==> Chosen(o, input.self.value, centers).value.vehicle.vehicleId != VEHICLE_ID_NONE
    ensures var out := Mode(s, o, candidate, input, centers);
            && Consistent(out.state) && Legal(log + out.sent) && Introduced(log + out.sent) == Memory(out.state)
            && (out.candidate.Some? ==> Memory(out.state) == Some(out.candidate.value.vehicleId))
            && out.state.lastActive == input.active
  {
    hide Legal, Introduced, Chosen;
    var out := Mode(s, o, candidate, input, centers);
    if out.sent == [] {
      assert log + out.sent == log;
    } else if |out.sent| == 1 {
      Extend(log, out.sent[0]);
      assert out.sent == [out.sent[0]];
    } else {
      Extend(log, out.sent[0]);
      Extend(log + [out.sent[0]], out.sent[1]);
      assert log + out.sent == log + [out.sent[0]] + [out.sent[1]];
    }
  }

  predicate Neutral(m: Message) {
    m.NtpSync? || m.TrafficLight?
  }

  lemma {:induction false} NeutralMessages(log: seq<Message>, more: seq<Message>)
    requires forall i | 0 <= i < |more| :: Neutral(more[i])
    ensures Introduced(log + more) == Introduced(log) && Legal(log + more) == Legal(log)
  {
    hide Legal, Introduced;
    if more == [] {
      assert log + more == log;
    } else {
      var n := |more| - 1;
      NeutralMessages(log, more[..n]);
      Extend(log + more[..n], more[n]);
      assert log + more == log + more[..n] + [more[n]];
    }
  }

  /** Everything a run keeps at tick boundaries. */
  ghost predicate Kept(p: Point, log: seq<Message>) {
    && Consistent(p.state)
    && Legal(log)
    && Introduced(log) == Memory(p.state)
    && (p.others.candidate.Some? ==> Memory(p.state) == Some(p.others.candidate.value.vehicleId))
  }

  // ----- Vehicle ids

  /** All the ids the MQTT thread stores come from `ids`. */
  ghost predicate StepsFrom(steps: seq<MqttStep>, ids: set<byte>) {
    forall i | 0 <= i < |steps| && steps[i].Update? :: steps[i].v.vehicleId in ids
  }

  ghost predicate RunFrom(ins: seq<TickInput>, ids: set<byte>) {
    forall i | 0 <= i < |ins| :: StepsFrom(ins[i].before, ids) && StepsFrom(ins[i].during, ids)
  }

  ghost predicate TableFrom(o: Others, ids: set<byte>)
    requires WellSized(o)
  {
    forall i | 0 <= i < MAX_OTHER_VEHICLES && o.valid[i] :: o.table[i].vehicleId in ids
  }

  lemma {:induction false} ApplyAllFrom(o: Others, steps: seq<MqttStep>, ids: set<byte>)
    requires WellSized(o) && TableFrom(o, ids) && StepsFrom(steps, ids)
    ensures TableFrom(ApplyAll(o, steps), ids)
  {
    if steps != [] {
      var n := |steps| - 1;
      ApplyAllFrom(o, steps[..n], ids);
      ApplyFrom(ApplyAll(o, steps[..n]), steps[n], ids);
    }
  }

  lemma ApplyFrom(o: Others, step: MqttStep, ids: set<byte>)
    requires WellSized(o) && TableFrom(o, ids) && (step.Update? ==> step.v.vehicleId in ids)
    ensures TableFrom(Apply(o, step), ids)
  {
  }

  /** MQTT steps can withdraw the candidate slot but never fill or rename it. */
  lemma {:induction false} ApplyAllCandidate(o: Others, steps: seq<MqttStep>)
    requires WellSized(o)
    ensures ApplyAll(o, steps).candidate.None? || ApplyAll(o, steps).candidate == o.candidate
  {
    if steps != [] {
      ApplyAllCandidate(o, steps[..|steps| - 1]);
    }
  }

  lemma ChosenFrom(o: Others, self: VehicleInfo, centers: Centers, ids: set<byte>)
    requires WellSized(o) && TableFrom(o, ids) && Chosen(o, self, centers).Some?
    ensures Chosen(o, self, centers).value.vehicle.vehicleId in ids
  {
    hide Candidate, DistanceSquared;
    var others := ValidVehicles(o, MAX_OTHER_VEHICLES);
    var i := NearestIndex(self, others, centers, |others|);
    CandidateIsVehicle(self, others[i], centers);
    CopyHoldsValidSlots(o, MAX_OTHER_VEHICLES, others[i]);
  }

  // ----- The protocol over runs

  lemma TickKeeps(p: Point, log: seq<Message>, input: TickInput, centers: Centers, ids: set<byte>)
    requires WellSized(p.others) && Kept(p, log) && TableFrom(p.others, ids)
    requires VEHICLE_ID_NONE !in ids && StepsFrom(input.before, ids) && StepsFrom(input.during, ids)
    ensures var r := Tick(p.state, p.others, input, centers);
            Kept(Point(r.state, r.others), log + r.sent) && TableFrom(r.others, ids)
                && r.state.lastActive == input.active
  {
    hide Legal, Introduced, Chosen, Mode, ApplyAll, LightStatus, StepsFrom;
    var s, o1 := NtpReset(p.state), ApplyAll(p.others, input.before);
    var o2 := ApplyAll(o1, input.during);
    ApplyAllFrom(p.others, input.before, ids);
    ApplyAllFrom(o1, input.during, ids);
    ApplyAllCandidate(p.others, input.before);
    ApplyAllCandidate(o1, input.during);
    if input.self.Some? && Chosen(o1, input.self.value, centers).Some? {
      ChosenFrom(o1, input.self.value, centers, ids);
    }
    var mode := Mode(s, o1, o2.candidate, input, centers);
    var ntp, light := NtpMessages(p.state), LightMessages(mode.state, input, centers);
    NeutralMessages(log, ntp);
    ModeProtocol(s, o1, o2.candidate, input, centers, log + ntp);
    NeutralMessages(log + ntp + mode.sent, light);
    InOrder(log, ntp, mode.sent, light);
  }

  lemma {:induction false} RunKeeps(ins: seq<TickInput>, centers: Centers, n: nat, ids: set<byte>)
    requires n <= |ins| && VEHICLE_ID_NONE !in ids && RunFrom(ins, ids)
    ensures Kept(Reached(ins, centers, n), Log(ins, centers, n))
    ensures TableFrom(Reached(ins, centers, n).others, ids)
  {
    hide Legal, Introduced, Tick, StepsFrom;
    if n == 0 {
      NothingSent();
    } else {
      RunKeeps(ins, centers, n - 1, ids);
      TickKeeps(Reached(ins, centers, n - 1), Log(ins, centers, n - 1), ins[n - 1], centers, ids);
    }
  }

  lemma NothingSent()
    ensures Legal([]) && Introduced([]) == None
  {
  }

  /** Safety: in every run over nonzero ids, each status is for a vehicle that was introduced before it, with
      nothing in between that introduces another vehicle or withdraws this one. */
  lemma StatusFollowsIntroduction(ins: seq<TickInput>, centers: Centers, ids: set<byte>, i: nat)
    requires VEHICLE_ID_NONE !in ids && RunFrom(ins, ids)
    requires i < |Log(ins, centers, |ins|)| && Log(ins, centers, |ins|)[i].Status?
    ensures var log := Log(ins, centers, |ins|); exists j: nat :: Stands(log[..i], j, log[i].vehicle.vehicleId)
  {
    hide Introduced, Stands, Log;
    var log := Log(ins, centers, |ins|);
    RunKeeps(ins, centers, |ins|, ids);
    IntroducedMeans(log[..i], log[i].vehicle.vehicleId);
  }

  /** At every tick boundary, and after any further MQTT steps, a filled candidate slot names the vehicle introduced
      last. */
  lemma SlotNamesIntroduced(ins: seq<TickInput>, centers: Centers, ids: set<byte>, n: nat, steps: seq<MqttStep>)
    requires n <= |ins| && VEHICLE_ID_NONE !in ids && RunFrom(ins, ids)
    ensures var slot := ApplyAll(Reached(ins, centers, n).others, steps).candidate;
            slot.Some? ==> Introduced(Log(ins, centers, n)) == Some(slot.value.vehicleId)
  {
    hide Introduced, Log, Reached;
    RunKeeps(ins, centers, n, ids);
    ApplyAllCandidate(Reached(ins, centers, n).others, steps);
  }

  /** The candidate a tick settles on, if it gets as far as choosing one. */
  function Settled(o: Others, input: TickInput, centers: Centers): Option<Selection>
    requires WellSized(o)
  {
    if !input.active || !input.connected || input.self.None? then None
    else Chosen(ApplyAll(o, input.before), input.self.value, centers)
  }

  /** An introduced candidate stays introduced iff the tick settles on it again; otherwise that tick says why not. */
  lemma LossIsAnnounced(ins: seq<TickInput>, centers: Centers, ids: set<byte>, n: nat, id: byte)
    requires n < |ins| && VEHICLE_ID_NONE !in ids && RunFrom(ins, ids)
    requires Introduced(Log(ins, centers, n)) == Some(id)
    ensures var settled := Settled(Reached(ins, centers, n).others, ins[n], centers);
            && (Introduced(Log(ins, centers, n + 1)) == Some(id)
                <==> settled.Some? && settled.value.vehicle.vehicleId == id)
            && (!ins[n].active ==> NoCandidate in Sent(ins, centers, n))
            && (ins[n].active && !ins[n].connected ==> Unavailable in Sent(ins, centers, n))
            && (ins[n].active && ins[n].connected && settled.None? ==> NoCandidate in Sent(ins, centers, n))
            && (settled.Some? && settled.value.vehicle.vehicleId != id
                ==> Intro(settled.value) in Sent(ins, centers, n))
  {
    hide Legal, Introduced, Chosen, ApplyAll, LightStatus, RunFrom, TableFrom;
    RunKeeps(ins, centers, n, ids);
    RunKeeps(ins, centers, n + 1, ids);
  }

  // ----- Id 0

  ghost predicate AlwaysLegal(ids: set<byte>) {
    forall ins, centers | RunFrom(ins, ids) :: Legal(Log(ins, centers, |ins|))
  }

  /** Id 0 doubles as "nobody introduced", and nothing on the MQTT side refuses it: the protocol holds over all
      runs exactly when no other vehicle may use id 0. */
  lemma ProtocolHoldsIff(ids: set<byte>)
    ensures AlwaysLegal(ids) <==> VEHICLE_ID_NONE !in ids
  {
    hide Legal, Log, RunFrom;
    if VEHICLE_ID_NONE !in ids {
      forall ins, centers | RunFrom(ins, ids)
        ensures Legal(Log(ins, centers, |ins|))
      {
        RunKeeps(ins, centers, |ins|, ids);
      }
    } else {
      var ins, centers := UnintroducedRun(ids);
    }
  }

  lemma UnintroducedRun(ids: set<byte>) returns (ins: seq<TickInput>, centers: Centers)
    requires VEHICLE_ID_NONE in ids
    ensures RunFrom(ins, ids) && !Legal(Log(ins, centers, |ins|))
  {
    var self := NO_VEHICLE.(vehicleId := 1, turnState := RIGHT_TURN, conflictZoneIds := ["z"]);
    var other := NO_VEHICLE.(turnState := STRAIGHT, conflictZoneIds := ["z"]);
    centers := map["z" := (0, 0)];
    ins := [TickInput([Update(other, 0)], true, true, Some(self), [], true, map[])];
    FirstTick(ins[0], self, other, centers);
    var log := Log(ins, centers, 1);
    assert log == Log(ins, centers, 0) + Sent(ins, centers, 0);
    assert log == [NtpSync, Status(other, RIGHT_VS_STRAIGHT)];
    assert log[1].Status? && log[..1] == [NtpSync] && [NtpSync][..0] == [];
  }

  lemma FirstTick(input: TickInput, self: VehicleInfo, other: VehicleInfo, centers: Centers)
    requires self == NO_VEHICLE.(vehicleId := 1, turnState := RIGHT_TURN, conflictZoneIds := ["z"])
    requires other == NO_VEHICLE.(turnState := STRAIGHT, conflictZoneIds := ["z"])
    requires centers == map["z" := (0, 0)]
    requires input == TickInput([Update(other, 0)], true, true, Some(self), [], true, map[])
    ensures Tick(INITIAL, Empty(), input, centers).sent == [NtpSync, Status(other, RIGHT_VS_STRAIGHT)]
  {
    hide ValidVehicles, LightStatus, Updated;
    var o := Updated(Empty(), other, 0);
    assert ApplyAll(Empty(), input.before[..0]) == Empty();
    assert ApplyAll(Empty(), input.before) == o;
    OnlyVehicle(other, MAX_OTHER_VEHICLES);
    OnlyCandidate(self, other, centers);
  }

  lemma {:induction false} OnlyVehicle(v: VehicleInfo, n: nat)
    requires v.vehicleId == 0 && n <= MAX_OTHER_VEHICLES
    ensures ValidVehicles(Updated(Empty(), v, 0), n) == if n == 0 then [] else [v]
  {
    if n > 0 {
      OnlyVehicle(v, n - 1);
    }
  }

  lemma OnlyCandidate(self: VehicleInfo, other: VehicleInfo, centers: Centers)
    requires self == NO_VEHICLE.(vehicleId := 1, turnState := RIGHT_TURN, conflictZoneIds := ["z"])
    requires other == NO_VEHICLE.(turnState := STRAIGHT, conflictZoneIds := ["z"])
    requires centers == map["z" := (0, 0)]
    ensures Select(self, [other], centers, 1) == Some(Selection(other, RIGHT_VS_STRAIGHT, "z", 0, 0))
  {
    assert Names(other, "z") by { assert Zones(other)[0] == "z"; }
    assert SharedZone(self, other) == Some("z") by { assert Zones(self)[0] == "z"; }
  }
}
