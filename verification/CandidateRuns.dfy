/** What the messages of a run say about the candidate, in terms of the table the tick found: whose record, which
    conflict and which zone.
  */
module CandidateRuns {
  import opened Binary
  import opened CanCodec
  import opened Vehicles
  import opened OtherVehicles
  import opened Candidates
  import opened CandidateSlots
  import opened CanTx
  import opened CanTxRuns
  import opened CanTxSchedule

  /** The table as tick `n` copies it. */
  function Copied(ins: seq<TickInput>, centers: Centers, n: nat): (o: Others)
    requires n < |ins|
    ensures WellSized(o)
  {
    ApplyAll(Reached(ins, centers, n).others, ins[n].before)
  }

  predicate Chooses(input: TickInput) {
    input.active && input.connected && input.self.Some?
  }

  /** The tick settles on the vehicle in slot `i`: the lowest of the nearest eligible slots of the table it copied. */
  ghost predicate SettlesOn(ins: seq<TickInput>, centers: Centers, n: nat, i: nat)
    requires n < |ins|
  {
    Chooses(ins[n]) && NearestSlot(Copied(ins, centers, n), ins[n].self.value, centers, 64, i)
  }

  /** A status tells of slot `i`'s record as it is, under the mask of its conflict with us. */
  predicate StatusOf(m: Message, self: VehicleInfo, other: VehicleInfo) {
    m.Status? && m.vehicle == other && Warns(self.turnState, other.turnState, m.typeMask)
  }

  /** An introduction gives the same mask and the centre of the first of our zones that the other vehicle names. */
  ghost predicate IntroOf(m: Message, self: VehicleInfo, other: VehicleInfo, centers: Centers) {
    && m.Intro? && m.selection.vehicle == other && Warns(self.turnState, other.turnState, m.selection.typeMask)
    && exists zone ::
         && FirstShared(self, other, zone) && zone in centers
         && (m.selection.centerX, m.selection.centerY) == centers[zone]
  }

  lemma SettledSlot(ins: seq<TickInput>, centers: Centers, n: nat) returns (i: nat)
    requires n < |ins|
    ensures i < 64
    ensures Settled(Reached(ins, centers, n).others, ins[n], centers).Some? ==>
              && SettlesOn(ins, centers, n, i)
              && Settled(Reached(ins, centers, n).others, ins[n], centers)
                 == Candidate(ins[n].self.value, Copied(ins, centers, n).table[i], centers)
    ensures (exists j: nat :: SettlesOn(ins, centers, n, j)) ==>
              Settled(Reached(ins, centers, n).others, ins[n], centers).Some?
  {
    hide Candidate, NearestSlot, Reached, ApplyAll;
    i := 0;
    if Chooses(ins[n]) {
      i := SelectedSlot(Copied(ins, centers, n), ins[n].self.value, centers, 64);
      if Settled(Reached(ins, centers, n).others, ins[n], centers).Some? {
        NearestIsEligible(Copied(ins, centers, n), ins[n].self.value, centers, i);
      } else {
        i := 0;
      }
      if j: nat :| SettlesOn(ins, centers, n, j) {
        NearestIsEligible(Copied(ins, centers, n), ins[n].self.value, centers, j);
      }
    }
  }

  lemma NearestIsEligible(o: Others, self: VehicleInfo, centers: Centers, j: nat)
    requires WellSized(o) && NearestSlot(o, self, centers, 64, j)
    ensures j < 64 && EligibleSlot(o, self, centers, j)
  {
  }

  /** The candidate part sends what it settled on and nothing else about vehicles. */
  lemma ActiveMentions(s: TxState, o: Others, input: TickInput, centers: Centers, m: Message)
    requires WellSized(o) && m in ActivePart(s, o, input, centers).sent && (m.Status? || m.Intro?)
    ensures input.connected && input.self.Some? && Chosen(o, input.self.value, centers).Some?
    ensures var sel := Chosen(o, input.self.value, centers).value;
            m == Intro(sel) || m == Status(sel.vehicle, sel.typeMask)
  {
    hide Chosen;
  }

  lemma TickMentions(s: TxState, o: Others, input: TickInput, centers: Centers, m: Message)
    requires WellSized(o) && m in Tick(s, o, input, centers).sent && (m.Status? || m.Intro?)
    ensures Settled(o, input, centers).Some?
    ensures var sel := Settled(o, input, centers).value; m == Intro(sel) || m == Status(sel.vehicle, sel.typeMask)
  {
    hide ActivePart, ApplyAll, LightStatus, Chosen;
    if input.active {
      ActiveMentions(Activated(NtpReset(s)), ApplyAll(o, input.before), input, centers, m);
    }
  }

  /** Over every run, a status or an introduction is about the vehicle in the lowest of the nearest eligible slots of
      the table copied on that tick, and says what its record, its movement and the zones say. */
  lemma MessagesTellTheTruth(ins: seq<TickInput>, centers: Centers, n: nat, m: Message) returns (i: nat)
    requires n < |ins| && m in Sent(ins, centers, n) && (m.Status? || m.Intro?)
    ensures SettlesOn(ins, centers, n, i)
    ensures var self, other := ins[n].self.value, Copied(ins, centers, n).table[i];
            StatusOf(m, self, other) || IntroOf(m, self, other, centers)
  {
    hide Tick, Settled, Reached, Candidate, NearestSlot, Warns, FirstShared;
    TickMentions(Reached(ins, centers, n).state, Reached(ins, centers, n).others, ins[n], centers, m);
    i := SettledSlot(ins, centers, n);
    CandidateMeans(ins[n].self.value, Copied(ins, centers, n).table[i], centers);
  }

  lemma ActiveSlot(s: TxState, o: Others, input: TickInput, centers: Centers)
    requires WellSized(o)
    ensures ActivePart(s, o, input, centers).candidate ==
            if input.connected && input.self.Some? && Chosen(o, input.self.value, centers).Some?
            then Some(Chosen(o, input.self.value, centers).value.vehicle) else None
  {
    hide Chosen;
  }

  lemma TickSlot(s: TxState, o: Others, input: TickInput, centers: Centers)
    requires WellSized(o)
    ensures var slot, settled := Tick(s, o, input, centers).others.candidate, Settled(o, input, centers);
            slot == if input.active then (if settled.Some? then Some(settled.value.vehicle) else None)
                    else if s.lastActive then None
                    else ApplyAll(ApplyAll(o, input.before), input.during).candidate
  {
    hide ActivePart, ApplyAll, Chosen, LightStatus;
    ActiveSlot(Activated(NtpReset(s)), ApplyAll(o, input.before), input, centers);
  }

  /** The candidate slot after a tick: the vehicle settled on, nobody, or on an inactive tick what MQTT steps left of
      it. */
  lemma SlotAfterTick(ins: seq<TickInput>, centers: Centers, n: nat) returns (i: nat)
    requires n < |ins|
    ensures i < 64
    ensures var slot := Reached(ins, centers, n + 1).others.candidate;
            && (ins[n].active && slot.Some? ==>
                  SettlesOn(ins, centers, n, i) && slot == Some(Copied(ins, centers, n).table[i]))
            && (ins[n].active && slot.None? ==> forall j: nat :: !SettlesOn(ins, centers, n, j))
            && (!ins[n].active && n > 0 && ins[n - 1].active ==> slot == None)
            && (!ins[n].active && (n == 0 || !ins[n - 1].active) ==>
                  slot == ApplyAll(Copied(ins, centers, n), ins[n].during).candidate)
  {
    hide Candidate, NearestSlot, ApplyAll, Tick, Settled, FirstShared, Warns;
    i := SettledSlot(ins, centers, n);
    if Settled(Reached(ins, centers, n).others, ins[n], centers).Some? {
      CandidateMeans(ins[n].self.value, Copied(ins, centers, n).table[i], centers);
    }
    LastActiveIs(ins, centers, n);
    TickSlot(Reached(ins, centers, n).state, Reached(ins, centers, n).others, ins[n], centers);
  }

  lemma LastActiveIs(ins: seq<TickInput>, centers: Centers, n: nat)
    requires n < |ins|
    ensures Reached(ins, centers, n).state.lastActive <==> n > 0 && ins[n - 1].active
  {
    hide ActivePart, ApplyAll, LightStatus;
    if n > 0 {
      var p := Reached(ins, centers, n - 1);
      ActiveStaysActive(Activated(NtpReset(p.state)), ApplyAll(p.others, ins[n - 1].before), ins[n - 1], centers);
    }
  }

  lemma ActiveStaysActive(s: TxState, o: Others, input: TickInput, centers: Centers)
    requires WellSized(o)
    ensures ActivePart(s, o, input, centers).state.lastActive == s.lastActive
  {
    hide Chosen;
  }

  // ----- Traffic-light messages

  /** The point a light message gives: the centre of the first of our farthest zones with a known centre, or the
      origin. */
  ghost predicate FarthestCenter(self: VehicleInfo, centers: Centers, x: word, y: word) {
    || (exists i: nat :: Farthest(self, centers, |Zones(self)|, i) && (x, y) == centers[Zones(self)[i]])
    || ((forall i: nat :: !Known(self, centers, i)) && x == y == 0)
  }

  /** The maneuver ahead, as the message codes it. */
  predicate TellsManeuver(self: Option<VehicleInfo>, maneuver: nat) {
    maneuver == if self.None? then 0
                else if self.value.turnState == "right_turn" then 1
                else if self.value.turnState == "unprotected_left" then 2
                else if self.value.turnState == "left_turn" then 3
                else 0
  }

  predicate Linked(input: TickInput, id: byte) {
    input.self.Some? && LightNumber(input.self.value.linkedTlId) == id && id < 8 && id in input.lights
  }

  /** What a traffic-light message says about the tick that sends it. */
  ghost predicate LightTells(input: TickInput, centers: Centers, status: TrafficLightStatus) {
    && (status.CommError? <==> !input.lightConnected)
    && (status.Light? <==> input.lightConnected && exists id :: Linked(input, id))
    && (status.Light? ==> Linked(input, status.id) && status.record == input.lights[status.id])
    && TellsManeuver(input.self, status.maneuver)
    && (!status.CommError? ==>
          if input.self.None? then status.x == status.y == 0
          else FarthestCenter(input.self.value, centers, status.x, status.y))
  }

  lemma FarthestZoneIsCenter(self: VehicleInfo, centers: Centers)
    ensures var zone := FarthestZone(self, centers, |Zones(self)|);
            && (zone.Some? ==> FarthestCenter(self, centers, zone.value.0, zone.value.1))
            && (zone.None? ==> FarthestCenter(self, centers, 0, 0))
  {
    hide Farthest;
    var i := FarthestIsFarthest(self, centers, |Zones(self)|);
  }

  lemma LightStatusTells(input: TickInput, centers: Centers)
    ensures LightTells(input, centers, LightStatus(input, centers))
  {
    hide FarthestZone, FarthestCenter, LightNumber;
    assert |RIGHT_TURN| == 10 && |LEFT_TURN| == 9 && |UNPROTECTED_LEFT| == 16;
    if input.self.Some? {
      FarthestZoneIsCenter(input.self.value, centers);
      if LinkedLight(input.self.value, input.lights).Some? {
        assert Linked(input, LinkedLight(input.self.value, input.lights).value.0);
      }
    }
  }

  lemma ActiveSendsNoLight(s: TxState, o: Others, input: TickInput, centers: Centers)
    requires WellSized(o)
    ensures forall m | m in ActivePart(s, o, input, centers).sent :: !m.TrafficLight?
  {
    hide Chosen;
  }

  lemma TickLights(s: TxState, o: Others, input: TickInput, centers: Centers, m: Message)
    requires WellSized(o) && m in Tick(s, o, input, centers).sent && m.TrafficLight?
    ensures m.status == LightStatus(input, centers)
  {
    hide ActivePart, ApplyAll, LightStatus;
    ActiveSendsNoLight(Activated(NtpReset(s)), ApplyAll(o, input.before), input, centers);
  }

  /** Over every run, a traffic-light message says whether the link is up, which light our lane is linked to and what is
      known of it, our maneuver and the farthest zone. */
  lemma LightMessagesTellTheTruth(ins: seq<TickInput>, centers: Centers, n: nat, m: Message)
    requires n < |ins| && m in Sent(ins, centers, n) && m.TrafficLight?
    ensures LightTells(ins[n], centers, m.status)
  {
    hide Tick, Reached, LightTells;
    var p := Reached(ins, centers, n);
    TickLights(p.state, p.others, ins[n], centers, m);
    LightStatusTells(ins[n], centers);
  }

  // ----- The messages of a tick in order

  /** What a tick says about candidates: nothing, one 0x5 message, or an introduction and a status. */
  predicate CandidateNews(middle: seq<Message>) {
    || middle == []
    || (|middle| == 1 && IsStatus(middle[0]))
    || (|middle| == 2 && middle[0].Intro? && middle[1].Status?)
  }

  lemma ActiveNews(s: TxState, o: Others, input: TickInput, centers: Centers)
    requires WellSized(o)
    ensures var middle := ActivePart(s, o, input, centers).sent;
            && CandidateNews(middle)
            && (Unavailable in middle ==> !input.connected)
            && (NoCandidate in middle ==>
                  input.connected && (input.self.None? || Chosen(o, input.self.value, centers).None?))
  {
    hide Chosen;
  }

  lemma TickInOrder(s: TxState, o: Others, input: TickInput, centers: Centers)
      returns (middle: seq<Message>, light: seq<Message>)
    requires WellSized(o)
    ensures Tick(s, o, input, centers).sent == (if s.ntpElapsedMs >= 100 then [NtpSync] else []) + middle + light
    ensures CandidateNews(middle)
    ensures light == [] || light == [TrafficLight(LightStatus(input, centers))]
    ensures Unavailable in middle ==> input.active && !input.connected
    ensures NoCandidate in middle ==>
              if input.active then input.connected && Settled(o, input, centers).None? else s.lastActive
  {
    hide ActivePart, ApplyAll, LightStatus, Chosen;
    var o1 := ApplyAll(o, input.before);
    var mode := Mode(NtpReset(s), o1, ApplyAll(o1, input.during).candidate, input, centers);
    middle := mode.sent;
    light := LightMessages(mode.state, input, centers);
    if input.active {
      ActiveNews(Activated(NtpReset(s)), o1, input, centers);
    }
  }

  /** Over every run a tick sends, in this order: the clock on every tenth tick, the news about the candidate, the
      traffic light; and "unavailable" or "no candidate" only where that is the case. */
  lemma MessagesInOrder(ins: seq<TickInput>, centers: Centers, n: nat)
      returns (middle: seq<Message>, light: seq<Message>)
    requires n < |ins|
    ensures Sent(ins, centers, n) == (if n % 10 == 0 then [NtpSync] else []) + middle + light
    ensures CandidateNews(middle)
    ensures light == [] || light == [TrafficLight(LightStatus(ins[n], centers))]
    ensures Unavailable in middle ==> ins[n].active && !ins[n].connected
    ensures NoCandidate in middle && ins[n].active ==>
              ins[n].connected && forall i: nat :: !SettlesOn(ins, centers, n, i)
    ensures NoCandidate in middle && !ins[n].active ==> n > 0 && ins[n - 1].active
  {
    hide Tick, Settled, SettlesOn, LightStatus, Reached, CandidateNews;
    var p := Reached(ins, centers, n);
    middle, light := TickInOrder(p.state, p.others, ins[n], centers);
    var i := SettledSlot(ins, centers, n);
    LastActiveIs(ins, centers, n);
    NtpTimer(ins, centers, n);
    NtpElapsedSteps(n);
  }
}
