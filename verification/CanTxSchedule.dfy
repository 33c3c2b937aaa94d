/** When the transmit loop sends what, tick by tick over whole runs. */
module CanTxSchedule {
  import opened Binary
  import opened Vehicles
  import opened OtherVehicles
  import opened Candidates
  import opened CanTx
  import opened CanTxRuns

  /** Message id 0x5: a status, or word that there is none. */
  predicate IsStatus(m: Message) {
    m.Status? || m.NoCandidate? || m.Unavailable?
  }

  function CountStatus(sent: seq<Message>): nat {
    if sent == [] then 0 else CountStatus(sent[..|sent| - 1]) + if IsStatus(sent[|sent| - 1]) then 1 else 0
  }

  function CountLight(sent: seq<Message>): nat {
    if sent == [] then 0 else CountLight(sent[..|sent| - 1]) + if sent[|sent| - 1].TrafficLight? then 1 else 0
  }

  function CountNtp(sent: seq<Message>): nat {
    if sent == [] then 0 else CountNtp(sent[..|sent| - 1]) + if sent[|sent| - 1].NtpSync? then 1 else 0
  }

  lemma {:induction false} CountsAdd(a: seq<Message>, b: seq<Message>)
    ensures CountStatus(a + b) == CountStatus(a) + CountStatus(b)
    ensures CountLight(a + b) == CountLight(a) + CountLight(b)
    ensures CountNtp(a + b) == CountNtp(a) + CountNtp(b)
  {
    if b == [] {
      assert a + b == a;
    } else {
      var n := |b| - 1;
      CountsAdd(a, b[..n]);
      assert (a + b)[..|a + b| - 1] == a + b[..n];
    }
  }

  lemma CountsOfOne(m: Message)
    ensures CountStatus([m]) == if IsStatus(m) then 1 else 0
    ensures CountLight([m]) == if m.TrafficLight? then 1 else 0
    ensures CountNtp([m]) == if m.NtpSync? then 1 else 0
  {
    assert [m][..0] == [];
  }

  /** An outcome with at most one status, sent whenever due, and no timer touched but the status timer. */
  predicate Measured(s: TxState, out: Outcome) {
    && CountLight(out.sent) == CountNtp(out.sent) == 0 && CountStatus(out.sent) <= 1
    && out.state.lastActive == s.lastActive
    && out.state.trafficLightElapsedMs == s.trafficLightElapsedMs && out.state.ntpElapsedMs == s.ntpElapsedMs
    && out.state.statusElapsedMs == (if CountStatus(out.sent) == 1 then 0 else s.statusElapsedMs)
    && (StatusDue(s) ==> CountStatus(out.sent) == 1)
  }

  /** A status goes out only when due or when there is news about the candidate. */
  predicate Thrifty(s: TxState, s': TxState, sent: seq<Message>) {
    CountStatus(sent) == 1 <==> StatusDue(s) || Memory(s') != Memory(s)
  }

  lemma LoseMeasured(s: TxState, notice: Message)
    requires notice.NoCandidate? || notice.Unavailable?
    ensures Measured(s, Lose(s, notice)) && Thrifty(s, Lose(s, notice).state, Lose(s, notice).sent)
  {
    CountsOfOne(notice);
  }

  lemma AnnounceMeasured(s: TxState, sel: Selection)
    ensures Measured(s, Announce(s, sel))
    ensures Consistent(s) && sel.vehicle.vehicleId != VEHICLE_ID_NONE
        ==> Thrifty(s, Announce(s, sel).state, Announce(s, sel).sent)
  {
    var intro, status := Intro(sel), Status(sel.vehicle, sel.typeMask);
    CountsOfOne(intro);
    CountsOfOne(status);
    CountsAdd([intro], [status]);
    assert [] + [status] == [status] && [intro] + [] == [intro];
  }

  lemma ActiveMeasured(s: TxState, o: Others, input: TickInput, centers: Centers)
    requires WellSized(o)
    ensures var out := ActivePart(s, o, input, centers);
            Measured(s, out) && (Consistent(s) && NoZeroChosen(o, input, centers) ==> Thrifty(s, out.state, out.sent))
  {
    hide Chosen, Lose, Announce, Measured, Thrifty;
    LoseMeasured(s, Unavailable);
    LoseMeasured(s, NoCandidate);
    if input.connected && input.self.Some? && Chosen(o, input.self.value, centers).Some? {
      AnnounceMeasured(s, Chosen(o, input.self.value, centers).value);
    }
  }

  predicate NoZeroChosen(o: Others, input: TickInput, centers: Centers)
    requires WellSized(o)
  {
    input.self.Some? && Chosen(o, input.self.value, centers).Some? ==>
      Chosen(o, input.self.value, centers).value.vehicle.vehicleId != VEHICLE_ID_NONE
  }

  // ----- One tick of a run

  predicate Activation(ins: seq<TickInput>, n: nat) {
    n < |ins| && ins[n].active && (n == 0 || !ins[n - 1].active)
  }

  /** What a tick does with the timers it starts from. */
  ghost predicate TickFacts(s: TxState, s': TxState, sent: seq<Message>, active: bool) {
    && s'.lastActive == active
    && CountNtp(sent) == (if s.ntpElapsedMs >= NTP_PERIOD_MS then 1 else 0)
    && s'.ntpElapsedMs == Tick32(if s.ntpElapsedMs >= NTP_PERIOD_MS then 0 else s.ntpElapsedMs)
    && var a := if active then Activated(s) else s;
    && CountLight(sent) == (if LightDue(a) then 1 else 0)
    && s'.trafficLightElapsedMs == Tick32(if LightDue(a) then 0 else a.trafficLightElapsedMs)
    && CountStatus(sent) <= 1
    && (!active ==> (CountStatus(sent) == 1 <==> s.lastActive) && (s.lastActive ==> NoCandidate in sent))
    && (active ==> s'.statusElapsedMs == Tick32(if CountStatus(sent) == 1 then 0 else a.statusElapsedMs))
    && (active && StatusDue(a) ==> CountStatus(sent) == 1)
  }

  lemma TickMeasured(p: Point, input: TickInput, centers: Centers)
    requires WellSized(p.others)
    ensures var r := Tick(p.state, p.others, input, centers);
            && TickFacts(p.state, r.state, r.sent, input.active)
            && (input.active && Consistent(p.state) && NoZeroChosen(ApplyAll(p.others, input.before), input, centers)
                ==> Thrifty(Activated(p.state), r.state, r.sent))
  {
    hide NoZeroChosen, ActivePart, ApplyAll, LightStatus, CountStatus, CountLight, CountNtp;
    var s, o1 := NtpReset(p.state), ApplyAll(p.others, input.before);
    var o2 := ApplyAll(o1, input.during);
    var mode := Mode(s, o1, o2.candidate, input, centers);
    var ntp, light := NtpMessages(p.state), LightMessages(mode.state, input, centers);
    CountsAdd(ntp, mode.sent);
    CountsAdd(ntp + mode.sent, light);
    NoMessages();
    CountsOfOne(NtpSync);
    CountsOfOne(NoCandidate);
    CountsOfOne(TrafficLight(LightStatus(input, centers)));
    if input.active {
      ActiveMeasured(Activated(s), o1, input, centers);
    }
  }

  lemma NoMessages()
    ensures CountStatus([]) == CountLight([]) == CountNtp([]) == 0
  {
  }

  lemma RunMeasured(ins: seq<TickInput>, centers: Centers, n: nat)
    requires n < |ins|
    ensures TickFacts(Reached(ins, centers, n).state, Reached(ins, centers, n + 1).state, Sent(ins, centers, n),
        ins[n].active)
    ensures Reached(ins, centers, n).state.lastActive == (n > 0 && ins[n - 1].active)
  {
    hide Tick;
    TickMeasured(Reached(ins, centers, n), ins[n], centers);
    if n > 0 {
      TickMeasured(Reached(ins, centers, n - 1), ins[n - 1], centers);
    }
  }

  // ----- Clock synchronisation

  /** One synchronisation message on every tenth tick, none on any other. */
  lemma NtpSchedule(ins: seq<TickInput>, centers: Centers, n: nat)
    requires n < |ins|
    ensures CountNtp(Sent(ins, centers, n)) == if n % 10 == 0 then 1 else 0
  {
    hide Reached, Sent;
    NtpTimer(ins, centers, n);
    RunNtp(ins, centers, n);
    NtpElapsedSteps(n);
  }

  lemma RunNtp(ins: seq<TickInput>, centers: Centers, n: nat)
    requires n < |ins|
    ensures var elapsed := Reached(ins, centers, n).state.ntpElapsedMs;
            && CountNtp(Sent(ins, centers, n)) == (if elapsed >= NTP_PERIOD_MS then 1 else 0)
            && Reached(ins, centers, n + 1).state.ntpElapsedMs
                == Tick32(if elapsed >= NTP_PERIOD_MS then 0 else elapsed)
  {
    hide Reached, Sent;
    RunMeasured(ins, centers, n);
  }

  /** The clock timer before tick `n`. */
  function NtpElapsed(n: nat): nat {
    if n == 0 then NTP_PERIOD_MS else ((n - 1) % 10 + 1) * TICK_MS
  }

  lemma NtpElapsedSteps(n: nat)
    ensures NtpElapsed(0) == NTP_PERIOD_MS
    ensures NtpElapsed(n) >= NTP_PERIOD_MS <==> n % 10 == 0
    ensures NtpElapsed(n + 1) == Tick32(if NtpElapsed(n) >= NTP_PERIOD_MS then 0 else NtpElapsed(n))
  {
  }

  lemma {:induction false} NtpTimer(ins: seq<TickInput>, centers: Centers, n: nat)
    requires n <= |ins|
    ensures Reached(ins, centers, n).state.ntpElapsedMs == NtpElapsed(n)
  {
    hide Tick, Sent, NtpElapsed, Tick32;
    if n == 0 {
      NtpElapsedSteps(0);
    } else {
      NtpTimer(ins, centers, n - 1);
      RunNtp(ins, centers, n - 1);
      NtpElapsedSteps(n - 1);
    }
  }

  // ----- Traffic lights

  predicate LightSent(ins: seq<TickInput>, centers: Centers, n: nat)
    requires n < |ins|
  {
    CountLight(Sent(ins, centers, n)) == 1
  }

  /** The tick on which the next traffic-light message falls due, going by the first `n` ticks. */
  ghost function DueTick(ins: seq<TickInput>, centers: Centers, n: nat): nat
    requires n <= |ins|
  {
    if n == 0 then 15
    else if Activation(ins, n - 1) then n - 1 + 15
    else if LightSent(ins, centers, n - 1) then n - 1 + 30
    else DueTick(ins, centers, n - 1)
  }

  lemma RunLight(ins: seq<TickInput>, centers: Centers, n: nat)
    requires n < |ins|
    ensures var elapsed := if Activation(ins, n) then TRAFFIC_LIGHT_PERIOD_MS / 2
                           else Reached(ins, centers, n).state.trafficLightElapsedMs;
            && CountLight(Sent(ins, centers, n)) == (if elapsed >= TRAFFIC_LIGHT_PERIOD_MS then 1 else 0)
            && Reached(ins, centers, n + 1).state.trafficLightElapsedMs
                == Tick32(if elapsed >= TRAFFIC_LIGHT_PERIOD_MS then 0 else elapsed)
  {
    hide Reached, Sent;
    RunMeasured(ins, centers, n);
  }

  lemma {:induction false} LightTimer(ins: seq<TickInput>, centers: Centers, n: nat)
    requires n <= |ins|
    ensures n <= DueTick(ins, centers, n) <= n + 30
    ensures Reached(ins, centers, n).state.trafficLightElapsedMs
        == TRAFFIC_LIGHT_PERIOD_MS - (DueTick(ins, centers, n) - n) * TICK_MS
  {
    hide Sent, Activation, Tick;
    if n > 0 {
      LightTimer(ins, centers, n - 1);
      RunLight(ins, centers, n - 1);
    }
  }

  /** A traffic-light message goes out exactly when due, except that an activation on that tick puts it off. */
  lemma LightWhenDue(ins: seq<TickInput>, centers: Centers, n: nat)
    requires n < |ins|
    ensures LightSent(ins, centers, n) <==> n == DueTick(ins, centers, n) && !Activation(ins, n)
    ensures CountLight(Sent(ins, centers, n)) <= 1
  {
    hide Sent, Activation, Reached;
    LightTimer(ins, centers, n);
    RunLight(ins, centers, n);
  }

  /** No activation and no traffic-light message in ticks from..to. */
  ghost predicate Quiet(ins: seq<TickInput>, centers: Centers, from: nat, to: nat)
    requires to <= |ins|
  {
    forall k | from <= k < to :: !Activation(ins, k) && !LightSent(ins, centers, k)
  }

  /** Tick `k` restarts the wait and `n` is when that wait runs out. */
  ghost predicate RunsOut(ins: seq<TickInput>, centers: Centers, k: nat, n: nat)
    requires n <= |ins|
  {
    && k < n && Quiet(ins, centers, k + 1, n)
    && ((Activation(ins, k) && n == k + 15) || (LightSent(ins, centers, k) && n == k + 30))
  }

  lemma {:induction false} DueFromStart(ins: seq<TickInput>, centers: Centers, n: nat)
    requires n <= |ins| && Quiet(ins, centers, 0, n)
    ensures DueTick(ins, centers, n) == 15
  {
    hide LightSent, Activation;
    if n > 0 {
      DueFromStart(ins, centers, n - 1);
    }
  }

  lemma {:induction false} DueFromEvent(ins: seq<TickInput>, centers: Centers, k: nat, n: nat)
    requires k < n <= |ins| && Quiet(ins, centers, k + 1, n) && (Activation(ins, k) || LightSent(ins, centers, k))
    ensures DueTick(ins, centers, n) == if Activation(ins, k) then k + 15 else k + 30
  {
    hide LightSent, Activation;
    if n > k + 1 {
      DueFromEvent(ins, centers, k, n - 1);
    }
  }

  /** The last tick before `n` that was an activation or sent a traffic-light message. */
  lemma {:induction false} LastEvent(ins: seq<TickInput>, centers: Centers, n: nat) returns (k: nat)
    requires n <= |ins|
    ensures Quiet(ins, centers, 0, n)
        || (k < n && Quiet(ins, centers, k + 1, n) && (Activation(ins, k) || LightSent(ins, centers, k)))
  {
    hide LightSent, Activation;
    if n == 0 {
      k := 0;
    } else if Activation(ins, n - 1) || LightSent(ins, centers, n - 1) {
      k := n - 1;
    } else {
      k := LastEvent(ins, centers, n - 1);
    }
  }

  /** The traffic-light schedule: exactly 30 ticks after the previous message or 15 ticks after the start or the
      latest activation, whichever came last; never on an activation tick. */
  lemma LightSchedule(ins: seq<TickInput>, centers: Centers, n: nat)
    requires n < |ins|
    ensures LightSent(ins, centers, n) <==>
      !Activation(ins, n) && ((Quiet(ins, centers, 0, n) && n == 15) || exists k: nat :: RunsOut(ins, centers, k, n))
  {
    hide LightSent, Activation, Quiet, DueTick;
    LightWhenDue(ins, centers, n);
    if LightSent(ins, centers, n) {
      var k := LastEvent(ins, centers, n);
      if Quiet(ins, centers, 0, n) {
        DueFromStart(ins, centers, n);
      } else {
        DueFromEvent(ins, centers, k, n);
        assert RunsOut(ins, centers, k, n);
      }
    }
    if Quiet(ins, centers, 0, n) {
      DueFromStart(ins, centers, n);
    }
    if k: nat :| RunsOut(ins, centers, k, n) {
      DueFromEvent(ins, centers, k, n);
      if !Activation(ins, n) && Activation(ins, k) && LightSent(ins, centers, k) {
        LightWhenDue(ins, centers, k);
      }
    }
  }

  // ----- Candidate statuses

  predicate StatusSent(ins: seq<TickInput>, centers: Centers, n: nat)
    requires n < |ins|
  {
    CountStatus(Sent(ins, centers, n)) == 1
  }

  lemma RunStatus(ins: seq<TickInput>, centers: Centers, n: nat)
    requires n < |ins|
    ensures var s, s' := Reached(ins, centers, n).state, Reached(ins, centers, n + 1).state;
            && CountStatus(Sent(ins, centers, n)) <= 1
            && (!ins[n].active ==> (StatusSent(ins, centers, n) <==> n > 0 && ins[n - 1].active))
            && (!ins[n].active && StatusSent(ins, centers, n) ==> NoCandidate in Sent(ins, centers, n))
            && (Activation(ins, n) ==> StatusSent(ins, centers, n))
            && (ins[n].active && !Activation(ins, n) && StatusDue(s) ==> StatusSent(ins, centers, n))
            && (ins[n].active && StatusSent(ins, centers, n) ==> s'.statusElapsedMs == TICK_MS)
            && (ins[n].active && !StatusSent(ins, centers, n) ==> s'.statusElapsedMs == Tick32(s.statusElapsedMs))
  {
    hide Reached, Sent;
    RunMeasured(ins, centers, n);
  }

  /** While active the status timer is one or two ticks old, and two exactly when the last tick sent nothing. */
  lemma {:induction false} StatusTimer(ins: seq<TickInput>, centers: Centers, n: nat)
    requires n < |ins| && ins[n].active
    ensures Reached(ins, centers, n + 1).state.statusElapsedMs
        == if StatusSent(ins, centers, n) then TICK_MS else STATUS_PERIOD_MS
    decreases n
  {
    hide Reached, Sent;
    RunStatus(ins, centers, n);
    if !Activation(ins, n) {
      StatusTimer(ins, centers, n - 1);
    }
  }

  /** No two consecutive active ticks pass without a 0x5 message, and the first active tick always has one. */
  lemma StatusCadence(ins: seq<TickInput>, centers: Centers, n: nat)
    requires n < |ins| && ins[n].active
    ensures CountStatus(Sent(ins, centers, n)) <= 1
    ensures Activation(ins, n) ==> StatusSent(ins, centers, n)
    ensures n > 0 && ins[n - 1].active ==> StatusSent(ins, centers, n - 1) || StatusSent(ins, centers, n)
  {
    hide Reached, Sent;
    RunStatus(ins, centers, n);
    if !Activation(ins, n) {
      StatusTimer(ins, centers, n - 1);
    }
  }

  /** An inactive tick sends one 0x5 message, "no candidate", on the falling edge and none otherwise. */
  lemma StatusOnFallingEdge(ins: seq<TickInput>, centers: Centers, n: nat)
    requires n < |ins| && !ins[n].active
    ensures CountStatus(Sent(ins, centers, n)) == if n > 0 && ins[n - 1].active then 1 else 0
    ensures n > 0 && ins[n - 1].active ==> NoCandidate in Sent(ins, centers, n)
  {
    hide Reached, Sent;
    RunStatus(ins, centers, n);
  }

  /** Over nonzero ids an active tick sends a 0x5 message exactly when candidate mode just began, when the
      tick before sent none, or when the candidate changed or was lost. */
  lemma StatusExactly(ins: seq<TickInput>, centers: Centers, ids: set<byte>, n: nat)
    requires n < |ins| && ins[n].active && VEHICLE_ID_NONE !in ids && RunFrom(ins, ids)
    ensures StatusSent(ins, centers, n) <==>
      || Activation(ins, n)
      || !StatusSent(ins, centers, n - 1)
      || Introduced(Log(ins, centers, n + 1)) != Introduced(Log(ins, centers, n))
  {
    hide Sent, Log, Legal, Introduced, Tick;
    RunStatus(ins, centers, n);
    if !Activation(ins, n) {
      StatusTimer(ins, centers, n - 1);
      RunMeasured(ins, centers, n);
      RunThrifty(ins, centers, ids, n);
      RunKeeps(ins, centers, n, ids);
      RunKeeps(ins, centers, n + 1, ids);
    }
  }

  lemma RunThrifty(ins: seq<TickInput>, centers: Centers, ids: set<byte>, n: nat)
    requires n < |ins| && ins[n].active && VEHICLE_ID_NONE !in ids && RunFrom(ins, ids)
    ensures Thrifty(Activated(Reached(ins, centers, n).state), Reached(ins, centers, n + 1).state,
        Sent(ins, centers, n))
  {
    hide TickFacts, Thrifty, Chosen, Tick, ApplyAll, TableFrom, StepsFrom, Legal, Introduced;
    var p := Reached(ins, centers, n);
    RunKeeps(ins, centers, n, ids);
    assert StepsFrom(ins[n].before, ids);
    ApplyAllFrom(p.others, ins[n].before, ids);
    var o1 := ApplyAll(p.others, ins[n].before);
    if ins[n].self.Some? && Chosen(o1, ins[n].self.value, centers).Some? {
      ChosenFrom(o1, ins[n].self.value, centers, ids);
    }
    TickMeasured(p, ins[n], centers);
  }
}
