/** What the table of other vehicles holds after any sequence of MQTT updates and cleanups, and so at any point of a run
    of the transmit loop.
  */
module OtherVehicleRuns {
  import opened CanCodec
  import opened Vehicles
  import opened OtherVehicles
  import opened Candidates
  import opened CanTx
  import opened CanTxRuns

  /** Step `k` is the last update for vehicle `id`. */
  predicate LastHeard(steps: seq<MqttStep>, id: nat, k: nat) {
    && k < |steps| && steps[k].Update? && steps[k].v.vehicleId == id
    && forall j | k < j < |steps| :: !(steps[j].Update? && steps[j].v.vehicleId == id)
  }

  predicate NeverHeard(steps: seq<MqttStep>, id: nat) {
    forall j | 0 <= j < |steps| :: !(steps[j].Update? && steps[j].v.vehicleId == id)
  }

  /** No cleanup after step `k` found that update too old. */
  predicate Spared(steps: seq<MqttStep>, k: nat)
    requires k < |steps| && steps[k].Update?
  {
    forall j | k < j < |steps| && steps[j].Cleanup? ::
        (steps[j].nowMs - steps[k].updateMs) % TWO_64 <= steps[j].timeoutMs
  }

  /** The table tells the truth about slot `id`: never heard of, or the last update with its time, valid unless
      cleaned. */
  ghost predicate Slot(o: Others, steps: seq<MqttStep>, id: nat)
    requires WellSized(o) && id < 64
  {
    && (NeverHeard(steps, id) ==> !o.valid[id])
    && forall k: nat | LastHeard(steps, id, k) ::
         && o.table[id] == steps[k].v && o.lastUpdatedMs[id] == steps[k].updateMs
         && (o.valid[id] <==> Spared(steps, k))
  }

  lemma LastHeardNext(steps: seq<MqttStep>, id: nat, k: nat)
    requires steps != []
    ensures var n, step := |steps| - 1, steps[|steps| - 1];
            LastHeard(steps, id, k) <==>
            if step.Update? && step.v.vehicleId == id then k == n else LastHeard(steps[..n], id, k)
  {
    var n := |steps| - 1;
    if LastHeard(steps[..n], id, k) && !(steps[n].Update? && steps[n].v.vehicleId == id) {
      forall j | k < j < |steps|
        ensures !(steps[j].Update? && steps[j].v.vehicleId == id)
      {
        assert j < n ==> steps[..n][j] == steps[j];
      }
    }
    if LastHeard(steps, id, k) && k < n {
      assert !(steps[n].Update? && steps[n].v.vehicleId == id);
      assert forall j | 0 <= j < n :: steps[..n][j] == steps[j];
    }
  }

  lemma NeverHeardNext(steps: seq<MqttStep>, id: nat)
    requires steps != []
    ensures var n, step := |steps| - 1, steps[|steps| - 1];
            NeverHeard(steps, id) <==> !(step.Update? && step.v.vehicleId == id) && NeverHeard(steps[..n], id)
  {
    var n := |steps| - 1;
    assert forall j | 0 <= j < n :: steps[..n][j] == steps[j];
  }

  lemma SparedNext(steps: seq<MqttStep>, k: nat)
    requires k < |steps| && steps[k].Update?
    ensures var n, step := |steps| - 1, steps[|steps| - 1];
            Spared(steps, k) <==>
            k == n || (Spared(steps[..n], k)
                       && (step.Cleanup? ==> (step.nowMs - steps[k].updateMs) % TWO_64 <= step.timeoutMs))
  {
    var n := |steps| - 1;
    assert forall j | 0 <= j < n :: steps[..n][j] == steps[j];
    if k < n && Spared(steps[..n], k)
        && (steps[n].Cleanup? ==> (steps[n].nowMs - steps[k].updateMs) % TWO_64 <= steps[n].timeoutMs) {
      forall j | k < j < |steps| && steps[j].Cleanup?
        ensures (steps[j].nowMs - steps[k].updateMs) % TWO_64 <= steps[j].timeoutMs
      {
        assert j < n ==> steps[..n][j] == steps[j];
      }
    }
  }

  /** What one step does to slot `id`. */
  lemma StepOnSlot(o: Others, step: MqttStep, id: nat)
    requires WellSized(o) && id < 64
    ensures var o' := Apply(o, step);
            if step.Update? && step.v.vehicleId == id then
              o'.table[id] == step.v && o'.lastUpdatedMs[id] == step.updateMs && o'.valid[id]
            else
              && o'.table[id] == o.table[id] && o'.lastUpdatedMs[id] == o.lastUpdatedMs[id]
              && o'.valid[id] == (o.valid[id]
                                  && (step.Cleanup? ==> (step.nowMs - o.lastUpdatedMs[id]) % TWO_64 <= step.timeoutMs))
  {
  }

  /** The table in closed form: after any steps each slot holds the last update for its id with the time of that update,
      and is valid iff there was one and no cleanup since found it too old. */
  lemma {:induction false} TableClosedForm(steps: seq<MqttStep>, id: nat)
    requires id < 64
    ensures Slot(ApplyAll(Empty(), steps), steps, id)
  {
    hide Apply, LastHeard, NeverHeard, Spared;
    if steps == [] {
      NothingHeard(id);
    } else {
      var n, o := |steps| - 1, ApplyAll(Empty(), steps[..|steps| - 1]);
      TableClosedForm(steps[..n], id);
      StepOnSlot(o, steps[n], id);
      NeverHeardNext(steps, id);
      forall k: nat | LastHeard(steps, id, k)
        ensures var o' := ApplyAll(Empty(), steps);
                && k < |steps| && steps[k].Update?
                && o'.table[id] == steps[k].v && o'.lastUpdatedMs[id] == steps[k].updateMs
                && (o'.valid[id] <==> Spared(steps, k))
      {
        HeardIsUpdate(steps, id, k);
        LastHeardNext(steps, id, k);
        SparedNext(steps, k);
        if k < n {
          HeardIsUpdate(steps[..n], id, k);
        }
      }
    }
  }

  lemma NothingHeard(id: nat)
    requires id < 64
    ensures !Empty().valid[id] && NeverHeard([], id) && forall k: nat :: !LastHeard([], id, k)
  {
  }

  lemma HeardIsUpdate(steps: seq<MqttStep>, id: nat, k: nat)
    requires LastHeard(steps, id, k)
    ensures k < |steps| && steps[k].Update? && steps[k].v.vehicleId == id
    ensures k < |steps| - 1 ==> !(steps[|steps| - 1].Update? && steps[|steps| - 1].v.vehicleId == id)
  {
  }

  /** A vehicle was heard of or not: some update is the last, or there is none. */
  lemma {:induction false} HeardOrNot(steps: seq<MqttStep>, id: nat) returns (k: nat)
    ensures LastHeard(steps, id, k) || NeverHeard(steps, id)
  {
    hide LastHeard, NeverHeard;
    k := 0;
    if steps == [] {
      NothingToHear(id);
    } else {
      var n := |steps| - 1;
      NeverHeardNext(steps, id);
      if steps[n].Update? && steps[n].v.vehicleId == id {
        k := n;
      } else {
        k := HeardOrNot(steps[..n], id);
      }
      LastHeardNext(steps, id, k);
    }
  }

  lemma NothingToHear(id: nat)
    ensures NeverHeard([], id)
  {
  }

  /** A slot is valid iff its vehicle was heard of and spared since. */
  lemma ValidIff(steps: seq<MqttStep>, id: nat)
    requires id < 64
    ensures ApplyAll(Empty(), steps).valid[id] <==> exists k: nat :: LastHeard(steps, id, k) && Spared(steps, k)
  {
    hide LastHeard, NeverHeard, Spared, ApplyAll;
    TableClosedForm(steps, id);
    var k := HeardOrNot(steps, id);
    if LastHeard(steps, id, k) {
      HeardIsUpdate(steps, id, k);
    }
  }

  /** A record with an id of 64 or more leaves no trace, and no slot ever holds a valid record with another id. */
  lemma IdsStored(steps: seq<MqttStep>, v: VehicleInfo, updateMs: nat, id: nat)
    requires id < 64
    ensures v.vehicleId >= 64 ==> ApplyAll(Empty(), steps + [Update(v, updateMs)]) == ApplyAll(Empty(), steps)
    ensures ApplyAll(Empty(), steps).valid[id] ==> ApplyAll(Empty(), steps).table[id].vehicleId == id
  {
    hide LastHeard, NeverHeard, Spared, Empty;
    assert (steps + [Update(v, updateMs)])[..|steps|] == steps;
    TableClosedForm(steps, id);
    var k := HeardOrNot(steps, id);
    if LastHeard(steps, id, k) {
      HeardIsUpdate(steps, id, k);
    }
  }

  // ----- The candidate slot under cleanup

  /** A cleanup withdraws the candidate iff it drops that vehicle's slot. */
  lemma CleanupWithdrawsIff(o: Others, now: nat, timeoutMs: nat)
    requires WellSized(o) && o.candidate.Some?
    ensures var id, o' := o.candidate.value.vehicleId, Cleaned(o, now, timeoutMs);
            o'.candidate == if id < 64 && o.valid[id] && !o'.valid[id] then None else o.candidate
  {
  }

  // ----- Runs of the transmit loop

  /** All MQTT steps of the first `n` ticks. */
  function StepsBefore(ins: seq<TickInput>, n: nat): seq<MqttStep>
    requires n <= |ins|
  {
    if n == 0 then [] else StepsBefore(ins, n - 1) + ins[n - 1].before + ins[n - 1].during
  }

  predicate SameTable(o: Others, p: Others) {
    o.table == p.table && o.valid == p.valid && o.lastUpdatedMs == p.lastUpdatedMs
  }

  lemma {:induction false} ApplyAllSameTable(o: Others, p: Others, steps: seq<MqttStep>)
    requires WellSized(o) && WellSized(p) && SameTable(o, p)
    ensures SameTable(ApplyAll(o, steps), ApplyAll(p, steps))
  {
    if steps != [] {
      ApplyAllSameTable(o, p, steps[..|steps| - 1]);
      ApplySameTable(ApplyAll(o, steps[..|steps| - 1]), ApplyAll(p, steps[..|steps| - 1]), steps[|steps| - 1]);
    }
  }

  lemma ApplySameTable(o: Others, p: Others, step: MqttStep)
    requires WellSized(o) && WellSized(p) && SameTable(o, p)
    ensures SameTable(Apply(o, step), Apply(p, step))
  {
  }

  lemma {:induction false} ApplyAllConcat(o: Others, a: seq<MqttStep>, b: seq<MqttStep>)
    requires WellSized(o)
    ensures ApplyAll(o, a + b) == ApplyAll(ApplyAll(o, a), b)
  {
    hide Apply;
    if b == [] {
      assert a + b == a;
    } else {
      ApplyAllConcat(o, a, b[..|b| - 1]);
      assert (a + b)[..|a + b| - 1] == a + b[..|b| - 1];
    }
  }

  /** The transmit loop never touches the table: at every tick boundary it holds what MQTT steps so far put there. */
  lemma {:induction false} TableOfRun(ins: seq<TickInput>, centers: Centers, n: nat)
    requires n <= |ins|
    ensures SameTable(Reached(ins, centers, n).others, ApplyAll(Empty(), StepsBefore(ins, n)))
  {
    hide Mode, ApplyAll, LightMessages, SameTable;
    if n == 0 {
      NoStepsAtStart();
    } else {
      TableOfRun(ins, centers, n - 1);
      var o, p := Reached(ins, centers, n - 1).others, ApplyAll(Empty(), StepsBefore(ins, n - 1));
      var input := ins[n - 1];
      ApplyAllSameTable(o, p, input.before);
      ApplyAllSameTable(ApplyAll(o, input.before), ApplyAll(p, input.before), input.during);
      ApplyAllConcat(Empty(), StepsBefore(ins, n - 1), input.before);
      ApplyAllConcat(Empty(), StepsBefore(ins, n - 1) + input.before, input.during);
      TickKeepsTable(Reached(ins, centers, n - 1).state, o, input, centers);
    }
  }

  lemma NoStepsAtStart()
    ensures SameTable(Empty(), ApplyAll(Empty(), []))
  {
  }

  lemma TickKeepsTable(s: TxState, o: Others, input: TickInput, centers: Centers)
    requires WellSized(o)
    ensures var o' := ApplyAll(ApplyAll(o, input.before), input.during);
            forall p | WellSized(p) :: SameTable(Tick(s, o, input, centers).others, p) <==> SameTable(o', p)
  {
    hide Mode, ApplyAll, LightMessages;
  }

  /** So the closed form holds along every run. */
  lemma SlotOfRun(ins: seq<TickInput>, centers: Centers, n: nat, id: nat)
    requires n <= |ins| && id < 64
    ensures Slot(Reached(ins, centers, n).others, StepsBefore(ins, n), id)
  {
    hide LastHeard, NeverHeard, Spared, ApplyAll, StepsBefore, Reached;
    TableOfRun(ins, centers, n);
    TableClosedForm(StepsBefore(ins, n), id);
  }
}
