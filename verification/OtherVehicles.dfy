/** The table of other vehicles heard of over MQTT, one slot per vehicle id, and the candidate slot that
    the transmit thread fills. Every method is one locked section.
  */
module OtherVehicles {
  import opened CanCodec
  import opened Vehicles

  // The manager's state as a value.
  datatype Others = Others(
    table: seq<VehicleInfo>,
    valid: seq<bool>,
    lastUpdatedMs: seq<nat>,
    candidate: Option<VehicleInfo>)

  predicate WellSized(o: Others) {
    |o.table| == |o.valid| == |o.lastUpdatedMs| == MAX_OTHER_VEHICLES
  }

  function Empty(): (o: Others)
    ensures WellSized(o)
  {
    Others(
      seq(MAX_OTHER_VEHICLES, _ => NO_VEHICLE),
      seq(MAX_OTHER_VEHICLES, _ => false),
      seq(MAX_OTHER_VEHICLES, _ => 0),
      None)
  }

  function Updated(o: Others, v: VehicleInfo, now: nat): (o': Others)
    requires WellSized(o)
    ensures WellSized(o')
  {
    if v.vehicleId >= MAX_OTHER_VEHICLES then o
    else o.(table := o.table[v.vehicleId := v],
            valid := o.valid[v.vehicleId := true],
            lastUpdatedMs := o.lastUpdatedMs[v.vehicleId := now])
  }

  /** Elapsed time in 64-bit unsigned arithmetic: it wraps when the update is later than `now`. */
  function Age(now: nat, last: nat): nat {
    (now - last) % TWO_64
  }

  predicate Stale(o: Others, i: nat, now: nat, timeoutMs: nat)
    requires WellSized(o)
  {
    i < MAX_OTHER_VEHICLES && o.valid[i] && Age(now, o.lastUpdatedMs[i]) > timeoutMs
  }

  function Cleaned(o: Others, now: nat, timeoutMs: nat): (o': Others)
    requires WellSized(o)
    ensures WellSized(o')
  {
    o.(valid := seq(MAX_OTHER_VEHICLES, i requires 0 <= i < MAX_OTHER_VEHICLES =>
         o.valid[i] && !Stale(o, i, now, timeoutMs)),
       candidate :=
         if o.candidate.Some? && Stale(o, o.candidate.value.vehicleId, now, timeoutMs) then None else o.candidate)
  }

  /** The valid records among the first `n` slots, in slot order. */
  function ValidVehicles(o: Others, n: nat): (r: seq<VehicleInfo>)
    requires WellSized(o) && n <= MAX_OTHER_VEHICLES
    ensures |r| <= n
  {
    if n == 0 then [] else ValidVehicles(o, n - 1) + if o.valid[n - 1] then [o.table[n - 1]] else []
  }

  class OtherVehicleManager {
    const table: array<VehicleInfo>
    const valid: array<bool>
    const lastUpdatedMs: array<nat>
    var candidate: VehicleInfo
    var candidateValid: bool

    ghost predicate Valid()
      reads this
    {
      table.Length == valid.Length == lastUpdatedMs.Length == MAX_OTHER_VEHICLES
    }

    ghost function State(): (o: Others)
      reads this, table, valid, lastUpdatedMs
      requires Valid()
      ensures WellSized(o)
    {
      Others(table[..], valid[..], lastUpdatedMs[..], if candidateValid then Some(candidate) else None)
    }

    constructor ()
      ensures Valid() && fresh(table) && fresh(valid) && fresh(lastUpdatedMs)
      ensures State() == Empty()
    {
      table := new VehicleInfo[MAX_OTHER_VEHICLES](_ => NO_VEHICLE);
      valid := new bool[MAX_OTHER_VEHICLES](_ => false);
      lastUpdatedMs := new nat[MAX_OTHER_VEHICLES](_ => 0);
      candidate := NO_VEHICLE;
      candidateValid := false;
    }

    method Update(v: VehicleInfo, now: nat)
      requires Valid()
      modifies table, valid, lastUpdatedMs
      ensures State() == Updated(old(State()), v, now)
    {
      if v.vehicleId >= MAX_OTHER_VEHICLES {
        return;
      }
      table[v.vehicleId] := v;
      valid[v.vehicleId] := true;
      lastUpdatedMs[v.vehicleId] := now;
    }

    method CopyValid(maxCount: nat) returns (out: seq<VehicleInfo>)
      requires Valid()
      ensures var all := ValidVehicles(State(), MAX_OTHER_VEHICLES);
              out == if |all| <= maxCount then all else all[..maxCount]
    {
      out := [];
      var i := 0;
      while i < MAX_OTHER_VEHICLES && |out| < maxCount
        invariant i <= MAX_OTHER_VEHICLES && |out| <= maxCount
        invariant out == ValidVehicles(State(), i)
      {
        if valid[i] {
          out := out + [table[i]];
        }
        i := i + 1;
      }
      ValidVehiclesGrow(State(), i, MAX_OTHER_VEHICLES);
    }

    method CleanupStale(now: nat, timeoutMs: nat)
      requires Valid()
      modifies this, valid
      ensures State() == Cleaned(old(State()), now, timeoutMs)
    {
      for i := 0 to MAX_OTHER_VEHICLES
        invariant forall j | 0 <= j < i :: valid[j] == (old(valid[j]) && !Stale(old(State()), j, now, timeoutMs))
        invariant forall j | i <= j < MAX_OTHER_VEHICLES :: valid[j] == old(valid[j])
        invariant candidateValid == (old(candidateValid)
            && !(old(candidate).vehicleId < i && Stale(old(State()), old(candidate).vehicleId, now, timeoutMs)))
        invariant candidateValid ==> candidate == old(candidate)
      {
        if valid[i] {
          if Age(now, lastUpdatedMs[i]) > timeoutMs {
            valid[i] := false;
            if candidateValid && candidate.vehicleId == i {
              candidate := NO_VEHICLE;
              candidateValid := false;
            }
          }
        }
      }
    }

    method SetCandidate(v: Option<VehicleInfo>)
      requires Valid()
      modifies this
      ensures State() == old(State()).(candidate := v)
    {
      match v
      case Some(vehicle) =>
        candidate := vehicle;
        candidateValid := true;
      case None =>
        candidate := NO_VEHICLE;
        candidateValid := false;
    }

    method GetCandidate() returns (v: Option<VehicleInfo>)
      requires Valid()
      ensures v == State().candidate
    {
      v := if candidateValid then Some(candidate) else None;
    }
  }

  lemma {:induction false} ValidVehiclesGrow(o: Others, m: nat, n: nat)
    requires WellSized(o) && m <= n <= MAX_OTHER_VEHICLES
    ensures |ValidVehicles(o, m)| <= |ValidVehicles(o, n)|
        && ValidVehicles(o, n)[..|ValidVehicles(o, m)|] == ValidVehicles(o, m)
  {
    if m < n {
      ValidVehiclesGrow(o, m, n - 1);
    }
  }

  /** A copy holds exactly the valid slots' records. */
  lemma {:induction false} CopyHoldsValidSlots(o: Others, n: nat, v: VehicleInfo)
    requires WellSized(o) && n <= MAX_OTHER_VEHICLES
    ensures v in ValidVehicles(o, n) <==> exists i :: 0 <= i < n && o.valid[i] && o.table[i] == v
  {
    if n > 0 {
      CopyHoldsValidSlots(o, n - 1, v);
      assert v in ValidVehicles(o, n) <==> v in ValidVehicles(o, n - 1) || (o.valid[n - 1] && o.table[n - 1] == v);
    }
  }

  /** A valid slot's record sits in the copy where the count of valid slots before it says. */
  lemma CopyKeepsSlotOrder(o: Others, i: nat, n: nat)
    requires WellSized(o) && i < n <= MAX_OTHER_VEHICLES && o.valid[i]
    ensures var copy, before := ValidVehicles(o, n), |ValidVehicles(o, i)|;
            before < |copy| && copy[before] == o.table[i] && copy[..before] == ValidVehicles(o, i)
  {
    ValidVehiclesGrow(o, i + 1, n);
    var through, copy, before := ValidVehicles(o, i + 1), ValidVehicles(o, n), |ValidVehicles(o, i)|;
    assert through == ValidVehicles(o, i) + [o.table[i]];
    assert copy[..|through|] == through && copy[before] == copy[..|through|][before];
    assert copy[..before] == copy[..|through|][..before] == through[..before];
  }

  /** Exactly which records a cleanup drops. The clock is sampled before the lock is taken, so an update
      can be later than `now`; the unsigned difference then wraps and the freshest record is dropped. */
  lemma CleanupDropsExactly(o: Others, i: nat, now: nat, timeoutMs: nat)
    requires WellSized(o) && i < MAX_OTHER_VEHICLES && o.valid[i]
    requires now < TWO_64 && o.lastUpdatedMs[i] < TWO_64
    ensures var last := o.lastUpdatedMs[i];
            !Cleaned(o, now, timeoutMs).valid[i] <==>
            if last <= now then now - last > timeoutMs else TWO_64 - (last - now) > timeoutMs
  {
    var last := o.lastUpdatedMs[i];
    if last <= now {
      assert Age(now, last) == now - last;
    } else {
      assert Age(now, last) == now - last + TWO_64;
    }
  }

  /** A record written one millisecond after the cleanup read its clock is dropped, under the program's timeout of 500
      ms. */
  lemma FreshRecordDropped(v: VehicleInfo, now: nat)
    requires v.vehicleId < MAX_OTHER_VEHICLES && now + 1 < TWO_64
    ensures Updated(Empty(), v, now + 1).valid[v.vehicleId]
    ensures !Cleaned(Updated(Empty(), v, now + 1), now, 500).valid[v.vehicleId]
  {
    CleanupDropsExactly(Updated(Empty(), v, now + 1), v.vehicleId, now, 500);
  }
}
