/** The selected candidate in terms of the table of other vehicles: slots rather than positions in a copied list. */
module CandidateSlots {
  import opened CanCodec
  import opened Vehicles
  import opened OtherVehicles
  import opened Candidates
  import opened CanTx

  predicate EligibleSlot(o: Others, self: VehicleInfo, centers: Centers, i: nat)
    requires WellSized(o)
  {
    i < 64 && o.valid[i] && Eligible(self, o.table[i], centers)
  }

  /** Slot `i` is the lowest of the nearest eligible slots below `n`. */
  ghost predicate NearestSlot(o: Others, self: VehicleInfo, centers: Centers, n: nat, i: nat)
    requires WellSized(o)
  {
    && i < n && EligibleSlot(o, self, centers, i)
    && forall j: nat | j < n && EligibleSlot(o, self, centers, j) ::
         && DistanceSquared(self, o.table[i]) <= DistanceSquared(self, o.table[j])
         && (j < i ==> DistanceSquared(self, o.table[i]) < DistanceSquared(self, o.table[j]))
  }

  lemma {:induction false} SelectOfPrefix(self: VehicleInfo, a: seq<VehicleInfo>, b: seq<VehicleInfo>, centers: Centers,
      n: nat)
    requires n <= |a|
    ensures Select(self, a + b, centers, n) == Select(self, a, centers, n)
  {
    hide Candidate, DistanceSquared;
    if n > 0 {
      SelectOfPrefix(self, a, b, centers, n - 1);
    }
  }

  /** What is selected from the copy of the first `n` slots. */
  function SlotSelection(o: Others, self: VehicleInfo, centers: Centers, n: nat): Option<Selection>
    requires WellSized(o) && n <= 64
  {
    var others := ValidVehicles(o, n);
    Select(self, others, centers, |others|)
  }

  /** A valid slot more puts one more record before the selection; an invalid one changes nothing. */
  lemma SlotSelectionNext(o: Others, self: VehicleInfo, centers: Centers, n: nat)
    requires WellSized(o) && n < 64
    ensures var best, next := SlotSelection(o, self, centers, n), Candidate(self, o.table[n], centers);
            SlotSelection(o, self, centers, n + 1) ==
            if !o.valid[n] || next.None? then best
            else if best.None? then next
            else if DistanceSquared(self, o.table[n]) < DistanceSquared(self, best.value.vehicle) then next
            else best
  {
    hide Candidate, DistanceSquared;
    var others := ValidVehicles(o, n);
    if o.valid[n] {
      SelectOfPrefix(self, others, [o.table[n]], centers, |others|);
    } else {
      assert others + [] == others;
    }
  }

  lemma {:induction false} SelectedSlot(o: Others, self: VehicleInfo, centers: Centers, n: nat) returns (i: nat)
    requires WellSized(o) && n <= 64
    ensures var best := SlotSelection(o, self, centers, n);
            if best.Some? then
              NearestSlot(o, self, centers, n, i) && best == Candidate(self, o.table[i], centers)
            else
              forall j: nat | j < n :: !EligibleSlot(o, self, centers, j)
  {
    hide Candidate, DistanceSquared, SlotSelection;
    i := 0;
    if n == 0 {
      NoSlots(o, self, centers);
    } else {
      i := SelectedSlot(o, self, centers, n - 1);
      SlotSelectionNext(o, self, centers, n - 1);
      var best := SlotSelection(o, self, centers, n - 1);
      if best.Some? {
        CandidateIsVehicle(self, o.table[i], centers);
      }
      if EligibleSlot(o, self, centers, n - 1)
          && (best.None? || DistanceSquared(self, o.table[n - 1]) < DistanceSquared(self, o.table[i])) {
        i := n - 1;
      }
    }
  }

  lemma NoSlots(o: Others, self: VehicleInfo, centers: Centers)
    requires WellSized(o)
    ensures SlotSelection(o, self, centers, 0) == None
  {
  }

  /** A candidate is chosen iff some valid slot is eligible, and it is the record of the lowest slot among the
      nearest. */
  lemma ChosenIsNearestSlot(o: Others, self: VehicleInfo, centers: Centers)
    requires WellSized(o)
    ensures Chosen(o, self, centers).Some? <==> exists i: nat :: EligibleSlot(o, self, centers, i)
    ensures Chosen(o, self, centers).Some? ==>
              exists i: nat ::
                && NearestSlot(o, self, centers, 64, i)
                && Chosen(o, self, centers) == Candidate(self, o.table[i], centers)
  {
    hide Candidate, DistanceSquared, Select;
    var i := SelectedSlot(o, self, centers, 64);
    assert Chosen(o, self, centers) == SlotSelection(o, self, centers, 64);
  }

  /** The rule settles the outcome: two slots that are both lowest of the nearest are the same slot. */
  lemma NearestSlotIsUnique(o: Others, self: VehicleInfo, centers: Centers, i: nat, j: nat)
    requires WellSized(o)
    requires NearestSlot(o, self, centers, 64, i)
        && NearestSlot(o, self, centers, 64, j)
    ensures i == j
  {
    hide EligibleSlot, DistanceSquared;
  }

  /** With the distance arithmetic defined for all eligible slots, nearest is meant of the true distance. */
  lemma ChosenIsTrulyNearest(o: Others, self: VehicleInfo, centers: Centers)
    requires WellSized(o)
    requires forall j: nat | EligibleSlot(o, self, centers, j) :: DistanceDefined(self, o.table[j])
    ensures var chosen := Chosen(o, self, centers);
            chosen.Some? ==> forall j: nat | EligibleSlot(o, self, centers, j) ::
                TrueDistance(self, chosen.value.vehicle) <= TrueDistance(self, o.table[j])
  {
    hide Candidate, DistanceSquared, TrueDistance, DistanceDefined, Select;
    var i := SelectedSlot(o, self, centers, 64);
    assert Chosen(o, self, centers) == SlotSelection(o, self, centers, 64);
    if Chosen(o, self, centers).Some? {
      CandidateIsVehicle(self, o.table[i], centers);
      DistanceDefinedIff(self, o.table[i]);
      forall j: nat | EligibleSlot(o, self, centers, j)
        ensures TrueDistance(self, o.table[i]) <= TrueDistance(self, o.table[j])
      {
        DistanceDefinedIff(self, o.table[j]);
      }
    }
  }
}
