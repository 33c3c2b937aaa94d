/** Choosing the vehicle to warn about: the nearest one that shares a conflict zone with us on a
    conflicting movement.
  */
module Candidates {
  import opened Binary
  import opened CanCodec
  import opened Vehicles

  const RIGHT_VS_STRAIGHT: byte := 1
  const RIGHT_VS_LEFT: byte := 2
  const LEFT_VS_STRAIGHT: byte := 4
  const LEFT_VS_RIGHT: byte := 8

  // Centres of the known conflict zones, truncated to 16 bits as the messages carry them.
  type Centers = map<string, (word, word)>

  datatype Selection = Selection(vehicle: VehicleInfo, typeMask: byte, zoneId: string, centerX: word, centerY: word)

  // ----- Shared zones

  predicate Names(v: VehicleInfo, zone: string) {
    zone != "" && zone in Zones(v)
  }

  method VehicleHasConflictZone(v: VehicleInfo, zone: string) returns (has: bool)
    ensures has == Names(v, zone)
  {
    if zone == "" {
      return false;
    }
    var i := 0;
    while i < |v.conflictZoneIds| && i < MAX_CONFLICT_ZONES
      invariant i <= |Zones(v)| && zone !in Zones(v)[..i]
    {
      if v.conflictZoneIds[i] == zone {
        assert zone == Zones(v)[i];
        return true;
      }
      i := i + 1;
    }
    return false;
  }

  /** The first of `zones` that the other vehicle names. */
  function FirstNamed(zones: seq<string>, other: VehicleInfo): Option<string> {
    if zones == [] then None
    else if Names(other, zones[0]) then Some(zones[0])
    else FirstNamed(zones[1..], other)
  }

  function SharedZone(self: VehicleInfo, other: VehicleInfo): Option<string> {
    FirstNamed(Zones(self), other)
  }

  method FindSharedConflictZone(self: VehicleInfo, other: VehicleInfo) returns (zone: Option<string>)
    ensures zone == SharedZone(self, other)
  {
    var i := 0;
    while i < |self.conflictZoneIds| && i < MAX_CONFLICT_ZONES
      invariant i <= |Zones(self)|
      invariant FirstNamed(Zones(self)[i..], other) == SharedZone(self, other)
    {
      var has := VehicleHasConflictZone(other, self.conflictZoneIds[i]);
      if has {
        return Some(self.conflictZoneIds[i]);
      }
      i := i + 1;
    }
    return None;
  }

  lemma {:induction false} FirstNamedIff(zones: seq<string>, other: VehicleInfo)
    ensures FirstNamed(zones, other).Some? <==> exists z :: z in zones && Names(other, z)
    ensures FirstNamed(zones, other).Some?
        ==> FirstNamed(zones, other).value in zones && Names(other, FirstNamed(zones, other).value)
  {
    if zones != [] && !Names(other, zones[0]) {
      FirstNamedIff(zones[1..], other);
    }
  }

  /** A shared zone is found iff some zone is named by both, so whichever vehicle looks, the answer is the same. */
  lemma SharedZoneIff(self: VehicleInfo, other: VehicleInfo)
    ensures SharedZone(self, other).Some? <==> exists z :: Names(self, z) && Names(other, z)
    ensures SharedZone(self, other).Some? <==> SharedZone(other, self).Some?
    ensures SharedZone(self, other).Some?
        ==> Names(self, SharedZone(self, other).value) && Names(other, SharedZone(self, other).value)
  {
    FirstNamedIff(Zones(self), other);
    FirstNamedIff(Zones(other), self);
  }

  /** The zone found is the first of our own that the other vehicle names. */
  lemma {:induction false} FirstNamedIsFirst(zones: seq<string>, other: VehicleInfo)
    ensures FirstNamed(zones, other).Some? ==>
              exists i :: 0 <= i < |zones| && zones[i] == FirstNamed(zones, other).value && Names(other, zones[i])
                          && forall j | 0 <= j < i :: !Names(other, zones[j])
  {
    hide Names;
    if zones != [] {
      if Names(other, zones[0]) {
        assert zones[0] == FirstNamed(zones, other).value;
      } else if FirstNamed(zones, other).Some? {
        FirstNamedIsFirst(zones[1..], other);
        var i :| 0 <= i < |zones| - 1 && zones[1..][i] == FirstNamed(zones, other).value && Names(other, zones[1..][i])
                 && forall j | 0 <= j < i :: !Names(other, zones[1..][j]);
        forall j | 0 <= j < i + 1
          ensures !Names(other, zones[j])
        {
          assert j > 0 ==> zones[j] == zones[1..][j - 1];
        }
        assert zones[i + 1] == FirstNamed(zones, other).value;
      }
    }
  }

  // ----- Conflicting movements

  function TypeMask(self: VehicleInfo, other: VehicleInfo): Option<byte> {
    if self.turnState == RIGHT_TURN then
      if other.turnState == STRAIGHT then Some(RIGHT_VS_STRAIGHT)
      else if other.turnState == LEFT_TURN then Some(RIGHT_VS_LEFT)
      else None
    else if self.turnState == UNPROTECTED_LEFT then
      if other.turnState == STRAIGHT then Some(LEFT_VS_STRAIGHT)
      else if other.turnState == RIGHT_TURN then Some(LEFT_VS_RIGHT)
      else None
    else None
  }

  /** The four conflicts that are warned of, with the masks on the wire. */
  predicate Warns(ownTurn: string, otherTurn: string, mask: nat) {
    || (ownTurn == "right_turn" && otherTurn == "straight" && mask == 1)
    || (ownTurn == "right_turn" && otherTurn == "left_turn" && mask == 2)
    || (ownTurn == "unprotected_left" && otherTurn == "straight" && mask == 4)
    || (ownTurn == "unprotected_left" && otherTurn == "right_turn" && mask == 8)
  }

  lemma MaskWarns(self: VehicleInfo, other: VehicleInfo, mask: byte)
    ensures TypeMask(self, other) == Some(mask) <==> Warns(self.turnState, other.turnState, mask)
  {
    assert |RIGHT_TURN| == 10 && |LEFT_TURN| == 9 && |STRAIGHT| == 8 && |UNPROTECTED_LEFT| == 16;
  }

  /** Each mask stands for one pair of movements: equal masks mean equal turn states on both sides. */
  lemma MaskNamesMovements(self: VehicleInfo, other: VehicleInfo, self': VehicleInfo, other': VehicleInfo)
    requires TypeMask(self, other).Some? && TypeMask(self', other').Some?
    ensures TypeMask(self, other) == TypeMask(self', other') <==>
            self.turnState == self'.turnState && other.turnState == other'.turnState
  {
    assert |RIGHT_TURN| == 10 && |LEFT_TURN| == 9 && |STRAIGHT| == 8 && |UNPROTECTED_LEFT| == 16;
  }

  // ----- Distance

  function Abs(n: int): nat {
    if n < 0 then -n else n
  }

  function Square(n: int): nat {
    Abs(n) * Abs(n)
  }

  function TrueDistance(a: VehicleInfo, b: VehicleInfo): nat {
    Square(a.x - b.x) + Square(a.y - b.y)
  }

  /** The squared distance in 32-bit arithmetic. Where the signed arithmetic of the program is undefined this is
      what two's-complement wrapping yields. */
  function DistanceSquared(a: VehicleInfo, b: VehicleInfo): nat {
    TrueDistance(a, b) % TWO_32
  }

  /** Both squares and their sum are representable as signed 32-bit integers. */
  predicate DistanceDefined(a: VehicleInfo, b: VehicleInfo) {
    Square(a.x - b.x) < TWO_31 && Square(a.y - b.y) < TWO_31 && TrueDistance(a, b) < TWO_31
  }

  predicate OnCanGrid(v: VehicleInfo) {
    v.x < 1024 && v.y < 2048
  }

  lemma SquareMonotone(n: int, bound: nat)
    requires Abs(n) <= bound
    ensures Square(n) <= bound * bound
  {
  }

  /** The program's signed arithmetic is defined exactly below 2^31, and there it is exact. */
  lemma DistanceDefinedIff(a: VehicleInfo, b: VehicleInfo)
    ensures TrueDistance(a, b) == (a.x - b.x) * (a.x - b.x) + (a.y - b.y) * (a.y - b.y)
    ensures DistanceDefined(a, b) <==> TrueDistance(a, b) < TWO_31
    ensures DistanceDefined(a, b) ==> DistanceSquared(a, b) == TrueDistance(a, b)
  {
    SquareIs(a.x - b.x);
    SquareIs(a.y - b.y);
    hide Square;
  }

  lemma SquareIs(n: int)
    ensures Square(n) == n * n
  {
  }

  /** Coordinates that fit the CAN fields stay far below that bound. */
  lemma CanGridIsDefined(a: VehicleInfo, b: VehicleInfo)
    requires OnCanGrid(a) && OnCanGrid(b)
    ensures DistanceDefined(a, b) && DistanceSquared(a, b) == TrueDistance(a, b)
  {
    SquareMonotone(a.x - b.x, 1023);
    SquareMonotone(a.y - b.y, 2047);
  }

  /** Off the grid the arithmetic can overflow: vehicles 46341 apart along one axis are the closest that do. */
  lemma OverflowOffGrid(a: VehicleInfo, b: VehicleInfo)
    requires a.y == b.y && a.x >= b.x
    ensures DistanceDefined(a, b) <==> a.x - b.x < 46341
  {
    var d := a.x - b.x;
    assert Square(a.y - b.y) == 0;
    if d < 46341 {
      SquareMonotone(d, 46340);
    } else {
      LargeSquare(d);
    }
  }

  lemma LargeSquare(d: nat)
    requires d >= 46341
    ensures Square(d) >= TWO_31
  {
    assert d * d >= 46341 * d >= 46341 * 46341;
  }

  // ----- Selection

  /** What selecting `other` would announce, if it is eligible. */
  function Candidate(self: VehicleInfo, other: VehicleInfo, centers: Centers): Option<Selection> {
    if other.vehicleId == self.vehicleId then None
    else
      var zone, mask := SharedZone(self, other), TypeMask(self, other);
      if zone.None? || mask.None? || zone.value !in centers then None
      else Some(Selection(other, mask.value, zone.value, centers[zone.value].0, centers[zone.value].1))
  }

  /** `zone` is the first of our zones that the other vehicle names. */
  ghost predicate FirstShared(self: VehicleInfo, other: VehicleInfo, zone: string) {
    exists i :: 0 <= i < |Zones(self)| && Zones(self)[i] == zone && Names(other, zone)
                && forall j | 0 <= j < i :: !Names(other, Zones(self)[j])
  }

  /** What a candidate consists of: the other vehicle's record as it is, the mask of the conflict, and the first
      shared zone with its centre. */
  lemma CandidateMeans(self: VehicleInfo, other: VehicleInfo, centers: Centers)
    ensures Candidate(self, other, centers).Some? ==>
              var sel := Candidate(self, other, centers).value;
              && sel.vehicle == other && other.vehicleId != self.vehicleId
              && Warns(self.turnState, other.turnState, sel.typeMask)
              && FirstShared(self, other, sel.zoneId)
              && sel.zoneId in centers && (sel.centerX, sel.centerY) == centers[sel.zoneId]
  {
    hide TypeMask, Warns, FirstNamed;
    if Candidate(self, other, centers).Some? {
      MaskWarns(self, other, Candidate(self, other, centers).value.typeMask);
      FirstNamedIsFirst(Zones(self), other);
    }
  }

  predicate Eligible(self: VehicleInfo, other: VehicleInfo, centers: Centers) {
    Candidate(self, other, centers).Some?
  }

  /** The candidate among the first `n` copied records: a strictly nearer one replaces the best so far. */
  function Select(self: VehicleInfo, others: seq<VehicleInfo>, centers: Centers, n: nat): Option<Selection>
    requires n <= |others|
  {
    if n == 0 then None
    else
      var best, next := Select(self, others, centers, n - 1), Candidate(self, others[n - 1], centers);
      if next.None? then best
      else if best.None? || DistanceSquared(self, others[n - 1]) < DistanceSquared(self, best.value.vehicle) then next
      else best
  }

  method SelectCandidateVehicle(self: VehicleInfo, others: seq<VehicleInfo>, centers: Centers)
    returns (best: Option<Selection>)
    ensures best == Select(self, others, centers, |others|)
  {
    best := None;
    var bestDistance := TWO_32 - 1;
    for i := 0 to |others|
      invariant best == Select(self, others, centers, i)
      invariant best.Some? ==> bestDistance == DistanceSquared(self, best.value.vehicle)
    {
      if others[i].vehicleId == self.vehicleId {
        continue;
      }
      var zone := FindSharedConflictZone(self, others[i]);
      if zone.None? {
        continue;
      }
      var mask := TypeMask(self, others[i]);
      if mask.None? {
        continue;
      }
      if zone.value !in centers {
        continue;
      }
      var dist := DistanceSquared(self, others[i]);
      if best.None? || dist < bestDistance {
        best := Some(Selection(others[i], mask.value, zone.value, centers[zone.value].0, centers[zone.value].1));
        bestDistance := dist;
      }
    }
  }

  /** `i` is the first of the nearest eligible records among the first `n`. */
  ghost predicate Nearest(self: VehicleInfo, others: seq<VehicleInfo>, centers: Centers, n: nat, i: nat)
    requires n <= |others|
  {
    && i < n && Eligible(self, others[i], centers)
    && (forall j | 0 <= j < n && Eligible(self, others[j], centers) ::
          && DistanceSquared(self, others[i]) <= DistanceSquared(self, others[j])
          && (j < i ==> DistanceSquared(self, others[i]) < DistanceSquared(self, others[j])))
  }

  /** Selection succeeds iff some record is eligible, and then takes the nearest, the lowest slot among equals. */
  lemma SelectIsNearest(self: VehicleInfo, others: seq<VehicleInfo>, centers: Centers, n: nat)
    requires n <= |others|
    ensures var best := Select(self, others, centers, n);
            && (best.Some? <==> exists i: nat :: i < n && Eligible(self, others[i], centers))
            && (best.Some? ==> exists i: nat ::
                Nearest(self, others, centers, n, i) && best == Candidate(self, others[i], centers))
  {
    hide Candidate, DistanceSquared;
    var i := NearestIndex(self, others, centers, n);
  }

  lemma {:induction false} NearestIndex(self: VehicleInfo, others: seq<VehicleInfo>, centers: Centers, n: nat)
    returns (i: nat)
    requires n <= |others|
    ensures var best := Select(self, others, centers, n);
            if best.Some? then Nearest(self, others, centers, n, i) && best == Candidate(self, others[i], centers)
            else forall j: nat | j < n :: !Eligible(self, others[j], centers)
  {
    hide Candidate, DistanceSquared;
    i := 0;
    if n > 0 {
      i := NearestIndex(self, others, centers, n - 1);
      var best := Select(self, others, centers, n - 1);
      if best.Some? {
        CandidateIsVehicle(self, others[i], centers);
      }
      if Eligible(self, others[n - 1], centers)
          && (best.None? || DistanceSquared(self, others[n - 1]) < DistanceSquared(self, others[i])) {
        i := n - 1;
      }
    }
  }

  lemma CandidateIsVehicle(self: VehicleInfo, other: VehicleInfo, centers: Centers)
    ensures Eligible(self, other, centers) ==> Candidate(self, other, centers).value.vehicle == other
  {
  }

  /** Eligibility in the terms of the data: another vehicle, a zone named by both whose centre is known, and
      conflicting movements. */
  lemma EligibleIff(self: VehicleInfo, other: VehicleInfo, centers: Centers)
    ensures Eligible(self, other, centers) <==>
      && other.vehicleId != self.vehicleId
      && SharedZone(self, other).Some? && SharedZone(self, other).value in centers
      && (|| (self.turnState == RIGHT_TURN && (other.turnState == STRAIGHT || other.turnState == LEFT_TURN))
          || (self.turnState == UNPROTECTED_LEFT && (other.turnState == STRAIGHT || other.turnState == RIGHT_TURN)))
  {
    hide SharedZone;
    assert |RIGHT_TURN| == 10 && |UNPROTECTED_LEFT| == 16;
  }

  /** Nearest means nearest wherever the arithmetic is defined for all eligible vehicles: none of them is truly closer
      than the one selected. */
  lemma SelectIsTrulyNearest(self: VehicleInfo, others: seq<VehicleInfo>, centers: Centers)
    requires forall i | 0 <= i < |others| && Eligible(self, others[i], centers) :: DistanceDefined(self, others[i])
    ensures var best := Select(self, others, centers, |others|);
            best.Some? ==> forall j | 0 <= j < |others| && Eligible(self, others[j], centers) ::
                TrueDistance(self, best.value.vehicle) <= TrueDistance(self, others[j])
  {
    hide Candidate, TrueDistance, DistanceSquared, DistanceDefined;
    var best := Select(self, others, centers, |others|);
    var i := NearestIndex(self, others, centers, |others|);
    if best.Some? {
      CandidateIsVehicle(self, others[i], centers);
      DistanceDefinedIff(self, others[i]);
      forall j | 0 <= j < |others| && Eligible(self, others[j], centers)
        ensures TrueDistance(self, best.value.vehicle) <= TrueDistance(self, others[j])
      {
        DistanceDefinedIff(self, others[j]);
      }
    }
  }

  /** So it does on the CAN grid. */
  lemma SelectIsNearestOnGrid(self: VehicleInfo, others: seq<VehicleInfo>, centers: Centers)
    requires OnCanGrid(self) && forall i | 0 <= i < |others| :: OnCanGrid(others[i])
    ensures var best := Select(self, others, centers, |others|);
            best.Some? ==> forall j | 0 <= j < |others| && Eligible(self, others[j], centers) ::
                TrueDistance(self, best.value.vehicle) <= TrueDistance(self, others[j])
  {
    hide TrueDistance, Select, Eligible, DistanceDefined;
    forall i | 0 <= i < |others|
      ensures DistanceDefined(self, others[i])
    {
      CanGridIsDefined(self, others[i]);
    }
    SelectIsTrulyNearest(self, others, centers);
  }

  /** Where overflow wraps, selection itself goes wrong: of two eligible vehicles it takes the one about 65536 away
      rather than the one at distance 100. */
  lemma WrappedSelectionTakesFar(self: VehicleInfo, near: VehicleInfo, far: VehicleInfo, centers: Centers)
    requires self.x == self.y == near.y == 0 && near.x == 100 && far.x == 65535 && far.y == 363
    requires Eligible(self, near, centers) && Eligible(self, far, centers)
    ensures Select(self, [near, far], centers, 2) == Candidate(self, far, centers)
    ensures TrueDistance(self, far) > TrueDistance(self, near)
  {
    hide Candidate;
    assert Square(self.x - far.x) == 65535 * 65535 && Square(self.y - far.y) == 363 * 363
        && Square(self.x - near.x) == 10000;
    assert DistanceSquared(self, far) < DistanceSquared(self, near);
    CandidateIsVehicle(self, near, centers);
    assert Select(self, [near, far], centers, 1) == Candidate(self, near, centers);
  }

  // ----- The farthest zone of our own, for the traffic-light message

  function TrueZoneDistance(self: VehicleInfo, center: (word, word)): nat {
    Square(center.0 - self.x) + Square(center.1 - self.y)
  }

  function ZoneDistance(self: VehicleInfo, center: (word, word)): nat {
    TrueZoneDistance(self, center) % TWO_32
  }

  lemma ZoneDistanceIs(self: VehicleInfo, center: (word, word))
    ensures TrueZoneDistance(self, center)
         == (center.0 - self.x) * (center.0 - self.x) + (center.1 - self.y) * (center.1 - self.y)
  {
    SquareIs(center.0 - self.x);
    SquareIs(center.1 - self.y);
    hide Square;
  }

  predicate Known(self: VehicleInfo, centers: Centers, i: nat) {
    i < |Zones(self)| && Zones(self)[i] in centers
  }

  /** The centre picked among the first `n` of our zones: a strictly farther one replaces the best so far. */
  function FarthestZone(self: VehicleInfo, centers: Centers, n: nat): Option<(word, word)>
    requires n <= |Zones(self)|
  {
    if n == 0 then None
    else
      var best := FarthestZone(self, centers, n - 1);
      if Known(self, centers, n - 1)
          && (best.None? || ZoneDistance(self, centers[Zones(self)[n - 1]]) > ZoneDistance(self, best.value))
      then Some(centers[Zones(self)[n - 1]]) else best
  }

  method SelectFarthestZoneCenter(self: VehicleInfo, centers: Centers) returns (best: Option<(word, word)>)
    ensures best == FarthestZone(self, centers, |Zones(self)|)
  {
    hide ZoneDistance;
    best := None;
    var bestDistance := 0;
    var i := 0;
    while i < |self.conflictZoneIds| && i < MAX_CONFLICT_ZONES
      invariant i <= |Zones(self)|
      invariant best == FarthestZone(self, centers, i)
      invariant best.Some? ==> bestDistance == ZoneDistance(self, best.value)
    {
      var zone := self.conflictZoneIds[i];
      assert zone == Zones(self)[i];
      if zone in centers {
        var dist := ZoneDistance(self, centers[zone]);
        if best.None? || dist > bestDistance {
          best, bestDistance := Some(centers[zone]), dist;
        }
      }
      i := i + 1;
    }
  }

  /** `i` is the first of the farthest known zones among the first `n`. */
  ghost predicate Farthest(self: VehicleInfo, centers: Centers, n: nat, i: nat) {
    && i < n && Known(self, centers, i)
    && (forall j: nat | j < n && Known(self, centers, j) ::
          && ZoneDistance(self, centers[Zones(self)[j]]) <= ZoneDistance(self, centers[Zones(self)[i]])
          && (j < i ==> ZoneDistance(self, centers[Zones(self)[j]]) < ZoneDistance(self, centers[Zones(self)[i]])))
  }

  /** A centre is picked iff one of our zones has a known centre, and then it is the first of the farthest. */
  lemma {:induction false} FarthestIsFarthest(self: VehicleInfo, centers: Centers, n: nat) returns (i: nat)
    requires n <= |Zones(self)|
    ensures var best := FarthestZone(self, centers, n);
            if best.Some? then Farthest(self, centers, n, i) && best.value == centers[Zones(self)[i]]
            else forall j: nat | j < n :: !Known(self, centers, j)
  {
    hide ZoneDistance;
    i := 0;
    if n > 0 {
      i := FarthestIsFarthest(self, centers, n - 1);
      if FarthestZone(self, centers, n) != FarthestZone(self, centers, n - 1) {
        i := n - 1;
      }
    }
  }

  /** Farthest means farthest wherever the arithmetic is defined: no known zone of ours is truly farther. */
  lemma FarthestIsTrulyFarthest(self: VehicleInfo, centers: Centers)
    requires forall i: nat | Known(self, centers, i) :: TrueZoneDistance(self, centers[Zones(self)[i]]) < TWO_31
    ensures var best := FarthestZone(self, centers, |Zones(self)|);
            best.Some? ==> forall j: nat | Known(self, centers, j) ::
                TrueZoneDistance(self, centers[Zones(self)[j]]) <= TrueZoneDistance(self, best.value)
  {
    hide TrueZoneDistance;
    var i := FarthestIsFarthest(self, centers, |Zones(self)|);
  }
}
