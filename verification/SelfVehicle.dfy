/** Our own vehicle's record and the conflict zones it is tracking: filled from the map while on a lane, then
    only crossed off, zone by zone, once the vehicle has passed them.
  */
module SelfVehicle {
  import opened Binary
  import opened CanCodec
  import opened Vehicles
  import opened ConflictMap
  import opened ConflictIndex

  datatype TurnState = Straight | RightTurn | LeftTurn | UnprotectedLeft

  datatype Direction = UnknownDirection | StraightOnly | ToRight | ToLeft | ToUnprotectedLeft

  // What the map says about a position; the strings are empty when no lane is found.
  datatype MapContext = MapContext(found: bool, laneletId: string, direction: Direction, trafficLightId: string)

  // Whether the centre of a zone lies behind a vehicle at (x, y) with the given heading.
  type Behind = (string, word, word, word) -> bool

  const ID_LENGTH := 15
  const FRESHNESS_MS := 300
  const NO_EGO := EgoVehicle(0, 0, 0, 0, 0, 0)

  /** A copy into a 16-byte id field. */
  function ShortId(id: string): (r: string)
    ensures |id| <= ID_LENGTH ==> r == id
    ensures r == "" <==> id == ""
  {
    Take(id, ID_LENGTH)
  }

  function TurnStateName(t: TurnState): string {
    match t
    case Straight => STRAIGHT
    case RightTurn => RIGHT_TURN
    case LeftTurn => LEFT_TURN
    case UnprotectedLeft => UNPROTECTED_LEFT
  }

  function Movement(t: TurnState): string {
    match t
    case Straight => STRAIGHT
    case RightTurn => RIGHT_TURN
    case LeftTurn | UnprotectedLeft => LEFT_TURN
  }

  function ShortIds(ids: seq<string>): (r: seq<string>)
    ensures |r| == |ids|
  {
    seq(|ids|, i requires 0 <= i < |ids| => ShortId(ids[i]))
  }

  /** The zones of a lane and movement, as many as a record holds. */
  function FilledZones(relations: seq<Relation>, lane: string, t: TurnState): (r: seq<string>)
    ensures |r| <= MAX_CONFLICT_ZONES
  {
    ShortIds(Lookup(relations, Participant(lane, Movement(t)), MAX_CONFLICT_ZONES))
  }

  /** The zones still ahead, in order. */
  function KeptZones(zones: seq<string>, behind: Behind, x: word, y: word, heading: word): (r: seq<string>)
    ensures |r| <= |zones|
  {
    if zones == [] then []
    else
      var n := |zones| - 1;
      KeptZones(zones[..n], behind, x, y, heading)
      + if zones[n] != "" && !behind(zones[n], x, y, heading) then [zones[n]] else []
  }

  predicate FitsRecord(ego: EgoVehicle) {
    ego.x < 0x1_0000 && ego.y < 0x1_0000 && ego.speed < 256 && ego.heading < 0x1_0000
  }

  predicate OnLane(context: MapContext) {
    context.found && context.laneletId != ""
  }

  // ----- The record as a value

  datatype SelfState = SelfState(info: VehicleInfo, turnState: TurnState, valid: bool, ego: EgoVehicle, updatedMs: nat)

  datatype Step =
    | SetTurn(t: TurnState)
    | Ego(ego: EgoVehicle, context: MapContext, timestampMs: nat, atMs: nat)

  function Initial(id: byte): SelfState {
    SelfState(NO_VEHICLE.(vehicleId := id, turnState := STRAIGHT), Straight, false, NO_EGO, 0)
  }

  function ZonesAfter(s: SelfState, relations: seq<Relation>, behind: Behind, ego: EgoVehicle,
      context: MapContext): seq<string>
    requires FitsRecord(ego)
  {
    if OnLane(context) then FilledZones(relations, context.laneletId, s.turnState)
    else KeptZones(s.info.conflictZoneIds, behind, ego.x, ego.y, ego.heading)
  }

  function AfterEgo(s: SelfState, id: byte, relations: seq<Relation>, behind: Behind, ego: EgoVehicle,
      context: MapContext, timestampMs: nat, atMs: nat): SelfState
    requires FitsRecord(ego)
  {
    SelfState(
      VehicleInfo(
        id, ego.x, ego.y, ego.speed, ego.heading,
        if context.found then ShortId(context.laneletId) else "",
        TurnStateName(s.turnState),
        ZonesAfter(s, relations, behind, ego, context),
        if context.found then ShortId(context.trafficLightId) else "",
        timestampMs),
      s.turnState,
      true,
      ego,
      atMs)
  }

  /** The record as readers get it: only while it is at most 300 ms old, by unsigned 64-bit difference. */
  function FreshInfo(s: SelfState, nowMs: nat): Option<VehicleInfo> {
    if s.valid && (nowMs - s.updatedMs) % TWO_64 <= FRESHNESS_MS then Some(s.info) else None
  }

  class SelfVehicleManager {
    const vehicleId: byte
    const relations: seq<Relation>
    const behind: Behind
    var info: VehicleInfo
    var turnState: TurnState
    var valid: bool
    var ego: EgoVehicle
    var lastUpdateMonotonicMs: nat

    ghost function State(): SelfState
      reads this
    {
      SelfState(info, turnState, valid, ego, lastUpdateMonotonicMs)
    }

    constructor (id: byte, relations: seq<Relation>, behind: Behind)
      ensures State() == Initial(id)
      ensures this.vehicleId == id && this.relations == relations && this.behind == behind
    {
      this.vehicleId := id;
      this.relations := relations;
      this.behind := behind;
      info := NO_VEHICLE.(vehicleId := id, turnState := STRAIGHT);
      turnState := Straight;
      valid := false;
      ego := NO_EGO;
      lastUpdateMonotonicMs := 0;
    }

    method GetInfo(nowMs: nat) returns (record: Option<VehicleInfo>)
      ensures record == FreshInfo(State(), nowMs)
    {
      record := if valid && (nowMs - lastUpdateMonotonicMs) % TWO_64 <= FRESHNESS_MS then Some(info) else None;
    }

    method SetTurnState(t: TurnState)
      modifies this`turnState
      ensures turnState == t
    {
      turnState := t;
    }

    method FillConflictZonesFromLane(lane: string)
      modifies this`info
      ensures info == old(info).(conflictZoneIds := if lane == "" then [] else FilledZones(relations, lane, turnState))
    {
      info := info.(conflictZoneIds := []);
      if lane == "" {
        return;
      }
      var zones := Lookup(relations, Participant(lane, Movement(turnState)), MAX_CONFLICT_ZONES);
      for i := 0 to |zones|
        invariant info == old(info).(conflictZoneIds := ShortIds(zones[..i]))
      {
        info := info.(conflictZoneIds := info.conflictZoneIds + [ShortId(zones[i])]);
        assert ShortIds(zones[..i + 1]) == ShortIds(zones[..i]) + [ShortId(zones[i])];
      }
      assert zones[..|zones|] == zones;
    }

    method FilterExistingConflictZones()
      requires |info.conflictZoneIds| <= MAX_CONFLICT_ZONES
      modifies this`info
      ensures var was := old(info);
              info == was.(conflictZoneIds := KeptZones(was.conflictZoneIds, behind, was.x, was.y, was.heading))
    {
      var zones, kept := info.conflictZoneIds, [];
      for i := 0 to |zones|
        invariant kept == KeptZones(zones[..i], behind, info.x, info.y, info.heading)
      {
        assert zones[..i + 1][..i] == zones[..i];
        if zones[i] == "" {
          continue;
        }
        if !behind(zones[i], info.x, info.y, info.heading) {
          kept := kept + [zones[i]];
        }
      }
      assert zones[..|zones|] == zones;
      info := info.(conflictZoneIds := kept);
    }

    method UpdateConflictZones(context: MapContext)
      requires |info.conflictZoneIds| <= MAX_CONFLICT_ZONES
      modifies this`info
      ensures info == old(info).(conflictZoneIds :=
        if OnLane(context) then FilledZones(relations, context.laneletId, turnState)
        else KeptZones(old(info).conflictZoneIds, behind, info.x, info.y, info.heading))
    {
      if context.found && context.laneletId != "" {
        FillConflictZonesFromLane(context.laneletId);
        return;
      }
      FilterExistingConflictZones();
    }

    method UpdateFromCan(ego: EgoVehicle, context: MapContext, timestampMs: nat, atMs: nat)
      requires FitsRecord(ego) && |info.conflictZoneIds| <= MAX_CONFLICT_ZONES
      modifies this
      ensures State() == AfterEgo(old(State()), vehicleId, relations, behind, ego, context, timestampMs, atMs)
      ensures |info.conflictZoneIds| <= MAX_CONFLICT_ZONES
    {
      hide FilledZones, KeptZones, ShortId, TurnStateName, OnLane;
      this.ego := ego;
      info := info.(vehicleId := vehicleId);
      info := info.(x := ego.x, y := ego.y, speed := ego.speed, heading := ego.heading);
      info := info.(timestampMs := timestampMs);
      lastUpdateMonotonicMs := atMs;
      info := info.(laneletId := if context.found then ShortId(context.laneletId) else "");
      info := info.(linkedTlId := if context.found then ShortId(context.trafficLightId) else "");
      info := info.(turnState := TurnStateName(turnState));
      UpdateConflictZones(context);
      valid := true;
    }
  }

  /** The movements under which the map is asked: both kinds of left turn are one. */
  lemma FilledByMovement(relations: seq<Relation>, lane: string, t: TurnState)
    ensures var movement := match t
                            case Straight => "straight"
                            case RightTurn => "right_turn"
                            case LeftTurn => "left_turn"
                            case UnprotectedLeft => "left_turn";
            FilledZones(relations, lane, t) == ShortIds(Lookup(relations, Participant(lane, movement), 4))
  {
    hide Lookup;
  }

  // ----- Runs

  predicate StepsFit(steps: seq<Step>) {
    forall i | 0 <= i < |steps| && steps[i].Ego? :: FitsRecord(steps[i].ego)
  }

  function After(s: SelfState, id: byte, relations: seq<Relation>, behind: Behind, step: Step): SelfState
    requires step.Ego? ==> FitsRecord(step.ego)
  {
    match step
    case SetTurn(t) => s.(turnState := t)
    case Ego(ego, context, timestampMs, atMs) => AfterEgo(s, id, relations, behind, ego, context, timestampMs, atMs)
  }

  /** The state after the first `n` steps. */
  function Reached(id: byte, relations: seq<Relation>, behind: Behind, steps: seq<Step>, n: nat): SelfState
    requires n <= |steps| && StepsFit(steps)
  {
    if n == 0 then Initial(id)
    else After(Reached(id, relations, behind, steps, n - 1), id, relations, behind, steps[n - 1])
  }

  predicate Fills(step: Step) {
    step.Ego? && OnLane(step.context)
  }

  predicate Filters(step: Step) {
    step.Ego? && !OnLane(step.context)
  }

  /** A zone that no off-lane update among steps from..to found behind the vehicle. */
  predicate NeverBehind(behind: Behind, steps: seq<Step>, from: nat, to: nat, zone: string)
    requires from <= to <= |steps| && StepsFit(steps)
  {
    forall i | from <= i < to && Filters(steps[i]) ::
        !behind(zone, steps[i].ego.x, steps[i].ego.y, steps[i].ego.heading)
  }

  /** The zones of a list that no off-lane update among steps from..to found behind, in order. */
  function Unpassed(zones: seq<string>, behind: Behind, steps: seq<Step>, from: nat, to: nat): (r: seq<string>)
    requires from <= to <= |steps| && StepsFit(steps)
    ensures |r| <= |zones|
  {
    if zones == [] then []
    else
      var n := |zones| - 1;
      Unpassed(zones[..n], behind, steps, from, to)
      + if NeverBehind(behind, steps, from, to, zones[n]) then [zones[n]] else []
  }

  lemma {:induction false} UnpassedMembers(zones: seq<string>, behind: Behind, steps: seq<Step>, from: nat, to: nat,
      zone: string)
    requires from <= to <= |steps| && StepsFit(steps)
    ensures zone in Unpassed(zones, behind, steps, from, to)
        <==> zone in zones && NeverBehind(behind, steps, from, to, zone)
  {
    hide NeverBehind;
    if zones != [] {
      UnpassedMembers(zones[..|zones| - 1], behind, steps, from, to, zone);
      assert zones == zones[..|zones| - 1] + [zones[|zones| - 1]];
    }
  }

  lemma {:induction false} UnpassedAtFirst(zones: seq<string>, behind: Behind, steps: seq<Step>, from: nat)
    requires from <= |steps| && StepsFit(steps)
    ensures Unpassed(zones, behind, steps, from, from) == zones
  {
    if zones != [] {
      UnpassedAtFirst(zones[..|zones| - 1], behind, steps, from);
    }
  }

  lemma {:induction false} UnpassedNext(zones: seq<string>, behind: Behind, steps: seq<Step>, from: nat, to: nat)
    requires from <= to < |steps| && StepsFit(steps) && "" !in zones
    ensures var was, step := Unpassed(zones, behind, steps, from, to), steps[to];
            Unpassed(zones, behind, steps, from, to + 1) ==
            if Filters(step) then KeptZones(was, behind, step.ego.x, step.ego.y, step.ego.heading) else was
  {
    hide Filters, StepsFit, NeverBehind;
    if zones != [] {
      var n := |zones| - 1;
      UnpassedNext(zones[..n], behind, steps, from, to);
      NeverBehindNext(behind, steps, from, to, zones[n]);
      FilterFits(steps, to);
      var was := Unpassed(zones[..n], behind, steps, from, to);
      assert (was + [zones[n]])[..|was|] == was && was + [] == was;
    }
  }

  lemma FilterFits(steps: seq<Step>, i: nat)
    requires i < |steps| && StepsFit(steps)
    ensures Filters(steps[i]) ==> steps[i].Ego? && FitsRecord(steps[i].ego)
  {
  }

  lemma NeverBehindNext(behind: Behind, steps: seq<Step>, from: nat, to: nat, zone: string)
    requires from <= to < |steps| && StepsFit(steps)
    ensures NeverBehind(behind, steps, from, to + 1, zone) <==>
            && NeverBehind(behind, steps, from, to, zone)
            && (Filters(steps[to]) ==> !behind(zone, steps[to].ego.x, steps[to].ego.y, steps[to].ego.heading))
  {
  }

  lemma FilledZonesNamed(relations: seq<Relation>, lane: string, t: TurnState)
    requires ZonesNamed(relations)
    ensures "" !in FilledZones(relations, lane, t)
  {
    hide Movement, TakesPart;
    var p := Participant(lane, Movement(t));
    var zones := Lookup(relations, p, MAX_CONFLICT_ZONES);
    forall i | 0 <= i < |zones|
      ensures zones[i] != ""
    {
      DistinctKeepsItems(ZonesOf(relations, p));
      assert zones[i] in Distinct(ZonesOf(relations, p));
      ZonesOfMembers(relations, p, zones[i]);
    }
  }

  /** Zone tracking: after any run the list is, in order, what the last on-lane update (step `k`) filled in for the turn
      state of that moment, without the zones that some off-lane update since then found behind the vehicle. */
  lemma {:induction false} ZonesTracked(id: byte, relations: seq<Relation>, behind: Behind, steps: seq<Step>, k: nat,
      n: nat)
    requires k < n <= |steps| && StepsFit(steps) && ZonesNamed(relations)
    requires Fills(steps[k]) && forall i | k < i < n :: !Fills(steps[i])
    ensures Reached(id, relations, behind, steps, n).info.conflictZoneIds
         == Unpassed(FilledZones(relations, steps[k].context.laneletId,
             Reached(id, relations, behind, steps, k).turnState), behind, steps, k + 1, n)
  {
    hide FilledZones, TurnStateName, Unpassed, KeptZones;
    var filled := FilledZones(relations, steps[k].context.laneletId,
        Reached(id, relations, behind, steps, k).turnState);
    if n == k + 1 {
      UnpassedAtFirst(filled, behind, steps, n);
    } else {
      ZonesTracked(id, relations, behind, steps, k, n - 1);
      FilledZonesNamed(relations, steps[k].context.laneletId, Reached(id, relations, behind, steps, k).turnState);
      UnpassedNext(filled, behind, steps, k + 1, n - 1);
    }
  }

  /** Before the first on-lane update there is nothing to track. */
  lemma {:induction false} NothingTracked(id: byte, relations: seq<Relation>, behind: Behind, steps: seq<Step>, n: nat)
    requires n <= |steps| && StepsFit(steps) && forall i | 0 <= i < n :: !Fills(steps[i])
    ensures Reached(id, relations, behind, steps, n).info.conflictZoneIds == []
  {
    hide TurnStateName;
    if n > 0 {
      NothingTracked(id, relations, behind, steps, n - 1);
    }
  }

  /** Off-lane the list never grows: each update keeps exactly the zones not behind, and repeats none. */
  lemma {:induction false} OffLaneNeverGrows(zones: seq<string>, behind: Behind, x: word, y: word, heading: word,
      zone: string)
    requires "" !in zones
    ensures zone in KeptZones(zones, behind, x, y, heading) <==> zone in zones && !behind(zone, x, y, heading)
    ensures NoRepeats(zones) ==> NoRepeats(KeptZones(zones, behind, x, y, heading))
  {
    if zones != [] {
      var n := |zones| - 1;
      OffLaneNeverGrows(zones[..n], behind, x, y, heading, zone);
      OffLaneNeverGrows(zones[..n], behind, x, y, heading, zones[n]);
      assert zones == zones[..n] + [zones[n]];
      assert NoRepeats(zones) ==> zones[n] !in zones[..n];
    }
  }
}
