/** What the map says about a position, as the receive thread asks for it. */
module MapService {
  import opened ConflictMap
  import opened Geometry
  import opened SelfVehicle
  import opened Vehicles

  datatype RoadLane = RoadLane(lanelet: Lanelet, points: seq<Point>, maneuver: string, unprotectedLeft: bool)

  datatype Roads = Roads(lanes: seq<RoadLane>, areas: seq<Area>, centerId: string)

  const NO_CONTEXT := MapContext(false, "", UnknownDirection, "")

  function DirectionOf(maneuver: string, unprotectedLeft: bool): Direction {
    if maneuver == "straight_right" then ToRight
    else if maneuver == "straight_left" then (if unprotectedLeft then ToUnprotectedLeft else ToLeft)
    else StraightOnly
  }

  /** Ids are cut to 15 characters on the way into a context. */
  function LaneContext(lane: RoadLane): MapContext {
    MapContext(
      true,
      ShortId(lane.lanelet.id),
      DirectionOf(lane.maneuver, lane.unprotectedLeft),
      ShortId(lane.lanelet.trafficLightId))
  }

  function LaneAreas(lanes: seq<RoadLane>): (r: seq<Area>)
    ensures |r| == |lanes|
  {
    seq(|lanes|, i requires 0 <= i < |lanes| => Area(lanes[i].lanelet.id, lanes[i].points))
  }

  /** Lane `i` is the first that contains the point. */
  predicate FirstLaneAt(lanes: seq<RoadLane>, p: Point, i: nat) {
    i < |lanes| && Inside(p, lanes[i].points) && forall j: nat | j < i :: !Inside(p, lanes[j].points)
  }

  /** Lane `j` is the first with the id. */
  predicate FirstLaneNamed(lanes: seq<RoadLane>, id: string, j: nat) {
    j < |lanes| && lanes[j].lanelet.id == id && forall l: nat | l < j :: lanes[l].lanelet.id != id
  }

  /** The context of lane `i` is read from the first lane with its id. */
  predicate IsLaneContext(roads: Roads, p: Point, i: nat, j: nat, context: MapContext) {
    && FirstLaneAt(roads.lanes, p, i)
    && FirstLaneNamed(roads.lanes, roads.lanes[i].lanelet.id, j)
    && context == LaneContext(roads.lanes[j])
  }

  /** No lane is found in the intersection centre or outside all lanes; elsewhere it is the first that contains the
      point. */
  ghost predicate ContextAt(roads: Roads, p: Point, context: MapContext) {
    if || InCenterArea(p, roads.areas, roads.centerId)
       || forall i: nat | i < |roads.lanes| :: !Inside(p, roads.lanes[i].points)
    then context == NO_CONTEXT
    else exists i: nat, j: nat :: IsLaneContext(roads, p, i, j, context)
  }

  method FindLane(lanes: seq<RoadLane>, id: string) returns (j: nat)
    requires exists i :: 0 <= i < |lanes| && lanes[i].lanelet.id == id
    ensures FirstLaneNamed(lanes, id, j)
  {
    j := 0;
    while lanes[j].lanelet.id != id
      invariant j < |lanes| && forall l: nat | l < j :: lanes[l].lanelet.id != id
      decreases |lanes| - j
    {
      j := j + 1;
    }
  }

  method QueryVehicleContext(roads: Roads, p: Point) returns (context: MapContext, inCenter: bool)
    ensures ContextAt(roads, p, context) && inCenter == InCenterArea(p, roads.areas, roads.centerId)
  {
    hide Inside, InCenterArea;
    var result := GetLaneId(p, roads.areas, roads.centerId, LaneAreas(roads.lanes));
    inCenter := result == InCenter;
    assert forall l: nat | l < |roads.lanes| :: LaneAreas(roads.lanes)[l].points == roads.lanes[l].points;
    if !result.InLane? {
      return NO_CONTEXT, inCenter;
    }
    var i := result.index;
    var j := FindLane(roads.lanes, roads.lanes[i].lanelet.id);
    context := LaneContext(roads.lanes[j]);
    assert IsLaneContext(roads, p, i, j, context);
  }

  /** The map says one thing about a position. */
  lemma ContextIsUnique(roads: Roads, p: Point, a: MapContext, b: MapContext)
    requires ContextAt(roads, p, a) && ContextAt(roads, p, b)
    ensures a == b
  {
    hide Inside, InCenterArea;
  }

  // ----- The cut of lane ids

  predicate NamesMovement(relations: seq<Relation>, p: Participant) {
    exists r :: r in relations && TakesPart(r, p)
  }

  /** Ids of up to 15 characters survive the cut. A longer one is looked up by its first 15 characters: unless the map
      uses those as another id, its conflicts are then all lost. */
  lemma CutLaneKeepsZonesIff(relations: seq<Relation>, lane: string, t: TurnState)
    requires NamesMovement(relations, Participant(lane, Movement(t)))
    requires ShortId(lane) != lane ==> !NamesMovement(relations, Participant(ShortId(lane), Movement(t)))
    ensures FilledZones(relations, ShortId(lane), t) == FilledZones(relations, lane, t) <==> |lane| <= ID_LENGTH
    ensures |lane| > ID_LENGTH ==> FilledZones(relations, ShortId(lane), t) == []
  {
    hide Movement, TakesPart;
    var full, cut := Participant(lane, Movement(t)), Participant(ShortId(lane), Movement(t));
    if |lane| > ID_LENGTH {
      assert |ShortId(lane)| == ID_LENGTH;
      NoZonesIff(relations, full);
      NoZonesIff(relations, cut);
    }
  }

  lemma NoZonesIff(relations: seq<Relation>, p: Participant)
    ensures Lookup(relations, p, MAX_CONFLICT_ZONES) == [] <==> !NamesMovement(relations, p)
  {
    hide TakesPart;
    var zones := ZonesOf(relations, p);
    DistinctKeepsItems(zones);
    if NamesMovement(relations, p) {
      var r :| r in relations && TakesPart(r, p);
      ZonesOfMembers(relations, p, r.zoneId);
      assert Distinct(zones) != [];
    } else if zones != [] {
      ZonesOfMembers(relations, p, zones[0]);
    }
  }
}
