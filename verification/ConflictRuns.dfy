/** Conflict detection over whole runs of two vehicles: which zones their records name at any moment, and when they
    are found to share one.
  */
module ConflictRuns {
  import opened Binary
  import opened Vehicles
  import opened Candidates
  import opened ConflictMap
  import opened ConflictIndex
  import opened ConflictCompleteness
  import opened SelfVehicle
  import opened CanRx
  import opened Geometry
  import opened MapService

  // The frames a vehicle has received so far.
  datatype Run = Run(id: byte, frames: seq<Frame>)

  /** The vehicle's record after its run. */
  function Record(run: Run, relations: seq<Relation>, behind: Behind): VehicleInfo
    requires FramesFit(run.frames)
  {
    ReachedRx(run.id, relations, behind, run.frames, |run.frames|).self.info
  }

  /** The turn in force after the first `n` frames. */
  function TurnAfter(frames: seq<Frame>, n: nat): TurnState
    requires n <= |frames|
  {
    FirstEnabled(frames, SinceOff(frames, n), n)
  }

  /** An on-lane frame leaves the record filled for the lane of its context and the turn then in force. */
  lemma FrameFills(id: byte, relations: seq<Relation>, behind: Behind, frames: seq<Frame>, k: nat)
    requires k < |frames| && FramesFit(frames) && OnLane(frames[k].context)
    ensures FilledFor(ReachedRx(id, relations, behind, frames, k + 1).self.info, relations, frames[k].context.laneletId,
                      TurnAfter(frames, k + 1))
  {
    hide FilledZones, TurnStateName, SensedAt, FreshInfo, FirstEnabled, DecideTurnState;
    TurnStateClosedForm(id, relations, behind, frames, k + 1);
  }

  // ----- What a record names

  predicate LastOnLane(frames: seq<Frame>, k: nat) {
    k < |frames| && OnLane(frames[k].context) && forall i | k < i < |frames| :: !OnLane(frames[i].context)
  }

  /** No frame from `from` on found the zone behind the vehicle. */
  predicate NotPassed(behind: Behind, frames: seq<Frame>, from: nat, zone: string)
    requires FramesFit(frames)
  {
    forall i | from <= i < |frames| :: !behind(zone, frames[i].ego.x, frames[i].ego.y, frames[i].ego.heading)
  }

  /** The zone was filled in at the last on-lane frame and has not been passed since. */
  predicate Tracks(relations: seq<Relation>, behind: Behind, frames: seq<Frame>, k: nat, zone: string)
    requires FramesFit(frames)
  {
    && LastOnLane(frames, k)
    && zone in FilledZones(relations, frames[k].context.laneletId, TurnAfter(frames, k + 1))
    && NotPassed(behind, frames, k + 1, zone)
  }

  lemma {:induction false} FindLastOnLane(frames: seq<Frame>, n: nat) returns (k: nat)
    requires n <= |frames| && forall i | n <= i < |frames| :: !OnLane(frames[i].context)
    ensures LastOnLane(frames, k) || forall i | 0 <= i < |frames| :: !OnLane(frames[i].context)
  {
    hide OnLane;
    k := 0;
    if n > 0 {
      if OnLane(frames[n - 1].context) {
        k := n - 1;
      } else {
        k := FindLastOnLane(frames, n - 1);
      }
    }
  }

  lemma NeverBehindIsNotPassed(run: Run, relations: seq<Relation>, behind: Behind, k: nat, zone: string)
    requires FramesFit(run.frames) && LastOnLane(run.frames, k)
    ensures var n := |run.frames|;
            NeverBehind(behind, StepsOf(run.id, relations, behind, run.frames, n), 2 * k + 2, 2 * n, zone) <==>
            NotPassed(behind, run.frames, k + 1, zone)
  {
    hide OnLane, StepsOf, ReachedRx;
    var frames, n := run.frames, |run.frames|;
    var steps := StepsOf(run.id, relations, behind, frames, n);
    if NeverBehind(behind, steps, 2 * k + 2, 2 * n, zone) {
      forall i | k < i < n
        ensures !behind(zone, frames[i].ego.x, frames[i].ego.y, frames[i].ego.heading)
      {
        FrameOfRun(frames, i);
        StepsAt(run.id, relations, behind, frames, n, i);
        assert Filters(steps[2 * i + 1]);
      }
    }
    if NotPassed(behind, frames, k + 1, zone) {
      forall i | 2 * k + 2 <= i < 2 * n && Filters(steps[i])
        ensures !behind(zone, steps[i].ego.x, steps[i].ego.y, steps[i].ego.heading)
      {
        StepsAt(run.id, relations, behind, frames, n, i / 2);
        assert i == 2 * (i / 2) + 1;
      }
    }
  }

  lemma NoLaneNamesNothing(run: Run, relations: seq<Relation>, behind: Behind)
    requires FramesFit(run.frames) && forall i | 0 <= i < |run.frames| :: !OnLane(run.frames[i].context)
    ensures Record(run, relations, behind).conflictZoneIds == []
  {
    hide OnLane, FramesFit, StepsFit, StepsOf, ReachedRx;
    var n := |run.frames|;
    var steps := StepsOf(run.id, relations, behind, run.frames, n);
    FramesAreSteps(run.id, relations, behind, run.frames, n);
    forall i | 0 <= i < 2 * n
      ensures !Fills(steps[i])
    {
      StepsAt(run.id, relations, behind, run.frames, n, i / 2);
    }
    NothingTracked(run.id, relations, behind, steps, 2 * n);
  }

  lemma ShortListIsWhole(v: VehicleInfo)
    requires |v.conflictZoneIds| <= MAX_CONFLICT_ZONES
    ensures forall zone :: Names(v, zone) <==> zone != "" && zone in v.conflictZoneIds
  {
  }

  lemma NamesAfterLane(run: Run, relations: seq<Relation>, behind: Behind, k: nat, zone: string)
    requires FramesFit(run.frames) && ZonesNamed(relations) && LastOnLane(run.frames, k)
    ensures Names(Record(run, relations, behind), zone) <==> Tracks(relations, behind, run.frames, k, zone)
  {
    hide OnLane, FramesFit, StepsFit, StepsOf, ReachedRx, ZonesNamed, Unpassed, NeverBehind, NotPassed, FilledZones;
    hide Names, FirstEnabled;
    var frames, n := run.frames, |run.frames|;
    var filled := FilledZones(relations, frames[k].context.laneletId, TurnAfter(frames, k + 1));
    ZonesOfFrames(run.id, relations, behind, frames, k, n);
    FilledZonesNamed(relations, frames[k].context.laneletId, TurnAfter(frames, k + 1));
    UnpassedMembers(filled, behind, StepsOf(run.id, relations, behind, frames, n), 2 * k + 2, 2 * n, zone);
    NeverBehindIsNotPassed(run, relations, behind, k, zone);
    ShortListIsWhole(Record(run, relations, behind));
  }

  /** A record names exactly the zones filled in at the last on-lane frame and passed in no frame since. */
  lemma NamesIffTracks(run: Run, relations: seq<Relation>, behind: Behind, zone: string)
    requires FramesFit(run.frames) && ZonesNamed(relations)
    ensures Names(Record(run, relations, behind), zone)
        <==> exists k: nat :: Tracks(relations, behind, run.frames, k, zone)
  {
    hide OnLane, FramesFit, ZonesNamed, Record, NotPassed, FilledZones, FirstEnabled;
    var k := FindLastOnLane(run.frames, |run.frames|);
    if LastOnLane(run.frames, k) {
      NamesAfterLane(run, relations, behind, k, zone);
      if l: nat :| Tracks(relations, behind, run.frames, l, zone) {
        assert l == k;
      }
    } else {
      NoLaneNamesNothing(run, relations, behind);
    }
  }

  // ----- Two vehicles

  /** Two vehicles are found to share a zone iff some zone was filled in for both at their last on-lane frames and has
      been passed by neither since. */
  lemma SharedOverRuns(a: Run, b: Run, relations: seq<Relation>, behind: Behind)
    requires FramesFit(a.frames) && FramesFit(b.frames) && ZonesNamed(relations)
    ensures SharedZone(Record(a, relations, behind), Record(b, relations, behind)).Some? <==>
            exists k: nat, l: nat, zone ::
              Tracks(relations, behind, a.frames, k, zone) && Tracks(relations, behind, b.frames, l, zone)
  {
    hide FramesFit, ZonesNamed, Record, Tracks, Names, SharedZone;
    var v, w := Record(a, relations, behind), Record(b, relations, behind);
    SharedZoneIff(v, w);
    if SharedZone(v, w).Some? {
      var zone :| Names(v, zone) && Names(w, zone);
      NamesIffTracks(a, relations, behind, zone);
      NamesIffTracks(b, relations, behind, zone);
    }
    if k: nat, l: nat, zone
        :| Tracks(relations, behind, a.frames, k, zone) && Tracks(relations, behind, b.frames, l, zone) {
      NamesIffTracks(a, relations, behind, zone);
      NamesIffTracks(b, relations, behind, zone);
    }
  }

  /** Every frame carries what the map says about its position. */
  ghost predicate OnMap(roads: Roads, frames: seq<Frame>) {
    forall i | 0 <= i < |frames| ::
      ContextAt(roads, Point(frames[i].ego.x as real, frames[i].ego.y as real), frames[i].context)
  }

  /** The last on-lane frame was on a lane with the id. */
  ghost predicate LastOn(roads: Roads, frames: seq<Frame>, k: nat, lane: string) {
    && LastOnLane(frames, k)
    && exists i: nat :: FirstLaneAt(roads.lanes, Point(frames[k].ego.x as real, frames[k].ego.y as real), i)
                        && roads.lanes[i].lanelet.id == lane
  }

  /** The context of a frame names the lane by its first 15 characters. */
  lemma ContextNamesLane(roads: Roads, frames: seq<Frame>, k: nat, lane: string)
    requires OnMap(roads, frames) && LastOn(roads, frames, k, lane)
    ensures frames[k].context.laneletId == ShortId(lane)
  {
    hide InCenterArea, Inside, ShortId;
    var p := Point(frames[k].ego.x as real, frames[k].ego.y as real);
    assert ContextAt(roads, p, frames[k].context) && frames[k].context != NO_CONTEXT;
  }

  lemma RelationFills(relations: seq<Relation>, r: Relation, lane: string, t: TurnState)
    requires r in relations && TakesPart(r, Participant(lane, Movement(t))) && AtMostFourZones(relations, lane, t)
    ensures ShortId(r.zoneId) in FilledZones(relations, lane, t)
  {
    hide TakesPart, Movement, ShortId;
    var p := Participant(lane, Movement(t));
    ZonesOfMembers(relations, p, r.zoneId);
    LookupMembers(relations, p, MAX_CONFLICT_ZONES, r.zoneId);
    var zones := Lookup(relations, p, MAX_CONFLICT_ZONES);
    assert r.zoneId in zones;
    var i :| 0 <= i < |zones| && zones[i] == r.zoneId;
    assert FilledZones(relations, lane, t)[i] == ShortId(r.zoneId);
  }

  /** The vehicle was last on a lane whose movement takes part in the relation. The lane's id survives the cut and the
      movement has at most four zones. */
  ghost predicate JoinedBy(r: Relation, run: Run, roads: Roads, relations: seq<Relation>, k: nat, lane: string) {
    && LastOn(roads, run.frames, k, lane) && |lane| <= ID_LENGTH
    && TakesPart(r, Participant(lane, Movement(TurnAfter(run.frames, k + 1))))
    && AtMostFourZones(relations, lane, TurnAfter(run.frames, k + 1))
  }

  /** Such a vehicle tracks the relation's zone exactly until a frame finds it behind. */
  lemma RelationTracked(r: Relation, run: Run, roads: Roads, relations: seq<Relation>, behind: Behind, k: nat,
      lane: string)
    requires FramesFit(run.frames) && OnMap(roads, run.frames)
    requires r in relations && JoinedBy(r, run, roads, relations, k, lane)
    ensures Tracks(relations, behind, run.frames, k, ShortId(r.zoneId)) <==>
            NotPassed(behind, run.frames, k + 1, ShortId(r.zoneId))
  {
    hide FramesFit, OnMap, TakesPart, AtMostFourZones, NotPassed, FilledZones, OnLane, FirstEnabled, FirstLaneAt,
        Movement;
    ContextNamesLane(roads, run.frames, k, lane);
    RelationFills(relations, r, lane, TurnAfter(run.frames, k + 1));
  }

  /** Completeness over runs: two vehicles last on lanes whose movements one relation joins are found to share a
      zone, by whichever looks, as long as neither has passed the relation's zone. */
  lemma RelatedVehiclesShare(r: Relation, a: Run, b: Run, roads: Roads, relations: seq<Relation>, behind: Behind,
      k: nat, laneA: string, l: nat, laneB: string)
    requires FramesFit(a.frames) && OnMap(roads, a.frames) && FramesFit(b.frames) && OnMap(roads, b.frames)
    requires ZonesNamed(relations) && r in relations
    requires JoinedBy(r, a, roads, relations, k, laneA) && NotPassed(behind, a.frames, k + 1, ShortId(r.zoneId))
    requires JoinedBy(r, b, roads, relations, l, laneB) && NotPassed(behind, b.frames, l + 1, ShortId(r.zoneId))
    ensures SharedZone(Record(a, relations, behind), Record(b, relations, behind)).Some?
    ensures SharedZone(Record(b, relations, behind), Record(a, relations, behind)).Some?
  {
    hide FramesFit, OnMap, ZonesNamed, JoinedBy, NotPassed, Tracks, Record, SharedZone, ShortId;
    RelationTracked(r, a, roads, relations, behind, k, laneA);
    RelationTracked(r, b, roads, relations, behind, l, laneB);
    SharedOverRuns(a, b, relations, behind);
    SharedZoneIff(Record(a, relations, behind), Record(b, relations, behind));
  }

  /** The same from the map file: one element lists both movements among its first four participants with a lane,
      and the file asks for no more relations than the table holds. */
  lemma RelatedInFileOverRuns(m: RoadMap, es: seq<Element>, e: Element, a: Run, b: Run, roads: Roads, behind: Behind,
      k: nat, laneA: string, l: nat, laneB: string)
    requires m.relations == [] && |RelationsOf(es)| <= 32 && e in es && FormsRelation(e)
    requires FramesFit(a.frames) && OnMap(roads, a.frames) && FramesFit(b.frames) && OnMap(roads, b.frames)
    requires JoinedBy(RelationOf(e), a, roads, WithElements(m, es).relations, k, laneA)
    requires JoinedBy(RelationOf(e), b, roads, WithElements(m, es).relations, l, laneB)
    requires NotPassed(behind, a.frames, k + 1, ShortId(e.zoneId))
        && NotPassed(behind, b.frames, l + 1, ShortId(e.zoneId))
    ensures var relations := WithElements(m, es).relations;
            && SharedZone(Record(a, relations, behind), Record(b, relations, behind)).Some?
            && SharedZone(Record(b, relations, behind), Record(a, relations, behind)).Some?
  {
    hide FramesFit, OnMap, ZonesNamed, JoinedBy, NotPassed, Record, SharedZone, ShortId, RelationsOf, WithElements,
        RelationOf;
    RelationsLoaded(m, es);
    RelationsNamed(es);
    RelationListed(es, e);
    ZoneOfRelation(e);
    RelatedVehiclesShare(RelationOf(e), a, b, roads, WithElements(m, es).relations, behind, k, laneA, l, laneB);
  }

  /** The turn a frame enables, from the signal and from what the map says of the lane under the vehicle. */
  lemma TurnEnabledOnMap(roads: Roads, f: Frame, i: nat, j: nat)
    requires IsLaneContext(roads, Point(f.ego.x as real, f.ego.y as real), i, j, f.context)
    ensures var lane, signal := roads.lanes[j], f.ego.turnSignal;
            && (Enables(f) == RightTurn <==> signal == 1 && lane.maneuver == "straight_right")
            && (Enables(f) == LeftTurn <==> signal == 2 && lane.maneuver == "straight_left" && !lane.unprotectedLeft)
            && (Enables(f) == UnprotectedLeft <==>
                  signal == 2 && lane.maneuver == "straight_left" && lane.unprotectedLeft)
  {
    hide Inside, ShortId;
    assert |"straight_right"| != |"straight_left"|;
  }

  /** Off all lanes and in the intersection centre no turn is enabled. */
  lemma NoTurnOffLanes(roads: Roads, f: Frame)
    requires var p := Point(f.ego.x as real, f.ego.y as real);
             && ContextAt(roads, p, f.context)
             && (InCenterArea(p, roads.areas, roads.centerId)
                 || forall i: nat | i < |roads.lanes| :: !Inside(p, roads.lanes[i].points))
    ensures !f.context.found && f.context.laneletId == "" && Enables(f) == Straight && !OnLane(f.context)
  {
    hide Inside, InCenterArea;
  }

  /** A frame counts as on a lane iff its position is outside the centre and the first lane there has an id. */
  lemma OnLaneIff(roads: Roads, p: Point, context: MapContext)
    requires ContextAt(roads, p, context)
    ensures OnLane(context) <==>
      && !InCenterArea(p, roads.areas, roads.centerId)
      && exists i: nat :: FirstLaneAt(roads.lanes, p, i) && roads.lanes[i].lanelet.id != ""
  {
    hide Inside, InCenterArea;
    if !InCenterArea(p, roads.areas, roads.centerId)
        && exists i: nat | i < |roads.lanes| :: Inside(p, roads.lanes[i].points) {
      var i: nat, j: nat :| IsLaneContext(roads, p, i, j, context);
      assert FirstLaneAt(roads.lanes, p, i);
    }
  }

  /** A context carries the lane's id and its traffic light, cut to 15 characters each. */
  lemma TextsOfContext(roads: Roads, p: Point, i: nat, j: nat, context: MapContext)
    requires IsLaneContext(roads, p, i, j, context)
    ensures CutOf(context.laneletId, roads.lanes[i].lanelet.id)
    ensures CutOf(context.trafficLightId, roads.lanes[j].lanelet.trafficLightId)
  {
    hide Inside;
  }
}
