/** From the relation table to the detector: records filled in for related movements are found to share a zone. */
module ConflictCompleteness {
  import opened Vehicles
  import opened Candidates
  import opened ConflictMap
  import opened ConflictIndex
  import opened SelfVehicle

  /** A record whose zones were filled in for a turn state and a lane id as it is looked up. */
  predicate FilledFor(v: VehicleInfo, relations: seq<Relation>, lane: string, t: TurnState) {
    v.conflictZoneIds == FilledZones(relations, lane, t)
  }

  function FirstFour(relations: seq<Relation>, lane: string, t: TurnState): seq<string> {
    Lookup(relations, Participant(lane, Movement(t)), MAX_CONFLICT_ZONES)
  }

  /** A record names exactly the 16-byte forms of its first four zones. */
  lemma FilledNames(v: VehicleInfo, relations: seq<Relation>, lane: string, t: TurnState, id: string)
    requires FilledFor(v, relations, lane, t) && ZonesNamed(relations)
    ensures Names(v, id) <==> exists zone :: zone in FirstFour(relations, lane, t) && ShortId(zone) == id
  {
    hide Movement, Lookup, ShortId, ZonesNamed;
    var zones := FirstFour(relations, lane, t);
    FilledZonesNamed(relations, lane, t);
    if id in v.conflictZoneIds {
      var i :| 0 <= i < |zones| && v.conflictZoneIds[i] == id;
      assert zones[i] in zones && ShortId(zones[i]) == id;
    }
    if zone :| zone in zones && ShortId(zone) == id {
      var i :| 0 <= i < |zones| && zones[i] == zone;
      assert v.conflictZoneIds[i] == id;
    }
  }

  /** The detector finds a shared zone iff the two movements have, among the first four zones of each, two with the
      same 16-byte form. */
  lemma SharedIffCommonZone(v: VehicleInfo, w: VehicleInfo, relations: seq<Relation>, a: string, s: TurnState,
      b: string, t: TurnState)
    requires FilledFor(v, relations, a, s) && FilledFor(w, relations, b, t) && ZonesNamed(relations)
    ensures SharedZone(v, w).Some? <==>
            exists y, z ::
              y in FirstFour(relations, a, s) && z in FirstFour(relations, b, t) && ShortId(y) == ShortId(z)
  {
    hide FirstFour, ShortId, Names, FilledFor, SharedZone, ZonesNamed;
    SharedZoneIff(v, w);
    if SharedZone(v, w).Some? {
      FilledNames(v, relations, a, s, SharedZone(v, w).value);
      FilledNames(w, relations, b, t, SharedZone(v, w).value);
    }
    if y, z :| y in FirstFour(relations, a, s) && z in FirstFour(relations, b, t) && ShortId(y) == ShortId(z) {
      FilledNames(v, relations, a, s, ShortId(y));
      FilledNames(w, relations, b, t, ShortId(z));
    }
  }

  predicate AtMostFourZones(relations: seq<Relation>, lane: string, t: TurnState) {
    |Distinct(ZonesOf(relations, Participant(lane, Movement(t))))| <= MAX_CONFLICT_ZONES
  }

  /** Completeness: two vehicles whose movements take part in one relation, each with at most four different zones,
      always share a zone, whichever of them looks. */
  lemma RelatedMovementsShare(v: VehicleInfo, w: VehicleInfo, relations: seq<Relation>, r: Relation, a: string,
      s: TurnState, b: string, t: TurnState)
    requires FilledFor(v, relations, a, s) && FilledFor(w, relations, b, t) && ZonesNamed(relations)
    requires r in relations && TakesPart(r, Participant(a, Movement(s))) && TakesPart(r, Participant(b, Movement(t)))
    requires AtMostFourZones(relations, a, s) && AtMostFourZones(relations, b, t)
    ensures SharedZone(v, w).Some? && SharedZone(w, v).Some?
  {
    hide FilledFor, SharedZone, ZonesNamed, Movement, TakesPart, Lookup, ShortId;
    ZonesOfMembers(relations, Participant(a, Movement(s)), r.zoneId);
    ZonesOfMembers(relations, Participant(b, Movement(t)), r.zoneId);
    LookupMembers(relations, Participant(a, Movement(s)), MAX_CONFLICT_ZONES, r.zoneId);
    LookupMembers(relations, Participant(b, Movement(t)), MAX_CONFLICT_ZONES, r.zoneId);
    assert r.zoneId in FirstFour(relations, a, s) && r.zoneId in FirstFour(relations, b, t);
    SharedIffCommonZone(v, w, relations, a, s, b, t);
    SharedZoneIff(v, w);
  }

  /** The same from the map file: one element lists both movements among its first four participants with a lane, and
      the file asks for no more relations than the table holds. */
  lemma RelatedInFileShare(v: VehicleInfo, w: VehicleInfo, m: RoadMap, es: seq<Element>, e: Element, a: string,
      s: TurnState, b: string, t: TurnState)
    requires m.relations == [] && |RelationsOf(es)| <= 32
    requires e in es && FormsRelation(e)
    requires TakesPart(RelationOf(e), Participant(a, Movement(s)))
        && TakesPart(RelationOf(e), Participant(b, Movement(t)))
    requires var relations := WithElements(m, es).relations;
             && FilledFor(v, relations, a, s) && FilledFor(w, relations, b, t)
             && AtMostFourZones(relations, a, s) && AtMostFourZones(relations, b, t)
    ensures SharedZone(v, w).Some? && SharedZone(w, v).Some?
  {
    hide FilledFor, SharedZone, AtMostFourZones, Movement, TakesPart, RelationsOf, RelationOf, WithElements, ZonesNamed;
    RelationsLoaded(m, es);
    RelationsNamed(es);
    RelationListed(es, e);
    RelatedMovementsShare(v, w, WithElements(m, es).relations, RelationOf(e), a, s, b, t);
  }

  lemma {:induction false} RelationListed(es: seq<Element>, e: Element)
    requires e in es && FormsRelation(e)
    ensures RelationOf(e) in RelationsOf(es)
  {
    hide RelationOf, FormsRelation;
    NoRelationOfLight(e);
    if e in es[..|es| - 1] {
      RelationListed(es[..|es| - 1], e);
    }
  }

  lemma {:induction false} DistinctOfNoRepeats(zones: seq<string>)
    requires NoRepeats(zones)
    ensures Distinct(zones) == zones
  {
    if zones != [] {
      DistinctOfNoRepeats(zones[..|zones| - 1]);
    }
  }

  /** The zones of relations in which a movement takes part from the `k`-th on. */
  lemma {:induction false} ZonesFrom(relations: seq<Relation>, p: Participant, k: nat)
    requires k <= |relations| && forall i | 0 <= i < |relations| :: TakesPart(relations[i], p) <==> i >= k
    ensures var zones := ZonesOf(relations, p);
            |zones| == |relations| - k && forall i | 0 <= i < |zones| :: zones[i] == relations[k + i].zoneId
  {
    hide TakesPart;
    if k < |relations| {
      ZonesFrom(relations[..|relations| - 1], p, k);
    } else if k > 0 {
      ZonesFrom(relations[..k - 1], p, k - 1);
    }
  }

  /** The bound of four is needed: with five different zones on one movement, a conflict on the fifth goes unseen. */
  lemma FifthZoneUnseen(v: VehicleInfo, w: VehicleInfo, relations: seq<Relation>, a: string, s: TurnState, b: string,
      t: TurnState)
    requires |relations| == 5 && forall i | 0 <= i < 5 ::
        relations[i].zoneId != "" && |relations[i].zoneId| <= ID_LENGTH
    requires forall i, j | 0 <= i < j < 5 :: relations[i].zoneId != relations[j].zoneId
    requires forall i | 0 <= i < 5 :: TakesPart(relations[i], Participant(a, Movement(s)))
    requires forall i | 0 <= i < 5 :: TakesPart(relations[i], Participant(b, Movement(t))) <==> i == 4
    requires FilledFor(v, relations, a, s) && FilledFor(w, relations, b, t)
    ensures SharedZone(v, w).None?
  {
    hide SharedZone, FilledFor, ZonesOf, Distinct, TakesPart, Movement;
    var p, q := Participant(a, Movement(s)), Participant(b, Movement(t));
    ZonesFrom(relations, p, 0);
    ZonesFrom(relations, q, 4);
    DistinctOfNoRepeats(ZonesOf(relations, p));
    DistinctOfNoRepeats(ZonesOf(relations, q));
    forall y, z | y in FirstFour(relations, a, s) && z in FirstFour(relations, b, t)
      ensures ShortId(y) != ShortId(z)
    {
    }
    SharedIffCommonZone(v, w, relations, a, s, b, t);
  }
}
