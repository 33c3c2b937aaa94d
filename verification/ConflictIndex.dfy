/** What the two conflict indexes hold once a whole map file has been read, and that they agree. */
module ConflictIndex {
  import opened ConflictMap

  /** The relations that the elements ask for. */
  function RelationsOf(es: seq<Element>): seq<Relation> {
    if es == [] then []
    else
      var n := |es| - 1;
      RelationsOf(es[..n]) + if FormsRelation(es[n]) then [RelationOf(es[n])] else []
  }

  predicate NamesLane(e: Element, lane: string) {
    e.ConflictElement? && e.zoneId != "" && lane in LanesNamed(e)
  }

  /** The zones of the elements that name a lane. */
  function ZonesNaming(es: seq<Element>, lane: string): seq<string> {
    if es == [] then []
    else
      var n := |es| - 1;
      ZonesNaming(es[..n], lane) + if NamesLane(es[n], lane) then [es[n].zoneId] else []
  }

  // ----- Closed forms

  /** The relation table is the first 32 relations asked for. */
  lemma {:induction false} RelationsLoaded(m: RoadMap, es: seq<Element>)
    requires m.relations == []
    ensures WithElements(m, es).relations == Take(RelationsOf(es), 32)
  {
    hide FormsRelation, RelationOf, WithZone, WithLight;
    if es != [] {
      RelationsLoaded(m, es[..|es| - 1]);
      NoRelationOfLight(es[|es| - 1]);
    }
  }

  lemma NamedNext(participants: seq<Participant>)
    requires participants != [] && participants[|participants| - 1].laneletId != ""
    ensures Named(participants) == Named(participants[..|participants| - 1]) + [participants[|participants| - 1]]
  {
  }

  lemma {:induction false} NamedAll(participants: seq<Participant>, n: nat)
    requires n <= |participants| && forall i | 0 <= i < |participants| :: participants[i].laneletId != ""
    ensures Named(participants[..n]) == participants[..n]
  {
    hide Named;
    if n == 0 {
      NamedNone();
    } else {
      NamedAll(participants, n - 1);
      NamedNext(participants[..n]);
      assert participants[..n][..n - 1] == participants[..n - 1];
      assert participants[..n] == participants[..n - 1] + [participants[n - 1]];
    }
  }

  lemma NamedNone()
    ensures Named([]) == []
  {
  }

  /** Which elements ask for a relation, and what it holds: id, zone and the first four participants with a lane. */
  lemma RelationMeans(e: Element)
    requires e.ConflictElement?
    ensures FormsRelation(e) <==> e.participants != [] && e.zoneId != ""
    ensures RelationOf(e).id == e.id && RelationOf(e).zoneId == e.zoneId
    ensures forall p | p in RelationOf(e).participants :: p in e.participants && p.laneletId != ""
    ensures |RelationOf(e).participants| <= 4
    ensures (forall i | 0 <= i < |e.participants| :: e.participants[i].laneletId != "") ==>
              RelationOf(e).participants == if |e.participants| <= 4 then e.participants else e.participants[..4]
  {
    hide Named;
    var named := Named(e.participants);
    if forall i | 0 <= i < |e.participants| :: e.participants[i].laneletId != "" {
      NamedAll(e.participants, |e.participants|);
      assert e.participants[..|e.participants|] == e.participants;
    }
    forall p | p in RelationOf(e).participants
      ensures p in e.participants && p.laneletId != ""
    {
      assert p in named;
      NamedMembers(e.participants, p);
    }
  }

  lemma NoRelationOfLight(e: Element)
    ensures FormsRelation(e) ==> e.ConflictElement?
  {
  }

  lemma ElementKeepsIds(m: RoadMap, e: Element)
    ensures var m' := WithElement(m, e);
            |m'.lanelets| == |m.lanelets| && forall i | 0 <= i < |m.lanelets| :: m'.lanelets[i].id == m.lanelets[i].id
  {
  }

  lemma {:induction false} LoadKeepsIds(m: RoadMap, es: seq<Element>)
    ensures var m' := WithElements(m, es);
            |m'.lanelets| == |m.lanelets| && forall i | 0 <= i < |m.lanelets| :: m'.lanelets[i].id == m.lanelets[i].id
  {
    hide WithElement;
    if es != [] {
      LoadKeepsIds(m, es[..|es| - 1]);
      ElementKeepsIds(WithElements(m, es[..|es| - 1]), es[|es| - 1]);
    }
  }

  lemma ElementOnLane(m: RoadMap, e: Element, i: nat)
    requires IsFirst(m.lanelets, i)
    ensures |WithElement(m, e).lanelets| == |m.lanelets|
    ensures var zones := m.lanelets[i].zoneIds;
            WithElement(m, e).lanelets[i].zoneIds ==
            if NamesLane(e, m.lanelets[i].id) then AddWithin(zones, e.zoneId, 8) else zones
  {
    hide LanesNamed, AddWithin;
  }

  /** A lane's own list is the first eight different zones of the elements that name the lane. */
  lemma {:induction false} LaneZonesLoaded(m: RoadMap, es: seq<Element>, i: nat)
    requires i < |m.lanelets| && IsFirst(m.lanelets, i) && m.lanelets[i].zoneIds == []
    ensures |WithElements(m, es).lanelets| == |m.lanelets|
    ensures WithElements(m, es).lanelets[i].zoneIds
        == Take(Distinct(ZonesNaming(es, m.lanelets[i].id)), 8)
  {
    hide IsFirst, NamesLane, WithElement, AddWithin, Add, Take;
    var lane := m.lanelets[i].id;
    if es == [] {
      EmptyTake();
    } else {
      var n := |es| - 1;
      LaneZonesLoaded(m, es[..n], i);
      LoadKeepsIds(m, es[..n]);
      StaysFirst(m.lanelets, WithElements(m, es[..n]).lanelets, i);
      ElementOnLane(WithElements(m, es[..n]), es[n], i);
      var zones := ZonesNaming(es[..n], lane);
      if NamesLane(es[n], lane) {
        NamedZone(es[n], lane);
        assert (zones + [es[n].zoneId])[..|zones|] == zones;
        TakeOfAdd(Distinct(zones), es[n].zoneId, 8);
      } else {
        assert zones + [] == zones;
      }
    }
  }

  /** Which elements name a lane: those with the lane among their participants, or among the lanes they apply to if they
      have no participant at all. */
  lemma NamesLaneIff(e: Element, lane: string)
    ensures NamesLane(e, lane) <==>
            && e.ConflictElement? && e.zoneId != ""
            && if e.participants == [] then lane in e.appliesTo else exists p ::
                p in e.participants && p.laneletId == lane
  {
    if e.ConflictElement? {
      assert forall i | 0 <= i < |e.participants| :: LanesOf(e.participants)[i] == e.participants[i].laneletId;
      if p :| p in e.participants && p.laneletId == lane {
        var i :| 0 <= i < |e.participants| && e.participants[i] == p;
        assert LanesOf(e.participants)[i] == lane;
      }
    }
  }

  /** A later lane with an id already taken is never reached. */
  lemma {:induction false} LaterLaneUntouched(m: RoadMap, es: seq<Element>, i: nat, j: nat)
    requires j < i < |m.lanelets| && m.lanelets[j].id == m.lanelets[i].id
    ensures |WithElements(m, es).lanelets| == |m.lanelets| && WithElements(m, es).lanelets[i] == m.lanelets[i]
  {
    if es != [] {
      LaterLaneUntouched(m, es[..|es| - 1], i, j);
      LoadKeepsIds(m, es[..|es| - 1]);
      assert !IsFirst(WithElements(m, es[..|es| - 1]).lanelets, i);
    }
  }

  /** Element `k` is the last that gives the lane a traffic light. */
  predicate LastLight(es: seq<Element>, lane: string, k: nat) {
    k < |es| && GivesLight(es[k], lane) && forall j | k < j < |es| :: !GivesLight(es[j], lane)
  }

  predicate GivesLight(e: Element, lane: string) {
    e.LightElement? && e.lightId != "" && lane in e.appliesTo
  }

  lemma LightOnLane(m: RoadMap, e: Element, i: nat)
    requires i < |m.lanelets| && IsFirst(m.lanelets, i)
    ensures |WithElement(m, e).lanelets| == |m.lanelets|
    ensures WithElement(m, e).lanelets[i].trafficLightId ==
            if GivesLight(e, m.lanelets[i].id) then e.lightId else m.lanelets[i].trafficLightId
  {
    hide LanesNamed, AddWithin;
  }

  /** A lane's traffic light is that of the last element that gives it one, or the one it started with. */
  lemma {:induction false} LaneLightLoaded(m: RoadMap, es: seq<Element>, i: nat)
    requires i < |m.lanelets| && IsFirst(m.lanelets, i)
    ensures |WithElements(m, es).lanelets| == |m.lanelets|
    ensures var light := WithElements(m, es).lanelets[i].trafficLightId;
            && (forall k: nat | LastLight(es, m.lanelets[i].id, k) :: light == es[k].lightId)
            && ((forall e | e in es :: !GivesLight(e, m.lanelets[i].id)) ==> light == m.lanelets[i].trafficLightId)
  {
    hide IsFirst, WithElement;
    if es != [] {
      var n, lane := |es| - 1, m.lanelets[i].id;
      LaneLightLoaded(m, es[..n], i);
      LoadKeepsIds(m, es[..n]);
      StaysFirst(m.lanelets, WithElements(m, es[..n]).lanelets, i);
      LightOnLane(WithElements(m, es[..n]), es[n], i);
      forall k: nat | LastLight(es, lane, k)
        ensures WithElements(m, es).lanelets[i].trafficLightId == es[k].lightId
      {
        if k < n {
          assert LastLight(es[..n], lane, k);
        }
      }
    }
  }

  lemma EmptyTake()
    ensures Take<string>([], 8) == []
  {
  }

  lemma NamedZone(e: Element, lane: string)
    requires NamesLane(e, lane)
    ensures e.ConflictElement?
  {
  }

  lemma StaysFirst(lanelets: seq<Lanelet>, others: seq<Lanelet>, i: nat)
    requires IsFirst(lanelets, i) && |others| == |lanelets|
    requires forall j | 0 <= j < |lanelets| :: others[j].id == lanelets[j].id
    ensures IsFirst(others, i)
  {
  }

  ghost predicate ZonesNamed(relations: seq<Relation>) {
    forall r | r in relations :: r.zoneId != ""
  }

  lemma {:induction false} RelationsNamed(es: seq<Element>)
    ensures ZonesNamed(RelationsOf(es))
  {
    if es != [] {
      RelationsNamed(es[..|es| - 1]);
    }
  }

  // ----- Agreement of the two indexes

  lemma {:induction false} NamedMembers(participants: seq<Participant>, p: Participant)
    ensures p in Named(participants) <==> p in participants && p.laneletId != ""
  {
    if participants != [] {
      NamedMembers(participants[..|participants| - 1], p);
      assert participants == participants[..|participants| - 1] + [participants[|participants| - 1]];
    }
  }

  lemma LaneOfParticipant(e: Element, p: Participant)
    requires FormsRelation(e) && p in e.participants
    ensures NamesLane(e, p.laneletId)
  {
    var i :| 0 <= i < |e.participants| && e.participants[i] == p;
    assert LanesOf(e.participants)[i] == p.laneletId;
  }

  /** Whatever zone a relation gives a movement, some element named the movement's lane for that zone. */
  lemma {:induction false} RelationZonesNameLane(es: seq<Element>, r: Relation, p: Participant)
    requires r in RelationsOf(es) && TakesPart(r, p)
    ensures r.zoneId in ZonesNaming(es, p.laneletId)
  {
    hide FormsRelation, NamesLane;
    var n := |es| - 1;
    if r in RelationsOf(es[..n]) {
      RelationZonesNameLane(es[..n], r, p);
    } else {
      NoRelationOfLight(es[n]);
      NamedMembers(es[n].participants, p);
      LaneOfParticipant(es[n], p);
    }
  }

  lemma LookupMembers(relations: seq<Relation>, p: Participant, maxOut: nat, zone: string)
    ensures NoRepeats(Lookup(relations, p, maxOut))
    ensures zone in Lookup(relations, p, maxOut) ==> zone in ZonesOf(relations, p)
    ensures |Distinct(ZonesOf(relations, p))| <= maxOut && zone in ZonesOf(relations, p)
        ==> zone in Lookup(relations, p, maxOut)
  {
    DistinctKeepsItems(ZonesOf(relations, p));
  }

  lemma LookupNamesLane(m: RoadMap, es: seq<Element>, p: Participant, maxOut: nat, zone: string)
    requires m.relations == [] && zone in Lookup(WithElements(m, es).relations, p, maxOut)
    ensures zone in ZonesNaming(es, p.laneletId)
  {
    hide Lookup, TakesPart, RelationsOf, ZonesNaming;
    var relations := WithElements(m, es).relations;
    LookupMembers(relations, p, maxOut, zone);
    ZonesOfMembers(relations, p, zone);
    var r :| r in relations && TakesPart(r, p) && r.zoneId == zone;
    RelationsLoaded(m, es);
    RelationZonesNameLane(es, r, p);
  }

  /** No lane list ever repeats a zone, and it is complete iff at most eight different zones name the lane. */
  lemma LaneListCompleteIff(m: RoadMap, es: seq<Element>, i: nat)
    requires i < |m.lanelets| && IsFirst(m.lanelets, i) && m.lanelets[i].zoneIds == []
    ensures |WithElements(m, es).lanelets| == |m.lanelets|
    ensures var lane, naming := WithElements(m, es).lanelets[i], ZonesNaming(es, m.lanelets[i].id);
            && NoRepeats(lane.zoneIds)
            && ((forall zone :: zone in lane.zoneIds <==> zone in naming) <==> |Distinct(naming)| <= 8)
  {
    hide Distinct, ZonesNaming, IsFirst;
    var naming := ZonesNaming(es, m.lanelets[i].id);
    LaneZonesLoaded(m, es, i);
    DistinctKeepsItems(naming);
    var d := Distinct(naming);
    if |d| > 8 {
      assert d[8] in d && d[8] !in d[..8];
    }
  }

  predicate LaneTakesPart(r: Relation, lane: string) {
    exists p :: p in r.participants && p.laneletId == lane
  }

  /** Every zone that a lookup returns for some movement of the lane, with any room, is in `listed`. */
  ghost predicate LookupsWithin(relations: seq<Relation>, lane: string, listed: seq<string>) {
    forall movement, maxOut, zone | zone in Lookup(relations, Participant(lane, movement), maxOut) :: zone in listed
  }

  /** Exactly which zones the lookups of a lane return. */
  lemma LookedUpZones(relations: seq<Relation>, lane: string, zone: string)
    ensures (exists movement, maxOut: nat :: zone in Lookup(relations, Participant(lane, movement), maxOut)) <==>
            (exists r :: r in relations && LaneTakesPart(r, lane) && r.zoneId == zone)
  {
    hide Lookup;
    if movement, maxOut: nat :| zone in Lookup(relations, Participant(lane, movement), maxOut) {
      var p := Participant(lane, movement);
      LookupMembers(relations, p, maxOut, zone);
      ZonesOfMembers(relations, p, zone);
    }
    if r :| r in relations && LaneTakesPart(r, lane) && r.zoneId == zone {
      var p :| p in r.participants && p.laneletId == lane;
      assert p == Participant(lane, p.movement) && TakesPart(r, p);
      ZonesOfMembers(relations, p, zone);
      var room := |Distinct(ZonesOf(relations, p))|;
      LookupMembers(relations, p, room, zone);
      assert zone in Lookup(relations, Participant(lane, p.movement), room);
    }
  }

  /** Index agreement, decided by the file alone: all lookups of a lane stay within its own list iff every relation kept
      in which the lane takes part has its zone among the first eight different zones that name the lane. */
  lemma IndexesAgreeIff(m: RoadMap, es: seq<Element>, i: nat)
    requires m.relations == [] && i < |m.lanelets| && IsFirst(m.lanelets, i) && m.lanelets[i].zoneIds == []
    ensures |WithElements(m, es).lanelets| == |m.lanelets|
    ensures var lane, loaded := m.lanelets[i].id, WithElements(m, es);
            LookupsWithin(loaded.relations, lane, loaded.lanelets[i].zoneIds) <==>
            forall r | r in Take(RelationsOf(es), 32) && LaneTakesPart(r, lane) ::
              r.zoneId in Take(Distinct(ZonesNaming(es, lane)), 8)
  {
    hide Lookup, Distinct, ZonesNaming, IsFirst, LaneTakesPart, Take;
    var lane, loaded := m.lanelets[i].id, WithElements(m, es);
    RelationsLoaded(m, es);
    LaneZonesLoaded(m, es, i);
    var listed := loaded.lanelets[i].zoneIds;
    if LookupsWithin(loaded.relations, lane, listed) {
      forall r | r in loaded.relations && LaneTakesPart(r, lane)
        ensures r.zoneId in listed
      {
        LookedUpZones(loaded.relations, lane, r.zoneId);
      }
    }
    forall movement, maxOut: nat, zone | zone in Lookup(loaded.relations, Participant(lane, movement), maxOut)
      ensures exists r :: r in loaded.relations && LaneTakesPart(r, lane) && r.zoneId == zone
    {
      LookedUpZones(loaded.relations, lane, zone);
    }
  }

  /** In particular they agree unless more than eight different zones name the lane, whatever else was dropped. */
  lemma IndexesAgree(m: RoadMap, es: seq<Element>, i: nat)
    requires m.relations == [] && i < |m.lanelets| && IsFirst(m.lanelets, i) && m.lanelets[i].zoneIds == []
    requires |Distinct(ZonesNaming(es, m.lanelets[i].id))| <= 8
    ensures |WithElements(m, es).lanelets| == |m.lanelets|
    ensures LookupsWithin(WithElements(m, es).relations, m.lanelets[i].id, WithElements(m, es).lanelets[i].zoneIds)
  {
    hide Distinct, ZonesNaming, IsFirst, Lookup;
    LaneListCompleteIff(m, es, i);
    forall movement, maxOut: nat, zone
        | zone in Lookup(WithElements(m, es).relations, Participant(m.lanelets[i].id, movement), maxOut)
      ensures zone in WithElements(m, es).lanelets[i].zoneIds
    {
      LookupNamesLane(m, es, Participant(m.lanelets[i].id, movement), maxOut, zone);
    }
  }

  lemma {:induction false} Pigeonhole<T(!new)>(a: seq<T>, b: seq<T>)
    requires NoRepeats(a) && forall item | item in a :: item in b
    ensures |a| <= |b|
  {
    if a != [] {
      var n := |a| - 1;
      assert a[n] in a;
      var k :| 0 <= k < |b| && b[k] == a[n];
      var rest := b[..k] + b[k + 1..];
      forall item | item in a[..n]
        ensures item in rest
      {
        assert item in a && a[n] != item;
        var j :| 0 <= j < |b| && b[j] == item;
        assert j != k && if j < k then rest[j] == item else rest[j - 1] == item;
      }
      Pigeonhole(a[..n], rest);
    }
  }

  /** Over that limit they must differ: a lookup of more than eight zones returns one that its lane's list dropped. */
  lemma LargeLookupDisagrees(m: RoadMap, es: seq<Element>, i: nat, movement: string, maxOut: nat)
    requires m.relations == [] && i < |m.lanelets| && IsFirst(m.lanelets, i) && m.lanelets[i].zoneIds == []
    requires var p := Participant(m.lanelets[i].id, movement);
             |Lookup(WithElements(m, es).relations, p, maxOut)| > 8
    ensures |WithElements(m, es).lanelets| == |m.lanelets|
    ensures var p, loaded := Participant(m.lanelets[i].id, movement), WithElements(m, es);
            var looked, listed := Lookup(loaded.relations, p, maxOut), loaded.lanelets[i].zoneIds;
            exists zone :: zone in looked && zone !in listed
  {
    hide Distinct, ZonesNaming, IsFirst, Lookup;
    var looked := Lookup(WithElements(m, es).relations, Participant(m.lanelets[i].id, movement), maxOut);
    LaneZonesLoaded(m, es, i);
    LookupMembers(WithElements(m, es).relations, Participant(m.lanelets[i].id, movement), maxOut, "");
    if forall zone | zone in looked :: zone in WithElements(m, es).lanelets[i].zoneIds {
      Pigeonhole(looked, WithElements(m, es).lanelets[i].zoneIds);
      assert false;
    }
  }

  /** They can disagree over a single zone: eight zones name the lane first, and the ninth comes with the only
      relation. */
  lemma NinthZoneDisagrees(m: RoadMap, es: seq<Element>, e: Element, i: nat)
    requires m.relations == [] && i < |m.lanelets| && IsFirst(m.lanelets, i) && m.lanelets[i].zoneIds == []
    requires RelationsOf(es) == [] && |Distinct(ZonesNaming(es, m.lanelets[i].id))| == 8
    requires FormsRelation(e) && e.zoneId !in ZonesNaming(es, m.lanelets[i].id)
    requires LaneTakesPart(RelationOf(e), m.lanelets[i].id)
    ensures var loaded := WithElements(m, es + [e]);
            && |loaded.lanelets| == |m.lanelets| && |loaded.relations| == 1
            && !LookupsWithin(loaded.relations, m.lanelets[i].id, loaded.lanelets[i].zoneIds)
  {
    hide IsFirst, LaneTakesPart, RelationOf, WithElements, LookupsWithin, Distinct;
    var lane := m.lanelets[i].id;
    assert (es + [e])[..|es|] == es;
    NoRelationOfLight(e);
    RelationsLoaded(m, es + [e]);
    IndexesAgreeIff(m, es + [e], i);
    ZoneBeyondEighth(es, e, lane);
    assert RelationsOf(es + [e]) == [RelationOf(e)] && Take([RelationOf(e)], 32) == [RelationOf(e)];
    assert RelationOf(e).zoneId == e.zoneId by { ZoneOfRelation(e); }
  }

  lemma ZoneOfRelation(e: Element)
    requires e.ConflictElement?
    ensures RelationOf(e).zoneId == e.zoneId
  {
  }

  lemma ZoneBeyondEighth(es: seq<Element>, e: Element, lane: string)
    requires e.ConflictElement? && e.zoneId !in ZonesNaming(es, lane)
    requires |Distinct(ZonesNaming(es, lane))| == 8
    ensures e.zoneId !in Take(Distinct(ZonesNaming(es + [e], lane)), 8)
  {
    hide ZonesNaming, NamesLane;
    var zones := ZonesNaming(es, lane);
    DistinctKeepsItems(zones);
    NextZoneNaming(es, e, lane);
    if NamesLane(e, lane) {
      assert (zones + [e.zoneId])[..|zones|] == zones;
    } else {
      assert zones + [] == zones;
    }
  }

  lemma NextZoneNaming(es: seq<Element>, e: Element, lane: string)
    requires e.ConflictElement?
    ensures ZonesNaming(es + [e], lane) == ZonesNaming(es, lane) + if NamesLane(e, lane) then [e.zoneId] else []
  {
    hide NamesLane;
    assert (es + [e])[..|es|] == es;
  }
}
