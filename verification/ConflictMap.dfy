/** The two conflict indexes of the road map, the zone list of each lane and the table of relations between
    movements, as the regulatory elements of the map file build them. Elements come already split from the
    file's text: a participant or an `applies_to` entry is listed iff it has a lane attribute, and the id of
    a missing zone or light reference is empty.
  */
module ConflictMap {
  import opened CanCodec

  const MAX_ZONES_PER_LANE := 8
  const MAX_RELATIONS := 32
  const MAX_PARTICIPANTS := 4

  datatype Lanelet = Lanelet(id: string, trafficLightId: string, zoneIds: seq<string>)
  datatype Participant = Participant(laneletId: string, movement: string)
  datatype Relation = Relation(id: string, zoneId: string, participants: seq<Participant>)
  datatype RoadMap = RoadMap(lanelets: seq<Lanelet>, relations: seq<Relation>)

  datatype Element =
    | LightElement(lightId: string, appliesTo: seq<string>)
    | ConflictElement(id: string, zoneId: string, participants: seq<Participant>, appliesTo: seq<string>)

  // ----- Lists without repetition

  function Take<T>(s: seq<T>, n: nat): (r: seq<T>)
    ensures |r| <= n && r <= s
  {
    if |s| <= n then s else s[..n]
  }

  /** `s` with only the first occurrence of each item. */
  function Distinct<T(==)>(s: seq<T>): seq<T> {
    if s == [] then [] else Add(Distinct(s[..|s| - 1]), s[|s| - 1])
  }

  function Add<T(==)>(s: seq<T>, item: T): seq<T> {
    if item in s then s else s + [item]
  }

  /** Adding to a list of bounded capacity: a full list drops the item. */
  function AddWithin<T(==)>(s: seq<T>, item: T, capacity: nat): seq<T> {
    if item in s || |s| >= capacity then s else s + [item]
  }

  lemma TakeOfAdd<T>(s: seq<T>, item: T, capacity: nat)
    ensures Take(Add(s, item), capacity) == AddWithin(Take(s, capacity), item, capacity)
  {
  }

  ghost predicate NoRepeats<T(!new)>(s: seq<T>) {
    forall i, j | 0 <= i < j < |s| :: s[i] != s[j]
  }

  /** Distinct keeps each item once and drops none. */
  lemma {:induction false} DistinctKeepsItems<T(!new)>(s: seq<T>)
    ensures NoRepeats(Distinct(s)) && (forall item :: item in Distinct(s) <==> item in s)
  {
    if s != [] {
      DistinctKeepsItems(s[..|s| - 1]);
      assert s == s[..|s| - 1] + [s[|s| - 1]];
    }
  }

  /** `i` is where `item` first occurs. */
  ghost predicate FirstAt<T(!new)>(s: seq<T>, item: T, i: nat) {
    i < |s| && s[i] == item && item !in s[..i]
  }

  lemma FirstAtExtends<T(!new)>(s: seq<T>, more: seq<T>, item: T, i: nat)
    requires FirstAt(s, item, i)
    ensures FirstAt(s + more, item, i)
  {
    assert (s + more)[..i] == s[..i];
  }

  lemma FirstAtOfPrefix<T(!new)>(s: seq<T>, item: T, i: nat, n: nat)
    requires FirstAt(s, item, i) && i < n <= |s|
    ensures FirstAt(s[..n], item, i)
  {
    assert s[..n][..i] == s[..i];
  }

  lemma DistinctLast<T(!new)>(s: seq<T>, item: T)
    requires s != [] && FirstAt(s, item, |s| - 1)
    ensures Distinct(s) == Distinct(s[..|s| - 1]) + [item] && item !in Distinct(s[..|s| - 1])
  {
    DistinctKeepsItems(s[..|s| - 1]);
  }

  lemma DistinctGrows<T(!new)>(s: seq<T>) returns (more: seq<T>)
    requires s != []
    ensures Distinct(s) == Distinct(s[..|s| - 1]) + more
  {
    more := if s[|s| - 1] in Distinct(s[..|s| - 1]) then [] else [s[|s| - 1]];
  }

  lemma FirstOccurrence<T(!new)>(s: seq<T>, item: T) returns (i: nat)
    requires NoRepeats(s) && item in s
    ensures FirstAt(s, item, i)
  {
    i :| 0 <= i < |s| && s[i] == item;
  }

  /** Distinct keeps items in the order in which they first occur. */
  lemma {:induction false} DistinctKeepsOrder<T(!new)>(s: seq<T>, a: T, i: nat, b: T, j: nat)
    requires FirstAt(s, a, i) && FirstAt(s, b, j) && i < j
    ensures exists k: nat, l: nat :: k < l && FirstAt(Distinct(s), a, k) && FirstAt(Distinct(s), b, l)
  {
    hide Distinct, FirstAt;
    FirstAtInside(s, b, j);
    var n := |s| - 1;
    FirstAtOfPrefix(s, a, i, n);
    var d := Distinct(s[..n]);
    if j < n {
      FirstAtOfPrefix(s, b, j, n);
      DistinctKeepsOrder(s[..n], a, i, b, j);
      var k: nat, l: nat :| k < l && FirstAt(d, a, k) && FirstAt(d, b, l);
      var more := DistinctGrows(s);
      FirstAtExtends(d, more, a, k);
      FirstAtExtends(d, more, b, l);
    } else {
      DistinctLast(s, b);
      DistinctKeepsItems(s[..n]);
      FirstAtInside(s[..n], a, i);
      var k := FirstOccurrence(d, a);
      FirstAtInside(d, a, k);
      FirstAtExtends(d, [b], a, k);
      FirstAtEnd(d, b);
    }
  }

  lemma FirstAtInside<T(!new)>(s: seq<T>, item: T, i: nat)
    requires FirstAt(s, item, i)
    ensures i < |s| && item in s
  {
  }

  lemma FirstAtEnd<T(!new)>(s: seq<T>, item: T)
    requires item !in s
    ensures FirstAt(s + [item], item, |s|)
  {
  }

  // ----- What the map file says

  function LanesOf(participants: seq<Participant>): (r: seq<string>)
    ensures |r| == |participants|
  {
    seq(|participants|, i requires 0 <= i < |participants| => participants[i].laneletId)
  }

  /** The lanes an element names: those of its participants, or its `applies_to` list when it has none. */
  function LanesNamed(e: Element): seq<string> {
    if e.ConflictElement? && e.participants != [] then LanesOf(e.participants) else e.appliesTo
  }

  function Named(participants: seq<Participant>): seq<Participant> {
    if participants == [] then []
    else
      var n := |participants| - 1;
      Named(participants[..n]) + if participants[n].laneletId == "" then [] else [participants[n]]
  }

  function Joined(r: Relation, p: Participant): Relation {
    if p.laneletId == "" || |r.participants| >= MAX_PARTICIPANTS then r else r.(participants := r.participants + [p])
  }

  predicate FormsRelation(e: Element) {
    e.ConflictElement? && e.participants != [] && e.zoneId != ""
  }

  function RelationOf(e: Element): Relation
    requires e.ConflictElement?
  {
    Relation(e.id, e.zoneId, Take(Named(e.participants), MAX_PARTICIPANTS))
  }

  predicate IsFirst(lanelets: seq<Lanelet>, i: nat) {
    i < |lanelets| && forall j: nat | j < i :: lanelets[j].id != lanelets[i].id
  }

  /** Every lane named gets the zone; of lanes with the same id only the first is ever found. */
  function WithZone(lanelets: seq<Lanelet>, lanes: seq<string>, zone: string): (r: seq<Lanelet>)
    ensures |r| == |lanelets|
  {
    seq(|lanelets|, i requires 0 <= i < |lanelets| =>
      if IsFirst(lanelets, i) && lanelets[i].id in lanes && zone != ""
      then lanelets[i].(zoneIds := AddWithin(lanelets[i].zoneIds, zone, MAX_ZONES_PER_LANE)) else lanelets[i])
  }

  function WithLight(lanelets: seq<Lanelet>, lanes: seq<string>, light: string): (r: seq<Lanelet>)
    ensures |r| == |lanelets|
  {
    seq(|lanelets|, i requires 0 <= i < |lanelets| =>
      if IsFirst(lanelets, i) && lanelets[i].id in lanes && light != ""
      then lanelets[i].(trafficLightId := light) else lanelets[i])
  }

  function WithElement(m: RoadMap, e: Element): RoadMap {
    match e
    case LightElement(light, lanes) => m.(lanelets := WithLight(m.lanelets, lanes, light))
    case ConflictElement(_, zone, _, _) =>
      RoadMap(WithZone(m.lanelets, LanesNamed(e), zone),
              if FormsRelation(e) && |m.relations| < MAX_RELATIONS then m.relations + [RelationOf(e)] else m.relations)
  }

  function WithElements(m: RoadMap, es: seq<Element>): RoadMap {
    if es == [] then m else WithElement(WithElements(m, es[..|es| - 1]), es[|es| - 1])
  }

  // ----- The lookup

  predicate TakesPart(r: Relation, p: Participant) {
    p in r.participants
  }

  /** The zones of the relations in which `p` takes part, in relation order. */
  function ZonesOf(relations: seq<Relation>, p: Participant): seq<string> {
    if relations == [] then []
    else
      var n := |relations| - 1;
      ZonesOf(relations[..n], p) + if TakesPart(relations[n], p) then [relations[n].zoneId] else []
  }

  /** What a lookup with room for `maxOut` zones returns. */
  function Lookup(relations: seq<Relation>, p: Participant, maxOut: nat): seq<string> {
    Take(Distinct(ZonesOf(relations, p)), maxOut)
  }

  lemma LookupOfNext(relations: seq<Relation>, p: Participant, maxOut: nat, i: nat)
    requires i < |relations|
    ensures Lookup(relations[..i + 1], p, maxOut)
         == var was := Lookup(relations[..i], p, maxOut);
            if TakesPart(relations[i], p) then AddWithin(was, relations[i].zoneId, maxOut) else was
  {
    hide AddWithin, Add, Take;
    assert relations[..i + 1][..i] == relations[..i];
    var zones := ZonesOf(relations[..i], p);
    if TakesPart(relations[i], p) {
      assert (zones + [relations[i].zoneId])[..|zones|] == zones;
      TakeOfAdd(Distinct(zones), relations[i].zoneId, maxOut);
    } else {
      assert zones + [] == zones;
    }
  }

  lemma {:induction false} FullLookupStays(relations: seq<Relation>, p: Participant, maxOut: nat, i: nat)
    requires i <= |relations| && |Lookup(relations[..i], p, maxOut)| == maxOut
    ensures Lookup(relations, p, maxOut) == Lookup(relations[..i], p, maxOut)
    decreases |relations| - i
  {
    hide Lookup, TakesPart;
    if i == |relations| {
      assert relations[..i] == relations;
    } else {
      LookupOfNext(relations, p, maxOut, i);
      FullLookupStays(relations, p, maxOut, i + 1);
    }
  }

  lemma {:induction false} ZonesOfMembers(relations: seq<Relation>, p: Participant, zone: string)
    ensures zone in ZonesOf(relations, p) <==> exists r :: r in relations && TakesPart(r, p) && r.zoneId == zone
  {
    hide TakesPart;
    if relations != [] {
      var n := |relations| - 1;
      ZonesOfMembers(relations[..n], p, zone);
      assert relations == relations[..n] + [relations[n]];
    }
  }

  class IntersectionMap {
    var lanelets: seq<Lanelet>
    var relations: seq<Relation>

    ghost function Contents(): RoadMap
      reads this
    {
      RoadMap(lanelets, relations)
    }

    constructor (lanes: seq<Lanelet>)
      ensures Contents() == RoadMap(lanes, [])
    {
      lanelets := lanes;
      relations := [];
    }

    method FindLanelet(id: string) returns (found: Option<nat>)
      ensures found.Some? ==> IsFirst(lanelets, found.value) && lanelets[found.value].id == id
      ensures found.None? ==> forall i | 0 <= i < |lanelets| :: lanelets[i].id != id
    {
      for i := 0 to |lanelets|
        invariant forall j | 0 <= j < i :: lanelets[j].id != id
      {
        if lanelets[i].id == id {
          return Some(i);
        }
      }
      return None;
    }

    method LaneletAddConflictZone(lane: nat, zone: string)
      requires lane < |lanelets|
      modifies this`lanelets
      ensures var was := old(lanelets[lane]);
              var zones := if zone == "" then was.zoneIds else AddWithin(was.zoneIds, zone, MAX_ZONES_PER_LANE);
              lanelets == old(lanelets)[lane := was.(zoneIds := zones)]
    {
      var zones := lanelets[lane].zoneIds;
      if zone == "" {
        return;
      }
      for i := 0 to |zones|
        invariant zone !in zones[..i]
      {
        if zones[i] == zone {
          return;
        }
      }
      if |zones| >= MAX_ZONES_PER_LANE {
        return;
      }
      lanelets := lanelets[lane := lanelets[lane].(zoneIds := zones + [zone])];
    }

    /** Looks a lane up by id and adds the zone to it, if the lane exists. */
    method AddConflictZoneTo(laneId: string, zone: string)
      modifies this`lanelets
      ensures lanelets == WithZone(old(lanelets), [laneId], zone)
    {
      var lane := FindLanelet(laneId);
      if lane.Some? {
        LaneletAddConflictZone(lane.value, zone);
      }
    }

    method SetTrafficLightOf(laneId: string, light: string)
      modifies this`lanelets
      ensures lanelets == WithLight(old(lanelets), [laneId], light)
    {
      var lane := FindLanelet(laneId);
      if lane.Some? && light != "" {
        lanelets := lanelets[lane.value := lanelets[lane.value].(trafficLightId := light)];
      }
    }

    method AddConflictRelation(id: string, zone: string) returns (relation: Option<nat>)
      modifies this`relations
      ensures if zone == "" || old(|relations|) >= MAX_RELATIONS then relation == None && relations == old(relations)
              else relation == Some(old(|relations|)) && relations == old(relations) + [Relation(id, zone, [])]
    {
      if zone == "" || |relations| >= MAX_RELATIONS {
        return None;
      }
      relation := Some(|relations|);
      relations := relations + [Relation(id, zone, [])];
    }

    method AddParticipant(relation: Option<nat>, p: Participant)
      requires relation.Some? ==> relation.value < |relations|
      modifies this`relations
      ensures relation.None? ==> relations == old(relations)
      ensures relation.Some? ==>
        var was := old(relations[relation.value]);
        relations == old(relations)[relation.value := Joined(was, p)]
    {
      if relation.None? || p.laneletId == "" || |relations[relation.value].participants| >= MAX_PARTICIPANTS {
        return;
      }
      var was := relations[relation.value];
      relations := relations[relation.value := was.(participants := was.participants + [p])];
    }

    method ParseConflictElement(e: Element)
      requires e.ConflictElement?
      modifies this
      ensures Contents() == WithElement(old(Contents()), e)
    {
      hide WithZone, Named, Take;
      var relation: Option<nat> := None;
      ghost var was, n := Contents(), |relations|;
      ghost var forms := e.zoneId != "" && n < MAX_RELATIONS;
      WithZoneNowhere(lanelets, e.zoneId);
      for i := 0 to |e.participants|
        invariant relation == if i > 0 && forms then Some(n) else None
        invariant relations == was.relations + if i > 0 && forms then [PartialRelation(e, i)] else []
        invariant lanelets == WithZone(was.lanelets, LanesOf(e.participants[..i]), e.zoneId)
      {
        var p := e.participants[i];
        PartialRelationNext(e, i);
        if relation.None? {
          relation := AddConflictRelation(e.id, e.zoneId);
        }
        assert relations == was.relations + if forms then [PartialRelation(e, i)] else [];
        AddParticipant(relation, p);
        AddConflictZoneTo(p.laneletId, e.zoneId);
        WithZoneNext(was.lanelets, LanesOf(e.participants[..i]), p.laneletId, e.zoneId);
        assert LanesOf(e.participants[..i + 1]) == LanesOf(e.participants[..i]) + [p.laneletId];
      }
      assert e.participants[..|e.participants|] == e.participants;
      if |e.participants| == 0 {
        for i := 0 to |e.appliesTo|
          invariant relations == was.relations
          invariant lanelets == WithZone(was.lanelets, e.appliesTo[..i], e.zoneId)
        {
          AddConflictZoneTo(e.appliesTo[i], e.zoneId);
          WithZoneNext(was.lanelets, e.appliesTo[..i], e.appliesTo[i], e.zoneId);
          assert e.appliesTo[..i + 1] == e.appliesTo[..i] + [e.appliesTo[i]];
        }
        assert e.appliesTo[..|e.appliesTo|] == e.appliesTo;
      }
    }

    method ParseLightElement(e: Element)
      requires e.LightElement?
      modifies this
      ensures Contents() == WithElement(old(Contents()), e)
    {
      for i := 0 to |e.appliesTo|
        invariant relations == old(relations)
        invariant lanelets == WithLight(old(lanelets), e.appliesTo[..i], e.lightId)
      {
        SetTrafficLightOf(e.appliesTo[i], e.lightId);
        WithLightNext(old(lanelets), e.appliesTo[..i], e.appliesTo[i], e.lightId);
        assert e.appliesTo[..i + 1] == e.appliesTo[..i] + [e.appliesTo[i]];
      }
      assert e.appliesTo[..|e.appliesTo|] == e.appliesTo;
    }

    method ParseRegulatoryElements(es: seq<Element>)
      modifies this
      ensures Contents() == WithElements(old(Contents()), es)
    {
      hide WithElement;
      ghost var was := Contents();
      for i := 0 to |es|
        invariant Contents() == WithElements(was, es[..i])
      {
        assert es[..i + 1][..i] == es[..i];
        assert WithElements(was, es[..i + 1]) == WithElement(WithElements(was, es[..i]), es[i]);
        if es[i].LightElement? {
          ParseLightElement(es[i]);
        } else {
          ParseConflictElement(es[i]);
        }
      }
      assert es[..|es|] == es;
    }

    method ConflictZoneIdsForMovement(laneId: string, movement: string, maxOut: nat) returns (out: seq<string>)
      ensures out == Lookup(relations, Participant(laneId, movement), maxOut)
    {
      hide Lookup;
      ghost var p := Participant(laneId, movement);
      out := [];
      var i := 0;
      EmptyLookup(p, maxOut);
      while i < |relations| && |out| < maxOut
        invariant i <= |relations|
        invariant out == Lookup(relations[..i], p, maxOut) && |out| <= maxOut
      {
        LookupOfNext(relations, p, maxOut, i);
        var participants := relations[i].participants;
        assert participants[..|participants|] == participants;
        for j := 0 to |participants|
          invariant p !in participants[..j]
          invariant out == Lookup(relations[..i], p, maxOut) && |out| < maxOut
        {
          if participants[j].laneletId == laneId && participants[j].movement == movement {
            assert participants[j] == p;
            if relations[i].zoneId !in out {
              out := out + [relations[i].zoneId];
            }
            break;
          }
        }
        i := i + 1;
      }
      assert relations[..|relations|] == relations;
      if i < |relations| {
        FullLookupStays(relations, p, maxOut, i);
      }
    }
  }

  lemma EmptyLookup(p: Participant, maxOut: nat)
    ensures Lookup([], p, maxOut) == []
  {
  }

  /** The relation of an element after its first `i` participants. */
  function PartialRelation(e: Element, i: nat): Relation
    requires e.ConflictElement? && i <= |e.participants|
  {
    Relation(e.id, e.zoneId, Take(Named(e.participants[..i]), MAX_PARTICIPANTS))
  }

  lemma PartialRelationNext(e: Element, i: nat)
    requires e.ConflictElement? && i < |e.participants|
    ensures PartialRelation(e, i + 1) == Joined(PartialRelation(e, i), e.participants[i])
    ensures i == 0 ==> PartialRelation(e, i).participants == []
  {
    assert e.participants[..i + 1][..i] == e.participants[..i];
  }

  lemma WithZoneNowhere(lanelets: seq<Lanelet>, zone: string)
    ensures WithZone(lanelets, [], zone) == lanelets
  {
  }

  lemma WithLightNext(lanelets: seq<Lanelet>, lanes: seq<string>, lane: string, light: string)
    ensures WithLight(WithLight(lanelets, lanes, light), [lane], light) == WithLight(lanelets, lanes + [lane], light)
  {
    var once := WithLight(lanelets, lanes, light);
    assert forall i | 0 <= i < |lanelets| :: once[i].id == lanelets[i].id;
    forall i | 0 <= i < |lanelets|
      ensures WithLight(once, [lane], light)[i] == WithLight(lanelets, lanes + [lane], light)[i]
    {
      assert IsFirst(once, i) <==> IsFirst(lanelets, i);
    }
  }

  lemma WithZoneNext(lanelets: seq<Lanelet>, lanes: seq<string>, lane: string, zone: string)
    ensures WithZone(WithZone(lanelets, lanes, zone), [lane], zone) == WithZone(lanelets, lanes + [lane], zone)
  {
    var once := WithZone(lanelets, lanes, zone);
    assert forall i | 0 <= i < |lanelets| :: once[i].id == lanelets[i].id;
    forall i | 0 <= i < |lanelets|
      ensures WithZone(once, [lane], zone)[i] == WithZone(lanelets, lanes + [lane], zone)[i]
    {
      assert IsFirst(once, i) <==> IsFirst(lanelets, i);
    }
  }
}
