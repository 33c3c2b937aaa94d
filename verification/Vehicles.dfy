/** Vehicle records as they travel between the threads. */
module Vehicles {
  import opened Binary

  const MAX_OTHER_VEHICLES := 64
  const MAX_CONFLICT_ZONES := 4
  const VEHICLE_ID_NONE: byte := 0

  datatype VehicleInfo = VehicleInfo(
    vehicleId: byte,
    x: word,
    y: word,
    speed: byte,
    heading: word,
    laneletId: string,
    turnState: string,
    conflictZoneIds: seq<string>,
    linkedTlId: string,
    timestampMs: nat)

  const NO_VEHICLE := VehicleInfo(VEHICLE_ID_NONE, 0, 0, 0, 0, "", "", [], "", 0)

  const STRAIGHT := "straight"
  const RIGHT_TURN := "right_turn"
  const LEFT_TURN := "left_turn"
  const UNPROTECTED_LEFT := "unprotected_left"

  /** The zones a record can hold; anything beyond the fourth is out of every loop's reach. */
  function Zones(v: VehicleInfo): (r: seq<string>)
    ensures |r| <= MAX_CONFLICT_ZONES
  {
    if |v.conflictZoneIds| <= MAX_CONFLICT_ZONES then v.conflictZoneIds else v.conflictZoneIds[..MAX_CONFLICT_ZONES]
  }
}
