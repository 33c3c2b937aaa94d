# V2X MQTT bridge: verified model

The program sits in a car between a microcontroller (RTOS), reached through an IPC device that carries CAN
payloads in framed packets, and an MQTT broker that carries the positions of other vehicles. From its own position and
turn signal, and a map of the intersection, it works out which other vehicle is in conflict with its own movement and
tells the RTOS about it.

This project models that logic in Dafny and proves what it is for:

- **Frames and checksum** (`Binary`, `BitRegister`, `CrcTable`, `Crc16`, `IpcFrame`). The table-driven CRC-16 equals
  polynomial division by the generator of section 2 of ITU-T V.41; it is linear, has zero residue and detects every burst
  of up to 16 bits in a whole accepted frame. Building and parsing frames are inverse.
- **The receiver** (`Receiver`, `ReceiverFrames`, `ReceiverDamage`, `StreamRoundTrip`). A class over the 4096-byte buffer
  is tied to a scanner of the whole stream ever received, and the scanner to a declarative rule: frames are accepted
  greedily from the left. The result does not depend on how the stream is cut into reads.
- **Payloads** (`CanCodec`, `CanBytes`, `CanWire`). Bit fields of every message, the decoding byte by byte, and what a
  reader of the bytes can recover.
- **Candidates** (`Vehicles`, `OtherVehicles`, `OtherVehicleRuns`, `Candidates`, `CandidateSlots`). The table of other
  vehicles, what it holds after any updates and cleanups, shared conflict zones and the nearest eligible vehicle.
- **The transmit loop** (`CanTx`, `CanTxRuns`, `CanTxSchedule`, `CandidateRuns`). One tick as a class method tied to a
  function; over all runs, with MQTT updates interleaved anywhere, the introduction protocol, the exact schedule of every
  message and what each message says about the table and the map.
- **The conflict map** (`ConflictMap`, `ConflictIndex`, `ConflictCompleteness`). Two indexes built from the map's
  regulatory elements, and exactly when they agree.
- **The own vehicle** (`Geometry`, `PolygonGrid`, `MapService`, `SelfVehicle`, `CanRx`). Which lane a position is on,
  the latching turn state, and tracking of the zones still ahead.
- **Conflict detection over runs** (`ConflictRuns`). From map file to detector: exactly when two vehicles share a zone.
- **Time** (`Calendar`, `Scanf`, `NtpTime`). Reconstruction from 12 bits, and the ISO 8601 form of section 5.6 of
  RFC 3339 with the Gregorian calendar behind it (section 4.16 of the POSIX.1-2017 Base Definitions).

Conventions. C unsigned integers are natural numbers with every truncation and wrap-around written out. A locked section
is one atomic step. Reads from the device are arbitrary byte chunks; messages sent are appended to a log. Clock readings,
connection state and the MQTT traffic are inputs of the step that reads them; so is the map's answer for a position,
which `ConflictRuns` ties back to the map. Where one C function was split into several methods, the method that carries
the function's name (or its tick) is stated for the whole of it.

Some promises are false of the code as it stands; for these the exact condition is proved beside a failing case:

- The candidate protocol fails exactly when another vehicle may have id 0 (`CanTxRuns.ProtocolHoldsIff`).
- Cleanup drops a record that was updated after it sampled the clock (`OtherVehicles.CleanupDropsExactly`).
- The parser alone can hand out checksum bytes as payload (`IpcFrame.PayloadExcludesCrcIff`); the receiver never lets it
  (`Receiver.ParseExact`).
- A lane's own zone list is incomplete exactly when more than eight zones name the lane
  (`ConflictIndex.LaneListCompleteIff`); `ConflictIndex.IndexesAgreeIff` says exactly when the lookups leave it, and
  `ConflictIndex.NinthZoneDisagrees` and `ConflictIndex.LargeLookupDisagrees` are cases where they do.
- Conflicts beyond a movement's fourth zone go unseen (`ConflictCompleteness.SharedIffCommonZone`,
  `ConflictCompleteness.FifthZoneUnseen`).
- A lane whose id is longer than 15 characters loses its conflicts, unless the map also uses its first 15 characters as
  an id (`MapService.CutLaneKeepsZonesIff`).
- The distance arithmetic is defined exactly below 2^31, which coordinates outside the CAN field widths can exceed
  (`Candidates.DistanceDefinedIff`, `Candidates.OverflowOffGrid`).
- A report about the traffic light with id 0 is never read as one (`CanWire.RunReadsBack`), and can be bit for bit the
  report that there is none (`CanWire.LightHiddenIff`).
- A polygon with two equal neighbouring vertices contains every point; otherwise the test is exact on a half-unit grid
  (`PolygonGrid.InsideIff`).
- The receiver waits one or two bytes longer than the bytes can still become a frame, in exactly two cases
  (`ReceiverFrames.WaitsForFrames`).
- Printing and parsing times are inverse exactly while adding the base does not wrap (`NtpTime.ParseOfFormatted`).

## Model

| member | source | states |
|---|---|---|
| `CrcTable.TableIsCrcTable` | v2x_mqtt/common/ipc_frame.c:16-49 | the 256 constants of the table satisfy the derivation rule: entry 2i is entry i times x modulo the generator, entry 2i+1 is that with the generator's low terms added |
| `CrcTable.EntryIsRegister` | v2x_mqtt/common/ipc_frame.c:16-49 | table entry i is what eight steps of the bit-serial division register make of byte i, for every byte |
| `Crc16.CalcCrc16` | v2x_mqtt/common/ipc_frame.c:51-60 | the byte loop over the first `size` bytes computes the checksum function `Crc` |
| `Crc16.CrcByteIsFeed` | v2x_mqtt/common/ipc_frame.c:51-60 | one table step equals eight bit-serial division steps, for every register value and byte |
| `Crc16.CrcIsFeed` | v2x_mqtt/common/ipc_frame.c:51-60 | the checksum of every message is the bit-serial register after all its bits, from 0, unreflected |
| `Crc16.CrcIsLongDivision` | v2x_mqtt/common/ipc_frame.c:51-60 | the checksum of every message is the remainder of message * x^16 by x^16 + x^12 + x^5 + 1, by polynomial long division defined independently |
| `Crc16.CrcLinear` | v2x_mqtt/common/ipc_frame.c:51-60 | the checksum of the XOR of two equally long messages is the XOR of their checksums |
| `Crc16.ZeroResidue` | v2x_mqtt/common/ipc_frame.c:51-60 | a message followed by two bytes has checksum 0 iff those bytes are its own checksum, high byte first |
| `Crc16.BurstChangesResidue` | v2x_mqtt/common/ipc_frame.c:51-60 | damage confined to 16 consecutive bits, anywhere, turns a zero checksum into a nonzero one |
| `BitRegister.BurstNotDivisible` | v2x_mqtt/common/ipc_frame.c:51-60 | no nonzero error within 16 consecutive bits is divisible by the generator, whatever clear bits surround it |
| `BitRegister.FeedIsLongDivision` | v2x_mqtt/common/ipc_frame.c:51-60 | the shift register and paper division agree on every bit string |
| `BitRegister.ResidueIsZero` | v2x_mqtt/common/ipc_frame.c:51-60 | 16 bits empty the register iff they are its own contents |
| `IpcFrame.ParseFrame` | v2x_mqtt/common/ipc_frame.c:62-99 | the parser's verdict and frame for every buffer and length, negative lengths included, looking at the first `len` bytes only |
| `IpcFrame.BuildFrame` | v2x_mqtt/common/ipc_frame.c:101-154 | -1 and an untouched buffer exactly when the data is empty, longer than 65531 bytes or does not fit; otherwise exactly the sealed packet, and nothing written behind it |
| `IpcFrame.WritePrefix` | v2x_mqtt/common/ipc_frame.c:123-137 | writes start pattern, commands and big-endian length and leaves the rest of the buffer alone |
| `IpcFrame.WriteTxHeader` | v2x_mqtt/common/ipc_frame.c:139-143 | writes channel masks and big-endian CAN id and leaves the rest of the buffer alone |
| `IpcFrame.ParseOfSealed` | v2x_mqtt/common/ipc_frame.c:62-154 | every sealed packet with at least 8 payload bytes parses to exactly its payload |
| `IpcFrame.AcceptedIff` | v2x_mqtt/common/ipc_frame.c:62-99 | a buffer is accepted iff it has at least 17 bytes, starts with FF 55 AA, has a LENGTH of at least 8 and as a whole leaves no remainder; and which bytes are then the payload |
| `IpcFrame.RefusedIff` | v2x_mqtt/common/ipc_frame.c:62-99 | exactly when each of the four refusals is given |
| `IpcFrame.BuiltFrame` | v2x_mqtt/common/ipc_frame.c:101-154 | byte for byte what a built frame holds: start pattern, commands, LENGTH, the two channel masks in order, CAN id, data, and no remainder |
| `IpcFrame.AcceptedDivides` | v2x_mqtt/common/ipc_frame.c:62-99 | a buffer is accepted only if as a whole, header included, it divides evenly by the generator |
| `IpcFrame.BurstIsRefused` | v2x_mqtt/common/ipc_frame.c:62-99 | if a buffer is accepted, the same buffer damaged within any 16 consecutive bits is not, even when header or LENGTH is hit |
| `IpcFrame.PayloadExcludesCrcIff` | v2x_mqtt/common/ipc_frame.c:77-99 | the payload handed out stops before the checksum iff LENGTH claims no more than the payload bytes present |
| `IpcFrame.OverstatedLength` | v2x_mqtt/common/ipc_frame.c:78-80 | for every payload, overstating LENGTH by 2 in a sealed packet makes the parser return the checksum as payload |
| `Receiver.CanHandler.ConsumeRxBytes` | v2x_mqtt/handler/can_handler.c:240-249 | the buffer stays the exact suffix of the received stream, `count` bytes shorter or empty |
| `Receiver.CanHandler.FindIpcHeader` | v2x_mqtt/handler/can_handler.c:251-259 | the offset of the first FF 55 AA, or the length when there is none |
| `Receiver.CanHandler.SkipToHeader` | v2x_mqtt/handler/can_handler.c:265-273 | dropping to the first header, or to the last two bytes, changes no decision of the scanner |
| `Receiver.CanHandler.DecideFront` | v2x_mqtt/handler/can_handler.c:273-303 | waits, drops one byte or takes the frame exactly as the stream scanner decides at that position, and returns the record of the frame taken |
| `Receiver.CanHandler.ProcessIpcRxBuffer` | v2x_mqtt/handler/can_handler.c:261-307 | the loop terminates, emits exactly the records of the scanner and stops at the scanner's first undecided byte |
| `Receiver.CanHandler.AppendRead` | v2x_mqtt/handler/can_handler.c:382-389 | appends one read; the buffer remains a suffix of the stream even when a read discards what was buffered |
| `Receiver.CanHandler.Poll` | v2x_mqtt/handler/can_handler.c:354-391 | chunking invariance: after every poll the records emitted and the bytes kept are those of one scan of the whole stream; fewer than 1024 bytes remain, so the overflow branch is never reached |
| `Receiver.CanHandler.PollAll` | v2x_mqtt/handler/can_handler.c:375-391 | the same after any number of reads of any sizes up to 1024 bytes |
| `Receiver.ReceiveSession` | v2x_mqtt/core/can_rx_thread.c:101-117 | from an empty buffer the records emitted depend on the bytes alone, not on how the reads cut them |
| `Receiver.StepAt` | v2x_mqtt/handler/can_handler.c:265-303 | a position is left undecided only while fewer than 1024 bytes from it on have arrived |
| `Receiver.Scan` | v2x_mqtt/handler/can_handler.c:261-307 | the scanner's residue is always shorter than 1024 bytes |
| `Receiver.StepStable` | v2x_mqtt/handler/can_handler.c:261-307 | bytes that arrive later never change a decision already made |
| `Receiver.ScanExtends` | v2x_mqtt/handler/can_handler.c:261-307 | scanning a + b is scanning a and then resuming on its residue followed by b |
| `Receiver.ScanIsGreedy` | v2x_mqtt/handler/can_handler.c:261-307 | before the first undecided byte a frame is accepted at p iff a well-formed frame starts at p and p is not inside an earlier accepted frame |
| `Receiver.GreedyIsUnique` | v2x_mqtt/handler/can_handler.c:261-307 | that rule determines the accepted positions: no other list of positions meets it |
| `Receiver.ParseExact` | v2x_mqtt/handler/can_handler.c:286-292 | on a buffer of exactly the declared length the parser checks the checksum and returns exactly the payload |
| `ReceiverFrames.FrameAtIff` | v2x_mqtt/handler/can_handler.c:261-307 | what the scanner takes for a frame is exactly start pattern, a LENGTH of 8 to 1013, and that many bytes that with the checksum leave no remainder |
| `ReceiverFrames.WaitsForFrames` | v2x_mqtt/handler/can_handler.c:265-291 | from the third byte on the receiver waits iff the bytes can still become a frame, except in two named cases where it waits one or two bytes too long |
| `ReceiverFrames.DropsForGood` | v2x_mqtt/handler/can_handler.c:265-303 | no continuation makes a frame of a position that was dropped |
| `ReceiverDamage.BurstIsDropped` | v2x_mqtt/handler/can_handler.c:275-291 | in the stream: a frame that would be taken is dropped when damage within 16 consecutive bits spares its header and LENGTH |
| `ReceiverDamage.DamagedHeaderIsDropped` | v2x_mqtt/handler/can_handler.c:251-259 | any damage to the three header bytes drops the position, whatever else is hit |
| `StreamRoundTrip.ScanOfWire` | v2x_mqtt/handler/can_handler.c:261-307 | frames separated by arbitrary header-free noise are all taken, and nothing else |
| `StreamRoundTrip.NoHeaderInNoise` | v2x_mqtt/handler/can_handler.c:251-259 | FF 55 AA does not overlap itself: noise and the frame behind it form no header across their seam |
| `StreamRoundTrip.EgosDelivered` | v2x_mqtt/handler/can_handler.c:160-307 | any list of in-range ego records, packed, framed and sent with header-free noise in between, is received as exactly that list, whatever the reads |
| `StreamRoundTrip.DeliveredCount` | v2x_mqtt/handler/can_handler.c:160-307 | of any frames sent, exactly those with a first payload byte below 16 deliver a record |
| `StreamRoundTrip.ForeignFramesDeliverNothing` | v2x_mqtt/handler/can_handler.c:185-188 | frames whose payloads carry another message id deliver no record at all |
| `CanCodec.PackCanData` | v2x_mqtt/handler/can_handler.c:396-406 | the eight bytes are the big-endian bytes of the three fields side by side |
| `CanCodec.DecodeCanPayload` | v2x_mqtt/handler/can_handler.c:160-194 | computes the decoding `DecodePayload`, whose meaning `CanBytes.DecodedBytes` states |
| `CanBytes.DecodedBytes` | v2x_mqtt/handler/can_handler.c:160-194 | for every byte string: a record is decoded iff there are at least 8 bytes and the first is below 16; it depends on the first 8 bytes only, and each field by its bytes |
| `CanCodec.DecodeOfPacked` | v2x_mqtt/handler/can_handler.c:160-194 | decoding inverts packing for every ego record in range |
| `CanCodec.UnpackWord` | v2x_mqtt/handler/can_handler.c:396-406 | message id, timestamp and 48-bit payload are read back from the packed bytes |
| `CanCodec.StatusCarriesVehicle` | v2x_mqtt/handler/can_handler.c:500-527 | type mask, speed, position and heading sit in disjoint fields and read back with the ego decoder's shifts |
| `CanCodec.IntroCarriesZone` | v2x_mqtt/handler/can_handler.c:483-497 | type mask and zone centre sit in disjoint fields |
| `CanCodec.TrafficLightCarriesFields` | v2x_mqtt/handler/can_handler.c:540-587 | light id, colour, time left, zone centre and maneuver sit in disjoint fields |
| `CanCodec.NtpCarriesClock` | v2x_mqtt/handler/can_handler.c:447-480 | 40 bits of the epoch above the status byte, and the message timestamp is the low 12 bits of the same epoch |
| `CanWire.ReadOfEncoded` | v2x_mqtt/handler/can_handler.c:447-587 | a reader that knows only the bit layout recovers kind and fields of a message iff it does not carry the mask or light id that stands for "none" or "communication error" |
| `CanWire.RunReadsBack` | v2x_mqtt/core/can_tx_thread.c:253-385 | in every run a message reads back, kind and fields, as what it says iff it is not about the traffic light with id 0 |
| `CanWire.LightHiddenIff` | v2x_mqtt/handler/can_handler.c:540-578 | the payload for a light is that for "no traffic light" iff its id is 0 and its colour and time fields are 0 |
| `CanWire.LightLikeLinkErrorIff` | v2x_mqtt/handler/can_handler.c:540-587 | it is that for "communication error" iff its id is 128 and all fields but the maneuver are 0, which the ids of the light table exclude |
| `CanWire.StampOfEncoded` | v2x_mqtt/handler/can_handler.c:396-406 | the low twelve bits of the first two bytes are the message's timestamp, for every message |
| `CanWire.ManeuverOfTurn` | v2x_mqtt/core/can_tx_thread.c:84-91 | the maneuver code of each of the four turn states, 0 without a record |
| `Candidates.VehicleHasConflictZone` | v2x_mqtt/core/can_tx_thread.c:40-50 | true iff the nonempty id is among the first four zones of the record |
| `Candidates.FindSharedConflictZone` | v2x_mqtt/core/can_tx_thread.c:52-65 | returns the first zone of the first vehicle that the second one names |
| `Candidates.SharedZoneIff` | v2x_mqtt/core/can_tx_thread.c:40-65 | a shared zone is found iff some zone is named by both; whether one is found is symmetric, and the one found is named by both |
| `Candidates.FirstNamedIsFirst` | v2x_mqtt/core/can_tx_thread.c:52-65 | the zone found is the first of our own that the other vehicle names |
| `Candidates.MaskWarns` | v2x_mqtt/core/can_tx_thread.c:93-122 | which four pairs of movements conflict, and the mask 1, 2, 4 or 8 of each |
| `Candidates.CandidateMeans` | v2x_mqtt/core/can_tx_thread.c:136-163 | a selection holds the other vehicle's record, the mask of the conflict, and the first shared zone with its centre |
| `Candidates.MaskNamesMovements` | v2x_mqtt/core/can_tx_thread.c:93-122 | equal type masks mean equal movements of both vehicles |
| `Candidates.EligibleIff` | v2x_mqtt/core/can_tx_thread.c:136-155 | a vehicle is eligible iff it is another vehicle, shares a zone with a known centre and its movement conflicts |
| `Candidates.DistanceDefinedIff` | v2x_mqtt/core/can_tx_thread.c:67-72 | the signed 32-bit arithmetic is defined iff the true squared distance is below 2^31, and then it is exact |
| `Candidates.CanGridIsDefined` | v2x_mqtt/core/can_tx_thread.c:67-72 | for 10/11-bit coordinates it is defined and exact |
| `Candidates.OverflowOffGrid` | v2x_mqtt/core/can_tx_thread.c:67-72 | along one axis it overflows from a distance of 46341 on |
| `Candidates.SelectCandidateVehicle` | v2x_mqtt/core/can_tx_thread.c:124-171 | the selection loop computes the specification `Select` |
| `Candidates.SelectIsNearest` | v2x_mqtt/core/can_tx_thread.c:132-168 | over the copied list: a candidate is selected iff an eligible record exists, and it is the first of the nearest |
| `Candidates.NearestIndex` | v2x_mqtt/core/can_tx_thread.c:132-168 | the same with the position of the selected record |
| `Candidates.SelectIsTrulyNearest` | v2x_mqtt/core/can_tx_thread.c:124-171 | wherever the arithmetic is defined for all eligible vehicles, none of them is truly closer than the one selected |
| `Candidates.SelectIsNearestOnGrid` | v2x_mqtt/core/can_tx_thread.c:124-171 | on the CAN grid no eligible vehicle is truly closer than the one selected |
| `Candidates.WrappedSelectionTakesFar` | v2x_mqtt/core/can_tx_thread.c:124-171 | under two's-complement wrapping of the overflow, selection takes an eligible vehicle about 65536 away rather than one at 100 |
| `CandidateSlots.ChosenIsNearestSlot` | v2x_mqtt/core/can_tx_thread.c:124-171 | over the 64-slot table: a candidate is chosen iff some valid slot is eligible, and it is the record of the lowest slot among the nearest eligible ones |
| `CandidateSlots.NearestSlotIsUnique` | v2x_mqtt/core/can_tx_thread.c:124-171 | that rule determines the slot |
| `CandidateSlots.ChosenIsTrulyNearest` | v2x_mqtt/core/can_tx_thread.c:67-171 | with the arithmetic defined for all eligible slots, none is truly closer than the chosen one |
| `Candidates.SelectFarthestZoneCenter` | v2x_mqtt/core/can_tx_thread.c:173-209 | the loop computes the specification `FarthestZone` |
| `Candidates.FarthestIsFarthest` | v2x_mqtt/core/can_tx_thread.c:173-209 | a centre is picked iff one of our zones has a known centre, and it is the first of the farthest by the computed distance |
| `Candidates.FarthestIsTrulyFarthest` | v2x_mqtt/core/can_tx_thread.c:173-209 | wherever that arithmetic is defined, no known zone of ours is truly farther |
| `Candidates.ZoneDistanceIs` | v2x_mqtt/core/can_tx_thread.c:67-72 | the squared distance, coordinate by coordinate |
| `OtherVehicles.OtherVehicleManager.Update` | v2x_mqtt/manager/other_vehicle_manager.c:27-35 | stores the record in the slot of its id and stamps it; ids of 64 and more change nothing |
| `OtherVehicles.OtherVehicleManager.CopyValid` | v2x_mqtt/manager/other_vehicle_manager.c:59-71 | copies the valid records in slot order, up to the maximum |
| `OtherVehicles.OtherVehicleManager.CleanupStale` | v2x_mqtt/manager/other_vehicle_manager.c:73-89 | drops exactly the stale slots, and the candidate iff its slot is dropped |
| `OtherVehicles.OtherVehicleManager.SetCandidate` | v2x_mqtt/manager/other_vehicle_manager.c:91-103 | fills or clears the candidate slot and nothing else |
| `OtherVehicles.OtherVehicleManager.GetCandidate` | v2x_mqtt/manager/other_vehicle_manager.c:105-113 | returns the candidate slot |
| `OtherVehicles.CopyHoldsValidSlots` | v2x_mqtt/manager/other_vehicle_manager.c:59-71 | a record is in the copy iff it sits in a valid slot |
| `OtherVehicles.CopyKeepsSlotOrder` | v2x_mqtt/manager/other_vehicle_manager.c:59-71 | a valid slot's record sits in the copy right behind the records of the valid slots before it |
| `OtherVehicles.CleanupDropsExactly` | v2x_mqtt/manager/other_vehicle_manager.c:73-89 | exactly which records a cleanup drops, for updates before and after the time it sampled: the unsigned difference wraps |
| `OtherVehicles.FreshRecordDropped` | v2x_mqtt/manager/other_vehicle_manager.c:73-89 | a record written one millisecond after the cleanup sampled the clock is dropped |
| `OtherVehicleRuns.TableClosedForm` | v2x_mqtt/manager/other_vehicle_manager.c:27-89 | after any updates and cleanups each slot holds the last update for its id and the time of it, and is valid iff no cleanup since found that too old |
| `OtherVehicleRuns.ValidIff` | v2x_mqtt/manager/other_vehicle_manager.c:27-89 | a slot is valid iff its vehicle was heard of and spared by every cleanup since |
| `OtherVehicleRuns.IdsStored` | v2x_mqtt/manager/other_vehicle_manager.c:27-35 | after any updates and cleanups an id of 64 or more leaves no trace, and a valid slot holds a record with its own id |
| `OtherVehicleRuns.CleanupWithdrawsIff` | v2x_mqtt/manager/other_vehicle_manager.c:73-89 | a cleanup withdraws the candidate iff it drops that vehicle's slot |
| `OtherVehicleRuns.SlotOfRun` | v2x_mqtt/core/can_tx_thread.c:253-385 | the closed form holds at every tick boundary of every run: the transmit loop never touches the table |
| `CanTx.TxThread.RunTick` | v2x_mqtt/core/can_tx_thread.c:253-385 | one iteration is the tick function: new memory and timers, table and candidate slot, and the messages in order |
| `CanTx.TxThread.CandidatePart` | v2x_mqtt/core/can_tx_thread.c:315-373 | choosing, introducing and reporting, with MQTT updates between the copy of the table and the setting of the candidate |
| `CanTx.TxThread.AnnounceCandidate` | v2x_mqtt/core/can_tx_thread.c:338-355 | introduction when the vehicle is new, status when due or new, slot filled with the record announced; what they say is `CandidateRuns.MessagesTellTheTruth` |
| `CanTx.TxThread.LoseCandidate` | v2x_mqtt/core/can_tx_thread.c:317-324 | slot cleared, and the loss told when a status is due or a candidate was announced before |
| `CanTx.TxThread.EndCandidateMode` | v2x_mqtt/core/can_tx_thread.c:281-291 | slot cleared, one "no candidate" sent, memory reset |
| `CanTx.TxThread.SendCandidateTrafficLight` | v2x_mqtt/core/can_tx_thread.c:211-251 | one traffic-light message: link error, no light, or the light our lane is linked to, with the centre of the farthest zone |
| `CanTx.LightNumberOfName` | v2x_mqtt/service/map_service.c:163-171 | light names TL and a number are read as that number; a name without a number is read as id 0 |
| `CanTx.LightNumberRefused` | v2x_mqtt/service/map_service.c:163-171 | numbers above 255, negative numbers and names that do not start with TL are refused |
| `CanTxRuns.RunLoop` | v2x_mqtt/core/can_tx_thread.c:253-385 | any number of iterations leave the thread where the run function says, with exactly its log |
| `CanTxRuns.IntroducedMeans` | v2x_mqtt/core/can_tx_thread.c:317-373 | a vehicle counts as introduced iff some introduction of it stands with no introduction or withdrawal after it |
| `CanTxRuns.RunKeeps` | v2x_mqtt/core/can_tx_thread.c:253-385 | at every tick boundary of every run over nonzero ids: only legal statuses so far, the loop's memory is the vehicle introduced, and a filled candidate slot names it |
| `CanTxRuns.StatusFollowsIntroduction` | v2x_mqtt/core/can_tx_thread.c:317-373 | every status is for a vehicle introduced before it, with no other introduction and no withdrawal in between |
| `CanTxRuns.SlotNamesIntroduced` | v2x_mqtt/core/can_tx_thread.c:253-385 | after any ticks and any further MQTT steps a filled candidate slot names the vehicle introduced last |
| `CanTxRuns.LossIsAnnounced` | v2x_mqtt/core/can_tx_thread.c:281-373 | an introduced candidate stays so iff the tick settles on it again; otherwise the same tick sends the reason |
| `CanTxRuns.ProtocolHoldsIff` | v2x_mqtt/core/can_tx_thread.c:338-355 | the protocol holds over all runs iff no other vehicle uses id 0, which doubles as "nobody introduced" |
| `CanTxRuns.UnintroducedRun` | v2x_mqtt/core/can_tx_thread.c:338-355 | with id 0 a one-tick run reports a vehicle that was never introduced |
| `CandidateRuns.MessagesTellTheTruth` | v2x_mqtt/core/can_tx_thread.c:315-373 | over runs: every status holds the record in the lowest of the nearest eligible slots of the table copied on that tick, under the mask of the conflict; every introduction that vehicle, that mask and the centre of the first shared zone |
| `CandidateRuns.SlotAfterTick` | v2x_mqtt/core/can_tx_thread.c:281-373 | over runs: the candidate slot after an active tick holds that same record, or nothing if no slot was eligible |
| `CandidateRuns.LightMessagesTellTheTruth` | v2x_mqtt/core/can_tx_thread.c:211-251 | over runs: which of the three traffic-light messages is sent, with which light, maneuver and farthest centre |
| `CandidateRuns.MessagesInOrder` | v2x_mqtt/core/can_tx_thread.c:253-385 | over runs: the messages of a tick in order, and "unavailable" and "no candidate" only where that is the case |
| `CanTxSchedule.NtpSchedule` | v2x_mqtt/core/can_tx_thread.c:265-268 | one clock message on every tenth tick and none on any other |
| `CanTxSchedule.LightSchedule` | v2x_mqtt/core/can_tx_thread.c:274-313 | a traffic-light message goes out exactly 30 ticks after the previous one or 15 after the start or latest activation, whichever is later, never on an activation; the 32-bit timers may wrap |
| `CanTxSchedule.LightWhenDue` | v2x_mqtt/core/can_tx_thread.c:274-313 | the same with the due tick computed, and never two in a tick |
| `CanTxSchedule.StatusCadence` | v2x_mqtt/core/can_tx_thread.c:304-383 | at most one 0x5 message a tick, one on every activation, and no two consecutive active ticks without one |
| `CanTxSchedule.StatusOnFallingEdge` | v2x_mqtt/core/can_tx_thread.c:281-303 | inactive ticks send exactly one 0x5 message per falling edge, "no candidate" |
| `CanTxSchedule.StatusExactly` | v2x_mqtt/core/can_tx_thread.c:304-383 | over nonzero ids an active tick sends a 0x5 message iff mode just began, the tick before sent none, or the candidate changed or was lost |
| `ConflictMap.IntersectionMap.FindLanelet` | v2x_mqtt/map/IntersectionMap.c:240-264 | the first lane with the id, or none |
| `ConflictMap.IntersectionMap.LaneletAddConflictZone` | v2x_mqtt/map/IntersectionMap.c:266-292 | adds a zone to a lane unless empty, present or the list is full |
| `ConflictMap.IntersectionMap.AddConflictRelation` | v2x_mqtt/map/IntersectionMap.c:303-325 | adds a relation unless the zone is empty or the table full |
| `ConflictMap.IntersectionMap.AddParticipant` | v2x_mqtt/map/IntersectionMap.c:327-347 | adds a participant unless there is no relation, no lane or no room |
| `ConflictMap.IntersectionMap.ParseConflictElement` | v2x_mqtt/map/IntersectionMap.c:663-719 | one conflict element: at most one relation with its first four participants, and every lane named gets the zone |
| `ConflictMap.IntersectionMap.ParseLightElement` | v2x_mqtt/map/IntersectionMap.c:640-662 | one traffic-light element sets the light of every existing lane named |
| `ConflictMap.IntersectionMap.ParseRegulatoryElements` | v2x_mqtt/map/IntersectionMap.c:628-724 | the whole element list builds exactly the specified map |
| `ConflictMap.IntersectionMap.ConflictZoneIdsForMovement` | v2x_mqtt/map/IntersectionMap.c:858-897 | the lookup returns exactly the first `maxOut` different zones of the relations the movement takes part in, in relation order |
| `ConflictMap.DistinctKeepsItems` | v2x_mqtt/map/IntersectionMap.c:877-890 | the list of different zones repeats nothing and loses nothing |
| `ConflictMap.DistinctKeepsOrder` | v2x_mqtt/map/IntersectionMap.c:877-890 | and keeps the order of first occurrence |
| `ConflictIndex.RelationsLoaded` | v2x_mqtt/map/IntersectionMap.c:303-325 | closed form: the table holds the first 32 relations asked for |
| `ConflictIndex.RelationMeans` | v2x_mqtt/map/IntersectionMap.c:663-719 | which elements ask for a relation, and its id, zone and at most four participants with a lane, in order |
| `ConflictIndex.NamesLaneIff` | v2x_mqtt/map/IntersectionMap.c:663-719 | which lanes a conflict element names: those of its participants, or its `applies_to` list if it has none |
| `ConflictIndex.LaneLightLoaded` | v2x_mqtt/map/IntersectionMap.c:640-662 | the light of a lane is that of the last element that gives it one |
| `ConflictIndex.LaterLaneUntouched` | v2x_mqtt/map/IntersectionMap.c:240-264 | of lanes with the same id all but the first stay as they were |
| `ConflictIndex.LaneZonesLoaded` | v2x_mqtt/map/IntersectionMap.c:266-292 | closed form: a lane's list holds the first eight different zones of the elements that name it |
| `ConflictIndex.LaneListCompleteIff` | v2x_mqtt/map/IntersectionMap.c:266-292 | lane lists never repeat a zone and are complete iff at most eight different zones name the lane |
| `ConflictIndex.IndexesAgreeIff` | v2x_mqtt/map/IntersectionMap.c:663-897 | all lookups of a lane stay within its own list iff every relation kept in which the lane takes part has its zone among the first eight different zones naming the lane |
| `ConflictIndex.LookedUpZones` | v2x_mqtt/map/IntersectionMap.c:858-897 | the lookups of a lane return exactly the zones of the relations it takes part in |
| `ConflictIndex.IndexesAgree` | v2x_mqtt/map/IntersectionMap.c:663-897 | in particular they do unless more than eight zones name the lane, whatever the other capacity limits dropped |
| `ConflictIndex.NinthZoneDisagrees` | v2x_mqtt/map/IntersectionMap.c:663-897 | eight zones naming a lane first and one relation adding a ninth make a single-zone lookup disagree |
| `ConflictIndex.LargeLookupDisagrees` | v2x_mqtt/map/IntersectionMap.c:663-897 | a lookup of more than eight zones always returns one that the lane's list has dropped |
| `ConflictCompleteness.FilledNames` | v2x_mqtt/manager/self_vehicle_manager.c:71-95 | a record names exactly the 16-byte forms of the first four zones of its movement |
| `ConflictCompleteness.SharedIffCommonZone` | v2x_mqtt/core/can_tx_thread.c:40-65 | for freshly filled records: a shared zone is found iff the first four zones of the two movements, by the lane ids looked up, have a common 16-byte form |
| `ConflictCompleteness.RelatedMovementsShare` | v2x_mqtt/map/IntersectionMap.c:858-897 | for freshly filled records: two movements in one relation, each with at most four zones, always share a zone, whichever looks |
| `ConflictCompleteness.RelatedInFileShare` | v2x_mqtt/map/IntersectionMap.c:663-719 | the same from the map file's elements, if it asks for at most 32 relations |
| `MapService.QueryVehicleContext` | v2x_mqtt/service/map_service.c:68-96 | the context of a position: none in the centre or off all lanes, else that of the first lane containing it, with ids cut to 15 characters |
| `MapService.ContextIsUnique` | v2x_mqtt/service/map_service.c:68-96 | that determines the context |
| `MapService.CutLaneKeepsZonesIff` | v2x_mqtt/service/map_service.c:86-93 | a movement keeps its zones through the cut of its lane id iff the id has at most 15 characters, unless the map uses the cut id too; a longer id loses them all |
| `ConflictRuns.TextsOfContext` | v2x_mqtt/service/map_service.c:86-93 | the ids in a context are the lane's ids cut to 15 characters |
| `ConflictRuns.TurnEnabledOnMap` | v2x_mqtt/core/can_rx_thread.c:18-49 | which signal on which lane of the map enables which turn, protected and unprotected left told apart |
| `ConflictRuns.NoTurnOffLanes` | v2x_mqtt/core/can_rx_thread.c:18-49 | off the lanes and in the centre no turn is enabled |
| `ConflictRuns.OnLaneIff` | v2x_mqtt/service/map_service.c:68-96 | a position counts as on a lane iff it is outside the centre and the first lane containing it has an id |
| `ConflictRuns.FrameFills` | v2x_mqtt/core/can_rx_thread.c:51-72 | after every on-lane frame the record is filled for the lane id of the frame's context and the turn in closed form |
| `ConflictRuns.NamesIffTracks` | v2x_mqtt/manager/self_vehicle_manager.c:71-167 | after any run a record names a zone iff it was filled in at the last on-lane frame and no frame since found it behind |
| `ConflictRuns.SharedOverRuns` | v2x_mqtt/core/can_tx_thread.c:40-65 | after any two runs the vehicles are found to share a zone iff some zone was filled in for both and passed by neither |
| `ConflictRuns.RelationTracked` | v2x_mqtt/manager/self_vehicle_manager.c:71-167 | a vehicle last on a lane whose movement takes part in a relation, with an id of at most 15 characters and at most four zones, tracks its zone exactly until it passes it |
| `ConflictRuns.RelatedVehiclesShare` | v2x_mqtt/core/can_tx_thread.c:40-65 | completeness over runs: two such vehicles of one relation share a zone, whichever looks, as long as neither has passed its zone |
| `ConflictRuns.RelatedInFileOverRuns` | v2x_mqtt/map/IntersectionMap.c:663-719 | the same from the map file to the detector |
| `ConflictCompleteness.FifthZoneUnseen` | v2x_mqtt/manager/self_vehicle_manager.c:71-95 | the bound of four is needed: with five zones on one movement a conflict on the fifth is not found |
| `SelfVehicle.SelfVehicleManager.FillConflictZonesFromLane` | v2x_mqtt/manager/self_vehicle_manager.c:71-95 | fills the list with the first four zones of lane and movement, shortened to the field |
| `SelfVehicle.FilledByMovement` | v2x_mqtt/manager/self_vehicle_manager.c:71-95 | the movement looked up for each turn state: both lefts are "left_turn" |
| `SelfVehicle.SelfVehicleManager.FilterExistingConflictZones` | v2x_mqtt/manager/self_vehicle_manager.c:124-150 | keeps exactly the zones not behind, in order |
| `SelfVehicle.SelfVehicleManager.UpdateConflictZones` | v2x_mqtt/manager/self_vehicle_manager.c:152-167 | fills on a lane, filters off it |
| `SelfVehicle.SelfVehicleManager.UpdateFromCan` | v2x_mqtt/manager/self_vehicle_manager.c:187-214 | the whole new record, ego copy and update time for an ego frame |
| `SelfVehicle.SelfVehicleManager.GetInfo` | v2x_mqtt/manager/self_vehicle_manager.c:216-225 | the record while it is at most 300 ms old |
| `SelfVehicle.ZonesTracked` | v2x_mqtt/manager/self_vehicle_manager.c:124-167 | after any run the list is, in order, what the last on-lane update filled in minus every zone some off-lane update since found behind |
| `SelfVehicle.NothingTracked` | v2x_mqtt/manager/self_vehicle_manager.c:124-167 | before the first on-lane update the list is empty |
| `SelfVehicle.OffLaneNeverGrows` | v2x_mqtt/manager/self_vehicle_manager.c:124-150 | an off-lane update keeps exactly the zones not behind and repeats none |
| `CanRx.RxThread.OnEgoFrame` | v2x_mqtt/core/can_rx_thread.c:51-90 | turn state, record, publish queue and transmit flag after one frame, with the turn state set before the record is updated |
| `CanRx.RxThread.TryPop` | v2x_mqtt/manager/vehicle_publish_queue.c:31-46 | hands out and clears the waiting record |
| `CanRx.QueueHoldsLatest` | v2x_mqtt/core/can_rx_thread.c:74-78 | after any run the publish queue holds the record of the last frame that published, unless it was taken since |
| `CanRx.RecordOfFrame` | v2x_mqtt/manager/self_vehicle_manager.c:187-214 | over runs: the record after a frame, field by field, with the name of the turn in force |
| `CanRx.ReadableIff` | v2x_mqtt/manager/self_vehicle_manager.c:216-225 | over runs: the record is handed out exactly while the last frame is at most 300 ms old, and never before the first |
| `CanRx.TurnStateClosedForm` | v2x_mqtt/core/can_rx_thread.c:18-49 | after any run the turn state is the first turn enabled since the signal was last off, straight if none |
| `CanRx.NoDirectSwitch` | v2x_mqtt/core/can_rx_thread.c:30-32 | a turn ends exactly on a signal-off frame and only in straight |
| `CanRx.FlagFollowsTurn` | v2x_mqtt/core/can_rx_thread.c:79-89 | over runs, from the frames alone: the transmit flag is set iff the first turn enabled since the signal was last off is a right turn or an unprotected left |
| `CanRx.ZonesOfFrames` | v2x_mqtt/core/can_rx_thread.c:51-90 | zone tracking over frames, with the turn state in closed form |
| `CanRx.StampedWithSensingTime` | v2x_mqtt/core/can_rx_thread.c:63-72 | the record carries the sensing time of its frame whenever that arrived within 4096 ms |
| `Geometry.PointInPolygon` | v2x_mqtt/map/IntersectionMap.c:199-235 | boundary loop and ray-casting loop compute the specification `Inside` |
| `Geometry.RotationInvariant` | v2x_mqtt/map/IntersectionMap.c:199-235 | for every polygon and point the answer does not depend on where the vertex list starts |
| `Geometry.RectangleIff` | v2x_mqtt/map/IntersectionMap.c:166-235 | for rectangles in either direction from any corner on a half-unit grid, tolerances included, the answer is closed-box membership |
| `Geometry.RectangleOnHalfUnits` | v2x_mqtt/map/IntersectionMap.c:166-235 | the same for integer positions and corners at whole or half units |
| `PolygonGrid.OnSegmentIff` | v2x_mqtt/map/IntersectionMap.c:166-194 | on the half-unit grid the tolerances accept exactly the points of the closed side, but every point when the side has no length |
| `PolygonGrid.CrossesIff` | v2x_mqtt/map/IntersectionMap.c:226-227 | off its line, an edge counts as crossed iff one end is above the point, the other not, and the point lies left of it, up to 250 billion units away |
| `PolygonGrid.FarPointMisjudged` | v2x_mqtt/map/IntersectionMap.c:226-227 | at that distance the 1e-12 in the divisor puts a point on the wrong side |
| `PolygonGrid.InsideIff` | v2x_mqtt/map/IntersectionMap.c:199-235 | for grid polygons of any shape: inside iff on the outline or an odd number of sides is met, unless a vertex is repeated at once, which puts every point inside |
| `PolygonGrid.RepeatedVertexHoldsAll` | v2x_mqtt/map/IntersectionMap.c:199-216 | with two equal neighbouring vertices a polygon contains every point, on any coordinates |
| `PolygonGrid.RayDirection` | v2x_mqtt/map/IntersectionMap.c:218-234 | the exact test gives the same answer whether the ray goes to the right or to the left |
| `Geometry.IsInIntersectionCenter` | v2x_mqtt/map/IntersectionMap.c:778-797 | true iff the first area with the configured id contains the point |
| `Geometry.CenterDecides` | v2x_mqtt/map/IntersectionMap.c:778-797 | the first area with the centre id decides whether a position is in the centre; an unknown or empty id makes no centre |
| `Geometry.GetLaneId` | v2x_mqtt/map/IntersectionMap.c:799-831 | the centre hides lanes; otherwise the first lane that contains the point, or none iff no lane does |
| `NtpTime.ReconstructIff` | v2x_mqtt/common/ntp_time.c:37-43 | for all times and clocks: reconstruction returns the event time iff it is less than 4096 ms old, or the clock is below 4096 and the subtraction wraps onto it |
| `NtpTime.ReconstructUnique` | v2x_mqtt/common/ntp_time.c:37-43 | the result is the one value of the last 4096 ms that agrees with the field |
| `NtpTime.TimestampRoundTrip` | v2x_mqtt/common/ntp_time.c:37-43 | masked, packed, decoded and reconstructed, an event time comes back |
| `Calendar.MonthsClosedForm` | v2x_mqtt/common/ntp_time.c:45-53 | the days before each month of each year equal a closed formula of the Gregorian calendar |
| `Calendar.SecondsOf` | v2x_mqtt/common/ntp_time.c:80-90 | the seconds of every date and time in closed form |
| `Calendar.GmtimeInverse` | v2x_mqtt/common/ntp_time.c:45-53 | every second breaks down into a moment that exists, by the closed formula for the length of its month, and converts back to itself |
| `Calendar.TimegmInverse` | v2x_mqtt/common/ntp_time.c:80-90 | every existing moment is found again from its second |
| `Calendar.ExistsIff` | v2x_mqtt/common/ntp_time.c:88-94 | for fields in range, converting to seconds and back gives the same moment iff it exists |
| `Scanf.PaddedIsDigits` | v2x_mqtt/common/ntp_time.c:56-64 | padding prints exactly the width iff the number fits it |
| `Scanf.PrintedAt` | v2x_mqtt/common/ntp_time.c:56-64 | where each field and each delimiter of a printed text stands |
| `Scanf.ScanIntLoose` | v2x_mqtt/common/ntp_time.c:68-79 | blanks and a sign before a number are accepted |
| `Scanf.ScanOfPrint` | v2x_mqtt/common/ntp_time.c:56-79 | scanning reads back all values that fit their widths |
| `NtpTime.FormatIff` | v2x_mqtt/common/ntp_time.c:45-66 | formatting succeeds iff the year is at most 9999 |
| `NtpTime.PrintedMoment` | v2x_mqtt/common/ntp_time.c:45-66 | every date and time from 2026 to 9999, counted in milliseconds in closed form, prints as its digits in the ISO 8601 places with the ISO separators |
| `NtpTime.EpochText` | v2x_mqtt/common/ntp_time.c:45-99 | time 0 prints as 2026-01-01T00:00:00.000Z and is read back |
| `NtpTime.ParseOfFormatted` | v2x_mqtt/common/ntp_time.c:45-99 | wherever formatting succeeds, parsing gives the same value back iff adding the base did not wrap 64 bits |
| `NtpTime.ParseOfShape` | v2x_mqtt/common/ntp_time.c:68-99 | strings of the printed shape are accepted iff their numbers denote a millisecond from 2026 on |
| `NtpTime.AcceptedHasCanonicalForm` | v2x_mqtt/common/ntp_time.c:45-99 | for every accepted string, blanks and signs included: its time prints, and the printed form is accepted as the same time |
| `NtpTime.FormatOfParsed` | v2x_mqtt/common/ntp_time.c:45-99 | on strings of the printed shape what is accepted as t is exactly what t prints as |

## Left out

- Device and network calls: opening and selecting, the retry loop of `ipc_frame_send`, all of the MQTT client, sleeping.
- What becomes of a message whose device is closed or mocked: the log holds the messages handed to the device layer.
- The mock receive mode, logging and the receive diagnostics counters.
- JSON encoding and decoding of vehicle records, a field-by-field copy over a library.
- Scanning the map file's text: elements arrive already split, with attributes as read (at most 31 characters).
- Reading areas, polygons and lanelets from the map file, and the centres of zones: zone centres are a map from zone id
  to a centre truncated to 16 bits.
- Records reach the other vehicle unchanged: their way through the broker is not modelled.
- Floating-point rounding: geometry is over real numbers, a division by exactly zero following IEEE 754.
- The sine and cosine test that a zone lies behind the vehicle: an arbitrary predicate of zone, position and heading.
- Mutexes and threads: locked sections are steps. Nothing is claimed about the table slot of a candidate between the copy
  of the table and the setting of the candidate.
- Signed 32-bit overflow in the squared distance is undefined in C. Claims about true distances are confined to where the
  arithmetic is defined; beyond, the selection functions follow two's-complement wrapping.
- How the traffic-light table is filled: its contents are an input of each tick. So is the own record read in it.
- `strtol` on numbers beyond the range of a C long: light names hold at most 15 characters.
- NULL-pointer checks: references in the model are never null.
- NtpTime.Parse: no claim that every malformed string is refused; `sscanf` tolerates blanks and signs and does not
  enforce the final letter. What is accepted is settled for all strings of the printed shape; for any other string only
  that its value prints and is read back.
- NtpTime.Format: what a failed call leaves in its output buffer is not modelled.
- OtherVehicles.OtherVehicleManager.CopyValid: a negative maximum, which copies nothing, is not modelled.
- CanWire.RunReadsBack: the clock readings of messages that carry the current time are arbitrary.
