# Verified models of the 1-Wire master, the message bus and the stream codec

This project models three parts of the firmware and proves what they are for.
`dafny verify dfyconfig.toml` checks everything.

## What is modelled

**1-Wire.** A bus is a set of devices, each a state machine that hears and drives bit slots
(`Slaves`, `OneWireBus`); a read slot is low as soon as one device pulls it low.
`OneWireMaster.OneWire` is the master with its search state in place.  Its `Search` is proved to be one
step of a specification on sets of ROM numbers (`Enumeration.SearchStep`), and the theory of walks in a
binary tree (`RomSearch`) turns runs of such steps into theorems: every device once and in order, then
nothing, over and over.  `Selection`, `TemperatureSensor` and `Polling` carry this through addressed
measurements and the main loop, up to what is reported about each device and how often each device is made
to measure.  `Gf2` is division of polynomials over GF(2) by a shift register;
`Crc8` and `Crc16` prove the two CRC-8 loops and the parity-trick CRC-16 equal to it, and derive which
errors they detect.  `Crc8Distance` and `Crc16Distance` compute the periods of the two generators, 127 and
32767 (the latter by squaring, in `Crc16Powers`): frames with right CRCs differ in at least four bits up to 15 and
4095 bytes, and no further.

**Message bus.** `BusRegistry` gives the meaning of every critical section on the registry, with
`std::remove_if` exactly as the code uses it: its result is dropped, so lists keep their length and their
last entry.  `MessageBus` is the bus and its clients as classes that change in place; each method is
proved against that meaning.  `BusProtocol` is the whole system as a state machine: every critical section
and every queue receive is one atomic step of one client's task, and a run is any sequence of steps.
While a task handles a message it may send new ones, which are passed on first.
`BusRuns`, `BusNames`, `BusGroups`, `BusDelivery`, `BusOrder` and `BusArrival` prove what holds in every run:
where messages are, who receives them, how often and in which order; `BusExamples` is a run in which the order
fails, and `RegistryRuns` adds disconnects.

**Stream codec.** `Codec` is the format: a grammar of types (fixed-width numbers, strings, structs, lists,
sets, maps), the encoding of a value, and the meaning of a read.  `OutputStreams` and `InputStreams` are
the array streams with their cursors and the recursive readers and writers, proved against it, down to the
character iterator that reads ahead by one.  `Containers` says what lists, sets and maps keep and what their
bytes are, `StreamRoundTrip` writes and reads one buffer, and `Messages` is the packet layer on top.

Numbers are taken as their bytes in memory; lengths and identifiers are 32 bits, low byte first, as on the
target.  The levels that a reset samples are an arbitrary sequence given with the wire.

## Where the code and its promises differ

- `search` treats a first byte of 0 as "not found".  `CompleteEnumeration` shows that the calls after a
  reset enumerate the bus exactly when no device has a zero family byte; `ZeroFamilyHidesAll` shows that a
  single such device hides all others from a plain search.  A target search still runs in order up to the
  greatest ROM (`TargetSearchContinues`).
- `target_search` sets the last discrepancy to 64, which is a real bit position.  `TargetFindsLeast` shows
  that the next search finds the least device of the family exactly when no device differs from it in the
  last bit alone; valid ROM CRCs exclude that.
- `disconnect` and `leave` remove nothing when the client is the oldest entry, and otherwise list the oldest
  entry once more.  `DisconnectInEveryInterleaving` and `LeaveInEveryInterleaving` give the exact condition
  in every reachable registry.
- A group message is therefore received as often as its snapshot lists a client (`DeliveredAsListed`), which
  is once exactly when the snapshot has no repetition (`ExactlyOnceIff`); and a snapshot has none exactly
  when no member other than the first has left the group before (`SentAfterMiddleLeave`).
- Two messages to a group can overtake each other once such a leave has happened between their sends.
  `MiddleLeaveBreaksDelivery` is a run with three clients and no full queue in which one client receives a
  message twice, and two clients first receive the same two messages in opposite orders.  Between such leaves
  the order holds in every run (`OrderBetweenLeaves`), and as long as there was none it is total
  (`TotalOrder`).
- A message that meets a queue with 32 messages is lost for good (`FullQueueLoses`), so delivery is about runs in
  which that does not happen.  There a member of a group receives every message sent while it is a member
  (`MemberReceives`), and a client every message sent to its address (`DirectDelivered`); a message to an address
  that nobody has when it is passed on reaches nobody (`DirectDecided`).
- A string length of 2^31 or more becomes a negative iterator count, so reading such a string fails even
  when the bytes are there; `Codec.Decode` has this case.

## Model

| member | source | states |
|---|---|---|
| Gf2.RegisterDivides | src/components/onewire/src/onewire.cpp:397-419 | the shift register divides: message times x^n plus register equals quotient times generator |
| Gf2.DivisionUnique | src/components/onewire/src/onewire.cpp:397-419 | quotient and remainder of the division are unique, so the register holds the remainder |
| Gf2.FeedLinear | src/components/onewire/src/onewire.cpp:401-419 | the register is linear: fed the XOR of two inputs from the XOR of two registers it holds the XOR of the results |
| Gf2.FeedInjective | src/components/onewire/src/onewire.cpp:410-415 | with a nonzero constant term different registers stay different under the same input |
| Gf2.FeedToZero | src/components/onewire/src/onewire.cpp:410-415 | up to n input bits bring the register to zero exactly when they equal its contents |
| Gf2.BurstDetected | src/components/onewire/src/onewire.cpp:401-419 | inputs of any length that differ only within n consecutive bits and leave the same register are equal |
| Gf2.FeedParity | src/components/onewire/src/onewire.cpp:401-419 | with taps of odd weight the parity of the register is the parity of what it was fed |
| Gf2.TwoOnesReturn | src/components/onewire/src/onewire.cpp:401-419 | an error in two bits is a multiple of the generator exactly when their distance brings the register with a single one back |
| Gf2.ReturnsAtDivisor | src/components/onewire/src/onewire.cpp:401-419 | if the register comes back after n steps and after fewer, it does so after a proper divisor of n |
| Gf2.OddErrorDetected | src/components/onewire/src/onewire.cpp:401-419 | inputs that leave the same register differ in an even number of bits |
| Crc8.Compute | src/components/onewire/src/onewire.cpp:401-419 | the bitwise loop leaves the remainder of the data, for every length |
| Crc8.ComputeByTable | src/components/onewire/src/onewire.cpp:375-395 | the nibble-table loop leaves the same remainder, for every length |
| Crc8.SameCrc | src/components/onewire/src/onewire.cpp:375-419 | the two versions, run on one array, return the same byte, the remainder of the data |
| Crc8.NibbleLookupFeeds | src/components/onewire/src/onewire.cpp:375-391 | the two entries a register selects, added, are that register after eight shift steps |
| Crc8.TableStep | src/components/onewire/src/onewire.cpp:388-392 | one table step is eight register steps on the byte |
| Crc8.IsRemainder | src/components/onewire/src/onewire.cpp:366-373 | a byte is the CRC exactly when message times x^8 plus that byte is a multiple of the generator |
| Crc8.ValidFrameDivides | src/components/onewire/src/TemperatureSensor.cpp:56-61 | a frame carries a right trailing CRC exactly when the whole frame leaves zero |
| Crc8.DetectsBursts | src/components/onewire/include/onewire.h:79-85 | two frames with right CRCs that differ only within eight consecutive bits are equal |
| Crc8.DetectsOddErrors | src/components/onewire/include/onewire.h:79-85 | two frames with right CRCs differ in an even number of bits |
| Crc8Distance.ReturnsAfterPeriod | src/components/onewire/src/onewire.cpp:410-415 | the register that holds a single one returns to it after 127 steps |
| Crc8Distance.NoEarlierReturn | src/components/onewire/src/onewire.cpp:410-415 | and after no smaller number of steps |
| Crc8Distance.DetectsTwoErrors | src/components/onewire/include/onewire.h:79-85 | two frames of at most 15 bytes with right CRCs never differ in exactly two bits |
| Crc8Distance.DistanceFour | src/components/onewire/src/TemperatureSensor.cpp:53-61 | two frames of at most 15 bytes with right CRCs, such as ROMs and scratchpads, are equal or differ in at least four bits |
| Crc8Distance.NoLongerThanFifteen | src/components/onewire/src/onewire.cpp:401-419 | 15 bytes is the exact bound: for every longer frame with a right CRC there is another one at distance two |
| Crc16.Compute | src/components/onewire/src/onewire.cpp:429-456 | for every input and start value, the remainder of reflected division by 0xA001 |
| Crc16.ParityTrick | src/components/onewire/src/onewire.cpp:443-452 | the parity test, the constant and the two shifted copies are exactly eight division steps |
| Crc16.NibbleParity | src/components/onewire/src/onewire.cpp:436-437 | the table holds the parity of each nibble |
| Crc16.Composes | src/components/onewire/src/onewire.cpp:429-456 | the CRC of a concatenation is the CRC of its second part started from the CRC of its first |
| Crc16.Check | src/components/onewire/src/onewire.cpp:423-427 | accepts exactly the two bytes of the complemented CRC, low byte first |
| Crc16.ValidFrameResidue | src/components/onewire/src/onewire.cpp:423-456 | a frame ends in its complemented CRC exactly when the whole frame leaves the constant 0xB001 |
| Crc16.DetectsBursts | src/components/onewire/src/onewire.cpp:423-456 | two accepted frames that differ only within sixteen consecutive bits are equal |
| Crc16.DetectsOddErrors | src/components/onewire/src/onewire.cpp:423-456 | two accepted frames differ in an even number of bits |
| Crc16Powers.SquareDoubles | src/components/onewire/src/onewire.cpp:443-452 | squaring a power of x modulo the generator, bit by bit from a table of even powers, doubles its exponent |
| Crc16Distance.ReturnsAfterPeriod | src/components/onewire/src/onewire.cpp:429-456 | the register that holds a single one returns to it after 32767 steps |
| Crc16Distance.NoEarlierReturn | src/components/onewire/src/onewire.cpp:429-456 | and after no smaller number of steps, by the prime factors 7, 31 and 151 |
| Crc16Distance.DetectsTwoErrors | src/components/onewire/src/onewire.cpp:423-456 | two accepted frames of at most 4095 bytes never differ in exactly two bits |
| Crc16Distance.DistanceFour | src/components/onewire/src/onewire.cpp:423-456 | two accepted frames of at most 4095 bytes are equal or differ in at least four bits |
| Crc16Distance.NoLongerThan4095 | src/components/onewire/src/onewire.cpp:423-456 | 4095 bytes is the exact bound: for every longer accepted frame there is another one at distance two |
| OneWireMaster.OneWire.constructor | src/components/onewire/include/onewire.h:106-117 | a new master has a cleared search state |
| OneWireMaster.OneWire.ResetSearch | src/components/onewire/src/onewire.cpp:206-216 | clears the whole search state |
| OneWireMaster.OneWire.TargetSearch | src/components/onewire/src/onewire.cpp:221-230 | the family byte followed by zeros, last discrepancy 64, not the last device |
| OneWireMaster.OneWire.WaitFor | src/components/onewire/src/onewire.cpp:41-67 | one wait of a reset: stops at the first sample of the level wanted or when the shared budget is spent, and counts samples and delays |
| OneWireMaster.OneWire.Reset | src/components/onewire/src/onewire.cpp:34-73 | ends on every sample sequence, after at most 69 samples and 1190 microseconds, and reports presence exactly when the samples within the budget show high, high, low, high; then the wire was held low for 500 microseconds, every device listens, and the time waited is exactly that of the samples and the filling delay |
| OneWireMaster.OneWire.AwaitPresence | src/components/onewire/src/onewire.cpp:55-68 | the three waits after the low pulse succeed exactly when the samples show a presence |
| OneWireMaster.PresencePattern | src/components/onewire/src/onewire.cpp:34-73 | on a wire that is low for i samples, high for j, low for k, then high, a presence is detected exactly if j is at least 2, k at least 1, and i + j + k less than 69 |
| OneWireMaster.NoPresence | src/components/onewire/src/onewire.cpp:34-73 | a wire that stays down once it has fallen, or never falls, shows no presence |
| OneWireMaster.OneWire.Write | src/components/onewire/src/onewire.cpp:132-142 | the devices hear the eight bits of the byte, least significant first |
| OneWireMaster.OneWire.Read | src/components/onewire/src/onewire.cpp:158-166 | the byte whose bits are eight read slots, least significant first |
| OneWireMaster.OneWire.Select | src/components/onewire/src/onewire.cpp:176-183 | the devices hear the match command and the 64 ROM bits in order |
| OneWireMaster.OneWire.PickDirection | src/components/onewire/src/onewire.cpp:293-313 | the direction rule and the bookkeeping of zeros taken at forks |
| OneWireMaster.OneWire.SetRomBit | src/components/onewire/src/onewire.cpp:315-320 | sets or clears exactly the current bit of the ROM buffer |
| OneWireMaster.OneWire.SearchTurn | src/components/onewire/src/onewire.cpp:285-323 | one turn: silent exactly when no device answers, else the walk is one bit longer and only its followers stay active |
| OneWireMaster.OneWire.SearchLoop | src/components/onewire/src/onewire.cpp:282-349 | completes exactly when a device answers, and then holds the ROM that the direction rule prescribes, and the last fork at which it took 0 |
| OneWireMaster.OneWire.Search | src/components/onewire/src/onewire.cpp:248-362 | what one call finds and the state it leaves are a step of the search specification, from any state; a call that finds a device leaves exactly that one selected, a failed call leaves the caller's buffer alone, a call after the last device does not touch the wire, and no call makes a device measure |
| SearchBus.SearchStarts | src/components/onewire/src/onewire.cpp:275-280 | the search command activates exactly the devices that answer it |
| SearchBus.ReadsTell | src/components/onewire/src/onewire.cpp:285-287 | the two reads tell whether all active devices have 1, and whether all have 0 |
| SearchBus.DirectionFilters | src/components/onewire/src/onewire.cpp:322-323 | writing a direction drops exactly the devices that differ |
| SearchBus.WalkGoesOn | src/components/onewire/src/onewire.cpp:284-335 | one turn of the loop keeps the invariant of the walk |
| SearchBus.WalkEnds | src/components/onewire/src/onewire.cpp:339-349 | after 64 bits the buffer holds a device reached by the rule, with its last zero |
| SearchBus.FoundIsSelected | src/components/onewire/src/onewire.cpp:284-335 | after 64 bits the device with the ROM that was written listens for a function command and all others are idle |
| RomSearch.ReachedUnique | src/components/onewire/src/onewire.cpp:293-313 | the direction rule determines one device |
| RomSearch.FreshWalkIsLeast | src/components/onewire/src/onewire.cpp:299-304 | with no last discrepancy the walk ends at the least ROM |
| RomSearch.GreatestHasNoZero | src/components/onewire/src/onewire.cpp:341-347 | a ROM took no 0 at a fork exactly when it is the greatest, so the last-device flag is right |
| RomSearch.WalkIsSuccessor | src/components/onewire/src/onewire.cpp:297-304 | a walk with the last discrepancy of a ROM ends at its immediate successor |
| Enumeration.SuccessStands | src/components/onewire/src/onewire.cpp:339-361 | after a successful call from any state: the ROM is a device, the last-device flag holds exactly for the greatest one, and the state stands after that ROM |
| Enumeration.NextIsSuccessor | src/components/onewire/src/onewire.cpp:264-361 | on every bus the call after a success returns the immediate successor, or nothing after the greatest |
| Enumeration.StepAdvances | src/components/onewire/src/onewire.cpp:248-362 | one call moves the state one place on in the cycle of sorted ROMs and one empty result |
| Enumeration.RunAscends | src/components/onewire/src/onewire.cpp:264-361 | from any ROM that was found, on every bus, the calls return the ROMs above it in order and come back empty after the greatest |
| Enumeration.RunCycles | src/components/onewire/src/onewire.cpp:206-362 | by induction over calls, every result of a run is the one its place in the cycle gives |
| Enumeration.CompleteEnumeration | src/components/onewire/src/onewire.cpp:206-362 | the calls after a reset return every ROM once, in order, then nothing, exactly when no device has a zero family byte |
| Enumeration.EveryRoundOnce | src/components/onewire/src/onewire.cpp:206-362 | any size-plus-one consecutive calls return each ROM exactly once and come back empty exactly once |
| Enumeration.Periodic | src/components/onewire/src/onewire.cpp:206-362 | the results repeat with period size plus one |
| Enumeration.FreshFindsLeast | src/components/onewire/src/onewire.cpp:352-361 | a fresh search succeeds exactly when all family bytes are nonzero, and then finds the least ROM |
| Enumeration.EmptyIff | src/components/onewire/src/onewire.cpp:264-361 | a call comes back empty exactly after the last device, without a presence, when nobody answers, or when the ROM reached begins with eight zero bits; otherwise it returns the ROM of a device that answered |
| Enumeration.EmptyStartsOver | src/components/onewire/src/onewire.cpp:264-358 | after a call that came back empty, for whatever reason and on whatever bus, the next one with a presence finds the least ROM, unless a zero family byte hides it |
| Enumeration.ZeroFamilyHidesAll | src/components/onewire/src/onewire.cpp:352-357 | with one zero family byte on the bus no call after a reset ever succeeds |
| TargetSearch.TargetFindsLeast | src/components/onewire/src/onewire.cpp:221-230 | the search after a target search finds the least ROM of the family exactly when no device differs from it in bit 64 alone |
| TargetSearch.CrcExcludesSibling | src/components/onewire/include/onewire.h:79-85 | valid ROM CRCs rule out two devices that differ in the last bit alone |
| TargetSearch.TargetSearchFinds | src/components/onewire/src/onewire.cpp:218-230 | with valid CRCs the search finds the least ROM of a family that is present, and the state stands after it |
| TargetSearch.TargetSearchContinues | src/components/onewire/src/onewire.cpp:221-362 | on every bus the later calls continue the ordered enumeration from that ROM up to the greatest and come back empty; then they start over if no family byte is zero, and stay empty for ever if one is |
| TargetSearch.FirstByteNonzero | src/components/onewire/src/onewire.cpp:352-353 | the test on byte 0 is the test for a set bit among the first eight |
| Selection.SelectLeavesOnly | src/components/onewire/src/onewire.cpp:176-183 | after a reset a select leaves exactly the addressed device listening |
| Selection.CommandReachesOnly | src/components/onewire/src/TemperatureSensor.cpp:40-52 | a function command reaches that device alone |
| Selection.ReadsPad | src/components/onewire/src/TemperatureSensor.cpp:53-54 | the read slots that follow return its scratchpad in order |
| TemperatureSensor.Sensor.Command | src/components/onewire/src/TemperatureSensor.cpp:35-52 | reset, select and command: presence as sampled, and then only the addressed device obeys; it starts to measure if the command is to convert, and nothing else does |
| TemperatureSensor.Sensor.ReadScratchpad | src/components/onewire/src/TemperatureSensor.cpp:53-54 | the nine bytes read are the device's scratchpad |
| TemperatureSensor.Sensor.MeasureTemperature | src/components/onewire/src/TemperatureSensor.cpp:34-62 | makes the addressed device and no other measure, once, exactly when the first reset detects a presence; that conversion is over and the whole scratchpad sent if the second does; succeeds exactly when both do and the scratchpad has a right CRC, and then holds it |
| TemperatureSensor.PadValidBytes | src/components/onewire/src/TemperatureSensor.cpp:56-59 | a scratchpad is valid exactly when its last byte is the CRC-8 of the eight before it |
| TemperatureSensor.SilenceInvalid | src/components/onewire/src/TemperatureSensor.cpp:56-59 | the ones that an absent device leaves on the wire never pass the CRC |
| Polling.IsCrcValid | src/components/onewire/include/onewire.h:79-85 | holds exactly when the last ROM byte is the CRC of the first seven |
| Polling.CrcValidBytes | src/components/onewire/include/onewire.h:79-85 | a ROM is valid exactly when its last byte is the CRC-8 of the seven before it |
| Polling.DeviceReport | src/main/main.cpp:131-141 | what a turn reports about a device: a wrong CRC, or a measurement if its first byte is 0x10, 0x22 or 0x28, its resets detect a presence and its scratchpad is right, or a bad sensor |
| Polling.Turn | src/main/main.cpp:112-158 | one turn moves the search state by one call even though a measurement runs on the same master, and resets it when nothing was found; its outcome is determined by the result, the devices and whether its resets detected a presence; it makes exactly the sensor that it found measure, if that answers the reset |
| Polling.Poll | src/main/main.cpp:112-158 | any number of turns of the loop is a polling run from the state it started in, with or without presence, with the conversions that it started |
| Polling.FairPolling | src/main/main.cpp:112-158 | as long as the resets that are made detect a presence, any size-plus-one consecutive turns are about each device exactly once and report the end exactly once |
| Polling.PollingPeriodic | src/main/main.cpp:112-158 | under the same condition the outcomes of the loop repeat with period size plus one |
| Polling.EveryDeviceOnce | src/main/main.cpp:112-158 | from a fresh search with nonzero family bytes, as long as resets detect a presence, in any size-plus-one consecutive turns there is exactly one about each device, with the outcome that its bytes decide, and the device starts to measure once in them if it is a sensor with a right ROM CRC and otherwise not at all |
| Polling.SoundSensorsMeasured | src/main/main.cpp:112-158 | in particular every device with first byte 0x10, 0x22 or 0x28 and right CRCs is made to measure once in every round, and reported once with its own scratchpad |
| BusRegistry.RemoveOne | src/components/bus/src/Bus.cpp:54-56 | removing one listed element without erasing leaves the list unchanged if it was last, and else repeats the last one |
| BusRegistry.RemoveKeepsShape | src/components/bus/src/Bus.cpp:54-56 | removal keeps the shape in which only the last element is ever repeated, and an element is gone exactly when it is not that one |
| BusRegistry.ConnectKeeps | src/components/bus/src/Bus.cpp:26-45 | connecting keeps addresses and queues one to one and registers the client under the address returned |
| BusRegistry.DisconnectKeeps | src/components/bus/src/Bus.cpp:47-58 | so does disconnecting |
| BusRegistry.DisconnectForgets | src/components/bus/src/Bus.cpp:47-58 | in any registry in which only the oldest entry may be repeated, a disconnected address stops resolving exactly when the client is not the oldest one; then the oldest entry is listed once more, else nothing changes |
| BusRegistry.NameGroupKeeps | src/components/bus/src/Bus.cpp:90-104 | the first section of a named join keeps group names and addresses distinct and in range |
| BusRegistry.NameGroupFinds | src/components/bus/src/Bus.cpp:90-104 | it leaves the named group in the registry and every other group as it was |
| BusRegistry.JoinGroupKeeps | src/components/bus/src/Bus.cpp:60-84 | the second section finds an existing group, adds the client in front unless it is there, and changes no other group |
| BusRegistry.LeaveGroupKeeps | src/components/bus/src/Bus.cpp:109-125 | the second section of a leave passes one group's members through the removal and changes nothing else |
| BusRegistry.LeaveForgets | src/components/bus/src/Bus.cpp:109-125 | in any group in which only the first member may be repeated, a leave ends a membership exactly when it is not the first one; then the first is listed once more, else nothing changes |
| RegistryRuns.EveryInterleaving | src/components/bus/src/Bus.cpp:26-125 | after any interleaving of connect, disconnect, join and leave the registry is consistent, only oldest entries are repeated, and the second section of a join finds its group |
| RegistryRuns.DisconnectInEveryInterleaving | src/components/bus/src/Bus.cpp:47-58 | after any interleaving, and for any client entry, a disconnect makes the address unreachable exactly when the client is not the oldest one |
| RegistryRuns.LeaveInEveryInterleaving | src/components/bus/src/Bus.cpp:109-125 | after any interleaving, and for any member, a leave ends the membership exactly when it is not the first one |
| RegistryRuns.OldestIsRepeated | src/components/bus/src/Bus.cpp:54-56 | connecting two clients and disconnecting the younger one repeats the entry of the older one |
| MessageBus.Bus.Connect | src/components/bus/src/Bus.cpp:26-45 | fails without a queue; else the registry and the client's address become those of the registry model |
| MessageBus.Bus.Disconnect | src/components/bus/src/Bus.cpp:47-58 | the same for disconnecting, with the removal as the code uses it |
| MessageBus.Bus.JoinAddress | src/components/bus/src/Bus.cpp:60-84 | joins exactly as the model does, or refuses |
| MessageBus.Bus.Join | src/components/bus/src/Bus.cpp:86-107 | both sections of a named join; succeeds exactly for a named group and a connected client |
| MessageBus.Bus.LeaveAddress | src/components/bus/src/Bus.cpp:109-125 | leaves exactly as the model does |
| MessageBus.Bus.Leave | src/components/bus/src/Bus.cpp:127-147 | both sections of a named leave |
| MessageBus.Bus.ResolveName | src/components/bus/src/Bus.cpp:179-194 | the address of the group with that name, and 0 exactly when there is none |
| MessageBus.BusClient.Initialize | src/components/bus/src/Bus.cpp:210-218 | makes and connects a queue once; without a queue nothing changes |
| MessageBus.BusClient.Send | src/components/bus/src/Bus.cpp:232-240 | a new message goes into the queue that its snapshot routes it to, unless that is full, and into no other |
| MessageBus.BusClient.TryReceive | src/components/bus/src/Bus.cpp:242-253 | takes the head of the queue and sends it on, as one effect on all queues |
| MessageBus.BusClient.SendToNextClient | src/components/bus/src/Bus.cpp:255-275 | drops entries from the back until one resolves, fills that queue unless it is full, touches no other queue, and strictly shortens the list |
| MessageBus.BusClient.DrainOne | src/components/bus/src/Bus.cpp:200-204 | one round of the drain: the exact effect on all queues, and a smaller measure of one per waiting message and one per destination left |
| MessageBus.DrainedSendsAll | src/components/bus/src/Bus.cpp:196-208 | after any number of drain steps every message that waited has been sent on or waits still, and the other queues have gained only such messages |
| MessageBus.BusClient.Destroy | src/components/bus/src/Bus.cpp:196-208 | the destructor disconnects and its drain ends even if messages come back into its own queue; what becomes of all queues and lists is exactly a number of drain steps up to the empty queue; every waiting message was sent on once or more, and other queues only grew by those messages |
| BusRuns.ReconnectRecovers | src/components/bus/src/Bus.cpp:33-39 | a connected client that connects again gets its address back and nothing changes |
| BusRuns.JoinAddKeeps | src/components/bus/src/Bus.cpp:60-84 | in the running system the second section never meets a missing group, and adds the client's own address or nothing |
| BusNames.JoinByName | src/components/bus/src/Bus.cpp:60-107 | in every run, the two sections of a named join put the client in front of the group with that name, made if there was none, unless it is a member, and change no other group |
| BusNames.LeaveByName | src/components/bus/src/Bus.cpp:109-147 | in every run, the two sections of a named leave take the client out of the group with that name unless it is the first member, list that one once more, and change no other group |
| BusNames.NothingToLeave | src/components/bus/src/Bus.cpp:127-147 | leaving a name that no group has changes nothing |
| BusRuns.ForwardEffect | src/components/bus/src/Bus.cpp:255-275 | the whole effect of a forward: one entry off the list, the message into the queue of that entry's owner if there is room, nothing else |
| BusProtocol.RouteFindsLast | src/components/bus/src/Bus.cpp:262-270 | a message goes to the last entry of its list that resolves, and the entries after that are dropped; if none resolves the list is used up |
| BusRuns.EveryRun | src/components/bus/src/Bus.cpp:26-275 | every step of every client keeps the invariant of registry, ownership and routes |
| BusRuns.RegistryInEveryRun | src/components/bus/src/Bus.cpp:26-125 | in every run entries are one to one, groups distinct, members connected, and a pending join finds its group |
| BusRuns.OneOwner | src/components/bus/src/Bus.cpp:232-275 | in every run a message is in at most one queue position or with at most one task |
| BusRuns.HopBound | src/components/bus/src/Bus.cpp:232-275 | in every run the receivers of a message so far are the last entries of its snapshot read backwards, and the queue it is in belongs to the next one |
| BusRuns.ForwardShrinks | src/components/bus/src/Bus.cpp:255-275 | in every run a forward takes exactly the last entry off the list of its message and changes no other message |
| BusGroups.GroupsGrow | src/components/bus/src/Bus.cpp:60-107 | a step changes a group by at most one new member in front, unless a member other than the first completes a leave |
| BusGroups.NoLeaveNoMiddle | src/components/bus/src/Bus.cpp:109-125 | a run in which nobody leaves has no leave of a middle member |
| BusGroups.MiddleLeaveDoubles | src/components/bus/src/Bus.cpp:109-125 | a leave by any other member takes it out and lists the first member once more |
| BusGroups.DistinctMembers | src/components/bus/src/Bus.cpp:60-125 | in every run, a group lists a member twice exactly when a member other than the first has left it |
| BusGroups.SnapshotsStay | src/components/bus/src/Bus.cpp:10-24 | no step changes the sender, target or snapshot of a message |
| BusGroups.GroupInEveryRun | src/components/bus/src/Bus.cpp:60-164 | in runs in which no member other than the first leaves a group, its members are distinct and every snapshot stays the older part of it |
| BusGroups.SentAfterMiddleLeave | src/components/bus/src/Bus.cpp:149-164 | in every run, a message sent now takes a snapshot without repetition exactly when no such leave of its group has happened |
| BusDelivery.ForwardArrives | src/components/bus/src/Bus.cpp:255-275 | with room, a forwarded message whose snapshot names connected clients is in a queue again or has been received by all |
| BusDelivery.StepLosesNone | src/components/bus/src/Bus.cpp:232-275 | with room, no step of any client loses such a message, whether to a group or to one client |
| BusDelivery.NeverFullLosesNone | src/components/bus/src/Bus.cpp:242-275 | in runs without full queues every message to a group is in flight or has been received to the end of its snapshot |
| BusDelivery.DeliveredAsListed | src/components/bus/src/Bus.cpp:232-275 | without full queues, leaves included, a group message no longer in flight was received in join order by every client exactly as often as its snapshot lists it |
| BusDelivery.ExactlyOnceIff | src/components/bus/src/Bus.cpp:232-275 | without full queues it was received exactly once by each client of its snapshot exactly when the snapshot lists none twice |
| BusDelivery.ExactlyOnce | src/components/bus/src/Bus.cpp:60-84 | without full queues and without a leave of its group by a member other than the first, a group message no longer in flight was received in join order, exactly once by each client of its snapshot, and by no one else; the snapshot is the group without later joiners |
| BusArrival.SendStarts | src/components/bus/src/Bus.cpp:232-240 | a new message names its sender and its target, carries the snapshot of that moment, and is in flight, in the hands of its sender |
| BusArrival.SendSends | src/components/bus/src/Bus.cpp:232-240 | a client that has no message to pass on can send to any valid address, and this makes a message |
| BusArrival.DirectDelivered | src/components/bus/src/Bus.cpp:149-152 | without full queues, a message sent to the address of a client that is connected at that moment is in flight or has been received exactly once, by that client |
| BusArrival.DirectDecided | src/components/bus/src/Bus.cpp:255-275 | a message to one client reaches the client that its address resolves to when it is passed on, and nobody ever if there is none |
| BusArrival.GoneForEver | src/components/bus/src/Bus.cpp:242-275 | in every run, a message that is in no queue and with no task never comes back and is never received again |
| BusArrival.QueuesBounded | src/components/bus/include/Bus.h:137 | in every run no queue holds more than 32 messages |
| BusArrival.FullQueueLoses | src/components/bus/src/Bus.cpp:270-273 | a forward to a queue with fewer than 32 messages adds the message and changes no other queue; with 32 the message is lost, and nobody receives it any more |
| BusArrival.NoLeaveNeverLeaves | src/components/bus/src/Bus.cpp:109-125 | a client that completes no leave never leaves any group |
| BusArrival.NoLeaveSince | src/components/bus/src/Bus.cpp:109-125 | steps in which nobody completes a leave contain no leave of a middle member |
| BusArrival.MemberReceives | src/components/bus/src/Bus.cpp:60-164 | without full queues, a message to a group reaches every client that completed a join before the send and no leave in between, at least once, and exactly once if no member other than the first has left before |
| BusArrival.OnlyMembersReceive | src/components/bus/src/Bus.cpp:60-164 | in every run only clients that completed a join of a group before the send receive a message to it |
| BusOrder.OrderInEveryRun | src/components/bus/src/Bus.cpp:232-275 | in every run, leaves and full queues included, any two messages of which one snapshot is the older part of the other keep one order at all their receipts, and in all queues on the way |
| BusOrder.SameOrderAtEveryHop | src/components/bus/src/Bus.cpp:232-275 | which of two such messages came first is the same at every hop that both reached |
| BusOrder.FirstReceiptsAgree | src/components/bus/src/Bus.cpp:242-275 | any two clients that received two such messages first received them in the same order, even if the snapshots repeat clients |
| BusOrder.OrderBetweenLeaves | src/components/bus/src/Bus.cpp:149-275 | in every run, two messages sent to a group with no leave of a middle member between their sends are first received in the same order by any two clients |
| BusExamples.MiddleLeaveBreaksDelivery | src/components/bus/src/Bus.cpp:109-125 | a run with three clients and room in all queues in which, after a leave of a middle member, one client receives a message twice and two clients first receive two messages in opposite orders |
| BusOrder.ReceivedOnce | src/components/bus/src/Bus.cpp:242-275 | as long as no member other than the first has left the group, a client receives a message to it at most once |
| BusOrder.TotalOrder | src/components/bus/src/Bus.cpp:149-275 | then any two messages to the group that two clients both received were received by both in the same order, with full queues, late joins and leaves of other groups allowed |
| BusOrder.TotalOrderWithoutLeaves | src/components/bus/src/Bus.cpp:149-275 | the same for all groups in runs in which nobody leaves |
| Codec.U32Inverse | src/components/common/include/OutputStream.h:34-37 | a 32-bit length survives being written and read |
| Codec.Complete | src/components/common/include/InputStream.h:37-225 | any written form of a type, followed by any tail, is read up to the tail, to its normal form |
| Codec.Sound | src/components/common/include/InputStream.h:37-225 | what a read consumes is a written form of the type and its result is the normal form of that |
| Codec.ReadsWrittenForms | src/components/common/include/InputStream.h:37-225 | a read succeeds exactly on written forms |
| Codec.RoundTrip | src/components/common/include/OutputStream.h:29-91 | every value that an object can hold is read back from its encoding and any tail, up to the tail |
| Codec.PlainReads | src/components/common/include/InputStream.h:37-60 | for numbers, strings, lists and structs a read succeeds exactly on the encoding of its result |
| Codec.ReadsAreProper | src/components/common/include/InputStream.h:97-115 | on any bytes a successful read returns sets without repeated elements and maps without repeated keys |
| Codec.UniquelyReadable | src/components/common/include/OutputStream.h:64-91 | no written form of a type is the front of another |
| Codec.FirstWins | src/components/common/include/InputStream.h:97-225 | of entries with the same key a map keeps the first, of equal elements a set keeps the first, and nothing else |
| Codec.KeysKept | src/components/common/include/InputStream.h:216-222 | a map keeps every key that was read, and a set every element |
| Containers.ListKeepsAll | src/components/common/include/InputStream.h:97-115 | a list keeps everything that is read, in order |
| Containers.SetKeepsFirst | src/components/common/include/InputStream.h:97-115 | a set keeps an element exactly when no earlier one is equal |
| Containers.MapKeepsFirst | src/components/common/include/InputStream.h:216-222 | a map keeps an entry exactly when no earlier one has an equal first field; the second field plays no part |
| Containers.MapKeepsAll | src/components/common/include/InputStream.h:216-222 | entries with pairwise different first fields are all kept, in order |
| Containers.MapValues | src/components/common/include/InputStream.h:205-225 | what a map can hold: entries of its type with pairwise different first fields |
| Containers.SetValues | src/components/common/include/InputStream.h:97-115 | what a set can hold: pairwise different elements of its type |
| Codec.SameTransitive | src/components/common/include/InputStream.h:97-225 | equality of elements and keys, with sets and maps equal in any order, is transitive |
| Codec.SameSymmetric | src/components/common/include/InputStream.h:97-225 | and it is symmetric |
| Codec.SetOrderIgnored | src/components/common/include/InputStream.h:97-115 | sets that list the same elements in different orders are equal |
| Containers.PlainSame | src/components/common/include/InputStream.h:97-225 | numbers, strings, structs and lists are equal only when they are identical |
| Containers.SameItems | src/components/common/include/InputStream.h:97-225 | sets and maps of such items are equal exactly when they have the same items |
| Containers.MapBytes | src/components/common/include/InputStream.h:205-225 | the bytes of a map: 0 before each key and value, 1 at the end; of two entries with one key the first stays |
| Containers.ListBytes | src/components/common/include/InputStream.h:97-115 | the bytes of a list |
| Containers.SetBytes | src/components/common/include/InputStream.h:97-115 | the bytes of a set, in which one of two equal elements stays |
| Containers.StringBytes | src/components/common/include/OutputStream.h:34-37 | a string has its length before it, low byte first |
| Containers.StringRead | src/components/common/include/InputStream.h:45-55 | a string is read exactly when all its bytes are there and its length is less than 2147483648, and then is those bytes |
| OutputStreams.ArrayOutputStream.WriteBytes | src/components/common/src/OutputStream.cpp:11-16 | appends as much of the data as fits, returns that much, and leaves the rest of the buffer alone |
| OutputStreams.ArrayOutputStream.WriteNum | src/components/common/include/OutputStream.h:29-32 | succeeds exactly when the value fits, and else fills the buffer with its front |
| OutputStreams.ArrayOutputStream.WriteStr | src/components/common/include/OutputStream.h:34-37 | the same for a length and its characters |
| OutputStreams.ArrayOutputStream.WriteListLike | src/components/common/include/OutputStream.h:65-77 | the same for marked items and the end marker |
| OutputStreams.ArrayOutputStream.WriteMapLike | src/components/common/include/OutputStream.h:79-91 | the same for marked keys and values |
| OutputStreams.ArrayOutputStream.Write | src/components/common/include/OutputStream.h:29-91 | any nested write succeeds exactly when the whole encoding fits; else the buffer is full and holds the longest front that fits |
| InputStreams.ArrayInputStream.ReadBytes | src/components/common/src/InputStream.cpp:11-16 | takes as many bytes as there are, up to the number asked for |
| InputStreams.ArrayInputStream.ReadNum | src/components/common/include/InputStream.h:37-43 | succeeds exactly when enough bytes are left, and else moves nothing |
| InputStreams.CharIterator.constructor | src/components/common/include/InputStream.h:131-135 | starts by reading one item ahead, or at the end |
| InputStreams.CharIterator.Next | src/components/common/include/InputStream.h:137-151 | reads the next item, or turns into the end iterator when the stream or the count is used up |
| InputStreams.StaysAhead | src/components/common/include/InputStream.h:131-184 | the iterator always holds the next character and has delivered those before it |
| InputStreams.ArrayInputStream.ReadStr | src/components/common/include/InputStream.h:45-55 | succeeds exactly on the encoding of a string and stops after it |
| InputStreams.ArrayInputStream.ReadListLike | src/components/common/include/InputStream.h:97-203 | the loop of a list and of a set reads what the format says |
| InputStreams.ArrayInputStream.ReadMapLike | src/components/common/include/InputStream.h:205-225 | the loop of a map reads what the format says, key by key |
| InputStreams.ArrayInputStream.Read | src/components/common/include/InputStream.h:37-225 | every read ends on any bytes with its cursor inside the buffer, and succeeds exactly when the bytes decode, with that value and that cursor |
| StreamRoundTrip.WriteThenRead | src/components/common/include/OutputStream.h:29-91 | a value written with the output stream and read with the input stream from the same buffer comes back exactly when it fits, whatever follows it, and the reader stops where the writer did |
| Messages.Create | src/components/netio/include/Messages.h:48-54 | the size of the packet if it fits and 0 if not; the buffer starts with as much of it as fits |
| Messages.PacketFits | src/components/netio/include/Messages.h:14-46 | packets are 8 and 16 bytes and fit the standard buffer |
| Messages.DiscoveryBytes | src/components/netio/include/Messages.h:19-32 | the eight bytes of a discovery: 0x045f0f63 and the device, low byte first |
| Messages.TemperatureBytes | src/components/netio/include/Messages.h:34-46 | the sixteen bytes of a temperature: 0x3eee0c83, the sensor in eight bytes, low byte first, and the value |
| Messages.PacketReadsBack | src/components/netio/include/Messages.h:19-54 | reading the identifier and then the message of that type gives the message back, from any tail |
| Messages.PacketsDiffer | src/components/netio/include/Messages.h:19-54 | different messages never give the same bytes, whatever follows them |

## Left out

- Pin callbacks, slot timing in microseconds and interrupt masking: the wire is bits, samples and requested
  delays.  Some failing exits of `reset` leave interrupts masked, and nothing is claimed about them.
- `skip`, `write_bytes`, `read_bytes` and `depower`: they add no state.
- OneWireMaster.OneWire.Write: does not model the power argument and the release of the pin after the byte.
- `LastFamilyDiscrepancy` is carried exactly, but nothing in the repository reads it.
- Devices that join, leave or fail during a search.
- A scratchpad that changes while it is read: it is a constant of the device.
- Temperature scaling in floats and `celsiusToFahrenheit`.
- BusProtocol.Final: runs of the protocol have no disconnect.  A stale registry entry can route a message to
  a deleted queue, and what happens then is outside the program; `RegistryRuns` covers the registry itself.
- MessageBus.BusClient.TryReceive: the handler `receive` has no effect on the bus here; in `BusProtocol` a
  task may take any other steps between receiving a message and passing it on.
- MessageBus.Bus.JoinAddress: an unknown group address would build a group from a null name, which has no
  defined behaviour; the named join never passes one, as `RegistryRuns.EveryInterleaving` shows.
- MessageBus.BusClient.Destroy: no other task runs while the queue is drained.
- Failure to allocate a message, wrap-around of the 32-bit address counters, and reuse of a queue
  handle that is still registered.
- Bus commands themselves and the visitor dispatch of `BusMessageHandler`; `messages::parse` is a stub.
- Reads of `std::vector` and `std::unique_ptr`, which have no writer, `ArrayInputStream::reset`
  and `ArrayOutputStream::flush`.
- What an object holds after a failed read.
- Floats as set elements or keys, whose comparison is not equality of bytes, and comparators of the user's
  own structs that identify different values.  Sets and maps are listed in the order of insertion; the
  iteration order of the container that was read is not modelled.
- Buffers of 2^32 bytes or more.
- `UdpSrv`, `Wifi`, `Events`, logging and storage.
