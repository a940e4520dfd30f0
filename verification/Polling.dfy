/**
  The polling loop of the firmware: search, check the ROM's CRC, measure, over and over on one master.
  */
module Polling {
  import opened Gf2
  import opened ByteStream
  import opened Options
  import opened RomSearch
  import opened Enumeration
  import opened TargetSearch
  import opened Slaves
  import opened OneWireBus
  import opened SearchBus
  import opened OneWireMaster
  import opened Selection
  import opened TemperatureSensor
  import Crc8

  /** How one turn of the loop ends. */
  datatype Outcome =
    | NoMoreAddresses
    | InvalidCrc(rom: Rom)
    | BadSensor(rom: Rom)
    | Measured(rom: Rom, pad: Bits)

  /** The families for which a sensor is created: DS18S20, DS18B20 and DS1822. */
  predicate IsSensorFamily(family: bv8) {
    family == 0x10 || family == 0x28 || family == 0x22
  }

  predicate IsSensor(rom: Rom) {
    rom[..8] == ByteBits(0x10) || rom[..8] == ByteBits(0x28) || rom[..8] == ByteBits(0x22)
  }

  /**
    What a turn reports about the search result it got; `detected` tells whether the resets of a measurement
    detected a presence.
    */
  ghost function Report(devices: set<Device>, result: Option<Rom>, detected: bool): Outcome
    requires ProperDevices(devices)
  {
    match result
    case None => NoMoreAddresses
    case Some(rom) =>
      if !CrcValid(rom) then InvalidCrc(rom)
      else if !IsSensor(rom) || !detected || !PadValid(PadOf(devices, rom)) then BadSensor(rom)
      else Measured(rom, PadOf(devices, rom))
  }

  /** The conversions that a turn starts: one of the device it found, if that is a sensor that answers a reset. */
  ghost function StartedBy(devices: set<Device>, line: nat -> bool, result: Option<Rom>, resets: seq<nat>)
    : multiset<Device>
  {
    if result.Some? && CrcValid(result.value) && IsSensor(result.value) && |resets| > 1 && Presence(line, resets[1])
    then Addressed(devices, result.value)
    else multiset{}
  }

  lemma FamilyDecides(bytes: seq<bv8>)
    requires |bytes| == 8
    ensures IsSensor(Stream(bytes)) <==> IsSensorFamily(bytes[0])
  {
    hide ByteBits, Stream;
    StreamConcat(bytes[..1], bytes[1..]);
    assert bytes == bytes[..1] + bytes[1..];
    StreamSnoc([], bytes[0]);
    StreamEmpty();
    assert bytes[..1] == [] + [bytes[0]];
    assert Stream(bytes)[..8] == ByteBits(bytes[0]);
    forall f | ByteBits(bytes[0]) == ByteBits(f)
      ensures bytes[0] == f
    {
      ByteBitsInjective(bytes[0], f);
    }
  }

  /** `RegisterNumber::isCrcValid` is the CRC condition on the ROM's bits. */
  method IsCrcValid(romData: array<bv8>) returns (valid: bool)
    requires romData.Length == 8
    ensures valid <==> CrcValid(Stream(romData[..]))
  {
    var crc := Crc8.Compute(romData, 7);
    valid := romData[7] == crc;
    LastRomByteDecides(romData[..], crc);
  }

  /** A ROM number has a right CRC when its last byte is the CRC-8 of the seven before it. */
  lemma CrcValidBytes(bytes: seq<bv8>)
    requires |bytes| == 8
    ensures CrcValid(Stream(bytes)) <==> ByteBits(bytes[7]) == Crc8.Remainder(bytes[..7])
  {
    assert bytes == bytes[..7] + [bytes[7]];
    StreamSnoc(bytes[..7], bytes[7]);
    hide Stream, ByteBits, Feed;
    assert Stream(bytes)[56..] == ByteBits(bytes[7]) && Stream(bytes)[..56] == Stream(bytes[..7]);
  }

  lemma LastRomByteDecides(bytes: seq<bv8>, crc: bv8)
    requires |bytes| == 8 && ByteBits(crc) == Crc8.Remainder(bytes[..7])
    ensures bytes[7] == crc <==> CrcValid(Stream(bytes))
  {
    hide *;
    CrcValidBytes(bytes);
    if ByteBits(crc) == ByteBits(bytes[7]) {
      ByteBitsInjective(crc, bytes[7]);
    }
  }

  /** A search is a call, and so is one that came back empty and is followed by a reset of the search. */
  lemma SearchIsCall(S: set<Rom>, presence: bool, st: SearchState, st': SearchState, result: Option<Rom>)
    requires SearchStep(S, presence, st, st', result)
    ensures Call(S, st.lastDevice || presence, st, st', result)
    ensures result == None ==> Call(S, st.lastDevice || presence, st, Cleared(Zeros(64)), None)
    ensures result.Some? ==> !st.lastDevice && presence
  {
    hide Reached, HasFamily, LastZero, FamilyDiscrepancy;
    assert SearchStep(S, st.lastDevice || presence, st, st', result);
  }

  /** All resets that started at these sample positions detected a presence. */
  ghost predicate Detected(line: nat -> bool, resets: seq<nat>) {
    forall p | p in resets :: Presence(line, p)
  }

  lemma DetectedConcat(line: nat -> bool, a: seq<nat>, b: seq<nat>)
    ensures Detected(line, a + b) <==> Detected(line, a) && Detected(line, b)
  {
    hide Presence;
    assert forall p :: p in a + b <==> p in a || p in b;
  }

  /**
    One turn of the loop.  The search state moves by one call, reset when the call came back empty, no
    matter what the measurement does on the same master; the outcome is the report on what was found; and at
    most the sensor that was found starts to measure.
    `resets` gives the sample positions at which the resets of this turn started, the one of the search,
    if it makes one, first.
    */
  method Turn(oneWire: OneWire) returns (outcome: Outcome, ghost result: Option<Rom>, ghost resets: seq<nat>)
    requires oneWire.wire.Valid() && oneWire.romNo.Length == 8
    requires ProperDevices(oneWire.wire.devices)
    modifies oneWire, oneWire.wire, oneWire.romNo
    ensures oneWire.wire.Valid()
    ensures !old(oneWire.lastDeviceFlag) ==> resets != [] && resets[0] == old(oneWire.wire.sampled)
    ensures Call(Answering(oneWire.wire.devices, true),
                 old(oneWire.lastDeviceFlag) || Presence(oneWire.wire.line, old(oneWire.wire.sampled)),
                 old(oneWire.State()), oneWire.State(), result)
    ensures outcome == Report(oneWire.wire.devices, result, Detected(oneWire.wire.line, resets))
    ensures result == None ==> oneWire.State() == Cleared(Zeros(64))
    ensures MakesResets(result, resets)
    ensures oneWire.wire.Started()
         == old(oneWire.wire.Started()) + StartedBy(oneWire.wire.devices, oneWire.wire.line, result, resets)
  {
    hide Stream, ByteBits, Answering, CrcValid, IsSensor, PadValid, PadOf, Presence, ProperDevices, SearchStep, Call,
      Wire.Started, Addressed;
    var regNum := new bv8[8];
    resets := if oneWire.lastDeviceFlag then [] else [oneWire.wire.sampled];
    var found := oneWire.Search(regNum);
    result := if found then Some(Stream(regNum[..])) else None;
    ghost var mid := oneWire.State();
    SearchIsCall(Answering(oneWire.wire.devices, true), Presence(oneWire.wire.line, old(oneWire.wire.sampled)),
                 old(oneWire.State()), mid, result);
    if !found {
      oneWire.ResetSearch();
      return NoMoreAddresses, result, resets;
    }
    var valid := IsCrcValid(regNum);
    if !valid {
      return InvalidCrc(RomOf(regNum)), result, resets;
    }
    FamilyDecides(regNum[..]);
    if !IsSensorFamily(regNum[0]) {
      return BadSensor(RomOf(regNum)), result, resets;
    }
    var sensor := new Sensor(oneWire, regNum);
    var measured;
    ghost var more;
    measured, more := sensor.MeasureTemperature();
    assert oneWire.State() == mid;
    DetectedConcat(oneWire.wire.line, resets, more);
    resets := resets + more;
    if !measured {
      return BadSensor(RomOf(regNum)), result, resets;
    }
    outcome := Measured(RomOf(regNum), Stream(sensor.data[..]));
  }

  function RomOf(bytes: array<bv8>): (rom: Rom)
    requires bytes.Length == 8
    reads bytes
    ensures rom == Stream(bytes[..])
  {
    Stream(bytes[..])
  }

  /** A turn that finds a sensor resets the wire again after the search. */
  predicate MakesResets(result: Option<Rom>, resets: seq<nat>) {
    result.Some? && CrcValid(result.value) && IsSensor(result.value) ==> |resets| > 1
  }

  /** The device that a turn was about. */
  function About(outcome: Outcome): Option<Rom> {
    match outcome
    case NoMoreAddresses => None
    case InvalidCrc(rom) => Some(rom)
    case BadSensor(rom) => Some(rom)
    case Measured(rom, _) => Some(rom)
  }

  /**
    A run of the loop: search calls on one state, each reported, with the sample positions of the resets
    that each turn made, and how often each device has started to measure by then.
    */
  ghost predicate IsPolling(devices: set<Device>, line: nat -> bool, states: seq<SearchState>,
                            results: seq<Option<Rom>>, outcomes: seq<Outcome>, resets: seq<seq<nat>>,
                            started: seq<multiset<Device>>)
    requires ProperDevices(devices)
  {
    && |states| == |started| == |outcomes| + 1 && |results| == |outcomes| == |resets|
    && forall k {:trigger outcomes[k]} | 0 <= k < |outcomes| ::
         IsTurn(devices, line, states[k], states[k + 1], results[k], outcomes[k], resets[k],
                started[k], started[k + 1])
  }

  ghost predicate IsTurn(devices: set<Device>, line: nat -> bool, st: SearchState, st': SearchState,
                         result: Option<Rom>, outcome: Outcome, resets: seq<nat>,
                         before: multiset<Device>, after: multiset<Device>)
    requires ProperDevices(devices)
  {
    && Call(Answering(devices, true), st.lastDevice || (resets != [] && Presence(line, resets[0])), st, st', result)
    && (st.lastDevice || resets != [])
    && outcome == Report(devices, result, Detected(line, resets))
    && MakesResets(result, resets)
    && after == before + StartedBy(devices, line, result, resets)
  }

  lemma OneMoreTurn(devices: set<Device>, line: nat -> bool, states: seq<SearchState>, results: seq<Option<Rom>>,
                    outcomes: seq<Outcome>, resets: seq<seq<nat>>, started: seq<multiset<Device>>,
                    st: SearchState, result: Option<Rom>, outcome: Outcome, more: seq<nat>, now: multiset<Device>)
    requires ProperDevices(devices) && IsPolling(devices, line, states, results, outcomes, resets, started)
    requires IsTurn(devices, line, states[|outcomes|], st, result, outcome, more, started[|outcomes|], now)
    ensures IsPolling(devices, line, states + [st], results + [result], outcomes + [outcome], resets + [more],
                      started + [now])
  {
    hide IsTurn, ProperDevices;
  }

  /** The endless loop, cut after any number of turns, is a polling run from the state it started in. */
  method Poll(oneWire: OneWire, turns: nat)
    returns (outcomes: seq<Outcome>, ghost states: seq<SearchState>, ghost results: seq<Option<Rom>>,
             ghost resets: seq<seq<nat>>, ghost started: seq<multiset<Device>>)
    requires oneWire.wire.Valid() && oneWire.romNo.Length == 8
    requires ProperDevices(oneWire.wire.devices)
    modifies oneWire, oneWire.wire, oneWire.romNo
    ensures oneWire.wire.Valid()
    ensures |outcomes| == turns
    ensures IsPolling(oneWire.wire.devices, oneWire.wire.line, states, results, outcomes, resets, started)
    ensures states[0] == old(oneWire.State()) && states[turns] == oneWire.State()
    ensures started[0] == old(oneWire.wire.Started()) && started[turns] == oneWire.wire.Started()
  {
    hide Call, Report, ProperDevices, Presence, Answering, Stream, Detected, Wire.Started, StartedBy, MakesResets;
    outcomes, results, states, resets, started := [], [], [oneWire.State()], [], [oneWire.wire.Started()];
    for i := 0 to turns
      invariant oneWire.wire.Valid()
      invariant |outcomes| == i
      invariant IsPolling(oneWire.wire.devices, oneWire.wire.line, states, results, outcomes, resets, started)
      invariant states[0] == old(oneWire.State()) && states[i] == oneWire.State()
      invariant started[0] == old(oneWire.wire.Started()) && started[i] == oneWire.wire.Started()
    {
      var outcome;
      ghost var result, positions;
      outcome, result, positions := Turn(oneWire);
      assert IsTurn(oneWire.wire.devices, oneWire.wire.line, states[i], oneWire.State(), result, outcome, positions,
                    started[i], oneWire.wire.Started());
      hide IsTurn, IsPolling;
      OneMoreTurn(oneWire.wire.devices, oneWire.wire.line, states, results, outcomes, resets, started,
                  oneWire.State(), result, outcome, positions, oneWire.wire.Started());
      outcomes, results, resets := outcomes + [outcome], results + [result], resets + [positions];
      states, started := states + [oneWire.State()], started + [oneWire.wire.Started()];
    }
  }

  /** When all resets of all turns detect a presence, the calls of a polling run are a run of searches. */
  lemma DetectedRun(devices: set<Device>, line: nat -> bool, states: seq<SearchState>, results: seq<Option<Rom>>,
                    outcomes: seq<Outcome>, resets: seq<seq<nat>>, started: seq<multiset<Device>>)
    requires ProperDevices(devices) && IsPolling(devices, line, states, results, outcomes, resets, started)
    requires forall k | 0 <= k < |resets| :: Detected(line, resets[k])
    ensures IsRun(Answering(devices, true), states, results) && |results| == |outcomes| == |states| - 1
    ensures forall k | 0 <= k < |results| ::
              outcomes[k] == Report(devices, results[k], true) && About(outcomes[k]) == results[k]
  {
    hide ProperDevices, Answering, Presence, CrcValid, IsSensor, PadValid, PadOf, SearchStep;
    forall k {:trigger results[k]} | 0 <= k < |results|
      ensures Call(Answering(devices, true), true, states[k], states[k + 1], results[k])
      ensures outcomes[k] == Report(devices, results[k], true) && About(outcomes[k]) == results[k]
    {
      assert IsTurn(devices, line, states[k], states[k + 1], results[k], outcomes[k], resets[k],
                    started[k], started[k + 1]);
      assert Detected(line, resets[k]);
      if resets[k] != [] {
        assert resets[k][0] in resets[k];
      }
    }
  }

  /**
    Fair polling: from a master that has just been constructed, and as long as every reset that is made
    detects a presence, any `|S| + 1` consecutive turns are about each device exactly once, with its
    scratchpad if it is a sound sensor, and report the end exactly once.
    */
  lemma FairPolling(devices: set<Device>, line: nat -> bool, states: seq<SearchState>, results: seq<Option<Rom>>,
                    outcomes: seq<Outcome>, resets: seq<seq<nat>>, started: seq<multiset<Device>>, from: nat,
                    want: Option<Rom>)
    returns (at: nat)
    requires ProperDevices(devices)
    requires IsPolling(devices, line, states, results, outcomes, resets, started)
    requires forall k | 0 <= k < |resets| :: Detected(line, resets[k])
    requires Answering(devices, true) != {} && AllHaveFamilies(Answering(devices, true))
    requires Fresh(states[0])
    requires from + |Answering(devices, true)| + 1 <= |outcomes|
    requires want.Some? ==> want.value in Answering(devices, true)
    ensures from <= at < from + |Answering(devices, true)| + 1
    ensures outcomes[at] == Report(devices, want, true) && About(outcomes[at]) == want
    ensures forall k | from <= k < from + |Answering(devices, true)| + 1 && About(outcomes[k]) == want :: k == at
  {
    hide *;
    DetectedRun(devices, line, states, results, outcomes, resets, started);
    FreshStands(Answering(devices, true), states[0]);
    at := EveryRoundOnce(Answering(devices, true), states, results, 0, from, want);
  }

  /** The outcomes repeat with period `|S| + 1`. */
  lemma PollingPeriodic(devices: set<Device>, line: nat -> bool, states: seq<SearchState>, results: seq<Option<Rom>>,
                        outcomes: seq<Outcome>, resets: seq<seq<nat>>, started: seq<multiset<Device>>, k: nat)
    requires ProperDevices(devices)
    requires IsPolling(devices, line, states, results, outcomes, resets, started)
    requires forall k | 0 <= k < |resets| :: Detected(line, resets[k])
    requires Answering(devices, true) != {} && AllHaveFamilies(Answering(devices, true))
    requires Fresh(states[0])
    requires k + |Answering(devices, true)| + 1 < |outcomes|
    ensures outcomes[k + |Answering(devices, true)| + 1] == outcomes[k]
  {
    hide *;
    DetectedRun(devices, line, states, results, outcomes, resets, started);
    FreshStands(Answering(devices, true), states[0]);
    Periodic(Answering(devices, true), states, results, 0, k);
  }

  /** The DS18S20, the DS18B20 and the DS1822 have family bytes 0x10, 0x28 and 0x22. */
  lemma SensorFamilies(rom: Rom)
    ensures IsSensor(rom) <==> rom[..8] == ByteBits(0x10) || rom[..8] == ByteBits(0x28) || rom[..8] == ByteBits(0x22)
  {
  }

  /** What a turn that found a device reports about it. */
  lemma DeviceReport(devices: set<Device>, d: Device, detected: bool)
    requires ProperDevices(devices) && d in devices
    ensures d.rom in Answering(devices, true)
    ensures var sensor := d.rom[..8] == ByteBits(0x10) || d.rom[..8] == ByteBits(0x28) || d.rom[..8] == ByteBits(0x22);
            Report(devices, Some(d.rom), detected)
            == if !CrcValid(d.rom) then InvalidCrc(d.rom)
               else if sensor && detected && PadValid(d.pad) then Measured(d.rom, d.pad)
               else BadSensor(d.rom)
  {
    SensorFamilies(d.rom);
    hide CrcValid, IsSensor, PadValid, ByteBits;
  }

  lemma AddressedOnce(devices: set<Device>, d: Device, rom: Rom)
    requires ProperDevices(devices) && d in devices
    ensures Addressed(devices, rom)[d] == if d.rom == rom then 1 else 0
  {
  }

  /** How often device `d` starts to measure in one turn whose resets all detect a presence. */
  lemma TurnStarts(devices: set<Device>, line: nat -> bool, st: SearchState, st': SearchState, result: Option<Rom>,
                   outcome: Outcome, resets: seq<nat>, before: multiset<Device>, after: multiset<Device>, d: Device)
    requires ProperDevices(devices) && d in devices && Detected(line, resets)
    requires IsTurn(devices, line, st, st', result, outcome, resets, before, after)
    ensures after[d] == before[d] + if About(outcome) == Some(d.rom) && CrcValid(d.rom) && IsSensor(d.rom) then 1 else 0
  {
    hide CrcValid, IsSensor, PadValid, PadOf, Presence, Call, Answering, Addressed, ProperDevices;
    if result.Some? {
      AddressedOnce(devices, d, result.value);
    }
    if |resets| > 1 {
      assert resets[1] in resets;
    }
  }

  /** From turn `from` to turn `to` device `d` starts to measure once, in the one turn that is about it. */
  lemma {:induction false} StartsOnce(devices: set<Device>, line: nat -> bool, states: seq<SearchState>,
                                      results: seq<Option<Rom>>, outcomes: seq<Outcome>, resets: seq<seq<nat>>,
                                      started: seq<multiset<Device>>, from: nat, to: nat, at: nat, d: Device)
    requires ProperDevices(devices) && d in devices
    requires IsPolling(devices, line, states, results, outcomes, resets, started)
    requires forall k | 0 <= k < |resets| :: Detected(line, resets[k])
    requires from <= to <= |outcomes|
    requires forall k | from <= k < to && About(outcomes[k]) == Some(d.rom) :: k == at
    requires from <= at < to ==> About(outcomes[at]) == Some(d.rom)
    ensures started[to][d] == started[from][d]
                              + if from <= at < to && CrcValid(d.rom) && IsSensor(d.rom) then 1 else 0
  {
    hide ProperDevices, Detected, IsTurn, StartedBy, CrcValid, IsSensor, About;
    if from < to {
      var k := to - 1;
      StartsOnce(devices, line, states, results, outcomes, resets, started, from, k, at, d);
      assert IsTurn(devices, line, states[k], states[k + 1], results[k], outcomes[k], resets[k],
                    started[k], started[k + 1]);
      TurnStarts(devices, line, states[k], states[k + 1], results[k], outcomes[k], resets[k],
                 started[k], started[k + 1], d);
    }
  }

  /** Turns `from` to `to` make up one round of a run whose resets all detect a presence. */
  ghost predicate FairRound(devices: set<Device>, line: nat -> bool, states: seq<SearchState>,
                            results: seq<Option<Rom>>, outcomes: seq<Outcome>, resets: seq<seq<nat>>,
                            started: seq<multiset<Device>>, from: nat, to: nat)
    requires ProperDevices(devices)
  {
    && IsPolling(devices, line, states, results, outcomes, resets, started)
    && (forall k | 0 <= k < |resets| :: Detected(line, resets[k]))
    && AllHaveFamilies(Answering(devices, true)) && Fresh(states[0])
    && to == from + |Answering(devices, true)| + 1 <= |outcomes|
  }

  lemma RoundLength(devices: set<Device>, line: nat -> bool, states: seq<SearchState>,
                    results: seq<Option<Rom>>, outcomes: seq<Outcome>, resets: seq<seq<nat>>,
                    started: seq<multiset<Device>>, from: nat, to: nat)
    requires ProperDevices(devices)
    requires FairRound(devices, line, states, results, outcomes, resets, started, from, to)
    ensures from < to <= |outcomes| == |started| - 1
  {
  }

  lemma FoundInRound(devices: set<Device>, line: nat -> bool, states: seq<SearchState>,
                     results: seq<Option<Rom>>, outcomes: seq<Outcome>, resets: seq<seq<nat>>,
                     started: seq<multiset<Device>>, from: nat, to: nat, d: Device)
    returns (at: nat)
    requires ProperDevices(devices) && d in devices
    requires FairRound(devices, line, states, results, outcomes, resets, started, from, to)
    ensures from <= at < to <= |outcomes|
    ensures outcomes[at] == Report(devices, Some(d.rom), true) && About(outcomes[at]) == Some(d.rom)
    ensures forall k | from <= k < to && About(outcomes[k]) == Some(d.rom) :: k == at
  {
    TakesPart(devices, d);
    hide ProperDevices, IsPolling, Detected, AllHaveFamilies, Answering, Report;
    at := FairPolling(devices, line, states, results, outcomes, resets, started, from, Some(d.rom));
  }

  lemma StartsInRound(devices: set<Device>, line: nat -> bool, states: seq<SearchState>,
                      results: seq<Option<Rom>>, outcomes: seq<Outcome>, resets: seq<seq<nat>>,
                      started: seq<multiset<Device>>, from: nat, to: nat, at: nat, d: Device)
    requires ProperDevices(devices) && d in devices
    requires FairRound(devices, line, states, results, outcomes, resets, started, from, to)
    requires from <= at < to <= |outcomes| && About(outcomes[at]) == Some(d.rom)
    requires forall k | from <= k < to && About(outcomes[k]) == Some(d.rom) :: k == at
    ensures |started| == |outcomes| + 1
    ensures started[to][d] == started[from][d] + if CrcValid(d.rom) && IsSensor(d.rom) then 1 else 0
  {
    RoundLength(devices, line, states, results, outcomes, resets, started, from, to);
    hide ProperDevices, IsPolling, Detected, AllHaveFamilies, Answering, About, CrcValid, IsSensor;
    StartsOnce(devices, line, states, results, outcomes, resets, started, from, to, at, d);
  }

  lemma TakesPart(devices: set<Device>, d: Device)
    requires d in devices
    ensures d.rom in Answering(devices, true)
  {
  }

  /**
    Under the same conditions, in any round of `|S| + 1` consecutive turns there is one about each device on the
    bus: it is measured, or reported for a wrong CRC, or for being no sensor or a bad one.  It starts to measure
    once in the round if it is a sensor with a right number, and otherwise not at all.
    */
  lemma EveryDeviceOnce(devices: set<Device>, line: nat -> bool, states: seq<SearchState>,
                        results: seq<Option<Rom>>, outcomes: seq<Outcome>, resets: seq<seq<nat>>,
                        started: seq<multiset<Device>>, from: nat, to: nat, d: Device)
    returns (at: nat)
    requires ProperDevices(devices) && d in devices
    requires FairRound(devices, line, states, results, outcomes, resets, started, from, to)
    ensures from <= at < to <= |outcomes| == |started| - 1
    ensures forall k | from <= k < to && About(outcomes[k]) == Some(d.rom) :: k == at
    ensures var sensor := d.rom[..8] == ByteBits(0x10) || d.rom[..8] == ByteBits(0x28) || d.rom[..8] == ByteBits(0x22);
            && outcomes[at] == (if !CrcValid(d.rom) then InvalidCrc(d.rom)
                                else if sensor && PadValid(d.pad) then Measured(d.rom, d.pad)
                                else BadSensor(d.rom))
            && started[to][d] == started[from][d] + if CrcValid(d.rom) && sensor then 1 else 0
  {
    hide *;
    at := FoundInRound(devices, line, states, results, outcomes, resets, started, from, to, d);
    StartsInRound(devices, line, states, results, outcomes, resets, started, from, to, at, d);
    DeviceReport(devices, d, true);
    SensorFamilies(d.rom);
  }

  /**
    In particular, every DS18S20, DS18B20 and DS1822 whose number and scratchpad carry right CRCs is made to
    measure once in the round, and is reported with its own scratchpad.
    */
  lemma SoundSensorsMeasured(devices: set<Device>, line: nat -> bool, states: seq<SearchState>,
                             results: seq<Option<Rom>>, outcomes: seq<Outcome>, resets: seq<seq<nat>>,
                             started: seq<multiset<Device>>, from: nat, to: nat, d: Device)
    returns (at: nat)
    requires ProperDevices(devices) && d in devices && CrcValid(d.rom) && PadValid(d.pad)
    requires d.rom[..8] == ByteBits(0x10) || d.rom[..8] == ByteBits(0x28) || d.rom[..8] == ByteBits(0x22)
    requires FairRound(devices, line, states, results, outcomes, resets, started, from, to)
    ensures from <= at < to <= |outcomes| == |started| - 1
    ensures outcomes[at] == Measured(d.rom, d.pad)
    ensures forall k | from <= k < to && About(outcomes[k]) == Some(d.rom) :: k == at
    ensures started[to][d] == started[from][d] + 1
  {
    hide *;
    at := EveryDeviceOnce(devices, line, states, results, outcomes, resets, started, from, to, d);
  }
}
