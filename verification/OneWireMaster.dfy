/**
  The 1-Wire master: reset, bit and byte slots, device selection, and the resumable device search.
  */
module OneWireMaster {
  import opened Gf2
  import opened ByteStream
  import opened Options
  import opened RomSearch
  import opened Enumeration
  import opened Slaves
  import opened TargetSearch
  import opened OneWireBus
  import opened SearchBus

  /** Within the budget of a reset, the wire shows high, high again, then low, then high. */
  ghost predicate Presence(line: nat -> bool, from: nat) {
    exists a, b, c, d :: Pulse(line, from, a, b, c, d)
  }

  predicate Pulse(line: nat -> bool, from: nat, a: nat, b: nat, c: nat, d: nat) {
    from <= a < b < c < d < from + 69 && line(a) && line(b) && !line(c) && line(d)
  }

  /** All samples from `from` up to `to` show this level. */
  ghost predicate Steady(line: nat -> bool, from: nat, to: nat, level: bool) {
    forall k | from <= k < to :: line(k) == level
  }

  /** Sample `i` is the first one from `from` on that shows this level. */
  ghost predicate IsFirst(line: nat -> bool, from: nat, i: nat, level: bool) {
    from <= i && line(i) == level && Steady(line, from, i, !level)
  }

  /**
    On a wire that is low for `i` samples, high for `j`, low for `k`, and then high, a reset detects a presence
    exactly if it samples the high level twice, then low, then high within its 69 samples.
    */
  lemma PresencePattern(line: nat -> bool, from: nat, i: nat, j: nat, k: nat)
    requires j > 0
    requires forall n | from <= n :: line(n) <==> (i <= n - from < i + j || i + j + k <= n - from)
    ensures Presence(line, from) <==> j >= 2 && k >= 1 && i + j + k < 69
  {
    if Presence(line, from) {
      var a, b, c, d :| Pulse(line, from, a, b, c, d);
    }
    if j >= 2 && k >= 1 && i + j + k < 69 {
      assert Pulse(line, from, from + i, from + i + 1, from + i + j, from + i + j + k);
    }
  }

  /** A wire that does not come back up once it has gone down shows no presence. */
  lemma NoPresence(line: nat -> bool, from: nat)
    requires forall a, c, d | from <= a < c < d && line(a) && !line(c) :: !line(d)
    ensures !Presence(line, from)
  {
  }

  // ----- why a reset gives up: the level that it waits for does not come within its 69 samples

  lemma NeverHigh(line: nat -> bool, from: nat)
    requires Steady(line, from, from + 69, false)
    ensures !Presence(line, from)
  {
  }

  lemma HighOnce(line: nat -> bool, from: nat, a: nat)
    requires IsFirst(line, from, a, true) && Steady(line, a + 1, from + 69, false)
    ensures !Presence(line, from)
  {
  }

  lemma StaysHigh(line: nat -> bool, from: nat, a: nat, b: nat)
    requires IsFirst(line, from, a, true) && IsFirst(line, a + 1, b, true)
    requires Steady(line, b + 1, from + 69, true)
    ensures !Presence(line, from)
  {
  }

  lemma StaysLow(line: nat -> bool, from: nat, a: nat, b: nat, c: nat)
    requires IsFirst(line, from, a, true) && IsFirst(line, a + 1, b, true) && IsFirst(line, b + 1, c, false)
    requires Steady(line, c + 1, from + 69, false)
    ensures !Presence(line, from)
  {
  }

  lemma Pulsed(line: nat -> bool, from: nat, a: nat, b: nat, c: nat, d: nat)
    requires IsFirst(line, from, a, true) && IsFirst(line, a + 1, b, true) && IsFirst(line, b + 1, c, false)
    requires IsFirst(line, c + 1, d, true) && d < from + 69
    ensures Presence(line, from)
  {
    assert Pulse(line, from, a, b, c, d);
  }

  lemma NobodyConverts(devices: set<Device>)
    ensures Converters(AllListening(devices)) == {}
  {
  }

  // ----- what a search call may come to

  lemma NothingStep(S: set<Rom>, presence: bool, st: SearchState)
    requires st.lastDevice || !presence || S == {}
    ensures SearchStep(S, presence, st, Cleared(st.rom), None)
  {
  }

  lemma ReachedStep(S: set<Rom>, st: SearchState, rom: Rom, family: nat)
    requires !st.lastDevice && S != {} && Reached(S, st.rom, st.lastDiscrepancy, rom)
    requires family == FamilyDiscrepancy(S, rom, st.lastFamilyDiscrepancy)
    ensures HasFamily(rom) ==>
              SearchStep(S, true, st, SearchState(rom, LastZero(S, rom), family, LastZero(S, rom) == 0), Some(rom))
    ensures !HasFamily(rom) ==> SearchStep(S, true, st, Cleared(rom), None)
  {
    hide Reached, LastZero, HasFamily;
  }

  // ----- the wire and its master

  /**
    The wire with its devices; `line` gives the levels that a reset samples, one after the other.  A device
    that converts when the wire is reset has measured once more.
    */
  class Wire {
    const devices: set<Device>
    const line: nat -> bool
    var bus: Bus
    var conversions: multiset<Device>
    var sampled: nat
    var waited: nat

    ghost predicate Valid()
      reads this`bus
    {
      bus.Keys == devices
    }

    /** How often each device has started to measure. */
    ghost function Started(): multiset<Device>
      reads this`bus, this`conversions
    {
      conversions + multiset(Converters(bus))
    }

    constructor (devices: set<Device>, line: nat -> bool)
      ensures Valid() && this.devices == devices && this.line == line
      ensures Started() == multiset{}
    {
      this.devices, this.line := devices, line;
      bus := map d | d in devices :: Idle;
      conversions := multiset{};
      sampled, waited := 0, 0;
    }

    method Delay(us: nat)
      modifies this`waited
      ensures waited == old(waited) + us
    {
      waited := waited + us;
    }

    method Sample() returns (level: bool)
      modifies this`sampled
      ensures level == line(old(sampled)) && sampled == old(sampled) + 1
    {
      level := line(sampled);
      sampled := sampled + 1;
    }

    /** A low pulse; from 480 microseconds on it resets every device. */
    method PullLow(us: nat)
      modifies this`bus, this`conversions, this`waited
      ensures waited == old(waited) + us
      ensures bus == if us >= 480 then AllListening(devices) else old(bus)
      ensures Started() == old(Started())
      ensures conversions == if us >= 480 then old(Started()) else old(conversions)
    {
      if us >= 480 {
        NobodyConverts(devices);
        conversions := conversions + multiset(Converters(bus));
        bus := AllListening(devices);
      }
      waited := waited + us;
    }
  }

  const RESET_PULSE_US := 500
  const RESET_TIME_US := 1200 - RESET_PULSE_US
  const RESET_STEP_US := 10

  class OneWire {
    const wire: Wire
    const romNo: array<bv8>
    var lastDiscrepancy: nat
    var lastFamilyDiscrepancy: nat
    var lastDeviceFlag: bool

    constructor (wire: Wire)
      ensures this.wire == wire && fresh(romNo) && romNo.Length == 8
      ensures State() == Cleared(Zeros(64))
    {
      this.wire := wire;
      romNo := new bv8[8];
      new;
      ResetSearch();
    }

    /** The search state as a value. */
    ghost function State(): SearchState
      reads this, romNo
      requires romNo.Length == 8
    {
      SearchState(Stream(romNo[..]), lastDiscrepancy, lastFamilyDiscrepancy, lastDeviceFlag)
    }

    method ResetSearch()
      requires romNo.Length == 8
      modifies this, romNo
      ensures State() == Cleared(Zeros(64))
    {
      lastDiscrepancy := 0;
      lastDeviceFlag := false;
      lastFamilyDiscrepancy := 0;
      var i := 7;
      while true
        invariant 0 <= i <= 7
        invariant forall k | i < k < 8 :: romNo[k] == 0
        modifies romNo
        decreases i
      {
        romNo[i] := 0;
        if i == 0 { break; }
        i := i - 1;
      }
      StreamOfZeros(romNo[..]);
    }

    method TargetSearch(familyCode: bv8)
      requires romNo.Length == 8
      modifies this, romNo
      ensures State() == TargetState(familyCode)
    {
      romNo[0] := familyCode;
      for i := 1 to 8
        invariant romNo[0] == familyCode
        invariant forall k | 1 <= k < i :: romNo[k] == 0
      {
        romNo[i] := 0;
      }
      lastDiscrepancy := 64;
      lastFamilyDiscrepancy := 0;
      lastDeviceFlag := false;
      assert romNo[..] == [familyCode] + romNo[1..];
      StreamConcat([familyCode], romNo[1..]);
      StreamOfZeros(romNo[1..]);
      StreamSnoc([], familyCode);
      StreamEmpty();
    }

    method WriteBit(v: bool)
      requires wire.Valid()
      modifies wire`bus
      ensures wire.Valid() && wire.bus == Slot(old(wire.bus), v)
    {
      wire.bus := Slot(wire.bus, v);
    }

    method ReadBit() returns (r: bool)
      requires wire.Valid()
      modifies wire`bus
      ensures wire.Valid() && r == Level(old(wire.bus)) && wire.bus == Slot(old(wire.bus), r)
    {
      r := Level(wire.bus);
      wire.bus := Slot(wire.bus, r);
    }

    /** A byte goes out as eight slots, least significant bit first. */
    method Write(v: bv8)
      requires wire.Valid()
      modifies wire`bus
      ensures wire.Valid() && wire.bus == Slots(old(wire.bus), ByteBits(v))
    {
      hide ByteBits, ByteBit, Mask, Slots, Slot;
      var bitMask: bv8 := 0x01;
      ghost var i := 0;
      SlotsNone(wire.bus);
      MaskStart();
      while bitMask != 0
        invariant i <= 8 && wire.Valid()
        invariant bitMask == if i < 8 then Mask(i) else 0
        invariant i < 8 ==> bitMask != 0
        invariant wire.bus == Slots(old(wire.bus), ByteBits(v)[..i])
        decreases 8 - i
      {
        SlotsSnoc(old(wire.bus), ByteBits(v)[..i], ByteBit(v, i));
        assert ByteBits(v)[..i + 1] == ByteBits(v)[..i] + [ByteBit(v, i)];
        MaskTest(v, i);
        WriteBit(bitMask & v != 0);
        MaskNext(i);
        bitMask := bitMask << 1;
        i := i + 1;
      }
      assert ByteBits(v)[..8] == ByteBits(v);
    }

    /** A byte comes in as eight read slots, least significant bit first. */
    method Read() returns (r: bv8)
      requires wire.Valid()
      modifies wire`bus
      ensures wire.Valid()
      ensures ByteBits(r) == ReadBits(old(wire.bus), 8)
      ensures wire.bus == Slots(old(wire.bus), ReadBits(old(wire.bus), 8))
    {
      hide ByteBits, ByteBit, Mask, Slots, Slot;
      r := 0;
      NoBits();
      MaskStart();
      var bitMask: bv8 := 0x01;
      ghost var i := 0;
      SlotsNone(wire.bus);
      while bitMask != 0
        invariant i <= 8 && wire.Valid()
        invariant bitMask == if i < 8 then Mask(i) else 0
        invariant i < 8 ==> bitMask != 0
        invariant forall j | 0 <= j < 8 :: ByteBit(r, j) == (j < i && ReadBits(old(wire.bus), i)[j])
        invariant wire.bus == Slots(old(wire.bus), ReadBits(old(wire.bus), i))
        decreases 8 - i
      {
        var b := ReadBit();
        SlotsSnoc(old(wire.bus), ReadBits(old(wire.bus), i), b);
        assert ReadBits(old(wire.bus), i + 1) == ReadBits(old(wire.bus), i) + [b];
        SetMask(r, i, bitMask);
        if b {
          r := r | bitMask;
        }
        MaskNext(i);
        bitMask := bitMask << 1;
        i := i + 1;
      }
    }

    method Select(rom: array<bv8>)
      requires wire.Valid() && rom.Length == 8
      modifies wire`bus
      ensures wire.Valid()
      ensures wire.bus == Slots(old(wire.bus), ByteBits(0x55) + Stream(rom[..]))
    {
      hide ByteBits, Slots, Stream;
      Write(MATCH_ROM);
      StreamEmpty();
      assert rom[..0] == [];
      assert ByteBits(MATCH_ROM) + Stream(rom[..0]) == ByteBits(MATCH_ROM);
      for i := 0 to 8
        invariant wire.Valid()
        invariant wire.bus == Slots(old(wire.bus), ByteBits(MATCH_ROM) + Stream(rom[..i]))
      {
        Write(rom[i]);
        assert rom[..i + 1] == rom[..i] + [rom[i]];
        StreamSnoc(rom[..i], rom[i]);
        SlotsConcat(old(wire.bus), ByteBits(MATCH_ROM) + Stream(rom[..i]), ByteBits(rom[i]));
        assert ByteBits(MATCH_ROM) + Stream(rom[..i]) + ByteBits(rom[i])
            == ByteBits(MATCH_ROM) + Stream(rom[..i + 1]);
      }
      assert rom[..8] == rom[..];
    }

    /**
      One of the loops of a reset: samples until the wire shows `level`, spending one try of the budget
      before each sample, and gives up, with no tries left, when the budget would run out.
      */
    method WaitFor(level: bool, stepUs: nat, budget: nat) returns (retries: nat)
      requires 0 < budget
      modifies wire`sampled, wire`waited
      ensures retries <= budget
      ensures wire.sampled == old(wire.sampled) + if retries > 0 then budget - retries else budget - 1
      ensures wire.waited == old(wire.waited) + stepUs * (wire.sampled - old(wire.sampled))
      ensures retries > 0 ==> old(wire.sampled) < wire.sampled
      ensures if retries > 0 then IsFirst(wire.line, old(wire.sampled), wire.sampled - 1, level)
              else Steady(wire.line, old(wire.sampled), wire.sampled, !level)
    {
      retries := budget;
      var seen := !level;
      while seen != level
        invariant 0 < retries <= budget
        invariant wire.sampled == old(wire.sampled) + budget - retries
        invariant wire.waited == old(wire.waited) + stepUs * (budget - retries)
        invariant seen == level ==> old(wire.sampled) < wire.sampled && wire.line(wire.sampled - 1) == level
        invariant Steady(wire.line, old(wire.sampled), wire.sampled - (if seen == level then 1 else 0), !level)
        decreases retries
      {
        retries := retries - 1;
        if retries == 0 { return; }
        wire.Delay(stepUs);
        seen := wire.Sample();
      }
    }

    /** The three waits after the low pulse: high, low and high again, on one budget. */
    method AwaitPresence(budget: nat, ghost from: nat, ghost first: nat) returns (retries: nat)
      requires IsFirst(wire.line, from, first, true) && wire.sampled == first + 1
      requires 0 < budget == 70 - (wire.sampled - from)
      modifies wire`sampled, wire`waited
      ensures retries > 0 <==> Presence(wire.line, from)
      ensures retries > 0 ==> wire.sampled >= old(wire.sampled) + 3
      ensures retries <= budget
      ensures wire.sampled == old(wire.sampled) + if retries > 0 then budget - retries else budget - 1
      ensures wire.waited == old(wire.waited) + 2 * (wire.sampled - old(wire.sampled))
    {
      hide Presence, IsFirst, Steady;
      retries := WaitFor(true, 2, budget);
      if retries == 0 {
        HighOnce(wire.line, from, first);
        return;
      }
      ghost var b := wire.sampled - 1;
      retries := WaitFor(false, 2, retries);
      if retries == 0 {
        StaysHigh(wire.line, from, first, b);
        return;
      }
      ghost var c := wire.sampled - 1;
      retries := WaitFor(true, 2, retries);
      if retries == 0 {
        StaysLow(wire.line, from, first, b, c);
        return;
      }
      Pulsed(wire.line, from, first, b, c, wire.sampled - 1);
    }

    /**
      Returns whether a device answered: exactly when the samples show the presence pattern.  The four
      waits share one budget of 70 tries, so a reset never takes longer than 1190 microseconds.  A reset that
      detects a presence has held the wire low for 500, and fills up the time that it did not wait.
      */
    method Reset() returns (presence: bool)
      requires wire.Valid()
      modifies wire
      ensures wire.Valid() && wire.Started() == old(wire.Started())
      ensures presence <==> Presence(wire.line, old(wire.sampled))
      ensures presence ==> wire.bus == AllListening(wire.devices) && wire.conversions == old(wire.Started())
      ensures presence ==> exists first: nat ::
                && IsFirst(wire.line, old(wire.sampled), first, true) && first < wire.sampled
                && wire.waited == old(wire.waited) + 10 * (first + 1 - old(wire.sampled)) + 500
                                  + 2 * (wire.sampled - 1 - first) + 10 * (70 - (wire.sampled - old(wire.sampled)))
      ensures old(wire.sampled) <= wire.sampled <= old(wire.sampled) + 69
      ensures old(wire.waited) <= wire.waited <= old(wire.waited) + 1190
    {
      hide Wire.Started, Presence, IsFirst, Steady, AllListening;
      ghost var from := wire.sampled;
      var retries := RESET_TIME_US / RESET_STEP_US;
      retries := WaitFor(true, RESET_STEP_US, retries);
      if retries == 0 {
        NeverHigh(wire.line, from);
        return false;
      }
      ghost var first := wire.sampled - 1;
      wire.PullLow(RESET_PULSE_US);
      retries := AwaitPresence(retries, from, first);
      if retries == 0 { return false; }
      wire.Delay(RESET_STEP_US * retries);
      return true;
    }

    /** Sets or clears the bit of the ROM buffer at the current byte and mask. */
    method SetRomBit(byteNumber: nat, mask: bv8, direction: bool, ghost i: nat)
      requires romNo.Length == 8 && byteNumber < 8 && i < 8 && mask == Mask(i)
      modifies romNo
      ensures Stream(romNo[..]) == old(Stream(romNo[..]))[8 * byteNumber + i := direction]
    {
      hide Stream, Mask, WithBit;
      StreamWithBit(romNo[..], byteNumber, i, mask, direction);
      ghost var before := romNo[..];
      romNo[byteNumber] := ChangeBit(romNo[byteNumber], mask, direction);
      assert romNo[..] == before[byteNumber := romNo[byteNumber]];
    }

    static method ChangeBit(b: bv8, mask: bv8, direction: bool) returns (changed: bv8)
      ensures changed == WithBit(b, mask, direction)
    {
      if direction {
        changed := b | mask;
      } else {
        changed := b & !mask;
      }
    }

    /** The direction of one turn, and the bookkeeping of zeros taken at forks. */
    method PickDirection(idBit: bool, cmpIdBit: bool, idBitNumber: nat, lastZero: nat,
                         romByteNumber: nat, romByteMask: bv8, ghost before: SearchState)
      returns (searchDirection: bool, newLastZero: nat)
      requires romNo.Length == 8 && 0 < idBitNumber <= 64
      requires idBitNumber - 1 == 8 * romByteNumber + (idBitNumber - 1) % 8
      requires romByteMask == Mask((idBitNumber - 1) % 8)
      requires lastDiscrepancy == before.lastDiscrepancy
      requires Stream(romNo[..])[idBitNumber - 1] == before.rom[idBitNumber - 1]
      modifies this`lastFamilyDiscrepancy
      ensures searchDirection == Direct(before, idBitNumber - 1, idBit, cmpIdBit)
      ensures var zero := idBit == cmpIdBit && !searchDirection;
              && newLastZero == (if zero then idBitNumber else lastZero)
              && lastFamilyDiscrepancy
              == (if zero && idBitNumber < 9 then idBitNumber else old(lastFamilyDiscrepancy))
    {
      hide Stream, Mask, ByteBit;
      newLastZero := lastZero;
      if idBit != cmpIdBit {
        searchDirection := idBit;
      } else {
        if idBitNumber < lastDiscrepancy {
          BitIsMasked(romNo[romByteNumber], (idBitNumber - 1) % 8);
          StreamAt(romNo[..], romByteNumber, (idBitNumber - 1) % 8);
          searchDirection := romNo[romByteNumber] & romByteMask > 0;
        } else {
          searchDirection := idBitNumber == lastDiscrepancy;
        }
        if !searchDirection {
          newLastZero := idBitNumber;
          if newLastZero < 9 {
            lastFamilyDiscrepancy := newLastZero;
          }
        }
      }
    }

    /** The two reads of a turn, which tell whether all participants send 1 and whether all send 0. */
    method ReadPair(ghost searchMode: bool, ghost p: Bits) returns (idBit: bool, cmpIdBit: bool)
      requires wire.Valid() && |p| < 64
      requires wire.bus == Followers(wire.devices, searchMode, p, Bit)
      modifies wire`bus
      ensures wire.Valid() && wire.bus == Followers(wire.devices, searchMode, p, Direction)
      ensures idBit <==> AllTake(Answering(wire.devices, searchMode), p, true)
      ensures cmpIdBit <==> AllTake(Answering(wire.devices, searchMode), p, false)
    {
      hide Followers, Level, Slot, Answering, AllTake;
      ReadsTell(wire.devices, searchMode, p);
      idBit := ReadBit();
      ReadAdvances(wire.devices, searchMode, p, idBit);
      cmpIdBit := ReadBit();
      ReadAdvances(wire.devices, searchMode, p, cmpIdBit);
    }

    /**
      One turn of the search loop: two reads, a direction, the ROM bit, the last zero, one write.
      `silent` tells that no device answered either read.
      */
    method SearchTurn(idBitNumber: nat, lastZero: nat, romByteNumber: nat, romByteMask: bv8,
                      ghost searchMode: bool, ghost before: SearchState, ghost p: Bits)
      returns (silent: bool, searchDirection: bool, newLastZero: nat)
      requires wire.Valid() && romNo.Length == 8
      requires |p| == idBitNumber - 1 == 8 * romByteNumber + |p| % 8 < 64
      requires romByteMask == Mask(|p| % 8)
      requires wire.bus == Followers(wire.devices, searchMode, p, Bit)
      requires lastDiscrepancy == before.lastDiscrepancy
      requires Answering(wire.devices, searchMode) != {} ==>
                 Walking(Answering(wire.devices, searchMode), before, p, Stream(romNo[..]), lastZero,
                         lastFamilyDiscrepancy)
      modifies this`lastFamilyDiscrepancy, wire`bus, romNo
      ensures wire.Valid()
      ensures silent <==> Answering(wire.devices, searchMode) == {}
      ensures silent ==> romNo[..] == old(romNo[..]) && lastFamilyDiscrepancy == old(lastFamilyDiscrepancy)
      ensures silent ==> wire.bus == Followers(wire.devices, searchMode, p, Direction)
      ensures !silent ==>
                && wire.bus == Followers(wire.devices, searchMode, p + [searchDirection], Bit)
                && Walking(Answering(wire.devices, searchMode), before, p + [searchDirection],
                           Stream(romNo[..]), newLastZero, lastFamilyDiscrepancy)
    {
      hide Stream, Mask, ByteBit, Followers, Walking, Answering, AllTake, Direct;
      ghost var S, family := Answering(wire.devices, searchMode), lastFamilyDiscrepancy;
      ghost var rom := Stream(romNo[..]);
      if S == {} {
        NobodyAnswers(p, true);
        NobodyAnswers(p, false);
      } else {
        NotBothSilent(S, before, p, rom, lastZero, family);
      }
      var idBit, cmpIdBit := ReadPair(searchMode, p);
      if idBit && cmpIdBit {
        return true, false, lastZero;
      }
      WalkRomBit(S, before, p, rom, lastZero, family);
      WalkGoesOn(S, before, p, rom, lastZero, family, idBit, cmpIdBit);
      searchDirection, newLastZero :=
        PickDirection(idBit, cmpIdBit, idBitNumber, lastZero, romByteNumber, romByteMask, before);
      SetRomBit(romByteNumber, romByteMask, searchDirection, |p| % 8);
      DirectionFilters(wire.devices, searchMode, p, searchDirection);
      WriteBit(searchDirection);
      silent := false;
    }

    method CopyRom(newAddr: array<bv8>)
      requires romNo.Length == 8 && newAddr.Length == 8 && newAddr != romNo
      modifies newAddr
      ensures newAddr[..] == romNo[..]
    {
      for i := 0 to 8
        invariant forall k | 0 <= k < i :: newAddr[k] == romNo[k]
      {
        newAddr[i] := romNo[i];
      }
    }

    method StartSearch(searchMode: bool)
      requires wire.Valid() && wire.bus == AllListening(wire.devices)
      modifies wire`bus
      ensures wire.Valid() && wire.bus == Followers(wire.devices, searchMode, [], Bit)
      ensures wire.Started() == old(wire.Started())
    {
      hide Followers, Slots, AllListening, ByteBits, Converters;
      NobodyConverts(wire.devices);
      SearchStarts(wire.devices, searchMode);
      Write(if searchMode then NORMAL_SEARCH else CONDITIONAL_SEARCH);
      FollowersConvertNot(wire.devices, searchMode, [], Bit);
    }

    /**
      One search call: what it finds, and the state it leaves, are a step of the search specification
      for the devices that answer.
      */
    method Search(newAddr: array<bv8>, searchMode: bool := true) returns (found: bool)
      requires wire.Valid() && romNo.Length == 8 && newAddr.Length == 8 && newAddr != romNo
      modifies this, wire, romNo, newAddr
      ensures wire.Valid()
      ensures SearchStep(Answering(wire.devices, searchMode), Presence(wire.line, old(wire.sampled)),
                         old(State()), State(), if found then Some(Stream(newAddr[..])) else None)
      ensures !found ==> newAddr[..] == old(newAddr[..])
      ensures found ==> wire.bus == Followers(wire.devices, searchMode, Stream(newAddr[..]), Bit)
      ensures wire.Started() == old(wire.Started())
      ensures old(lastDeviceFlag) ==>
                wire.bus == old(wire.bus) && wire.sampled == old(wire.sampled) && wire.waited == old(wire.waited)
      ensures old(wire.sampled) <= wire.sampled <= old(wire.sampled) + 69
    {
      hide Stream, Mask, Followers, Walking, Answering, Slots, Reached, LastZero, HasFamily, FamilyDiscrepancy,
        Presence, Wire.Started, AllListening, SearchStep;
      ghost var before := State();
      ghost var S := Answering(wire.devices, searchMode);
      var searchResult := false;
      if !lastDeviceFlag {
        var presence := Reset();
        if !presence {
          lastDiscrepancy := 0;
          lastDeviceFlag := false;
          lastFamilyDiscrepancy := 0;
          NothingStep(S, false, before);
          return false;
        }
        StartSearch(searchMode);
        var lastZero;
        searchResult, lastZero := SearchLoop(searchMode, before);
        if searchResult {
          ReachedStep(S, before, Stream(romNo[..]), lastFamilyDiscrepancy);
          lastDiscrepancy := lastZero;
          if lastDiscrepancy == 0 {
            lastDeviceFlag := true;
          }
        }
      }
      if !searchResult {
        NothingStep(S, Presence(wire.line, old(wire.sampled)), before);
      }
      FirstByteNonzero(romNo[..]);
      if !searchResult || romNo[0] == 0 {
        lastDiscrepancy := 0;
        lastDeviceFlag := false;
        lastFamilyDiscrepancy := 0;
        searchResult := false;
      } else {
        CopyRom(newAddr);
      }
      return searchResult;
    }

    /** The search loop: succeeds exactly when a device answers, and then ends at the prescribed ROM. */
    method SearchLoop(ghost searchMode: bool, ghost before: SearchState) returns (complete: bool, lastZero: nat)
      requires wire.Valid() && romNo.Length == 8
      requires wire.bus == Followers(wire.devices, searchMode, [], Bit)
      requires before == State()
      modifies this`lastFamilyDiscrepancy, wire`bus, romNo
      ensures wire.Valid() && wire.Started() == old(wire.Started())
      ensures complete ==> wire.bus == Followers(wire.devices, searchMode, Stream(romNo[..]), Bit)
      ensures complete <==> Answering(wire.devices, searchMode) != {}
      ensures !complete ==> State() == before
      ensures complete ==>
                && Reached(Answering(wire.devices, searchMode), before.rom, before.lastDiscrepancy, Stream(romNo[..]))
                && lastZero == LastZero(Answering(wire.devices, searchMode), Stream(romNo[..]))
                && lastFamilyDiscrepancy
                == FamilyDiscrepancy(Answering(wire.devices, searchMode), Stream(romNo[..]),
                                     before.lastFamilyDiscrepancy)
    {
      hide Stream, Mask, Followers, Walking, Answering, Reached, LastZero, FamilyDiscrepancy, Converters;
      ghost var S := Answering(wire.devices, searchMode);
      ghost var p: Bits := [];
      FollowersConvertNot(wire.devices, searchMode, p, Bit);
      var idBitNumber := 1;
      var romByteNumber := 0;
      var romByteMask: bv8 := 1;
      lastZero := 0;
      MaskStart();
      if S != {} {
        WalkStarts(S, before);
      }
      while romByteNumber < 8
        invariant wire.Valid()
        invariant |p| == idBitNumber - 1 == 8 * romByteNumber + |p| % 8 <= 64
        invariant romByteMask == Mask(|p| % 8)
        invariant wire.bus == Followers(wire.devices, searchMode, p, Bit)
        invariant S == {} ==> p == [] && State() == before
        invariant S != {} ==> Walking(S, before, p, Stream(romNo[..]), lastZero, lastFamilyDiscrepancy)
        decreases 64 - |p|
      {
        var silent, searchDirection;
        silent, searchDirection, lastZero :=
          SearchTurn(idBitNumber, lastZero, romByteNumber, romByteMask, searchMode, before, p);
        if silent {
          FollowersConvertNot(wire.devices, searchMode, p, Direction);
          break;
        }
        MaskNext(|p| % 8);
        p := p + [searchDirection];
        idBitNumber := idBitNumber + 1;
        romByteMask := romByteMask << 1;
        if romByteMask == 0 {
          romByteNumber := romByteNumber + 1;
          romByteMask := 1;
        }
      }
      complete := !(idBitNumber < 65);
      if complete {
        FollowersConvertNot(wire.devices, searchMode, p, Bit);
        WalkEnds(S, before, p, Stream(romNo[..]), lastZero, lastFamilyDiscrepancy);
      }
    }
  }
}
