/** The bus in the middle of a search: which devices still take part, and what one search triple does. */
module SearchBus {
  import opened Gf2
  import opened ByteStream
  import opened RomSearch
  import opened Enumeration
  import opened Slaves
  import opened OneWireBus

  predicate Answers(d: Device, normal: bool) {
    normal || d.alarm
  }

  /** The ROMs that take part in a normal or in a conditional search. */
  function Answering(devices: set<Device>, normal: bool): set<Rom> {
    set d | d in devices && Answers(d, normal) :: d.rom
  }

  /** What a device does once the path `p` has been written: it takes part as long as it follows. */
  function Follower(d: Device, normal: bool, p: Bits, phase: Phase): Slave
    requires |p| <= 64
  {
    if Answers(d, normal) && Agree(d.rom, p, |p|) then
      if |p| == 64 then FunctionCommand([]) else Searching(|p|, phase)
    else Idle
  }

  function Followers(devices: set<Device>, normal: bool, p: Bits, phase: Phase): (bus: Bus)
    requires |p| <= 64
    ensures bus.Keys == devices
  {
    map d | d in devices :: Follower(d, normal, p, phase)
  }

  lemma FollowersConvertNot(devices: set<Device>, normal: bool, p: Bits, phase: Phase)
    requires |p| <= 64
    ensures Converters(Followers(devices, normal, p, phase)) == {}
  {
    hide Agree, Answers;
  }

  /** A search that has written 64 bits has selected the device with that ROM, and nobody else. */
  lemma FoundIsSelected(devices: set<Device>, normal: bool, rom: Rom, phase: Phase, d: Device)
    requires d in devices
    ensures Followers(devices, normal, rom, phase)[d]
         == if Answers(d, normal) && d.rom == rom then FunctionCommand([]) else Idle
  {
    hide Answers;
    if Agree(d.rom, rom, 64) {
      assert d.rom == rom;
    }
  }

  /** Every ROM on the path has bit `|p|` equal to `b`. */
  ghost predicate AllTake(S: set<Rom>, p: Bits, b: bool)
    requires |p| < 64
  {
    forall r | r in S && Agree(r, p, |p|) :: r[|p|] == b
  }

  lemma SearchStarts(devices: set<Device>, normal: bool)
    ensures Slots(AllListening(devices), ByteBits(if normal then 0xF0 else 0xEC))
         == Followers(devices, normal, [], Bit)
  {
    hide ByteBits, HearsAll, ObeysRom;
    var command := if normal then NORMAL_SEARCH else CONDITIONAL_SEARCH;
    var bus := Slots(AllListening(devices), ByteBits(command));
    forall d | d in devices
      ensures bus[d] == Followers(devices, normal, [], Bit)[d]
    {
      CommandObeyed(d, command);
      RomCommands(d);
    }
  }

  /** The two reads of a triple: do all participants send 1, do all send 0. */
  lemma ReadsTell(devices: set<Device>, normal: bool, p: Bits)
    requires |p| < 64
    ensures Level(Followers(devices, normal, p, Bit)) <==> AllTake(Answering(devices, normal), p, true)
    ensures Level(Followers(devices, normal, p, Complement)) <==> AllTake(Answering(devices, normal), p, false)
  {
    hide Agree;
    var S := Answering(devices, normal);
    forall d | d in devices && Answers(d, normal)
      ensures d.rom in S
    {
    }
    forall r | r in S
      ensures exists d :: d in devices && Answers(d, normal) && d.rom == r
    {
    }
    LevelIs(devices, normal, p, Bit);
    LevelIs(devices, normal, p, Complement);
    hide Level, Followers;
  }

  lemma LevelIs(devices: set<Device>, normal: bool, p: Bits, phase: Phase)
    requires |p| < 64 && phase != Direction
    ensures Level(Followers(devices, normal, p, phase))
       <==> forall d | d in devices && Answers(d, normal) && Agree(d.rom, p, |p|) :: d.rom[|p|] == (phase == Bit)
  {
    hide Agree;
    var bus := Followers(devices, normal, p, phase);
    forall d | d in devices
      ensures Drives(d, bus[d]) <==> (Answers(d, normal) && Agree(d.rom, p, |p|) ==> d.rom[|p|] == (phase == Bit))
    {
    }
  }

  /** A read slot moves every participant to the next phase. */
  lemma ReadAdvances(devices: set<Device>, normal: bool, p: Bits, b: bool)
    requires |p| < 64
    ensures Slot(Followers(devices, normal, p, Bit), b) == Followers(devices, normal, p, Complement)
    ensures Slot(Followers(devices, normal, p, Complement), b) == Followers(devices, normal, p, Direction)
  {
    hide Agree, Answers;
    forall d | d in devices
      ensures Slot(Followers(devices, normal, p, Bit), b)[d] == Followers(devices, normal, p, Complement)[d]
      ensures Slot(Followers(devices, normal, p, Complement), b)[d] == Followers(devices, normal, p, Direction)[d]
    {
    }
  }

  /** Writing a direction drops the participants that differ. */
  lemma DirectionFilters(devices: set<Device>, normal: bool, p: Bits, b: bool)
    requires |p| < 64
    ensures Slot(Followers(devices, normal, p, Direction), b) == Followers(devices, normal, p + [b], Bit)
  {
    hide Answers;
    var before, after := Followers(devices, normal, p, Direction), Followers(devices, normal, p + [b], Bit);
    forall d | d in devices
      ensures Slot(before, b)[d] == after[d]
    {
      AgreeSnoc(d.rom, p, b);
    }
  }

  lemma AgreeSnoc(r: Rom, p: Bits, b: bool)
    requires |p| < 64
    ensures Agree(r, p + [b], |p| + 1) <==> Agree(r, p, |p|) && r[|p|] == b
  {
    var q := p + [b];
    assert q[|p|] == b;
    assert forall j | 0 <= j < |p| :: q[j] == p[j];
  }

  // ----- the master's side of a walk

  /** What holds of the master after it has written the path `p`. */
  ghost predicate Walking(S: set<Rom>, before: SearchState, p: Bits, rom: Bits, lastZero: nat, family: nat) {
    && |p| <= 64
    && rom == p + before.rom[|p|..]
    && (exists r :: r in S && Agree(r, p, |p|))
    && Prescribed(S, before.rom, before.lastDiscrepancy, p)
    && lastZero == LastZero(S, p)
    && family == FamilySoFar(S, p, before.lastFamilyDiscrepancy)
  }

  ghost function FamilySoFar(S: set<Rom>, p: Bits, before: nat): nat
    requires |p| <= 64
  {
    var z := LastZeroBelow(S, p, if |p| < 8 then |p| else 8);
    if z > 0 then z else before
  }

  /** The direction that follows from the two bits read. */
  function Direct(before: SearchState, n: nat, id: bool, complement: bool): bool
    requires n < 64
  {
    if id != complement then id else Choice(before.rom, before.lastDiscrepancy, n)
  }

  lemma WalkStarts(S: set<Rom>, before: SearchState)
    requires S != {}
    ensures Walking(S, before, [], before.rom, 0, before.lastFamilyDiscrepancy)
  {
    var r :| r in S;
    assert Agree(r, [], 0);
    assert before.rom == [] + before.rom[0..];
  }

  /** As long as a device is on the path, it cannot be silent in both reads. */
  lemma NotBothSilent(S: set<Rom>, before: SearchState, p: Bits, rom: Bits, lastZero: nat, family: nat)
    requires Walking(S, before, p, rom, lastZero, family) && |p| < 64
    ensures !(AllTake(S, p, true) && AllTake(S, p, false))
  {
  }

  lemma ForkWhenMixed(S: set<Rom>, p: Bits, b: bool)
    requires |p| < 64
    ensures Fork(S, p + [b], |p|) <==> !AllTake(S, p, b)
  {
    var q := p + [b];
    assert forall r: Rom :: Agree(r, q, |p|) <==> Agree(r, p, |p|) by {
      assert forall j | 0 <= j < |p| :: q[j] == p[j];
    }
  }

  lemma SomeoneFollows(S: set<Rom>, p: Bits, b: bool)
    requires |p| < 64
    requires !AllTake(S, p, !b)
    ensures exists r :: r in S && Agree(r, p + [b], |p| + 1)
  {
    var r :| r in S && Agree(r, p, |p|) && r[|p|] != !b;
    AgreeSnoc(r, p, b);
  }

  /** One turn of the search loop keeps the walk. */
  lemma WalkGoesOn(S: set<Rom>, before: SearchState, p: Bits, rom: Bits, lastZero: nat, family: nat,
                   id: bool, complement: bool)
    requires Walking(S, before, p, rom, lastZero, family) && |p| < 64
    requires id == AllTake(S, p, true) && complement == AllTake(S, p, false)
    requires !(id && complement)
    ensures var n, d := |p|, Direct(before, |p|, id, complement);
            var zero := id == complement && !d;
            Walking(S, before, p + [d], rom[n := d],
                    if zero then n + 1 else lastZero,
                    if zero && n + 1 < 9 then n + 1 else family)
  {
    hide Agree, AllTake, Fork;
    var n, d := |p|, Direct(before, |p|, id, complement);
    ForkWhenMixed(S, p, d);
    SomeoneFollows(S, p, d);
    PathSnoc(S, before.rom, before.lastDiscrepancy, p, d);
    FamilySnoc(S, p, d, before.lastFamilyDiscrepancy);
    assert rom[n := d] == p + [d] + before.rom[n + 1..];
  }

  lemma FamilySnoc(S: set<Rom>, p: Bits, d: bool, before: nat)
    requires |p| < 64
    ensures FamilySoFar(S, p + [d], before)
         == if Fork(S, p + [d], |p|) && !d && |p| + 1 < 9 then |p| + 1 else FamilySoFar(S, p, before)
  {
    hide Fork;
    var q := p + [d];
    LastZeroOnPrefix(S, p, q, if |p| < 8 then |p| else 8);
  }

  /** A walk that has written all 64 bits has reached a device. */
  lemma WalkEnds(S: set<Rom>, before: SearchState, p: Bits, rom: Bits, lastZero: nat, family: nat)
    requires Walking(S, before, p, rom, lastZero, family) && |p| == 64
    ensures rom == p && Reached(S, before.rom, before.lastDiscrepancy, rom)
    ensures lastZero == LastZero(S, rom)
    ensures family == FamilyDiscrepancy(S, rom, before.lastFamilyDiscrepancy)
  {
    assert rom == p + before.rom[64..] == p;
    var r :| r in S && Agree(r, p, 64);
    assert r == p;
  }

  /** Beyond the path the ROM buffer still holds the previous ROM. */
  lemma WalkRomBit(S: set<Rom>, before: SearchState, p: Bits, rom: Bits, lastZero: nat, family: nat)
    requires Walking(S, before, p, rom, lastZero, family) && |p| < 64
    ensures |rom| == 64 && rom[|p|] == before.rom[|p|]
  {
  }

  lemma NobodyAnswers(p: Bits, b: bool)
    requires |p| < 64
    ensures AllTake({}, p, b)
  {
  }
}
