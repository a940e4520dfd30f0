/** Addressing one device: what a ROM select leaves on the bus, and what the selected device then sends. */
module Selection {
  import opened Gf2
  import opened ByteStream
  import opened RomSearch
  import opened Slaves
  import opened OneWireBus

  /** The device with this ROM number is in state `s`; all others wait for the next reset. */
  function Only(devices: set<Device>, rom: Bits, s: Slave): (bus: Bus)
    ensures bus.Keys == devices
  {
    map d | d in devices :: if d.rom == rom then s else Idle
  }

  /** The device with this ROM number, once. */
  function Addressed(devices: set<Device>, rom: Bits): multiset<Device> {
    multiset(set d | d in devices && d.rom == rom)
  }

  lemma OnlyConverts(devices: set<Device>, rom: Bits, s: Slave)
    ensures multiset(Converters(Only(devices, rom, s)))
         == if s == Converting then Addressed(devices, rom) else multiset{}
  {
    if s == Converting {
      assert Converters(Only(devices, rom, s)) == set d | d in devices && d.rom == rom;
    } else {
      assert Converters(Only(devices, rom, s)) == {};
    }
  }

  /** After a reset, a ROM select leaves exactly the addressed device listening. */
  lemma SelectLeavesOnly(devices: set<Device>, rom: Rom)
    ensures Slots(AllListening(devices), ByteBits(0x55) + rom) == Only(devices, rom, FunctionCommand([]))
  {
    hide ByteBits, HearsAll, ObeysRom;
    forall d | d in devices
      ensures HearsAll(d, RomCommand([]), ByteBits(MATCH_ROM) + rom)
           == if d.rom == rom then FunctionCommand([]) else Idle
    {
      HearsConcat(d, RomCommand([]), ByteBits(MATCH_ROM), rom);
      CommandObeyed(d, MATCH_ROM);
      RomCommands(d);
      MatchFollows(d, rom);
      assert d.rom[..64] == d.rom;
    }
  }

  /** A function command reaches the selected device alone. */
  lemma CommandReachesOnly(devices: set<Device>, rom: Bits, command: bv8)
    ensures Slots(Only(devices, rom, FunctionCommand([])), ByteBits(command))
         == Only(devices, rom, ObeysFunction(ByteBits(command)))
  {
    hide ByteBits, HearsAll, ObeysFunction;
    forall d | d in devices
      ensures HearsAll(d, FunctionCommand([]), ByteBits(command)) == ObeysFunction(ByteBits(command))
      ensures HearsAll(d, Idle, ByteBits(command)) == Idle
    {
      CommandObeyed(d, command);
      IdleStays(d, ByteBits(command));
    }
  }

  lemma {:induction false} SendingMoves(d: Device, p: nat, bits: Bits)
    ensures HearsAll(d, Sending(p), bits) == Sending(p + |bits|)
  {
    if bits != [] {
      SendingMoves(d, p, bits[..|bits| - 1]);
    }
  }

  lemma SendingSlots(devices: set<Device>, rom: Bits, p: nat, bits: Bits)
    ensures Slots(Only(devices, rom, Sending(p)), bits) == Only(devices, rom, Sending(p + |bits|))
  {
    hide HearsAll;
    forall d | d in devices
      ensures HearsAll(d, Sending(p), bits) == Sending(p + |bits|)
      ensures HearsAll(d, Idle, bits) == Idle
    {
      SendingMoves(d, p, bits);
      IdleStays(d, bits);
    }
  }

  /** ROM numbers are unique, and every scratchpad holds nine bytes. */
  ghost predicate ProperDevices(devices: set<Device>) {
    && (forall d, e | d in devices && e in devices && d.rom == e.rom :: d == e)
    && (forall d | d in devices :: |d.pad| == 72)
  }

  /** What is sent on behalf of a ROM number: the scratchpad of its device, or ones when no device has it. */
  ghost function PadOf(devices: set<Device>, rom: Bits): (pad: Bits)
    requires ProperDevices(devices)
    ensures |pad| == 72
    ensures forall d | d in devices && d.rom == rom :: pad == d.pad
  {
    if exists d :: d in devices && d.rom == rom then
      var d :| d in devices && d.rom == rom; d.pad
    else seq(72, i => true)
  }

  lemma LevelOfOnly(devices: set<Device>, rom: Bits, p: nat)
    requires ProperDevices(devices) && p < 72
    ensures Level(Only(devices, rom, Sending(p))) == PadOf(devices, rom)[p]
  {
    var bus := Only(devices, rom, Sending(p));
    if d :| d in devices && d.rom == rom {
      assert Drives(d, bus[d]) == d.pad[p];
    }
  }

  lemma ReadBitsSnoc(bus: Bus, n: nat)
    ensures ReadBits(bus, n + 1) == ReadBits(bus, n) + [Level(Slots(bus, ReadBits(bus, n)))]
  {
  }

  /** What the master reads from the selected device: its scratchpad, in order. */
  lemma {:induction false} ReadsPad(devices: set<Device>, rom: Bits, p: nat, n: nat)
    requires ProperDevices(devices) && p + n <= 72
    ensures ReadBits(Only(devices, rom, Sending(p)), n) == PadOf(devices, rom)[p..p + n]
  {
    hide Slots, Only, Level, ReadBits, ProperDevices, PadOf;
    var bus, pad := Only(devices, rom, Sending(p)), PadOf(devices, rom);
    if n == 0 {
      assert pad[p..p] == [];
    } else {
      ReadsPad(devices, rom, p, n - 1);
      ReadBitsSnoc(bus, n - 1);
      SendingSlots(devices, rom, p, ReadBits(bus, n - 1));
      LevelOfOnly(devices, rom, p + n - 1);
      assert pad[p..p + n] == pad[p..p + n - 1] + [pad[p + n - 1]];
    }
  }
}
