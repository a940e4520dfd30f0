/**
  The devices on the 1-Wire bus, one state machine each: how a device answers the ROM commands, the
  search, and the commands of a temperature sensor, bit slot by bit slot.
  */
module Slaves {
  import opened Gf2
  import opened ByteStream
  import opened RomSearch

  const NORMAL_SEARCH: bv8 := 0xF0
  const CONDITIONAL_SEARCH: bv8 := 0xEC
  const MATCH_ROM: bv8 := 0x55
  const CONVERT: bv8 := 0x44
  const READ_SCRATCHPAD: bv8 := 0xBE

  datatype Slave =
    | Idle                          // waits for the next reset
    | RomCommand(got: Bits)         // receives a ROM command
    | Searching(pos: nat, phase: Phase)
    | Matching(pos: nat)
    | FunctionCommand(got: Bits)    // selected, receives a function command
    | Sending(pos: nat)             // sends its scratchpad
    | Converting

  /** A search slot triple: the bit, its complement, and the direction the master takes. */
  datatype Phase = Bit | Complement | Direction

  /** A device, as far as the master can tell: its number, its alarm, and the 72 bits of its scratchpad. */
  datatype Device = Device(rom: Rom, alarm: bool, pad: Bits)

  /** What a device puts on the wire in a read slot; `true` leaves the wire alone. */
  predicate Drives(d: Device, s: Slave) {
    match s
    case Searching(pos, Bit) => pos < 64 ==> d.rom[pos]
    case Searching(pos, Complement) => pos < 64 ==> !d.rom[pos]
    case Sending(pos) => pos < |d.pad| ==> d.pad[pos]
    case _ => true
  }

  /** How a device takes a slot in which the wire carries `b`; while it sends, it does not listen. */
  function Hears(d: Device, s: Slave, b: bool): Slave {
    match s
    case Idle => Idle
    case RomCommand(got) => if |got| < 7 then RomCommand(got + [b]) else ObeysRom(d, got + [b])
    case Searching(pos, Bit) => Searching(pos, Complement)
    case Searching(pos, Complement) => Searching(pos, Direction)
    case Searching(pos, Direction) =>
      if pos < 64 && d.rom[pos] == b then
        if pos == 63 then FunctionCommand([]) else Searching(pos + 1, Bit)
      else Idle
    case Matching(pos) =>
      if pos < 64 && d.rom[pos] == b then
        if pos == 63 then FunctionCommand([]) else Matching(pos + 1)
      else Idle
    case FunctionCommand(got) => if |got| < 7 then FunctionCommand(got + [b]) else ObeysFunction(got + [b])
    case Sending(pos) => Sending(pos + 1)
    case Converting => Converting
  }

  function ObeysRom(d: Device, command: Bits): Slave {
    if command == ByteBits(NORMAL_SEARCH) then Searching(0, Bit)
    else if command == ByteBits(CONDITIONAL_SEARCH) then if d.alarm then Searching(0, Bit) else Idle
    else if command == ByteBits(MATCH_ROM) then Matching(0)
    else Idle
  }

  function ObeysFunction(command: Bits): Slave {
    if command == ByteBits(CONVERT) then Converting
    else if command == ByteBits(READ_SCRATCHPAD) then Sending(0)
    else Idle
  }

  /** Slot after slot. */
  function HearsAll(d: Device, s: Slave, bits: Bits): Slave {
    if bits == [] then s
    else Hears(d, HearsAll(d, s, bits[..|bits| - 1]), bits[|bits| - 1])
  }

  lemma HearsSnoc(d: Device, s: Slave, bits: Bits, b: bool)
    ensures HearsAll(d, s, bits + [b]) == Hears(d, HearsAll(d, s, bits), b)
  {
    assert (bits + [b])[..|bits|] == bits;
  }

  lemma {:induction false} HearsConcat(d: Device, s: Slave, a: Bits, b: Bits)
    ensures HearsAll(d, s, a + b) == HearsAll(d, HearsAll(d, s, a), b)
  {
    hide Hears;
    if b == [] {
      assert a + b == a;
    } else {
      assert (a + b)[..|a + b| - 1] == a + b[..|b| - 1];
      HearsConcat(d, s, a, b[..|b| - 1]);
    }
  }

  // ----- whole bytes

  lemma {:induction false} CommandCollects(d: Device, bits: Bits)
    requires |bits| < 8
    ensures HearsAll(d, RomCommand([]), bits) == RomCommand(bits)
    ensures HearsAll(d, FunctionCommand([]), bits) == FunctionCommand(bits)
  {
    hide ObeysRom, ObeysFunction;
    if bits != [] {
      CommandCollects(d, bits[..|bits| - 1]);
      assert bits == bits[..|bits| - 1] + [bits[|bits| - 1]];
    }
  }

  /** A device that listens for a command obeys the byte it hears. */
  lemma CommandObeyed(d: Device, command: bv8)
    ensures HearsAll(d, RomCommand([]), ByteBits(command)) == ObeysRom(d, ByteBits(command))
    ensures HearsAll(d, FunctionCommand([]), ByteBits(command)) == ObeysFunction(ByteBits(command))
  {
    var bits := ByteBits(command);
    hide ObeysRom, ObeysFunction, ByteBits;
    assert bits == bits[..7] + [bits[7]];
    CommandCollects(d, bits[..7]);
    HearsSnoc(d, RomCommand([]), bits[..7], bits[7]);
    HearsSnoc(d, FunctionCommand([]), bits[..7], bits[7]);
  }

  lemma {:induction false} IdleStays(d: Device, bits: Bits)
    ensures HearsAll(d, Idle, bits) == Idle
  {
    if bits != [] {
      IdleStays(d, bits[..|bits| - 1]);
    }
  }

  /** A device that matches follows a ROM number only as far as it is its own. */
  lemma {:induction false} MatchFollows(d: Device, bits: Bits)
    requires |bits| <= 64
    ensures HearsAll(d, Matching(0), bits)
         == if d.rom[..|bits|] != bits then Idle
            else if |bits| == 64 then FunctionCommand([]) else Matching(|bits|)
  {
    if bits != [] {
      var k := |bits| - 1;
      MatchFollows(d, bits[..k]);
      assert bits == bits[..k] + [bits[k]];
      assert d.rom[..k + 1] == d.rom[..k] + [d.rom[k]];
      if d.rom[..k + 1] == bits {
        assert d.rom[..k] == bits[..k];
      }
    }
  }

  /** The commands are told apart by their bits. */
  lemma RomCommands(d: Device)
    ensures ObeysRom(d, ByteBits(0xF0)) == Searching(0, Bit)
    ensures ObeysRom(d, ByteBits(0xEC)) == if d.alarm then Searching(0, Bit) else Idle
    ensures ObeysRom(d, ByteBits(0x55)) == Matching(0)
  {
    assert ByteBits(CONDITIONAL_SEARCH)[2] && !ByteBits(NORMAL_SEARCH)[2];
    assert ByteBits(MATCH_ROM)[0] && !ByteBits(NORMAL_SEARCH)[0] && !ByteBits(CONDITIONAL_SEARCH)[0];
  }

  lemma FunctionCommands()
    ensures ObeysFunction(ByteBits(0x44)) == Converting
    ensures ObeysFunction(ByteBits(0xBE)) == Sending(0)
  {
    assert ByteBits(READ_SCRATCHPAD)[1] && !ByteBits(CONVERT)[1];
  }
}
