/** Measuring with one temperature sensor through the shared 1-Wire master. */
module TemperatureSensor {
  import opened Gf2
  import opened ByteStream
  import opened RomSearch
  import opened Slaves
  import opened OneWireBus
  import opened OneWireMaster
  import opened Selection
  import Crc8

  /** The last byte of a scratchpad is the CRC-8 of its first eight. */
  predicate PadValid(pad: Bits) {
    |pad| == 72 && pad[64..] == Feed(Crc8.TAPS, Zeros(8), pad[..64])
  }

  /** Eight bytes of ones have the CRC 0xC9, so a silent bus is never mistaken for a sensor. */
  lemma SilenceInvalid(devices: set<Device>, rom: Bits)
    requires ProperDevices(devices)
    requires forall d | d in devices :: d.rom != rom
    ensures !PadValid(PadOf(devices, rom))
  {
    var pad := PadOf(devices, rom);
    assert pad == seq(72, i => true);
    assert pad[64..][1];
    SilenceCrc();
    assert pad[..64] == Ones(64);
  }

  function Ones(n: nat): (s: Bits)
    ensures |s| == n
  {
    seq(n, i => true)
  }

  lemma SilenceCrc()
    ensures !Feed(Crc8.TAPS, Zeros(8), Ones(64))[1]
  {
    Crc8.TapsShape();
    ZeroByte();
    OnesStart();
    assert !ByteBits(0xC9)[1];
    hide Feed, ByteBits, Crc8.TAPS;
    OnesByte(0, 0x00, 0x35);
    OnesByte(8, 0x35, 0xB4);
    OnesByte(16, 0xB4, 0x66);
    OnesByte(24, 0x66, 0x8D);
    OnesByte(32, 0x8D, 0x44);
    OnesByte(40, 0x44, 0x12);
    OnesByte(48, 0x12, 0x14);
    OnesByte(56, 0x14, 0xC9);
  }

  lemma OnesStart()
    ensures Feed(Crc8.TAPS, ByteBits(0), Ones(0)) == ByteBits(0)
  {
  }

  /** One more byte of ones takes the register from `c` to `after`. */
  lemma OnesByte(n: nat, c: bv8, after: bv8)
    requires Feed(Crc8.TAPS, ByteBits(0), Ones(n)) == ByteBits(c)
    requires after == Crc8.NibbleLookup(0xFF ^ c)
    ensures Feed(Crc8.TAPS, ByteBits(0), Ones(n + 8)) == ByteBits(after)
  {
    Crc8.TapsShape();
    ByteOfOnes();
    hide Feed, ByteBits, Crc8.NibbleLookup, Crc8.TAPS;
    assert Ones(n + 8) == Ones(n) + Ones(8);
    FeedConcat(Crc8.TAPS, ByteBits(0), Ones(n), Ones(8));
    Crc8.TableStep(c, 0xFF);
  }

  lemma ByteOfOnes()
    ensures ByteBits(0xFF) == Ones(8)
  {
  }

  class Sensor {
    const oneWire: OneWire
    const romData: array<bv8>
    const data: array<bv8>

    constructor (oneWire: OneWire, rom: array<bv8>)
      requires rom.Length == 8
      ensures this.oneWire == oneWire && fresh(romData) && fresh(data)
      ensures romData.Length == 8 && data.Length == 9 && romData[..] == rom[..]
    {
      this.oneWire := oneWire;
      romData := new bv8[8];
      data := new bv8[9];
      new;
      for i := 0 to 8
        invariant forall k | 0 <= k < i :: romData[k] == rom[k]
        modifies romData
      {
        romData[i] := rom[i];
      }
    }

    ghost predicate Valid()
      reads this, oneWire.wire
    {
      && romData.Length == 8 && data.Length == 9
      && data != romData && data != oneWire.romNo && romData != oneWire.romNo
      && oneWire.wire.Valid() && ProperDevices(oneWire.wire.devices)
    }

    /** Reset, select, and one function command. */
    method Command(command: bv8) returns (presence: bool)
      requires Valid()
      modifies oneWire.wire
      ensures Valid()
      ensures presence <==> Presence(oneWire.wire.line, old(oneWire.wire.sampled))
      ensures oneWire.wire.Started()
           == old(oneWire.wire.Started())
              + if presence && ObeysFunction(ByteBits(command)) == Converting
                then Addressed(oneWire.wire.devices, Stream(romData[..])) else multiset{}
      ensures presence ==> oneWire.wire.conversions == old(oneWire.wire.Started())
      ensures presence ==>
                oneWire.wire.bus == Only(oneWire.wire.devices, Stream(romData[..]), ObeysFunction(ByteBits(command)))
      ensures old(oneWire.wire.sampled) <= oneWire.wire.sampled
    {
      hide ByteBits, Stream, Slots, Only, ObeysFunction, AllListening, Presence, ProperDevices, Converters, Addressed;
      presence := oneWire.Reset();
      if presence {
        OnlyConverts(oneWire.wire.devices, Stream(romData[..]), ObeysFunction(ByteBits(command)));
        oneWire.Select(romData);
        SelectLeavesOnly(oneWire.wire.devices, Stream(romData[..]));
        oneWire.Write(command);
        CommandReachesOnly(oneWire.wire.devices, Stream(romData[..]), command);
      }
    }

    /** Nine bytes from the selected device are its scratchpad, in order. */
    method ReadScratchpad()
      requires Valid()
      requires oneWire.wire.bus == Only(oneWire.wire.devices, Stream(romData[..]), Sending(0))
      modifies oneWire.wire`bus, data
      ensures Valid()
      ensures Stream(data[..]) == PadOf(oneWire.wire.devices, Stream(romData[..]))
      ensures oneWire.wire.bus == Only(oneWire.wire.devices, Stream(romData[..]), Sending(72))
      ensures oneWire.wire.Started() == old(oneWire.wire.Started())
    {
      hide ByteBits, Stream, Slots, Only, ProperDevices, PadOf, ReadBits, Converters, Addressed;
      ghost var devices, rom := oneWire.wire.devices, Stream(romData[..]);
      OnlyConverts(devices, rom, Sending(0));
      OnlyConverts(devices, rom, Sending(72));
      ghost var pad := PadOf(devices, rom);
      StreamEmpty();
      assert data[..0] == [] && pad[..0] == [];
      for i := 0 to 9
        invariant Valid() && Stream(romData[..]) == rom
        invariant oneWire.wire.bus == Only(devices, rom, Sending(8 * i))
        invariant Stream(data[..i]) == pad[..8 * i]
      {
        var b := oneWire.Read();
        ReadsPad(devices, rom, 8 * i, 8);
        SendingSlots(devices, rom, 8 * i, ReadBits(Only(devices, rom, Sending(8 * i)), 8));
        data[i] := b;
        assert data[..i + 1] == data[..i] + [b];
        StreamSnoc(data[..i], b);
        assert pad[..8 * (i + 1)] == pad[..8 * i] + pad[8 * i..8 * i + 8];
      }
      assert data[..9] == data[..] && pad[..72] == pad;
    }

    /**
      Makes the addressed device, and no other, measure once if the first reset detects a presence; the
      conversion is over, and the scratchpad has been sent, if the second does.
      Succeeds exactly when both do and the scratchpad of the device has a right CRC, and then holds that
      scratchpad.  `resets` gives the sample positions at which the resets started; the
      second is not reached when the first detects nothing.
      */
    method MeasureTemperature() returns (ok: bool, ghost resets: seq<nat>)
      requires Valid()
      modifies oneWire.wire, data
      ensures Valid()
      ensures oneWire.wire.Started()
           == old(oneWire.wire.Started())
              + if |resets| == 2 then Addressed(oneWire.wire.devices, Stream(romData[..])) else multiset{}
      ensures |resets| == 2 && Presence(oneWire.wire.line, resets[1]) ==>
                && oneWire.wire.bus == Only(oneWire.wire.devices, Stream(romData[..]), Sending(72))
                && oneWire.wire.conversions == oneWire.wire.Started()
      ensures 1 <= |resets| <= 2 && resets[0] == old(oneWire.wire.sampled)
      ensures |resets| == 2 <==> Presence(oneWire.wire.line, resets[0])
      ensures ok <==> (forall p | p in resets :: Presence(oneWire.wire.line, p))
                      && PadValid(PadOf(oneWire.wire.devices, Stream(romData[..])))
      ensures ok ==> Stream(data[..]) == PadOf(oneWire.wire.devices, Stream(romData[..]))
      ensures old(oneWire.wire.sampled) <= oneWire.wire.sampled
    {
      hide ByteBits, Stream, Only, ProperDevices, PadOf, ObeysFunction, Presence, Wire.Started, Addressed;
      FunctionCommands();
      resets := [oneWire.wire.sampled];
      var presence := Command(CONVERT);
      if !presence {
        assert resets[0] in resets;
        return false, resets;
      }
      resets := resets + [oneWire.wire.sampled];
      presence := Command(READ_SCRATCHPAD);
      if !presence {
        assert resets[1] in resets;
        return false, resets;
      }
      ReadScratchpad();
      var crc := Crc8.Compute(data, 8);
      LastByteDecides(data[..], crc);
      ok := crc == data[8];
    }
  }

  /** A scratchpad has a right CRC when its last byte is the CRC-8 of the eight before it. */
  lemma PadValidBytes(bytes: seq<bv8>)
    requires |bytes| == 9
    ensures PadValid(Stream(bytes)) <==> ByteBits(bytes[8]) == Crc8.Remainder(bytes[..8])
  {
    assert bytes == bytes[..8] + [bytes[8]];
    StreamSnoc(bytes[..8], bytes[8]);
    hide Stream, ByteBits, Feed;
    assert Stream(bytes)[64..] == ByteBits(bytes[8]) && Stream(bytes)[..64] == Stream(bytes[..8]);
  }

  lemma LastByteDecides(data: seq<bv8>, crc: bv8)
    requires |data| == 9 && ByteBits(crc) == Crc8.Remainder(data[..8])
    ensures crc == data[8] <==> PadValid(Stream(data))
  {
    hide *;
    PadValidBytes(data);
    if ByteBits(crc) == ByteBits(data[8]) {
      ByteBitsInjective(crc, data[8]);
    }
  }
}
