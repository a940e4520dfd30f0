/** The 1-Wire bus as a value: all devices together, slot by slot. */
module OneWireBus {
  import opened Gf2
  import opened RomSearch
  import opened Slaves

  /** The devices on the bus and what each is doing. */
  type Bus = map<Device, Slave>

  /** The wire in a read slot: low as soon as one device pulls it low. */
  predicate Level(bus: Bus) {
    forall d | d in bus :: Drives(d, bus[d])
  }

  /** The devices that are measuring a temperature. */
  function Converters(bus: Bus): (busy: set<Device>)
    ensures forall d :: d in busy <==> d in bus && bus[d] == Converting
  {
    set d | d in bus && bus[d] == Converting
  }

  /** All devices take the same slot. */
  function Slot(bus: Bus, b: bool): (after: Bus)
    ensures after.Keys == bus.Keys
  {
    map d | d in bus :: Hears(d, bus[d], b)
  }

  function Slots(bus: Bus, bits: Bits): (after: Bus)
    ensures after.Keys == bus.Keys
  {
    map d | d in bus :: HearsAll(d, bus[d], bits)
  }

  function AllListening(devices: set<Device>): (bus: Bus)
    ensures bus.Keys == devices
  {
    map d | d in devices :: RomCommand([])
  }

  lemma SlotsSnoc(bus: Bus, bits: Bits, b: bool)
    ensures Slots(bus, bits + [b]) == Slot(Slots(bus, bits), b)
  {
    hide Hears, HearsAll;
    forall d | d in bus
      ensures Slots(bus, bits + [b])[d] == Slot(Slots(bus, bits), b)[d]
    {
      HearsSnoc(d, bus[d], bits, b);
    }
  }

  lemma SlotsConcat(bus: Bus, a: Bits, b: Bits)
    ensures Slots(bus, a + b) == Slots(Slots(bus, a), b)
  {
    hide HearsAll;
    forall d | d in bus
      ensures Slots(bus, a + b)[d] == Slots(Slots(bus, a), b)[d]
    {
      HearsConcat(d, bus[d], a, b);
    }
  }

  lemma SlotsNone(bus: Bus)
    ensures Slots(bus, []) == bus
  {
  }

  /** The bits that `n` read slots return, and the bus after them. */
  function ReadBits(bus: Bus, n: nat): (bits: Bits)
    ensures |bits| == n
  {
    if n == 0 then [] else ReadBits(bus, n - 1) + [Level(Slots(bus, ReadBits(bus, n - 1)))]
  }
}
