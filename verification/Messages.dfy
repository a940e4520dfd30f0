/**
  The two messages that a device sends over the network, as instances of the stream format.
  */
module Messages {
  import opened Codec
  import opened OutputStreams

  const DISCOVERY_ID: nat := 0x045f0f63
  const TEMPERATURE_ID: nat := 0x3eee0c83

  const BUFFER_SIZE := 512

  const TWO_32: nat := 0x1_0000_0000

  /** The value of a temperature is a float, taken as its four bytes. */
  datatype Message =
    | Discovery(devId: nat)
    | Temperature(sensorId: nat, value: seq<byte>)

  /** The fields are within their widths. */
  predicate Sized(m: Message) {
    match m
    case Discovery(devId) => devId < TWO_32
    case Temperature(sensorId, value) => sensorId < TWO_32 * TWO_32 && |value| == 4
  }

  function Id(m: Message): (id: nat)
    ensures id < TWO_32
  {
    if m.Discovery? then DISCOVERY_ID else TEMPERATURE_ID
  }

  function U64(n: nat): (b: seq<byte>)
    ensures |b| == 8
  {
    U32(n % TWO_32) + U32(n / TWO_32)
  }

  lemma U64Injective(m: nat, n: nat)
    requires m < TWO_32 * TWO_32 && n < TWO_32 * TWO_32 && U64(m) == U64(n)
    ensures m == n
  {
    hide U32;
    assert U64(m)[..4] == U32(m % TWO_32) && U64(n)[..4] == U32(n % TWO_32);
    assert U64(m)[4..] == U32(m / TWO_32) && U64(n)[4..] == U32(n / TWO_32);
    U32Inverse(m % TWO_32);
    U32Inverse(n % TWO_32);
    U32Inverse(m / TWO_32);
    U32Inverse(n / TWO_32);
  }

  function TypeOf(m: Message): Ty {
    if m.Discovery? then Struct([Num(4)]) else Struct([Num(8), Num(4)])
  }

  function ToVal(m: Message): Val {
    match m
    case Discovery(devId) => VStruct([VNum(U32(devId))])
    case Temperature(sensorId, value) => VStruct([VNum(U64(sensorId)), VNum(value)])
  }

  function Packet(m: Message): seq<byte> {
    U32(Id(m)) + Encode(ToVal(m))
  }

  lemma ValOk(m: Message)
    requires Sized(m)
    ensures WellFormed(TypeOf(m)) && Plain(TypeOf(m)) && OfType(TypeOf(m), ToVal(m))
    ensures Encode(ToVal(m)) == if m.Discovery? then U32(m.devId) else U64(m.sensorId) + m.value
  {
    hide U32, U64;
    if m.Discovery? {
      OneField(VNum(U32(m.devId)));
    } else {
      TwoFields(VNum(U64(m.sensorId)), VNum(m.value));
    }
  }

  lemma OneField(v: Val)
    ensures EncodeFields([v]) == Encode(v)
  {
    hide Encode;
    assert [v][1..] == [];
    assert EncodeFields([v]) == Encode(v) + EncodeFields([]);
  }

  lemma TwoFields(v: Val, w: Val)
    ensures EncodeFields([v, w]) == Encode(v) + Encode(w)
  {
    hide Encode;
    OneField(w);
    assert [v, w][1..] == [w];
  }

  /** Puts a message into a buffer: its size, or 0 when it does not fit. */
  method Create(buffer: array<byte>, msg: Message) returns (size: nat)
    requires Sized(msg)
    modifies buffer
    ensures size == if |Packet(msg)| <= buffer.Length then |Packet(msg)| else 0
    ensures Front(Packet(msg), buffer.Length) == buffer[..|Front(Packet(msg), buffer.Length)|]
  {
    hide U32, U64, Encode, OfType, WellFormed;
    ValOk(msg);
    FrontConcat(U32(Id(msg)), Encode(ToVal(msg)), buffer.Length);
    var stream := new ArrayOutputStream(buffer);
    var ok := stream.WriteNum(U32(Id(msg)));
    if ok {
      ok := stream.Write(TypeOf(msg), ToVal(msg));
    }
    size := if ok then stream.wpos else 0;
  }

  /** Both messages fit the standard buffer. */
  lemma PacketFits(m: Message)
    requires Sized(m)
    ensures |Packet(m)| == if m.Discovery? then 8 else 16
    ensures |Packet(m)| <= BUFFER_SIZE
  {
    ValOk(m);
  }

  /** The bytes of a discovery: 0x045f0f63 and the device, both low byte first. */
  lemma DiscoveryBytes(devId: nat)
    requires devId < 0x1_0000_0000
    ensures var b := Packet(Discovery(devId));
            && |b| == 8 && b[..4] == [0x63, 0x0f, 0x5f, 0x04]
            && devId == b[4] as int + 256 * b[5] as int + 65536 * b[6] as int + 16777216 * b[7] as int
  {
    ValOk(Discovery(devId));
    U32Inverse(devId);
    DiscoveryId();
    hide U32, Encode, ToVal;
    var b := Packet(Discovery(devId));
    assert b == U32(DISCOVERY_ID) + U32(devId);
    assert b[4..8] == U32(devId);
    assert forall i | 0 <= i < 4 :: b[4 + i] == b[4..8][i];
  }

  lemma DiscoveryId()
    ensures U32(DISCOVERY_ID) == [0x63, 0x0f, 0x5f, 0x04]
  {
  }

  lemma TemperatureId()
    ensures U32(TEMPERATURE_ID) == [0x83, 0x0c, 0xee, 0x3e]
  {
  }

  /** The bytes of a temperature: 0x3eee0c83, the sensor in eight bytes, low byte first, and the value. */
  lemma TemperatureBytes(sensorId: nat, value: seq<byte>)
    requires sensorId < 0x1_0000_0000 * 0x1_0000_0000 && |value| == 4
    ensures var b := Packet(Temperature(sensorId, value));
            && |b| == 16 && b[..4] == [0x83, 0x0c, 0xee, 0x3e] && b[12..] == value
            && sensorId
            == (b[4] as int + 256 * b[5] as int + 65536 * b[6] as int + 16777216 * b[7] as int)
               + 0x1_0000_0000
                 * (b[8] as int + 256 * b[9] as int + 65536 * b[10] as int + 16777216 * b[11] as int)
  {
    var low, high := sensorId % TWO_32, sensorId / TWO_32;
    ValOk(Temperature(sensorId, value));
    U32Inverse(low);
    U32Inverse(high);
    TemperatureId();
    hide U32, Encode, ToVal;
    var b := Packet(Temperature(sensorId, value));
    assert b == U32(TEMPERATURE_ID) + (U32(low) + U32(high) + value);
    assert b[4..8] == U32(low) && b[8..12] == U32(high);
    assert forall i | 0 <= i < 4 :: b[4 + i] == b[4..8][i] && b[8 + i] == b[8..12][i];
  }

  /** A receiver that reads the identifier and then the message of that type gets the message back. */
  lemma PacketReadsBack(m: Message, rest: seq<byte>)
    requires Sized(m)
    ensures var r := Decode(Num(4), Packet(m) + rest);
            r.Got? && r.value == VNum(U32(Id(m))) && Decode(TypeOf(m), r.rest) == Got(ToVal(m), rest)
  {
    hide U32, U64;
    ValOk(m);
    var e := Encode(ToVal(m));
    assert Packet(m) + rest == U32(Id(m)) + (e + rest);
    NumDecoded(VNum(U32(Id(m))), e + rest);
    PlainReads(TypeOf(m), e + rest, ToVal(m), rest);
  }

  /** Different messages never look alike, whatever follows them. */
  lemma PacketsDiffer(m: Message, n: Message, a: seq<byte>, b: seq<byte>)
    requires Sized(m) && Sized(n) && Packet(m) + a == Packet(n) + b
    ensures m == n && a == b
  {
    hide U32, U64, Decode, Encode;
    PacketReadsBack(m, a);
    PacketReadsBack(n, b);
    U32Inverse(Id(m));
    U32Inverse(Id(n));
    SameVal(m, n);
  }

  lemma SameVal(m: Message, n: Message)
    requires Sized(m) && Sized(n) && m.Discovery? == n.Discovery?
    ensures ToVal(m) == ToVal(n) ==> m == n
  {
    hide U64, U32;
    if ToVal(m) == ToVal(n) {
      assert ToVal(m).fields[0] == ToVal(n).fields[0];
      if m.Discovery? {
        U32Inverse(m.devId);
        U32Inverse(n.devId);
      } else {
        assert ToVal(m).fields[1] == ToVal(n).fields[1];
        U64Injective(m.sensorId, n.sensorId);
      }
    }
  }
}
