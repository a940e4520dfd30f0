/**
  The CRC-8 of the 1-Wire bus, bit by bit and by a 2x16 nibble table.  Both are division by
  x^8 + x^5 + x^4 + 1, and that division detects errors.
  */
module Crc8 {
  import opened Gf2
  import opened ByteStream

  /** x^8 + x^5 + x^4 + 1, without its leading term. */
  const TAPS: Bits := ByteBits(0x8C)

  lemma TapsShape()
    ensures |TAPS| == 8
    ensures forall i {:trigger TAPS[i]} | 0 <= i < 8 :: TAPS[i] == (i == 2 || i == 3 || i == 7)
  {
  }

  /** The remainder that a byte sequence leaves, as register cells. */
  function Remainder(data: seq<bv8>): (r: Bits)
    ensures |r| == 8
  {
    Feed(TAPS, Zeros(8), Stream(data))
  }

  /** One turn of the inner loop: shift right, and feed back the bit that mixes input and register. */
  function BitStep(c: bv8, b: bool): bv8 {
    if (c & 1 != 0) != b then (c >> 1) ^ 0x8C else c >> 1
  }

  lemma BitStepShifts(c: bv8, b: bool)
    ensures ByteBits(BitStep(c, b)) == Shift(TAPS, ByteBits(c), b)
  {
    var moved, mix := ByteBits(c)[1..] + [false], ByteBits(c)[0] != b;
    ByteBitsShift(c);
    ByteBitsXor(c >> 1, 0x8C);
    hide ByteBits;
    assert ByteBits(c)[0] == (c & 1 != 0);
    assert Shift(TAPS, ByteBits(c), b) == Xor(moved, Scale(mix, TAPS));
    if !mix {
      assert Xor(moved, Zeros(8)) == moved;
    }
  }

  lemma MixBit(c: bv8, x: bv8)
    ensures ((c ^ x) & 0x01 != 0) == ((c & 0x01 != 0) != (x & 0x01 != 0))
  {
  }

  /** Shifting register and input together consumes one input bit. */
  lemma InnerStep(c: bv8, x: bv8, i: nat)
    requires 0 < i <= 8
    ensures Feed(TAPS, ByteBits(c), ByteBits(x)[..i])
         == Feed(TAPS, ByteBits(BitStep(c, x & 1 != 0)), ByteBits(x >> 1)[..i - 1])
  {
    hide ByteBits, Feed;
    var s := ByteBits(x);
    ByteBitsShift(x);
    BitStepShifts(c, s[0]);
    InnerStepCells(ByteBits(c), s, ByteBits(x >> 1), i);
  }

  lemma InnerStepCells(c: Bits, s: Bits, moved: Bits, i: nat)
    requires |c| == |s| == 8
    requires moved == s[1..] + [false]
    requires 0 < i <= 8
    ensures Feed(TAPS, c, s[..i]) == Feed(TAPS, Shift(TAPS, c, s[0]), moved[..i - 1])
  {
    hide *;
    TapsShape();
    HeadThenMoved(s, i);
    FeedFront(TAPS, c, s[0], moved[..i - 1]);
  }

  lemma HeadThenMoved(s: Bits, i: nat)
    requires 0 < i <= |s|
    ensures s[..i] == [s[0]] + (s[1..] + [false])[..i - 1]
  {
  }

  /** What one more byte does to the remainder. */
  lemma RemainderSnoc(data: seq<bv8>, b: bv8)
    ensures Remainder(data + [b]) == Feed(TAPS, Remainder(data), ByteBits(b))
  {
    hide ByteBits, Stream;
    StreamSnoc(data, b);
    FeedConcat(TAPS, Zeros(8), Stream(data), ByteBits(b));
  }

  lemma RemainderEmpty()
    ensures ByteBits(0) == Remainder([])
  {
  }

  /** The bitwise CRC-8 leaves the remainder of the data. */
  method Compute(addr: array<bv8>, len: nat) returns (crc: bv8)
    requires len <= addr.Length
    ensures ByteBits(crc) == Remainder(addr[..len])
  {
    hide ByteBits, Remainder, Feed;
    crc := 0;
    RemainderEmpty();
    var k := 0;
    while k < len
      invariant k <= len
      invariant ByteBits(crc) == Remainder(addr[..k])
    {
      var inbyte := addr[k];
      assert ByteBits(inbyte)[..8] == ByteBits(inbyte);
      ghost var goal := Feed(TAPS, ByteBits(crc), ByteBits(inbyte));
      var i := 8;
      while i != 0
        invariant 0 <= i <= 8
        invariant Feed(TAPS, ByteBits(crc), ByteBits(inbyte)[..i]) == goal
      {
        var mix := (crc ^ inbyte) & 0x01;
        MixBit(crc, inbyte);
        InnerStep(crc, inbyte, i);
        crc := crc >> 1;
        if mix != 0 {
          crc := crc ^ 0x8C;
        }
        inbyte := inbyte >> 1;
        i := i - 1;
      }
      FeedNothing(ByteBits(crc), ByteBits(inbyte)[..0]);
      assert addr[..k + 1] == addr[..k] + [addr[k]];
      RemainderSnoc(addr[..k], addr[k]);
      k := k + 1;
    }
  }

  lemma FeedNothing(c: Bits, none: Bits)
    requires |c| == 8 && none == []
    ensures Feed(TAPS, c, none) == c
  {
  }

  /** Two rows of sixteen entries, one for each nibble. */
  const TABLE: seq<bv8> := [
    0x00, 0x5E, 0xBC, 0xE2, 0x61, 0x3F, 0xDD, 0x83,
    0xC2, 0x9C, 0x7E, 0x20, 0xA3, 0xFD, 0x1F, 0x41
  ] + [
    0x00, 0x9D, 0x23, 0xBE, 0x46, 0xDB, 0x65, 0xF8,
    0x8C, 0x11, 0xAF, 0x32, 0xCA, 0x57, 0xE9, 0x74
  ]

  function Step(c: bv8): bv8 {
    BitStep(c, false)
  }

  lemma StepShifts(c: bv8)
    ensures ByteBits(Step(c)) == Shift(TAPS, ByteBits(c), false)
  {
    BitStepShifts(c, false);
  }

  /** Eight steps without input. */
  function ByteStep(c: bv8): bv8 {
    Step(Step(Step(Step(Step(Step(Step(Step(c))))))))
  }

  lemma LowNibble(n: bv8)
    requires n < 16
    ensures TABLE[n as nat] == ByteStep(n)
  {
    if n < 8 {
      LowNibbleLow(n);
    } else {
      LowNibbleHigh(n);
    }
  }

  lemma LowNibbleLow(n: bv8)
    requires n < 8
    ensures TABLE[n as nat] == ByteStep(n)
  {
    if n == 0 {} else if n == 1 {} else if n == 2 {} else if n == 3 {}
    else if n == 4 {} else if n == 5 {} else if n == 6 {} else { assert n == 7; }
  }

  lemma LowNibbleHigh(n: bv8)
    requires 8 <= n < 16
    ensures TABLE[n as nat] == ByteStep(n)
  {
    if n == 8 {} else if n == 9 {} else if n == 10 {} else if n == 11 {}
    else if n == 12 {} else if n == 13 {} else if n == 14 {} else { assert n == 15; }
  }

  lemma HighNibble(n: bv8)
    requires n < 16
    ensures TABLE[16 + n as nat] == ByteStep(n << 4)
  {
    if n < 4 {
      if n == 0 {} else if n == 1 {} else if n == 2 {} else { assert n == 3; }
    } else if n < 8 {
      if n == 4 {} else if n == 5 {} else if n == 6 {} else { assert n == 7; }
    } else if n < 12 {
      if n == 8 {} else if n == 9 {} else if n == 10 {} else { assert n == 11; }
    } else {
      if n == 12 {} else if n == 13 {} else if n == 14 {} else { assert n == 15; }
    }
  }

  function Steps(c: bv8, k: nat): bv8 {
    if k == 0 then c else Step(Steps(c, k - 1))
  }

  lemma {:induction false} StepsFeed(c: bv8, k: nat)
    ensures ByteBits(Steps(c, k)) == Feed(TAPS, ByteBits(c), Zeros(k))
  {
    hide ByteBits, Step;
    if k > 0 {
      StepsFeed(c, k - 1);
      StepShifts(Steps(c, k - 1));
      assert Zeros(k)[..k - 1] == Zeros(k - 1);
    }
  }

  lemma ByteStepIsSteps(c: bv8)
    ensures Steps(c, 8) == ByteStep(c)
  {
    hide Step;
    assert Steps(c, 1) == Step(Steps(c, 0));
    assert Steps(c, 2) == Step(Steps(c, 1));
    assert Steps(c, 4) == Step(Step(Steps(c, 2)));
    assert Steps(c, 6) == Step(Step(Steps(c, 4)));
  }

  lemma ByteStepFeeds(c: bv8)
    ensures ByteBits(ByteStep(c)) == Feed(TAPS, ByteBits(c), Zeros(8))
  {
    hide *;
    ByteStepIsSteps(c);
    StepsFeed(c, 8);
  }

  lemma TableShape()
    ensures |TABLE| == 32
  {
  }

  /** The two table entries that a register selects, added. */
  function NibbleLookup(x: bv8): bv8 {
    TABLE[(x & 0x0f) as nat] ^ TABLE[16 + ((x >> 4) & 0x0f) as nat]
  }

  /** The register splits into its two nibbles, and the table holds what each becomes after eight steps. */
  lemma NibbleLookupFeeds(x: bv8)
    ensures ByteBits(NibbleLookup(x)) == Feed(TAPS, ByteBits(x), Zeros(8))
  {
    hide ByteBits, TABLE, Feed, ByteStep, Xor;
    TableShape();
    TapsShape();
    var lo, hi := x & 0x0f, (x >> 4) & 0x0f;
    var l, h := ByteStep(lo), ByteStep(hi << 4);
    LowNibble(lo);
    HighNibble(hi);
    ByteBitsXor(l, h);
    ByteStepFeeds(lo);
    ByteStepFeeds(hi << 4);
    FeedLinear(TAPS, ByteBits(lo), ByteBits(hi << 4), Zeros(8), Zeros(8));
    XorSelf(Zeros(8));
    ByteBitsXor(lo, hi << 4);
    Nibbles(x);
  }

  lemma Nibbles(c: bv8)
    ensures (c & 0x0f) ^ (((c >> 4) & 0x0f) << 4) == c
  {
  }

  /** One byte by table: added to the register first, then eight steps at once. */
  lemma TableStep(c: bv8, b: bv8)
    ensures ByteBits(NibbleLookup(b ^ c)) == Feed(TAPS, ByteBits(c), ByteBits(b))
  {
    hide *;
    TapsShape();
    NibbleLookupFeeds(b ^ c);
    ByteBitsXor(b, c);
    FeedAbsorbs(TAPS, ByteBits(c), ByteBits(b));
    assert ByteBits(b) + Zeros(0) == ByteBits(b);
    XorCommutes(ByteBits(b), ByteBits(c));
  }

  /** The nibble-table CRC-8 leaves the same remainder as the bitwise one. */
  method ComputeByTable(addr: array<bv8>, len: nat) returns (crc: bv8)
    requires len <= addr.Length
    ensures ByteBits(crc) == Remainder(addr[..len])
  {
    hide *;
    crc := 0;
    RemainderEmpty();
    assert addr[..0] == [];
    var k := 0;
    while k < len
      invariant k <= len
      invariant ByteBits(crc) == Remainder(addr[..k])
    {
      TableStep(crc, addr[k]);
      crc := addr[k] ^ crc;
      crc := NibbleLookup(crc);
      assert addr[..k + 1] == addr[..k] + [addr[k]];
      RemainderSnoc(addr[..k], addr[k]);
      k := k + 1;
    }
  }

  /** The two versions of the loop return the same byte on the same data. */
  method SameCrc(addr: array<bv8>, len: nat) returns (bitwise: bv8, byTable: bv8)
    requires len <= addr.Length
    ensures bitwise == byTable && ByteBits(bitwise) == Remainder(addr[..len])
  {
    bitwise := Compute(addr, len);
    byTable := ComputeByTable(addr, len);
    ByteBitsInjective(bitwise, byTable);
  }

  /** Message times x^8, plus the CRC, is a multiple of the generator, and no other byte makes it one. */
  lemma IsRemainder(data: seq<bv8>, crc: bv8)
    ensures ByteBits(crc) == Remainder(data)
       <==> exists q: Bits :: |q| == 8 * |data| && Dividend(Stream(data), ByteBits(crc)) == Product(q, TAPS)
  {
    if ByteBits(crc) == Remainder(data) {
      RegisterDivides(TAPS, Stream(data));
    }
    if q: Bits :| |q| == 8 * |data| && Dividend(Stream(data), ByteBits(crc)) == Product(q, TAPS) {
      DivisionUnique(TAPS, Stream(data), q, ByteBits(crc));
    }
  }

  /** A byte frame whose last byte is the CRC-8 of the bytes before it. */
  predicate ValidFrame(frame: seq<bv8>) {
    frame != [] && ByteBits(frame[|frame| - 1]) == Remainder(frame[..|frame| - 1])
  }

  lemma NonemptyFrame(frame: seq<bv8>)
    requires ValidFrame(frame)
    ensures frame != []
  {
  }

  /** Feeding a frame to the register tells whether its CRC is right. */
  lemma ValidFrameDivides(frame: seq<bv8>)
    requires frame != []
    ensures ValidFrame(frame) <==> Feed(TAPS, Zeros(8), Stream(frame)) == Zeros(8)
  {
    TapsShape();
    hide ByteBits, Feed, TAPS;
    var k := |frame| - 1;
    var check := ByteBits(frame[k]);
    FeedConcat(TAPS, Zeros(8), Stream(frame[..k]), check);
    FeedToZero(TAPS, Remainder(frame[..k]), check);
    assert check + Zeros(0) == check;
  }

  /** No error confined to eight consecutive bits turns one valid frame into another. */
  lemma DetectsBursts(x: seq<bv8>, y: seq<bv8>, at: nat)
    requires |x| == |y|
    requires ValidFrame(x) && ValidFrame(y)
    requires forall i | 0 <= i < 8 * |x| && !(at <= i < at + 8) :: Stream(x)[i] == Stream(y)[i]
    ensures x == y
  {
    TapsShape();
    hide *;
    NonemptyFrame(x);
    ValidFrameDivides(x);
    ValidFrameDivides(y);
    BurstDetected(TAPS, Zeros(8), Stream(x), Stream(y), at);
    StreamInjective(x, y);
  }

  /** No error in an odd number of bits turns one valid frame into another. */
  lemma DetectsOddErrors(x: seq<bv8>, y: seq<bv8>)
    requires |x| == |y|
    requires ValidFrame(x) && ValidFrame(y)
    ensures Weight(Xor(Stream(x), Stream(y))) % 2 == 0
  {
    TapsShape();
    TapsOdd();
    hide *;
    NonemptyFrame(x);
    ValidFrameDivides(x);
    ValidFrameDivides(y);
    OddErrorDetected(TAPS, Zeros(8), Stream(x), Stream(y));
  }

  lemma TapsOdd()
    ensures Odd(TAPS)
  {
    TapsShape();
    hide TAPS;
    WeightTail(TAPS);
    WeightTail(TAPS[1..]);
    WeightTail(TAPS[2..]);
    WeightTail(TAPS[3..]);
    WeightTail(TAPS[4..]);
    WeightTail(TAPS[5..]);
    WeightTail(TAPS[6..]);
    WeightTail(TAPS[7..]);
  }
}
