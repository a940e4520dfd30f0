/** The CRC-16 of the 1-Wire bus, by parity, as division by x^16 + x^15 + x^2 + 1. */
module Crc16 {
  import opened Gf2
  import opened ByteStream

  /** The single-bit masks of a word. */
  function WordMask(i: nat): (m: bv16)
    requires i < 16
  {
    if i < 8 then Mask(i) as bv16 else (Mask(i - 8) as bv16) << 8
  }

  function WordBit(w: bv16, i: nat): bool
    requires i < 16
  {
    w & WordMask(i) != 0
  }

  function WordBits(w: bv16): (s: Bits)
    ensures |s| == 16
    ensures forall i {:trigger s[i]} | 0 <= i < 16 :: s[i] == WordBit(w, i)
  {
    seq(16, i requires 0 <= i < 16 => WordBit(w, i))
  }

  lemma WordBitsXor(a: bv16, b: bv16)
    ensures WordBits(a ^ b) == Xor(WordBits(a), WordBits(b))
  {
    hide WordBit, WordBits;
    forall i | 0 <= i < 16
      ensures WordBit(a ^ b, i) == (WordBit(a, i) != WordBit(b, i))
    {
      WordBitXor(a, b, i);
    }
  }

  lemma WordBitXor(a: bv16, b: bv16, i: nat)
    requires i < 16
    ensures WordBit(a ^ b, i) == (WordBit(a, i) != WordBit(b, i))
  {
    var m := WordMask(i);
    assert m & (m - 1) == 0;
    WordMaskXor(a, b, m);
  }

  lemma WordMaskXor(a: bv16, b: bv16, m: bv16)
    requires m != 0 && m & (m - 1) == 0
    ensures ((a ^ b) & m != 0) == ((a & m != 0) != (b & m != 0))
  {
  }

  lemma WordBitsShift(w: bv16)
    ensures WordBits(w >> 1) == WordBits(w)[1..] + [false]
  {
    hide WordBit, WordBits;
    forall i {:trigger WordBit(w >> 1, i)} | 0 <= i < 16
      ensures WordBit(w >> 1, i) == (i < 15 && WordBit(w, i + 1))
    {
      WordBitShift(w, i);
    }
  }

  lemma WordBitShift(w: bv16, i: nat)
    requires i < 16
    ensures WordBit(w >> 1, i) == (i < 15 && WordBit(w, i + 1))
  {
  }

  /** x^16 + x^15 + x^2 + 1, without its leading term. */
  const TAPS: Bits := WordBits(0xA001)

  lemma TapsShape()
    ensures |TAPS| == 16
    ensures forall i {:trigger TAPS[i]} | 0 <= i < 16 :: TAPS[i] == (i == 0 || i == 13 || i == 15)
  {
  }

  /** The remainder that a byte sequence leaves in a register that starts at `init`. */
  function Remainder(init: bv16, data: seq<bv8>): (r: Bits)
    ensures |r| == 16
  {
    Feed(TAPS, WordBits(init), Stream(data))
  }

  /** One step of reflected division by 0xA001. */
  function Step(c: bv16): bv16 {
    if c & 1 != 0 then (c >> 1) ^ 0xA001 else c >> 1
  }

  lemma StepShifts(c: bv16)
    ensures WordBits(Step(c)) == Shift(TAPS, WordBits(c), false)
  {
    var moved, mix := WordBits(c)[1..] + [false], WordBits(c)[0];
    WordBitsShift(c);
    WordBitsXor(c >> 1, 0xA001);
    hide WordBits;
    assert WordBits(c)[0] == (c & 1 != 0);
    assert Shift(TAPS, WordBits(c), false) == Xor(moved, Scale(mix, TAPS));
    if !mix {
      assert Xor(moved, Zeros(16)) == moved;
    }
  }

  /** Eight steps without input. */
  function ByteStep(c: bv16): bv16 {
    Step(Step(Step(Step(Step(Step(Step(Step(c))))))))
  }

  function Steps(c: bv16, k: nat): bv16 {
    if k == 0 then c else Step(Steps(c, k - 1))
  }

  lemma {:induction false} StepsFeed(c: bv16, k: nat)
    ensures WordBits(Steps(c, k)) == Feed(TAPS, WordBits(c), Zeros(k))
  {
    hide WordBits, Step;
    if k > 0 {
      StepsFeed(c, k - 1);
      StepShifts(Steps(c, k - 1));
      assert Zeros(k)[..k - 1] == Zeros(k - 1);
    }
  }

  lemma EightSteps(c: bv16, k: nat)
    ensures Steps(c, k + 8) == ByteStep(Steps(c, k))
  {
    hide Step;
    assert Steps(c, k + 2) == Step(Step(Steps(c, k)));
    assert Steps(c, k + 4) == Step(Step(Steps(c, k + 2)));
    assert Steps(c, k + 6) == Step(Step(Steps(c, k + 4)));
  }

  const ODD_PARITY: seq<bv8> := [0, 1, 1, 0, 1, 0, 0, 1, 1, 0, 0, 1, 0, 1, 1, 0]

  /** The table holds the parity of each nibble. */
  lemma NibbleParity(n: bv16)
    requires n < 16
    ensures ODD_PARITY[n as nat] == ((n ^ (n >> 1) ^ (n >> 2) ^ (n >> 3)) & 1) as bv8
  {
    if n < 8 {
      if n == 0 {} else if n == 1 {} else if n == 2 {} else if n == 3 {}
      else if n == 4 {} else if n == 5 {} else if n == 6 {} else { assert n == 7; }
    } else {
      if n == 8 {} else if n == 9 {} else if n == 10 {} else if n == 11 {}
      else if n == 12 {} else if n == 13 {} else if n == 14 {} else { assert n == 15; }
    }
  }

  function Parity(d: bv16): bv16 {
    (d ^ (d >> 1) ^ (d >> 2) ^ (d >> 3) ^ (d >> 4) ^ (d >> 5) ^ (d >> 6) ^ (d >> 7)) & 1
  }

  lemma ByteParity(d: bv16)
    requires d < 256
    ensures d & 0x0F < 16 && d >> 4 < 16
    ensures (ODD_PARITY[(d & 0x0F) as nat] ^ ODD_PARITY[(d >> 4) as nat] != 0) <==> Parity(d) != 0
  {
    NibbleParity(d & 0x0F);
    NibbleParity(d >> 4);
    var lo, hi := d & 0x0F, d >> 4;
    assert (lo ^ (lo >> 1) ^ (lo >> 2) ^ (lo >> 3) ^ hi ^ (hi >> 1) ^ (hi >> 2) ^ (hi >> 3)) & 1 == Parity(d);
  }

  /** The sum of two polynomials. */
  function Add(a: bv16, b: bv16): bv16 {
    a ^ b
  }

  lemma AddBits(a: bv16, b: bv16)
    ensures WordBits(Add(a, b)) == Xor(WordBits(a), WordBits(b))
  {
    WordBitsXor(a, b);
  }

  /** Division steps are linear. */
  lemma StepsAdd(a: bv16, b: bv16, k: nat)
    ensures Steps(Add(a, b), k) == Add(Steps(a, k), Steps(b, k))
  {
    TapsShape();
    hide *;
    AddBits(a, b);
    AddBits(Steps(a, k), Steps(b, k));
    StepsFeed(a, k);
    StepsFeed(b, k);
    StepsFeed(Add(a, b), k);
    FeedLinear(TAPS, WordBits(a), WordBits(b), Zeros(k), Zeros(k));
    XorSelf(Zeros(k));
    WordBitsInjective(Steps(Add(a, b), k), Add(Steps(a, k), Steps(b, k)));
  }

  lemma HighByteMoves(h: bv16, high: bv16)
    requires h < 256 && high == h << 8
    ensures ByteStep(high) == h
  {
  }

  lemma LowByteFolds(d: bv16, fold: bv16)
    requires d < 256 && fold == (d << 6) ^ ((d << 6) << 1)
    ensures ByteStep(d) == Add(if Parity(d) != 0 then 0xC001 else 0, fold)
  {
  }

  lemma Halves(x: bv16, h: bv16, d: bv16, high: bv16)
    requires h == x >> 8 && d == x & 0xff && high == h << 8
    ensures h < 256 && d < 256 && x == Add(high, d)
  {
  }

  /** What the program makes of the high byte, the parity and the two shifted copies. */
  function Folded(h: bv16, p: bool, s: bv16, t: bv16): bv16 {
    (if p then h ^ 0xC001 else h) ^ s ^ t
  }

  lemma StepsOfSum(x: bv16, high: bv16, d: bv16)
    requires x == Add(high, d)
    ensures ByteStep(x) == Add(ByteStep(high), ByteStep(d))
  {
    hide *;
    StepsAdd(high, d, 8);
    StepsOfEight(x);
    StepsOfEight(high);
    StepsOfEight(d);
  }

  /** Eight division steps collapse: the low byte `d` leaves its parity and two shifted copies of itself. */
  lemma ParityTrick(x: bv16, h: bv16, d: bv16)
    requires h == x >> 8 && d == x & 0xff
    ensures ByteStep(x) == Folded(h, Parity(d) != 0, d << 6, (d << 6) << 1)
  {
    hide *;
    var s, t := d << 6, (d << 6) << 1;
    Halves(x, h, d, h << 8);
    HighByteMoves(h, h << 8);
    LowByteFolds(d, s ^ t);
    StepsOfSum(x, h << 8, d);
    Regroup(h, Parity(d) != 0, s, t);
  }

  lemma Regroup(h: bv16, p: bool, s: bv16, t: bv16)
    ensures Add(h, Add(if p then 0xC001 else 0, s ^ t)) == Folded(h, p, s, t)
  {
    if p {
      RegroupWith(h, 0xC001, s, t);
    } else {
      RegroupWith(h, 0, s, t);
    }
  }

  lemma RegroupWith(h: bv16, c: bv16, s: bv16, t: bv16)
    ensures Add(h, Add(c, s ^ t)) == h ^ c ^ s ^ t
  {
  }

  lemma StepsOfEight(c: bv16)
    ensures Steps(c, 8) == ByteStep(c)
  {
    hide ByteStep;
    EightSteps(c, 0);
  }

  function Widen(b: bv8): bv16 {
    b as bv16
  }

  lemma AddByte(c: bv16, b: bv8)
    ensures WordBits(Widen(b) ^ c) == Xor(WordBits(c), ByteBits(b) + Zeros(8))
  {
    hide WordBits, ByteBits, Xor, Widen;
    WordBitsXor(Widen(b), c);
    WidenedBits(b);
    XorCommutes(WordBits(Widen(b)), WordBits(c));
  }

  lemma WidenedBits(b: bv8)
    ensures WordBits(Widen(b)) == ByteBits(b) + Zeros(8)
  {
    hide *;
    forall i | 0 <= i < 16
      ensures WordBits(Widen(b))[i] == (ByteBits(b) + Zeros(8))[i]
    {
      WidenedBit(b, i);
    }
  }

  lemma WidenedBit(b: bv8, i: nat)
    requires i < 16
    ensures WordBit(Widen(b), i) == (i < 8 && ByteBit(b, i))
  {
  }

  /** Feeding a byte is adding it to the low byte of the register and taking eight steps. */
  lemma FeedByte(c: bv16, b: bv8)
    ensures Feed(TAPS, WordBits(c), ByteBits(b)) == WordBits(ByteStep(Widen(b) ^ c))
  {
    hide *;
    TapsShape();
    FeedAbsorbs(TAPS, WordBits(c), ByteBits(b));
    AddByte(c, b);
    ByteStepFeeds(Widen(b) ^ c);
  }

  lemma ByteStepFeeds(c: bv16)
    ensures WordBits(ByteStep(c)) == Feed(TAPS, WordBits(c), Zeros(8))
  {
    hide WordBits, ByteStep, Feed;
    EightSteps(c, 0);
    StepsFeed(c, 8);
  }

  lemma RemainderSnoc(init: bv16, data: seq<bv8>, b: bv8)
    ensures Remainder(init, data + [b]) == Feed(TAPS, Remainder(init, data), ByteBits(b))
  {
    hide ByteBits, WordBits, Stream;
    StreamSnoc(data, b);
    FeedConcat(TAPS, WordBits(init), Stream(data), ByteBits(b));
  }

  lemma RemainderEmpty(init: bv16)
    ensures Remainder(init, []) == WordBits(init)
  {
  }

  /** The parity form of one byte is a byte of the division. */
  lemma ParityStep(c: bv16, b: bv8, h: bv16, d: bv16)
    requires h == c >> 8 && d == (Widen(b) ^ c) & 0xff
    ensures Feed(TAPS, WordBits(c), ByteBits(b))
         == WordBits(Folded(h, Parity(d) != 0, d << 6, (d << 6) << 1))
  {
    hide *;
    FeedByte(c, b);
    HighByteKept(c, b);
    ParityTrick(Widen(b) ^ c, h, d);
  }

  lemma HighByteKept(c: bv16, b: bv8)
    ensures (Widen(b) ^ c) >> 8 == c >> 8
  {
  }

  lemma LowByteSmall(x: bv16)
    ensures x & 0xff < 256
  {
  }

  /** The parity CRC-16 leaves the remainder of division by the generator. */
  method Compute(input: array<bv8>, len: nat, init: bv16) returns (crc: bv16)
    requires len <= input.Length
    ensures WordBits(crc) == Remainder(init, input[..len])
  {
    hide *;
    crc := init;
    RemainderEmpty(init);
    assert input[..0] == [];
    for i := 0 to len
      invariant WordBits(crc) == Remainder(init, input[..i])
    {
      var cdata := Widen(input[i]);
      cdata := (cdata ^ crc) & 0xff;
      ParityStep(crc, input[i], crc >> 8, cdata);
      LowByteSmall(Widen(input[i]) ^ crc);
      FoldedIs(crc >> 8, Parity(cdata) != 0, cdata << 6, (cdata << 6) << 1);
      crc := crc >> 8;
      if IsOddParity(cdata) {
        crc := crc ^ 0xC001;
      }
      cdata := cdata << 6;
      crc := crc ^ cdata;
      cdata := cdata << 1;
      crc := crc ^ cdata;
      assert input[..i + 1] == input[..i] + [input[i]];
      RemainderSnoc(init, input[..i], input[i]);
    }
  }

  lemma FoldedIs(h: bv16, p: bool, s: bv16, t: bv16)
    ensures Folded(h, p, s, t) == ((if p then h ^ 0xC001 else h) ^ s) ^ t
  {
  }

  /** The parity of a byte, from the table of nibble parities. */
  function IsOddParity(d: bv16): (odd: bool)
    requires d < 256
    ensures odd <==> Parity(d) != 0
  {
    ByteParity(d);
    ODD_PARITY[(d & 0x0F) as nat] ^ ODD_PARITY[(d >> 4) as nat] != 0
  }

  // ----- composition, and the check of a received CRC

  /** The CRC of a concatenation is the CRC of its second part, started from the CRC of its first. */
  lemma Composes(init: bv16, a: seq<bv8>, b: seq<bv8>, mid: bv16)
    requires WordBits(mid) == Remainder(init, a)
    ensures Remainder(init, a + b) == Remainder(mid, b)
  {
    TapsShape();
    hide WordBits, Stream, Feed, TAPS;
    StreamConcat(a, b);
    FeedConcat(TAPS, WordBits(init), Stream(a), Stream(b));
  }

  function Not(a: Bits): (c: Bits)
    ensures |c| == |a|
    ensures forall i {:trigger c[i]} | 0 <= i < |a| :: c[i] == !a[i]
  {
    seq(|a|, i requires 0 <= i < |a| => !a[i])
  }

  lemma WordBitsNot(w: bv16)
    ensures WordBits(!w) == Not(WordBits(w))
  {
    hide WordBit, WordBits, Not;
    forall i | 0 <= i < 16
      ensures WordBit(!w, i) == !WordBit(w, i)
    {
      WordBitNot(w, i);
    }
  }

  lemma WordBitNot(w: bv16, i: nat)
    requires i < 16
    ensures WordBit(!w, i) == !WordBit(w, i)
  {
    var m := WordMask(i);
    assert m & (m - 1) == 0;
    WordMaskNot(w, m);
  }

  lemma WordMaskNot(w: bv16, m: bv16)
    requires m != 0 && m & (m - 1) == 0
    ensures (!w & m != 0) == (w & m == 0)
  {
  }

  lemma WordBitsInjective(a: bv16, b: bv16)
    requires WordBits(a) == WordBits(b)
    ensures a == b
  {
    hide WordBits;
    forall i | 0 <= i < 16
      ensures WordBit(a, i) == WordBit(b, i)
    {
      assert WordBits(a)[i] == WordBits(b)[i];
    }
    WordBitInjective(a, b);
  }

  lemma WordBitInjective(a: bv16, b: bv16)
    requires forall i | 0 <= i < 16 :: WordBit(a, i) == WordBit(b, i)
    ensures a == b
  {
    if a != b {
      var i := DifferingBit(a ^ b);
      WordBitXor(a, b, i);
    }
  }

  lemma DifferingBit(x: bv16) returns (i: nat)
    requires x != 0
    ensures i < 16 && WordBit(x, i)
  {
    if x & 0xFF != 0 {
      i := if x & 0x01 != 0 then 0 else if x & 0x02 != 0 then 1
      else if x & 0x04 != 0 then 2 else if x & 0x08 != 0 then 3
      else if x & 0x10 != 0 then 4 else if x & 0x20 != 0 then 5 else if x & 0x40 != 0 then 6 else 7;
    } else {
      i := if x & 0x0100 != 0 then 8 else if x & 0x0200 != 0 then 9
      else if x & 0x0400 != 0 then 10 else if x & 0x0800 != 0 then 11
      else if x & 0x1000 != 0 then 12 else if x & 0x2000 != 0 then 13
      else if x & 0x4000 != 0 then 14 else 15;
    }
  }

  function Join(low: bv8, high: bv8): bv16 {
    (Widen(high) << 8) | Widen(low)
  }

  lemma JoinSplits(w: bv16, low: bv8, high: bv8)
    ensures (w & 0xFF == Widen(low) && w >> 8 == Widen(high)) <==> w == Join(low, high)
  {
    HalvesOf(w, Widen(low), Widen(high));
  }

  lemma HalvesOf(w: bv16, l: bv16, h: bv16)
    requires l < 256 && h < 256
    ensures (w & 0xFF == l && w >> 8 == h) <==> w == (h << 8) | l
  {
  }

  /** A word and its two bytes, low byte first. */
  lemma TwoBytes(w: bv16, low: bv8, high: bv8)
    ensures (w & 0xFF == Widen(low) && w >> 8 == Widen(high)) <==> WordBits(w) == ByteBits(low) + ByteBits(high)
  {
    hide *;
    JoinSplits(w, low, high);
    forall i | 0 <= i < 16
      ensures WordBits(Join(low, high))[i] == (ByteBits(low) + ByteBits(high))[i]
    {
      JoinedBit(low, high, i);
    }
    if WordBits(w) == WordBits(Join(low, high)) {
      WordBitsInjective(w, Join(low, high));
    }
  }

  lemma JoinedBit(low: bv8, high: bv8, i: nat)
    requires i < 16
    ensures WordBit(Join(low, high), i) == if i < 8 then ByteBit(low, i) else ByteBit(high, i - 8)
  {
  }

  /** Accepts exactly the two bytes of the complemented CRC, low byte first. */
  method Check(input: array<bv8>, len: nat, inverted: array<bv8>, init: bv16) returns (ok: bool)
    requires len <= input.Length && 2 <= inverted.Length
    ensures ok <==> ByteBits(inverted[0]) + ByteBits(inverted[1]) == Not(Remainder(init, input[..len]))
  {
    hide *;
    var crc := Compute(input, len, init);
    WordBitsNot(crc);
    crc := !crc;
    TwoBytes(crc, inverted[0], inverted[1]);
    ok := crc & 0xFF == Widen(inverted[0]) && crc >> 8 == Widen(inverted[1]);
  }

  /** A frame that `Check` accepts: data, then the complemented CRC. */
  predicate ValidFrame(init: bv16, frame: seq<bv8>) {
    |frame| >= 2 && Stream(frame[|frame| - 2..]) == Not(Remainder(init, frame[..|frame| - 2]))
  }

  /** What every valid frame, and no other, leaves in the register: the constant 0xB001. */
  lemma ValidFrameResidue(init: bv16, frame: seq<bv8>)
    requires |frame| >= 2
    ensures ValidFrame(init, frame) <==> Remainder(init, frame) == WordBits(0xB001)
  {
    TapsShape();
    hide WordBits, Stream, Feed, TAPS;
    var k := |frame| - 2;
    var r, check := Remainder(init, frame[..k]), Stream(frame[k..]);
    var ones := WordBits(0xFFFF);
    StreamConcat(frame[..k], frame[k..]);
    assert frame == frame[..k] + frame[k..];
    FeedConcat(TAPS, WordBits(init), Stream(frame[..k]), check);
    FeedAbsorbs(TAPS, r, check);
    assert check + Zeros(0) == check;
    Residue();
    AllOnes();
    if check == Not(r) {
      assert Xor(r, check) == ones;
    }
    if Remainder(init, frame) == WordBits(0xB001) {
      FeedInjective(TAPS, Xor(r, check), ones, Zeros(16));
      ComplementOf(r, check);
    }
  }

  lemma ComplementOf(r: Bits, check: Bits)
    requires |r| == |check| == 16
    requires forall i | 0 <= i < 16 :: Xor(r, check)[i]
    ensures check == Not(r)
  {
    forall i | 0 <= i < 16
      ensures check[i] == Not(r)[i]
    {
      assert Xor(r, check)[i];
    }
  }

  lemma AllOnes()
    ensures forall i {:trigger WordBits(0xFFFF)[i]} | 0 <= i < 16 :: WordBits(0xFFFF)[i]
  {
  }

  lemma Residue()
    ensures Feed(TAPS, WordBits(0xFFFF), Zeros(16)) == WordBits(0xB001)
  {
    assert ByteStep(0xFFFF) == 0x40BF && ByteStep(0x40BF) == 0xB001;
    EightSteps(0xFFFF, 0);
    EightSteps(0xFFFF, 8);
    hide WordBits, Feed, TAPS, ByteStep;
    StepsFeed(0xFFFF, 16);
  }

  /** No error confined to sixteen consecutive bits turns one valid frame into another. */
  lemma DetectsBursts(init: bv16, x: seq<bv8>, y: seq<bv8>, at: nat)
    requires |x| == |y|
    requires ValidFrame(init, x) && ValidFrame(init, y)
    requires forall i | 0 <= i < 8 * |x| && !(at <= i < at + 16) :: Stream(x)[i] == Stream(y)[i]
    ensures x == y
  {
    TapsShape();
    ValidFrameResidue(init, x);
    ValidFrameResidue(init, y);
    hide WordBits, Stream, Feed, TAPS, ValidFrame;
    BurstDetected(TAPS, WordBits(init), Stream(x), Stream(y), at);
    StreamInjective(x, y);
  }

  /** No error in an odd number of bits turns one valid frame into another. */
  lemma DetectsOddErrors(init: bv16, x: seq<bv8>, y: seq<bv8>)
    requires |x| == |y|
    requires ValidFrame(init, x) && ValidFrame(init, y)
    ensures Weight(Xor(Stream(x), Stream(y))) % 2 == 0
  {
    TapsShape();
    TapsOdd();
    ValidFrameResidue(init, x);
    ValidFrameResidue(init, y);
    hide WordBits, Stream, Feed, TAPS, ValidFrame;
    OddErrorDetected(TAPS, WordBits(init), Stream(x), Stream(y));
  }

  lemma TapsOdd()
    ensures Odd(TAPS)
  {
    TapsShape();
    hide TAPS;
    assert TAPS == [true] + Zeros(12) + [true] + [false] + [true];
    WeightTail([true] + Zeros(12));
    WeightZeros(12);
    WeightSnoc([true] + Zeros(12), true);
    WeightSnoc([true] + Zeros(12) + [true], false);
    WeightSnoc([true] + Zeros(12) + [true] + [false], true);
  }
}
