/**
  How far apart valid CRC-8 frames are: the generator has period 127, a prime, so frames of up to 127 bits
  that both carry a right CRC differ in at least four bits, or not at all.
  */
module Crc8Distance {
  import opened Gf2
  import opened ByteStream
  import opened Crc8
  import opened Primes

  /** The period of the generator. */
  const PERIOD := 127

  lemma OneIsByte()
    ensures |TAPS| == 8 && One(8) == ByteBits(0x01)
  {
    TapsShape();
  }

  /** Eight more steps of the register that started with a single one. */
  lemma EightMore(k: nat, c: bv8, after: bv8)
    requires Feed(TAPS, One(8), Zeros(k)) == ByteBits(c)
    requires after == ByteStep(c)
    ensures Feed(TAPS, One(8), Zeros(k + 8)) == ByteBits(after)
  {
    TapsShape();
    hide Feed, ByteBits, ByteStep, TAPS;
    assert Zeros(k + 8) == Zeros(k) + Zeros(8);
    FeedConcat(TAPS, One(8), Zeros(k), Zeros(8));
    ByteStepFeeds(c);
  }

  lemma HalfPeriod()
    ensures Feed(TAPS, One(8), Zeros(64)) == ByteBits(0x43)
  {
    OneIsByte();
    assert Feed(TAPS, One(8), Zeros(0)) == ByteBits(0x01);
    hide Feed, ByteBits, TAPS;
    EightMore(0, 0x01, 0x5E);
    EightMore(8, 0x5E, 0xC4);
    EightMore(16, 0xC4, 0xAB);
    EightMore(24, 0xAB, 0x8F);
    EightMore(32, 0x8F, 0xCD);
    EightMore(40, 0xCD, 0x37);
    EightMore(48, 0x37, 0x3D);
    EightMore(56, 0x3D, 0x43);
  }

  lemma MostOfPeriod()
    ensures Feed(TAPS, One(8), Zeros(120)) == ByteBits(0x80)
  {
    TapsShape();
    HalfPeriod();
    hide Feed, ByteBits, TAPS;
    EightMore(64, 0x43, 0xA4);
    EightMore(72, 0xA4, 0xCE);
    EightMore(80, 0xCE, 0xD5);
    EightMore(88, 0xD5, 0x68);
    EightMore(96, 0x68, 0xA7);
    EightMore(104, 0xA7, 0x2C);
    EightMore(112, 0x2C, 0x80);
  }

  /** After 127 steps the single one is back. */
  lemma ReturnsAfterPeriod()
    ensures |TAPS| == 8 && Returns(TAPS, PERIOD)
  {
    OneIsByte();
    MostOfPeriod();
    SevenSteps();
    StepsFeed(0x80, 7);
    hide Feed, ByteBits, TAPS, Steps;
    assert Zeros(PERIOD) == Zeros(120) + Zeros(7);
    FeedConcat(TAPS, One(8), Zeros(120), Zeros(7));
  }

  lemma SevenSteps()
    ensures Steps(0x80, 7) == 0x01
  {
    assert Steps(0x80, 1) == 0x40;
    assert Steps(0x80, 2) == 0x20;
    assert Steps(0x80, 3) == 0x10;
    assert Steps(0x80, 4) == 0x08;
    assert Steps(0x80, 5) == 0x04;
    assert Steps(0x80, 6) == 0x02;
  }

  lemma NotAfterOneStep()
    ensures |TAPS| == 8 && !Returns(TAPS, 1)
  {
    TapsShape();
    assert Zeros(1)[..0] == [];
    assert !Feed(TAPS, One(8), Zeros(1))[0];
  }

  /** The period is a prime, so between 0 and 127 steps the single one never comes back. */
  lemma NoEarlierReturn(d: nat)
    requires 0 < d < PERIOD
    ensures |TAPS| == 8 && !Returns(TAPS, d)
  {
    ReturnsAfterPeriod();
    NotAfterOneStep();
    hide Returns, Feed, TAPS, Prime, Divides;
    if Returns(TAPS, d) {
      var e, q := ReturnsAtDivisor(TAPS, PERIOD, d);
      IsPrime(PERIOD);
      OnlyFactors(PERIOD, e, q);
    }
  }

  /** No error in two bits turns one valid frame of at most 127 bits into another. */
  lemma DetectsTwoErrors(x: seq<bv8>, y: seq<bv8>)
    requires |x| == |y| <= 15
    requires ValidFrame(x) && ValidFrame(y)
    ensures Weight(Xor(Stream(x), Stream(y))) != 2
  {
    TapsShape();
    hide ValidFrame, Feed, Stream, ByteBits, Xor, Weight, Zeros, TAPS;
    NonemptyFrame(x);
    ValidFrameDivides(x);
    ValidFrameDivides(y);
    var e := Xor(Stream(x), Stream(y));
    DifferenceIsDivisible(TAPS, Zeros(8), Stream(x), Stream(y));
    if Weight(e) == 2 {
      var i, j := TwoOnes(e);
      TwoOnesReturn(TAPS, i, j - i, |e| - 1 - j);
      NoEarlierReturn(j - i);
    }
  }

  /** Valid frames of at most 15 bytes, the ROM and the scratchpad among them, are at distance four or equal. */
  lemma DistanceFour(x: seq<bv8>, y: seq<bv8>)
    requires |x| == |y| <= 15
    requires ValidFrame(x) && ValidFrame(y)
    ensures x == y || Weight(Xor(Stream(x), Stream(y))) >= 4
  {
    hide *;
    DetectsOddErrors(x, y);
    DetectsTwoErrors(x, y);
    if Weight(Xor(Stream(x), Stream(y))) == 0 {
      NoOnes(Xor(Stream(x), Stream(y)));
      XorIsZero(Stream(x), Stream(y));
      StreamInjective(x, y);
    }
  }

  /** Fifteen bytes is the exact bound: every longer valid frame has a valid one at distance two. */
  lemma NoLongerThanFifteen(x: seq<bv8>) returns (y: seq<bv8>)
    requires |x| > 15 && ValidFrame(x)
    ensures |y| == |x| && ValidFrame(y) && Weight(Xor(Stream(x), Stream(y))) == 2
  {
    ReturnsAfterPeriod();
    TapsShape();
    hide ValidFrame, Feed, Stream, ByteBits, Xor, Weight, Zeros, TAPS, Returns;
    y := FlipTwo(x, 15);
    var rest := 8 * (|x| - 16);
    WeightOfTwo(PERIOD, rest);
    TwoOnesReturn(TAPS, 0, PERIOD, rest);
    NoLead([true] + Zeros(PERIOD - 1) + [true], Zeros(rest));
    ValidFrameDivides(x);
    ValidFrameDivides(y);
    DifferenceIsDivisible(TAPS, Zeros(8), Stream(x), Stream(y));
  }
}
