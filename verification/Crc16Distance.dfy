/**
  How far apart valid CRC-16 frames are: the generator has period 32767 = 7 * 31 * 151, so accepted frames of up
  to 4095 bytes differ in at least four bits, or not at all.
  */
module Crc16Distance {
  import opened Gf2
  import opened ByteStream
  import opened Crc16
  import opened Crc16Powers
  import opened Primes

  /** The period of the generator. */
  const PERIOD := 32767

  /** After 32767 steps the single one is back. */
  lemma ReturnsAfterPeriod()
    ensures |TAPS| == 16 && Returns(TAPS, PERIOD)
  {
    Power32767();
    ReturnsIff(PERIOD);
  }

  /** A divisor of the period other than 1 has one of its three primes. */
  lemma PrimeOfFactor(e: nat, q: nat) returns (p: nat, m: nat)
    requires e * q == PERIOD && q != 1
    ensures p == 7 || p == 31 || p == 151
    ensures q == p * m && e * m * p == PERIOD
  {
    hide Divides, Prime;
    IsPrime(7);
    IsPrime(31);
    IsPrime(151);
    DividesFactor(7, e, q, 4681);
    p := 7;
    if !Divides(7, q) {
      var a := Cofactor(7, e);
      assert a * q == 31 * 151;
      DividesFactor(31, a, q, 151);
      p := 31;
      if !Divides(31, q) {
        var b := Cofactor(31, a);
        assert b * q == 151;
        OnlyFactors(151, q, b);
        FactorDivides(151, q, 1);
        p := 151;
      }
    }
    m := Cofactor(p, q);
    Regroup(e, m, p);
  }

  lemma Cofactor(d: nat, n: nat) returns (m: nat)
    requires d > 0 && Divides(d, n)
    ensures n == d * m
  {
    var r;
    m, r := WithRest(n, d);
  }

  lemma Regroup(e: nat, m: nat, p: nat)
    ensures e * m * p == e * (p * m)
  {
  }

  lemma NotAtCofactor(n: nat)
    requires n == 4681 || n == 1057 || n == 217
    ensures |TAPS| == 16 && !Returns(TAPS, n)
  {
    hide Returns, TAPS, Steps;
    Power4681();
    Power1057();
    Power217();
    ReturnsIff(n);
  }

  lemma ReturnsAtOnce()
    ensures |TAPS| == 16 && Returns(TAPS, 0)
  {
    TapsShape();
  }

  /** A return after a proper divisor of the period would be one after 4681, 1057 or 217 steps. */
  lemma NotAtDivisor(e: nat, q: nat)
    requires e * q == PERIOD && q != 1
    ensures |TAPS| == 16 && !Returns(TAPS, e)
  {
    ReturnsAtOnce();
    hide Returns, TAPS;
    var p, m := PrimeOfFactor(e, q);
    NotAtCofactor(e * m);
    if Returns(TAPS, e) {
      ReturnsModulo(TAPS, e, m, 0);
    }
  }

  /** Between 0 and 32767 steps the single one never comes back. */
  lemma NoEarlierReturn(d: nat)
    requires 0 < d < PERIOD
    ensures |TAPS| == 16 && !Returns(TAPS, d)
  {
    ReturnsAfterPeriod();
    hide Returns, TAPS;
    if Returns(TAPS, d) {
      var e, q := ReturnsAtDivisor(TAPS, PERIOD, d);
      NotAtDivisor(e, q);
    }
  }

  lemma TwoOnesNotDivisible(e: Bits)
    requires |e| <= PERIOD && Weight(e) == 2
    ensures |TAPS| == 16 && Feed(TAPS, Zeros(16), e) != Zeros(16)
  {
    TapsShape();
    hide Feed, Weight, Zeros, TAPS, Returns;
    var i, j := TwoOnes(e);
    TwoOnesReturn(TAPS, i, j - i, |e| - 1 - j);
    NoEarlierReturn(j - i);
  }

  /** No error in two bits turns one valid frame of at most 4095 bytes into another. */
  lemma DetectsTwoErrors(init: bv16, x: seq<bv8>, y: seq<bv8>)
    requires |x| == |y| <= 4095
    requires ValidFrame(init, x) && ValidFrame(init, y)
    ensures Weight(Xor(Stream(x), Stream(y))) != 2
  {
    TapsShape();
    LongEnough(init, x);
    ValidFrameResidue(init, x);
    ValidFrameResidue(init, y);
    hide ValidFrame, Feed, Stream, ByteBits, WordBits, Xor, Weight, Zeros, TAPS;
    DifferenceIsDivisible(TAPS, WordBits(init), Stream(x), Stream(y));
    if Weight(Xor(Stream(x), Stream(y))) == 2 {
      TwoOnesNotDivisible(Xor(Stream(x), Stream(y)));
    }
  }

  lemma LongEnough(init: bv16, frame: seq<bv8>)
    requires ValidFrame(init, frame)
    ensures |frame| >= 2
  {
  }

  /** Accepted frames of at most 4095 bytes are at distance four or equal. */
  lemma DistanceFour(init: bv16, x: seq<bv8>, y: seq<bv8>)
    requires |x| == |y| <= 4095
    requires ValidFrame(init, x) && ValidFrame(init, y)
    ensures x == y || Weight(Xor(Stream(x), Stream(y))) >= 4
  {
    hide *;
    DetectsOddErrors(init, x, y);
    DetectsTwoErrors(init, x, y);
    if Weight(Xor(Stream(x), Stream(y))) == 0 {
      NoOnes(Xor(Stream(x), Stream(y)));
      XorIsZero(Stream(x), Stream(y));
      StreamInjective(x, y);
    }
  }

  /** 4095 bytes is the exact bound: every longer valid frame has a valid one at distance two. */
  lemma NoLongerThan4095(init: bv16, x: seq<bv8>) returns (y: seq<bv8>)
    requires |x| > 4095 && ValidFrame(init, x)
    ensures |y| == |x| && ValidFrame(init, y) && Weight(Xor(Stream(x), Stream(y))) == 2
  {
    ReturnsAfterPeriod();
    TapsShape();
    hide ValidFrame, Feed, Stream, ByteBits, WordBits, Xor, Weight, Zeros, TAPS, Returns;
    y := FlipTwo(x, 4095);
    var rest := 8 * (|x| - 4096);
    WeightOfTwo(PERIOD, rest);
    TwoOnesReturn(TAPS, 0, PERIOD, rest);
    NoLead([true] + Zeros(PERIOD - 1) + [true], Zeros(rest));
    ValidFrameResidue(init, x);
    ValidFrameResidue(init, y);
    DifferenceIsDivisible(TAPS, WordBits(init), Stream(x), Stream(y));
  }
}
