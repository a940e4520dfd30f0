/**
  Powers of x modulo the generator of the CRC-16, by repeated squaring.  The word 0x8000 is the polynomial 1, so
  `Steps(0x8000, k)` is x^k; squaring doubles every exponent, because it is linear over GF(2).
  */
module Crc16Powers {
  import opened Gf2
  import opened Crc16

  function When(b: bool, s: bv16): bv16 {
    if b then s else 0
  }

  /** The even powers x^30, x^28, ..., x^0, each reduced by the generator. */
  const EVEN: seq<bv16> := [
    0x6001, 0xC007, 0xC019, 0xC061, 0xC181, 0xC601, 0xD801, 0xA001,
    0x0002, 0x0008, 0x0020, 0x0080, 0x0200, 0x0800, 0x2000, 0x8000
  ]

  /** The square of the polynomial in the lower `n` bits: every power doubled and reduced. */
  function Sum(c: bv16, n: nat): bv16
    requires n <= 16
  {
    if n == 0 then 0 else Add(Sum(c, n - 1), When(WordBit(c, n - 1), EVEN[n - 1]))
  }

  function FourMore(sum: bv16, c: bv16, n: nat): bv16
    requires n + 4 <= 16
  {
    Add(Add(Add(Add(sum,
      When(WordBit(c, n), EVEN[n])),
      When(WordBit(c, n + 1), EVEN[n + 1])),
      When(WordBit(c, n + 2), EVEN[n + 2])),
      When(WordBit(c, n + 3), EVEN[n + 3]))
  }

  lemma SumOfFour(c: bv16, n: nat)
    requires n + 4 <= 16
    ensures Sum(c, n + 4) == FourMore(Sum(c, n), c, n)
  {
    EvenShape();
    hide Add, When, WordBit, EVEN;
    assert Sum(c, n + 1) == Add(Sum(c, n), When(WordBit(c, n), EVEN[n]));
    assert Sum(c, n + 2) == Add(Sum(c, n + 1), When(WordBit(c, n + 1), EVEN[n + 1]));
    assert Sum(c, n + 3) == Add(Sum(c, n + 2), When(WordBit(c, n + 2), EVEN[n + 2]));
  }

  /** The whole sum at once. */
  function Square(c: bv16): bv16 {
    FourMore(FourMore(FourMore(FourMore(0, c, 0), c, 4), c, 8), c, 12)
  }

  lemma SquareIsSum(c: bv16)
    ensures Square(c) == Sum(c, 16)
  {
    hide FourMore, Add, When, WordBit, EVEN;
    SumOfFour(c, 0);
    SumOfFour(c, 4);
    SumOfFour(c, 8);
    SumOfFour(c, 12);
  }

  lemma AddZero(a: bv16)
    ensures Add(a, 0) == a && Add(0, a) == a
  {
  }

  lemma AddSelf(a: bv16)
    ensures Add(a, a) == 0
  {
  }

  lemma AddAssoc(a: bv16, b: bv16, c: bv16)
    ensures Add(Add(a, b), c) == Add(a, Add(b, c))
  {
  }

  lemma AddCommutes(a: bv16, b: bv16)
    ensures Add(a, b) == Add(b, a)
  {
  }

  lemma AddSwap(a: bv16, b: bv16, c: bv16)
    ensures Add(Add(a, b), c) == Add(Add(a, c), b)
  {
    hide Add;
    AddAssoc(a, b, c);
    AddAssoc(a, c, b);
    AddCommutes(b, c);
  }

  lemma AddPairs(a: bv16, b: bv16, c: bv16, d: bv16)
    ensures Add(Add(a, b), Add(c, d)) == Add(Add(a, c), Add(b, d))
  {
    hide Add;
    AddSwap(a, b, Add(c, d));
    AddAssoc(a, c, d);
    AddAssoc(Add(a, c), d, b);
    AddCommutes(d, b);
  }

  lemma WhenAdd(a: bool, b: bool, s: bv16)
    ensures When(a != b, s) == Add(When(a, s), When(b, s))
  {
    hide Add;
    AddZero(s);
    AddZero(0);
    AddSelf(s);
  }

  lemma {:induction false} StepsOfZero(k: nat)
    ensures Steps(0, k) == 0
  {
    if k > 0 {
      StepsOfZero(k - 1);
    }
  }

  lemma EvenStep(n: nat)
    requires 0 < n < 16
    ensures Steps(EVEN[n], 2) == EVEN[n - 1]
  {
    assert Steps(EVEN[n], 1) == Step(EVEN[n]);
    if n == 1 {} else if n == 2 {} else if n == 3 {} else if n == 4 {} else if n == 5 {} else if n == 6 {}
    else if n == 7 {} else if n == 8 {} else if n == 9 {} else if n == 10 {} else if n == 11 {}
    else if n == 12 {} else if n == 13 {} else if n == 14 {} else {}
  }

  /** Two steps move every term to the next lower bit; the lowest leaves. */
  lemma {:induction false} TwoStepsOfSum(c: bv16, h: bv16, n: nat)
    requires n < 16 && h == c >> 1
    ensures |EVEN| == 16
    ensures Steps(Sum(c, n + 1), 2) == Add(Sum(h, n), When(WordBit(c, 0), Steps(EVEN[0], 2)))
  {
    EvenShape();
    hide Step, Steps, WordBit, EVEN, Add;
    var s, b := EVEN[n], WordBit(c, n);
    StepsAdd(Sum(c, n), When(b, s), 2);
    StepsOfZero(2);
    if n == 0 {
      AddZero(0);
      AddZero(When(b, Steps(s, 2)));
    } else {
      TwoStepsOfSum(c, h, n - 1);
      EvenStep(n);
      WordBitShift(c, n - 1);
      AddSwap(Sum(h, n - 1), When(WordBit(c, 0), Steps(EVEN[0], 2)), When(b, EVEN[n - 1]));
    }
  }

  lemma EvenShape()
    ensures |EVEN| == 16
  {
  }

  lemma {:induction false} SumAdd(a: bv16, b: bv16, n: nat)
    requires n <= 16
    ensures Sum(Add(a, b), n) == Add(Sum(a, n), Sum(b, n))
  {
    EvenShape();
    hide WordBit, When, EVEN, Add;
    if n == 0 {
      AddZero(0);
    } else {
      SumAdd(a, b, n - 1);
      BitOfAdd(a, b, n - 1);
      var p, q, s := WordBit(a, n - 1), WordBit(b, n - 1), EVEN[n - 1];
      WhenAdd(p, q, s);
      AddPairs(Sum(a, n - 1), Sum(b, n - 1), When(p, s), When(q, s));
    }
  }

  lemma BitOfAdd(a: bv16, b: bv16, i: nat)
    requires i < 16
    ensures WordBit(Add(a, b), i) == (WordBit(a, i) != WordBit(b, i))
  {
    WordBitXor(a, b, i);
  }

  lemma LowestBit(c: bv16)
    ensures WordBit(c, 0) == (c & 1 != 0)
  {
  }

  lemma StepForm(c: bv16, h: bv16)
    requires h == c >> 1
    ensures Step(c) == Add(h, When(WordBit(c, 0), 0xA001))
  {
    LowestBit(c);
    AddZero(h);
    hide WordBit;
  }

  lemma TopIsEmpty(c: bv16, h: bv16)
    requires h == c >> 1
    ensures Sum(h, 16) == Sum(h, 15)
  {
    WordBitShift(c, 15);
    AddZero(Sum(h, 15));
  }

  lemma SquareOfTaps()
    ensures |EVEN| == 16
    ensures Sum(0xA001, 16) == Steps(EVEN[0], 2)
    ensures Sum(0, 16) == 0
  {
    SquareIsSum(0xA001);
    SquareIsSum(0);
    assert Steps(0x6001, 1) == 0x9001 && Step(0x9001) == 0xE801;
  }

  /** Squaring turns one step into two. */
  lemma SquareStep(c: bv16, h: bv16)
    requires h == c >> 1
    ensures Square(Step(c)) == Steps(Square(c), 2)
  {
    SquareOfTaps();
    hide WordBit, Sum, EVEN, Step, Steps, Add, Square;
    SquareIsSum(c);
    SquareIsSum(Step(c));
    TwoStepsOfSum(c, h, 15);
    TopIsEmpty(c, h);
    StepForm(c, h);
    SumAdd(h, When(WordBit(c, 0), 0xA001), 16);
  }

  /** Squaring doubles the exponent. */
  lemma {:induction false} SquareDoubles(k: nat)
    ensures Steps(0x8000, 2 * k) == Square(Steps(0x8000, k))
  {
    hide Square, Step;
    if k == 0 {
      SquareOfOne();
    } else {
      var c := Steps(0x8000, k - 1);
      SquareDoubles(k - 1);
      SquareStep(c, c >> 1);
      StepsMore(0x8000, 2 * (k - 1), 2);
    }
  }

  lemma {:induction false} StepsMore(c: bv16, k: nat, m: nat)
    ensures Steps(Steps(c, k), m) == Steps(c, k + m)
  {
    hide Step;
    if m > 0 {
      StepsMore(c, k, m - 1);
    }
  }

  lemma SquareOfOne()
    ensures Square(0x8000) == 0x8000
  {
  }

  lemma Double(k: nat, c: bv16, after: bv16)
    requires Steps(0x8000, k) == c && Square(c) == after
    ensures Steps(0x8000, 2 * k) == after
  {
    SquareDoubles(k);
  }

  lemma DoubleAndStep(k: nat, c: bv16, squared: bv16, after: bv16)
    requires Steps(0x8000, k) == c && Square(c) == squared && Step(squared) == after
    ensures Steps(0x8000, 2 * k + 1) == after
  {
    SquareDoubles(k);
  }

  lemma StartOfChain()
    ensures Steps(0x8000, 1) == 0x4000
  {
    assert Steps(0x8000, 0) == 0x8000;
  }

  lemma Power15()
    ensures Steps(0x8000, 15) == 0x0001
  {
    StartOfChain();
    hide Steps;
    DoubleAndStep(1, 0x4000, 0x2000, 0x1000);
    DoubleAndStep(3, 0x1000, 0x0200, 0x0100);
    DoubleAndStep(7, 0x0100, 0x0002, 0x0001);
  }

  lemma Power32767()
    ensures Steps(0x8000, 32767) == 0x8000
  {
    Power15();
    hide Steps;
    DoubleAndStep(15, 0x0001, 0x6001, 0x9001);
    DoubleAndStep(31, 0x9001, 0xE201, 0xD101);
    DoubleAndStep(63, 0xD101, 0xC203, 0xC100);
    DoubleAndStep(127, 0xC100, 0xA002, 0x5001);
    DoubleAndStep(255, 0x5001, 0x4201, 0x8101);
    DoubleAndStep(511, 0x8101, 0xE003, 0xD000);
    DoubleAndStep(1023, 0xD000, 0xA200, 0x5100);
    DoubleAndStep(2047, 0x5100, 0x2202, 0x1101);
    DoubleAndStep(4095, 0x1101, 0x6203, 0x9100);
    DoubleAndStep(8191, 0x9100, 0x8202, 0x4101);
    DoubleAndStep(16383, 0x4101, 0x4003, 0x8000);
  }

  lemma Power13()
    ensures Steps(0x8000, 13) == 0x0004
  {
    StartOfChain();
    hide Steps;
    DoubleAndStep(1, 0x4000, 0x2000, 0x1000);
    Double(3, 0x1000, 0x0200);
    DoubleAndStep(6, 0x0200, 0x0008, 0x0004);
  }

  lemma SquareOfX13()
    ensures Square(0x0004) == 0xC019
  {
    assert FourMore(0, 0x0004, 0) == 0xC019;
    assert FourMore(0xC019, 0x0004, 4) == 0xC019;
  }

  lemma Power27()
    ensures Steps(0x8000, 27) == 0xC00D
  {
    Power13();
    SquareOfX13();
    hide Steps, Square;
    DoubleAndStep(13, 0x0004, 0xC019, 0xC00D);
  }

  lemma Power217()
    ensures Steps(0x8000, 217) == 0x3E55
  {
    Power27();
    hide Steps;
    Double(27, 0xC00D, 0xC079);
    Double(54, 0xC079, 0xDFE1);
    DoubleAndStep(108, 0xDFE1, 0x7CAA, 0x3E55);
  }

  lemma Power16()
    ensures Steps(0x8000, 16) == 0xA001
  {
    StartOfChain();
    hide Steps;
    Double(1, 0x4000, 0x2000);
    Double(2, 0x2000, 0x0800);
    Double(4, 0x0800, 0x0080);
    Double(8, 0x0080, 0xA001);
  }

  lemma Power1057()
    ensures Steps(0x8000, 1057) == 0xCE41
  {
    Power16();
    hide Steps;
    DoubleAndStep(16, 0xA001, 0xE801, 0xD401);
    Double(33, 0xD401, 0xC221);
    Double(66, 0xC221, 0x0608);
    Double(132, 0x0608, 0xC049);
    Double(264, 0xC049, 0xD861);
    DoubleAndStep(528, 0xD861, 0xDC81, 0xCE41);
  }

  lemma Power73()
    ensures Steps(0x8000, 73) == 0x3004
  {
    StartOfChain();
    hide Steps;
    Double(1, 0x4000, 0x2000);
    Double(2, 0x2000, 0x0800);
    DoubleAndStep(4, 0x0800, 0x0080, 0x0040);
    Double(9, 0x0040, 0xD801);
    Double(18, 0xD801, 0xC281);
    DoubleAndStep(36, 0xC281, 0x6008, 0x3004);
  }

  lemma Power4681()
    ensures Steps(0x8000, 4681) == 0x8C69
  {
    Power73();
    hide Steps;
    Double(73, 0x3004, 0xCA19);
    Double(146, 0xCA19, 0xC169);
    DoubleAndStep(292, 0xC169, 0x1E62, 0x0F31);
    Double(585, 0x0F31, 0x672B);
    Double(1170, 0x672B, 0x8E4C);
    DoubleAndStep(2340, 0x8E4C, 0x58D1, 0x8C69);
  }

  /** The single one is back when x^d is 1. */
  lemma ReturnsIff(d: nat)
    ensures |TAPS| == 16 && (Returns(TAPS, d) <==> Steps(0x8000, d) == 0x8000)
  {
    TapsShape();
    hide WordBits, Feed, Steps, TAPS, Returns;
    Power15();
    OneIsWord();
    StepsFeed(0x8000, 15);
    StepsFeed(0x8000, d);
    ReturnsAnywhere(TAPS, WordBits(0x8000), 15, d);
    if WordBits(Steps(0x8000, d)) == WordBits(0x8000) {
      WordBitsInjective(Steps(0x8000, d), 0x8000);
    }
  }

  lemma OneIsWord()
    ensures WordBits(0x0001) == One(16)
  {
  }
}
