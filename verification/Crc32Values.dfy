// The checksum in numbers: entries of the published table, and checksums of two messages.
module Crc32Values {
  import opened Bytes
  import opened Crc32

  // ---------- The table ----------

  lemma FirstTerms()
    ensures ToBits(128, 8) + Zeros(24) == Terms({24}) && ToBits(1, 8) + Zeros(24) == Terms({31})
  {
    hide ToBits;
    FourBits(0);
    FourBits(8);
    NibbleFirst(128, 4);
    NibbleFirst(1, 4);
  }

  lemma EightSteps(x: Register)
    ensures Steps(x, 8) == BitStep(BitStep(BitStep(BitStep(BitStep(BitStep(BitStep(BitStep(x))))))))
  {
    hide BitStep;
    var y := BitStep(BitStep(BitStep(BitStep(x))));
    assert Steps(x, 8) == Steps(y, 4);
  }

  lemma TableEntry128()
    ensures TableEntry(ToBits(128, 8)) == Terms({26, 23, 22, 16, 12, 11, 10, 8, 7, 5, 4, 2, 1, 0})
  {
    hide Steps, BitStep, ToBits, Terms;
    FirstTerms();
    EightSteps(Terms({24}));
    StepTerms({24}, {25});
    StepTerms({25}, {26});
    StepTerms({26}, {27});
    StepTerms({27}, {28});
    StepTerms({28}, {29});
    StepTerms({29}, {30});
    StepTerms({30}, {31});
    StepTerms({31}, {26, 23, 22, 16, 12, 11, 10, 8, 7, 5, 4, 2, 1, 0});
  }

  lemma StepOne()
    ensures BitStep(Terms({31}))
         == Terms({26, 23, 22, 16, 12, 11, 10, 8, 7, 5, 4, 2, 1, 0})
  {
    hide BitStep, Terms;
    StepTerms({31},
              {26, 23, 22, 16, 12, 11, 10, 8, 7, 5, 4, 2, 1, 0});
  }

  lemma StepTwo()
    ensures BitStep(Terms({26, 23, 22, 16, 12, 11, 10, 8, 7, 5, 4, 2, 1, 0}))
         == Terms({27, 24, 23, 17, 13, 12, 11, 9, 8, 6, 5, 3, 2, 1})
  {
    hide BitStep, Terms;
    StepTerms({26, 23, 22, 16, 12, 11, 10, 8, 7, 5, 4, 2, 1, 0},
              {27, 24, 23, 17, 13, 12, 11, 9, 8, 6, 5, 3, 2, 1});
  }

  lemma StepThree()
    ensures BitStep(Terms({27, 24, 23, 17, 13, 12, 11, 9, 8, 6, 5, 3, 2, 1}))
         == Terms({28, 25, 24, 18, 14, 13, 12, 10, 9, 7, 6, 4, 3, 2})
  {
    hide BitStep, Terms;
    StepTerms({27, 24, 23, 17, 13, 12, 11, 9, 8, 6, 5, 3, 2, 1},
              {28, 25, 24, 18, 14, 13, 12, 10, 9, 7, 6, 4, 3, 2});
  }

  lemma StepFour()
    ensures BitStep(Terms({28, 25, 24, 18, 14, 13, 12, 10, 9, 7, 6, 4, 3, 2}))
         == Terms({29, 26, 25, 19, 15, 14, 13, 11, 10, 8, 7, 5, 4, 3})
  {
    hide BitStep, Terms;
    StepTerms({28, 25, 24, 18, 14, 13, 12, 10, 9, 7, 6, 4, 3, 2},
              {29, 26, 25, 19, 15, 14, 13, 11, 10, 8, 7, 5, 4, 3});
  }

  lemma StepFive()
    ensures BitStep(Terms({29, 26, 25, 19, 15, 14, 13, 11, 10, 8, 7, 5, 4, 3}))
         == Terms({30, 27, 26, 20, 16, 15, 14, 12, 11, 9, 8, 6, 5, 4})
  {
    hide BitStep, Terms;
    StepTerms({29, 26, 25, 19, 15, 14, 13, 11, 10, 8, 7, 5, 4, 3},
              {30, 27, 26, 20, 16, 15, 14, 12, 11, 9, 8, 6, 5, 4});
  }

  lemma StepSix()
    ensures BitStep(Terms({30, 27, 26, 20, 16, 15, 14, 12, 11, 9, 8, 6, 5, 4}))
         == Terms({31, 28, 27, 21, 17, 16, 15, 13, 12, 10, 9, 7, 6, 5})
  {
    hide BitStep, Terms;
    StepTerms({30, 27, 26, 20, 16, 15, 14, 12, 11, 9, 8, 6, 5, 4},
              {31, 28, 27, 21, 17, 16, 15, 13, 12, 10, 9, 7, 6, 5});
  }

  lemma StepSeven()
    ensures BitStep(Terms({31, 28, 27, 21, 17, 16, 15, 13, 12, 10, 9, 7, 6, 5}))
         == Terms({29, 28, 26, 23, 18, 17, 14, 13, 12, 6, 5, 4, 2, 1, 0})
  {
    hide BitStep, Terms;
    StepTerms({31, 28, 27, 21, 17, 16, 15, 13, 12, 10, 9, 7, 6, 5},
              {29, 28, 26, 23, 18, 17, 14, 13, 12, 6, 5, 4, 2, 1, 0});
  }

  lemma StepEight()
    ensures BitStep(Terms({29, 28, 26, 23, 18, 17, 14, 13, 12, 6, 5, 4, 2, 1, 0}))
         == Terms({30, 29, 27, 24, 19, 18, 15, 14, 13, 7, 6, 5, 3, 2, 1})
  {
    hide BitStep, Terms;
    StepTerms({29, 28, 26, 23, 18, 17, 14, 13, 12, 6, 5, 4, 2, 1, 0},
              {30, 29, 27, 24, 19, 18, 15, 14, 13, 7, 6, 5, 3, 2, 1});
  }

  lemma TableEntry1()
    ensures TableEntry(ToBits(1, 8)) == Terms({30, 29, 27, 24, 19, 18, 15, 14, 13, 7, 6, 5, 3, 2, 1})
  {
    hide Steps, BitStep, ToBits, Terms;
    FirstTerms();
    EightSteps(Terms({31}));
    StepOne();
    StepTwo();
    StepThree();
    StepFour();
    StepFive();
    StepSix();
    StepSeven();
    StepEight();
  }

  lemma PowerOf32()
    ensures Power(32) == 0x1_0000_0000
  {
    assert Power(8) == 256 && Power(16) == 256 * Power(8) && Power(24) == 256 * Power(16);
  }

  lemma PolynomialNumber()
    ensures FromBits(Polynomial()) == 0xedb8_8320
  {
    hide ToBits, FromBits;
    PowerOf32();
    FromToBits(0xedb8_8320, 32, 0x1_0000_0000);
  }

  lemma SecondLow()
    ensures ToBits(0x7707_3096, 32) ==
           [false, true, true, false, true, false, false, true,
            false, false, false, false, true, true, false, false]
           + ToBits(0x7707, 16)
  {
    hide ToBits;
    NibbleFirst(0x7707_3096, 28);
    NibbleFirst(0x0770_7309, 24);
    NibbleFirst(0x0077_0730, 20);
    NibbleFirst(0x0007_7073, 16);
  }

  lemma SecondHigh()
    ensures ToBits(0x7707, 16) ==
           [true, true, true, false, false, false, false, false,
            true, true, true, false, true, true, true, false]
  {
    hide ToBits;
    NibbleFirst(0x7707, 12);
    NibbleFirst(0x0770, 8);
    NibbleFirst(0x0077, 4);
    FourBits(0x7);
  }

  lemma SecondTerms()
    ensures Terms({30, 29, 27, 24, 19, 18, 15, 14, 13, 7, 6, 5, 3, 2, 1}) == ToBits(0x7707_3096, 32)
  {
    hide ToBits;
    SecondLow();
    SecondHigh();
  }

  // Two entries of the published table.
  lemma TableNumbers()
    ensures FromBits(TableEntry(ToBits(128, 8))) == 0xedb8_8320
    ensures FromBits(TableEntry(ToBits(1, 8))) == 0x7707_3096
  {
    hide ToBits, FromBits, TableEntry, Polynomial, Terms;
    TableEntry128();
    TableEntry1();
    PolynomialTerms();
    SecondLow();
    SecondHigh();
    SecondTerms();
    PowerOf32();
    PolynomialNumber();
    FromToBits(0x7707_3096, 32, 0x1_0000_0000);
  }

  // ---------- Check values ----------

  lemma {:induction false} StepsOfZero(n: nat)
    ensures Steps(Zeros(32), n) == Zeros(32)
    decreases n
  {
    if n > 0 {
      hide Polynomial;
      assert BitStep(Zeros(32)) == Zeros(32);
      StepsOfZero(n - 1);
    }
  }

  function AllOnes(): seq<byte> {
    [0xff, 0xff, 0xff, 0xff]
  }

  lemma BitsOfOnes()
    ensures Bits(AllOnes()) == Ones()
  {
    hide ToBits;
    FourBits(15);
    NibbleFirst(255, 4);
    assert ToBits(255, 8) == Not(Zeros(8));
    assert AllOnes()[1..] == [0xff, 0xff, 0xff] && AllOnes()[1..][1..] == [0xff, 0xff];
    assert AllOnes()[1..][1..][1..] == [0xff] && AllOnes()[1..][1..][1..][1..] == [];
  }

  // These four bytes are their own initial register, which they bring to zero.
  lemma AllOnesFeed()
    ensures Feed(Ones(), AllOnes()) == Zeros(32)
  {
    hide Steps, Bits, Feed;
    FourBytes(Ones(), AllOnes());
    BitsOfOnes();
    assert Xor(Ones(), Ones()) == Zeros(32);
    StepsOfZero(32);
  }

  lemma ByteFeed(b: byte)
    ensures Feed(Zeros(32), [b]) == TableEntry(ToBits(b, 8))
  {
    hide TableEntry, ToBits, Steps;
    TableUpdate(Zeros(32), b);
    assert Xor(Zeros(32)[..8], ToBits(b, 8)) == ToBits(b, 8);
    assert ShiftRight(Zeros(32), 8) == Zeros(32);
    XorZeros(TableEntry(ToBits(b, 8)));
    assert [b][1..] == [];
  }

  lemma Complements()
    ensures Not(Zeros(32)) == ToBits(0xffff_ffff, 32)
    ensures Not(Polynomial()) == ToBits(0x1247_7cdf, 32)
  {
    hide ToBits, Polynomial;
    OnesBits();
    ComplementLow();
    ComplementHigh();
    PolynomialBits();
  }

  lemma OnesBits()
    ensures ToBits(0xffff_ffff, 32) == Ones()
  {
    hide ToBits;
    NibbleFirst(0xffff_ffff, 28);
    NibbleFirst(0x0fff_ffff, 24);
    NibbleFirst(0x00ff_ffff, 20);
    NibbleFirst(0x000f_ffff, 16);
    NibbleFirst(0xffff, 12);
    NibbleFirst(0x0fff, 8);
    NibbleFirst(0x00ff, 4);
    FourBits(0xf);
  }

  lemma ComplementLow()
    ensures ToBits(0x1247_7cdf, 32) ==
           [true, true, true, true, true, false, true, true,
            false, false, true, true, true, true, true, false]
           + ToBits(0x1247, 16)
  {
    hide ToBits;
    NibbleFirst(0x1247_7cdf, 28);
    NibbleFirst(0x0124_77cd, 24);
    NibbleFirst(0x0012_477c, 20);
    NibbleFirst(0x0001_2477, 16);
  }

  lemma ComplementHigh()
    ensures ToBits(0x1247, 16) ==
           [true, true, true, false, false, false, true, false,
            false, true, false, false, true, false, false, false]
  {
    hide ToBits;
    NibbleFirst(0x1247, 12);
    NibbleFirst(0x0124, 8);
    NibbleFirst(0x0012, 4);
    FourBits(0x1);
  }

  // Four bytes 0xff have the checksum 0xffffffff, and with 0x80 behind them 0x12477cdf.
  lemma CheckValues()
    ensures FromBits(Checksum([0xff, 0xff, 0xff, 0xff])) == 0xffff_ffff
    ensures FromBits(Checksum([0xff, 0xff, 0xff, 0xff, 0x80])) == 0x1247_7cdf
  {
    hide Feed, ToBits, FromBits, TableEntry, Not, Polynomial, Terms;
    AllOnesFeed();
    FeedAppend(Ones(), AllOnes(), [0x80]);
    assert AllOnes() + [0x80] == [0xff, 0xff, 0xff, 0xff, 0x80];
    ByteFeed(0x80);
    TableEntry128();
    PolynomialTerms();
    Complements();
    PowerOf32();
    FromToBits(0xffff_ffff, 32, 0x1_0000_0000);
    FromToBits(0x1247_7cdf, 32, 0x1_0000_0000);
  }
}
