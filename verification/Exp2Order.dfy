/**
 Which fixed-point arguments have a result, and which pairs of them come out in
 order.
 */
module Exp2Order {
  import opened Arith
  import opened Exp2
  import opened Prelude
  import opened Wide

  /** The function repeats after 2^96 arguments. */
  const PERIOD: nat := 0x1_0000_0000_0000_0000_0000_0000
  /** The first fraction of integer part 68 without a result. */
  const FIRST_UNFIT: nat := 0x348E2AAE5040E87B

  // ------------------------------------------------------------------
  // Order
  // ------------------------------------------------------------------

  lemma PartsOf(x: U128)
    requires x < PERIOD
    ensures x == x / B64 * B64 + x % B64 && x / B64 < 0x1_0000_0000
    ensures x / B64 < 192 ==> Exp2Spec(x) == Fit(Scaled(x / B64, x % B64))
    ensures x / B64 >= 192 ==> Exp2Spec(x) == None
  {
    hide Scaled;
    DivBelow(x, B64, 0x1_0000_0000);
    if x / B64 < 192 {
      SpecAt(x, x / B64, x % B64);
    }
  }

  /** Two arguments at least two units apart come out in order: where the larger one
      has a result so does the smaller, and it is no higher. */
  lemma Exp2FixedOrdered(x: U128, y: U128)
    requires x + 2 <= y < PERIOD && Exp2Spec(y).Some?
    ensures Exp2Spec(x).Some? && Exp2Spec(x).value <= Exp2Spec(y).value
  {
    hide Exp2Spec, Scaled, Chain, Exp2Factors, Factor;
    PartsOf(x);
    PartsOf(y);
    var q, p := x / B64, y / B64;
    DivMono(x, y, B64);
    if q == p {
      FractionMonotone(x % B64, y % B64);
      ScaledMono(q, x % B64, y % B64);
    } else {
      ScaledRange(q, x % B64);
      ScaledRange(p, y % B64);
      Pow2Mono(q + 1, p);
      MulMono(Pow2(q + 1), Pow2(p), ONE_ETHER);
    }
  }

  /** Every pair of arguments of one period at least d units apart comes out in
      order. */
  ghost predicate OrderedFrom(d: nat) {
    forall x: U128, y: U128 :: x + d <= y < PERIOD && Exp2Spec(y).Some? ==> InOrder(x, y)
  }

  predicate InOrder(x: U128, y: U128) {
    Exp2Spec(x).Some? && Exp2Spec(y).Some? && Exp2Spec(x).value <= Exp2Spec(y).value
  }

  /** That holds for a distance of two and more, and for no smaller one. */
  lemma OrderedIff(d: nat)
    ensures OrderedFrom(d) <==> d >= 2
  {
    hide Exp2Spec;
    if d >= 2 {
      forall x: U128, y: U128 | x + d <= y < PERIOD && Exp2Spec(y).Some?
        ensures InOrder(x, y)
      {
        Exp2FixedOrdered(x, y);
      }
    } else {
      Exp2FixedNotMonotone();
      assert !InOrder(67 * B64 + 15, 67 * B64 + 16);
    }
  }

  /** The fixed-point form itself is not monotone: at integer part 67 the
      fraction 15/2^64 gives 16 units more than the fraction 16/2^64. */
  lemma Exp2FixedNotMonotone()
    ensures Exp2Spec(67 * B64 + 15).Some? && Exp2Spec(67 * B64 + 16).Some?
    ensures Exp2Spec(67 * B64 + 15).value == Exp2Spec(67 * B64 + 16).value + 16
  {
    SpecAt(67 * B64 + 15, 67, 15);
    SpecAt(67 * B64 + 16, 67, 16);
    SmallFractions(Exp2Factors());
    LastFactors();
    SmallSteps();
    ScaledValues(Scaled(67, 15), Scaled(67, 16));
  }

  lemma ScaledValues(v: nat, w: nat)
    requires v == Step(Step(Step(Step(P191, B64 + 6), B64 + 3), B64 + 1), B64 + 1) * ONE_ETHER / Pow2(124)
    requires w == Step(P191, B64 + 11) * ONE_ETHER / Pow2(124)
    ensures v == w + 16 && v < B128
  {
    SmallSteps();
    Power124();
  }

  lemma LastFactors()
    ensures Exp2Factors()[59] == B64 + 11 && Exp2Factors()[60] == B64 + 6 && Exp2Factors()[61] == B64 + 3
    ensures Exp2Factors()[62] == B64 + 1 && Exp2Factors()[63] == B64 + 1
  {}

  lemma SmallSteps()
    ensures Step(P191, B64 + 11) == 0x800000000000000580000000000000000000000000000000
    ensures Step(Step(Step(Step(P191, B64 + 6), B64 + 3), B64 + 1), B64 + 1)
         == 0x800000000000000580000000000000128000000000000016
  {
    var a := Step(P191, B64 + 6);
    assert a == 0x800000000000000300000000000000000000000000000000;
    var b := Step(a, B64 + 3);
    assert b == 0x800000000000000480000000000000090000000000000000;
    var c := Step(b, B64 + 1);
    assert c == 0x8000000000000005000000000000000d8000000000000009;
  }

  lemma Power124()
    ensures Pow2(124) == 0x1000_0000_0000_0000_0000_0000_0000_0000
  {
    Pow2Values();
    Pow2Add(124, 4);
    assert Pow2(4) == 16;
  }

  /** The chain at the fractions 15 and 16, by its last five factors. */
  lemma SmallFractions(fs: seq<nat>)
    requires |fs| == 64
    ensures Chain(fs, 0, P191, 16) == Step(P191, fs[59])
    ensures Chain(fs, 0, P191, 15) == Step(Step(Step(Step(P191, fs[60]), fs[61]), fs[62]), fs[63])
  {
    assert Pow2(5) == 32 && Pow2(4) == 16 && Pow2(3) == 8 && Pow2(2) == 4 && Pow2(1) == 2 && Pow2(0) == 1;
    ChainSkip(fs, 0, 59, P191, 16);
    ChainSkip(fs, 60, 64, Step(P191, fs[59]), 0);
    ChainSkip(fs, 0, 60, P191, 15);
    var a := Step(P191, fs[60]);
    var b := Step(a, fs[61]);
    var c := Step(b, fs[62]);
    assert Chain(fs, 60, P191, 15) == Chain(fs, 61, a, 7);
    assert Chain(fs, 61, a, 7) == Chain(fs, 62, b, 3);
    assert Chain(fs, 62, b, 3) == Chain(fs, 63, c, 1);
  }

  // ------------------------------------------------------------------
  // Which arguments have a result
  // ------------------------------------------------------------------

  /** The chain over the table, from factor i on. */
  function Run(i: nat, r: nat, a: nat): nat
    requires i <= 64
  {
    Chain(Exp2Factors(), i, r, a)
  }

  /** Clear bits from i to j, and then the set bit j of weight 2^k. */
  lemma ToBit(i: nat, j: nat, k: nat, r: nat, a: nat, v: nat)
    requires i <= j && j + k == 63 && Pow2(k) <= a < 2 * Pow2(k) && v == Step(r, Factor(j))
    ensures Run(i, r, a) == Run(j + 1, v, a - Pow2(k))
  {
    hide Factor, Exp2Factors, Step, Chain;
    SetBit(j, k, r, a, v);
    ChainSkip(Exp2Factors(), i, j, r, a);
  }

  lemma SetBit(j: nat, k: nat, r: nat, a: nat, v: nat)
    requires j + k == 63 && Pow2(k) <= a && v == Step(r, Factor(j))
    ensures Run(j, r, a) == Run(j + 1, v, a - Pow2(k))
  {
    hide Factor, Exp2Factors, Step;
  }

  /** The weights of the set bits of the boundary fraction. */
  lemma LowestWeights()
    ensures Pow2(3) == 0x8
    ensures Pow2(4) == 0x10
    ensures Pow2(5) == 0x20
    ensures Pow2(6) == 0x40
  {}

  lemma Weights()
    ensures Pow2(3) == 0x8
    ensures Pow2(4) == 0x10
    ensures Pow2(5) == 0x20
    ensures Pow2(6) == 0x40
    ensures Pow2(11) == 0x800
    ensures Pow2(13) == 0x2000
    ensures Pow2(14) == 0x4000
    ensures Pow2(15) == 0x8000
    ensures Pow2(22) == 0x400000
    ensures Pow2(28) == 0x10000000
    ensures Pow2(30) == 0x40000000
    ensures Pow2(33) == 0x200000000
  {
    hide Pow2;
    LowestWeights();
    Pow2Byte();
    Pow2Add(8, 3);
    Pow2Add(8, 5);
    Pow2Add(8, 6);
    Pow2Add(11, 4);
    Pow2Add(11, 11);
    Pow2Add(22, 6);
    Pow2Add(15, 15);
    Pow2Add(22, 11);
  }

  lemma HighWeights()
    ensures Pow2(33) == 0x200000000
    ensures Pow2(34) == 0x400000000
    ensures Pow2(35) == 0x800000000
    ensures Pow2(37) == 0x2000000000
    ensures Pow2(39) == 0x8000000000
    ensures Pow2(41) == 0x20000000000
    ensures Pow2(43) == 0x80000000000
    ensures Pow2(45) == 0x200000000000
    ensures Pow2(49) == 0x2000000000000
    ensures Pow2(50) == 0x4000000000000
    ensures Pow2(51) == 0x8000000000000
    ensures Pow2(55) == 0x80000000000000
    ensures Pow2(58) == 0x400000000000000
    ensures Pow2(60) == 0x1000000000000000
    ensures Pow2(61) == 0x2000000000000000
  {
    hide Pow2;
    LowestWeights();
    Weights();
    Pow2Add(30, 4);
    Pow2Add(30, 5);
    Pow2Add(33, 4);
    Pow2Add(33, 6);
    Pow2Add(37, 4);
    Pow2Add(37, 6);
    Pow2Add(41, 4);
    Pow2Add(43, 6);
    Pow2Add(45, 5);
    Pow2Add(45, 6);
    Pow2Add(49, 6);
    Pow2Add(55, 3);
    Pow2Add(55, 5);
    Pow2Add(55, 6);
  }

  lemma Leg0(b: nat)
    requires b < 8
    ensures Run(0, P191, 0x348E2AAE5040E878 + b)
         == Run(6, 0x935A2B2F13E6E92C1C688A840FA14D293273FBE2A135A08A, 0x8E2AAE5040E878 + b)
  {
    hide Run, Pow2;
    HighWeights();
    ToBit(0, 2, 61, P191, 0x348E2AAE5040E878 + b,
          0x8B95C1E3EA8BD6E700000000000000000000000000000000);
    ToBit(3, 3, 60, 0x8B95C1E3EA8BD6E700000000000000000000000000000000, 0x148E2AAE5040E878 + b,
          0x91C3D373AB11C336539C77D1E5633BE60000000000000000);
    ToBit(4, 5, 58, 0x91C3D373AB11C336539C77D1E5633BE60000000000000000, 0x48E2AAE5040E878 + b,
          0x935A2B2F13E6E92C1C688A840FA14D293273FBE2A135A08A);
  }

  lemma Leg1(b: nat)
    requires b < 8
    ensures Run(6, 0x935A2B2F13E6E92C1C688A840FA14D293273FBE2A135A08A, 0x8E2AAE5040E878 + b)
         == Run(14, 0x939210ECA6703EAAC05B98E67E63B31C0498845415E20767, 0x22AAE5040E878 + b)
  {
    hide Run, Pow2;
    HighWeights();
    ToBit(6, 8, 55, 0x935A2B2F13E6E92C1C688A840FA14D293273FBE2A135A08A, 0x8E2AAE5040E878 + b,
          0x938D458B78517F3C079794542CBCA803D518B16E889B6205);
    ToBit(9, 12, 51, 0x938D458B78517F3C079794542CBCA803D518B16E889B6205, 0xE2AAE5040E878 + b,
          0x939077C7D362569957EFEDA4D569580B8F5E260C04DC368B);
    ToBit(13, 13, 50, 0x939077C7D362569957EFEDA4D569580B8F5E260C04DC368B, 0x62AAE5040E878 + b,
          0x939210ECA6703EAAC05B98E67E63B31C0498845415E20767);
  }

  lemma Leg2(b: nat)
    requires b < 8
    ensures Run(14, 0x939210ECA6703EAAC05B98E67E63B31C0498845415E20767, 0x22AAE5040E878 + b)
         == Run(21, 0x9392ED7C56CA2744F936816E467831EA0BFC4F782AF4BA12, 0x2AE5040E878 + b)
  {
    hide Run, Pow2;
    HighWeights();
    ToBit(14, 14, 49, 0x939210ECA6703EAAC05B98E67E63B31C0498845415E20767, 0x22AAE5040E878 + b,
          0x9392DD80B95DF1CB91540BEE84A8FD6F8B664CB7AA2936A8);
    ToBit(15, 18, 45, 0x9392DD80B95DF1CB91540BEE84A8FD6F8B664CB7AA2936A8, 0x2AAE5040E878 + b,
          0x9392EA4A03F775E147E25A091511A1ACF03F714E5ACBFD42);
    ToBit(19, 20, 43, 0x9392EA4A03F775E147E25A091511A1ACF03F714E5ACBFD42, 0xAAE5040E878 + b,
          0x9392ED7C56CA2744F936816E467831EA0BFC4F782AF4BA12);
  }

  lemma Leg3(b: nat)
    requires b < 8
    ensures Run(21, 0x9392ED7C56CA2744F936816E467831EA0BFC4F782AF4BA12, 0x2AE5040E878 + b)
         == Run(27, 0x9392EE88D9FB263B3573C273961A69F452CBB1A42AEC556C, 0xE5040E878 + b)
  {
    hide Run, Pow2;
    HighWeights();
    ToBit(21, 22, 41, 0x9392ED7C56CA2744F936816E467831EA0BFC4F782AF4BA12, 0x2AE5040E878 + b,
          0x9392EE48EB8198A412C7A2016FC7FE796FE724ECA91F8727);
    ToBit(23, 24, 39, 0x9392EE48EB8198A412C7A2016FC7FE796FE724ECA91F8727, 0xAE5040E878 + b,
          0x9392EE7C10AFA14C4A12E0B3572E67FE6D62A527481A4975);
    ToBit(25, 26, 37, 0x9392EE7C10AFA14C4A12E0B3572E67FE6D62A527481A4975, 0x2E5040E878 + b,
          0x9392EE88D9FB263B3573C273961A69F452CBB1A42AEC556C);
  }

  lemma Leg4(b: nat)
    requires b < 8
    ensures Run(27, 0x9392EE88D9FB263B3573C273961A69F452CBB1A42AEC556C, 0xE5040E878 + b)
         == Run(31, 0x9392EE8E720C30BD2C47E7D50AE69773FC0385373A82BA6D, 0x5040E878 + b)
  {
    hide Run, Pow2;
    HighWeights();
    ToBit(27, 28, 35, 0x9392EE88D9FB263B3573C273961A69F452CBB1A42AEC556C, 0xE5040E878 + b,
          0x9392EE8C0C4E07A352E589651250126EC60F3FCD89988609);
    ToBit(29, 29, 34, 0x9392EE8C0C4E07A352E589651250126EC60F3FCD89988609, 0x65040E878 + b,
          0x9392EE8DA577785DF032C0423C84ECDCB842A7D3AE82F160);
    ToBit(30, 30, 33, 0x9392EE8DA577785DF032C0423C84ECDCB842A7D3AE82F160, 0x25040E878 + b,
          0x9392EE8E720C30BD2C47E7D50AE69773FC0385373A82BA6D);
  }

  lemma Leg5(b: nat)
    requires b < 8
    ensures Run(31, 0x9392EE8E720C30BD2C47E7D50AE69773FC0385373A82BA6D, 0x5040E878 + b)
         == Run(42, 0x9392EE8E921D0022E763F96D6049B69F276FCCB203F4A204, 0xE878 + b)
  {
    hide Run, Pow2;
    Weights();
    ToBit(31, 33, 30, 0x9392EE8E720C30BD2C47E7D50AE69773FC0385373A82BA6D, 0x5040E878 + b,
          0x9392EE8E8B9EC7C924CBAF2C8FE980D7353CC62834FB6D98);
    ToBit(34, 35, 28, 0x9392EE8E8B9EC7C924CBAF2C8FE980D7353CC62834FB6D98, 0x1040E878 + b,
          0x9392EE8E92036D8BDA3EC5BCE3169A325F0D6254860D7B31);
    ToBit(36, 41, 22, 0x9392EE8E92036D8BDA3EC5BCE3169A325F0D6254860D7B31, 0x40E878 + b,
          0x9392EE8E921D0022E763F96D6049B69F276FCCB203F4A204);
  }

  lemma Leg6(b: nat)
    requires b < 8
    ensures Run(42, 0x9392EE8E921D0022E763F96D6049B69F276FCCB203F4A204, 0xE878 + b)
         == Run(51, 0x9392EE8E921D59A410DBA9C3CE9572AEC684E66700D00AE9, 0x878 + b)
  {
    hide Run, Pow2;
    Weights();
    ToBit(42, 48, 15, 0x9392EE8E921D0022E763F96D6049B69F276FCCB203F4A204, 0xE878 + b,
          0x9392EE8E921D33480E9360AEEF4ACF62BC6CA5D5F0005095);
    ToBit(49, 49, 14, 0x9392EE8E921D33480E9360AEEF4ACF62BC6CA5D5F0005095, 0x6878 + b,
          0x9392EE8E921D4CDAEBF48B9708B6D3115C94D683B9D29FD6);
    ToBit(50, 50, 13, 0x9392EE8E921D4CDAEBF48B9708B6D3115C94D683B9D29FD6, 0x2878 + b,
          0x9392EE8E921D59A410DBA9C3CE9572AEC684E66700D00AE9);
  }

  lemma Leg7(b: nat)
    requires b < 8
    ensures Run(51, 0x9392EE8E921D59A410DBA9C3CE9572AEC684E66700D00AE9, 0x878 + b)
         == Run(59, 0x9392EE8E921D5CFCAFC06957F4F49E408C04925C503FC083, 0x18 + b)
  {
    hide Run, Pow2;
    Weights();
    ToBit(51, 52, 11, 0x9392EE8E921D59A410DBA9C3CE9572AEC684E66700D00AE9, 0x878 + b,
          0x9392EE8E921D5CD6A3DEE8964962ACBC48F69084E5C82C5E);
    ToBit(53, 57, 6, 0x9392EE8E921D5CD6A3DEE8964962ACBC48F69084E5C82C5E, 0x78 + b,
          0x9392EE8E921D5CF0011FE917666EA1A073468A5982BDDCBA);
    ToBit(58, 58, 5, 0x9392EE8E921D5CF0011FE917666EA1A073468A5982BDDCBA, 0x38 + b,
          0x9392EE8E921D5CFCAFC06957F4F49E408C04925C503FC083);
  }

  lemma Leg8(b: nat)
    requires b < 8
    ensures Run(59, 0x9392EE8E921D5CFCAFC06957F4F49E408C04925C503FC083, 0x18 + b)
         == Run(61, 0x9392EE8E921D5D067C8240CFA8E7CB2E43AD11F540103BF1, b)
  {
    hide Run, Pow2;
    Weights();
    ToBit(59, 59, 4, 0x9392EE8E921D5CFCAFC06957F4F49E408C04925C503FC083, 0x18 + b,
          0x9392EE8E921D5D030710A9783C379D1C19491923D6C28D49);
    ToBit(60, 60, 3, 0x9392EE8E921D5D030710A9783C379D1C19491923D6C28D49, 0x8 + b,
          0x9392EE8E921D5D067C8240CFA8E7CB2E43AD11F540103BF1);
  }

  /** The chain at the fractions around the first one without a result. */
  lemma Boundary(b: nat)
    requires 1 <= b <= 4
    ensures var c := Run(0, P191, 0x348E2AAE5040E878 + b);
            if b <= 2 then c == 0x9392EE8E921D5D0710152F5E3B052834C02F52C4E8F8071F
            else c >= 0x9392EE8E921D5D07A3A81DECCD22853BD044822323FD2F53
  {
    hide Run, Step;
    Leg0(b);
    Leg1(b);
    Leg2(b);
    Leg3(b);
    Leg4(b);
    Leg5(b);
    Leg6(b);
    Leg7(b);
    Leg8(b);
    var r := 0x9392EE8E921D5D067C8240CFA8E7CB2E43AD11F540103BF1;
    LastBits(r, b);
    LastSteps();
  }

  lemma LastBits(r: nat, b: nat)
    requires 1 <= b <= 4
    ensures Run(61, r, 1) == Step(r, Factor(63)) && Run(61, r, 2) == Step(r, Factor(62))
    ensures Run(61, r, 3) == Step(Step(r, Factor(62)), Factor(63)) && Run(61, r, 4) == Step(r, Factor(61))
  {
    hide Factor, Exp2Factors, Step;
    var fs := Exp2Factors();
    assert Pow2(3) == 8 && Pow2(2) == 4 && Pow2(1) == 2 && Pow2(0) == 1;
    var s := Step(r, fs[62]);
    ChainSkip(fs, 61, 63, r, 1);
    ChainSkip(fs, 61, 62, r, 2);
    ChainSkip(fs, 63, 64, s, 0);
    ChainSkip(fs, 61, 62, r, 3);
    ChainSkip(fs, 62, 64, Step(r, fs[61]), 0);
    assert Chain(fs, 63, r, 1) == Chain(fs, 64, Step(r, fs[63]), 0);
    assert Chain(fs, 62, r, 2) == Chain(fs, 63, s, 0);
    assert Chain(fs, 62, r, 3) == Chain(fs, 63, s, 1) == Chain(fs, 64, Step(s, fs[63]), 0);
    assert Chain(fs, 61, r, 4) == Chain(fs, 62, Step(r, fs[61]), 0);
  }

  lemma LastSteps()
    ensures var r := 0x9392EE8E921D5D067C8240CFA8E7CB2E43AD11F540103BF1;
            && Step(r, Factor(63)) == Step(r, Factor(62)) == 0x9392EE8E921D5D0710152F5E3B052834C02F52C4E8F8071F
            && Step(Step(r, Factor(62)), Factor(63)) == 0x9392EE8E921D5D07A3A81DECCD22853BD044822323FD2F53
            && Step(r, Factor(61)) == 0x9392EE8E921D5D08373B0C7B5F3FE241B933D4643AC79D7B
  {}

  /** Integer part 68 has a result exactly for the fractions below FIRST_UNFIT. */
  lemma PartSixtyEight(a: nat)
    requires a < B64
    ensures Fit(Scaled(68, a)).Some? <==> a < FIRST_UNFIT
  {
    hide Chain, Factor, Exp2Factors, Scaled;
    Boundary(1);
    Boundary(2);
    Boundary(3);
    Boundary(4);
    ScaledAt(a);
    if a < FIRST_UNFIT {
      if a + 2 <= FIRST_UNFIT - 1 {
        FractionMonotone(a, FIRST_UNFIT - 1);
      }
    } else if a >= FIRST_UNFIT + 2 {
      FractionMonotone(FIRST_UNFIT, a);
    }
  }

  lemma ScaledAt(a: nat)
    ensures Run(0, P191, a) <= 0x9392EE8E921D5D0710152F5E3B052834C02F52C4E8F8071F ==> Scaled(68, a) < B128
    ensures Run(0, P191, a) >= 0x9392EE8E921D5D07A3A81DECCD22853BD044822323FD2F53 ==> Scaled(68, a) >= B128
    ensures Run(0, P191, a) == Chain(Exp2Factors(), 0, P191, a)
  {
    hide Chain, Factor, Exp2Factors;
    Power123();
    DivBelow(Run(0, P191, a) * ONE_ETHER, Pow2(123), B128);
  }

  lemma Power123()
    ensures Pow2(123) == 0x800_0000_0000_0000_0000_0000_0000_0000
  {
    Power124();
  }

  /** The function answers exactly up to 68 and the fraction before FIRST_UNFIT,
      in every period. */
  lemma Exp2FixedRange(x: U128)
    ensures Exp2Spec(x).Some? <==> x % PERIOD < 68 * B64 + FIRST_UNFIT
  {
    hide Exp2Spec, Scaled;
    var y := x % PERIOD;
    Exp2FixedPeriodic(x);
    PartsOf(y);
    var q, a := y / B64, y % B64;
    if q == 68 {
      PartSixtyEight(a);
    } else if q < 192 {
      ScaledRange(q, a);
      FitRange(q, Scaled(q, a));
    }
  }
}
