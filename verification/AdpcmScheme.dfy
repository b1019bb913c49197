/** The laws of the ADPCM scheme, stated without its tables: the step sizes are a geometric
    row, a code is the quotient of difference and step, and the index follows the quotient. */
module AdpcmScheme {
  import opened Types
  import opened Adpcm

  // ----------------------------------------------------------------- step sizes

  function Power(b: nat, k: nat): (p: nat)
  {
    if k == 0 then 1 else b * Power(b, k - 1)
  }

  /** `step` is 16 * 1.1^k, rounded down. */
  predicate Geometric(step: nat, k: nat) {
    step * Power(10, k) <= 16 * Power(11, k) < (step + 1) * Power(10, k)
  }

  /** The first steps grow by one; from the ninth on each is 16 * 1.1^k rounded down; the last
      is the largest 16-bit sample. */
  lemma StepSizeLaw(i: StepIndex)
    ensures i < 8 ==> StepSize(i) == i + 7
    ensures 8 <= i < 88 ==> Geometric(StepSize(i), i - 8)
    ensures i == 88 ==> StepSize(i) == 32767
  {
    hide Geometric;
    if 8 <= i < 88 {
      if i < 18 { StepsFrom8(i); } else if i < 28 { StepsFrom18(i); }
      else if i < 38 { StepsFrom28(i); } else if i < 48 { StepsFrom38(i); }
      else if i < 58 { StepsFrom48(i); } else if i < 68 { StepsFrom58(i); }
      else if i < 78 { StepsFrom68(i); } else { StepsFrom78(i); }
    }
  }

  lemma StepsFrom8(i: StepIndex)
    requires 8 <= i < 18
    ensures Geometric(StepSize(i), i - 8)
  {
    Values8();
    Powers0();
    TenPowers(10, 0);
    TenPowers(11, 0);
    hide Power, StepSize, Geometric;
    match i
    case 8 => Fits(16, 0);
    case 9 => Fits(17, 1);
    case 10 => Fits(19, 2);
    case 11 => Fits(21, 3);
    case 12 => Fits(23, 4);
    case 13 => Fits(25, 5);
    case 14 => Fits(28, 6);
    case 15 => Fits(31, 7);
    case 16 => Fits(34, 8);
    case _ => Fits(37, 9);
  }

  lemma StepsFrom18(i: StepIndex)
    requires 18 <= i < 28
    ensures Geometric(StepSize(i), i - 8)
  {
    Values18();
    Powers10();
    TenPowers(10, 10);
    TenPowers(11, 10);
    hide Power, StepSize, Geometric;
    match i
    case 18 => Fits(41, 10);
    case 19 => Fits(45, 11);
    case 20 => Fits(50, 12);
    case 21 => Fits(55, 13);
    case 22 => Fits(60, 14);
    case 23 => Fits(66, 15);
    case 24 => Fits(73, 16);
    case 25 => Fits(80, 17);
    case 26 => Fits(88, 18);
    case _ => Fits(97, 19);
  }

  lemma StepsFrom28(i: StepIndex)
    requires 28 <= i < 38
    ensures Geometric(StepSize(i), i - 8)
  {
    Values28();
    Powers20();
    TenPowers(10, 20);
    TenPowers(11, 20);
    hide Power, StepSize, Geometric;
    match i
    case 28 => Fits(107, 20);
    case 29 => Fits(118, 21);
    case 30 => Fits(130, 22);
    case 31 => Fits(143, 23);
    case 32 => Fits(157, 24);
    case 33 => Fits(173, 25);
    case 34 => Fits(190, 26);
    case 35 => Fits(209, 27);
    case 36 => Fits(230, 28);
    case _ => Fits(253, 29);
  }

  lemma StepsFrom38(i: StepIndex)
    requires 38 <= i < 48
    ensures Geometric(StepSize(i), i - 8)
  {
    Values38();
    Powers30();
    TenPowers(10, 30);
    TenPowers(11, 30);
    hide Power, StepSize, Geometric;
    match i
    case 38 => Fits(279, 30);
    case 39 => Fits(307, 31);
    case 40 => Fits(337, 32);
    case 41 => Fits(371, 33);
    case 42 => Fits(408, 34);
    case 43 => Fits(449, 35);
    case 44 => Fits(494, 36);
    case 45 => Fits(544, 37);
    case 46 => Fits(598, 38);
    case _ => Fits(658, 39);
  }

  lemma StepsFrom48(i: StepIndex)
    requires 48 <= i < 58
    ensures Geometric(StepSize(i), i - 8)
  {
    Values48();
    Powers40();
    TenPowers(10, 40);
    TenPowers(11, 40);
    hide Power, StepSize, Geometric;
    match i
    case 48 => Fits(724, 40);
    case 49 => Fits(796, 41);
    case 50 => Fits(876, 42);
    case 51 => Fits(963, 43);
    case 52 => Fits(1060, 44);
    case 53 => Fits(1166, 45);
    case 54 => Fits(1282, 46);
    case 55 => Fits(1411, 47);
    case 56 => Fits(1552, 48);
    case _ => Fits(1707, 49);
  }

  lemma StepsFrom58(i: StepIndex)
    requires 58 <= i < 68
    ensures Geometric(StepSize(i), i - 8)
  {
    Values58();
    Powers50();
    TenPowers(10, 50);
    TenPowers(11, 50);
    hide Power, StepSize, Geometric;
    match i
    case 58 => Fits(1878, 50);
    case 59 => Fits(2066, 51);
    case 60 => Fits(2272, 52);
    case 61 => Fits(2499, 53);
    case 62 => Fits(2749, 54);
    case 63 => Fits(3024, 55);
    case 64 => Fits(3327, 56);
    case 65 => Fits(3660, 57);
    case 66 => Fits(4026, 58);
    case _ => Fits(4428, 59);
  }

  lemma StepsFrom68(i: StepIndex)
    requires 68 <= i < 78
    ensures Geometric(StepSize(i), i - 8)
  {
    Values68();
    Powers60();
    TenPowers(10, 60);
    TenPowers(11, 60);
    hide Power, StepSize, Geometric;
    match i
    case 68 => Fits(4871, 60);
    case 69 => Fits(5358, 61);
    case 70 => Fits(5894, 62);
    case 71 => Fits(6484, 63);
    case 72 => Fits(7132, 64);
    case 73 => Fits(7845, 65);
    case 74 => Fits(8630, 66);
    case 75 => Fits(9493, 67);
    case 76 => Fits(10442, 68);
    case _ => Fits(11487, 69);
  }

  lemma StepsFrom78(i: StepIndex)
    requires 78 <= i < 88
    ensures Geometric(StepSize(i), i - 8)
  {
    Values78();
    Powers70();
    TenPowers(10, 70);
    TenPowers(11, 70);
    hide Power, StepSize, Geometric;
    match i
    case 78 => Fits(12635, 70);
    case 79 => Fits(13899, 71);
    case 80 => Fits(15289, 72);
    case 81 => Fits(16818, 73);
    case 82 => Fits(18500, 74);
    case 83 => Fits(20350, 75);
    case 84 => Fits(22385, 76);
    case 85 => Fits(24623, 77);
    case 86 => Fits(27086, 78);
    case _ => Fits(29794, 79);
  }

  lemma Values8()
    ensures StepSize(8) == 16 && StepSize(9) == 17 && StepSize(10) == 19 && StepSize(11) == 21 && StepSize(12) == 23
    ensures StepSize(13) == 25 && StepSize(14) == 28 && StepSize(15) == 31 && StepSize(16) == 34 && StepSize(17) == 37
  {
  }

  lemma Values18()
    ensures StepSize(18) == 41 && StepSize(19) == 45 && StepSize(20) == 50 && StepSize(21) == 55 && StepSize(22) == 60
    ensures StepSize(23) == 66 && StepSize(24) == 73 && StepSize(25) == 80 && StepSize(26) == 88 && StepSize(27) == 97
  {
  }

  lemma Values28()
    ensures StepSize(28) == 107 && StepSize(29) == 118 && StepSize(30) == 130 && StepSize(31) == 143 && StepSize(32) == 157
    ensures StepSize(33) == 173 && StepSize(34) == 190 && StepSize(35) == 209 && StepSize(36) == 230 && StepSize(37) == 253
  {
  }

  lemma Values38()
    ensures StepSize(38) == 279 && StepSize(39) == 307 && StepSize(40) == 337 && StepSize(41) == 371 && StepSize(42) == 408
    ensures StepSize(43) == 449 && StepSize(44) == 494 && StepSize(45) == 544 && StepSize(46) == 598 && StepSize(47) == 658
  {
  }

  lemma Values48()
    ensures StepSize(48) == 724 && StepSize(49) == 796 && StepSize(50) == 876 && StepSize(51) == 963 && StepSize(52) == 1060
    ensures StepSize(53) == 1166 && StepSize(54) == 1282 && StepSize(55) == 1411 && StepSize(56) == 1552 && StepSize(57) == 1707
  {
  }

  lemma Values58()
    ensures StepSize(58) == 1878 && StepSize(59) == 2066 && StepSize(60) == 2272 && StepSize(61) == 2499 && StepSize(62) == 2749
    ensures StepSize(63) == 3024 && StepSize(64) == 3327 && StepSize(65) == 3660 && StepSize(66) == 4026 && StepSize(67) == 4428
  {
  }

  lemma Values68()
    ensures StepSize(68) == 4871 && StepSize(69) == 5358 && StepSize(70) == 5894 && StepSize(71) == 6484 && StepSize(72) == 7132
    ensures StepSize(73) == 7845 && StepSize(74) == 8630 && StepSize(75) == 9493 && StepSize(76) == 10442 && StepSize(77) == 11487
  {
  }

  lemma Values78()
    ensures StepSize(78) == 12635 && StepSize(79) == 13899 && StepSize(80) == 15289 && StepSize(81) == 16818 && StepSize(82) == 18500
    ensures StepSize(83) == 20350 && StepSize(84) == 22385 && StepSize(85) == 24623 && StepSize(86) == 27086 && StepSize(87) == 29794
  {
  }

  lemma Fits(step: nat, k: nat)
    requires step * Power(10, k) <= 16 * Power(11, k) < (step + 1) * Power(10, k)
    ensures Geometric(step, k)
  {
  }

  lemma Powers0()
    ensures Power(10, 0) == 1
    ensures Power(11, 0) == 1
  {
  }

  lemma Powers10()
    ensures Power(10, 10) == 10000000000
    ensures Power(11, 10) == 25937424601
  {
    Powers0();
    TenPowers(10, 0);
    TenPowers(11, 0);
    hide Power;
  }

  lemma Powers20()
    ensures Power(10, 20) == 100000000000000000000
    ensures Power(11, 20) == 672749994932560009201
  {
    Powers10();
    TenPowers(10, 10);
    TenPowers(11, 10);
    hide Power;
  }

  lemma Powers30()
    ensures Power(10, 30) == 1000000000000000000000000000000
    ensures Power(11, 30) == 17449402268886407318558803753801
  {
    Powers20();
    TenPowers(10, 20);
    TenPowers(11, 20);
    hide Power;
  }

  lemma Powers40()
    ensures Power(10, 40) == 10000000000000000000000000000000000000000
    ensures Power(11, 40) == 452592555681759518058893560348969204658401
  {
    Powers30();
    TenPowers(10, 30);
    TenPowers(11, 30);
    hide Power;
  }

  lemma Powers50()
    ensures Power(10, 50) == 100000000000000000000000000000000000000000000000000
    ensures Power(11, 50) == 11739085287969531650666649599035831993898213898723001
  {
    Powers40();
    TenPowers(10, 40);
    TenPowers(11, 40);
    hide Power;
  }

  lemma Powers60()
    ensures Power(10, 60) == 1000000000000000000000000000000000000000000000000000000000000
    ensures Power(11, 60) == 304481639541418099574449295360278774639038415066698088621947601
  {
    Powers50();
    TenPowers(10, 50);
    TenPowers(11, 50);
    hide Power;
  }

  lemma Powers70()
    ensures Power(10, 70) == 10000000000000000000000000000000000000000000000000000000000000000000000
    ensures Power(11, 70) == 7897469567994392174328988784504809847540729881935024059662581894710332201
  {
    Powers60();
    TenPowers(10, 60);
    TenPowers(11, 60);
    hide Power;
  }

  /** Ten powers in a row. */
  lemma TenPowers(b: nat, k: nat)
    ensures Power(b, k + 1) == b * Power(b, k) && Power(b, k + 2) == b * Power(b, k + 1)
    ensures Power(b, k + 3) == b * Power(b, k + 2) && Power(b, k + 4) == b * Power(b, k + 3)
    ensures Power(b, k + 5) == b * Power(b, k + 4) && Power(b, k + 6) == b * Power(b, k + 5)
    ensures Power(b, k + 7) == b * Power(b, k + 6) && Power(b, k + 8) == b * Power(b, k + 7)
    ensures Power(b, k + 9) == b * Power(b, k + 8) && Power(b, k + 10) == b * Power(b, k + 9)
  {
  }

  // ---------------------------------------------------------------- the encoder

  function Distance(di: s16, predict: s16): nat { if di >= predict then di - predict else predict - di }

  /** Where the differences of code `c` begin, at step `s`: `c` quarters of it, the half and the
      quarter rounded down. */
  function Threshold(s: nat, c: nat): nat
    requires c < 8
  {
    var half, quarter := s / 2, s / 4;
    match c
    case 0 => 0
    case 1 => quarter
    case 2 => half
    case 3 => half + quarter
    case 4 => s
    case 5 => s + quarter
    case 6 => s + half
    case _ => s + half + quarter
  }

  /** The code of a sample: its low bits say how many quarters of the step the difference
      holds, at most seven; its top bit is the sign. The prediction moves by that and an eighth. */
  lemma CodeLaw(p: Predictor, di: s16)
    ensures var ((code, p'), diff, s) := (EncodeSample(p, di), Distance(di, p.predict), p.Step());
      var c := code % 8;
      && (code >= 8 <==> di < p.predict)
      && Threshold(s, c) <= diff && (c < 7 ==> diff < Threshold(s, c + 1))
      && p'.predict == ClampSample(if di < p.predict then p.predict - Threshold(s, c) - s / 8 else p.predict + Threshold(s, c) + s / 8)
  {
    hide StepSize, Threshold, EncodeAt;
    CodeAtStep(p.predict, p.Step(), di);
  }

  lemma CodeAtStep(predict: s16, step: nat, di: s16)
    requires 7 <= step
    ensures var ((code, predict'), diff) := (EncodeAt(predict, step, di), Distance(di, predict));
      var c := code % 8;
      && (code >= 8 <==> di < predict)
      && Threshold(step, c) <= diff && (c < 7 ==> diff < Threshold(step, c + 1))
      && predict' == ClampSample(if di < predict then predict - Threshold(step, c) - step / 8 else predict + Threshold(step, c) + step / 8)
  {
    hide Threshold, ClampSample, Quantise;
    QuantiserLaw(Distance(di, predict), step);
  }

  lemma QuantiserLaw(diff: nat, step: nat)
    requires 7 <= step
    ensures var q := Quantise(diff, step);
      && q.code < 8 && q.diffq == Threshold(step, q.code) + step / 8
      && Threshold(step, q.code) <= diff && (q.code < 7 ==> diff < Threshold(step, q.code + 1))
  {
  }

  /** How the step index follows the difference: small ones lower it by one, larger ones
      raise it by two for every quarter of the step beyond three. */
  lemma IndexLaw(p: Predictor, di: s16)
    ensures var (index', diff, s) := (EncodeSample(p, di).1.index, Distance(di, p.predict), p.Step());
      var (half, quarter) := (s / 2, s / 4);
      && (diff < s ==> index' == if p.index > 0 then p.index - 1 else 0)
      && (s <= diff < s + quarter ==> index' == if p.index + 2 > 88 then 88 else p.index + 2)
      && (s + quarter <= diff < s + half ==> index' == if p.index + 4 > 88 then 88 else p.index + 4)
      && (s + half <= diff < s + half + quarter ==> index' == if p.index + 6 > 88 then 88 else p.index + 6)
      && (s + half + quarter <= diff ==> index' == if p.index + 8 > 88 then 88 else p.index + 8)
  {
    hide StepSize, EncodeAt;
    CodeLaw(p, di);
    var code := EncodeSample(p, di).0;
    IndexOfCode(p.index, code);
    Ordered(p.Step());
  }

  lemma Ordered(s: nat)
    requires 7 <= s
    ensures Threshold(s, 1) <= Threshold(s, 2) <= Threshold(s, 3) <= Threshold(s, 4) <= Threshold(s, 5) <= Threshold(s, 6) <= Threshold(s, 7)
  {
  }

  lemma IndexOfCode(index: StepIndex, code: Nibble)
    ensures var (c, index') := (code % 8, NextIndex(index, code));
      && (c < 4 ==> index' == if index > 0 then index - 1 else 0)
      && (c >= 4 ==> index' == if index + 2 * (c - 3) > 88 then 88 else index + 2 * (c - 3))
  {
  }

  // ---------------------------------------------------------------- the decoder

  /** What a code does to a decoder, whether an encoder in its state could send it or not: the
      prediction moves by 2c + 1 eighths of the step, rounded down by less than 17 eighths,
      up or down by the top bit; the index as in the encoder. */
  lemma DecoderLaw(p: Predictor, code: Nibble)
    ensures var (c, p', s) := (code % 8, DecodeSample(p, code), p.Step());
      && (exists d: nat :: (2 * c + 1) * s - 17 <= 8 * d <= (2 * c + 1) * s
           && p'.predict == ClampSample(if code >= 8 then p.predict - d else p.predict + d))
      && (c < 4 ==> p'.index == if p.index > 0 then p.index - 1 else 0)
      && (c >= 4 ==> p'.index == if p.index + 2 * (c - 3) > 88 then 88 else p.index + 2 * (c - 3))
  {
    hide StepSize, Delta, Bit, ClampSample, NextIndex;
    IndexOfCode(p.index, code);
    DeltaLaw(p.Step(), code);
    assert code % 16 == code;
    var d := Delta(p.Step(), code);
    assert (2 * (code % 8) + 1) * p.Step() - 17 <= 8 * d <= (2 * (code % 8) + 1) * p.Step();
  }

  lemma DeltaLaw(step: nat, code: Nibble)
    ensures (2 * (code % 8) + 1) * step - 17 <= 8 * Delta(step, code) <= (2 * (code % 8) + 1) * step
    ensures Bit(code, 8) <==> code >= 8
  {
    hide Bit;
    BitsOfCode(code);
    Parts(step);
    Eighths(step, Bit(code, 4), Bit(code, 2), Bit(code, 1));
  }

  lemma Eighths(step: nat, b4: bool, b2: bool, b1: bool)
    ensures (2 * (Weight(b4, 4) + Weight(b2, 2) + Weight(b1, 1)) + 1) * step
         == step + Weight(b4, 8 * step) + Weight(b2, 4 * step) + Weight(b1, 2 * step)
  {
    if b4 { if b2 { if b1 { } else { } } else if b1 { } else { } }
    else if b2 { if b1 { } else { } } else if b1 { } else { }
  }

  lemma BitsOfCode(code: Nibble)
    ensures Bit(code, 8) <==> code >= 8
    ensures Bit(code, 4) <==> code % 8 >= 4
    ensures Bit(code, 2) <==> code % 4 >= 2
    ensures Bit(code, 1) <==> code % 2 == 1
    ensures code % 8 == Weight(Bit(code, 4), 4) + Weight(Bit(code, 2), 2) + Weight(Bit(code, 1), 1)
  {
  }

  lemma Parts(step: nat)
    ensures step - 7 <= 8 * (step / 8) <= step && step - 1 <= 2 * (step / 2) <= step && step - 3 <= 4 * (step / 2 / 2) <= step
  {
  }
}
