/** The IMA ADPCM sample codec: one 4-bit code for each 16-bit sample.

    Encoder and decoder are written out separately, as they are in the firmware: the
    encoder sums the reconstructed difference while it searches for the code
    (`EncodeSample`), the decoder rebuilds it from the bits of the code (`DecodeSample`).
    Shifts and masks by constants are written as division and remainder; every operand
    of such a shift is non-negative. */
module Adpcm {
  import opened Types

  type Nibble = x: int | 0 <= x < 16
  type StepIndex = x: int | 0 <= x <= 88

  /** The step table. */
  function StepSize(index: StepIndex): (step: nat)
    ensures 7 <= step <= 32767
  {
    if index < 22 then Steps0(index) else if index < 44 then Steps22(index)
    else if index < 66 then Steps44(index) else Steps66(index)
  }

  function Steps0(index: StepIndex): (step: nat)
    requires 0 <= index <= 21
    ensures 7 <= step <= 55
  {
    match index
    case 0 => 7 case 1 => 8 case 2 => 9 case 3 => 10 case 4 => 11 case 5 => 12
    case 6 => 13 case 7 => 14 case 8 => 16 case 9 => 17 case 10 => 19 case 11 => 21
    case 12 => 23 case 13 => 25 case 14 => 28 case 15 => 31 case 16 => 34 case 17 => 37
    case 18 => 41 case 19 => 45 case 20 => 50
    case _ => 55
  }

  function Steps22(index: StepIndex): (step: nat)
    requires 22 <= index <= 43
    ensures 60 <= step <= 449
  {
    match index
    case 22 => 60 case 23 => 66 case 24 => 73 case 25 => 80 case 26 => 88 case 27 => 97
    case 28 => 107 case 29 => 118 case 30 => 130 case 31 => 143 case 32 => 157 case 33 => 173
    case 34 => 190 case 35 => 209 case 36 => 230 case 37 => 253 case 38 => 279 case 39 => 307
    case 40 => 337 case 41 => 371 case 42 => 408
    case _ => 449
  }

  function Steps44(index: StepIndex): (step: nat)
    requires 44 <= index <= 65
    ensures 494 <= step <= 3660
  {
    match index
    case 44 => 494 case 45 => 544 case 46 => 598 case 47 => 658 case 48 => 724 case 49 => 796
    case 50 => 876 case 51 => 963 case 52 => 1060 case 53 => 1166 case 54 => 1282 case 55 => 1411
    case 56 => 1552 case 57 => 1707 case 58 => 1878 case 59 => 2066 case 60 => 2272 case 61 => 2499
    case 62 => 2749 case 63 => 3024 case 64 => 3327
    case _ => 3660
  }

  function Steps66(index: StepIndex): (step: nat)
    requires 66 <= index <= 88
    ensures 4026 <= step <= 32767
  {
    match index
    case 66 => 4026 case 67 => 4428 case 68 => 4871 case 69 => 5358 case 70 => 5894 case 71 => 6484
    case 72 => 7132 case 73 => 7845 case 74 => 8630 case 75 => 9493 case 76 => 10442 case 77 => 11487
    case 78 => 12635 case 79 => 13899 case 80 => 15289 case 81 => 16818 case 82 => 18500 case 83 => 20350
    case 84 => 22385 case 85 => 24623 case 86 => 27086 case 87 => 29794
    case _ => 32767
  }

  /** The index table: small codes shrink the step, large ones grow it. */
  function IndexStep(code: Nibble): int {
    match code % 8
    case 4 => 2
    case 5 => 4
    case 6 => 6
    case 7 => 8
    case _ => -1
  }

  /** The state both sides carry from sample to sample. */
  datatype Predictor = Predictor(predict: s16, index: StepIndex) {
    function Step(): nat { StepSize(index) }
  }

  function Clamp(x: int, lo: int, hi: int): int {
    if x > hi then hi else if x < lo then lo else x
  }

  function ClampSample(x: int): s16 { Clamp(x, -32768, 32767) }

  function ClampIndex(x: int): StepIndex { Clamp(x, 0, 88) }

  function NextIndex(index: StepIndex, code: Nibble): StepIndex {
    ClampIndex(index + IndexStep(code))
  }

  // ------------------------------------------------------------------ encoder

  /** The variables of the quantiser loop. */
  datatype Quantiser = Quantiser(diff: int, step: nat, diffq: nat, code: nat)

  function Stage(q: Quantiser, j: nat): Quantiser {
    if q.diff >= q.step
    then Quantiser(q.diff - q.step, q.step / 2, q.diffq + q.step, q.code + j)
    else q.(step := q.step / 2)
  }

  function Quantise(diff: nat, step: nat): Quantiser {
    Stage(Stage(Stage(Quantiser(diff, step, step / 8, 0), 4), 2), 1)
  }

  /** The code for a sample and the new prediction, at a given step size. */
  function EncodeAt(predict: s16, step: nat, di: s16): (r: (Nibble, s16)) {
    var diff := if di >= predict then di - predict else predict - di;
    QuantiserDelta(diff, step);
    var q := Quantise(diff, step);
    var code := if di >= predict then q.code else q.code + 8;
    (code, ClampSample(if code >= 8 then predict - q.diffq else predict + q.diffq))
  }

  function EncodeSample(p: Predictor, di: s16): (r: (Nibble, Predictor)) {
    var (code, predict) := EncodeAt(p.predict, p.Step(), di);
    (code, Predictor(predict, NextIndex(p.index, code)))
  }

  // ------------------------------------------------------------------ decoder

  predicate Bit(code: nat, weight: nat)
    requires weight > 0
  {
    code / weight % 2 == 1
  }

  function Delta(step: nat, code: nat): nat {
    step / 8
      + (if Bit(code, 4) then step else 0)
      + (if Bit(code, 2) then step / 2 else 0)
      + (if Bit(code, 1) then step / 2 / 2 else 0)
  }

  function DecodeAt(predict: s16, step: nat, code: nat): s16 {
    ClampSample(if Bit(code, 8) then predict - Delta(step, code) else predict + Delta(step, code))
  }

  function DecodeSample(p: Predictor, code: nat): Predictor {
    Predictor(DecodeAt(p.predict, p.Step(), code), NextIndex(p.index, code % 16))
  }

  // ------------------------------------------------------------- one sample

  function Weight(b: bool, w: nat): nat { if b then w else 0 }

  lemma BitsOfSum(b8: bool, b4: bool, b2: bool, b1: bool)
    ensures var code := Weight(b8, 8) + Weight(b4, 4) + Weight(b2, 2) + Weight(b1, 1);
      Bit(code, 8) == b8 && Bit(code, 4) == b4 && Bit(code, 2) == b2 && Bit(code, 1) == b1
  {
  }

  /** What the quantiser loop summed up is what the bits of its code stand for, with
      the sign bit set or not. */
  lemma QuantiserDelta(diff: nat, step: nat)
    ensures var q := Quantise(diff, step);
      && q.code < 8 && q.diffq == Delta(step, q.code) == Delta(step, q.code + 8)
      && !Bit(q.code, 8) && Bit(q.code + 8, 8)
  {
    hide Bit, Quantise;
    var (b4, b2, b1) := Tests(diff, step);
    QuantiserSums(diff, step);
    BitsOfSum(false, b4, b2, b1);
    BitsOfSum(true, b4, b2, b1);
  }

  /** The outcomes of the three tests. */
  function Tests(diff: nat, step: nat): (bool, bool, bool) {
    var q1 := Stage(Quantiser(diff, step, step / 8, 0), 4);
    var q2 := Stage(q1, 2);
    (diff >= step, q1.diff >= q1.step, q2.diff >= q2.step)
  }

  lemma QuantiserSums(diff: nat, step: nat)
    ensures var (q, (b4, b2, b1)) := (Quantise(diff, step), Tests(diff, step));
      && q.code == Weight(b4, 4) + Weight(b2, 2) + Weight(b1, 1)
      && q.diffq == step / 8 + Weight(b4, step) + Weight(b2, step / 2) + Weight(b1, step / 2 / 2)
  {
  }

  lemma LockStepAt(predict: s16, step: nat, di: s16)
    ensures DecodeAt(predict, step, EncodeAt(predict, step, di).0) == EncodeAt(predict, step, di).1
  {
    hide Delta, Quantise, Bit;
    QuantiserDelta(if di >= predict then di - predict else predict - di, step);
  }

  /** The decoder computes from the code alone the very state the encoder moved to. */
  lemma LockStepSample(p: Predictor, di: s16)
    ensures DecodeSample(p, EncodeSample(p, di).0) == EncodeSample(p, di).1
  {
    hide StepSize, Quantise, DecodeAt;
    LockStepAt(p.predict, p.Step(), di);
    var code := EncodeSample(p, di).0;
    assert code % 16 == code;
  }

  predicate Overloaded(p: Predictor, di: s16) {
    di - p.predict >= 2 * p.Step() || p.predict - di >= 2 * p.Step()
  }

  predicate Within(x: int, y: int, bound: int) {
    -bound <= x - y <= bound
  }

  function LargestDelta(step: nat): nat { step + step / 2 + step / 2 / 2 + step / 8 }

  lemma QuantiserResidue(diff: nat, step: nat)
    requires 7 <= step
    ensures var q := Quantise(diff, step);
      && q.code <= 7
      && (diff < 2 * step ==> Within(diff, q.diffq, step / 8 + 2))
      && (diff >= 2 * step ==> q.code == 7 && q.diffq == LargestDelta(step) < diff)
  {
  }

  lemma QuantisationAt(predict: s16, step: nat, di: s16)
    requires 7 <= step
    ensures var (code, predict') := EncodeAt(predict, step, di);
      && (-2 * step < di - predict < 2 * step ==> Within(di, predict', step / 8 + 2))
      && (di - predict >= 2 * step ==> code == 7 && predict' == predict + LargestDelta(step) < di)
      && (predict - di >= 2 * step ==> code == 15 && di < predict' == predict - LargestDelta(step))
  {
    hide Quantise, LargestDelta;
    QuantiserResidue(if di >= predict then di - predict else predict - di, step);
  }

  /** Out of slope overload the new prediction is within step/8 + 2 of the sample, even
      when it is clamped. In overload the code is the largest one, and the prediction
      moves towards the sample by 15/8 of a step without reaching it. */
  lemma QuantisationBound(p: Predictor, di: s16)
    ensures var (code, p') := EncodeSample(p, di);
      && (!Overloaded(p, di) ==> Within(di, p'.predict, p.Step() / 8 + 2))
      && (Overloaded(p, di) && di > p.predict ==> code == 7 && p'.predict == p.predict + LargestDelta(p.Step()) < di)
      && (Overloaded(p, di) && di < p.predict ==> code == 15 && di < p'.predict == p.predict - LargestDelta(p.Step()))
  {
    QuantisationAt(p.predict, p.Step(), di);
  }

  // ------------------------------------------------------------ runs of samples

  /** The state after a run of samples. */
  function Track(p: Predictor, xs: seq<s16>): Predictor {
    if |xs| == 0 then p
    else EncodeSample(Track(p, xs[..|xs| - 1]), xs[|xs| - 1]).1
  }

  lemma TrackStep(p: Predictor, xs: seq<s16>, k: nat)
    requires k < |xs|
    ensures Track(p, xs[..k + 1]) == EncodeSample(Track(p, xs[..k]), xs[k]).1
  {
    assert xs[..k + 1][..k] == xs[..k];
  }

  /** The codes of a run of samples. */
  function Codes(p: Predictor, xs: seq<s16>): (codes: seq<Nibble>)
    ensures |codes| == |xs|
  {
    if |xs| == 0 then []
    else Codes(p, xs[..|xs| - 1]) + [EncodeSample(Track(p, xs[..|xs| - 1]), xs[|xs| - 1]).0]
  }

  /** The encoder's own prediction after each sample of a run. */
  function Trajectory(p: Predictor, xs: seq<s16>): (ys: seq<s16>)
    ensures |ys| == |xs|
  {
    if |xs| == 0 then []
    else Trajectory(p, xs[..|xs| - 1]) + [Track(p, xs).predict]
  }

  /** The decoder's state after a run of codes. */
  function Final(p: Predictor, codes: seq<Nibble>): Predictor {
    if |codes| == 0 then p
    else DecodeSample(Final(p, codes[..|codes| - 1]), codes[|codes| - 1])
  }

  /** The samples the decoder puts out for a run of codes. */
  function Pcm(p: Predictor, codes: seq<Nibble>): (ys: seq<s16>)
    ensures |ys| == |codes|
  {
    if |codes| == 0 then []
    else Pcm(p, codes[..|codes| - 1]) + [Final(p, codes).predict]
  }

  /** Lock-step over a run: decoding the codes of a run reproduces the encoder's
      predictions and ends in the encoder's state. */
  lemma {:induction false} LockStepRun(p: Predictor, xs: seq<s16>)
    ensures Final(p, Codes(p, xs)) == Track(p, xs)
    ensures Pcm(p, Codes(p, xs)) == Trajectory(p, xs)
  {
    hide EncodeSample, DecodeSample;
    if |xs| > 0 {
      var n := |xs| - 1;
      LockStepRun(p, xs[..n]);
      LockStepSample(Track(p, xs[..n]), xs[n]);
      assert Codes(p, xs)[..n] == Codes(p, xs[..n]);
    }
  }

  /** A run may be cut anywhere. */
  lemma {:induction false} RunConcat(p: Predictor, a: seq<s16>, b: seq<s16>)
    ensures Track(p, a + b) == Track(Track(p, a), b)
    ensures Trajectory(p, a + b) == Trajectory(p, a) + Trajectory(Track(p, a), b)
  {
    hide EncodeSample;
    if |b| == 0 {
      assert a + b == a;
    } else {
      var n := |b| - 1;
      RunConcat(p, a, b[..n]);
      assert (a + b)[..|a + b| - 1] == a + b[..n];
    }
  }
}
