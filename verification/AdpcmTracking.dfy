/** How the codec follows a signal: slope overload ends after at most eleven samples of any
    slowly moving signal, and never comes back while the signal stays slow. A constant
    input is reproduced to within two units after at most 101 samples. */
module AdpcmTracking {
  import opened Types
  import opened Adpcm

  /** The error the codec leaves once it is out of overload. */
  function Tolerance(p: Predictor): nat { p.Step() / 8 + 2 }

  /** No two neighbouring samples differ by more than 10. */
  predicate Slow(xs: seq<s16>) {
    forall k {:trigger xs[k]} :: 0 < k < |xs| ==> Within(xs[k], xs[k - 1], 10)
  }

  // ------------------------------------------------------- facts of the tables

  lemma StepTableGrows(i: StepIndex)
    requires 0 < i
    ensures StepSize(i - 1) < StepSize(i)
  {
    // one part of the table at a time
    if i <= 22 { } else if i <= 44 { } else if i <= 66 { } else { }
  }

  lemma StepTableRatio(i: StepIndex)
    requires 0 < i
    ensures 7 * StepSize(i) <= 8 * StepSize(i - 1)
  {
    // one part of the table at a time
    if i <= 22 { } else if i <= 44 { } else if i <= 66 { } else { }
  }

  lemma StepTableEnds()
    ensures StepSize(0) == 7 && StepSize(88) == 32767
  {
  }

  lemma StepTableMonotone(i: StepIndex, j: StepIndex)
    requires i <= j
    ensures StepSize(i) <= StepSize(j)
    decreases j - i
  {
    hide StepSize;
    if i < j {
      StepTableMonotone(i, j - 1);
      StepTableGrows(j);
    }
  }

  /** One sample lowers the step by at most one table entry. */
  lemma StepAfter(p: Predictor, di: s16)
    ensures var p' := EncodeSample(p, di).1;
      && p.index - 1 <= p'.index
      && Tolerance(p) < p'.Step() && Tolerance(p) + 10 < 2 * p'.Step()
  {
    hide StepSize, EncodeAt;
    var p' := EncodeSample(p, di).1;
    if p.index > 0 {
      StepTableRatio(p.index);
      StepTableMonotone(p.index - 1, p'.index);
    } else {
      StepTableMonotone(0, p'.index);
    }
  }

  // --------------------------------------------------------------- main results

  lemma LockKept(p: Predictor, di: s16, next: s16)
    requires !Overloaded(p, di) && Within(next, di, 10)
    ensures !Overloaded(EncodeSample(p, di).1, next)
  {
    hide StepSize, EncodeSample;
    QuantisationBound(p, di);
    StepAfter(p, di);
  }

  /** As long as every sample so far was in overload, the index climbs by 8 a sample and
      the distance to the signal shrinks. */
  lemma {:induction false} OverloadClimb(p: Predictor, xs: seq<s16>, k: nat)
    requires Slow(xs) && k < |xs|
    requires forall j :: 0 <= j < k ==> Overloaded(Track(p, xs[..j]), xs[j])
    ensures Climbed(Track(p, xs[..k]), xs[k], k)
  {
    hide StepSize, EncodeSample, Overloaded, Climbed;
    if k == 0 {
      NotClimbedYet(p, xs[0]);
    } else {
      OverloadClimb(p, xs, k - 1);
      TrackStep(p, xs, k - 1);
      assert Within(xs[k], xs[k - 1], 10);
      OverloadStep(Track(p, xs[..k - 1]), xs[k - 1], xs[k], k - 1);
    }
  }

  predicate Climbed(p: Predictor, di: s16, k: nat) {
    (p.index >= 8 * k || p.index == 88) && Within(di, p.predict, 65535 - k)
  }

  lemma NotClimbedYet(p: Predictor, di: s16)
    ensures Climbed(p, di, 0)
  {
  }

  lemma OverloadStep(p: Predictor, di: s16, next: s16, k: nat)
    requires Overloaded(p, di)
    ensures var p' := EncodeSample(p, di).1;
      && p'.index == (if p.index > 80 then 88 else p.index + 8)
      && (di > p.predict ==> p'.predict == p.predict + LargestDelta(p.Step()))
      && (Climbed(p, di, k) && Within(next, di, 10) ==> Climbed(p', next, k + 1))
  {
    hide StepSize, EncodeAt;
    QuantisationBound(p, di);
  }

  lemma {:induction false} LockKeptThroughout(p: Predictor, xs: seq<s16>, from: nat, k: nat)
    requires Slow(xs) && from <= k < |xs|
    requires !Overloaded(Track(p, xs[..from]), xs[from])
    ensures !Overloaded(Track(p, xs[..k]), xs[k])
  {
    hide StepSize, EncodeSample, Overloaded, Track;
    if from < k {
      LockKeptThroughout(p, xs, from, k - 1);
      TrackStep(p, xs, k - 1);
      LockKept(Track(p, xs[..k - 1]), xs[k - 1], xs[k]);
    }
  }

  /** From any state, only the first eleven samples of a slow signal can be in slope
      overload, and every later one is reproduced to within the tolerance. */
  lemma AcquiresSlowSignals(p: Predictor, xs: seq<s16>, k: nat)
    requires Slow(xs) && 11 <= k < |xs|
    ensures !Overloaded(Track(p, xs[..k]), xs[k])
    ensures Within(xs[k], Track(p, xs[..k + 1]).predict, Tolerance(Track(p, xs[..k])))
  {
    hide StepSize, EncodeSample;
    if forall j :: 0 <= j < 11 ==> Overloaded(Track(p, xs[..j]), xs[j]) {
      OverloadClimb(p, xs, 11);
      StepTableEnds();
      LockKeptThroughout(p, xs, 11, k);
    } else {
      var from: nat :| from < 11 && !Overloaded(Track(p, xs[..from]), xs[from]);
      LockKeptThroughout(p, xs, from, k);
    }
    TrackStep(p, xs, k);
    QuantisationBound(Track(p, xs[..k]), xs[k]);
  }

  /** The bound eleven is exact: a full-scale jump from the smallest step is still in
      overload at its eleventh sample. */
  lemma ElevenSamplesAreNeeded(j: nat)
    requires j < 11
    ensures Slow(Hold(32767, 11))
    ensures Overloaded(Track(Predictor(-32768, 0), Hold(32767, 11)[..j]), 32767)
  {
    hide StepSize;
    FullScaleJump(j);
    FullScaleOverload(j);
  }

  /** The predictions of that run. */
  function FullScaleRun(j: nat): Predictor
    requires j < 11
  {
    match j
    case 0 => Predictor(-32768, 0) case 1 => Predictor(-32757, 8) case 2 => Predictor(-32727, 16)
    case 3 => Predictor(-32664, 24) case 4 => Predictor(-32528, 32) case 5 => Predictor(-32235, 40)
    case 6 => Predictor(-31604, 48) case 7 => Predictor(-30247, 56) case 8 => Predictor(-27337, 64)
    case 9 => Predictor(-21101, 72) case _ => Predictor(-7729, 80)
  }

  lemma FullScaleOverload(j: nat)
    requires j < 11
    ensures Overloaded(FullScaleRun(j), 32767)
  {
  }

  lemma FullScaleStep(j: nat)
    requires 0 < j < 11
    ensures EncodeSample(FullScaleRun(j - 1), 32767).1 == FullScaleRun(j)
  {
    hide EncodeSample, Overloaded;
    FullScaleOverload(j - 1);
    OverloadStep(FullScaleRun(j - 1), 32767, 32767, 0);
    match j
    case 1 => case 2 => case 3 => case 4 => case 5 =>
    case 6 => case 7 => case 8 => case 9 => case _ =>
  }

  lemma {:induction false} FullScaleJump(j: nat)
    requires j < 11
    ensures Track(Predictor(-32768, 0), Hold(32767, 11)[..j]) == FullScaleRun(j)
  {
    hide EncodeSample;
    if j > 0 {
      hide FullScaleRun, Track;
      FullScaleJump(j - 1);
      TrackStep(Predictor(-32768, 0), Hold(32767, 11), j - 1);
      FullScaleStep(j);
    }
  }

  function Hold(x: s16, n: nat): seq<s16> { seq(n, _ => x) }

  /** After eleven samples of a constant, the index falls by one with every sample. */
  lemma {:induction false} IndexFalls(p: Predictor, x: s16, n: nat)
    requires 12 <= n
    ensures Track(p, Hold(x, n)).index <= if n < 100 then 100 - n else 0
    decreases n
  {
    hide StepSize, EncodeAt;
    if n > 12 {
      IndexFalls(p, x, n - 1);
      var xs := Hold(x, n);
      assert Hold(x, n - 1) == xs[..n - 1] && xs[..n - 2 + 1] == xs[..n - 1] && xs[..n - 1 + 1] == xs;
      AcquiresSlowSignals(p, xs, n - 2);
      TrackStep(p, xs, n - 2);
      StepAfter(Track(p, xs[..n - 2]), x);
      TrackStep(p, xs, n - 1);
      SmallDifferenceLowersIndex(Track(p, xs[..n - 1]), x);
    }
  }

  lemma SmallDifferenceLowersIndex(p: Predictor, di: s16)
    requires Within(di, p.predict, p.Step() - 1)
    ensures EncodeSample(p, di).1.index == if p.index > 0 then p.index - 1 else 0
  {
    hide StepSize, Quantise;
    SmallDifferenceCode(if di >= p.predict then di - p.predict else p.predict - di, p.Step());
  }

  lemma SmallDifferenceCode(diff: nat, step: nat)
    requires diff < step
    ensures Quantise(diff, step).code < 4
    ensures IndexStep(Quantise(diff, step).code) == IndexStep(Quantise(diff, step).code + 8) == -1
  {
    assert Stage(Quantiser(diff, step, step / 8, 0), 4).code == 0;
    hide IndexStep;
    assert Quantise(diff, step).code in {0, 1, 2, 3};
    SmallCodes(Quantise(diff, step).code);
  }

  lemma SmallCodes(code: Nibble)
    requires code < 4
    ensures IndexStep(code) == IndexStep(code + 8) == -1
  {
  }

  /** A constant input: after at most 101 samples the codec sits at its smallest step and
      reproduces the input to within 2, for ever. */
  lemma SettlesOnConstant(p: Predictor, x: s16, n: nat)
    requires 101 <= n
    ensures Track(p, Hold(x, n)).index == 0
    ensures Within(x, Track(p, Hold(x, n)).predict, 2)
  {
    hide StepSize, EncodeSample, Track;
    var xs := Hold(x, n);
    assert Hold(x, n - 1) == xs[..n - 1] && xs[..n - 1 + 1] == xs;
    IndexFalls(p, x, n);
    IndexFalls(p, x, n - 1);
    AcquiresSlowSignals(p, xs, n - 1);
    StepTableEnds();
  }
}
