/** The adaptive noise gate `noise_suppression`: three running averages of the magnitude
    decide whether the input is noise, and the gain moves one step a sample. */
module NoiseGate {
  import opened Arith
  import opened Types

  const THRESHOLD := 384

  function Abs(x: int): nat { if x >= 0 then x else -x }

  /** One step of a running average over about `k` samples. */
  function Follow(m: nat, a: nat, k: nat): nat
    requires 0 < k
  {
    MulNonNegative(m, k - 1);
    QuotientNonNegative(m * (k - 1) + a, k);
    (m * (k - 1) + a) / k
  }

  datatype Gate = Gate(long: nat, short: nat, im: nat, noise: bool, gain: nat) {
    predicate Valid() {
      long <= 131072 && short <= 32768 && im <= 32768 && gain <= 256
    }
  }

  function Step(g: Gate, md: s16): Gate {
    var long := Follow(g.long, Abs(md), 1024);
    var short := Follow(g.short, Abs(md), 128);
    var im := Follow(g.im, Abs(md), 16);
    var loud := (g.noise && short > THRESHOLD) || im > 2 * THRESHOLD;
    var noise := !loud && (g.noise || long < THRESHOLD);
    Gate(if loud then 4 * short else long, short, im, noise,
         if noise then (if g.gain > 0 then g.gain - 1 else 0) else (if g.gain < 256 then g.gain + 1 else g.gain))
  }

  /** The output for a sample at a gain; the shift is an arithmetic one. */
  function Output(md: s16, gain: nat): int { (md * gain + 128) / 256 }

  function Run(g: Gate, xs: seq<s16>): Gate {
    if |xs| == 0 then g else Step(Run(g, xs[..|xs| - 1]), xs[|xs| - 1])
  }

  class NoiseSuppressor {
    var mdLong: nat
    var mdShort: nat
    var mdIm: nat
    var mdNoise: bool
    var mdGain: nat

    function State(): Gate
      reads this
    {
      Gate(mdLong, mdShort, mdIm, mdNoise, mdGain)
    }

    constructor ()
      ensures State() == Gate(0, 0, 0, false, 256) && State().Valid()
    {
      mdLong, mdShort, mdIm, mdNoise, mdGain := 0, 0, 0, false, 256;
    }

    method NoiseSuppression(md: s16) returns (out: int)
      requires State().Valid()
      modifies this
      ensures State() == Step(old(State()), md) && State().Valid()
      ensures out == Output(md, State().gain)
    {
      StepValid(State(), md);
      hide Follow;
      mdLong := Follow(mdLong, Abs(md), 1024);
      mdShort := Follow(mdShort, Abs(md), 128);
      mdIm := Follow(mdIm, Abs(md), 16);
      if (mdNoise && mdShort > THRESHOLD) || mdIm > THRESHOLD * 2 {
        mdNoise, mdLong := false, mdShort * 4;
      } else if !mdNoise && mdLong < THRESHOLD {
        mdNoise := true;
      }
      if mdNoise {
        if mdGain != 0 {
          mdGain := mdGain - 1;
        }
      } else {
        if mdGain < 256 {
          mdGain := mdGain + 1;
        }
      }
      out := (md * mdGain + 128) / 256;
    }
  }

  // ------------------------------------------------------- what every step keeps

  lemma StepValid(g: Gate, md: s16)
    requires g.Valid()
    ensures Step(g, md).Valid()
  {
  }

  /** None of the sums and products of a step leaves the range of a 32-bit integer. */
  lemma NoOverflow(g: Gate, md: s16)
    requires g.Valid()
    ensures g.long * 1023 + Abs(md) < 0x8000_0000
    ensures g.short * 127 + Abs(md) < 0x8000_0000 && 4 * Step(g, md).short < 0x8000_0000
    ensures g.im * 15 + Abs(md) < 0x8000_0000
    ensures -0x8000_0000 <= md * Step(g, md).gain + 128 < 0x8000_0000
  {
    StepValid(g, md);
    var gain := Step(g, md).gain;
    GainProduct(md, gain);
  }

  lemma GainProduct(md: s16, gain: nat)
    requires gain <= 256
    ensures if md >= 0 then 0 <= md * gain <= 256 * md else 256 * md <= md * gain <= 0
  {
    if md >= 0 {
      MulMonotone(gain, 256, md);
      MulNonNegative(md, gain);
    } else {
      var a: int := Abs(md);
      MulMonotone(gain, 256, a);
      MulNonNegative(a, gain);
      assert md as int == -a && a * gain == -(md * gain);
    }
  }

  /** The gate never amplifies and never changes the sign; it passes the input unchanged
      at full gain and blocks it at gain zero. */
  lemma OutputBetweenZeroAndInput(md: s16, gain: nat)
    requires gain <= 256
    ensures if md >= 0 then 0 <= Output(md, gain) <= md else md <= Output(md, gain) <= 0
    ensures gain == 256 ==> Output(md, gain) == md
    ensures gain == 0 ==> Output(md, gain) == 0
  {
    GainProduct(md, gain);
  }

  lemma {:induction false} RunValid(g: Gate, xs: seq<s16>)
    requires g.Valid()
    ensures Run(g, xs).Valid()
  {
    if |xs| > 0 {
      RunValid(g, xs[..|xs| - 1]);
      StepValid(Run(g, xs[..|xs| - 1]), xs[|xs| - 1]);
    }
  }

  lemma RunStep(g: Gate, xs: seq<s16>, n: nat)
    requires n < |xs|
    ensures Run(g, xs[..n + 1]) == Step(Run(g, xs[..n]), xs[n])
  {
    assert xs[..n + 1][..n] == xs[..n];
  }

  // ---------------------------------------------- how fast an average comes down

  /** How far an average is above the level it settles at under quiet input. */
  function Excess(m: nat): nat { if m > THRESHOLD - 1 then m - (THRESHOLD - 1) else 0 }

  function Decay(e: nat, k: nat): nat
    requires 0 < k
  {
    MulNonNegative(e, k - 1);
    QuotientNonNegative(e * (k - 1), k);
    e * (k - 1) / k
  }

  lemma DecayDrops(e: nat, k: nat, h: nat)
    requires 0 < k && k * h < e
    ensures Decay(e, k) + h < e
  {
    var d := Decay(e, k);
    QuotientBounds(e * (k - 1), k);
    assert e * (k - 1) == e * k - e;
    assert (d + h + 1) * k == d * k + h * k + k && h * k == k * h;
    CancelFactor(d + h + 1, e, k);
  }

  lemma DecayMonotone(e: nat, e': nat, k: nat)
    requires 0 < k && e <= e'
    ensures Decay(e, k) <= Decay(e', k)
  {
    MulMonotone(e, e', k - 1);
    QuotientBounds(e * (k - 1), k);
    QuotientBounds(e' * (k - 1), k);
    CancelFactor(Decay(e, k), Decay(e', k), k);
  }

  /** How many samples an excess needs to vanish. */
  function Time(e: nat, k: nat): nat
    requires 0 < k
  {
    if e == 0 then 0
    else
      DecayDrops(e, k, 0);
      1 + Time(Decay(e, k), k)
  }

  lemma {:induction false} TimeMonotone(e: nat, e': nat, k: nat)
    requires 0 < k && e <= e'
    ensures Time(e, k) <= Time(e', k)
    decreases e'
  {
    if e > 0 {
      DecayDrops(e', k, 0);
      DecayMonotone(e, e', k);
      TimeMonotone(Decay(e, k), Decay(e', k), k);
    }
  }

  /** From `k*h + n*h` it takes at most `n` samples to come down to `k*h`. */
  lemma {:induction false} TimeOfBand(e: nat, k: nat, h: nat, n: nat)
    requires 0 < k && 0 < h && e <= k * h + n * h
    ensures Time(e, k) <= n + Time(k * h, k)
    decreases n
  {
    if e <= k * h {
      TimeMonotone(e, k * h, k);
    } else {
      DecayDrops(e, k, h);
      assert n != 0;
      assert (n - 1) * h == n * h - h;
      TimeOfBand(Decay(e, k), k, h, n - 1);
    }
  }

  lemma {:induction false} TimeAtMostExcess(e: nat, k: nat)
    requires 0 < k
    ensures Time(e, k) <= e
  {
    if e > 0 {
      DecayDrops(e, k, 0);
      TimeAtMostExcess(Decay(e, k), k);
    }
  }

  function Pow2(j: nat): (p: nat)
    ensures p > 0
  {
    if j == 0 then 1 else 2 * Pow2(j - 1)
  }

  /** Each halving takes at most `k` samples. */
  lemma {:induction false} TimeLogarithmic(k: nat, j: nat)
    requires 0 < k
    ensures Time(k * Pow2(j), k) <= k * (j + 1)
  {
    if j == 0 {
      TimeAtMostExcess(k, k);
    } else {
      var h := Pow2(j - 1);
      assert k * Pow2(j) == k * h + k * h;
      TimeOfBand(k * Pow2(j), k, h, k);
      TimeLogarithmic(k, j - 1);
      assert k * (j + 1) == k * j + k;
    }
  }

  /** One quiet sample: the excess decays at least as fast as `Decay`. */
  lemma FollowQuiet(m: nat, a: nat, k: nat)
    requires 0 < k && a < THRESHOLD
    ensures Excess(Follow(m, a, k)) <= Decay(Excess(m), k)
  {
    var q, f := THRESHOLD - 1, Follow(m, a, k);
    QuotientBounds(m * (k - 1) + a, k);
    if m > q {
      var e := m - q;
      var d := Decay(e, k);
      QuotientBounds(e * (k - 1), k);
      assert m * (k - 1) == e * (k - 1) + q * k - q;
      assert (d + q) * k == d * k + q * k;
      CancelFactor(f, d + q, k);
    } else {
      MulMonotone(m, q, k - 1);
      assert q * (k - 1) == q * k - q;
      CancelFactor(f, q, k);
    }
  }

  /** What is left of the time after one quiet sample. */
  lemma TimeTicks(m: nat, a: nat, k: nat)
    requires 0 < k && a < THRESHOLD
    ensures var t := Time(Excess(m), k);
      Time(Excess(Follow(m, a, k)), k) <= if t > 0 then t - 1 else 0
  {
    FollowQuiet(m, a, k);
    TimeMonotone(Excess(Follow(m, a, k)), Decay(Excess(m), k), k);
  }

  lemma InitialTimes(g: Gate)
    requires g.Valid()
    ensures Time(Excess(g.im), 16) <= 192
    ensures Time(Excess(g.short), 128) <= 1152
    ensures Time(Excess(g.long), 1024) <= 8192
  {
    assert Pow2(7) == 128 && Pow2(8) == 256 && Pow2(11) == 2048;
    TimeLogarithmic(16, 11);
    TimeMonotone(Excess(g.im), 16 * Pow2(11), 16);
    TimeLogarithmic(128, 8);
    TimeMonotone(Excess(g.short), 128 * Pow2(8), 128);
    TimeLogarithmic(1024, 7);
    TimeMonotone(Excess(g.long), 1024 * Pow2(7), 1024);
  }

  // ------------------------------------------------------------------- liveness

  predicate Quiet(xs: seq<s16>) { forall k :: 0 <= k < |xs| ==> Abs(xs[k]) < THRESHOLD }

  function Less(t: nat, n: nat): nat { if t > n then t - n else 0 }

  const FAST := 1152
  const SLOW := 8192

  lemma {:induction false} FastAveragesFall(g: Gate, xs: seq<s16>, n: nat)
    requires g.Valid() && Quiet(xs) && n <= |xs|
    ensures var s := Run(g, xs[..n]);
      Time(Excess(s.im), 16) <= Less(192, n) && Time(Excess(s.short), 128) <= Less(FAST, n)
  {
    hide Time, Excess, Follow;
    if n == 0 {
      InitialTimes(g);
    } else {
      FastAveragesFall(g, xs, n - 1);
      RunStep(g, xs, n - 1);
      var s := Run(g, xs[..n - 1]);
      TimeTicks(s.im, Abs(xs[n - 1]), 16);
      TimeTicks(s.short, Abs(xs[n - 1]), 128);
    }
  }

  lemma TimeOver(m: nat, k: nat)
    requires 0 < k && Time(Excess(m), k) == 0
    ensures m < THRESHOLD
  {
  }

  /** Once both fast averages are down, the slow one is no longer raised and falls too. */
  lemma {:induction false} SlowAverageFalls(g: Gate, xs: seq<s16>, n: nat)
    requires g.Valid() && Quiet(xs) && FAST <= n <= |xs|
    ensures Time(Excess(Run(g, xs[..n]).long), 1024) <= Less(SLOW, n - FAST)
    decreases n
  {
    hide Time, Excess, Follow;
    if n == FAST {
      RunValid(g, xs[..n]);
      InitialTimes(Run(g, xs[..n]));
    } else {
      SlowAverageFalls(g, xs, n - 1);
      NotLoud(g, xs, n);
      TimeTicks(Run(g, xs[..n - 1]).long, Abs(xs[n - 1]), 1024);
    }
  }

  lemma NotLoud(g: Gate, xs: seq<s16>, n: nat)
    requires g.Valid() && Quiet(xs) && FAST < n <= |xs|
    ensures var s, s' := Run(g, xs[..n - 1]), Run(g, xs[..n]);
      && s'.long == Follow(s.long, Abs(xs[n - 1]), 1024)
      && s'.noise == (s.noise || s'.long < THRESHOLD)
      && s'.gain == (if s'.noise then (if s.gain > 0 then s.gain - 1 else 0) else (if s.gain < 256 then s.gain + 1 else s.gain))
  {
    hide Time, Excess, Follow;
    FastAveragesFall(g, xs, n);
    RunStep(g, xs, n - 1);
    TimeOver(Run(g, xs[..n]).im, 16);
    TimeOver(Run(g, xs[..n]).short, 128);
  }

  lemma {:induction false} GainFalls(g: Gate, xs: seq<s16>, n: nat)
    requires g.Valid() && Quiet(xs) && FAST + SLOW <= n <= |xs|
    ensures var s := Run(g, xs[..n]); s.noise && s.gain <= Less(256, n - FAST - SLOW)
    decreases n
  {
    hide Time, Excess, Follow;
    NotLoud(g, xs, n);
    SlowAverageFalls(g, xs, n);
    TimeOver(Run(g, xs[..n]).long, 1024);
    if n == FAST + SLOW {
      RunValid(g, xs[..n]);
    } else {
      GainFalls(g, xs, n - 1);
    }
  }

  /** The gate closes: from any state, when all samples stay below the threshold, the gain
      is zero after 9600 samples and stays zero. */
  lemma QuietCloses(g: Gate, xs: seq<s16>)
    requires g.Valid() && Quiet(xs) && FAST + SLOW + 256 <= |xs|
    ensures Run(g, xs).gain == 0 && Run(g, xs).noise
  {
    GainFalls(g, xs, |xs|);
    assert xs[..|xs|] == xs;
  }

  predicate Loud(xs: seq<s16>) { forall k :: 0 <= k < |xs| ==> Abs(xs[k]) >= 2 * THRESHOLD + 16 }

  lemma {:induction false} ImmediateAverageRises(g: Gate, xs: seq<s16>, n: nat)
    requires Loud(xs) && n <= |xs|
    ensures Run(g, xs[..n]).im >= if n > 2 * THRESHOLD then 2 * THRESHOLD + 1 else n
  {
    if n > 0 {
      ImmediateAverageRises(g, xs, n - 1);
      RunStep(g, xs, n - 1);
    }
  }

  lemma {:induction false} GainRises(g: Gate, xs: seq<s16>, n: nat)
    requires g.Valid() && Loud(xs) && 2 * THRESHOLD < n <= |xs|
    ensures var s := Run(g, xs[..n]);
      !s.noise && s.gain >= if n - 2 * THRESHOLD >= 256 then 256 else n - 2 * THRESHOLD
    decreases n
  {
    hide Follow;
    ImmediateAverageRises(g, xs, n);
    RunStep(g, xs, n - 1);
    RunValid(g, xs[..n - 1]);
    if n > 2 * THRESHOLD + 1 {
      GainRises(g, xs, n - 1);
    }
  }

  /** The gate opens: from any state, under samples of magnitude 784 or more, the gain is
      full after 1024 samples and stays full. */
  lemma LoudOpens(g: Gate, xs: seq<s16>)
    requires g.Valid() && Loud(xs) && 2 * THRESHOLD + 256 <= |xs|
    ensures Run(g, xs).gain == 256 && !Run(g, xs).noise
  {
    GainRises(g, xs, |xs|);
    RunValid(g, xs);
    assert xs[..|xs|] == xs;
  }

  // --------------------------------------------------------- what opens the gate

  predicate AtLeast(xs: seq<s16>, level: nat) { forall k :: 0 <= k < |xs| ==> Abs(xs[k]) >= level }

  predicate AtMost(xs: seq<s16>, level: nat) { forall k :: 0 <= k < |xs| ==> Abs(xs[k]) <= level }

  /** Under samples of magnitude 512 or more the short average rises by one a sample. */
  lemma {:induction false} ShortAverageRises(g: Gate, xs: seq<s16>, n: nat)
    requires AtLeast(xs, 512) && n <= |xs|
    ensures Run(g, xs[..n]).short >= if n > 385 then 385 else n
  {
    if n > 0 {
      ShortAverageRises(g, xs, n - 1);
      RunStep(g, xs, n - 1);
    }
  }

  /** The step that finds the gate closed and the short average up opens it, and the long
      average, set to four times the short one, keeps it open. */
  lemma StepUp(g: Gate, md: s16)
    requires Abs(md) >= 512 && Step(g, md).short >= 385
    ensures g.noise ==> !Step(g, md).noise && Step(g, md).long >= 384
    ensures !g.noise && !Step(g, md).noise ==> Step(g, md).long >= 384
  {
  }

  lemma {:induction false} StaysUp(g: Gate, xs: seq<s16>, from: nat, n: nat)
    requires AtLeast(xs, 512) && 385 <= from <= n <= |xs|
    requires !Run(g, xs[..from]).noise && Run(g, xs[..from]).long >= 384
    ensures var s := Run(g, xs[..n]);
      !s.noise && s.long >= 384 && s.gain >= if n - from >= 256 then 256 else n - from
  {
    hide Step;
    if from < n {
      StaysUp(g, xs, from, n - 1);
      RunStep(g, xs, n - 1);
      ShortAverageRises(g, xs, n);
      LongStaysUp(Run(g, xs[..n - 1]), xs[n - 1]);
    }
  }

  lemma LongStaysUp(g: Gate, md: s16)
    requires Abs(md) >= 384 && !g.noise && g.long >= 384 && Step(g, md).short >= 96
    ensures !Step(g, md).noise && Step(g, md).long >= 384
    ensures Step(g, md).gain >= if g.gain >= 255 then 256 else g.gain + 1
  {
  }

  /** The gate opens for speech: from any state, under samples of magnitude 512 or more, the
      gain is full after 642 samples and stays full. */
  lemma SpeechOpens(g: Gate, xs: seq<s16>)
    requires g.Valid() && AtLeast(xs, 512) && 642 <= |xs|
    ensures Run(g, xs).gain == 256 && !Run(g, xs).noise
  {
    hide Step;
    ShortAverageRises(g, xs, 385);
    ShortAverageRises(g, xs, 386);
    RunStep(g, xs, 384);
    RunStep(g, xs, 385);
    StepUp(Run(g, xs[..384]), xs[384]);
    StepUp(Run(g, xs[..385]), xs[385]);
    var from := if Run(g, xs[..385]).noise then 386 else 385;
    StaysUp(g, xs, from, |xs|);
    RunValid(g, xs);
    assert xs[..|xs|] == xs;
  }

  /** 512 is the least such level: a closed gate at rest stays closed under samples of magnitude
      511 or less. */
  lemma {:induction false} StaysClosed(g: Gate, xs: seq<s16>)
    requires g.noise && g.short <= 384 && g.im <= 768 && AtMost(xs, 511)
    ensures var s := Run(g, xs); s.noise && s.short <= 384 && s.im <= 768
    ensures Run(g, xs).gain == if g.gain > |xs| then g.gain - |xs| else 0
  {
    if |xs| > 0 {
      StaysClosed(g, xs[..|xs| - 1]);
    }
  }

  /** An open gate with its averages up stays open, and its gain rises, under samples of
      magnitude 384 or more: the level `QuietCloses` speaks of is the least one that keeps
      it open. */
  lemma {:induction false} StaysOpen(g: Gate, xs: seq<s16>)
    requires !g.noise && g.long >= 384 && g.short >= 96 && AtLeast(xs, 384)
    ensures var s := Run(g, xs); !s.noise && s.long >= 384 && s.short >= 96
  {
    if |xs| > 0 {
      StaysOpen(g, xs[..|xs| - 1]);
      LongStaysUp(Run(g, xs[..|xs| - 1]), xs[|xs| - 1]);
    }
  }

  /** A bang: a single sample of magnitude 12304 leaves the gate open, whatever its state; with
      12303 a gate that was closed in silence stays closed. */
  lemma BangOpens(g: Gate, md: s16)
    ensures Abs(md) >= 12304 ==> !Step(g, md).noise
    ensures g.noise && g.im == 0 && g.short == 0 ==> (Step(g, md).noise <==> Abs(md) < 12304)
  {
  }

  /** The gate does not close in the gaps of speech: opened by the short average, it stays
      open for 578 samples, in full silence and under whatever does not bang. */
  lemma HangTime(g: Gate, md: s16, xs: seq<s16>)
    requires g.noise && Step(g, md).short > 384 && Step(g, md).im <= 768
    requires AtMost(xs, 768) && |xs| <= 578
    ensures !Step(g, md).noise && !Run(Step(g, md), xs).noise
  {
    LongLasts(Step(g, md), xs, 1540);
  }

  lemma {:induction false} LongLasts(g: Gate, xs: seq<s16>, level: nat)
    requires !g.noise && g.im <= 768 && AtMost(xs, 768) && level <= 2048
    requires g.long >= level >= 384 + 2 * |xs|
    ensures var s := Run(g, xs); !s.noise && s.im <= 768 && s.long >= level - 2 * |xs|
  {
    if |xs| > 0 {
      LongLasts(g, xs[..|xs| - 1], level);
    }
  }

  /** The averages are low-pass filters: each moves by a 1024th, a 128th and a 16th of its
      distance from the magnitude, rounded down. An opening by a loud sample alone sets the
      long average. */
  lemma AveragesMove(g: Gate, md: s16)
    ensures var s := Step(g, md); var a := Abs(md);
      && a - g.im - 15 <= 16 * (s.im - g.im) <= a - g.im
      && a - g.short - 127 <= 128 * (s.short - g.short) <= a - g.short
      && (s.noise || (s.im <= 768 && !g.noise) ==> a - g.long - 1023 <= 1024 * (s.long - g.long) <= a - g.long)
      && (s.im > 768 ==> s.long == 4 * s.short)
  {
  }

  /** The gain never jumps: it falls by one while the gate is closed and rises by one while it
      is open. */
  lemma GainRamps(g: Gate, md: s16)
    requires g.Valid()
    ensures var s := Step(g, md);
      && (s.noise ==> s.gain == g.gain - 1 || s.gain == g.gain == 0)
      && (!s.noise ==> s.gain == g.gain + 1 || s.gain == g.gain == 256)
  {
  }

  /** The output is the scaled input, rounded to the nearest. */
  lemma OutputNearest(md: s16, gain: nat)
    ensures -128 < 256 * Output(md, gain) - md * gain <= 128
  {
    RoundedDown(md * gain + 128);
  }

  lemma RoundedDown(x: int)
    ensures x - 256 < 256 * (x / 256) <= x
  {
  }
}
