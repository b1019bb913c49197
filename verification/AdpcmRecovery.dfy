/** What the variants without a packet header (Hid, Google 1.0) do after a loss: two decoders in
    different states are fed the same codes, one of them in the state of the encoder. The gap
    between their indices never grows. Once the indices agree, neither does the gap between
    their predictions; it shrinks only where a prediction is clamped. What has become equal stays
    equal. */
module AdpcmRecovery {
  import opened Types
  import opened Adpcm
  import opened AdpcmPackets

  function Gap(x: int, y: int): nat { if x <= y then y - x else x - y }

  predicate AtLimit(x: s16) { x == -32768 || x == 32767 }

  /** The gap between clamped values. */
  lemma ClampGap(x: int, y: int, lo: int, hi: int)
    requires lo <= hi
    ensures Gap(Clamp(x, lo, hi), Clamp(y, lo, hi)) <= Gap(x, y)
    ensures lo < Clamp(x, lo, hi) < hi && lo < Clamp(y, lo, hi) < hi ==> Gap(Clamp(x, lo, hi), Clamp(y, lo, hi)) == Gap(x, y)
  {
  }

  lemma OneCode(p: Predictor, q: Predictor, code: Nibble)
    ensures var p', q' := DecodeSample(p, code), DecodeSample(q, code);
      && Gap(p'.index, q'.index) <= Gap(p.index, q.index)
      && (p.index == q.index ==> Gap(p'.predict, q'.predict) <= Gap(p.predict, q.predict))
      && (p.index == q.index && !AtLimit(p'.predict) && !AtLimit(q'.predict) ==>
            Gap(p'.predict, q'.predict) == Gap(p.predict, q.predict))
  {
    hide StepSize, Delta, Bit, Clamp;
    ClampGap(p.index + IndexStep(code), q.index + IndexStep(code), 0, 88);
    var d: int := Delta(p.Step(), code);
    var move: int := if Bit(code, 8) then -d else d;
    ClampGap(p.predict + move, q.predict + move, -32768, 32767);
    assert code % 16 == code;
  }

  /** From code `j` to code `k` of a run. */
  lemma {:induction false} GapsNeverGrow(p: Predictor, q: Predictor, codes: seq<Nibble>, j: nat, k: nat)
    requires j <= k <= |codes|
    ensures var pj, qj, pk, qk := Final(p, codes[..j]), Final(q, codes[..j]), Final(p, codes[..k]), Final(q, codes[..k]);
      && Gap(pk.index, qk.index) <= Gap(pj.index, qj.index)
      && (pj.index == qj.index ==> pk.index == qk.index && Gap(pk.predict, qk.predict) <= Gap(pj.predict, qj.predict))
      && (pj == qj ==> pk == qk)
  {
    hide DecodeSample;
    if j < k {
      GapsNeverGrow(p, q, codes, j, k - 1);
      assert codes[..k][..k - 1] == codes[..k - 1];
      OneCode(Final(p, codes[..k - 1]), Final(q, codes[..k - 1]), codes[k - 1]);
    }
  }

  predicate Small(codes: seq<Nibble>) { forall i :: 0 <= i < |codes| ==> codes[i] % 8 < 4 }

  /** Codes of a quiet signal bring the index down, one a sample. */
  lemma {:induction false} SmallCodesLower(p: Predictor, codes: seq<Nibble>)
    requires Small(codes)
    ensures Final(p, codes).index == if p.index > |codes| then p.index - |codes| else 0
  {
    hide DecodeSample;
    if |codes| > 0 {
      var n := |codes| - 1;
      SmallCodesLower(p, codes[..n]);
      SmallCodeLowers(Final(p, codes[..n]), codes[n]);
    }
  }

  lemma SmallCodeLowers(p: Predictor, code: Nibble)
    requires code % 8 < 4
    ensures DecodeSample(p, code).index == if p.index > 0 then p.index - 1 else 0
  {
    hide StepSize, DecodeAt;
    assert code % 16 == code;
    assert IndexStep(code) == -1;
  }

  /** After 88 codes of a quiet signal all decoders have the same index, whatever they had. */
  lemma QuietAligns(p: Predictor, q: Predictor, codes: seq<Nibble>)
    requires Small(codes) && |codes| >= 88
    ensures Final(p, codes).index == Final(q, codes).index == 0
  {
    hide Final;
    SmallCodesLower(p, codes);
    SmallCodesLower(q, codes);
  }

  lemma {:induction false} PcmAt(p: Predictor, codes: seq<Nibble>, k: nat)
    requires k < |codes|
    ensures Pcm(p, codes)[k] == Final(p, codes[..k + 1]).predict
  {
    hide DecodeSample;
    if k + 1 < |codes| {
      PcmAt(p, codes[..|codes| - 1], k);
      assert codes[..|codes| - 1][..k + 1] == codes[..k + 1];
    } else {
      assert codes[..k + 1] == codes;
    }
  }

  /** The listener after a loss: an encoder in state `p` codes `xs`, and a decoder in another
      state `q` decodes them. If the indices agree after `j` samples, then from there on the
      sound differs from the encoder's by no more than at that moment, and if the states
      agree it is the encoder's. */
  lemma SoundAfterLoss(p: Predictor, q: Predictor, xs: seq<s16>, j: nat, k: nat)
    requires j <= k < |xs|
    ensures var codes := Codes(p, xs);
      var pj, qj := Final(p, codes[..j]), Final(q, codes[..j]);
      && (pj.index == qj.index ==> Gap(Pcm(q, codes)[k], Trajectory(p, xs)[k]) <= Gap(qj.predict, pj.predict))
      && (pj == qj ==> Pcm(q, codes)[k] == Trajectory(p, xs)[k])
  {
    hide Final, Codes, Pcm, Trajectory;
    var codes := Codes(p, xs);
    LockStepRun(p, xs);
    PcmAt(p, codes, k);
    PcmAt(q, codes, k);
    GapsNeverGrow(q, p, codes, j, k + 1);
  }

  // ------------------------------------------- the Google 1.0 pair from power-on

  const RECOVERY: seq<s16> := [8, 9, 10, 9]

  /** The Google 1.0 pair starts out of step, but a block may bring it into step: after the
      samples 8, 9, 10, 9 both are in the same state, and everything that follows is right. */
  lemma Google10MayRecover(xs: seq<s16>)
    requires RECOVERY <= xs
    ensures var codes := Codes(GOOGLE10_ENCODER_START, xs);
      && Final(GOOGLE10_DECODER_START, codes) == Track(GOOGLE10_ENCODER_START, xs)
      && forall k :: 4 <= k < |xs| ==>
           Pcm(GOOGLE10_DECODER_START, codes)[k] == Trajectory(GOOGLE10_ENCODER_START, xs)[k]
  {
    hide Final, Codes, Pcm, Trajectory, Track;
    var codes := Codes(GOOGLE10_ENCODER_START, xs);
    FirstCodes(xs);
    FourSteps();
    LockStepRun(GOOGLE10_ENCODER_START, xs);
    GapsNeverGrow(GOOGLE10_DECODER_START, GOOGLE10_ENCODER_START, codes, 4, |codes|);
    assert codes[..|codes|] == codes;
    forall k | 4 <= k < |xs|
      ensures Pcm(GOOGLE10_DECODER_START, codes)[k] == Trajectory(GOOGLE10_ENCODER_START, xs)[k]
    {
      SoundAfterLoss(GOOGLE10_ENCODER_START, GOOGLE10_DECODER_START, xs, 4, k);
    }
  }

  lemma FirstCodes(xs: seq<s16>)
    requires RECOVERY <= xs
    ensures Codes(GOOGLE10_ENCODER_START, xs)[..4] == Codes(GOOGLE10_ENCODER_START, RECOVERY)
  {
    assert xs[..4] == RECOVERY;
    CodesPrefix(GOOGLE10_ENCODER_START, xs, 4);
  }

  lemma {:induction false} CodesPrefix(p: Predictor, xs: seq<s16>, k: nat)
    requires k <= |xs|
    ensures Codes(p, xs)[..k] == Codes(p, xs[..k])
  {
    hide EncodeSample;
    if k < |xs| {
      CodesPrefix(p, xs[..|xs| - 1], k);
      assert xs[..|xs| - 1][..k] == xs[..k];
    } else {
      assert xs[..k] == xs;
    }
  }

  /** The four samples, one after the other. */
  lemma FourSteps()
    ensures Codes(GOOGLE10_ENCODER_START, RECOVERY) == [4, 0, 0, 9]
    ensures Final(GOOGLE10_ENCODER_START, [4, 0, 0, 9]) == Final(GOOGLE10_DECODER_START, [4, 0, 0, 9])
  {
    hide EncodeSample, DecodeSample, Codes, Final, Track;
    EncodedFour();
    DecodedFour();
    var p := GOOGLE10_ENCODER_START;
    CodesOfFour(p, RECOVERY);
    FinalOfFour(GOOGLE10_DECODER_START, [4, 0, 0, 9]);
    FinalOfFour(p, [4, 0, 0, 9]);
    LockStepSample(p, 8);
    LockStepSample(Predictor(9, 3), 9);
    LockStepSample(Predictor(10, 2), 10);
    LockStepSample(Predictor(11, 1), 9);
  }

  lemma CodesOfFour(p: Predictor, xs: seq<s16>)
    requires |xs| == 4
    ensures var (c0, p1) := EncodeSample(p, xs[0]);
      var (c1, p2) := EncodeSample(p1, xs[1]);
      var (c2, p3) := EncodeSample(p2, xs[2]);
      Codes(p, xs) == [c0, c1, c2, EncodeSample(p3, xs[3]).0]
  {
    hide EncodeSample;
    assert xs[..1][..0] == [] && Track(p, xs[..1]) == EncodeSample(p, xs[0]).1;
    TrackStep(p, xs, 1);
    TrackStep(p, xs, 2);
    assert xs[..2][..1] == xs[..1] && Codes(p, xs[..2]) == Codes(p, xs[..1]) + [EncodeSample(Track(p, xs[..1]), xs[1]).0];
    assert xs[..3][..2] == xs[..2] && Codes(p, xs[..3]) == Codes(p, xs[..2]) + [EncodeSample(Track(p, xs[..2]), xs[2]).0];
  }

  lemma FinalOfFour(p: Predictor, codes: seq<Nibble>)
    requires |codes| == 4
    ensures Final(p, codes) == DecodeSample(DecodeSample(DecodeSample(DecodeSample(p, codes[0]), codes[1]), codes[2]), codes[3])
  {
    hide DecodeSample;
    assert codes[..1][..0] == [] && Final(p, codes[..1]) == DecodeSample(p, codes[0]);
    assert codes[..2][..1] == codes[..1] && Final(p, codes[..2]) == DecodeSample(Final(p, codes[..1]), codes[1]);
    assert codes[..3][..2] == codes[..2] && Final(p, codes[..3]) == DecodeSample(Final(p, codes[..2]), codes[2]);
  }

  lemma SmallSteps()
    ensures StepSize(0) == 7 && StepSize(1) == 8 && StepSize(2) == 9 && StepSize(3) == 10
  {
  }

  lemma EncodedFour()
    ensures EncodeSample(Predictor(0, 1), 8) == (4, Predictor(9, 3))
    ensures EncodeSample(Predictor(9, 3), 9) == (0, Predictor(10, 2))
    ensures EncodeSample(Predictor(10, 2), 10) == (0, Predictor(11, 1))
    ensures EncodeSample(Predictor(11, 1), 9) == (9, Predictor(8, 0))
  {
    hide StepSize, EncodeAt;
    SmallSteps();
    EncodedAtSmallSteps();
  }

  lemma EncodedAtSmallSteps()
    ensures EncodeAt(0, 8, 8) == (4, 9) && EncodeAt(9, 10, 9) == (0, 10)
    ensures EncodeAt(10, 9, 10) == (0, 11) && EncodeAt(11, 8, 9) == (9, 8)
  {
    hide Bit, Delta;
  }

  lemma DecodedFour()
    ensures DecodeSample(Predictor(0, 0), 4) == Predictor(7, 2)
    ensures DecodeSample(Predictor(7, 2), 0) == Predictor(8, 1)
    ensures DecodeSample(Predictor(8, 1), 0) == Predictor(9, 0)
    ensures DecodeSample(Predictor(9, 0), 9) == Predictor(8, 0)
  {
    hide StepSize, DecodeAt;
    SmallSteps();
    DecodedAtSmallSteps();
  }

  lemma DecodedAtSmallSteps()
    ensures DecodeAt(0, 7, 4) == 7 && DecodeAt(7, 9, 0) == 8
    ensures DecodeAt(8, 8, 0) == 9 && DecodeAt(9, 7, 9) == 8
  {
  }
}
