/** Runs of the jitter buffer from power-on. */
module JitterRuns {
  import opened Types
  import opened Adpcm
  import opened AdpcmPackets
  import opened AdpcmDevice
  import opened Ring
  import opened JitterCourse
  import opened JitterBuffer

  datatype Event = Arrive(packet: seq<u8>) | Decode | Period(timedOut: bool) | Restart

  predicate Possible(events: seq<Event>) {
    forall i :: 0 <= i < |events| && events[i].Arrive? ==> |events[i].packet| == PACKET
  }

  /** Whatever arrives, and in whatever order the calls come: outside of a reset USB has been
      given the packets of the epoch in order exactly if it has not read beyond a loss. When
      there is one, `LossIffOverwritten` and `WhereLossIsHeard` say. */
  method AnyRun(d: Dongle, events: seq<Event>)
    requires d.Valid() && Possible(events)
    modifies d, d.decoder, d.abufMic, d.abufDec
    ensures d.Valid() && (d.reset == 0 ==> d.DeliveredUntilLoss())
  {
    hide Dongle.Valid, Dongle.DeliveredUntilLoss;
    for i := 0 to |events|
      invariant d.Valid()
    {
      match events[i] {
        case Arrive(packet) => d.MicAdd(packet);
        case Decode => var _ := d.MicDec();
        case Period(timedOut) => var _ := d.DecUsb(timedOut);
        case Restart => d.Init();
      }
    }
    if d.reset == 0 {
      d.Delivery();
    }
  }

  /** Sixteen periods after power-on the first epoch begins, with nothing given. */
  method StartUp() returns (d: Dongle)
    ensures fresh(d) && fresh(d.decoder) && fresh(d.abufMic) && fresh(d.abufDec)
    ensures d.Valid() && d.reset == 0 && d.start && d.bufferEmpty && d.arrived == [] && d.frames == []
    ensures d.epoch == NewEpoch(0, Predictor(0, 0)) && d.given == [] && d.heard == []
    ensures d.decoder.State() == Predictor(0, 0)
    ensures d.abufDec[..] == seq(SLOTS * FRAME, _ => 0)
  {
    var decoder := new Decoder(Google10);
    var mic := new u8[SLOTS * PACKET + 1](_ => 0);
    var dec := new s16[SLOTS * FRAME](_ => 0);
    assert dec[..] == seq(SLOTS * FRAME, _ => 0);
    d := new Dongle(decoder, mic, dec);
    hide *;
    for i := 0 to 16
      invariant d.Valid() && d.reset == 16 - i && d.start && d.arrived == [] && d.frames == []
      invariant d.decoder == decoder && d.abufMic == mic && d.abufDec == dec
      invariant decoder.Valid() && decoder.State() == Predictor(0, 0)
      invariant d.abufDec[..] == seq(SLOTS * FRAME, _ => 0)
      invariant i > 0 ==> d.bufferEmpty && d.epoch == NewEpoch(0, Predictor(0, 0)) && d.given == [] && d.heard == []
    {
      var _ := d.MicDec();
      var _ := d.DecUsb(false);
    }
  }

  /** Why a fifth waiting packet is a loss: five equal packets arrive at the beginning of an
      epoch, whose first code is not zero. The first read is then not the first samples of
      the first packet, nor of any other. */
  method FifthPacketIsHeard(packet: seq<u8>) returns (out: seq<s16>)
    requires |packet| == PACKET && packet[0] / 16 % 8 != 0
    ensures |out| == READ && out != DecodeOnePacket(Predictor(0, 0), packet).0[..READ]
  {
    hide Low8, Offset, DecodeOnePacket, Dongle.Valid, AfterMicDec, PacketInSlot, NextRead;
    var d := StartUp();
    SmallNumbers();
    for i := 0 to 5
      invariant fresh(d) && fresh(d.decoder) && fresh(d.abufMic) && fresh(d.abufDec)
      invariant d.Valid() && d.reset == 0 && d.start && d.bufferEmpty && d.frames == []
      invariant d.epoch == NewEpoch(0, Predictor(0, 0)) && |d.arrived| == i
      invariant d.abufDec[..] == seq(SLOTS * FRAME, _ => 0)
    {
      d.MicAdd(packet);
    }
    var first := d.MicDec();
    assert d.frames[0] == seq(FRAME, _ => 0);
    var second := d.MicDec();
    FirstRead(d.frames);
    out := d.DecUsb(false);
    FirstSampleSounds(packet);
  }

  lemma SmallNumbers()
    ensures Low8(5) == 5 && Low8(3) == 3 && Offset(0, SLOTS, FRAME) == 0
  {
  }

  lemma FirstRead(frames: seq<seq<s16>>)
    requires 1 <= |frames| <= SLOTS && AllFrames(frames)
    ensures NextRead(frames, 0) == frames[0][..READ]
  {
  }

  lemma FirstSampleSounds(packet: seq<u8>)
    requires |packet| == PACKET && packet[0] / 16 % 8 != 0
    ensures DecodeOnePacket(Predictor(0, 0), packet).0[0] != 0
  {
    hide StepSize, Unpack, Pcm, Final, DecodeSample;
    var codes := Unpack(Google10, packet, FRAME);
    assert packet[0..] == packet;
    FirstCode(Predictor(0, 0), codes);
    FirstUnpacked(packet);
    Sounds(codes[0]);
  }

  lemma FirstUnpacked(packet: seq<u8>)
    requires |packet| == PACKET
    ensures Unpack(Google10, packet, FRAME)[0] == packet[0] / 16
  {
  }

  /** From the power-on state a code that is not zero moves the prediction. */
  lemma Sounds(code: Nibble)
    requires code % 8 != 0
    ensures DecodeSample(Predictor(0, 0), code).predict != 0
  {
    hide Bit;
    StartSteps();
    DeltaAtSeven(code);
  }

  lemma DeltaAtSeven(code: Nibble)
    requires code % 8 != 0
    ensures 0 < Delta(7, code) < 12
  {
  }
}
