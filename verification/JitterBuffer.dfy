/** The dongle's jitter buffer (Google 1.0 configuration: packets of 120 bytes, frames of 240
    samples, reads of 16): arriving packets are queued, decoded into a ring of four frames,
    and read out by USB. A time-out or an overrun resets the buffer; between two resets
    USB is given the decoded samples, each once and in order, until a packet that was
    overwritten before it was decoded makes itself heard.

    `arrived` and `frames` number packets and frames since power-on, and both counters of
    the firmware are their lengths modulo 256. */
module JitterBuffer {
  import opened Types
  import opened Adpcm
  import opened AdpcmPackets
  import opened AdpcmDevice
  import opened Arith
  import opened Ring
  import opened JitterCourse

  const PACKET := 120
  const RPTR_WRAP := 61440  // 240 * 256

  function FrameLengths(n: nat): (lens: seq<nat>)
    ensures |lens| == n
  {
    seq(n, _ => FRAME)
  }

  predicate AllPackets(packets: seq<seq<u8>>) {
    forall k :: 0 <= k < |packets| ==> |packets[k]| == PACKET
  }

  /** All samples of some packets, decoded in turn from state `p`, and the end state. */
  function DecodeAll(p: Predictor, packets: seq<seq<u8>>): (seq<s16>, Predictor)
    requires AllPackets(packets)
  {
    DecodeStream(Google10, p, packets, FrameLengths(|packets|))
  }

  function DecodeOnePacket(p: Predictor, packet: seq<u8>): (r: (seq<s16>, Predictor))
    requires |packet| == PACKET
    ensures |r.0| == FRAME
  {
    DecodePacket(Google10, p, packet, FRAME)
  }

  lemma DecodeAllSnoc(p: Predictor, packets: seq<seq<u8>>, packet: seq<u8>)
    requires AllPackets(packets) && |packet| == PACKET
    ensures AllPackets(packets + [packet])
    ensures var (ys, q) := DecodeAll(p, packets);
      var (zs, r) := DecodeOnePacket(q, packet);
      DecodeAll(p, packets + [packet]) == (ys + zs, r)
  {
    hide DecodePacket;
    var n := |packets|;
    assert (packets + [packet])[..n] == packets;
    assert FrameLengths(n + 1)[..n] == FrameLengths(n);
  }

  predicate AllFrames(frames: seq<seq<s16>>) {
    forall k :: 0 <= k < |frames| ==> |frames[k]| == FRAME
  }

  /** Sample `FRAME * i + j` of some frames is sample `j` of frame `i`. */
  lemma {:induction false} FlattenFrames(frames: seq<seq<s16>>, i: nat, j: nat, len: nat)
    requires AllFrames(frames) && i < |frames| && j + len <= FRAME
    ensures |Flatten(frames)| == FRAME * |frames|
    ensures Flatten(frames)[FRAME * i + j..FRAME * i + j + len] == frames[i][j..j + len]
  {
    var n := |frames| - 1;
    var init := frames[..n];
    FlattenLength(init);
    assert Flatten(frames) == Flatten(init) + frames[n];
    if i < n {
      hide Flatten;
      FlattenFrames(init, i, j, len);
      assert Flatten(frames)[FRAME * i + j..FRAME * i + j + len] == Flatten(init)[FRAME * i + j..FRAME * i + j + len];
    } else {
      hide Flatten;
      assert FRAME * i == |Flatten(init)|;
      assert (Flatten(init) + frames[n])[FRAME * i..] == frames[n];
    }
  }

  lemma {:induction false} FlattenLength(frames: seq<seq<s16>>)
    requires AllFrames(frames)
    ensures |Flatten(frames)| == FRAME * |frames|
  {
    if |frames| > 0 {
      FlattenLength(frames[..|frames| - 1]);
    }
  }

  /** The sound frames of an epoch are the decoding of its packets. */
  predicate Sound(e: Epoch, frames: seq<seq<s16>>, packets: seq<seq<u8>>) {
    && e.base <= e.sound <= |frames| && e.sound <= |packets| && AllFrames(frames) && AllPackets(packets)
    && (Flatten(frames[e.base..e.sound]), e.end) == DecodeAll(e.origin, packets[e.base..e.sound])
  }

  /** What has been read are samples of the sound frames, unless a loss has been heard. */
  predicate GivenFits(e: Epoch, frames: seq<seq<s16>>, given: seq<s16>)
    requires e.base <= e.sound <= |frames|
  {
    && e.base * FRAME <= e.pos && |given| == e.pos - e.base * FRAME
    && (!e.Past() ==> given <= Flatten(frames[e.base..e.sound]))
  }

  /** A slot left as it was holds the frame it held. */
  predicate LeftAsItWas(e: Epoch, tags: seq<int>, frames: seq<seq<s16>>)
    requires |tags| == |frames|
  {
    var n, r := |frames|, e.Reading();
    n == r + SLOTS + 1 && tags[r + SLOTS] == r ==> frames[r + SLOTS] == frames[r]
  }

  ghost predicate EpochHolds(e: Epoch, tags: seq<int>, heard: seq<int>, frames: seq<seq<s16>>, packets: seq<seq<u8>>, given: seq<s16>) {
    && |tags| == |frames| && OnCourse(e, tags, heard)
    && Sound(e, frames, packets) && GivenFits(e, frames, given) && LeftAsItWas(e, tags, frames)
  }

  lemma EpochAfterSkip(e: Epoch, tags: seq<int>, heard: seq<int>, frames: seq<seq<s16>>, packets: seq<seq<u8>>, given: seq<s16>, left: seq<s16>)
    requires EpochHolds(e, tags, heard, frames, packets, given) && |frames| <= e.Reading() + SLOTS
    requires |left| == FRAME && (|frames| >= SLOTS ==> left == frames[|frames| - SLOTS])
    ensures EpochHolds(AfterSkip(e, |frames|), tags + [LeftTag(tags)], heard, frames + [left], packets, given)
  {
    hide OnCourse, DecodeAll, Flatten;
    SkipKeepsCourse(e, tags, heard);
    CourseBounds(e, tags, heard);
    CourseBounds(AfterSkip(e, |frames|), tags + [LeftTag(tags)], heard);
    assert (frames + [left])[e.base..e.sound] == frames[e.base..e.sound];
  }

  lemma CourseBounds(e: Epoch, tags: seq<int>, heard: seq<int>)
    requires OnCourse(e, tags, heard)
    ensures e.base * FRAME <= e.pos <= |tags| * FRAME && Aligned(e.pos)
    ensures e.base <= e.Reading() <= |tags| <= e.Reading() + SLOTS + 1 && e.base <= e.sound <= |tags|
    ensures !e.Past() ==> e.pos <= e.sound * FRAME
    ensures e.loss == None ==> e.sound == |tags| <= e.Reading() + SLOTS
    ensures |heard| * READ == e.pos - e.base * FRAME && (InOrder(e.base, heard) <==> !e.Past())
  {
    hide InOrder;
  }

  lemma EpochAfterDecode(e: Epoch, tags: seq<int>, heard: seq<int>, frames: seq<seq<s16>>, packets: seq<seq<u8>>, given: seq<s16>,
                         source: nat, state: Predictor)
    requires EpochHolds(e, tags, heard, frames, packets, given) && |frames| <= e.Reading() + SLOTS
    requires |frames| <= source < |packets| && (e.loss == None ==> state == e.end)
    ensures var (ys, state') := DecodeOnePacket(state, packets[source]);
      var e' := AfterDecode(e, |frames|, source, state');
      && EpochHolds(e', tags + [source], heard, frames + [ys], packets, given)
      && (e'.loss == None ==> state' == e'.end)
  {
    hide OnCourse, DecodeAll, Flatten, DecodeOnePacket, AllFrames;
    var (ys, state') := DecodeOnePacket(state, packets[source]);
    var e' := AfterDecode(e, |frames|, source, state');
    DecodeKeepsCourse(e, tags, heard, source, state');
    CourseBounds(e, tags, heard);
    CourseBounds(e', tags + [source], heard);
    SoundAfterDecode(e, frames, packets, source, state);
    if e'.sound != e.sound {
      assert Flatten(frames[e.base..e.sound]) <= Flatten((frames + [ys])[e.base..e'.sound]);
    } else {
      assert (frames + [ys])[e.base..e.sound] == frames[e.base..e.sound];
    }
  }

  lemma SoundAfterDecode(e: Epoch, frames: seq<seq<s16>>, packets: seq<seq<u8>>, source: nat, state: Predictor)
    requires Sound(e, frames, packets) && |frames| <= source < |packets|
    requires e.loss == None ==> state == e.end && e.sound == |frames|
    ensures |packets[source]| == PACKET
    ensures var (ys, state') := DecodeOnePacket(state, packets[source]);
      var e' := AfterDecode(e, |frames|, source, state');
      && Sound(e', frames + [ys], packets)
      && Flatten(frames[e.base..e.sound]) <= Flatten((frames + [ys])[e.base..e'.sound])
  {
    hide DecodeAll, Flatten, DecodeOnePacket;
    var (ys, state') := DecodeOnePacket(state, packets[source]);
    var e' := AfterDecode(e, |frames|, source, state');
    if e'.sound != e.sound {
      DecodeAllSnoc(e.origin, packets[e.base..e.sound], packets[source]);
      FlattenSnoc(frames[e.base..e.sound], ys);
      assert (frames + [ys])[e.base..e'.sound] == frames[e.base..e.sound] + [ys];
      assert packets[e.base..e'.sound] == packets[e.base..e.sound] + [packets[source]];
    } else {
      assert (frames + [ys])[e.base..e.sound] == frames[e.base..e.sound];
    }
  }

  /** The slot USB reads next holds `out`. */
  lemma EpochAfterRead(e: Epoch, tags: seq<int>, heard: seq<int>, frames: seq<seq<s16>>, packets: seq<seq<u8>>, given: seq<s16>, out: seq<s16>)
    requires EpochHolds(e, tags, heard, frames, packets, given) && e.Reading() < |frames|
    requires out == NextRead(frames, e.pos)
    ensures EpochHolds(AfterRead(e), tags, heard + [tags[Standing(e.Reading(), |tags|)]], frames, packets, given + out)
  {
    hide OnCourse, DecodeAll, Flatten;
    ReadKeepsCourse(e, tags, heard);
    CourseBounds(e, tags, heard);
    CourseBounds(AfterRead(e), tags, heard + [tags[Standing(e.Reading(), |tags|)]]);
    NextReading(e.pos);
    if !AfterRead(e).Past() {
      SoundRead(e, tags, heard, frames);
      GivenAfterRead(e, frames, given, out);
    }
  }

  /** Before the loss the standing frame is the one that is due. */
  lemma SoundRead(e: Epoch, tags: seq<int>, heard: seq<int>, frames: seq<seq<s16>>)
    requires OnCourse(e, tags, heard) && |tags| == |frames| && LeftAsItWas(e, tags, frames)
    requires e.Reading() < |frames| && !AfterRead(e).Past()
    ensures e.Reading() < e.sound && frames[Standing(e.Reading(), |frames|)] == frames[e.Reading()]
  {
    hide InOrder;
  }

  lemma GivenAfterRead(e: Epoch, frames: seq<seq<s16>>, given: seq<s16>, out: seq<s16>)
    requires e.base <= e.Reading() < e.sound <= |frames| && AllFrames(frames) && Aligned(e.pos)
    requires GivenFits(e, frames, given) && !e.Past()
    requires out == frames[e.Reading()][e.pos % FRAME..e.pos % FRAME + READ]
    ensures given + out <= Flatten(frames[e.base..e.sound])
  {
    hide Flatten;
    var epoch, r, j := frames[e.base..e.sound], e.Reading(), e.pos % FRAME;
    NextReading(e.pos);
    FlattenFrames(epoch, r - e.base, j, READ);
    var all, done := Flatten(epoch), |given|;
    assert done == FRAME * (r - e.base) + j;
    assert all[..done + READ] == all[..done] + all[done..done + READ];
  }

  /** What USB would be given at `pos`. */
  function NextRead(frames: seq<seq<s16>>, pos: nat): (out: seq<s16>)
    requires pos / FRAME < |frames| <= pos / FRAME + SLOTS + 1 && AllFrames(frames) && Aligned(pos)
    ensures |out| == READ
  {
    NextReading(pos);
    frames[Standing(pos / FRAME, |frames|)][pos % FRAME..pos % FRAME + READ]
  }

  lemma EpochBegins(frames: seq<seq<s16>>, packets: seq<seq<u8>>, origin: Predictor)
    requires AllFrames(frames) && AllPackets(packets) && |frames| <= |packets|
    ensures EpochHolds(NewEpoch(|frames|, origin), seq(|frames|, _ => -1), [], frames, packets, [])
  {
    var n := |frames|;
    NewCourse(n, origin);
    assert frames[n..n] == [] && packets[n..n] == [];
  }

  /** The first item of a ring of four that still stands in it. */
  function Oldest(n: nat): nat { if n > SLOTS then n - SLOTS else 0 }

  /** The packet that stands in slot `f % SLOTS` when `n` have arrived: packet `f` itself,
      unless a later one has overwritten it. */
  function PacketInSlot(f: nat, n: nat): (k: nat)
    ensures f <= k && (k == f <==> n <= f + SLOTS)
    ensures f < n ==> Oldest(n) <= k < n
  {
    if n <= f + SLOTS then f else n - SLOTS + (f - n) % SLOTS
  }

  class Dongle {
    const decoder: Decoder
    const abufMic: array<u8>
    const abufDec: array<s16>
    var micWptr: nat
    var decWptr: nat
    var decRptr: nat
    var reset: nat
    var start: bool
    var bufferEmpty: bool
    var nUsbIso: nat
    ghost var arrived: seq<seq<u8>>
    ghost var frames: seq<seq<s16>>
    /** The packet each frame was decoded from. */
    ghost var tags: seq<int>
    ghost var epoch: Epoch
    /** What USB has been given in this epoch, and which packets its reads came from. */
    ghost var given: seq<s16>
    ghost var heard: seq<int>

    ghost predicate Valid()
      reads this, decoder, abufMic, abufDec
    {
      && Counters() && PacketsHeld() && FramesHeld()
      && (reset == 0 ==> InStep())
    }

    ghost predicate Counters()
      reads `micWptr, `decWptr, `decRptr, `arrived, `frames, `tags, decoder
    {
      && decoder.Valid() && decoder.variant == Google10
      && abufMic.Length == SLOTS * PACKET + 1 && abufDec.Length == SLOTS * FRAME
      && micWptr == Low8(|arrived|) && decWptr == Low8(|frames|) && |tags| == |frames| <= |arrived|
      && decRptr < RPTR_WRAP && decRptr % READ == 0
    }

    /** The latest packets stand in their slots. */
    ghost predicate PacketsHeld()
      reads `arrived, abufMic
    {
      AllPackets(arrived) && Holds(abufMic[..], SLOTS, PACKET, arrived, Oldest(|arrived|))
    }

    /** So do the latest frames. */
    ghost predicate FramesHeld()
      reads `frames, abufDec
    {
      AllFrames(frames) && Holds(abufDec[..], SLOTS, FRAME, frames, Oldest(|frames|))
    }

    ghost predicate InStep()
      requires decoder.Valid()
      reads `decRptr, `arrived, `frames, `tags, `epoch, `given, `heard, decoder
    {
      && decRptr == epoch.pos % RPTR_WRAP && (epoch.loss == None ==> decoder.State() == epoch.end)
      && EpochHolds(epoch, tags, heard, frames, arrived, given)
    }

    /** The frames decoded and not yet read, the one being read among them. */
    ghost function Unread(): int
      reads `frames, `epoch
    {
      |frames| - epoch.Reading()
    }

    constructor (decoder: Decoder, mic: array<u8>, dec: array<s16>)
      requires decoder.Valid() && decoder.variant == Google10
      requires mic.Length == SLOTS * PACKET + 1 && dec.Length == SLOTS * FRAME
      ensures Valid() && reset == 16 && start && arrived == [] && frames == []
      ensures this.decoder == decoder && abufMic == mic && abufDec == dec
      ensures mic.Length == 4 * 120 + 1 && dec.Length == 4 * 240
    {
      this.decoder, abufMic, abufDec := decoder, mic, dec;
      micWptr, decWptr, decRptr, reset := 0, 0, 0, 16;
      start, bufferEmpty, nUsbIso := true, true, 0;
      arrived, frames, tags, given, heard := [], [], [], [], [];
      epoch := NewEpoch(0, Predictor(0, 0));
    }

    /** `abuf_init`: both write counters start anew; the read position is left where it is
        until the reset has run down. */
    method Init()
      requires Valid()
      modifies `micWptr, `decWptr, `reset, `arrived, `frames, `tags
      ensures Valid() && reset == 16 && micWptr == decWptr == 0 && arrived == [] && frames == []
    {
      micWptr, decWptr, reset := 0, 0, 16;
      arrived, frames, tags := [], [], [];
    }

    /** A packet arrives. Nothing tells the sender that the ring is full. */
    method MicAdd(packet: seq<u8>)
      requires Valid() && |packet| == PACKET
      modifies `micWptr, `arrived, abufMic
      ensures Valid() && arrived == old(arrived) + [packet]
    {
      hide Low8, Holds, Offset, StandsAt, SameOutside, FramesHeld, EpochHolds;
      ghost var before, r := abufMic[..], Oldest(|arrived|);
      if |arrived| == r + SLOTS {
        HoldsAfterDrop(before, SLOTS, PACKET, arrived, r);
      }
      WrappedOffset(|arrived|, SLOTS, PACKET);
      Store(abufMic, Offset(micWptr, SLOTS, PACKET), packet);
      HoldsAfterStore(before, abufMic[..], SLOTS, PACKET, arrived, Oldest(|arrived| + 1), packet);
      Increment(|arrived|);
      micWptr := Low8(micWptr + 1);
      if reset == 0 {
        MorePackets(epoch, tags, heard, frames, arrived, given, packet);
      }
      arrived := arrived + [packet];
    }

    /** Decodes the next packet, if one is waiting and a frame is free. If more than four
        are waiting, the oldest one is given up first: its frame is counted, with the
        samples its slot was left with. */
    method MicDec() returns (decoded: bool)
      requires Valid()
      modifies `decWptr, `reset, `start, `frames, `tags, `epoch, decoder, abufDec
      ensures Valid() && old(frames) <= frames
      ensures old(reset) > 0 ==> !decoded && reset == old(reset) && start == old(start) && |frames| == |arrived|
      ensures old(reset) == 0 ==> var numMic, numDec, n := Low8(|arrived| - old(|frames|)), old(Unread()), old(|frames|);
        && (decoded <==> numDec < SLOTS && numMic >= (if old(start) then 2 else 1))
        && reset == (if numDec > SLOTS then 16 else 0)
        && start == (numDec > SLOTS || (old(start) && !decoded))
        && |frames| == n + (if numMic > SLOTS then 1 else 0) + (if decoded then 1 else 0)
        && (reset == 0 ==> epoch == AfterMicDec(old(epoch), n, |arrived|, decoded, decoder.State()))
      ensures old(reset) == 0 && Low8(|arrived| - old(|frames|)) > SLOTS ==> var n := old(|frames|);
        && n < |frames| && abufDec.Length == SLOTS * FRAME && frames[n] == SlotContent(old(abufDec[..]), n)
        && (n >= SLOTS ==> frames[n] == frames[n - SLOTS])
      ensures old(reset) == 0 && decoded ==> var k := |frames| - 1;
        && 0 <= k < |arrived| && AllPackets(arrived)
        && (frames[k], decoder.State()) == DecodeOnePacket(old(decoder.State()), arrived[PacketInSlot(k, |arrived|)])
      ensures !decoded ==> decoder.State() == old(decoder.State()) && abufDec[..] == old(abufDec[..])
    {
      hide Low8, PacketsHeld, FramesHeld, InStep, DecodeOnePacket, AfterMicDec, PacketInSlot, SlotContent;
      decoded := false;
      if reset > 0 {
        SkipAll();
      } else {
        AfterCall(epoch, |frames|, |arrived|);
        var numMic, numDec := Low8(micWptr - decWptr), Low8(decWptr - decRptr / FRAME);
        CountersTell(numMic, numDec);
        if numMic > SLOTS {
          SkipOne();
        }
        if numDec > SLOTS {
          reset, start := 16, true;
        } else if ((!start && numMic >= 1) || (start && numMic >= 2)) && numDec <= SLOTS - 1 {
          DecodeFrame();
          start := false;
          decoded := true;
        }
      }
    }

    /** What the counters say about the packets waiting and the frames not yet read. */
    lemma CountersTell(numMic: nat, numDec: nat)
      requires Valid() && reset == 0
      requires numMic == Low8(micWptr - decWptr) && numDec == Low8(decWptr - decRptr / FRAME)
      ensures numMic == Low8(|arrived| - |frames|) <= |arrived| - |frames|
      ensures numDec == Unread() <= SLOTS + 1 && epoch.pos / FRAME <= |frames|
    {
      hide EpochHolds, Low8, PacketsHeld, FramesHeld;
      EpochPosition(epoch, tags, heard, frames, arrived, given);
      MaskedDifference(|arrived|, |frames|);
      UnreadFromPointer(|frames|, epoch.pos);
    }

    /** While a reset is pending, arriving packets are dropped. */
    method SkipAll()
      requires Valid() && reset > 0
      modifies `decWptr, `frames, `tags
      ensures Valid() && |frames| == |arrived| && old(frames) <= frames
    {
      hide Low8, PacketsHeld, Offset, Holds, SlotContent;
      decWptr := micWptr;
      ghost var n, more, ring, was := |frames|, |arrived| - |frames|, abufDec[..], frames;
      frames := frames + seq(more, i requires 0 <= i < more => SlotContent(ring, n + i));
      tags := tags + seq(more, _ => -1);
      assert frames[..n] == was;
      StandingInSlots(ring, n, frames);
    }

    /** The oldest waiting packet has been overwritten; its frame is counted all the same. */
    method SkipOne()
      requires Valid() && reset == 0 && |frames| + SLOTS < |arrived|
      modifies `decWptr, `frames, `tags, `epoch
      ensures Counters() && PacketsHeld() && FramesHeld() && (old(Unread()) <= SLOTS ==> InStep())
      ensures frames == old(frames) + [SlotContent(abufDec[..], old(|frames|))]
      ensures old(|frames|) >= SLOTS ==> frames[old(|frames|)] == old(frames)[old(|frames|) - SLOTS]
      ensures epoch == AfterSkip(old(epoch), old(|frames|))
    {
      hide Low8, Holds, EpochHolds, PacketsHeld, SlotContent;
      ghost var n, left := |frames|, SlotContent(abufDec[..], |frames|);
      LeftInSlot(abufDec[..], frames);
      if Unread() <= SLOTS {
        EpochAfterSkip(epoch, tags, heard, frames, arrived, given, left);
      }
      epoch := AfterSkip(epoch, n);
      tags, frames := tags + [LeftTag(tags)], frames + [left];
      Increment(n);
      decWptr := Low8(decWptr + 1);
    }

    /** The packet in the slot of `decWptr` is decoded into the frame of the same number. */
    method DecodeFrame()
      requires Valid() && reset == 0 && |frames| < |arrived| && Unread() <= SLOTS
      modifies `decWptr, `frames, `tags, `epoch, decoder, abufDec
      ensures Valid() && AllPackets(arrived)
      ensures var source := PacketInSlot(old(|frames|), |arrived|);
        var (ys, state) := DecodeOnePacket(old(decoder.State()), arrived[source]);
        && frames == old(frames) + [ys] && decoder.State() == state
        && epoch == AfterDecode(old(epoch), old(|frames|), source, state)
    {
      hide Low8, Holds, Offset, EpochHolds, StandsAt, SameOutside, DecodeOnePacket, AfterDecode;
      ghost var before, state, n, source := abufDec[..], decoder.State(), |frames|, PacketInSlot(|frames|, |arrived|);
      PacketStands(abufMic[..], arrived, n);
      var ys := DecodeSlot();
      FramesAfterDecode(before, abufDec[..], frames, ys);
      EpochAfterDecode(epoch, tags, heard, frames, arrived, given, source, state);
      epoch := AfterDecode(epoch, n, source, decoder.State());
      tags, frames := tags + [source], frames + [ys];
      Increment(n);
      decWptr := Low8(decWptr + 1);
    }

    /** The slot of `decWptr`, decoded into the frame of the same number. */
    method DecodeSlot() returns (ghost ys: seq<s16>)
      requires Counters()
      modifies decoder, abufDec
      ensures decoder.Valid() && |ys| == FRAME
      ensures forall packet | |packet| == PACKET && StandsAt(abufMic[..], Offset(|frames|, SLOTS, PACKET), packet) ::
                (ys, decoder.State()) == DecodeOnePacket(old(decoder.State()), packet)
      ensures StandsAt(abufDec[..], Offset(|frames|, SLOTS, FRAME), ys)
      ensures SameOutside(old(abufDec[..]), abufDec[..], Offset(|frames|, SLOTS, FRAME), Offset(|frames|, SLOTS, FRAME) + FRAME)
    {
      hide Low8, Offset, DecodePacket, StandsAt, SameOutside;
      WrappedOffset(|frames|, SLOTS, PACKET);
      WrappedOffset(|frames|, SLOTS, FRAME);
      var from, to := Offset(decWptr, SLOTS, PACKET), Offset(decWptr, SLOTS, FRAME);
      var ps := abufMic[from..];
      NoHeaderOk(Google10, ps);
      ghost var before := abufDec[..];
      ys := DecodeOnePacket(decoder.State(), ps[..PACKET]).0;
      decoder.AdpcmToPcm(ps, abufDec, to, FRAME);
      Spliced(before, to, ys, FRAME);
      forall packet | |packet| == PACKET && StandsAt(abufMic[..], from, packet)
        ensures ps[..PACKET] == packet
      {
        PacketAt(abufMic[..], from, packet);
      }
    }

    /** One USB frame period. */
    method DecUsb(timedOut: bool) returns (out: seq<s16>)
      requires Valid()
      modifies `nUsbIso, `reset, `decRptr, `bufferEmpty, `tags, `epoch, `given, `heard
      ensures Valid() && reset == if timedOut then 15 else if old(reset) > 0 then old(reset) - 1 else 0
      ensures old(reset) > 0 || timedOut ==>
        out == [] && bufferEmpty && given == [] && heard == [] && epoch == NewEpoch(|frames|, decoder.State())
      ensures old(reset) == 0 && !timedOut ==> var r, n := old(epoch).Reading(), |frames|;
        && (out != [] <==> n - r >= (if old(bufferEmpty) then 3 else 1)) && (out == [] || |out| == 16)
        && bufferEmpty == (n == r || (old(bufferEmpty) && out == []))
        && tags == old(tags) && given == old(given) + out
        && (out == [] ==> epoch == old(epoch) && heard == old(heard))
        && (out != [] ==> out == NextRead(frames, old(epoch).pos) && epoch == AfterRead(old(epoch)))
        && (out != [] ==> heard == old(heard) + [tags[Standing(r, n)]])
    {
      hide Low8, PacketsHeld, FramesHeld, InStep, NextRead;
      nUsbIso := Low8(nUsbIso + 1);
      var beat := nUsbIso % 4 != 0;
      if timedOut {
        reset := 16;
      }
      if reset > 0 {
        ResetStep();
      } else {
        CountersTell(Low8(micWptr - decWptr), Low8(decWptr - decRptr / FRAME));
      }
      var num := Low8(decWptr - decRptr / FRAME);
      out := [];
      if num > 0 {
        if (bufferEmpty && num >= 3) || (!bufferEmpty && (num >= 1 || beat)) {
          bufferEmpty := false;
          out := TakeRead();
        }
      } else {
        bufferEmpty := true;
      }
    }

    /** The read position is set to the decoder's; a new epoch begins. */
    method ResetStep()
      requires Counters() && PacketsHeld() && FramesHeld() && reset > 0
      modifies `reset, `decRptr, `tags, `epoch, `given, `heard
      ensures Valid() && reset == old(reset) - 1 && Low8(decWptr - decRptr / FRAME) == 0
      ensures given == [] && heard == [] && epoch == NewEpoch(|frames|, decoder.State())
    {
      hide Low8, Holds, EpochHolds;
      PointerOfFrame(|frames|);
      decRptr := decWptr * FRAME;
      NoFrames(decWptr);
      reset := reset - 1;
      epoch, tags := NewEpoch(|frames|, decoder.State()), seq(|frames|, _ => -1);
      given, heard := [], [];
      EpochBegins(frames, arrived, decoder.State());
    }

    /** Copies the next 16 samples out. A read never straddles the end of the ring. */
    method TakeRead() returns (out: seq<s16>)
      requires Valid() && reset == 0 && 0 < Unread() <= SLOTS + 1
      modifies `decRptr, `epoch, `given, `heard
      ensures Valid() && epoch == AfterRead(old(epoch)) && given == old(given) + out
      ensures 0 < old(Unread()) <= SLOTS + 1 && AllFrames(frames) && Aligned(old(epoch).pos)
      ensures out == NextRead(frames, old(epoch).pos)
      ensures heard == old(heard) + [tags[Standing(old(epoch).Reading(), |tags|)]]
    {
      hide Low8, PacketsHeld, Holds, EpochHolds, Offset, NextRead;
      var offset := decRptr % (SLOTS * FRAME);
      EpochPosition(epoch, tags, heard, frames, arrived, given);
      NextPointer(decRptr, epoch.pos);
      ReadStands(abufDec[..], frames, epoch.pos);
      out := abufDec[offset..offset + READ];
      EpochAfterRead(epoch, tags, heard, frames, arrived, given, out);
      decRptr := decRptr + READ;
      if decRptr >= RPTR_WRAP {
        decRptr := 0;
      }
      heard := heard + [tags[Standing(epoch.Reading(), |tags|)]];
      epoch, given := AfterRead(epoch), given + out;
    }

    /** What USB has been given in this epoch is in order, packet after packet, exactly until
        it has read beyond the loss. As long as it is, it is what decoding the packets of the
        epoch one after the other gives. */
    ghost predicate DeliveredUntilLoss()
      reads `arrived, `frames, `epoch, `given, `heard
    {
      && (InOrder(epoch.base, heard) <==> !epoch.Past())
      && epoch.base <= epoch.sound <= |arrived| && AllPackets(arrived)
      && (!epoch.Past() ==> given <= DecodeAll(epoch.origin, arrived[epoch.base..epoch.sound]).0)
      && (epoch.loss == None ==> epoch.sound == |frames|)
    }

    /** In every run. */
    lemma Delivery()
      requires Valid() && reset == 0
      ensures DeliveredUntilLoss()
    {
      hide OnCourse, DecodeAll, Flatten;
      CourseBounds(epoch, tags, heard);
    }

    /** From microphone to USB: when the packets that were decoded in time are those an encoder
        made of some blocks, and the decoder began the epoch in the encoder's state, then what
        USB is given before a loss is a prefix of the encoder's predictions for these blocks. */
    lemma EndToEnd(blocks: seq<seq<s16>>)
      requires Valid() && reset == 0 && !epoch.Past()
      requires forall k :: 0 <= k < |blocks| ==> |blocks[k]| == FRAME
      requires epoch.base <= epoch.sound <= |arrived|
      requires arrived[epoch.base..epoch.sound] == EncodeStream(Google10, epoch.origin, blocks)
      ensures given <= Trajectory(epoch.origin, Flatten(blocks))
      ensures epoch.loss == None ==> decoder.State() == Track(epoch.origin, Flatten(blocks))
    {
      hide OnCourse, Flatten, EncodeStream, DecodeStream, Track, Trajectory;
      assert Lengths(blocks) == FrameLengths(|blocks|);
      StreamLockStep(Google10, epoch.origin, blocks);
    }
  }

  /** The epoch after a call of the decoder with `n` frames counted and `arrived` packets. */
  function AfterMicDec(e: Epoch, n: nat, arrived: nat, decoded: bool, end: Predictor): (e': Epoch)
    ensures e'.pos == e.pos
  {
    var skipped := Low8(arrived - n) > SLOTS;
    var e1, m := if skipped then AfterSkip(e, n) else e, if skipped then n + 1 else n;
    if decoded then AfterDecode(e1, m, PacketInSlot(m, arrived), end) else e1
  }

  lemma AfterCall(e: Epoch, n: nat, arrived: nat)
    ensures forall end :: AfterMicDec(e, n, arrived, false, end) == if Low8(arrived - n) > SLOTS then AfterSkip(e, n) else e
    ensures Low8(arrived - n) > SLOTS ==>
      forall end :: AfterMicDec(e, n, arrived, true, end) == AfterDecode(AfterSkip(e, n), n + 1, PacketInSlot(n + 1, arrived), end)
    ensures Low8(arrived - n) <= SLOTS ==>
      forall end :: AfterMicDec(e, n, arrived, true, end) == AfterDecode(e, n, PacketInSlot(n, arrived), end)
  {
    hide Low8, AfterSkip, AfterDecode, PacketInSlot;
  }

  /** What the slot of frame `k` holds. */
  function SlotContent(buf: seq<s16>, k: nat): (ys: seq<s16>)
    requires |buf| == SLOTS * FRAME
    ensures |ys| == FRAME
  {
    buf[Offset(k, SLOTS, FRAME)..Offset(k, SLOTS, FRAME) + FRAME]
  }

  lemma MorePackets(e: Epoch, tags: seq<int>, heard: seq<int>, frames: seq<seq<s16>>, packets: seq<seq<u8>>, given: seq<s16>, packet: seq<u8>)
    requires EpochHolds(e, tags, heard, frames, packets, given) && |packet| == PACKET
    ensures EpochHolds(e, tags, heard, frames, packets + [packet], given)
  {
    hide OnCourse, DecodeAll, Flatten;
    assert (packets + [packet])[e.base..e.sound] == packets[e.base..e.sound];
  }

  lemma EpochPosition(e: Epoch, tags: seq<int>, heard: seq<int>, frames: seq<seq<s16>>, packets: seq<seq<u8>>, given: seq<s16>)
    requires EpochHolds(e, tags, heard, frames, packets, given)
    ensures e.Reading() <= |tags| == |frames| <= e.Reading() + SLOTS + 1 && Aligned(e.pos)
  {
    hide Sound, GivenFits, LeftAsItWas;
    CourseBounds(e, tags, heard);
  }

  /** Frames counted as their slots were left. */
  lemma StandingInSlots(buf: seq<s16>, n: nat, frames: seq<seq<s16>>)
    requires |buf| == SLOTS * FRAME && n <= |frames| && Holds(buf, SLOTS, FRAME, frames[..n], Oldest(n))
    requires forall k :: n <= k < |frames| ==> frames[k] == SlotContent(buf, k)
    ensures Holds(buf, SLOTS, FRAME, frames, Oldest(|frames|))
  {
    hide Offset;
    forall k | Oldest(|frames|) <= k < |frames|
      ensures StandsAt(buf, Offset(k, SLOTS, FRAME), frames[k])
    {
      if k < n {
        HeldItemAt(buf, frames[..n], k);
      }
    }
  }

  lemma HeldItemAt(buf: seq<s16>, frames: seq<seq<s16>>, k: nat)
    requires Holds(buf, SLOTS, FRAME, frames, Oldest(|frames|)) && Oldest(|frames|) <= k < |frames|
    ensures StandsAt(buf, Offset(k, SLOTS, FRAME), frames[k])
  {
    hide Offset, StandsAt;
  }

  /** A slot that is not written keeps the frame four before. */
  lemma LeftInSlot(buf: seq<s16>, frames: seq<seq<s16>>)
    requires |buf| == SLOTS * FRAME && AllFrames(frames) && Holds(buf, SLOTS, FRAME, frames, Oldest(|frames|))
    ensures var n, left := |frames|, SlotContent(buf, |frames|);
      && Holds(buf, SLOTS, FRAME, frames + [left], Oldest(n + 1))
      && (n >= SLOTS ==> left == frames[n - SLOTS])
  {
    hide Offset, Holds;
    var n, left := |frames|, SlotContent(buf, |frames|);
    assert (frames + [left])[..n] == frames;
    StandingInSlots(buf, n, frames + [left]);
    if n >= SLOTS {
      HeldItemAt(buf, frames, n - SLOTS);
      SameSlot(n, SLOTS, FRAME);
    }
  }

  lemma SameSlot(n: nat, slots: nat, size: nat)
    requires 0 < slots <= n
    ensures Offset(n - slots, slots, size) == Offset(n, slots, size)
  {
    ModUnique(n, (n - slots) / slots + 1, slots, (n - slots) % slots);
    assert ((n - slots) / slots + 1) * slots == (n - slots) / slots * slots + slots;
  }

  /** The packet in the slot of frame `f`. */
  lemma PacketStands(buf: seq<u8>, packets: seq<seq<u8>>, f: nat)
    requires Holds(buf, SLOTS, PACKET, packets, Oldest(|packets|)) && f < |packets|
    ensures StandsAt(buf, Offset(f, SLOTS, PACKET), packets[PacketInSlot(f, |packets|)])
  {
    hide StandsAt;
    var k := PacketInSlot(f, |packets|);
    assert k % SLOTS == f % SLOTS;
    assert StandsAt(buf, Offset(k, SLOTS, PACKET), packets[k]);
  }

  lemma FramesAfterDecode(buf: seq<s16>, buf': seq<s16>, frames: seq<seq<s16>>, ys: seq<s16>)
    requires |buf| == SLOTS * FRAME && AllFrames(frames) && Holds(buf, SLOTS, FRAME, frames, Oldest(|frames|))
    requires |ys| == FRAME && StandsAt(buf', Offset(|frames|, SLOTS, FRAME), ys)
    requires SameOutside(buf, buf', Offset(|frames|, SLOTS, FRAME), Offset(|frames|, SLOTS, FRAME) + FRAME)
    ensures Holds(buf', SLOTS, FRAME, frames + [ys], Oldest(|frames| + 1)) && AllFrames(frames + [ys])
  {
    hide Offset, StandsAt, SameOutside;
    var n := |frames|;
    if n >= SLOTS {
      HoldsAfterDrop(buf, SLOTS, FRAME, frames, n - SLOTS);
    }
    HoldsAfterStore(buf, buf', SLOTS, FRAME, frames, Oldest(n + 1), ys);
  }

  /** Where the read pointer points there is the next read. */
  lemma ReadStands(buf: seq<s16>, frames: seq<seq<s16>>, pos: nat)
    requires |buf| == SLOTS * FRAME && AllFrames(frames) && Holds(buf, SLOTS, FRAME, frames, Oldest(|frames|))
    requires pos / FRAME < |frames| <= pos / FRAME + SLOTS + 1 && Aligned(pos)
    ensures var offset := pos % RPTR_WRAP % (SLOTS * FRAME);
      offset + READ <= |buf| && buf[offset..offset + READ] == NextRead(frames, pos)
  {
    hide Holds, Offset, StandsAt;
    var r, j := pos / FRAME, pos % FRAME;
    var s := Standing(r, |frames|);
    PositionInRing(pos);
    HeldItemAt(buf, frames, s);
    if s != r {
      SameSlot(s, SLOTS, FRAME);
    }
    SliceOfStanding(buf, Offset(s, SLOTS, FRAME), frames[s], j, READ);
  }

  // ----------------------------------------------------- when a packet is lost

  /** From an epoch without loss, a call of the decoder leaves it so if and only if it finds
      no overwritten packet: four or fewer are waiting, and the counters, which see the number
      modulo 256, have not hidden more. */
  lemma LossIffOverwritten(e: Epoch, n: nat, arrived: nat, start: bool, decoded: bool, end: Predictor)
    requires e.loss == None && n <= arrived
    requires decoded <==> n - e.Reading() < SLOTS && Low8(arrived - n) >= (if start then 2 else 1)
    requires e.Reading() <= n <= e.Reading() + SLOTS
    ensures AfterMicDec(e, n, arrived, decoded, end).loss == None <==>
      arrived - n <= SLOTS || (Low8(arrived - n) <= SLOTS && !decoded)
    ensures arrived - n < 256 ==> (AfterMicDec(e, n, arrived, decoded, end).loss == None <==> arrived - n <= SLOTS)
  {
  }

  /** The loss of an epoch when the decoder first finds more than four packets waiting. With
      at most two frames unread, or four, it is heard from the start of the frame given up.
      With three, the packet decoded next overwrites the frame being read, and it is heard
      at once. With three or four, five frames are unread then: if the decoder is called
      again before USB has finished the frame, it resets the buffer. */
  lemma WhereLossIsHeard(e: Epoch, n: nat, arrived: nat, decoded: bool, end: Predictor)
    requires e.loss == None && e.Reading() <= n <= e.Reading() + SLOTS && n <= arrived
    requires Low8(arrived - n) > SLOTS && (decoded <==> n - e.Reading() < SLOTS)
    requires e.pos <= n * FRAME
    ensures AfterMicDec(e, n, arrived, decoded, end).loss == Some(if n - e.Reading() == 3 then e.pos else n * FRAME)
    ensures var n' := n + 1 + (if decoded then 1 else 0);
      n' - e.Reading() > SLOTS <==> n - e.Reading() >= 3
  {
  }

  /** A difference of byte counters is never more than the difference they stand for. */
  lemma MaskedBelow(w: nat, r: nat)
    requires r <= w
    ensures Low8(Low8(w) - Low8(r)) <= w - r
  {
    var d := w / 256 - r / 256;
    assert Low8(w) - Low8(r) == w - r - 256 * d;
    QuotientUnique(d + (w - r - 256 * d) / 256, Low8(w - r - 256 * d), (w - r) / 256, Low8(w - r), 256);
  }

  lemma MaskedDifference(w: nat, r: nat)
    requires r <= w
    ensures Low8(Low8(w) - Low8(r)) == Low8(w - r) <= w - r
  {
    MaskedBelow(w, r);
    var d := w / 256 - r / 256;
    assert Low8(w) - Low8(r) == w - r - 256 * d;
    ModUnique(Low8(w) - Low8(r), (w - r) / 256 - d, 256, Low8(w - r));
  }

  lemma UnreadFromPointer(n: nat, pos: nat)
    requires pos / FRAME <= n < pos / FRAME + 256
    ensures Low8(Low8(n) - pos % RPTR_WRAP / FRAME) == n - pos / FRAME
  {
    FrameOfPointer(pos);
    Distance(n, pos / FRAME);
  }

  lemma FrameOfPointer(pos: nat)
    ensures pos % RPTR_WRAP / FRAME == Low8(pos / FRAME)
  {
    var q, s := pos / RPTR_WRAP, pos % RPTR_WRAP;
    assert pos == (256 * q + s / FRAME) * FRAME + s % FRAME;
    QuotientUnique(256 * q + s / FRAME, s % FRAME, pos / FRAME, pos % FRAME, FRAME);
    ModUnique(pos / FRAME, q, 256, s / FRAME);
  }

  lemma PointerOfFrame(f: nat)
    ensures Low8(f) * FRAME == f * FRAME % RPTR_WRAP < RPTR_WRAP && Low8(f) * FRAME % READ == 0
  {
    assert f == f / 256 * 256 + Low8(f);
    ModUnique(f * FRAME, f / 256, RPTR_WRAP, Low8(f) * FRAME);
    ModUnique(Low8(f) * FRAME, 15 * Low8(f), READ, 0);
  }

  lemma NoFrames(w: nat)
    ensures Low8(w - w * FRAME / FRAME) == 0
  {
  }

  lemma NextPointer(rptr: nat, pos: nat)
    requires rptr < RPTR_WRAP && rptr % READ == 0
    ensures var next := if rptr + READ >= RPTR_WRAP then 0 else rptr + READ;
      && next < RPTR_WRAP && next % READ == 0
      && (rptr == pos % RPTR_WRAP ==> next == (pos + READ) % RPTR_WRAP)
    ensures rptr % (SLOTS * FRAME) + READ <= SLOTS * FRAME
  {
    var a, k := rptr / READ, pos / RPTR_WRAP;
    assert rptr == READ * a;
    if rptr == pos % RPTR_WRAP {
      assert pos == k * RPTR_WRAP + rptr;
      if rptr + READ < RPTR_WRAP {
        ModUnique(pos + READ, k, RPTR_WRAP, rptr + READ);
      } else {
        ModUnique(pos + READ, k + 1, RPTR_WRAP, 0);
      }
    }
    ModUnique(rptr, a / 60, SLOTS * FRAME, READ * (a % 60));
  }

  lemma PositionInRing(pos: nat)
    requires Aligned(pos)
    ensures pos % RPTR_WRAP % (SLOTS * FRAME) == Offset(pos / FRAME, SLOTS, FRAME) + pos % FRAME
    ensures pos % FRAME + READ <= FRAME
    ensures (pos + READ) / FRAME == pos / FRAME || (pos + READ) / FRAME == pos / FRAME + 1
  {
    WrapKeepsRing(pos);
    var f, j := pos / FRAME, pos % FRAME;
    assert pos == f * FRAME + j && f == f / SLOTS * SLOTS + f % SLOTS;
    ModUnique(pos, f / SLOTS, SLOTS * FRAME, f % SLOTS * FRAME + j);
  }

  lemma WrapKeepsRing(pos: nat)
    ensures pos % RPTR_WRAP % (SLOTS * FRAME) == pos % (SLOTS * FRAME)
  {
    var q, s := pos / RPTR_WRAP, pos % RPTR_WRAP;
    ModUnique(pos, 64 * q + s / (SLOTS * FRAME), SLOTS * FRAME, s % (SLOTS * FRAME));
  }

  lemma PacketAt(buf: seq<u8>, at: nat, packet: seq<u8>)
    requires StandsAt(buf, at, packet)
    ensures buf[at..][..|packet|] == packet
  {
  }
}
