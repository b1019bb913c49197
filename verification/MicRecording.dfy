/** The microphone in front of the encoder: samples are written round a buffer of two halves,
    and `proc_mic_encoder` takes the halves in turn. What is encoded is the recording, without
    a gap and without a repetition, as long as the microphone is not more than the buffer
    ahead. */
module MicRecording {
  import opened Arith
  import opened Types
  import opened Adpcm
  import opened AdpcmPackets
  import opened AdpcmDevice
  import opened Ring
  import opened MicRing

  /** The buffer holds the latest samples. */
  ghost predicate HoldsLatest(buf: seq<s16>, recorded: seq<s16>, size: nat)
    requires 0 < size
  {
    |buf| == size && forall k :: 0 <= k < |recorded| && |recorded| <= k + size ==> buf[At(k, size)] == recorded[k]
  }

  /** Where sample `k` is written. */
  function At(k: nat, size: nat): (i: nat)
    requires 0 < size
    ensures i < size
  {
    k % size
  }

  lemma NextAt(k: nat, size: nat)
    requires 0 < size
    ensures At(k + 1, size) == if At(k, size) + 1 == size then 0 else At(k, size) + 1
  {
    var q, r := k / size, k % size;
    assert k == q * size + r && (q + 1) * size == q * size + size;
    if r + 1 == size {
      ModUnique(k + 1, q + 1, size, 0);
    } else {
      ModUnique(k + 1, q, size, r + 1);
    }
  }

  lemma HoldsAfterWrite(buf: seq<s16>, recorded: seq<s16>, size: nat, x: s16)
    requires 0 < size && HoldsLatest(buf, recorded, size)
    ensures HoldsLatest(buf[At(|recorded|, size) := x], recorded + [x], size)
  {
    hide At;
    var buf' := buf[At(|recorded|, size) := x];
    forall k | 0 <= k < |recorded| + 1 && |recorded| + 1 <= k + size
      ensures buf'[At(k, size)] == (recorded + [x])[k]
    {
      if k < |recorded| {
        OtherPlace(k, |recorded|, size);
      }
    }
  }

  lemma OtherPlace(k: nat, n: nat, size: nat)
    requires 0 < size && k < n < k + size
    ensures At(k, size) != At(n, size)
  {
    SlotsDiffer(k, n, size);
  }

  /** The samples of `m` blocks. */
  function Units(m: nat, unit: nat): nat { m * unit }

  lemma NextUnits(m: nat, unit: nat)
    ensures Units(m + 1, unit) == Units(m, unit) + unit && Units(0, unit) == 0
  {
    assert (m + 1) * unit == m * unit + unit;
  }

  /** The half that block `m` is read from. */
  function HalfOf(m: nat, unit: nat): nat { if m % 2 == 0 then 0 else unit }

  lemma PlaceInHalf(m: nat, unit: nat, j: nat)
    requires j < unit
    ensures At(Units(m, unit) + j, 2 * unit) == HalfOf(m, unit) + j
  {
    var q, b := m / 2, m % 2;
    assert m == 2 * q + b;
    assert m * unit == q * (2 * unit) + b * unit;
    assert b * unit == HalfOf(m, unit);
    ModUnique(m * unit + j, q, 2 * unit, HalfOf(m, unit) + j);
  }

  /** A half that has been written and not yet overwritten is the next unit of the recording. */
  lemma HalfIsRecorded(buf: seq<s16>, recorded: seq<s16>, unit: nat, m: nat)
    requires 0 < unit && HoldsLatest(buf, recorded, 2 * unit)
    requires Units(m, unit) + unit <= |recorded| <= Units(m, unit) + 2 * unit
    ensures HalfOf(m, unit) + unit <= |buf|
    ensures buf[HalfOf(m, unit)..HalfOf(m, unit) + unit] == recorded[Units(m, unit)..Units(m, unit) + unit]
  {
    hide At, HalfOf, Units;
    HalfBounds(m, unit);
    var a, b := buf[HalfOf(m, unit)..HalfOf(m, unit) + unit], recorded[Units(m, unit)..Units(m, unit) + unit];
    forall j | 0 <= j < unit
      ensures a[j] == b[j]
    {
      PlaceInHalf(m, unit, j);
    }
  }

  lemma HalfBounds(m: nat, unit: nat)
    ensures HalfOf(m, unit) + unit <= 2 * unit
  {
  }

  /** What the pointers tell: with less than the whole buffer unread, a half is ready exactly
      if a unit of samples is unread; with the whole buffer unread it looks empty. */
  lemma PointersTell(n: nat, m: nat, unit: nat)
    requires 0 < unit && Units(m, unit) <= n <= Units(m, unit) + 2 * unit
    ensures HalfReady(At(n, 2 * unit), HalfOf(m, unit), unit) <==> Units(m, unit) + unit <= n < Units(m, unit) + 2 * unit
  {
    hide At, Units;
    var d := n - Units(m, unit);
    NextUnits(m, unit);
    NextUnits(m + 1, unit);
    if d < unit {
      PlaceInHalf(m, unit, d);
    } else if d < 2 * unit {
      PlaceInHalf(m + 1, unit, d - unit);
    } else {
      PlaceInHalf(m + 2, unit, 0);
    }
  }

  lemma {:induction false} WholeLength(v: Variant, blocks: seq<seq<s16>>)
    requires WholeBlocks(v, blocks)
    ensures |Flatten(blocks)| == Units(|blocks|, UnitSize(v))
  {
    hide Units;
    if |blocks| > 0 {
      WholeLength(v, blocks[..|blocks| - 1]);
      NextUnits(|blocks| - 1, UnitSize(v));
    } else {
      NextUnits(0, UnitSize(v));
    }
  }

  /** One more unit of the recording. */
  lemma NextUnit(v: Variant, blocks: seq<seq<s16>>, recorded: seq<s16>, b: seq<s16>)
    requires WholeBlocks(v, blocks) && Flatten(blocks) <= recorded
    requires var from := Units(|blocks|, UnitSize(v)); from + UnitSize(v) <= |recorded| && b == recorded[from..from + UnitSize(v)]
    ensures Flatten(blocks + [b]) <= recorded
  {
    hide Units, Flatten, WholeBlocks;
    WholeLength(v, blocks);
    FlattenSnoc(blocks, b);
    var from := Units(|blocks|, UnitSize(v));
    assert recorded[..from + UnitSize(v)] == recorded[..from] + b;
  }

  class Recorder {
    const enc: MicEncoder
    var micWptr: nat
    ghost var recorded: seq<s16>
    /** A half was encoded that the microphone had begun to overwrite. */
    ghost var late: bool

    ghost predicate Valid()
      reads this, enc, enc.encoder, enc.bufferMicEnc, enc.bufferMic
    {
      enc.Valid() && Pointers() && (!late ==> Flatten(enc.blocks) <= recorded)
    }

    ghost predicate Pointers()
      reads this, enc, enc.bufferMic
    {
      && enc.bufferMic.Length == 2 * UnitSize(enc.variant)
      && micWptr == At(|recorded|, 2 * UnitSize(enc.variant))
      && enc.micRptr == HalfOf(|enc.blocks|, UnitSize(enc.variant))
      && HoldsLatest(enc.bufferMic[..], recorded, 2 * UnitSize(enc.variant))
    }

    /** How many samples of the recording have been encoded. */
    ghost function Encoded(): nat
      reads enc
    {
      Units(|enc.blocks|, UnitSize(enc.variant))
    }

    constructor (enc: MicEncoder)
      requires enc.Valid() && enc.blocks == [] && enc.micRptr == 0
      ensures Valid() && this.enc == enc && recorded == [] && !late
    {
      this.enc, micWptr, recorded, late := enc, 0, [], false;
    }

    /** The microphone writes a sample. */
    method MicWrite(x: s16)
      requires Valid()
      modifies `micWptr, `recorded, enc.bufferMic
      ensures Valid() && recorded == old(recorded) + [x]
    {
      hide At, HoldsLatest, HalfOf, Flatten, WholeBlocks, MicEncoder.Consistent;
      EncodedWithin(enc, recorded, late);
      HoldsAfterWrite(enc.bufferMic[..], recorded, 2 * UnitSize(enc.variant), x);
      NextAt(|recorded|, 2 * UnitSize(enc.variant));
      enc.bufferMic[micWptr] := x;
      micWptr := if micWptr + 1 == 2 * UnitSize(enc.variant) then 0 else micWptr + 1;
      recorded := recorded + [x];
    }

    /** A pass of the main loop. In time, it encodes exactly the next unit of the recording when
        one is there, and packets that must not be lost leave room. When the microphone is the
        whole buffer ahead, it does nothing; beyond that it encodes overwritten samples. */
    method Process() returns (encoded: bool)
      requires Valid()
      modifies enc`micRptr, enc`pktWptr, enc`pktRptr, enc`blocks, enc`removed, enc.encoder, enc.bufferMicEnc, `late
      ensures Valid()
      ensures !old(late) && Unread(old(Encoded())) <= 2 * UnitSize(enc.variant) ==>
        (encoded <==> UnitSize(enc.variant) <= Unread(old(Encoded())) < 2 * UnitSize(enc.variant) && old(HasRoom()))
      ensures late <==> old(late) || (encoded && Unread(old(Encoded())) > 2 * UnitSize(enc.variant))
      ensures encoded && !late ==> UnitSize(enc.variant) <= Unread(old(Encoded()))
      ensures encoded && !late ==>
        enc.blocks == old(enc.blocks) + [recorded[old(Encoded())..old(Encoded()) + UnitSize(enc.variant)]]
      ensures !encoded ==> enc.blocks == old(enc.blocks)
    {
      hide At, HoldsLatest, HalfOf, Units, Flatten, WholeBlocks, HalfReady, Latest, UnitSize, Packets, MicEncoder.Valid;
      UnitIs(enc.variant);
      ghost var unit, blocks := UnitSize(enc.variant), enc.blocks;
      EncodedWithin(enc, recorded, late);
      if !late && |recorded| <= Encoded() + 2 * unit {
        PointersTell(|recorded|, |blocks|, unit);
      }
      encoded := enc.ProcMicEncoder(micWptr);
      if encoded {
        OtherHalf(|blocks|, unit);
        if !late && |recorded| <= Units(|blocks|, unit) + 2 * unit {
          HalfIsRecorded(enc.bufferMic[..], recorded, unit, |blocks|);
          NextUnit(enc.variant, blocks, recorded, recorded[Units(|blocks|, unit)..Units(|blocks|, unit) + unit]);
        } else {
          late := true;
        }
      }
    }

    /** How far the microphone is ahead of `encoded` samples. */
    ghost function Unread(encoded: nat): int
      reads `recorded
    {
      |recorded| - encoded
    }

    /** A packet may be stored: the HID variant keeps the packets that wait. */
    ghost predicate HasRoom()
      reads enc
    {
      enc.variant == Hid ==> |enc.blocks| - enc.removed < enc.num
    }

    /** The radio takes the oldest packet, if there is one. */
    method Read() returns (packet: Option<seq<u8>>)
      requires Valid()
      modifies enc`pktRptr, enc`removed, enc`taken
      ensures Valid() && enc.blocks == old(enc.blocks)
      ensures packet == None <==> old(enc.removed) == |enc.blocks|
      ensures packet.Some? ==>
        && old(enc.removed) < |enc.blocks|
        && packet.value == Packets(enc.variant, enc.blocks)[old(enc.removed)]
        && enc.removed == old(enc.removed) + 1 && enc.taken == old(enc.taken) + [packet.value]
    {
      hide At, HoldsLatest, HalfOf, Flatten, WholeBlocks, Packets, MicEncoder.Consistent;
      EncodedWithin(enc, recorded, late);
      var r := enc.DataBuffer();
      if r == None {
        return None;
      }
      OldestLength(enc);
      packet := Some(enc.bufferMicEnc[r.value..r.value + PacketLength(enc.variant)]);
      enc.DataReadOk();
    }

    /** From the microphone to the dongle (HID): in every run the packets taken so far, decoded
        from power-on, give the encoder's predictions for the first samples of the recording. */
    lemma SpokenIsHeard()
      requires Valid() && enc.variant == Hid && !late
      ensures Heard(enc.taken, recorded)
    {
      hide Flatten, DecodeStream, Trajectory, Track, MicEncoder.Consistent, HoldsLatest, Packets, Decodable, At, HalfOf, Units;
      EncodedWithin(enc, recorded, late);
      WholeLengths(enc.blocks[..enc.removed]);
      enc.HidEndToEnd();
      FirstUnits(Hid, enc.blocks, recorded, enc.removed);
    }
  }

  /** The packets decode to the encoder's predictions for the first samples of the recording. */
  predicate Heard(packets: seq<seq<u8>>, recorded: seq<s16>) {
    var n, lens := Units(|packets|, UnitSize(Hid)), seq(|packets|, _ => UnitSize(Hid));
    && n <= |recorded| && Decodable(Hid, packets, lens)
    && DecodeStream(Hid, PowerOn(Hid), packets, lens).0 == Trajectory(PowerOn(Hid), recorded[..n])
  }

  lemma WholeLengths(blocks: seq<seq<s16>>)
    requires WholeBlocks(Hid, blocks)
    ensures Lengths(blocks) == seq(|blocks|, _ => UnitSize(Hid))
  {
  }

  lemma EncodedWithin(enc: MicEncoder, recorded: seq<s16>, late: bool)
    requires enc.Valid() && (!late ==> Flatten(enc.blocks) <= recorded)
    ensures WholeBlocks(enc.variant, enc.blocks) && enc.removed <= |enc.blocks|
    ensures enc.bufferMic.Length == 2 * UnitSize(enc.variant)
    ensures !late ==> Units(|enc.blocks|, UnitSize(enc.variant)) <= |recorded|
  {
    hide Holds, Packets, Track, Flatten, WholeBlocks, Units;
    WholeLength(enc.variant, enc.blocks);
  }

  lemma UnitIs(v: Variant)
    ensures 0 < UnitSize(v)
  {
  }

  lemma OtherHalf(m: nat, unit: nat)
    ensures HalfOf(m + 1, unit) == unit - HalfOf(m, unit)
  {
  }

  function PacketLength(v: Variant): nat { HeaderLength(v) + UnitSize(v) / 4 * 2 }

  lemma OldestLength(enc: MicEncoder)
    requires enc.Valid() && enc.removed < |enc.blocks|
    ensures |enc.Waiting()[0]| == PacketLength(enc.variant)
  {
    hide Holds, Track, Flatten, Header, Payload, Codes;
  }

  /** The first blocks are the first samples. */
  lemma FirstUnits(v: Variant, blocks: seq<seq<s16>>, recorded: seq<s16>, n: nat)
    requires WholeBlocks(v, blocks) && Flatten(blocks) <= recorded && n <= |blocks|
    ensures Units(n, UnitSize(v)) <= |recorded| && Flatten(blocks[..n]) == recorded[..Units(n, UnitSize(v))]
  {
    hide Flatten, Units;
    WholeLength(v, blocks[..n]);
    var tail := FlattenPrefix(blocks, n);
    assert Flatten(blocks) == Flatten(blocks[..n]) + tail;
  }
}
