/** The microphone side: half-buffers of samples are encoded into a ring of packets
    (`proc_mic_encoder`), which the radio reads one at a time. The HID variant waits while
    the ring is full; the others overwrite the oldest packet. */
module MicRing {
  import opened Types
  import opened Adpcm
  import opened AdpcmPackets
  import opened AdpcmDevice
  import opened Ring

  function UnitSize(v: Variant): nat {
    match v case Telink => 248 case Google04 => 256 case _ => 240
  }

  function SlotSize(v: Variant): nat {
    match v case Telink => 128 case Google04 => 136 case _ => 120
  }

  function PowerOn(v: Variant): Predictor {
    if v == Google10 || v == Google04 then Predictor(0, 1) else Predictor(0, 0)
  }

  /** The packets of all blocks encoded since power-on. */
  function Packets(v: Variant, blocks: seq<seq<s16>>): (packets: seq<seq<u8>>)
    ensures |packets| == |blocks|
  {
    EncodeStream(v, PowerOn(v), blocks)
  }

  predicate WholeBlocks(v: Variant, blocks: seq<seq<s16>>) {
    forall k :: 0 <= k < |blocks| ==> |blocks[k]| == UnitSize(v)
  }

  /** A half-buffer of `unit` samples from `micRptr` on is complete. */
  predicate HalfReady(micWptr: nat, micRptr: nat, unit: nat) {
    micWptr < micRptr || micWptr >= micRptr + unit
  }

  lemma SerialIrrelevant(v: Variant, p: Predictor, s: nat, s': nat, xs: seq<s16>)
    requires s < 0x1_0000 && s' < 0x1_0000 && (v == Google04 ==> s == s')
    ensures Packet(v, p, s, xs) == Packet(v, p, s', xs)
  {
    hide Pack, Codes;
  }

  lemma NextSerial(v: Variant, serial: nat, n: nat)
    requires serial < 0x1_0000 && (v == Google04 ==> serial == n % 0x1_0000)
    ensures v == Google04 ==> SerialAfter(v, serial) == (n + 1) % 0x1_0000
  {
  }

  lemma OneMoreBlock(v: Variant, blocks: seq<seq<s16>>, b: seq<s16>)
    requires WholeBlocks(v, blocks) && |b| == UnitSize(v)
    ensures WholeBlocks(v, blocks + [b])
    ensures Track(PowerOn(v), Flatten(blocks + [b])) == Track(Track(PowerOn(v), Flatten(blocks)), b)
  {
    hide Flatten, Track;
    FlattenSnoc(blocks, b);
    RunConcat(PowerOn(v), Flatten(blocks), b);
  }

  lemma PacketsPrefix(v: Variant, blocks: seq<seq<s16>>, b: seq<s16>)
    ensures |Packets(v, blocks + [b])| == |blocks| + 1
    ensures Packets(v, blocks + [b]) == Packets(v, blocks) + [Packets(v, blocks + [b])[|blocks|]]
    ensures Packets(v, blocks + [b])[|blocks|] == Packet(v, Track(PowerOn(v), Flatten(blocks)), |blocks| % 0x1_0000, b)
  {
    hide Packet, Track;
    StreamPrefix(v, PowerOn(v), blocks + [b], |blocks|);
    assert (blocks + [b])[..|blocks|] == blocks;
  }

  lemma PacketsFit(v: Variant, blocks: seq<seq<s16>>)
    requires WholeBlocks(v, blocks)
    ensures forall k :: 0 <= k < |blocks| ==> |Packets(v, blocks)[k]| <= SlotSize(v)
  {
    hide Header, Pack, Track, Codes;
  }

  /** A block makes a packet of the size the radio expects, which fills its slot but for two
      bytes in the Google 0.4 format. */
  lemma PacketFillsSlot(v: Variant, p: Predictor, serial: nat, block: seq<s16>)
    requires serial < 0x1_0000 && |block| == UnitSize(v)
    ensures v == Telink ==> |Packet(v, p, serial, block)| == SlotSize(v) == 128
    ensures v == Google04 ==> |Packet(v, p, serial, block)| == SlotSize(v) - 2 == 134
    ensures v == Google10 || v == Hid ==> |Packet(v, p, serial, block)| == SlotSize(v) == 120
  {
    hide Header, Payload, Codes;
  }

  /** The ring after a block has been encoded into the next slot. */
  lemma RingAfterEncode(v: Variant, num: nat, buf: seq<u8>, buf': seq<u8>, blocks: seq<seq<s16>>, r: nat, b: seq<s16>)
    requires 0 < num && |buf| == num * SlotSize(v) && |b| == UnitSize(v) && WholeBlocks(v, blocks)
    requires Holds(buf, num, SlotSize(v), Packets(v, blocks), r) && |blocks| < r + num
    requires var at, packet := Offset(|blocks|, num, SlotSize(v)),
        Packet(v, Track(PowerOn(v), Flatten(blocks)), |blocks| % 0x1_0000, b);
      at + |packet| <= |buf| && buf' == buf[..at] + packet + buf[at + |packet|..]
    ensures Holds(buf', num, SlotSize(v), Packets(v, blocks + [b]), r)
  {
    hide Holds, Offset, Header, Pack, Track, Flatten, Packets, StandsAt, SameOutside, Packet;
    PacketsPrefix(v, blocks, b);
    Spliced(buf, Offset(|blocks|, num, SlotSize(v)), Packets(v, blocks + [b])[|blocks|], SlotSize(v));
    PacketsFit(v, blocks);
    HoldsAfterStore(buf, buf', num, SlotSize(v), Packets(v, blocks), r, Packets(v, blocks + [b])[|blocks|]);
  }

  /** The masked difference of the counters shows an overwritten packet exactly when there
      are at least two slots. */
  lemma OverflowSeen(r: nat, num: nat)
    requires SlotCount(num)
    ensures (Low8(r + num + 1) - Low8(r)) % (2 * num) > num <==> 2 <= num
  {
    if 2 <= num {
      MaskedDistance(r + num + 1, r, 2 * num);
    }
  }

  class MicEncoder {
    const variant: Variant
    const num: nat
    const encoder: Encoder
    const bufferMic: array<s16>
    const bufferMicEnc: array<u8>
    var micRptr: nat
    var pktWptr: nat
    var pktRptr: nat
    /** Every block encoded so far, and how many packets have left the ring. */
    ghost var blocks: seq<seq<s16>>
    ghost var removed: nat
    /** The packets that were read. */
    ghost var taken: seq<seq<u8>>

    ghost predicate Valid()
      reads this, encoder, bufferMicEnc
    {
      && Consistent(removed) && pktRptr == Low8(removed)
      && (variant == Hid ==> taken == Packets(variant, blocks)[..removed])
    }

    /** Everything but the read counter, with packets `r..` in the ring. */
    ghost predicate Consistent(r: nat)
      reads this, encoder, bufferMicEnc
    {
      && SlotCount(num) && (variant == Hid || 2 <= num) && bufferMicEnc.Length == num * SlotSize(variant)
      && bufferMic.Length == 2 * UnitSize(variant) && (micRptr == 0 || micRptr == UnitSize(variant))
      && encoder.Valid() && encoder.variant == variant
      && encoder.State() == Track(PowerOn(variant), Flatten(blocks))
      && (variant == Google04 ==> encoder.serial == |blocks| % 0x1_0000)
      && WholeBlocks(variant, blocks)
      && pktWptr == Low8(|blocks|) && r <= |blocks| <= r + num
      && Holds(bufferMicEnc[..], num, SlotSize(variant), Packets(variant, blocks), r)
    }

    /** The packets waiting to be read, oldest first. */
    ghost function Waiting(): seq<seq<u8>>
      requires removed <= |blocks|
      reads this
    {
      Packets(variant, blocks)[removed..]
    }

    constructor (v: Variant, num: nat, mic: array<s16>, enc: array<u8>)
      requires SlotCount(num) && (v == Hid || 2 <= num) && mic.Length == 2 * UnitSize(v) && enc.Length == num * SlotSize(v)
      ensures Valid() && fresh(encoder) && blocks == [] && Waiting() == [] && micRptr == 0
      ensures variant == v && this.num == num && bufferMic == mic && bufferMicEnc == enc
    {
      variant, this.num, bufferMic, bufferMicEnc := v, num, mic, enc;
      encoder := new Encoder(v);
      micRptr, pktWptr, pktRptr := 0, 0, 0;
      blocks, removed, taken := [], 0, [];
      new;
      EmptyRun(PowerOn(v));
    }

    /** Encodes the next half-buffer when it is complete. `micWptr` is where the microphone
        writes next. */
    method ProcMicEncoder(micWptr: nat) returns (encoded: bool)
      requires Valid()
      modifies this`micRptr, this`pktWptr, this`pktRptr, this`blocks, this`removed, encoder, bufferMicEnc
      ensures Valid()
      ensures encoded <==> HalfReady(micWptr, old(micRptr), UnitSize(variant)) && (variant == Hid ==> |old(Waiting())| < num)
      ensures !encoded ==> blocks == old(blocks) && micRptr == old(micRptr) && Waiting() == old(Waiting())
      ensures encoded ==> blocks == old(blocks) + [bufferMic[old(micRptr)..old(micRptr) + UnitSize(variant)]]
      ensures encoded ==> micRptr == UnitSize(variant) - old(micRptr)
      ensures encoded ==> Waiting() == Latest(old(Waiting()) + [Packets(variant, blocks)[|blocks| - 1]], num)
    {
      hide Low8, Holds, Offset, Packets, Track, Flatten, WholeBlocks, Latest;
      var l := if micWptr >= micRptr then micWptr - micRptr else 0xffff;
      MaskedDistance(|blocks|, removed, 2 * num);
      if l < UnitSize(variant) || (variant == Hid && Low8(pktWptr - pktRptr) % (2 * num) >= num) {
        return false;
      }
      EncodeAndDrop();
      return true;
    }

    method EncodeAndDrop()
      requires Valid() && (variant == Hid ==> |Waiting()| < num)
      modifies this`micRptr, this`pktWptr, this`pktRptr, this`blocks, this`removed, encoder, bufferMicEnc
      ensures Valid()
      ensures blocks == old(blocks) + [bufferMic[old(micRptr)..old(micRptr) + UnitSize(variant)]]
      ensures micRptr == UnitSize(variant) - old(micRptr)
      ensures Waiting() == Latest(old(Waiting()) + [Packets(variant, blocks)[|blocks| - 1]], num)
    {
      hide Low8, Holds, Offset, Packets, Track, Flatten, WholeBlocks, Latest;
      ghost var block := bufferMic[micRptr..micRptr + UnitSize(variant)];
      ghost var packet := Packets(variant, blocks + [block])[|blocks|];
      LatestAfter(Packets(variant, blocks), packet, removed, num);
      PacketsPrefix(variant, blocks, block);
      EncodeNext();
      if variant != Hid {
        DropOverwritten();
      }
    }

    /** Lets the read counter skip the packet that has just been overwritten, if one has. */
    method DropOverwritten()
      requires Consistent(if |blocks| > removed + num then removed + 1 else removed)
      requires variant != Hid && 2 <= num && removed <= |blocks| <= removed + num + 1 && pktRptr == Low8(removed)
      modifies this`pktRptr, this`removed
      ensures Valid() && removed == if |blocks| > old(removed) + num then old(removed) + 1 else old(removed)
    {
      hide Low8, Holds, Offset, Packets, Track, Flatten, WholeBlocks;
      MaskedDistance(|blocks|, removed, 2 * num);
      if (pktWptr - pktRptr) % (2 * num) > num {
        Increment(removed);
        pktRptr := Low8(pktRptr + 1);
        removed := removed + 1;
      }
    }

    /** Encodes one half-buffer into the next slot. The ring may hold one packet too many
        afterwards, its oldest one overwritten. */
    method EncodeNext()
      requires Valid()
      modifies this`micRptr, this`pktWptr, this`blocks, encoder, bufferMicEnc
      ensures blocks == old(blocks) + [bufferMic[old(micRptr)..old(micRptr) + UnitSize(variant)]]
      ensures micRptr == UnitSize(variant) - old(micRptr)
      ensures Consistent(if old(|blocks|) == removed + num then removed + 1 else removed)
    {
      hide Low8, Holds, Offset, Packets, Packet, Payload, Codes, Track, WholeBlocks, SameOutside, StandsAt, Flatten, SerialAfter;
      var ps := bufferMic[micRptr..micRptr + UnitSize(variant)];
      ghost var before, r, p := bufferMicEnc[..], removed, encoder.State();
      if |blocks| == removed + num {
        HoldsAfterDrop(before, num, SlotSize(variant), Packets(variant, blocks), removed);
        r := removed + 1;
      }
      WrappedOffset(|blocks|, num, SlotSize(variant));
      SerialIrrelevant(variant, p, encoder.serial, |blocks| % 0x1_0000, ps);
      NextSerial(variant, encoder.serial, |blocks|);
      encoder.MicToAdpcmSplit(ps, bufferMicEnc, Offset(pktWptr, num, SlotSize(variant)), true);
      RingAfterEncode(variant, num, before, bufferMicEnc[..], blocks, r, ps);
      OneMoreBlock(variant, blocks, ps);
      micRptr := if micRptr != 0 then 0 else UnitSize(variant);
      Increment(|blocks|);
      pktWptr := Low8(pktWptr + 1);
      blocks := blocks + [ps];
    }

    /** The oldest packet's place; none when the ring is empty. */
    method DataBuffer() returns (r: Option<nat>)
      requires Valid()
      ensures r.Some? <==> Waiting() != []
      ensures r.Some? ==> StandsAt(bufferMicEnc[..], r.value, Waiting()[0])
    {
      hide Low8, Offset;
      Distance(|blocks|, removed);
      if pktRptr == pktWptr {
        return None;
      }
      WrappedOffset(removed, num, SlotSize(variant));
      return Some(Offset(pktRptr, num, SlotSize(variant)));
    }

    /** Releases the packet last handed out. On an empty ring the read counter passes the
        write counter, and a packet that has never been encoded is handed out next. */
    method DataReadOk()
      requires Valid()
      modifies this`pktRptr, this`removed, this`taken
      ensures old(Waiting()) != [] ==>
        Valid() && Waiting() == old(Waiting())[1..] && taken == old(taken) + [old(Waiting())[0]] && removed == old(removed) + 1
      ensures old(Waiting()) == [] ==> pktRptr == Low8(pktWptr + 1) != pktWptr
    {
      hide Low8, Holds, Offset, Packets, Track, Flatten, WholeBlocks;
      if removed < |blocks| {
        HoldsAfterDrop(bufferMicEnc[..], num, SlotSize(variant), Packets(variant, blocks), removed);
        Increment(removed);
        taken := taken + [Packets(variant, blocks)[removed]];
        removed := removed + 1;
      } else {
        Overtaken(pktWptr);
      }
      pktRptr := Low8(pktRptr + 1);
    }

    /** The HID remote and its dongle: however encoding and reading were interleaved, the
        packets read so far, decoded from power-on, give the encoder's predictions for the
        blocks they came from, and none of them is missing or comes twice. */
    lemma HidEndToEnd()
      requires Valid() && variant == Hid
      ensures |taken| == removed <= |blocks|
      ensures Decodable(Hid, taken, Lengths(blocks[..removed]))
      ensures DecodeStream(Hid, PowerOn(Hid), taken, Lengths(blocks[..removed]))
           == (Trajectory(PowerOn(Hid), Flatten(blocks[..removed])), Track(PowerOn(Hid), Flatten(blocks[..removed])))
    {
      hide Holds, Low8, Flatten, EncodeStream, DecodeStream, Track, Trajectory;
      FirstPackets(blocks, removed);
    }
  }

  lemma Overtaken(w: nat)
    requires w < 256
    ensures Low8(w + 1) != w
  {
  }

  /** The first packets of a stream are those of its first blocks. */
  lemma FirstPackets(blocks: seq<seq<s16>>, n: nat)
    requires WholeBlocks(Hid, blocks) && n <= |blocks|
    ensures Decodable(Hid, Packets(Hid, blocks)[..n], Lengths(blocks[..n]))
    ensures DecodeStream(Hid, PowerOn(Hid), Packets(Hid, blocks)[..n], Lengths(blocks[..n]))
         == (Trajectory(PowerOn(Hid), Flatten(blocks[..n])), Track(PowerOn(Hid), Flatten(blocks[..n])))
  {
    StreamPrefix(Hid, PowerOn(Hid), blocks, n);
    StreamLockStep(Hid, PowerOn(Hid), blocks[..n]);
  }
}
