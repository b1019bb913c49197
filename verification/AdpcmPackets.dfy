/** Packets of the ADPCM codec: `mic_to_adpcm_split` and `adpcm_to_pcm` in their firmware
    variants. The variants are alternatives of one `#if`; here they are values of `Variant`,
    which decide the header and the order of the two codes in a byte. Words are stored low
    byte first. */
module AdpcmPackets {
  import opened Types
  import opened Adpcm

  datatype Variant = Telink | Google04 | Google10 | Hid

  predicate HighFirst(v: Variant) { v != Telink }

  function HeaderLength(v: Variant): nat {
    match v case Telink => 4 case Google04 => 6 case _ => 0
  }

  /** A 16-bit word holding a signed sample, and back. */
  function Word(x: s16): (w: nat)
    ensures w < 0x1_0000
  {
    x % 0x1_0000
  }

  function Signed(w: nat): s16
    requires w < 0x1_0000
  {
    if w < 0x8000 then w else w - 0x1_0000
  }

  const TELINK_DATA_LENGTH: u8 := 124

  function Header(v: Variant, p: Predictor, serial: nat): (h: seq<u8>)
    requires serial < 0x1_0000
    ensures |h| == HeaderLength(v)
  {
    var w := Word(p.predict);
    match v
    case Telink => [w % 256, w / 256, p.index, TELINK_DATA_LENGTH]
    case Google04 => [serial / 256, serial % 256, 0, w / 256, w % 256, p.index]
    case _ => []
  }

  /** The state a decoder takes from a header; none when the index byte is not a table index. */
  predicate HeaderOk(v: Variant, h: seq<u8>) {
    && |h| >= HeaderLength(v)
    && (v == Telink ==> h[2] <= 88)
    && (v == Google04 ==> h[5] <= 88)
  }

  function HeaderState(v: Variant, h: seq<u8>): Predictor
    requires HeaderOk(v, h) && HeaderLength(v) > 0
  {
    if v == Telink then Predictor(Signed(h[0] + 256 * h[1] as int), h[2])
    else Predictor(Signed(h[4] + 256 * h[3] as int), h[5])
  }

  lemma HeaderRoundTrip(v: Variant, p: Predictor, serial: nat, payload: seq<u8>)
    requires serial < 0x1_0000 && HeaderLength(v) > 0
    ensures HeaderOk(v, Header(v, p, serial) + payload)
    ensures HeaderState(v, Header(v, p, serial) + payload) == p
  {
  }

  /** `w` is the 16-bit two's complement of `x`. */
  predicate TwosComplement(x: s16, w: int) {
    0 <= w < 0x1_0000 && (w == x || w == x + 0x1_0000)
  }

  /** The bytes a receiver finds. Telink: the prediction, low byte first, the index, and the
      number of payload bytes of a whole block of 248 samples. Google 0.4: the serial number, a
      zero id, the prediction, number and prediction high byte first, and the index. */
  lemma HeaderBytes(p: Predictor, serial: nat, block: seq<s16>)
    requires serial < 0x1_0000 && |block| == 248
    ensures var h := Header(Telink, p, serial);
      && |h| == 4 && TwosComplement(p.predict, h[0] + 256 * h[1] as int)
      && h[2] == p.index && h[3] == |Packet(Telink, p, serial, block)| - 4
    ensures var h := Header(Google04, p, serial);
      && |h| == 6 && 256 * h[0] + h[1] as int == serial && h[2] == 0
      && TwosComplement(p.predict, 256 * h[3] + h[4] as int) && h[5] == p.index
    ensures Header(Google10, p, serial) == Header(Hid, p, serial) == []
  {
    hide Payload, Codes;
  }

  // ------------------------------------------------------------------ packing

  function PackByte(v: Variant, first: Nibble, second: Nibble): u8 {
    if HighFirst(v) then 16 * first + second else first + 16 * second
  }

  function Pack(v: Variant, codes: seq<Nibble>): (bytes: seq<u8>)
    ensures |bytes| == |codes| / 2
  {
    seq(|codes| / 2, k requires 0 <= k < |codes| / 2 => PackByte(v, codes[2 * k], codes[2 * k + 1]))
  }

  function CodeAt(v: Variant, bytes: seq<u8>, i: nat): Nibble
    requires i / 2 < |bytes|
  {
    if (i % 2 == 0) == HighFirst(v) then bytes[i / 2] / 16 else bytes[i / 2] % 16
  }

  /** The first `len` codes in a run of bytes. */
  function Unpack(v: Variant, bytes: seq<u8>, len: nat): (codes: seq<Nibble>)
    requires len <= 2 * |bytes|
    ensures |codes| == len
  {
    seq(len, i requires 0 <= i < len => CodeAt(v, bytes, i))
  }

  lemma UnpackPack(v: Variant, codes: seq<Nibble>, rest: seq<u8>)
    requires |codes| % 2 == 0
    ensures Unpack(v, Pack(v, codes) + rest, |codes|) == codes
  {
    hide PackByte;
    forall i | 0 <= i < |codes|
      ensures CodeAt(v, Pack(v, codes) + rest, i) == codes[i]
    {
      CodesOfByte(v, codes[2 * (i / 2)], codes[2 * (i / 2) + 1]);
      assert (Pack(v, codes) + rest)[i / 2] == PackByte(v, codes[2 * (i / 2)], codes[2 * (i / 2) + 1]);
    }
  }

  /** The bytes a receiver finds: two codes in each, the first of them in the low half for
      Telink and in the high half otherwise; four codes make two bytes, fewer make none. */
  lemma PayloadBytes(v: Variant, codes: seq<Nibble>, k: nat)
    requires k < |codes| / 4 * 2
    ensures 2 * k + 1 < |codes|
    ensures v == Telink ==> Payload(v, codes)[k] == codes[2 * k] + 16 * codes[2 * k + 1] as int
    ensures v != Telink ==> Payload(v, codes)[k] == 16 * codes[2 * k] as int + codes[2 * k + 1]
  {
    assert codes[..|codes| / 4 * 4][2 * k] == codes[2 * k];
  }

  lemma CodesOfByte(v: Variant, first: Nibble, second: Nibble)
    ensures var b := PackByte(v, first, second);
      && first == (if HighFirst(v) then b / 16 else b % 16)
      && second == (if HighFirst(v) then b % 16 else b / 16)
  {
  }

  /** The bytes stored for some codes: a word for every four of them. Codes past the last
      full word are not stored. */
  function Payload(v: Variant, codes: seq<Nibble>): (bytes: seq<u8>)
    ensures |bytes| == |codes| / 4 * 2
  {
    Pack(v, codes[..|codes| / 4 * 4])
  }

  /** The whole packet for a block. */
  function Packet(v: Variant, p: Predictor, serial: nat, xs: seq<s16>): (bytes: seq<u8>)
    requires serial < 0x1_0000
    ensures |bytes| == HeaderLength(v) + |xs| / 4 * 2
  {
    Header(v, p, serial) + Payload(v, Codes(p, xs))
  }

  /** The state a decoder works from: its own for the variants without a header. */
  function StartState(v: Variant, own: Predictor, ps: seq<u8>): Predictor
    requires HeaderOk(v, ps)
  {
    if HeaderLength(v) > 0 then HeaderState(v, ps) else own
  }

  /** What decoding `len` samples from the bytes at `ps` puts out, and the end state. */
  function DecodePacket(v: Variant, own: Predictor, ps: seq<u8>, len: nat): (seq<s16>, Predictor)
    requires HeaderOk(v, ps) && len <= 2 * (|ps| - HeaderLength(v))
  {
    var p := StartState(v, own, ps);
    var codes := Unpack(v, ps[HeaderLength(v)..], len);
    (Pcm(p, codes), Final(p, codes))
  }

  /** A packet decoded on its own, whatever bytes follow it in memory: with a header, from
      any decoder state; without one, from the encoder's. The decoder's end state is the
      one the encoder carries into the next packet's header. */
  lemma PacketLockStep(v: Variant, p: Predictor, serial: nat, xs: seq<s16>, own: Predictor, rest: seq<u8>)
    requires serial < 0x1_0000 && |xs| % 4 == 0
    requires HeaderLength(v) == 0 ==> own == p
    ensures HeaderOk(v, Packet(v, p, serial, xs) + rest)
    ensures DecodePacket(v, own, Packet(v, p, serial, xs) + rest, |xs|) == (Trajectory(p, xs), Track(p, xs))
  {
    hide Header, HeaderState, HeaderOk, Unpack, Pack, Codes;
    var codes := Codes(p, xs);
    var packet := Packet(v, p, serial, xs);
    assert codes[..|xs| / 4 * 4] == codes;
    if HeaderLength(v) > 0 {
      HeaderRoundTrip(v, p, serial, Pack(v, codes) + rest);
      assert packet + rest == Header(v, p, serial) + (Pack(v, codes) + rest);
    } else {
      NoHeaderOk(v, packet + rest);
    }
    assert (packet + rest)[HeaderLength(v)..] == Pack(v, codes) + rest;
    UnpackPack(v, codes, rest);
    LockStepRun(p, xs);
  }

  lemma NoHeaderOk(v: Variant, h: seq<u8>)
    requires HeaderLength(v) == 0
    ensures HeaderOk(v, h)
  {
  }

  // ------------------------------------------------------------ whole streams

  function Flatten<T>(blocks: seq<seq<T>>): seq<T> {
    if |blocks| == 0 then [] else Flatten(blocks[..|blocks| - 1]) + blocks[|blocks| - 1]
  }

  lemma FlattenSnoc<T>(blocks: seq<seq<T>>, b: seq<T>)
    ensures Flatten(blocks + [b]) == Flatten(blocks) + b
  {
    assert (blocks + [b])[..|blocks|] == blocks;
  }

  /** The encoder's state before block `k` of a stream. */
  function StateBefore(p: Predictor, blocks: seq<seq<s16>>, k: nat): Predictor
    requires k <= |blocks|
  {
    Track(p, Flatten(blocks[..k]))
  }

  function EncodeStream(v: Variant, p: Predictor, blocks: seq<seq<s16>>): (packets: seq<seq<u8>>)
    ensures |packets| == |blocks|
  {
    seq(|blocks|, k requires 0 <= k < |blocks| =>
      Packet(v, StateBefore(p, blocks, k), k % 0x1_0000, blocks[k]))
  }

  predicate WholeWords(blocks: seq<seq<s16>>) {
    forall k :: 0 <= k < |blocks| ==> |blocks[k]| % 4 == 0
  }

  predicate Decodable(v: Variant, packets: seq<seq<u8>>, lens: seq<nat>) {
    && |packets| == |lens|
    && forall k :: 0 <= k < |packets| ==>
         HeaderOk(v, packets[k]) && lens[k] <= 2 * (|packets[k]| - HeaderLength(v))
  }

  /** Decoding packets one after the other with one decoder. */
  function DecodeStream(v: Variant, own: Predictor, packets: seq<seq<u8>>, lens: seq<nat>): (seq<s16>, Predictor)
    requires Decodable(v, packets, lens)
  {
    if |packets| == 0 then ([], own)
    else
      var n := |packets| - 1;
      var (ys, q) := DecodeStream(v, own, packets[..n], lens[..n]);
      var (zs, r) := DecodePacket(v, q, packets[n], lens[n]);
      (ys + zs, r)
  }

  function Lengths(blocks: seq<seq<s16>>): (lens: seq<nat>)
    ensures |lens| == |blocks|
  {
    seq(|blocks|, k requires 0 <= k < |blocks| => |blocks[k]|)
  }

  lemma StreamDecodable(v: Variant, p: Predictor, blocks: seq<seq<s16>>)
    requires WholeWords(blocks)
    ensures Decodable(v, EncodeStream(v, p, blocks), Lengths(blocks))
  {
    hide Header, HeaderOk, Track;
    forall k | 0 <= k < |blocks|
      ensures HeaderOk(v, EncodeStream(v, p, blocks)[k])
    {
      var q := StateBefore(p, blocks, k);
      PacketLockStep(v, q, k % 0x1_0000, blocks[k], q, []);
      assert Packet(v, q, k % 0x1_0000, blocks[k]) + [] == EncodeStream(v, p, blocks)[k];
    }
  }

  /** Whole-stream lock-step: for any blocks of whole words, decoding the packets from the
      encoder's starting state puts out the encoder's predictions sample for sample and
      ends in the encoder's state. */
  lemma {:induction false} StreamLockStep(v: Variant, p: Predictor, blocks: seq<seq<s16>>)
    requires WholeWords(blocks)
    ensures Decodable(v, EncodeStream(v, p, blocks), Lengths(blocks))
    ensures DecodeStream(v, p, EncodeStream(v, p, blocks), Lengths(blocks))
         == (Trajectory(p, Flatten(blocks)), Track(p, Flatten(blocks)))
  {
    hide Header, HeaderOk, Track, Trajectory, Packet, DecodePacket, StateBefore;
    StreamDecodable(v, p, blocks);
    if |blocks| == 0 {
      EmptyRun(p);
    } else {
      var n := |blocks| - 1;
      var packets, lens := EncodeStream(v, p, blocks), Lengths(blocks);
      StreamLockStep(v, p, blocks[..n]);
      StreamPrefix(v, p, blocks, n);
      var q := StateBefore(p, blocks, n);
      PacketLockStep(v, q, n % 0x1_0000, blocks[n], q, []);
      assert packets[n] + [] == packets[n];
      assert q == Track(p, Flatten(blocks[..n])) by { StateBeforeIs(p, blocks, n); }
      RunConcat(p, Flatten(blocks[..n]), blocks[n]);
    }
  }

  lemma EmptyRun(p: Predictor)
    ensures Track(p, []) == p && Trajectory(p, []) == []
  {
  }

  lemma StateBeforeIs(p: Predictor, blocks: seq<seq<s16>>, k: nat)
    requires k <= |blocks|
    ensures StateBefore(p, blocks, k) == Track(p, Flatten(blocks[..k]))
  {
  }

  lemma StreamPrefix(v: Variant, p: Predictor, blocks: seq<seq<s16>>, n: nat)
    requires n <= |blocks|
    ensures EncodeStream(v, p, blocks[..n]) == EncodeStream(v, p, blocks)[..n]
    ensures Lengths(blocks[..n]) == Lengths(blocks)[..n]
  {
    hide Packet, Track;
    forall k | 0 <= k < n
      ensures EncodeStream(v, p, blocks[..n])[k] == EncodeStream(v, p, blocks)[k]
    {
      assert blocks[..n][..k] == blocks[..k];
    }
  }

  /** Loss resilience of the variants with a header: packet `k` of a stream, decoded alone by
      a decoder in any state, gives exactly its slice of the encoder's predictions. */
  lemma AnyPacketAlone(v: Variant, p: Predictor, blocks: seq<seq<s16>>, k: nat, own: Predictor)
    requires WholeWords(blocks) && k < |blocks| && HeaderLength(v) > 0
    ensures Decodable(v, EncodeStream(v, p, blocks), Lengths(blocks))
    ensures var start := |Flatten(blocks[..k])|;
      && start + |blocks[k]| <= |Flatten(blocks)|
      && DecodePacket(v, own, EncodeStream(v, p, blocks)[k], |blocks[k]|).0
           == Trajectory(p, Flatten(blocks))[start..start + |blocks[k]|]
      && DecodePacket(v, own, EncodeStream(v, p, blocks)[k], |blocks[k]|).1
           == StateBefore(p, blocks, k + 1)
  {
    hide Header, HeaderOk, Track, Trajectory, Packet, DecodePacket;
    StreamDecodable(v, p, blocks);
    var q := StateBefore(p, blocks, k);
    PacketLockStep(v, q, k % 0x1_0000, blocks[k], own, []);
    assert EncodeStream(v, p, blocks)[k] + [] == EncodeStream(v, p, blocks)[k];
    var a, b := Flatten(blocks[..k]), blocks[k];
    assert blocks[..k + 1][..k] == blocks[..k];
    assert Flatten(blocks[..k + 1]) == a + b;
    RunConcat(p, a, b);
    var tail := FlattenPrefix(blocks, k + 1);
    RunConcat(p, a + b, tail);
  }

  lemma {:induction false} FlattenPrefix<T>(blocks: seq<seq<T>>, k: nat) returns (tail: seq<T>)
    requires k <= |blocks|
    ensures Flatten(blocks) == Flatten(blocks[..k]) + tail
    decreases |blocks| - k
  {
    if k == |blocks| {
      assert blocks[..k] == blocks;
      tail := [];
    } else {
      var rest := FlattenPrefix(blocks, k + 1);
      assert blocks[..k + 1][..k] == blocks[..k];
      tail := blocks[k] + rest;
    }
  }

  const GOOGLE10_ENCODER_START := Predictor(0, 1)
  const GOOGLE10_DECODER_START := Predictor(0, 0)

  /** The Google 1.0 encoder powers on at index 1 and its decoder at index 0. The first sample
      after power-on therefore comes out wrong, whatever it is: the first block is right only if
      it is empty. The pair may come into step later (`AdpcmRecovery`). */
  lemma Google10PowerOnMismatch(xs: seq<s16>, packet: seq<u8>)
    requires |xs| % 4 == 0
    requires packet == Packet(Google10, GOOGLE10_ENCODER_START, 0, xs)
    ensures HeaderOk(Google10, packet)
    ensures var ys := DecodePacket(Google10, GOOGLE10_DECODER_START, packet, |xs|).0;
      && |ys| == |xs| == |Trajectory(GOOGLE10_ENCODER_START, xs)|
      && (xs != [] ==> ys[0] != Trajectory(GOOGLE10_ENCODER_START, xs)[0])
      && (ys == Trajectory(GOOGLE10_ENCODER_START, xs) <==> xs == [])
  {
    hide EncodeSample, DecodeSample, Codes, Trajectory, Pcm, Final, Unpack, Pack;
    var codes := Codes(GOOGLE10_ENCODER_START, xs);
    assert codes[..|xs| / 4 * 4] == codes && packet[0..] == packet;
    UnpackPack(Google10, codes, []);
    assert Pack(Google10, codes) + [] == packet;
    if xs != [] {
      FirstSample(GOOGLE10_ENCODER_START, xs);
      FirstCode(GOOGLE10_DECODER_START, codes);
      MismatchedSample(xs[0]);
    }
  }

  lemma MismatchedSample(x: s16)
    ensures var (code, p) := EncodeSample(GOOGLE10_ENCODER_START, x);
      DecodeSample(GOOGLE10_DECODER_START, code).predict != p.predict
  {
    hide EncodeAt, DecodeAt, StepSize, NextIndex;
    LockStepAt(0, 8, x);
    StartSteps();
    DecodedApart(EncodeAt(0, 8, x).0);
  }

  lemma StartSteps()
    ensures GOOGLE10_ENCODER_START.Step() == 8 && GOOGLE10_DECODER_START.Step() == 7
  {
  }

  /** A code stands for more at step size 8 than at 7. */
  lemma DecodedApart(code: Nibble)
    ensures DecodeAt(0, 7, code) != DecodeAt(0, 8, code)
  {
    hide Bit;
    assert Delta(7, code) < Delta(8, code) <= 15;
  }

  lemma {:induction false} FirstSample(p: Predictor, xs: seq<s16>)
    requires |xs| > 0
    ensures Codes(p, xs)[0] == EncodeSample(p, xs[0]).0
    ensures Trajectory(p, xs)[0] == EncodeSample(p, xs[0]).1.predict
  {
    hide EncodeSample;
    assert xs == xs[..1] + xs[1..];
    if |xs| > 1 {
      FirstSample(p, xs[..|xs| - 1]);
    } else {
      assert xs[..0] == [];
    }
  }

  lemma {:induction false} FirstCode(p: Predictor, codes: seq<Nibble>)
    requires |codes| > 0
    ensures Pcm(p, codes)[0] == DecodeSample(p, codes[0]).predict
  {
    hide DecodeSample;
    if |codes| > 1 {
      FirstCode(p, codes[..|codes| - 1]);
    } else {
      assert codes[..0] == [] && Final(p, codes[..0]) == p && Pcm(p, codes[..0]) == [];
    }
  }
}
