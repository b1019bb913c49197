/** The codec as the firmware runs it: an encoder and a decoder object whose fields carry
    from call to call, sample loops, and output stored through a buffer. */
module AdpcmDevice {
  import opened Arith
  import opened Types
  import opened Adpcm
  import opened AdpcmPackets

  class Encoder {
    const variant: Variant
    var predict: int
    var predictIdx: int
    var serial: nat
    /** Where the next word goes. */
    var pd: nat

    predicate Valid()
      reads this
    {
      -32768 <= predict <= 32767 && 0 <= predictIdx <= 88 && serial < 0x1_0000
    }

    function State(): Predictor
      requires Valid()
      reads this
    {
      Predictor(predict, predictIdx)
    }

    constructor (v: Variant)
      ensures Valid() && variant == v && serial == 0
      ensures State() == if v == Google10 || v == Google04 then Predictor(0, 1) else Predictor(0, 0)
    {
      variant, predict, serial, pd := v, 0, 0, 0;
      predictIdx := if v == Google10 || v == Google04 then 1 else 0;
    }

    /** The body of the sample loop: code one sample and move the predictor. */
    method EncodeOne(di: s16) returns (code: Nibble)
      requires Valid()
      modifies this`predict, this`predictIdx
      ensures Valid()
      ensures (code, State()) == EncodeSample(old(State()), di)
    {
      hide StepSize, Quantise, Delta, Bit;
      var diff := di - predict;
      var sign := 0;
      if diff < 0 {
        diff, sign := -diff, 8;
      }
      QuantiserDelta(diff, StepSize(predictIdx));
      var c, diffq := QuantiserLoop(diff, StepSize(predictIdx));
      code := sign + c;
      predict := ClampSample(if code >= 8 then predict - diffq else predict + diffq);
      predictIdx := ClampIndex(predictIdx + IndexStep(code));
    }

    /** The header of a packet, stored word by word at `off`. */
    method PutHeader(pds: array<u8>, off: nat) returns (pos: nat)
      requires Valid() && off + HeaderLength(variant) <= pds.Length
      modifies pds
      ensures pos == off + HeaderLength(variant)
      ensures pds[..] == Splice(old(pds[..]), off, Header(variant, State(), serial))
    {
      hide Splice;
      ghost var before := pds[..];
      var w := Word(predict);
      pos := off;
      SpliceNothing(before, off);
      match variant {
        case Telink =>
          BytesOfWord(predictIdx, TELINK_DATA_LENGTH);
          PutWord(pds, pos, w, before, off, []);
          ghost var first: seq<u8> := [w % 256, w / 256];
          assert [] + first == first;
          PutWord(pds, pos + 2, predictIdx + TELINK_DATA_LENGTH as int * 256, before, off, first);
          pos := pos + 4;
          assert Header(variant, State(), serial) == first + [predictIdx, TELINK_DATA_LENGTH];
        case Google04 =>
          ghost var id: seq<u8> := [serial / 256, serial % 256];
          BytesOfWord(serial / 256, serial % 256);
          BytesOfWord(0, w / 256);
          BytesOfWord(w % 256, predictIdx);
          PutWord(pds, pos, serial / 256 + serial % 256 * 256, before, off, []);
          assert [] + id == id;
          ghost var first: seq<u8> := id + [0, w / 256];
          PutWord(pds, pos + 2, w / 256 * 256, before, off, id);
          PutWord(pds, pos + 4, w % 256 + predictIdx * 256, before, off, first);
          pos := pos + 6;
          assert Header(variant, State(), serial) == first + [w % 256, predictIdx];
        case _ =>
      }
    }

    /** A call begins a packet, or goes on with the one begun before, which the HID variant
        never does. The header and the packed codes of one block, stored at `off`; or, when the packet has
        been begun before, the packed codes behind it. */
    method MicToAdpcmSplit(ps: seq<s16>, pds: array<u8>, off: nat, start: bool)
      requires Valid()
      requires (if start || variant == Hid then off + HeaderLength(variant) else pd) + |ps| / 4 * 2 <= pds.Length
      modifies this, pds
      ensures Valid() && State() == Track(old(State()), ps)
      ensures start || variant == Hid ==> var packet := Packet(variant, old(State()), old(serial), ps);
        pds[..] == Splice(old(pds[..]), off, packet) && pd == off + |packet|
      ensures !start && variant != Hid ==> var payload := Payload(variant, Codes(old(State()), ps));
        pds[..] == Splice(old(pds[..]), old(pd), payload) && pd == old(pd) + |payload|
      ensures serial == SerialAfter(variant, old(serial))
    {
      hide Header, Payload, Codes, Track, Splice;
      ghost var before, header, payload := pds[..], Header(variant, State(), serial), Payload(variant, Codes(State(), ps));
      if start || variant == Hid {
        pd := PutHeader(pds, off);
        SpliceSplice(before, off, header, payload);
      }
      serial := SerialAfter(variant, serial);
      pd := EncodeRun(ps, pds, pd);
    }

    /** The sample loop. */
    method EncodeRun(ps: seq<s16>, pds: array<u8>, start: nat) returns (pos: nat)
      requires Valid() && start + |ps| / 4 * 2 <= pds.Length
      modifies this`predict, this`predictIdx, pds
      ensures Valid() && State() == Track(old(State()), ps)
      ensures pos == start + |ps| / 4 * 2
      ensures pds[..] == Splice(old(pds[..]), start, Payload(variant, Codes(old(State()), ps)))
    {
      hide EncodeSample, Payload, Shifted, Codes, WordOf, Track, SwapNibbles, Splice;
      ghost var p0, before := State(), pds[..];
      pos := start;
      var code16 := 0;
      EmptyCodes(variant, p0, ps);
      SpliceNothing(before, start);
      var i := 0;
      while i < |ps|
        invariant i <= |ps| && Valid()
        invariant State() == Track(p0, ps[..i])
        invariant 0 <= code16 < 0x1_0000 && Shifted(code16, Codes(p0, ps[..i]))
        invariant pos == start + i / 4 * 2
        invariant pds[..] == Splice(before, start, Payload(variant, Codes(p0, ps[..i])))
      {
        ghost var codes := Codes(p0, ps[..i]);
        TrackStep(p0, ps, i);
        var code := EncodeOne(ps[i]);
        CodesStep(p0, ps, i);
        code16 := ShiftIn(code16, codes, code);
        if i % 4 == 3 {
          WordBytes(variant, codes, code, code16);
          PutWord(pds, pos, if variant != Telink then SwapNibbles(code16) else code16, before, start, Payload(variant, codes));
          pos := pos + 2;
        } else {
          NoWordYet(variant, codes, code);
        }
        i := i + 1;
      }
      assert ps[..|ps|] == ps;
    }
  }

  /** `buf` with `bytes` in the place of what stands from `at` on. */
  function Splice<T>(buf: seq<T>, at: nat, bytes: seq<T>): (buf': seq<T>)
    requires at + |bytes| <= |buf|
    ensures |buf'| == |buf|
  {
    buf[..at] + bytes + buf[at + |bytes|..]
  }

  lemma SpliceNothing<T>(buf: seq<T>, at: nat)
    requires at <= |buf|
    ensures Splice(buf, at, []) == buf
  {
  }

  lemma SpliceSplice<T>(buf: seq<T>, at: nat, a: seq<T>, b: seq<T>)
    requires at + |a| + |b| <= |buf|
    ensures Splice(Splice(buf, at, a), at + |a|, b) == Splice(buf, at, a + b)
  {
    var s := Splice(buf, at, a);
    assert s[..at + |a|] == buf[..at] + a;
    assert s[at + |a| + |b|..] == buf[at + |a| + |b|..];
  }

  /** A block may be encoded in two calls, if the first one takes whole words: together they
      store what one call would. */
  lemma SplitBlock(v: Variant, p: Predictor, a: seq<s16>, b: seq<s16>)
    requires |a| % 4 == 0
    ensures Payload(v, Codes(p, a + b)) == Payload(v, Codes(p, a)) + Payload(v, Codes(Track(p, a), b))
  {
    hide Codes, Track, Pack;
    CodesConcat(p, a, b);
    var ca, cb := Codes(p, a), Codes(Track(p, a), b);
    WholeWordsFirst(|a|, |b|);
    assert (ca + cb)[..|a| + |b| / 4 * 4] == ca + cb[..|b| / 4 * 4] && ca[..|a|] == ca;
    PackConcat(v, ca, cb[..|b| / 4 * 4]);
  }

  lemma WholeWordsFirst(m: nat, n: nat)
    requires m % 4 == 0
    ensures (m + n) / 4 * 4 == m + n / 4 * 4 && m / 4 * 4 == m && m % 2 == 0
  {
    var a, b := m / 4, n / 4;
    assert m == 4 * a && m == 2 * (2 * a) && n == 4 * b + n % 4;
    QuotientUnique(a + b, n % 4, (m + n) / 4, (m + n) % 4, 4);
  }

  lemma PackConcat(v: Variant, a: seq<Nibble>, b: seq<Nibble>)
    requires |a| % 2 == 0
    ensures Pack(v, a + b) == Pack(v, a) + Pack(v, b)
  {
    hide PackByte;
    var c, m := a + b, |a| / 2;
    assert |c| / 2 == m + |b| / 2;
    forall k | 0 <= k < |c| / 2
      ensures Pack(v, c)[k] == (Pack(v, a) + Pack(v, b))[k]
    {
      if k < m {
        assert c[2 * k] == a[2 * k] && c[2 * k + 1] == a[2 * k + 1];
      } else {
        assert c[2 * k] == b[2 * (k - m)] && c[2 * k + 1] == b[2 * (k - m) + 1];
      }
    }
  }

  lemma {:induction false} CodesConcat(p: Predictor, a: seq<s16>, b: seq<s16>)
    ensures Codes(p, a + b) == Codes(p, a) + Codes(Track(p, a), b)
  {
    hide EncodeSample;
    if |b| == 0 {
      assert a + b == a;
    } else {
      var n := |b| - 1;
      CodesConcat(p, a, b[..n]);
      RunConcat(p, a, b[..n]);
      assert (a + b)[..|a + b| - 1] == a + b[..n];
    }
  }

  function SerialAfter(v: Variant, serial: nat): nat {
    if v == Google10 || v == Google04 then (serial + 1) % 0x1_0000 else serial
  }

  lemma BytesOfWord(low: u8, high: u8)
    ensures (low + high as int * 256) % 256 == low && (low + high as int * 256) / 256 == high
  {
  }

  /** Stores a word behind the bytes stored from `off` on. */
  method PutWord(pds: array<u8>, pos: nat, word: nat, ghost buf: seq<u8>, ghost off: nat, ghost bytes: seq<u8>)
    requires pos + 2 <= pds.Length && word < 0x1_0000 && pos == off + |bytes| && |buf| == pds.Length
    requires pds[..] == Splice(buf, off, bytes)
    modifies pds
    ensures pds[..] == Splice<u8>(buf, off, bytes + [word % 256, word / 256])
  {
    hide Splice;
    pds[pos], pds[pos + 1] := word % 256, word / 256;
    TwoBytes(Splice(buf, off, bytes), pds[..], pos, word % 256, word / 256);
    SpliceSplice<u8>(buf, off, bytes, [word % 256, word / 256]);
  }

  lemma TwoBytes(buf: seq<u8>, buf': seq<u8>, pos: nat, low: u8, high: u8)
    requires pos + 2 <= |buf| && buf' == buf[pos := low][pos + 1 := high]
    ensures buf' == Splice<u8>(buf, pos, [low, high])
  {
  }

  /** The quantiser loop: three tests against a step that is halved after each. */
  method QuantiserLoop(absDiff: nat, fullStep: nat) returns (code: nat, diffq: nat)
    ensures var q := Quantise(absDiff, fullStep); code == q.code && diffq == q.diffq
  {
    var diff, step: nat := absDiff, fullStep;
    code, diffq := 0, step / 8;
    ghost var q0 := Quantiser(diff, step, diffq, 0);
    var j := 4;
    while j > 0
      invariant j == 4 || j == 2 || j == 1 || j == 0
      invariant Quantiser(diff, step, diffq, code) == Stages(q0, j)
    {
      if diff >= step {
        diff, diffq, code := diff - step, diffq + step, code + j;
      }
      step, j := step / 2, j / 2;
    }
  }

  /** The quantiser after the stages down to weight `j` have run. */
  ghost function Stages(q: Quantiser, j: nat): Quantiser {
    if j == 4 then q
    else if j == 2 then Stage(q, 4)
    else if j == 1 then Stage(Stage(q, 4), 2)
    else Stage(Stage(Stage(q, 4), 2), 1)
  }

  lemma EmptyCodes(v: Variant, p: Predictor, xs: seq<s16>)
    ensures Payload(v, Codes(p, xs[..0])) == [] && Track(p, xs[..0]) == p && Shifted(0, Codes(p, xs[..0]))
  {
  }

  lemma CodesStep(p: Predictor, xs: seq<s16>, i: nat)
    requires i < |xs|
    ensures Codes(p, xs[..i + 1]) == Codes(p, xs[..i]) + [EncodeSample(Track(p, xs[..i]), xs[i]).0]
  {
    assert xs[..i + 1][..i] == xs[..i];
  }

  /** The shift register of the packer: the codes since the last stored word fill it from
      the top, the latest one uppermost. */
  predicate Shifted(code16: nat, codes: seq<Nibble>) {
    var n := |codes|;
    match n % 4
    case 0 => true
    case 1 => code16 / 4096 == codes[n - 1]
    case 2 => code16 / 256 == codes[n - 2] + 16 * codes[n - 1] as int
    case _ => code16 / 16 == codes[n - 3] + 16 * codes[n - 2] as int + 256 * codes[n - 1] as int
  }

  /** One step of the shift register. */
  method ShiftIn(code16: nat, ghost codes: seq<Nibble>, code: Nibble) returns (next: nat)
    requires code16 < 0x1_0000 && Shifted(code16, codes)
    ensures next < 0x1_0000 && Shifted(next, codes + [code])
    ensures |codes| % 4 == 3 ==> next == WordOf(codes + [code])
  {
    next := code16 / 16 + code as int * 4096;
  }

  lemma NoWordYet(v: Variant, codes: seq<Nibble>, code: Nibble)
    requires |codes| % 4 != 3
    ensures Payload(v, codes + [code]) == Payload(v, codes)
  {
    assert (codes + [code])[..(|codes| + 1) / 4 * 4] == codes[..|codes| / 4 * 4];
  }

  /** The last four codes, the first of them lowest. */
  function WordOf(codes: seq<Nibble>): nat
    requires |codes| >= 4
  {
    var n := |codes|;
    FourNibbles(codes[n - 4], codes[n - 3], codes[n - 2], codes[n - 1])
  }

  function FourNibbles(c0: nat, c1: nat, c2: nat, c3: nat): nat {
    c0 + 16 * c1 + 256 * c2 + 4096 * c3
  }

  /** Exchanges the two codes in each byte of a word. */
  function SwapNibbles(w: nat): nat {
    w % 16 * 16 + w / 16 % 16 + w / 256 % 16 * 4096 + w / 4096 % 16 * 256
  }

  lemma SwapFourNibbles(c0: Nibble, c1: Nibble, c2: Nibble, c3: Nibble)
    ensures SwapNibbles(FourNibbles(c0, c1, c2, c3)) == FourNibbles(c1, c0, c3, c2)
  {
    NibblesOfWord(c0, c1, c2, c3);
  }

  lemma NibblesOfWord(c0: Nibble, c1: Nibble, c2: Nibble, c3: Nibble)
    ensures var w := FourNibbles(c0, c1, c2, c3);
      w % 16 == c0 && w / 16 % 16 == c1 && w / 256 % 16 == c2 && w / 4096 % 16 == c3
  {
    LowestNibble(c0, c1 + 16 * c2 as int + 256 * c3 as int);
    LowestNibble(c1, c2 + 16 * c3 as int);
    LowestNibble(c2, c3);
  }

  lemma LowestNibble(c: Nibble, rest: nat)
    ensures (c + 16 * rest) % 16 == c && (c + 16 * rest) / 16 == rest
    ensures (c + 16 * rest) / 256 == rest / 16 && (c + 16 * rest) / 4096 == rest / 256
  {
  }

  lemma HalvesOfWord(c0: Nibble, c1: Nibble, c2: Nibble, c3: Nibble)
    ensures var w := FourNibbles(c0, c1, c2, c3);
      w < 0x1_0000 && w % 256 == c0 + 16 * c1 as int && w / 256 == c2 + 16 * c3 as int
  {
  }

  lemma WordBytes(v: Variant, codes: seq<Nibble>, code: Nibble, code16: nat)
    requires |codes| % 4 == 3 && code16 == WordOf(codes + [code])
    ensures var next, word := codes + [code], if v != Telink then SwapNibbles(code16) else code16;
      && word < 0x1_0000
      && Payload(v, next) == Payload(v, codes) + [word % 256, word / 256]
  {
    hide SwapNibbles, FourNibbles, Pack;
    var n, next := |codes|, codes + [code];
    var c0, c1, c2, c3 := next[n - 3], next[n - 2], next[n - 1], next[n];
    if HighFirst(v) {
      SwapFourNibbles(c0, c1, c2, c3);
      HalvesOfWord(c1, c0, c3, c2);
    } else {
      HalvesOfWord(c0, c1, c2, c3);
    }
    assert next[..(n + 1) / 4 * 4] == next;
    PackSnoc(v, codes[..n / 4 * 4], c0, c1, c2, c3);
    assert codes[..n / 4 * 4] + [c0, c1, c2, c3] == next;
  }

  lemma PackSnoc(v: Variant, codes: seq<Nibble>, c0: Nibble, c1: Nibble, c2: Nibble, c3: Nibble)
    requires |codes| % 4 == 0
    ensures Pack(v, codes + [c0, c1, c2, c3]) == Pack(v, codes) + [PackByte(v, c0, c1), PackByte(v, c2, c3)]
  {
  }

  class Decoder {
    const variant: Variant
    var predict: int
    var predictIdx: int

    predicate Valid()
      reads this
    {
      -32768 <= predict <= 32767 && 0 <= predictIdx <= 88
    }

    function State(): Predictor
      requires Valid()
      reads this
    {
      Predictor(predict, predictIdx)
    }

    constructor (v: Variant)
      ensures Valid() && variant == v && State() == Predictor(0, 0)
    {
      variant, predict, predictIdx := v, 0, 0;
    }

    /** Decodes `len` samples from the bytes at `ps` into `pd` at `off`. The loop fetches one
        byte more than the samples need; the byte may hold anything. */
    method AdpcmToPcm(ps: seq<u8>, pd: array<s16>, off: nat, len: nat)
      requires Valid() && HeaderOk(variant, ps)
      requires HeaderLength(variant) + len / 2 < |ps| && off + len <= pd.Length
      modifies this, pd
      ensures Valid()
      ensures var (ys, q) := DecodePacket(variant, old(State()), ps[..HeaderLength(variant) + (len + 1) / 2], len);
        && pd[..] == Splice(old(pd[..]), off, ys)
        && State() == if HeaderLength(variant) > 0 then old(State()) else q
    {
      hide Final, Pcm, Unpack, Splice;
      var h := HeaderLength(variant);
      var p := if h > 0 then HeaderState(variant, ps) else State();
      ghost var packet := ps[..h + (len + 1) / 2];
      assert packet[h..] == ps[h..h + (len + 1) / 2];
      SameHeader(variant, ps, h + (len + 1) / 2);
      p := DecodeRun(p, ps, h, pd, off, len);
      if variant == Google10 || variant == Hid {
        predict, predictIdx := p.predict, p.index;
      }
    }

    /** The sample loop. */
    method DecodeRun(start: Predictor, ps: seq<u8>, h: nat, pd: array<s16>, off: nat, len: nat) returns (p: Predictor)
      requires h + len / 2 < |ps| && off + len <= pd.Length
      modifies pd
      ensures var codes := Unpack(variant, ps[h..h + (len + 1) / 2], len);
        && p == Final(start, codes)
        && pd[..] == Splice(old(pd[..]), off, Pcm(start, codes))
    {
      hide DecodeSample, Bit, Final, Pcm, Unpack, Register, Swapped, Splice;
      ghost var before := pd[..];
      ghost var bytes := ps[h..h + (len + 1) / 2];
      ghost var codes := Unpack(variant, bytes, len);
      p := start;
      var pcode := h + 1;
      var code := Fetch(ps, h);
      EmptyPcm(start, codes);
      SpliceNothing(before, off);
      if len > 0 {
        FirstRegister(variant, ps, h, len);
      }
      var i := 0;
      while i < len
        invariant 0 <= i <= len
        invariant pcode == h + i / 2 + 1
        invariant 0 <= code < 256 && (i < len ==> code == Register(variant, bytes, i))
        invariant p == Final(start, codes[..i])
        invariant pd[..] == Splice(before, off, Pcm(start, codes[..i]))
      {
        RegisterHolds(variant, bytes, i, len);
        RegisterNext(variant, ps, h, len, i);
        PcmStep(start, codes, i);
        p := DecodeOne(p, code);
        if i % 2 == 1 {
          code := Fetch(ps, pcode);
          pcode := pcode + 1;
        } else {
          code := code / 16;
        }
        PutSample(pd, off + i, p.predict, before, off, Pcm(start, codes[..i]));
        i := i + 1;
      }
      assert codes[..len] == codes;
    }

    /** The body of the sample loop. The register may hold a second code above the first. */
    static method DecodeOne(p: Predictor, code: nat) returns (q: Predictor)
      requires code < 256
      ensures q == DecodeSample(p, code % 16)
    {
      hide StepSize, Bit;
      var step: nat := p.Step();
      var diffq: int := step / 8;
      if Bit(code, 4) { diffq := diffq + step; }
      step := step / 2;
      if Bit(code, 2) { diffq := diffq + step; }
      step := step / 2;
      if Bit(code, 1) { diffq := diffq + step; }
      var predict := if Bit(code, 8) then p.predict - diffq else p.predict + diffq;
      if predict > 32767 {
        predict := 32767;
      } else if predict < -32768 {
        predict := -32768;
      }
      q := Predictor(predict, NextIndex(p.index, code % 16));
      LowNibble(code);
    }

    /** Reads a byte, exchanging its halves in the variants that store the first code high. */
    function Fetch(ps: seq<u8>, pcode: nat): (code: nat)
      requires pcode < |ps|
    {
      Swapped(variant, ps[pcode])
    }
  }

  function Swapped(v: Variant, b: u8): (code: nat)
    ensures code < 256
  {
    if HighFirst(v) then b / 16 + b % 16 * 16 else b
  }

  /** The decoder's code register before sample `i`. */
  function Register(v: Variant, bytes: seq<u8>, i: nat): nat
    requires i / 2 < |bytes|
  {
    if i % 2 == 0 then Swapped(v, bytes[i / 2]) else Swapped(v, bytes[i / 2]) / 16
  }

  lemma SwappedHalves(v: Variant, b: u8)
    ensures Swapped(v, b) % 16 == (if HighFirst(v) then b / 16 else b % 16)
    ensures Swapped(v, b) / 16 == (if HighFirst(v) then b % 16 else b / 16)
  {
  }

  lemma RegisterHolds(v: Variant, bytes: seq<u8>, i: nat, len: nat)
    requires i < len <= 2 * |bytes|
    ensures Register(v, bytes, i) % 16 == Unpack(v, bytes, len)[i]
  {
    hide Swapped;
    SwappedHalves(v, bytes[i / 2]);
  }

  lemma FirstRegister(v: Variant, ps: seq<u8>, h: nat, len: nat)
    requires h + len / 2 < |ps| && 0 < len
    ensures Register(v, ps[h..h + (len + 1) / 2], 0) == Swapped(v, ps[h])
  {
  }

  lemma RegisterNext(v: Variant, ps: seq<u8>, h: nat, len: nat, i: nat)
    requires h + len / 2 < |ps| && i < len
    ensures var bytes := ps[h..h + (len + 1) / 2];
      && (i + 1 < len && i % 2 == 1 ==> Register(v, bytes, i + 1) == Swapped(v, ps[h + i / 2 + 1]))
      && (i + 1 < len && i % 2 == 0 ==> Register(v, bytes, i + 1) == Register(v, bytes, i) / 16)
  {
    hide Swapped;
    assert i % 2 == 1 ==> (i + 1) / 2 == i / 2 + 1;
    assert i % 2 == 0 ==> (i + 1) / 2 == i / 2;
  }

  lemma SameHeader(v: Variant, ps: seq<u8>, n: nat)
    requires HeaderOk(v, ps) && HeaderLength(v) <= n <= |ps|
    ensures HeaderOk(v, ps[..n])
    ensures HeaderLength(v) > 0 ==> HeaderState(v, ps[..n]) == HeaderState(v, ps)
  {
  }

  /** Stores a sample behind the samples stored from `off` on. */
  method PutSample(pd: array<s16>, pos: nat, x: s16, ghost buf: seq<s16>, ghost off: nat, ghost samples: seq<s16>)
    requires pos < pd.Length && pos == off + |samples| && |buf| == pd.Length
    requires pd[..] == Splice(buf, off, samples)
    modifies pd
    ensures pd[..] == Splice(buf, off, samples + [x])
  {
    hide Splice;
    pd[pos] := x;
    OneSample(Splice(buf, off, samples), pd[..], pos, x);
    SpliceSplice(buf, off, samples, [x]);
  }

  lemma OneSample(buf: seq<s16>, buf': seq<s16>, pos: nat, x: s16)
    requires pos < |buf| && buf' == buf[pos := x]
    ensures buf' == Splice(buf, pos, [x])
  {
  }

  lemma EmptyPcm(p: Predictor, codes: seq<Nibble>)
    ensures Final(p, codes[..0]) == p && Pcm(p, codes[..0]) == []
  {
  }

  lemma PcmStep(p: Predictor, codes: seq<Nibble>, i: nat)
    requires i < |codes|
    ensures Final(p, codes[..i + 1]) == DecodeSample(Final(p, codes[..i]), codes[i])
    ensures Pcm(p, codes[..i + 1]) == Pcm(p, codes[..i]) + [Final(p, codes[..i + 1]).predict]
  {
    assert codes[..i + 1][..i] == codes[..i];
  }

  lemma LowNibble(code: nat)
    requires code < 256
    ensures code % 16 % 16 == code % 16
    ensures Bit(code, 8) == Bit(code % 16, 8) && Bit(code, 4) == Bit(code % 16, 4)
    ensures Bit(code, 2) == Bit(code % 16, 2) && Bit(code, 1) == Bit(code % 16, 1)
  {
    var high, low := code / 16, code % 16;
    assert code / 8 == 2 * high + low / 8 && code / 4 == 4 * high + low / 4;
    assert code / 2 == 8 * high + low / 2 && code == 16 * high + low;
  }
}
