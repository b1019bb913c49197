/** Bookkeeping of one epoch of the jitter buffer, the time between two resets: which packet
    the slot of each frame holds, how far USB has read, and from which sample on the packets
    that were overwritten before they were decoded will be heard. */
module JitterCourse {
  import opened Arith
  import opened Types
  import opened Adpcm

  const FRAME := 240
  const READ := 16
  const SLOTS := 4

  /** An epoch starts with frame `base` and the decoder in state `origin`. USB taken on at
      sample `pos`. The frames before `sound` are the packets of the same numbers, and decoding
      them has led to state `end`. At sample `loss` the delivered sound stops being right. */
  datatype Epoch = Epoch(base: nat, pos: nat, sound: nat, loss: Option<nat>, origin: Predictor, end: Predictor) {
    /** The frame that USB taken. */
    function Reading(): nat { pos / FRAME }

    /** USB has read beyond the loss. */
    predicate Past() { loss.Some? && loss.value < pos }
  }

  /** With `n` frames counted, the frame that stands in the slot of frame `r`. */
  function Standing(r: nat, n: nat): nat { if n > r + SLOTS then r + SLOTS else r }

  /** The packets heard, one entry a read, are the packets `base`, `base + 1`, ... whole. */
  predicate InOrder(base: nat, heard: seq<int>) {
    forall i :: 0 <= i < |heard| ==> heard[i] == base + i / (FRAME / READ)
  }

  /** `tags[k]` is the packet that frame `k` was decoded from, or that its slot was left with;
      -1 if the slot holds nothing of this epoch. */
  ghost predicate OnCourse(e: Epoch, tags: seq<int>, heard: seq<int>) {
    && Positions(e, |tags|, |heard|)
    && (InOrder(e.base, heard) <==> !e.Past())
    && (forall k | 0 <= k < e.base :: tags[k] == -1)
    && (forall k | e.base <= k < e.sound :: tags[k] == k)
    && (e.loss == None ==> e.sound == |tags| <= e.Reading() + SLOTS)
    && (e.loss.Some? ==> LossAhead(e, tags))
  }

  /** A place where a read may begin. */
  predicate Aligned(x: nat) { x % READ == 0 }

  lemma FrameAligned(k: nat)
    ensures Aligned(k * FRAME)
  {
    ModUnique(k * FRAME, 15 * k, READ, 0);
  }

  lemma ReadingBounds(e: Epoch)
    ensures e.Reading() * FRAME <= e.pos < e.Reading() * FRAME + FRAME
  {
  }

  predicate Positions(e: Epoch, n: nat, taken: nat) {
    && e.base * FRAME <= e.pos <= n * FRAME && Aligned(e.pos) && e.base <= e.sound <= n <= e.Reading() + SLOTS + 1
    && taken * READ == e.pos - e.base * FRAME
  }

  /** A loss not yet heard will be: it is in the read frame already, or at the start of the
      first frame that is not sound. */
  ghost predicate LossAhead(e: Epoch, tags: seq<int>)
    requires e.loss.Some? && e.sound <= |tags| <= e.Reading() + SLOTS + 1
  {
    var l, n, r := e.loss.value, |tags|, e.Reading();
    && e.base * FRAME <= l < n * FRAME && l <= e.sound * FRAME && Aligned(l)
    && (e.pos < l ==> l == e.sound * FRAME && tags[e.sound] != e.sound && (n == r + SLOTS + 1 ==> tags[r + SLOTS] == r))
    && (e.pos == l ==> tags[Standing(r, n)] != r)
  }

  function Earlier(loss: Option<nat>, at: nat): Option<nat> {
    if loss == None || at < loss.value then Some(at) else loss
  }

  /** Frame `n` is counted although its packet has been overwritten: its slot keeps what it
      held, and that will be heard. */
  function AfterSkip(e: Epoch, n: nat): (e': Epoch)
    ensures e'.pos == e.pos
  {
    e.(loss := Earlier(e.loss, n * FRAME))
  }

  /** Frame `n` is decoded from packet `source`. With four frames unread this overwrites the
      one that is being read. */
  function AfterDecode(e: Epoch, n: nat, source: nat, end: Predictor): (e': Epoch)
    ensures e'.pos == e.pos
  {
    if n >= e.Reading() + SLOTS then e.(loss := Earlier(e.loss, e.pos))
    else if source != n then e.(loss := Earlier(e.loss, n * FRAME))
    else if e.loss == None then e.(sound := n + 1, end := end)
    else e
  }

  function AfterRead(e: Epoch): Epoch { e.(pos := e.pos + READ) }

  /** What the slot of frame `|tags|` was left with. */
  function LeftTag(tags: seq<int>): int { if |tags| >= SLOTS then tags[|tags| - SLOTS] else -1 }

  lemma SkipKeepsCourse(e: Epoch, tags: seq<int>, heard: seq<int>)
    requires OnCourse(e, tags, heard) && |tags| <= e.Reading() + SLOTS
    ensures OnCourse(AfterSkip(e, |tags|), tags + [LeftTag(tags)], heard)
  {
    hide InOrder, Aligned, Epoch.Reading;
    FrameAligned(|tags|);
    ReadingBounds(e);
    ReadingOf(e, AfterSkip(e, |tags|));
    var n, r := |tags|, e.Reading();
    assert n == r + SLOTS ==> LeftTag(tags) == tags[r];
    assert e.loss == None ==> LeftTag(tags) != n;
  }

  lemma DecodeKeepsCourse(e: Epoch, tags: seq<int>, heard: seq<int>, source: nat, end: Predictor)
    requires OnCourse(e, tags, heard) && |tags| <= e.Reading() + SLOTS && |tags| <= source
    ensures OnCourse(AfterDecode(e, |tags|, source, end), tags + [source], heard)
  {
    hide OnCourse, InOrder;
    if |tags| == e.Reading() + SLOTS {
      OverwriteKeepsCourse(e, tags, heard, source);
    } else if source != |tags| {
      WrongPacketKeepsCourse(e, tags, heard, source);
    } else if e.loss == None {
      SoundFrameKeepsCourse(e, tags, heard, end);
    } else {
      LaterFrameKeepsCourse(e, tags, heard, source);
    }
  }

  lemma OverwriteKeepsCourse(e: Epoch, tags: seq<int>, heard: seq<int>, source: nat)
    requires OnCourse(e, tags, heard) && |tags| == e.Reading() + SLOTS <= source
    ensures OnCourse(e.(loss := Earlier(e.loss, e.pos)), tags + [source], heard)
  {
    hide InOrder, Aligned, Epoch.Reading;
    ReadingBounds(e);
    ReadingOf(e, e.(loss := Earlier(e.loss, e.pos)));
  }

  lemma WrongPacketKeepsCourse(e: Epoch, tags: seq<int>, heard: seq<int>, source: nat)
    requires OnCourse(e, tags, heard) && |tags| < e.Reading() + SLOTS && |tags| < source
    ensures OnCourse(e.(loss := Earlier(e.loss, |tags| * FRAME)), tags + [source], heard)
  {
    hide InOrder, Aligned, Epoch.Reading;
    FrameAligned(|tags|);
    ReadingBounds(e);
    ReadingOf(e, e.(loss := Earlier(e.loss, |tags| * FRAME)));
  }

  lemma SoundFrameKeepsCourse(e: Epoch, tags: seq<int>, heard: seq<int>, end: Predictor)
    requires OnCourse(e, tags, heard) && |tags| < e.Reading() + SLOTS && e.loss == None
    ensures OnCourse(e.(sound := |tags| + 1, end := end), tags + [|tags|], heard)
  {
    hide InOrder, Aligned, Epoch.Reading;
    ReadingOf(e, e.(sound := |tags| + 1, end := end));
  }

  lemma LaterFrameKeepsCourse(e: Epoch, tags: seq<int>, heard: seq<int>, source: nat)
    requires OnCourse(e, tags, heard) && |tags| < e.Reading() + SLOTS && e.loss.Some?
    ensures OnCourse(e, tags + [source], heard)
  {
    hide InOrder, Aligned, Epoch.Reading;
    ReadingBounds(e);
  }

  lemma ReadingOf(e: Epoch, e': Epoch)
    requires e.pos == e'.pos
    ensures e.Reading() == e'.Reading()
  {
  }

  lemma ReadKeepsCourse(e: Epoch, tags: seq<int>, heard: seq<int>)
    requires OnCourse(e, tags, heard) && e.Reading() < |tags|
    ensures OnCourse(AfterRead(e), tags, heard + [tags[Standing(e.Reading(), |tags|)]])
  {
    HeardSnoc(e, heard, tags[Standing(e.Reading(), |tags|)]);
    ReadPositions(e, |tags|, |heard|);
    hide InOrder, Positions;
  }

  lemma HeardSnoc(e: Epoch, heard: seq<int>, tag: int)
    requires e.base * FRAME <= e.pos && |heard| * READ == e.pos - e.base * FRAME
    ensures InOrder(e.base, heard + [tag]) <==> InOrder(e.base, heard) && tag == e.Reading()
  {
    assert (heard + [tag])[|heard|] == tag && (heard + [tag])[..|heard|] == heard;
    assert e.base + |heard| / 15 == e.Reading();
    assert forall i :: 0 <= i < |heard| ==> (heard + [tag])[i] == heard[i];
  }

  lemma ReadPositions(e: Epoch, n: nat, taken: nat)
    requires Positions(e, n, taken) && e.Reading() < n
    ensures Positions(AfterRead(e), n, taken + 1)
    ensures AfterRead(e).Reading() == e.Reading() || (AfterRead(e).Reading() == e.Reading() + 1 && AfterRead(e).pos == AfterRead(e).Reading() * FRAME)
    ensures e.loss.Some? && Aligned(e.loss.value) && e.pos < e.loss.value ==> AfterRead(e).pos <= e.loss.value
  {
    StaysMultiple(e.pos);
    RoomForRead(e.pos, n);
    NextReading(e.pos);
    if e.loss.Some? && Aligned(e.loss.value) && e.pos < e.loss.value {
      NextMultiple(e.pos, e.loss.value);
    }
  }

  lemma StaysMultiple(x: nat)
    requires Aligned(x)
    ensures Aligned(x + READ)
  {
    ModUnique(x + READ, x / READ + 1, READ, 0);
  }

  lemma NextMultiple(x: nat, y: nat)
    requires Aligned(x) && Aligned(y) && x < y
    ensures x + READ <= y
  {
    var a, b := x / READ, y / READ;
    assert x == READ * a && y == READ * b;
  }

  lemma RoomForRead(x: nat, n: nat)
    requires Aligned(x) && x / FRAME < n
    ensures x + READ <= n * FRAME
  {
    NextReading(x);
    assert x == x / FRAME * FRAME + x % FRAME;
  }

  lemma NextReading(pos: nat)
    requires Aligned(pos)
    ensures pos % FRAME + READ <= FRAME
    ensures (pos + READ) / FRAME == pos / FRAME
      || ((pos + READ) / FRAME == pos / FRAME + 1 && pos + READ == (pos + READ) / FRAME * FRAME)
  {
    var a, r := pos / READ, pos / READ / 15;
    var j := pos / READ % 15;
    assert pos == READ * a && a == 15 * r + j;
    QuotientUnique(r, READ * j, pos / FRAME, pos % FRAME, FRAME);
    if j < 14 {
      QuotientUnique(r, READ * j + READ, (pos + READ) / FRAME, (pos + READ) % FRAME, FRAME);
    } else {
      QuotientUnique(r + 1, 0, (pos + READ) / FRAME, (pos + READ) % FRAME, FRAME);
    }
  }

  function NewEpoch(n: nat, origin: Predictor): Epoch { Epoch(n, n * FRAME, n, None, origin, origin) }

  lemma NewCourse(n: nat, origin: Predictor)
    ensures OnCourse(NewEpoch(n, origin), seq(n, _ => -1), [])
  {
  }
}
