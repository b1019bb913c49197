/** `my_fifo`: a queue of byte strings in a ring of fixed-size slots. A slot holds a
    two-byte length, low byte first, and then the payload. */
module MyFifo {
  import opened Arith
  import opened Types
  import opened Ring

  function Record(payload: seq<u8>): (rec: seq<u8>)
    ensures |rec| == |payload| + 2
  {
    [|payload| % 256, |payload| / 256 % 256] + payload
  }

  /** The length comes low byte first. */
  lemma RecordReads(payload: seq<u8>)
    ensures Record(payload)[0] + 256 * Record(payload)[1] as int == |payload| % 0x1_0000
    ensures Record(payload)[2..] == payload
  {
    hide Record;
    LengthBytes(|payload|);
    RecordIs(payload);
  }

  lemma RecordIs(payload: seq<u8>)
    ensures Record(payload)[0] == |payload| % 256 && Record(payload)[1] == |payload| / 256 % 256
    ensures Record(payload)[2..] == payload
  {
  }

  lemma LengthBytes(n: nat)
    ensures n % 256 + 256 * (n / 256 % 256) == n % 0x1_0000
  {
    var q := n / 256;
    assert n == 256 * q + n % 256 && q == 256 * (q / 256) + q % 256;
    ModUnique(n, q / 256, 0x1_0000, 256 * (q % 256) + n % 256);
  }

  function Records(log: seq<seq<u8>>): (recs: seq<seq<u8>>)
    ensures |recs| == |log|
  {
    seq(|log|, k requires 0 <= k < |log| => Record(log[k]))
  }

  predicate AllFit(log: seq<seq<u8>>, r: nat, size: nat) {
    forall k :: r <= k < |log| ==> |log[k]| + 2 <= size
  }

  /** One more payload: the ring with its record in the next slot. */
  lemma RingAfterPush(buf: seq<u8>, buf': seq<u8>, num: nat, size: nat, log: seq<seq<u8>>, r: nat, payload: seq<u8>)
    requires 0 < num && num * size <= |buf| && |log| < r + num
    requires Holds(buf, num, size, Records(log), r) && AllFit(log, r, size)
    requires |payload| + 2 <= size && Stored(buf, buf', num, size, |log|, Record(payload))
    ensures Holds(buf', num, size, Records(log + [payload]), r) && AllFit(log + [payload], r, size)
  {
    hide Holds, Offset, StandsAt;
    HoldsAfterStore(buf, buf', num, size, Records(log), r, Record(payload));
    RecordsSnoc(log, payload);
  }

  lemma RecordsSnoc(log: seq<seq<u8>>, payload: seq<u8>)
    ensures Records(log + [payload]) == Records(log) + [Record(payload)]
  {
  }

  class Fifo {
    var size: nat
    var num: nat
    var wptr: nat
    var rptr: nat
    var p: array<u8>
    /** Every payload ever pushed, and how many of them have been popped. */
    ghost var log: seq<seq<u8>>
    ghost var popped: nat

    ghost predicate Valid()
      reads this, p
    {
      && SlotCount(num) && num * size <= p.Length
      && wptr == Low8(|log|) && rptr == Low8(popped)
      && popped <= |log| <= popped + num
      && AllFit(log, popped, size)
      && Holds(p[..], num, size, Records(log), popped)
    }

    ghost function Contents(): seq<seq<u8>>
      requires popped <= |log|
      reads this
    {
      log[popped..]
    }

    constructor (size: nat, num: nat, p: array<u8>)
      requires SlotCount(num) && num * size <= p.Length
      ensures Valid() && Contents() == []
      ensures this.size == size && this.num == num && this.p == p
    {
      this.size, this.num, this.p := size, num, p;
      wptr, rptr := 0, 0;
      log, popped := [], 0;
    }

    /** The slot to fill next; none when `num` items are held. */
    method WritePointer() returns (r: Option<nat>)
      requires Valid()
      ensures r.Some? <==> |Contents()| < num
      ensures r.Some? ==> r.value == Offset(|log|, num, size)
    {
      Distance(|log|, popped);
      if Low8(wptr - rptr) < num {
        WrappedOffset(|log|, num, size);
        return Some(Offset(wptr, num, size));
      }
      return None;
    }

    /** Publishes the slot the caller has filled in place. */
    method Next(ghost payload: seq<u8>)
      requires Valid() && |Contents()| < num
      requires |payload| + 2 <= size && StandsAt(p[..], Offset(|log|, num, size), Record(payload))
      modifies this`wptr, this`log
      ensures Valid() && Contents() == old(Contents()) + [payload]
    {
      hide Low8, Holds, Offset, Records, StandsAt, AllFit;
      Increment(|log|);
      wptr := Low8(wptr + 1);
      RingAfterPush(p[..], p[..], num, size, log, popped, payload);
      log := log + [payload];
    }

    /** Appends a payload. A payload of `size - 1` bytes passes the length test although its
        record is one byte longer than a slot; what that does is `PushKeepsItems` below. */
    method Push(payload: seq<u8>) returns (ret: int)
      requires Valid()
      requires |payload| == size - 1 ==> Offset(|log|, num, size) + size + 1 <= p.Length
      modifies this`wptr, this`log, p
      ensures ret == -1 || ret == 0
      ensures ret == -1 <==> |old(Contents())| == num || |payload| >= size
      ensures ret == -1 ==> Valid() && Contents() == old(Contents()) && p[..] == old(p[..])
      ensures ret == 0 ==> Stored(old(p[..]), p[..], num, size, old(|log|), Record(payload))
      ensures ret == 0 ==> log == old(log) + [payload] && wptr == Low8(|log|)
      ensures ret == 0 && |payload| + 2 <= size ==> Valid() && Contents() == old(Contents()) + [payload]
    {
      hide Low8, Holds, Records, Offset, Record, AllFit, Stored, SameOutside, StandsAt;
      Distance(|log|, popped);
      if Low8(wptr - rptr) >= num {
        return -1;
      }
      if |payload| >= size {
        return -1;
      }
      WrappedOffset(|log|, num, size);
      var pd := Offset(wptr, num, size);
      Increment(|log|);
      wptr := Low8(wptr + 1);
      ghost var before := p[..];
      StoreRecord(p, pd, payload);
      assert Stored(before, p[..], num, size, |log|, Record(payload)) by { StoredIs(before, p[..], num, size, |log|, Record(payload)); }
      if |payload| + 2 <= size {
        RingAfterPush(before, p[..], num, size, log, popped, payload);
      }
      log := log + [payload];
      return 0;
    }

    /** The oldest item's slot; none when the queue is empty. */
    method Get() returns (r: Option<nat>)
      requires Valid()
      ensures r.Some? <==> Contents() != []
      ensures r.Some? ==> StandsAt(p[..], r.value, Record(Contents()[0]))
      ensures r.Some? ==> var (at, head) := (r.value, Contents()[0]);
        && at + 2 + |head| <= p.Length && p[at + 2..at + 2 + |head|] == head
        && p[at] + 256 * p[at + 1] as int == |head| % 0x1_0000
    {
      Distance(|log|, popped);
      if rptr != wptr {
        WrappedOffset(popped, num, size);
        assert StandsAt(p[..], Offset(popped, num, size), Records(log)[popped]);
        RecordStands(p[..], Offset(popped, num, size), log[popped]);
        return Some(Offset(rptr, num, size));
      }
      return None;
    }

    /** Drops the oldest item. On an empty queue the read counter passes the write counter:
        the queue then seems to hold 255 items, and `Push` refuses everything. */
    method Pop()
      requires Valid()
      modifies this`rptr, this`popped
      ensures old(Contents()) != [] ==> Valid() && Contents() == old(Contents())[1..]
      ensures old(Contents()) == [] ==> rptr == Low8(wptr + 1) && Low8(wptr - rptr) == 255
    {
      hide Low8, Holds, Records, Offset;
      if popped < |log| {
        HoldsAfterDrop(p[..], num, size, Records(log), popped);
        Increment(popped);
        popped := popped + 1;
      } else {
        Overtaken(wptr);
      }
      rptr := Low8(rptr + 1);
    }
  }

  lemma RecordStands(buf: seq<u8>, at: nat, payload: seq<u8>)
    requires StandsAt(buf, at, Record(payload))
    ensures at + 2 + |payload| <= |buf| && buf[at + 2..at + 2 + |payload|] == payload
    ensures buf[at] + 256 * buf[at + 1] as int == |payload| % 0x1_0000
  {
    RecordReads(payload);
    var rec := buf[at..at + 2 + |payload|];
    assert rec[0] == buf[at] && rec[1] == buf[at + 1] && rec[2..] == buf[at + 2..at + 2 + |payload|];
  }

  lemma Overtaken(w: nat)
    requires w < 256
    ensures Low8(w - Low8(w + 1)) == 255
  {
  }

  method StoreRecord(p: array<u8>, pd: nat, payload: seq<u8>)
    requires pd + 2 + |payload| <= p.Length
    modifies p
    ensures StandsAt(p[..], pd, Record(payload))
    ensures SameOutside(old(p[..]), p[..], pd, pd + |Record(payload)|)
  {
    hide StandsAt, SameOutside;
    var head: seq<u8> := [|payload| % 256, |payload| / 256 % 256];
    ghost var before := p[..];
    Store(p, pd, head);
    ghost var middle := p[..];
    Store(p, pd + 2, payload);
    StandsAppend(middle, p[..], pd, head, payload);
    OutsideBoth(before, middle, p[..], pd, pd + 2, pd + 2 + |payload|);
  }

  /** `buf'` is `buf` with a record stored at the start of slot `k % num`. */
  predicate Stored(buf: seq<u8>, buf': seq<u8>, num: nat, size: nat, k: nat, rec: seq<u8>)
    requires 0 < num
  {
    StandsAt(buf', Offset(k, num, size), rec)
    && SameOutside(buf, buf', Offset(k, num, size), Offset(k, num, size) + |rec|)
  }

  lemma StoredIs(buf: seq<u8>, buf': seq<u8>, num: nat, size: nat, k: nat, rec: seq<u8>)
    requires 0 < num && StandsAt(buf', Offset(k, num, size), rec)
    requires SameOutside(buf, buf', Offset(k, num, size), Offset(k, num, size) + |rec|)
    ensures Stored(buf, buf', num, size, k, rec)
  {
  }

  /** A push of `payload` on a queue that holds items `r..` of `items`, with room left. */
  predicate PushStep(buf: seq<u8>, buf': seq<u8>, num: nat, size: nat, items: seq<seq<u8>>, r: nat, payload: seq<u8>)
    requires 0 < num
  {
    && num * size <= |buf|
    && Holds(buf, num, size, items, r) && |items| < r + num
    && (forall k :: r <= k < |items| ==> |items[k]| <= size)
    && Stored(buf, buf', num, size, |items|, Record(payload))
  }

  /** Pushing a payload of `n` bytes never damages an item that is already held. */
  ghost predicate NeverDamages(num: nat, size: nat, n: nat)
    requires 0 < num
  {
    forall buf, buf', items, r, payload |
      |payload| == n && PushStep(buf, buf', num, size, items, r, payload) ::
      Holds(buf', num, size, items + [Record(payload)], r)
  }

  /** Of the payload lengths `n < size` that `my_fifo_push` accepts, exactly those with
      `n + 2 <= size` leave the held items intact. */
  lemma PushKeepsItems(num: nat, size: nat, n: nat)
    requires SlotCount(num) && 2 <= num && 2 <= size && n < size
    ensures NeverDamages(num, size, n) <==> n + 2 <= size
  {
    if n + 2 <= size {
      forall buf, buf', items, r, payload |
        |payload| == n && PushStep(buf, buf', num, size, items, r, payload)
        ensures Holds(buf', num, size, items + [Record(payload)], r)
      {
        HoldsAfterStore(buf, buf', num, size, items, r, Record(payload));
      }
    } else {
      var buf, buf', items, payload := OverlongPush(num, size);
      assert PushStep(buf, buf', num, size, items, 1, payload);
    }
  }

  /** A queue of `num - 1` empty payloads in slots 1.., and a push of `size - 1` ones into
      slot 0: its last byte lands on the length byte of the oldest item. */
  lemma OverlongPush(num: nat, size: nat)
    returns (buf: seq<u8>, buf': seq<u8>, items: seq<seq<u8>>, payload: seq<u8>)
    requires 2 <= num && 2 <= size
    ensures |payload| == size - 1
    ensures PushStep(buf, buf', num, size, items, 1, payload)
    ensures !Holds(buf', num, size, items + [Record(payload)], 1)
  {
    hide Offset;
    items := seq(num, _ => [0, 0]);
    buf := seq(num * size, _ => 0);
    payload := seq(size - 1, _ => 1);
    var rec := Record(payload);
    MulMonotone(2, num, size);
    buf' := rec + buf[|rec|..];
    FirstOffsets(num, size);
    forall k | 1 <= k < num
      ensures StandsAt(buf, Offset(k, num, size), items[k])
    {
    }
    assert rec[size] == payload[size - 2] && buf'[size] == rec[size];
    NotStanding(buf', size, [0, 0]);
    assert (items + [rec])[1] == [0, 0];
  }

  lemma FirstOffsets(num: nat, size: nat)
    requires 2 <= num
    ensures Offset(1, num, size) == size && Offset(num, num, size) == 0
  {
    ModUnique(1, 0, num, 1);
    ModUnique(num, 1, num, 0);
  }
}
