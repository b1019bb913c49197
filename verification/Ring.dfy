/** Rings of equal slots in one flat buffer, addressed by byte counters that wrap at 256.
    The counters are compared with unbounded ones: `w` items written, `r` items removed. */
module Ring {
  import opened Arith

  /** The powers of two a byte counter can be masked with. */
  predicate SlotCount(n: nat) {
    n == 1 || n == 2 || n == 4 || n == 8 || n == 16 || n == 32 || n == 64 || n == 128
  }

  /** A byte counter that has been incremented, or had another one subtracted. */
  function Low8(x: int): (b: nat)
    ensures b < 256
  {
    x % 256
  }

  lemma Increment(w: nat)
    ensures Low8(Low8(w) + 1) == Low8(w + 1)
  {
  }

  lemma Distance(w: nat, r: nat)
    requires r <= w < r + 256
    ensures Low8(Low8(w) - Low8(r)) == w - r
    ensures Low8(w) == Low8(r) <==> w == r
  {
  }

  lemma ModOfMod(w: nat, n: nat, m: nat)
    requires 0 < n && n * m == 256
    ensures w % 256 % n == w % n
  {
    var a, b := w / 256, w % 256 / n;
    assert w % 256 == b * n + w % 256 % n;
    assert a * 256 == a * m * n;
    assert (a * m + b) * n == a * m * n + b * n;
    ModUnique(w, a * m + b, n, w % 256 % n);
  }

  /** The slot a wrapped counter selects is the one the unbounded counter selects. */
  lemma WrappedSlot(w: nat, n: nat)
    requires SlotCount(n)
    ensures w % 256 % n == w % n
  {
    ModOfMod(w, n, 256 / n);
  }

  /** Two byte counters less than `m` apart, subtracted and masked to `m - 1`. */
  lemma MaskedDistance(w: nat, r: nat, m: nat)
    requires (SlotCount(m) || m == 256) && r <= w < r + m
    ensures (Low8(w) - Low8(r)) % m == w - r
    ensures Low8(Low8(w) - Low8(r)) % m == w - r
  {
    var a := 256 / m;
    assert a * m == 256;
    var d := w / 256 - r / 256;
    assert Low8(w) - Low8(r) == w - r - 256 * d;
    assert 256 * d == a * d * m;
    assert (-(a * d)) * m == -(a * d * m);
    ModUnique(Low8(w) - Low8(r), -(a * d), m, w - r);
    Distance(w, r);
    ModUnique(w - r, 0, m, w - r);
  }

  lemma WrappedOffset(w: nat, n: nat, size: nat)
    requires SlotCount(n)
    ensures Offset(Low8(w), n, size) == Offset(w, n, size)
  {
    WrappedSlot(w, n);
  }

  lemma SlotsDiffer(a: nat, b: nat, n: nat)
    requires 0 < n && a < b < a + n
    ensures a % n != b % n
  {
    var qa, qb := a / n, b / n;
    assert a == qa * n + a % n && b == qb * n + b % n;
    if qa < qb {
      MulMonotone(qa + 1, qb, n);
      assert (qa + 1) * n == qa * n + n;
    } else {
      MulMonotone(qb, qa, n);
    }
  }

  lemma SlotBounds(slot: nat, n: nat, size: nat)
    requires slot < n
    ensures 0 <= slot * size && slot * size + size <= n * size
  {
    MulMonotone(0, slot, size);
    MulMonotone(slot + 1, n, size);
    assert (slot + 1) * size == slot * size + size;
  }

  lemma SlotsApart(a: nat, b: nat, size: nat)
    requires a != b
    ensures a * size + size <= b * size || b * size + size <= a * size
  {
    if a < b {
      SlotBounds(a, b, size);
    } else {
      SlotBounds(b, a, size);
    }
  }

  /** Where the slot of the `k`-th item begins. */
  function Offset(k: nat, n: nat, size: nat): (at: nat)
    requires 0 < n
    ensures at + size <= n * size
  {
    SlotBounds(k % n, n, size);
    k % n * size
  }

  /** `item` stands in `buf` from index `at`. */
  predicate StandsAt<T(==)>(buf: seq<T>, at: nat, item: seq<T>) {
    at + |item| <= |buf| && buf[at..at + |item|] == item
  }

  /** Items `r..` of `items` stand in the ring. */
  predicate Holds<T(==)>(buf: seq<T>, n: nat, size: nat, items: seq<seq<T>>, r: nat)
    requires 0 < n
  {
    && r <= |items| <= r + n
    && forall k :: r <= k < |items| ==> StandsAt(buf, Offset(k, n, size), items[k])
  }

  /** Both buffers agree outside `[lo, hi)`. */
  predicate SameOutside<T(==)>(buf: seq<T>, buf': seq<T>, lo: nat, hi: nat) {
    |buf| == |buf'| && forall i :: 0 <= i < |buf| && !(lo <= i < hi) ==> buf[i] == buf'[i]
  }

  lemma Spliced<T>(buf: seq<T>, at: nat, item: seq<T>, size: nat)
    requires |item| <= size && at + |item| <= |buf|
    ensures var buf' := buf[..at] + item + buf[at + |item|..];
      StandsAt(buf', at, item) && SameOutside(buf, buf', at, at + size)
  {
  }

  lemma SliceOfStanding<T>(buf: seq<T>, at: nat, item: seq<T>, j: nat, len: nat)
    requires StandsAt(buf, at, item) && j + len <= |item|
    ensures buf[at + j..at + j + len] == item[j..j + len]
  {
    var part, a, b := buf[at..at + |item|], buf[at + j..at + j + len], item[j..j + len];
    forall i | 0 <= i < len
      ensures a[i] == b[i]
    {
      assert part[j + i] == buf[at + (j + i)];
    }
  }

  lemma NotStanding<T>(buf: seq<T>, at: nat, item: seq<T>)
    requires |item| > 0 && at < |buf| && buf[at] != item[0]
    ensures !StandsAt(buf, at, item)
  {
    if at + |item| <= |buf| {
      assert buf[at..at + |item|][0] == buf[at];
    }
  }

  lemma HeldItem<T>(buf: seq<T>, n: nat, size: nat, items: seq<seq<T>>, k: nat)
    requires 0 < n && Holds(buf, n, size, items, k) && k < |items|
    ensures StandsAt(buf, Offset(k, n, size), items[k])
  {
  }

  lemma HoldsAfterDrop<T>(buf: seq<T>, n: nat, size: nat, items: seq<seq<T>>, r: nat)
    requires 0 < n && Holds(buf, n, size, items, r) && r < |items|
    ensures Holds(buf, n, size, items, r + 1)
  {
    hide Offset;
  }

  lemma OffsetsApart(a: nat, b: nat, n: nat, size: nat)
    requires 0 < n && a < b < a + n
    ensures Offset(a, n, size) + size <= Offset(b, n, size) || Offset(b, n, size) + size <= Offset(a, n, size)
  {
    SlotsDiffer(a, b, n);
    SlotsApart(a % n, b % n, size);
  }

  /** Storing an item in the next slot keeps every held item, and adds it at the end. */
  lemma HoldsAfterStore<T>(buf: seq<T>, buf': seq<T>, n: nat, size: nat, items: seq<seq<T>>, r: nat, item: seq<T>)
    requires 0 < n && n * size <= |buf|
    requires Holds(buf, n, size, items, r) && |items| < r + n
    requires forall k :: r <= k < |items| ==> |items[k]| <= size
    requires |item| <= size && StandsAt(buf', Offset(|items|, n, size), item)
    requires SameOutside(buf, buf', Offset(|items|, n, size), Offset(|items|, n, size) + size)
    ensures Holds(buf', n, size, items + [item], r)
  {
    hide Offset;
    forall k | r <= k < |items|
      ensures StandsAt(buf', Offset(k, n, size), items[k])
    {
      OffsetsApart(k, |items|, n, size);
      var at := Offset(k, n, size);
      assert StandsAt(buf, at, items[k]);
      assert buf'[at..at + |items[k]|] == buf[at..at + |items[k]|];
    }
    forall k | r <= k < |items| + 1
      ensures StandsAt(buf', Offset(k, n, size), (items + [item])[k])
    {
    }
  }

  /** The last `n` of some items. */
  function Latest<T>(items: seq<T>, n: nat): seq<T> {
    if |items| > n then items[|items| - n..] else items
  }

  lemma LatestAfter<T>(items: seq<T>, x: T, r: nat, n: nat)
    requires r <= |items| <= r + n && 0 < n
    ensures (items + [x])[if |items| == r + n then r + 1 else r..] == Latest(items[r..] + [x], n)
  {
  }

  lemma LatestAll<T>(items: seq<T>, n: nat)
    ensures |items| <= n ==> Latest(items + [], n) == items
    ensures |Latest(items, n)| <= n
  {
    assert items + [] == items;
  }

  /** A copy loop into a buffer. */
  method Store<T>(buf: array<T>, at: nat, item: seq<T>)
    requires at + |item| <= buf.Length
    modifies buf
    ensures StandsAt(buf[..], at, item)
    ensures SameOutside(old(buf[..]), buf[..], at, at + |item|)
  {
    var i := 0;
    while i < |item|
      invariant 0 <= i <= |item|
      invariant forall j :: 0 <= j < i ==> buf[at + j] == item[j]
      invariant SameOutside(old(buf[..]), buf[..], at, at + |item|)
    {
      buf[at + i] := item[i];
      i := i + 1;
    }
  }

  /** Two stores, one behind the other. */
  lemma StandsAppend<T>(buf: seq<T>, buf': seq<T>, at: nat, a: seq<T>, b: seq<T>)
    requires StandsAt(buf, at, a) && StandsAt(buf', at + |a|, b)
    requires SameOutside(buf, buf', at + |a|, at + |a| + |b|)
    ensures StandsAt(buf', at, a + b)
  {
    var s := buf'[at..at + |a| + |b|];
    forall i | 0 <= i < |a| + |b|
      ensures s[i] == (a + b)[i]
    {
      if i < |a| {
        assert buf[at..at + |a|][i] == buf[at + i];
      } else {
        assert buf'[at + |a|..at + |a| + |b|][i - |a|] == buf'[at + i];
      }
    }
  }

  lemma OutsideBoth<T>(buf: seq<T>, buf': seq<T>, buf'': seq<T>, lo: nat, mid: nat, hi: nat)
    requires lo <= mid <= hi && SameOutside(buf, buf', lo, mid) && SameOutside(buf', buf'', mid, hi)
    ensures SameOutside(buf, buf'', lo, hi)
  {
  }
}
