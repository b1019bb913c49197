/** `key_debounce_filter` and the matrix ring of `kb_scan_key_value`: a bit of the reported
    matrix follows two equal scans, and every change of the reported matrix is queued in a
    ring of four that overwrites its oldest entry. Key repeat is off. */
module KeyScan {
  import opened Arith
  import opened Types
  import opened Bits
  import opened GhostKeys
  import opened Ring

  // ------------------------------------------------------------------- one bit

  /** New report from the last report, the previous raw scan and the current one. */
  function Majority(last: Row, pre: Row, cur: Row): Row {
    (!last & (pre & cur)) | (last & (pre | cur))
  }

  /** The rows agree on all columns of `c`. */
  predicate Agree(x: Row, y: Row, c: Row) { (x ^ y) & c == 0 }

  lemma TwoEqualScansDecide(last: Row, pre: Row, cur: Row, c: Row)
    requires Agree(pre, cur, c)
    ensures Agree(Majority(last, pre, cur), cur, c)
  {
    EqualBitsWin(last, pre, cur, c);
  }

  lemma UnequalScansKeep(last: Row, pre: Row, cur: Row, c: Row)
    requires AtMostOneBit(c) && !Agree(pre, cur, c)
    ensures Agree(Majority(last, pre, cur), last, c)
  {
    SingleBit(pre ^ cur, c);
    UnequalBitsKeep(last, pre, cur, c);
  }

  lemma AgreeSymmetric(x: Row, y: Row, c: Row)
    ensures Agree(x, y, c) <==> Agree(y, x, c)
  {
    assert x ^ y == y ^ x;
  }

  lemma AgreeTransitive(x: Row, y: Row, z: Row, c: Row)
    requires Agree(x, y, c) && Agree(y, z, c)
    ensures Agree(x, z, c)
  {
    EqualBitsChain(x, y, z, c);
  }

  // ------------------------------------------------------------- scan histories

  datatype Filter = Filter(pre: seq<Row>, last: seq<Row>)

  function Blank(n: nat): seq<Row> { seq(n, _ => 0) }

  function FilterStep(f: Filter, raw: seq<Row>, enabled: bool): Filter
    requires |f.pre| == |f.last| == |raw|
  {
    Filter(raw, seq(|raw|, i requires 0 <= i < |raw| =>
      if enabled then Majority(f.last[i], f.pre[i], raw[i]) else raw[i]))
  }

  /** One scan of the matrix, ghosts removed. The filter is off for the scan at power-on and
      at every wake-up. */
  datatype Scan = Scan(rows: seq<Row>, filtered: bool)

  predicate Scans(n: nat, scans: seq<Scan>) {
    forall t :: 0 <= t < |scans| ==> |scans[t].rows| == n
  }

  /** The filter after a history of scans, from power-on. */
  function Debounced(n: nat, scans: seq<Scan>): (f: Filter)
    requires Scans(n, scans)
    ensures |f.pre| == |f.last| == n
  {
    if |scans| == 0 then Filter(Blank(n), Blank(n))
    else
      var scan := scans[|scans| - 1];
      FilterStep(Debounced(n, scans[..|scans| - 1]), scan.rows, scan.filtered)
  }

  /** Scan `t`; before the first one no key is pressed. */
  function RawScan(n: nat, scans: seq<Scan>, t: int): (raw: seq<Row>)
    requires Scans(n, scans) && -1 <= t < |scans|
    ensures |raw| == n
  {
    if t == -1 then Blank(n) else scans[t].rows
  }

  /** The matrix reported after scan `t`. */
  function Reported(n: nat, scans: seq<Scan>, t: int): (m: seq<Row>)
    requires Scans(n, scans) && -1 <= t < |scans|
    ensures |m| == n
  {
    Debounced(n, scans[..t + 1]).last
  }

  lemma ReportedStep(n: nat, scans: seq<Scan>, t: nat, i: nat)
    requires Scans(n, scans) && t < |scans| && i < n
    ensures Reported(n, scans, t)[i] ==
      if scans[t].filtered then Majority(Reported(n, scans, t - 1)[i], RawScan(n, scans, t - 1)[i], scans[t].rows[i])
      else scans[t].rows[i]
  {
    hide Majority;
    assert scans[..t + 1][..t] == scans[..t];
    if t > 0 {
      assert scans[..t][..t - 1] == scans[..t - 1];
    }
  }

  /** Scans `t` and the one before it show the same for the keys of `c` in row `i`. */
  predicate Confirmed(n: nat, scans: seq<Scan>, t: nat, i: nat, c: Row)
    requires Scans(n, scans) && t < |scans| && i < n
  {
    Agree(RawScan(n, scans, t - 1)[i], scans[t].rows[i], c)
  }

  /** Scan `t` decides: it is not filtered, or it confirms the scan before it. */
  predicate Decisive(n: nat, scans: seq<Scan>, t: nat, i: nat, c: Row)
    requires Scans(n, scans) && t < |scans| && i < n
  {
    !scans[t].filtered || Confirmed(n, scans, t, i, c)
  }

  /** A filtered scan: two equal scans in a row force the reported key; otherwise it keeps its
      state. So a reported key changes only when the last two scans both hold its new state. */
  lemma ReportFollowsTwoScans(n: nat, scans: seq<Scan>, t: nat, i: nat, c: Row)
    requires Scans(n, scans) && t < |scans| && i < n && AtMostOneBit(c) && scans[t].filtered
    ensures Confirmed(n, scans, t, i, c) ==>
      && Agree(Reported(n, scans, t)[i], scans[t].rows[i], c)
      && Agree(Reported(n, scans, t)[i], RawScan(n, scans, t - 1)[i], c)
    ensures !Confirmed(n, scans, t, i, c) ==> Agree(Reported(n, scans, t)[i], Reported(n, scans, t - 1)[i], c)
  {
    hide Majority, Agree, AtMostOneBit, Reported, RawScan;
    ReportedStep(n, scans, t, i);
    var last, pre, cur := Reported(n, scans, t - 1)[i], RawScan(n, scans, t - 1)[i], scans[t].rows[i];
    if Confirmed(n, scans, t, i, c) {
      TwoEqualScansDecide(last, pre, cur, c);
      AgreeSymmetric(pre, cur, c);
      AgreeTransitive(Majority(last, pre, cur), cur, pre, c);
    } else {
      UnequalScansKeep(last, pre, cur, c);
    }
  }

  /** A scan that is not filtered is reported as it is. */
  lemma UnfilteredIsReported(n: nat, scans: seq<Scan>, t: nat, i: nat)
    requires Scans(n, scans) && t < |scans| && i < n && !scans[t].filtered
    ensures Reported(n, scans, t)[i] == scans[t].rows[i]
  {
    ReportedStep(n, scans, t, i);
  }

  lemma AgreeItself(x: Row, c: Row)
    ensures Agree(x, x, c)
  {
    assert x ^ x == 0;
  }

  /** What is reported is what the most recent decisive scan showed. */
  lemma {:induction false} ReportIsLastConfirmed(n: nat, scans: seq<Scan>, u: nat, t: nat, i: nat, c: Row)
    requires Scans(n, scans) && u <= t < |scans| && i < n && AtMostOneBit(c)
    requires Decisive(n, scans, u, i, c)
    requires forall s :: u < s <= t ==> !Decisive(n, scans, s, i, c)
    ensures Agree(Reported(n, scans, t)[i], scans[u].rows[i], c)
    decreases t
  {
    hide Agree, AtMostOneBit, Reported, Confirmed;
    if u < t {
      ReportIsLastConfirmed(n, scans, u, t - 1, i, c);
      assert !Decisive(n, scans, t, i, c);
      ReportFollowsTwoScans(n, scans, t, i, c);
      AgreeTransitive(Reported(n, scans, t)[i], Reported(n, scans, t - 1)[i], scans[u].rows[i], c);
    } else if scans[u].filtered {
      ReportFollowsTwoScans(n, scans, u, i, c);
    } else {
      UnfilteredIsReported(n, scans, u, i);
      AgreeItself(scans[u].rows[i], c);
    }
  }

  /** Bouncing is not seen: a reported key keeps its state as long as no two scans in a row
      both differ from it, and no scan that is not filtered does. */
  lemma {:induction false} GlitchesIgnored(n: nat, scans: seq<Scan>, from: nat, t: nat, i: nat, c: Row, v: Row)
    requires Scans(n, scans) && from <= t < |scans| && i < n && AtMostOneBit(c)
    requires Agree(Reported(n, scans, from - 1)[i], v, c)
    requires forall s :: from <= s <= t ==>
      Agree(scans[s].rows[i], v, c) || (scans[s].filtered && Agree(RawScan(n, scans, s - 1)[i], v, c))
    ensures Agree(Reported(n, scans, t)[i], v, c)
    decreases t
  {
    hide Agree, AtMostOneBit, Reported, RawScan;
    if from < t {
      GlitchesIgnored(n, scans, from, t - 1, i, c, v);
    }
    if scans[t].filtered {
      ReportFollowsTwoScans(n, scans, t, i, c);
      var r := Reported(n, scans, t)[i];
      if !Confirmed(n, scans, t, i, c) {
        AgreeTransitive(r, Reported(n, scans, t - 1)[i], v, c);
      } else if Agree(scans[t].rows[i], v, c) {
        AgreeTransitive(r, scans[t].rows[i], v, c);
      } else {
        AgreeTransitive(r, RawScan(n, scans, t - 1)[i], v, c);
      }
    } else {
      UnfilteredIsReported(n, scans, t, i);
    }
  }

  /** The reported matrices that differ from the one reported before them. */
  function Changes(n: nat, scans: seq<Scan>): seq<seq<Row>>
    requires Scans(n, scans)
  {
    if |scans| == 0 then []
    else
      var init := scans[..|scans| - 1];
      var before, after := Debounced(n, init).last, Debounced(n, scans).last;
      Changes(n, init) + (if after != before then [after] else [])
  }

  lemma OneMoreScan(n: nat, scans: seq<Scan>, scan: Scan)
    requires Scans(n, scans) && |scan.rows| == n
    ensures Scans(n, scans + [scan])
    ensures var before, after := Debounced(n, scans), Debounced(n, scans + [scan]);
      && after == FilterStep(before, scan.rows, scan.filtered)
      && Changes(n, scans + [scan]) == Changes(n, scans) + (if after.last != before.last then [after.last] else [])
  {
    hide FilterStep;
    assert (scans + [scan])[..|scans|] == scans;
  }

  // ------------------------------------------------------------ filter and ring

  const RING := 4

  class KeyScanner {
    const n: nat
    const removeGhosts: bool
    const mtrxPre: array<Row>
    const mtrxLast: array<Row>
    const matrixBuff: array<Row>
    var matrixWptr: nat
    var matrixRptr: nat
    /** Every matrix ever queued, and how many of them have left the ring. */
    ghost var log: seq<seq<Row>>
    ghost var removed: nat
    /** The scans so far. */
    ghost var scans: seq<Scan>

    ghost predicate Valid()
      reads this, mtrxPre, mtrxLast, matrixBuff
    {
      RingValid() && Scans(n, scans) && State() == Debounced(n, scans) && log == Changes(n, scans)
    }

    ghost predicate RingValid()
      reads this, mtrxPre, mtrxLast, matrixBuff
    {
      && mtrxPre.Length == mtrxLast.Length == n && matrixBuff.Length == RING * n
      && mtrxPre != mtrxLast && mtrxPre != matrixBuff && mtrxLast != matrixBuff
      && matrixWptr == Low3(|log|) && matrixRptr == Low3(removed)
      && removed <= |log| <= removed + RING && QueueOk(n, matrixBuff[..], log, removed, mtrxLast[..])
    }

    ghost function State(): Filter
      reads mtrxPre, mtrxLast
    {
      Filter(mtrxPre[..], mtrxLast[..])
    }

    /** The queued matrices not yet read, oldest first. */
    ghost function Unread(): seq<seq<Row>>
      requires removed <= |log|
      reads this
    {
      log[removed..]
    }

    constructor (n: nat, removeGhosts: bool)
      ensures Valid() && fresh(mtrxPre) && fresh(mtrxLast) && fresh(matrixBuff)
      ensures this.n == n && this.removeGhosts == removeGhosts
      ensures State() == Debounced(n, []) && log == [] && scans == []
    {
      this.n, this.removeGhosts := n, removeGhosts;
      mtrxPre, mtrxLast := new Row[n](_ => 0), new Row[n](_ => 0);
      matrixBuff := new Row[RING * n](_ => 0);
      matrixWptr, matrixRptr := 0, 0;
      log, removed, scans := [], 0, [];
    }

    /** Filters the matrix in place; the answer is whether the report changed. */
    method DebounceFilter(cur: array<Row>, enabled: bool) returns (changed: bool)
      requires mtrxPre.Length == mtrxLast.Length == n == cur.Length
      requires cur != mtrxPre && cur != mtrxLast && mtrxPre != mtrxLast
      modifies cur, mtrxPre, mtrxLast
      ensures State() == FilterStep(old(State()), old(cur[..]), enabled)
      ensures cur[..] == mtrxLast[..]
      ensures changed <==> mtrxLast[..] != old(mtrxLast[..])
    {
      hide Majority;
      ghost var raws, before := cur[..], State();
      ghost var after, different := FilterStep(before, raws, enabled), 0;
      changed := false;
      var i := 0;
      while i < n
        invariant 0 <= i <= n
        invariant forall k :: 0 <= k < i ==> mtrxPre[k] == raws[k] && cur[k] == mtrxLast[k] == after.last[k]
        invariant forall k :: i <= k < n ==> cur[k] == raws[k]
        invariant forall k :: i <= k < n ==> mtrxPre[k] == before.pre[k] && mtrxLast[k] == before.last[k]
        invariant !changed ==> forall k :: 0 <= k < i ==> mtrxLast[k] == before.last[k]
        invariant changed ==> 0 <= different < i && mtrxLast[different] != before.last[different]
      {
        var differs := FilterRow(cur, i, enabled);
        if differs {
          changed, different := true, i;
        }
        i := i + 1;
      }
      assert mtrxPre[..] == raws && mtrxLast[..] == after.last;
    }

    /** The body of the loop: one row. */
    method FilterRow(cur: array<Row>, i: nat, enabled: bool) returns (differs: bool)
      requires mtrxPre.Length == mtrxLast.Length == n == cur.Length && i < n
      requires cur != mtrxPre && cur != mtrxLast && mtrxPre != mtrxLast
      modifies cur, mtrxPre, mtrxLast
      ensures cur[i] == mtrxLast[i] == if enabled then Majority(old(mtrxLast[i]), old(mtrxPre[i]), old(cur[i])) else old(cur[i])
      ensures mtrxPre[i] == old(cur[i]) && (differs <==> mtrxLast[i] != old(mtrxLast[i]))
      ensures forall k :: 0 <= k < n && k != i ==>
        cur[k] == old(cur[k]) && mtrxPre[k] == old(mtrxPre[k]) && mtrxLast[k] == old(mtrxLast[k])
    {
      var raw := cur[i];
      if enabled {
        cur[i] := Majority(mtrxLast[i], mtrxPre[i], raw);
      }
      differs := cur[i] != mtrxLast[i];
      mtrxPre[i] := raw;
      mtrxLast[i] := cur[i];
    }

    /** One scan: ghosts are removed, the filter runs, a changed report is queued, and one
        queued matrix is taken out if it is asked for. */
    method ScanKeyValue(raw: seq<Row>, invalid: bool, powerOn: bool, readKey: bool) returns (ret: int, m: Option<seq<Row>>)
      requires Valid() && |raw| == n
      modifies this, mtrxPre, mtrxLast, matrixBuff
      ensures Valid() && scans == old(scans) + [Scan(if removeGhosts then Cleaned(raw) else raw, !powerOn)]
      ensures State() == FilterStep(old(State()), if removeGhosts then Cleaned(raw) else raw, !powerOn)
      ensures log == if State().last != old(State()).last then old(log) + [State().last] else old(log)
      ensures var unread := Latest(old(Unread()) + log[|old(log)|..], 4);
        if invalid then ret == 1 && m == None && Unread() == unread
        else if unread == [] || !readKey then ret == 0 && m == None && Unread() == unread
        else ret == 1 && m == Some(unread[0]) && Unread() == unread[1..]
    {
      hide FilterStep, QueueOk, Low3, Latest, Debounced, Changes, Cleaned, Scans;
      ScanOnce(raw, powerOn);
      if invalid {
        return 1, None;
      }
      Distance8(|log|, removed);
      if matrixWptr == matrixRptr || !readKey {
        return 0, None;
      }
      m := Pop();
      ret := 1;
    }

    /** The scan proper, up to the queue. */
    method ScanOnce(raw: seq<Row>, powerOn: bool)
      requires Valid() && |raw| == n
      modifies this, mtrxPre, mtrxLast, matrixBuff
      ensures Valid() && scans == old(scans) + [Scan(if removeGhosts then Cleaned(raw) else raw, !powerOn)]
      ensures State() == FilterStep(old(State()), if removeGhosts then Cleaned(raw) else raw, !powerOn)
      ensures log == if State().last != old(State()).last then old(log) + [State().last] else old(log)
      ensures Unread() == Latest(old(Unread()) + log[|old(log)|..], RING)
    {
      hide FilterStep, QueueOk, Low3, Latest, Blank, Debounced, Changes, Cleaned, Scans;
      var pressed := new Row[n](i requires 0 <= i < |raw| => raw[i]);
      assert pressed[..] == raw;
      if removeGhosts {
        RemoveGhostKeys(pressed);
      }
      OneMoreScan(n, scans, Scan(pressed[..], !powerOn));
      scans := scans + [Scan(pressed[..], !powerOn)];
      var changed := DebounceFilter(pressed, !powerOn);
      assert matrixBuff[..] == old(matrixBuff[..]);
      LatestAll(Unread(), RING);
      if changed {
        Push(pressed, old(mtrxLast[..]));
      }
      assert log[|old(log)|..] == if changed then [mtrxLast[..]] else [];
    }

    /** Queues the reported matrix, over the oldest one if four are waiting. */
    method Push(pressed: array<Row>, ghost last: seq<Row>)
      requires pressed.Length == n && pressed != matrixBuff && matrixBuff.Length == RING * n
      requires matrixWptr == Low3(|log|) && matrixRptr == Low3(removed) && removed <= |log| <= removed + RING
      requires QueueOk(n, matrixBuff[..], log, removed, last) && last != pressed[..]
      modifies this`matrixWptr, this`matrixRptr, this`log, this`removed, matrixBuff
      ensures log == old(log) + [pressed[..]]
      ensures matrixWptr == Low3(|log|) && matrixRptr == Low3(removed)
      ensures removed <= |log| <= removed + RING && Unread() == Latest(old(Unread()) + [pressed[..]], RING)
      ensures QueueOk(n, matrixBuff[..], log, removed, pressed[..])
    {
      hide Low3, Offset, QueueOk, Latest;
      ghost var before, row := matrixBuff[..], pressed[..];
      Low3Offset(|log|, n);
      Store(matrixBuff, Offset(matrixWptr, RING, n), pressed[..]);
      QueueAfterPush(n, before, matrixBuff[..], log, removed, last, row);
      LatestAfter(log, row, removed, RING);
      Low3Step(|log|);
      matrixWptr := Low3(matrixWptr + 1);
      log := log + [row];
      Distance8(|log|, removed);
      if Low3(matrixWptr - matrixRptr) > RING {
        Low3Back(|log|);
        matrixRptr := Low3(matrixWptr - RING);
        removed := |log| - RING;
      }
    }

    method Pop() returns (m: Option<seq<Row>>)
      requires RingValid() && Unread() != []
      modifies this`matrixRptr, this`removed
      ensures RingValid() && log == old(log)
      ensures m == Some(old(Unread())[0]) && Unread() == old(Unread())[1..]
    {
      hide Low3, Offset, QueueOk;
      Low3Offset(removed, n);
      QueueAfterPop(n, matrixBuff[..], log, removed, mtrxLast[..]);
      var at := Offset(matrixRptr, RING, n);
      m := Some(matrixBuff[at..at + n]);
      Low3Step(removed);
      matrixRptr := Low3(matrixRptr + 1);
      removed := removed + 1;
    }
  }

  /** A ring index kept modulo 8, twice the number of slots. */
  function Low3(x: int): (b: nat)
    ensures b < 8
  {
    x % 8
  }

  lemma Low3Step(w: nat)
    ensures Low3(Low3(w) + 1) == Low3(w + 1)
  {
  }

  lemma Low3Back(w: nat)
    requires RING <= w
    ensures Low3(Low3(w) - RING) == Low3(w - RING)
  {
  }

  lemma Distance8(w: nat, r: nat)
    requires r <= w < r + 8
    ensures Low3(Low3(w) - Low3(r)) == w - r
    ensures Low3(w) == Low3(r) <==> w == r
  {
    var d := w / 8 - r / 8;
    assert Low3(w) - Low3(r) == w - r - 8 * d;
    ModUnique(Low3(w) - Low3(r), -d, 8, w - r);
    ModUnique(0, 0, 8, 0);
  }

  lemma Low3Offset(w: nat, n: nat)
    ensures Offset(Low3(w), RING, n) == Offset(w, RING, n)
  {
    assert Low3(w) % RING == w % RING;
  }

  /** The ring holds the queued matrices from `r` on; neighbours differ, the first one is not
      blank, and the last one is what is reported. */
  ghost predicate QueueOk(n: nat, buf: seq<Row>, log: seq<seq<Row>>, r: nat, last: seq<Row>) {
    && Holds(buf, RING, n, log, r)
    && (forall k :: 0 <= k < |log| ==> |log[k]| == n)
    && (forall k :: 0 < k < |log| ==> log[k - 1] != log[k])
    && (|log| > 0 ==> log[0] != Blank(n))
    && last == if |log| == 0 then Blank(n) else log[|log| - 1]
  }

  lemma QueueAfterPush(n: nat, buf: seq<Row>, buf': seq<Row>, log: seq<seq<Row>>, r: nat, last: seq<Row>, row: seq<Row>)
    requires |buf| == RING * n && |row| == n && r <= |log| <= r + RING
    requires QueueOk(n, buf, log, r, last) && last != row
    requires StandsAt(buf', Offset(|log|, RING, n), row)
    requires SameOutside(buf, buf', Offset(|log|, RING, n), Offset(|log|, RING, n) + n)
    ensures QueueOk(n, buf', log + [row], if |log| == r + RING then r + 1 else r, row)
  {
    hide Holds, Offset, StandsAt, SameOutside;
    if |log| == r + RING {
      HoldsAfterDrop(buf, RING, n, log, r);
      HoldsAfterStore(buf, buf', RING, n, log, r + 1, row);
    } else {
      HoldsAfterStore(buf, buf', RING, n, log, r, row);
    }
  }

  lemma QueueAfterPop(n: nat, buf: seq<Row>, log: seq<seq<Row>>, r: nat, last: seq<Row>)
    requires QueueOk(n, buf, log, r, last) && r < |log|
    ensures QueueOk(n, buf, log, r + 1, last) && StandsAt(buf, Offset(r, RING, n), log[r]) && |log[r]| == n
  {
    hide Holds, Offset, StandsAt;
    HeldItem(buf, RING, n, log, r);
    HoldsAfterDrop(buf, RING, n, log, r);
  }
}
