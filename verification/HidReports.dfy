/** The HID reports of keyboard and mouse: a report goes straight to its endpoint, or, while
    the endpoint is busy, into a shared queue of four that drops its oldest entry; the USB
    interrupt re-issues the queued ones. Every packet carries the data toggle of its
    endpoint (section 8.6 of the USB 2.0 specification). */
module HidReports {
  import opened Types
  import opened Ring

  const USB_FIFO_NUM := 4
  const USB_FIFO_SIZE := 8
  const DAT_TYPE_KB: u8 := 1
  const DAT_TYPE_MOUSE: u8 := 2
  const KEYS := 6

  datatype Report = Keyboard(ctrl: u8, keys: seq<u8>) | Mouse(id: u8, data: seq<u8>) {
    predicate Valid() {
      match this
      case Keyboard(_, keys) => |keys| == KEYS
      case Mouse(_, data) => |data| <= 4
    }

    /** The bytes of the report on the wire, in the report protocol. */
    function Bytes(): seq<u8> {
      match this
      case Keyboard(ctrl, keys) => [ctrl, 0] + keys
      case Mouse(id, data) => [id] + data
    }
  }

  // --------------------------------------------------------------- run histories

  datatype Event =
    | Sent(report: Report, toggle: nat)
    | Deferred(report: Report)
    | Dropped(report: Report)
    | Reissued(report: Report, toggle: nat)
    | BusReset

  /** The reports that went into the queue, in order. */
  function Queued(h: seq<Event>): seq<Report> {
    if |h| == 0 then []
    else Queued(h[..|h| - 1]) + (if h[|h| - 1].Deferred? then [h[|h| - 1].report] else [])
  }

  predicate Leaves(e: Event) { e.Dropped? || e.Reissued? }

  /** The reports that left the queue, dropped or re-issued, in order. */
  function Removed(h: seq<Event>): seq<Report> {
    if |h| == 0 then []
    else Removed(h[..|h| - 1]) + (if Leaves(h[|h| - 1]) then [h[|h| - 1].report] else [])
  }

  predicate IsSend(e: Event, keyboard: bool) {
    (e.Sent? || e.Reissued?) && e.report.Keyboard? == keyboard
  }

  /** The packets sent on an endpoint since the last bus reset. */
  function SendsSinceReset(h: seq<Event>, keyboard: bool): nat {
    if |h| == 0 || h[|h| - 1].BusReset? then 0
    else SendsSinceReset(h[..|h| - 1], keyboard) + (if IsSend(h[|h| - 1], keyboard) then 1 else 0)
  }

  /** On each endpoint packets alternate DATA0, DATA1 from DATA0 on after every bus reset. */
  predicate TogglesAlternate(h: seq<Event>) {
    |h| == 0 || (TogglesAlternate(h[..|h| - 1]) && ToggleFits(h[..|h| - 1], h[|h| - 1]))
  }

  /** Every report that went in is still waiting, was dropped, or was re-issued, once and in
      the order of arrival. */
  predicate QueueHistory(h: seq<Event>, waiting: seq<Report>) {
    Queued(h) == Removed(h) + waiting && |waiting| <= USB_FIFO_NUM
  }

  lemma Snoc(h: seq<Event>, e: Event)
    ensures Queued(h + [e]) == if e.Deferred? then Queued(h) + [e.report] else Queued(h)
    ensures Removed(h + [e]) == if Leaves(e) then Removed(h) + [e.report] else Removed(h)
    ensures TogglesAlternate(h + [e]) <==> TogglesAlternate(h) && ToggleFits(h, e)
    ensures SendsSinceReset(h + [e], true) == SendsAfter(h, e, true)
    ensures SendsSinceReset(h + [e], false) == SendsAfter(h, e, false)
  {
    assert (h + [e])[..|h|] == h;
  }

  predicate ToggleFits(h: seq<Event>, e: Event) {
    e.Sent? || e.Reissued? ==> e.toggle == SendsSinceReset(h, e.report.Keyboard?) % 2
  }

  function SendsAfter(h: seq<Event>, e: Event, keyboard: bool): nat {
    if e.BusReset? then 0 else SendsSinceReset(h, keyboard) + (if IsSend(e, keyboard) then 1 else 0)
  }

  // ---------------------------------------------------------------------- slots

  /** A slot of the queue that holds a report; the bytes a mouse report leaves are stale. */
  predicate Encodes(slot: seq<u8>, r: Report) {
    && |slot| == USB_FIFO_SIZE
    && match r
       case Keyboard(ctrl, keys) => slot == [DAT_TYPE_KB, ctrl] + keys
       case Mouse(id, data) =>
         && |data| <= 4 && slot[0] == DAT_TYPE_MOUSE && slot[1] == id && slot[2] == |data|
         && slot[4..4 + |data|] == data
  }

  /** A slot read back gives the report that was stored. */
  lemma SlotReads(slot: seq<u8>, r: Report)
    requires Encodes(slot, r) && r.Valid()
    ensures |slot| == USB_FIFO_SIZE && (slot[0] == DAT_TYPE_KB || slot[0] == DAT_TYPE_MOUSE)
    ensures slot[0] == DAT_TYPE_KB ==> r == Keyboard(slot[1], slot[2..8])
    ensures slot[0] == DAT_TYPE_MOUSE ==> slot[2] <= 4 && r == Mouse(slot[1], slot[4..][..slot[2]])
  {
  }

  /** Entries `r..` of the queue stand in the ring. */
  predicate SlotsHold(buf: seq<u8>, slots: seq<seq<u8>>, log: seq<Report>, r: nat) {
    && |slots| == |log| && Holds(buf, USB_FIFO_NUM, USB_FIFO_SIZE, slots, r)
    && forall k :: 0 <= k < |log| ==> log[k].Valid() && Encodes(slots[k], log[k])
  }

  /** The queue part of a history: what waits stands in the ring. */
  ghost predicate QueueHolds(h: seq<Event>, buf: seq<u8>, slots: seq<seq<u8>>) {
    && Removed(h) <= Queued(h) && QueueHistory(h, WaitingIn(h))
    && SlotsHold(buf, slots, Queued(h), |Removed(h)|)
  }

  function WaitingIn(h: seq<Event>): seq<Report>
    requires Removed(h) <= Queued(h)
  {
    Queued(h)[|Removed(h)|..]
  }

  predicate TogglesFit(h: seq<Event>, toggleKb: nat, toggleMouse: nat) {
    && TogglesAlternate(h)
    && toggleKb == SendsSinceReset(h, true) % 2 && toggleMouse == SendsSinceReset(h, false) % 2
  }

  // --------------------------------------------------- what an event does to both

  lemma TogglesAfterSend(h: seq<Event>, r: Report, again: bool, toggleKb: nat, toggleMouse: nat)
    requires TogglesFit(h, toggleKb, toggleMouse)
    ensures toggleKb <= 1 && toggleMouse <= 1
    ensures var toggle := if r.Keyboard? then toggleKb else toggleMouse;
      var e := if again then Reissued(r, toggle) else Event.Sent(r, toggle);
      TogglesFit(h + [e], if r.Keyboard? then 1 - toggleKb else toggleKb, if r.Keyboard? then toggleMouse else 1 - toggleMouse)
  {
    hide TogglesAlternate, SendsSinceReset, Queued, Removed;
    var toggle := if r.Keyboard? then toggleKb else toggleMouse;
    Snoc(h, if again then Reissued(r, toggle) else Event.Sent(r, toggle));
    Flip(SendsSinceReset(h, true));
    Flip(SendsSinceReset(h, false));
  }

  lemma Flip(n: nat)
    ensures (n + 1) % 2 == 1 - n % 2
  {
  }

  lemma TogglesAfterOther(h: seq<Event>, e: Event, toggleKb: nat, toggleMouse: nat)
    requires TogglesFit(h, toggleKb, toggleMouse) && (e.Deferred? || e.Dropped?)
    ensures TogglesFit(h + [e], toggleKb, toggleMouse)
  {
    hide TogglesAlternate, SendsSinceReset, Queued, Removed;
    Snoc(h, e);
  }

  lemma TogglesAfterReset(h: seq<Event>, toggleKb: nat, toggleMouse: nat)
    requires TogglesFit(h, toggleKb, toggleMouse)
    ensures TogglesFit(h + [BusReset], 0, 0)
  {
    hide TogglesAlternate, SendsSinceReset, Queued, Removed;
    Snoc(h, BusReset);
  }

  lemma QueueAfterOther(h: seq<Event>, buf: seq<u8>, slots: seq<seq<u8>>, e: Event)
    requires QueueHolds(h, buf, slots) && (e.Sent? || e.BusReset?)
    ensures QueueHolds(h + [e], buf, slots) && WaitingIn(h + [e]) == WaitingIn(h)
    ensures Queued(h + [e]) == Queued(h) && Removed(h + [e]) == Removed(h)
  {
    hide SlotsHold, Queued, Removed, TogglesAlternate, SendsSinceReset;
    Snoc(h, e);
  }

  /** The oldest waiting report leaves. */
  lemma QueueAfterLeaving(h: seq<Event>, buf: seq<u8>, slots: seq<seq<u8>>, e: Event)
    requires QueueHolds(h, buf, slots) && WaitingIn(h) != [] && Leaves(e) && e.report == WaitingIn(h)[0]
    ensures QueueHolds(h + [e], buf, slots) && WaitingIn(h + [e]) == WaitingIn(h)[1..]
    ensures Queued(h + [e]) == Queued(h) && |Removed(h + [e])| == |Removed(h)| + 1
  {
    hide SlotsHold, Queued, Removed, TogglesAlternate, SendsSinceReset;
    Snoc(h, e);
    var w, first := Queued(h), |Removed(h)|;
    assert w == Removed(h) + WaitingIn(h);
    SlotsKeepRest(buf, slots, w, first);
  }

  lemma SlotsKeepRest(buf: seq<u8>, slots: seq<seq<u8>>, log: seq<Report>, r: nat)
    requires SlotsHold(buf, slots, log, r) && r < |log|
    ensures SlotsHold(buf, slots, log, r + 1)
  {
    hide Holds, Encodes;
    HoldsAfterDrop(buf, USB_FIFO_NUM, USB_FIFO_SIZE, slots, r);
  }

  /** A report joins the queue and, with four waiting, the oldest one is dropped. */
  lemma QueueAfterDefer(h: seq<Event>, buf: seq<u8>, buf': seq<u8>, slots: seq<seq<u8>>, slot: seq<u8>, r: Report)
    requires |buf| == USB_FIFO_NUM * USB_FIFO_SIZE && QueueHolds(h, buf, slots) && r.Valid() && Encodes(slot, r)
    requires var at := Offset(|Queued(h)|, USB_FIFO_NUM, USB_FIFO_SIZE);
      StandsAt(buf', at, slot) && SameOutside(buf, buf', at, at + USB_FIFO_SIZE)
    ensures var h' := AfterDefer(h, WaitingIn(h), r);
      && QueueHolds(h', buf', slots + [slot])
      && WaitingIn(h') == Latest(WaitingIn(h) + [r], USB_FIFO_NUM)
      && |Queued(h')| == |Queued(h)| + 1
      && |Removed(h')| == |Removed(h)| + (if |WaitingIn(h)| == USB_FIFO_NUM then 1 else 0)
  {
    hide SlotsHold, Encodes, Offset, StandsAt, SameOutside, Queued, Removed, TogglesAlternate, SendsSinceReset;
    var w, first, waiting := Queued(h), |Removed(h)|, WaitingIn(h);
    assert w == Removed(h) + waiting;
    SlotsAfterStore(buf, buf', slots, w, first, slot, r);
    LatestAfter(w, r, first, USB_FIFO_NUM);
    Snoc(h, Deferred(r));
    assert w + [r] == Removed(h) + (waiting + [r]);
    if |waiting| == USB_FIFO_NUM {
      var h1 := h + [Deferred(r)];
      Snoc(h1, Dropped(waiting[0]));
      assert AfterDefer(h, waiting, r) == h1 + [Dropped(waiting[0])];
      assert w + [r] == (Removed(h) + [waiting[0]]) + (waiting[1..] + [r]);
    } else {
      assert AfterDefer(h, waiting, r) == h + [Deferred(r)];
    }
  }

  lemma TogglesAfterDefer(h: seq<Event>, waiting: seq<Report>, r: Report, toggleKb: nat, toggleMouse: nat)
    requires TogglesFit(h, toggleKb, toggleMouse)
    ensures TogglesFit(AfterDefer(h, waiting, r), toggleKb, toggleMouse)
  {
    hide TogglesFit;
    TogglesAfterOther(h, Deferred(r), toggleKb, toggleMouse);
    if |waiting| == USB_FIFO_NUM {
      TogglesAfterOther(h + [Deferred(r)], Dropped(waiting[0]), toggleKb, toggleMouse);
    } else {
      assert AfterDefer(h, waiting, r) == h + [Deferred(r)];
    }
  }

  class HidReporter {
    const usbFifo: array<u8>
    var wptr: nat
    var rptr: nat
    var toggleKb: nat
    var toggleMouse: nat
    var reportProtocol: bool
    ghost var history: seq<Event>
    ghost var slots: seq<seq<u8>>

    ghost predicate Valid()
      reads this, usbFifo
    {
      && usbFifo.Length == USB_FIFO_NUM * USB_FIFO_SIZE
      && QueueHolds(history, usbFifo[..], slots)
      && wptr == Low8(|Queued(history)|) && rptr == Low8(|Removed(history)|)
      && TogglesFit(history, toggleKb, toggleMouse)
    }

    /** The deferred reports, oldest first. */
    ghost function Waiting(): seq<Report>
      requires Removed(history) <= Queued(history)
      reads `history
    {
      WaitingIn(history)
    }

    constructor ()
      ensures Valid() && fresh(usbFifo) && history == []
    {
      usbFifo := new u8[USB_FIFO_NUM * USB_FIFO_SIZE](_ => 0);
      wptr, rptr, toggleKb, toggleMouse, reportProtocol := 0, 0, 0, 0, false;
      history, slots := [], [];
    }

    /** The reset part of the USB interrupt. */
    method OnBusReset()
      requires Valid()
      modifies `toggleKb, `toggleMouse, `reportProtocol, `history
      ensures Valid() && reportProtocol && toggleKb == toggleMouse == 0 && history == old(history) + [BusReset] && Waiting() == old(Waiting())
    {
      hide Low8, QueueHolds, WaitingIn, TogglesFit, Queued, Removed;
      QueueFacts(history, usbFifo[..], slots);
      QueueAfterOther(history, usbFifo[..], slots, BusReset);
      TogglesAfterReset(history, toggleKb, toggleMouse);
      reportProtocol, toggleKb, toggleMouse := true, 0, 0;
      history := history + [BusReset];
    }

    /** Puts a report into the queue; with four waiting, the oldest one is given up. */
    method Defer(r: Report)
      requires Valid() && r.Valid()
      modifies `wptr, `rptr, `history, `slots, usbFifo
      ensures Valid()
      ensures history == AfterDefer(old(history), old(Waiting()), r)
      ensures Waiting() == Latest(old(Waiting()) + [r], USB_FIFO_NUM)
    {
      hide Low8, Offset, QueueHolds, WaitingIn, TogglesFit, Encodes, Latest, SameOutside, StandsAt, Queued, Removed, AfterDefer;
      QueueFacts(history, usbFifo[..], slots);
      ghost var before, n := usbFifo[..], |Queued(history)|;
      WrappedOffset(n, USB_FIFO_NUM, USB_FIFO_SIZE);
      ghost var slot := StoreReport(Offset(wptr, USB_FIFO_NUM, USB_FIFO_SIZE), r);
      QueueAfterDefer(history, before, usbFifo[..], slots, slot, r);
      TogglesAfterDefer(history, WaitingIn(history), r, toggleKb, toggleMouse);
      Advance(n, |Removed(history)|);
      slots := slots + [slot];
      history := AfterDefer(history, WaitingIn(history), r);
    }

    /** The write counter moves on, and the read counter with it when five would wait. */
    method Advance(ghost queued: nat, ghost removed: nat)
      requires removed <= queued <= removed + USB_FIFO_NUM && wptr == Low8(queued) && rptr == Low8(removed)
      modifies `wptr, `rptr
      ensures wptr == Low8(queued + 1)
      ensures rptr == Low8(if queued == removed + USB_FIFO_NUM then removed + 1 else removed)
    {
      hide Low8;
      Increment(queued);
      Increment(removed);
      MaskedDistance(queued + 1, removed, 2 * USB_FIFO_NUM);
      wptr := Low8(wptr + 1);
      if (wptr - rptr) % (2 * USB_FIFO_NUM) > USB_FIFO_NUM {
        rptr := Low8(rptr + 1);
      }
    }

    /** The bytes of a report, stored in a slot. */
    method StoreReport(at: nat, r: Report) returns (ghost slot: seq<u8>)
      requires at + USB_FIFO_SIZE <= usbFifo.Length && r.Valid()
      modifies usbFifo
      ensures Encodes(slot, r) && StandsAt(usbFifo[..], at, slot)
      ensures SameOutside(old(usbFifo[..]), usbFifo[..], at, at + USB_FIFO_SIZE)
    {
      hide SameOutside, StandsAt;
      ghost var before := usbFifo[..];
      match r {
        case Keyboard(ctrl, keys) =>
          Store(usbFifo, at, [DAT_TYPE_KB, ctrl]);
          ghost var middle := usbFifo[..];
          Store(usbFifo, at + 2, keys);
          slot := [DAT_TYPE_KB, ctrl] + keys;
          StandsAppend(middle, usbFifo[..], at, [DAT_TYPE_KB, ctrl], keys);
          OutsideBoth(before, middle, usbFifo[..], at, at + 2, at + USB_FIFO_SIZE);
        case Mouse(id, data) =>
          StoreMouse(at, id, data);
          slot := usbFifo[at..at + USB_FIFO_SIZE];
          MouseSlot(before, usbFifo[..], at, id, data);
      }
    }

    /** The bytes of a mouse report. Nothing keeps a long one inside its slot. */
    method StoreMouse(at: nat, id: u8, data: seq<u8>)
      requires |data| < 8 && at + 4 + |data| <= usbFifo.Length
      modifies usbFifo
      ensures MouseStored(old(usbFifo[..]), usbFifo[..], at, id, data)
    {
      hide MouseStored;
      ghost var before := usbFifo[..];
      usbFifo[at], usbFifo[at + 1], usbFifo[at + 2] := DAT_TYPE_MOUSE, id, |data|;
      var i := 0;
      while i < |data|
        invariant 0 <= i <= |data|
        invariant forall k :: 0 <= k < at || k == at + 3 || at + 4 + i <= k < usbFifo.Length ==> usbFifo[k] == before[k]
        invariant usbFifo[at] == DAT_TYPE_MOUSE && usbFifo[at + 1] == id && usbFifo[at + 2] == |data|
        invariant forall k :: 0 <= k < i ==> usbFifo[at + 4 + k] == data[k]
      {
        usbFifo[at + 4 + i] := data[i];
        i := i + 1;
      }
      StoredBytes(before, usbFifo[..], at, id, data);
    }

    /** `usbkb_hid_report_normal`: the keyboard report goes out, or is deferred. */
    method KeyboardReport(ctrl: u8, keys: seq<u8>, busy: bool) returns (wire: Option<seq<u8>>)
      requires Valid() && |keys| == KEYS
      modifies this, usbFifo
      ensures Valid() && (busy <==> wire == None)
      ensures busy ==> history == AfterDefer(old(history), old(Waiting()), Keyboard(ctrl, keys))
      ensures busy ==> Waiting() == Latest(old(Waiting()) + [Keyboard(ctrl, keys)], 4)
      ensures !busy ==> history == old(history) + [Sent(Keyboard(ctrl, keys), old(toggleKb))]
      ensures !busy ==> Waiting() == old(Waiting()) && wire == Some(Keyboard(ctrl, keys).Bytes())
      ensures !busy ==> |wire.value| == 8 && wire.value[0] == ctrl && wire.value[1] == 0 && wire.value[2..] == keys
      ensures toggleKb == (if busy then old(toggleKb) else 1 - old(toggleKb)) && toggleMouse == old(toggleMouse)
    {
      hide Low8, QueueHolds, WaitingIn, TogglesFit, Latest, Queued, Removed, AfterDefer;
      QueueFacts(history, usbFifo[..], slots);
      if busy {
        Defer(Keyboard(ctrl, keys));
        wire := None;
      } else {
        ghost var e := Sent(Keyboard(ctrl, keys), toggleKb);
        QueueAfterOther(history, usbFifo[..], slots, e);
        TogglesAfterSend(history, e.report, false, toggleKb, toggleMouse);
        history := history + [e];
        wire := Some([ctrl, 0] + keys);
        toggleKb := 1 - toggleKb;
      }
    }

    /** `usbmouse_hid_report`: the mouse report goes out, or is deferred. In the boot
        protocol the first three bytes at `data` are sent, whatever `cnt` says. A report of
        five to seven bytes is stored like any other; what that does is `MouseFits` below. */
    method MouseReport(id: u8, data: seq<u8>, cnt: nat, busy: bool) returns (wire: Option<seq<u8>>)
      requires Valid() && cnt < 8 && cnt <= |data| && 3 <= |data|
      requires busy && cnt > 4 ==> Offset(|Queued(history)|, USB_FIFO_NUM, USB_FIFO_SIZE) + 4 + cnt <= usbFifo.Length
      modifies this, usbFifo
      ensures busy <==> wire == None
      ensures !busy || cnt <= 4 ==> Valid()
      ensures busy && cnt <= 4 ==> history == AfterDefer(old(history), old(Waiting()), Mouse(id, data[..cnt]))
      ensures busy && cnt <= 4 ==> Waiting() == Latest(old(Waiting()) + [Mouse(id, data[..cnt])], 4)
      ensures busy && cnt > 4 ==>
        MouseStored(old(usbFifo[..]), usbFifo[..], Offset(|old(Queued(history))|, USB_FIFO_NUM, USB_FIFO_SIZE), id, data[..cnt])
      ensures busy ==> wptr == Low8(|old(Queued(history))| + 1)
      ensures !busy ==> history == old(history) + [Sent(Mouse(id, data[..cnt]), old(toggleMouse))]
      ensures !busy ==> Waiting() == old(Waiting())
      ensures !busy && reportProtocol ==> |wire.value| == 1 + cnt && wire.value[0] == id && wire.value[1..] == data[..cnt]
      ensures !busy && !reportProtocol ==> wire.value == data[..3]
      ensures toggleMouse == (if busy then old(toggleMouse) else 1 - old(toggleMouse)) && toggleKb == old(toggleKb)
      ensures reportProtocol == old(reportProtocol)
    {
      hide Low8, QueueHolds, WaitingIn, TogglesFit, Latest, MouseBytes, Queued, Removed, AfterDefer, Offset, MouseStored;
      QueueFacts(history, usbFifo[..], slots);
      if busy && cnt <= 4 {
        ghost var n := |Queued(history)|;
        DeferCount(history, WaitingIn(history), Mouse(id, data[..cnt]));
        Defer(Mouse(id, data[..cnt]));
        wire := None;
      } else if busy {
        WrappedOffset(|Queued(history)|, USB_FIFO_NUM, USB_FIFO_SIZE);
        StoreMouse(Offset(wptr, USB_FIFO_NUM, USB_FIFO_SIZE), id, data[..cnt]);
        Advance(|Queued(history)|, |Removed(history)|);
        wire := None;
      } else {
        ghost var e := Sent(Mouse(id, data[..cnt]), toggleMouse);
        QueueAfterOther(history, usbFifo[..], slots, e);
        TogglesAfterSend(history, e.report, false, toggleKb, toggleMouse);
        history := history + [e];
        wire := Some(MouseBytes(reportProtocol, id, data, cnt));
        MouseOrder(reportProtocol, id, data, cnt);
        toggleMouse := 1 - toggleMouse;
      }
    }

    /** `usb_hid_report_fifo_proc`: the oldest deferred report is re-issued if its endpoint
        is free; otherwise everything stays as it is. */
    method FifoProc(busyKb: bool, busyMouse: bool) returns (wire: Option<seq<u8>>)
      requires Valid()
      modifies `rptr, `history, `toggleKb, `toggleMouse
      ensures Valid()
      ensures wire.Some? <==> old(Waiting()) != [] && !(if old(Waiting())[0].Keyboard? then busyKb else busyMouse)
      ensures wire == None ==> history == old(history)
      ensures wire.Some? ==> var r := old(Waiting())[0];
        && Waiting() == old(Waiting())[1..]
        && history == old(history) + [Reissued(r, if r.Keyboard? then old(toggleKb) else old(toggleMouse))]
        && (r.Keyboard? ==> wire == Some([r.ctrl, 0] + r.keys))
        && (r.Mouse? && reportProtocol ==> wire == Some([r.id] + r.data))
        && (r.Mouse? && !reportProtocol ==> IsBootReport(wire.value, r.data))
    {
      hide Low8, Offset, QueueHolds, WaitingIn, TogglesFit, Encodes, Queued, Removed, MouseBytes, IsBootReport;
      wire := None;
      QueueFacts(history, usbFifo[..], slots);
      Distance(|Queued(history)|, |Removed(history)|);
      if rptr == wptr {
        return;
      }
      ghost var r := WaitingIn(history)[0];
      WrappedOffset(|Removed(history)|, USB_FIFO_NUM, USB_FIFO_SIZE);
      OldestSlot(history, usbFifo[..], slots);
      var at := Offset(rptr, USB_FIFO_NUM, USB_FIFO_SIZE);
      var slot := usbFifo[at..at + USB_FIFO_SIZE];
      SlotReads(slot, r);
      if slot[0] == DAT_TYPE_KB {
        if busyKb {
          return;
        }
        wire := Some([slot[1], 0] + slot[2..8]);
        Reissue(true);
      } else if slot[0] == DAT_TYPE_MOUSE {
        if busyMouse {
          return;
        }
        wire := Some(MouseBytes(reportProtocol, slot[1], slot[4..], slot[2]));
        MouseOnWire(slot, r, reportProtocol);
        Reissue(false);
      }
    }

    /** The oldest report has gone out: its toggle flips and the read counter moves on. */
    method Reissue(keyboard: bool)
      requires Valid() && Waiting() != [] && keyboard == Waiting()[0].Keyboard?
      modifies `rptr, `history, `toggleKb, `toggleMouse
      ensures Valid() && Waiting() == old(Waiting())[1..]
      ensures history == old(history) + [Reissued(old(Waiting())[0], if keyboard then old(toggleKb) else old(toggleMouse))]
    {
      hide Low8, QueueHolds, WaitingIn, TogglesFit, Queued, Removed;
      QueueFacts(history, usbFifo[..], slots);
      ghost var e := Reissued(WaitingIn(history)[0], if keyboard then toggleKb else toggleMouse);
      QueueAfterLeaving(history, usbFifo[..], slots, e);
      TogglesAfterSend(history, e.report, true, toggleKb, toggleMouse);
      Increment(|Removed(history)|);
      if keyboard {
        toggleKb := 1 - toggleKb;
      } else {
        toggleMouse := 1 - toggleMouse;
      }
      rptr := Low8(rptr + 1);
      history := history + [e];
    }

    /** In every run: each deferred report is waiting, was dropped or was re-issued, once, in
        the order of arrival; four wait at most; and the packets of each endpoint alternate
        DATA0, DATA1 from DATA0 on after every bus reset. */
    lemma Conservation()
      requires Valid()
      ensures Removed(history) <= Queued(history)
      ensures Queued(history) == Removed(history) + Waiting() && |Waiting()| <= 4
      ensures Tally(history, (e: Event) => e.Deferred?)
           == Tally(history, (e: Event) => e.Dropped?) + Tally(history, (e: Event) => e.Reissued?) + |Waiting()|
      ensures Alternating(history)
    {
      hide SlotsHold, Low8;
      LengthsAreTallies(history);
      AllTogglesFit(history);
      hide ToggleFits, TogglesAlternate;
      FitsAlternate(history);
    }
  }

  /** On each endpoint the first packet after a bus reset, and the first of all, is DATA0, and
      of two successive ones without a bus reset between them one is DATA0 and one DATA1. */
  ghost predicate Alternating(h: seq<Event>) {
    forall keyboard: bool, j: nat | j < |h| && IsSend(h[j], keyboard) ::
      && (Quiet(h, 0, j, keyboard) ==> h[j].toggle == 0)
      && (forall i: nat | i < j && h[i].BusReset? && Quiet(h, i + 1, j, keyboard) :: h[j].toggle == 0)
      && (forall i: nat | i < j && IsSend(h[i], keyboard) && Quiet(h, i + 1, j, keyboard) :: h[i].toggle + h[j].toggle == 1)
  }

  /** Between two events there is no packet of the endpoint and no bus reset. */
  predicate Quiet(h: seq<Event>, from: nat, end: nat, keyboard: bool)
    requires end <= |h|
  {
    forall k :: from <= k < end ==> !IsSend(h[k], keyboard) && !h[k].BusReset?
  }

  lemma {:induction false} CountWhileQuiet(h: seq<Event>, from: nat, end: nat, keyboard: bool)
    requires from <= end <= |h| && Quiet(h, from, end, keyboard)
    ensures SendsSinceReset(h[..end], keyboard) == SendsSinceReset(h[..from], keyboard)
    decreases end
  {
    if from < end {
      CountWhileQuiet(h, from, end - 1, keyboard);
      assert h[..end][..end - 1] == h[..end - 1] && h[..end][end - 1] == h[end - 1];
    }
  }

  lemma FitsAlternate(h: seq<Event>)
    requires forall k :: 0 <= k < |h| ==> ToggleFits(h[..k], h[k])
    ensures Alternating(h)
  {
    hide Quiet, SendsSinceReset;
    forall keyboard: bool, j: nat | j < |h| && IsSend(h[j], keyboard)
      ensures Quiet(h, 0, j, keyboard) ==> h[j].toggle == 0
      ensures forall i: nat | i < j && h[i].BusReset? && Quiet(h, i + 1, j, keyboard) :: h[j].toggle == 0
      ensures forall i: nat | i < j && IsSend(h[i], keyboard) && Quiet(h, i + 1, j, keyboard) :: h[i].toggle + h[j].toggle == 1
    {
      if Quiet(h, 0, j, keyboard) {
        CountWhileQuiet(h, 0, j, keyboard);
        NoSends(h, keyboard);
      }
      forall i: nat | i < j && Quiet(h, i + 1, j, keyboard) && (h[i].BusReset? || IsSend(h[i], keyboard))
        ensures h[i].BusReset? ==> h[j].toggle == 0
        ensures IsSend(h[i], keyboard) ==> h[i].toggle + h[j].toggle == 1
      {
        CountWhileQuiet(h, i + 1, j, keyboard);
        OneMoreSend(h, i, keyboard);
      }
    }
  }

  lemma NoSends(h: seq<Event>, keyboard: bool)
    ensures SendsSinceReset(h[..0], keyboard) == 0
  {
  }

  lemma OneMoreSend(h: seq<Event>, i: nat, keyboard: bool)
    requires i < |h|
    ensures h[i].BusReset? ==> SendsSinceReset(h[..i + 1], keyboard) == 0
    ensures IsSend(h[i], keyboard) ==> SendsSinceReset(h[..i + 1], keyboard) == SendsSinceReset(h[..i], keyboard) + 1
  {
    assert h[..i + 1][..i] == h[..i];
  }

  /** Every event of a history carries the toggle that is due. */
  lemma {:induction false} AllTogglesFit(h: seq<Event>)
    requires TogglesAlternate(h)
    ensures forall k :: 0 <= k < |h| ==> ToggleFits(h[..k], h[k])
  {
    hide ToggleFits;
    if |h| > 0 {
      var n := |h| - 1;
      AllTogglesFit(h[..n]);
      forall k | 0 <= k < |h|
        ensures ToggleFits(h[..k], h[k])
      {
        if k < n {
          assert h[..n][..k] == h[..k] && ToggleFits(h[..n][..k], h[..n][k]);
        }
      }
    }
  }

  lemma QueueFacts(h: seq<Event>, buf: seq<u8>, slots: seq<seq<u8>>)
    requires QueueHolds(h, buf, slots)
    ensures Removed(h) <= Queued(h) && |WaitingIn(h)| == |Queued(h)| - |Removed(h)| <= USB_FIFO_NUM
  {
    hide SlotsHold, Queued, Removed;
  }

  lemma DeferCount(h: seq<Event>, waiting: seq<Report>, r: Report)
    ensures |Queued(AfterDefer(h, waiting, r))| == |Queued(h)| + 1
  {
    hide Queued, Removed, TogglesAlternate, SendsSinceReset;
    Snoc(h, Deferred(r));
    if |waiting| == USB_FIFO_NUM {
      Snoc(h + [Deferred(r)], Dropped(waiting[0]));
    } else {
      assert AfterDefer(h, waiting, r) == h + [Deferred(r)];
    }
  }

  /** The oldest waiting report stands in its slot. */
  lemma OldestSlot(h: seq<Event>, buf: seq<u8>, slots: seq<seq<u8>>)
    requires |buf| == USB_FIFO_NUM * USB_FIFO_SIZE && QueueHolds(h, buf, slots) && |Removed(h)| < |Queued(h)|
    ensures var at := Offset(|Removed(h)|, USB_FIFO_NUM, USB_FIFO_SIZE);
      && at + USB_FIFO_SIZE <= |buf| && WaitingIn(h) != []
      && Encodes(buf[at..at + USB_FIFO_SIZE], WaitingIn(h)[0]) && WaitingIn(h)[0].Valid()
  {
    hide SlotsHold, Offset, Encodes, Queued, Removed;
    SlotsAfterDrop(buf, slots, Queued(h), |Removed(h)|);
  }

  /** What a mouse report read from its slot sends. */
  lemma MouseOrder(reportProtocol: bool, id: u8, data: seq<u8>, cnt: nat)
    requires cnt <= |data| && 3 <= |data|
    ensures var bytes := MouseBytes(reportProtocol, id, data, cnt);
      if reportProtocol then |bytes| == 1 + cnt && bytes[0] == id && bytes[1..] == data[..cnt] else bytes == data[..3]
  {
  }

  lemma MouseOnWire(slot: seq<u8>, r: Report, reportProtocol: bool)
    requires Encodes(slot, r) && r.Mouse?
    ensures |slot| == USB_FIFO_SIZE && slot[2] == |r.data| <= 4
    ensures var bytes := MouseBytes(reportProtocol, slot[1], slot[4..], slot[2]);
      if reportProtocol then bytes == r.Bytes() else IsBootReport(bytes, r.data)
  {
    assert slot[4..][..slot[2]] == slot[4..4 + slot[2]];
    if !reportProtocol {
      BootReport(slot, r);
    }
  }

  function MouseBytes(reportProtocol: bool, id: u8, data: seq<u8>, cnt: nat): seq<u8>
    requires cnt <= |data| && 3 <= |data|
  {
    if reportProtocol then [id] + data[..cnt] else data[..3]
  }

  /** Three bytes, the first of them the report's own data. */
  predicate IsBootReport(bytes: seq<u8>, data: seq<u8>) {
    |bytes| == 3 && (if |data| <= 3 then data <= bytes else bytes <= data)
  }

  lemma BootReport(slot: seq<u8>, r: Report)
    requires Encodes(slot, r) && r.Mouse?
    ensures |slot| == USB_FIFO_SIZE && slot[2] == |r.data| && IsBootReport(MouseBytes(false, slot[1], slot[4..], slot[2]), r.data)
  {
    var bytes := slot[4..][..3];
    forall k | 0 <= k < 3 && k < |r.data|
      ensures bytes[k] == r.data[k]
    {
      assert slot[4..4 + |r.data|][k] == slot[4 + k];
    }
  }

  function AfterDefer(h: seq<Event>, waiting: seq<Report>, r: Report): seq<Event> {
    h + [Deferred(r)] + (if |waiting| == USB_FIFO_NUM then [Dropped(waiting[0])] else [])
  }

  /** `buf'` is `buf` with a mouse report stored at `at`; the fourth byte is left as it was. */
  predicate MouseStored(buf: seq<u8>, buf': seq<u8>, at: nat, id: u8, data: seq<u8>) {
    && |data| < 8 && at + 4 + |data| <= |buf|
    && buf' == buf[..at] + [DAT_TYPE_MOUSE, id, |data|, buf[at + 3]] + data + buf[at + 4 + |data|..]
  }

  /** Byte by byte. */
  lemma StoredBytes(buf: seq<u8>, buf': seq<u8>, at: nat, id: u8, data: seq<u8>)
    requires |data| < 8 && at + 4 + |data| <= |buf| == |buf'|
    requires forall k :: 0 <= k < at || k == at + 3 || at + 4 + |data| <= k < |buf| ==> buf'[k] == buf[k]
    requires buf'[at] == DAT_TYPE_MOUSE && buf'[at + 1] == id && buf'[at + 2] == |data|
    requires forall k :: 0 <= k < |data| ==> buf'[at + 4 + k] == data[k]
    ensures MouseStored(buf, buf', at, id, data)
  {
    var head: seq<u8> := [DAT_TYPE_MOUSE, id, |data|, buf[at + 3]];
    var end := at + 4 + |data|;
    assert buf'[..at] == buf[..at] && buf'[end..] == buf[end..];
    assert buf'[at..at + 4] == head && buf'[at + 4..end] == data;
    assert buf' == buf'[..at] + buf'[at..at + 4] + buf'[at + 4..end] + buf'[end..];
  }

  lemma MouseSlot(buf: seq<u8>, buf': seq<u8>, at: nat, id: u8, data: seq<u8>)
    requires at + USB_FIFO_SIZE <= |buf| && |data| <= 4 && MouseStored(buf, buf', at, id, data)
    ensures |buf'| == |buf| && SameOutside(buf, buf', at, at + USB_FIFO_SIZE)
    ensures var slot := buf'[at..at + USB_FIFO_SIZE];
      Encodes(slot, Mouse(id, data)) && StandsAt(buf', at, slot)
  {
    var slot := buf'[at..at + USB_FIFO_SIZE];
    assert slot[4..4 + |data|] == buf'[at + 4..at + 4 + |data|] == data;
  }

  /** A mouse report of `n` bytes, stored in the next slot, never damages a waiting report. */
  ghost predicate NeverDamages(n: nat) {
    forall buf: seq<u8>, buf': seq<u8>, slots: seq<seq<u8>>, log: seq<Report>, r: nat, id: u8, data: seq<u8> |
      |data| == n && DeferStep(buf, buf', slots, log, r, id, data) ::
      Holds(buf', USB_FIFO_NUM, USB_FIFO_SIZE, slots, r)
  }

  /** The next slot of a queue with room receives a mouse report. */
  ghost predicate DeferStep(buf: seq<u8>, buf': seq<u8>, slots: seq<seq<u8>>, log: seq<Report>, r: nat, id: u8, data: seq<u8>) {
    && |buf| == USB_FIFO_NUM * USB_FIFO_SIZE && SlotsHold(buf, slots, log, r) && |log| < r + USB_FIFO_NUM
    && MouseStored(buf, buf', Offset(|log|, USB_FIFO_NUM, USB_FIFO_SIZE), id, data)
  }

  /** Of the report lengths below eight, which the mouse code accepts, exactly those up to
      four leave the waiting reports as they are. */
  lemma MouseFits(n: nat)
    requires n < 8
    ensures NeverDamages(n) <==> n <= 4
  {
    if n <= 4 {
      forall buf: seq<u8>, buf': seq<u8>, slots: seq<seq<u8>>, log: seq<Report>, r: nat, id: u8, data: seq<u8> |
        |data| == n && DeferStep(buf, buf', slots, log, r, id, data)
        ensures Holds(buf', USB_FIFO_NUM, USB_FIFO_SIZE, slots, r)
      {
        ShortReport(buf, buf', slots, log, r, id, data);
      }
    } else {
      hide DeferStep;
      var buf, buf', slots, log := LongReport(n);
      assert DeferStep(buf, buf', slots, log, 1, 0, Zeros(n));
    }
  }

  lemma ShortReport(buf: seq<u8>, buf': seq<u8>, slots: seq<seq<u8>>, log: seq<Report>, r: nat, id: u8, data: seq<u8>)
    requires |data| <= 4 && DeferStep(buf, buf', slots, log, r, id, data)
    ensures Holds(buf', USB_FIFO_NUM, USB_FIFO_SIZE, slots, r)
  {
    hide Offset, Encodes, SameOutside, StandsAt, MouseStored;
    var at := Offset(|log|, USB_FIFO_NUM, USB_FIFO_SIZE);
    MouseSlot(buf, buf', at, id, data);
    var slot := buf'[at..at + USB_FIFO_SIZE];
    SlotsAfterStore(buf, buf', slots, log, r, slot, Mouse(id, data));
    WithoutLast(buf', slots, slot, r);
  }

  lemma WithoutLast(buf: seq<u8>, slots: seq<seq<u8>>, slot: seq<u8>, r: nat)
    requires Holds(buf, USB_FIFO_NUM, USB_FIFO_SIZE, slots + [slot], r) && r <= |slots|
    ensures Holds(buf, USB_FIFO_NUM, USB_FIFO_SIZE, slots, r)
  {
    hide Offset, StandsAt;
    forall k | r <= k < |slots|
      ensures StandsAt(buf, Offset(k, USB_FIFO_NUM, USB_FIFO_SIZE), slots[k])
    {
      assert (slots + [slot])[k] == slots[k];
    }
  }

  function Zeros(n: nat): (s: seq<u8>)
    ensures |s| == n
  {
    seq(n, _ => 0)
  }

  function NoKeys(): Report { Keyboard(0, Zeros(KEYS)) }

  /** Three keyboard reports wait in slots 1 to 3, and a mouse report of five zeros or more
      goes into slot 0: its fifth byte lands on the type byte of the oldest report. */
  lemma LongReport(n: nat) returns (buf: seq<u8>, buf': seq<u8>, slots: seq<seq<u8>>, log: seq<Report>)
    requires 4 < n < 8
    ensures DeferStep(buf, buf', slots, log, 1, 0, Zeros(n))
    ensures !Holds(buf', USB_FIFO_NUM, USB_FIFO_SIZE, slots, 1)
  {
    hide Offset, Zeros;
    var slot: seq<u8> := [DAT_TYPE_KB, 0] + Zeros(KEYS);
    buf := slot + slot + slot + slot;
    slots, log := [slot, slot, slot, slot], [NoKeys(), NoKeys(), NoKeys(), NoKeys()];
    var head: seq<u8> := [DAT_TYPE_MOUSE, 0, n, buf[3]];
    buf' := head + Zeros(n) + buf[4 + n..];
    FourSlots(buf, slot);
    SlotOffsets();
    assert buf[..0] + head + Zeros(n) == head + Zeros(n);
    assert MouseStored(buf, buf', 0, 0, Zeros(n));
    Overwritten(n, head, buf[4 + n..]);
    NotStanding(buf', 8, slot);
  }

  lemma SlotOffsets()
    ensures Offset(4, USB_FIFO_NUM, USB_FIFO_SIZE) == 0 && Offset(1, USB_FIFO_NUM, USB_FIFO_SIZE) == 8
    ensures Offset(2, USB_FIFO_NUM, USB_FIFO_SIZE) == 16 && Offset(3, USB_FIFO_NUM, USB_FIFO_SIZE) == 24
  {
  }

  lemma FourSlots(buf: seq<u8>, slot: seq<u8>)
    requires |slot| == 8 && buf == slot + slot + slot + slot
    ensures StandsAt(buf, 8, slot) && StandsAt(buf, 16, slot) && StandsAt(buf, 24, slot)
  {
    assert buf == slot + slot + (slot + slot);
    assert (slot + slot)[8..16] == slot;
  }

  lemma Overwritten(n: nat, head: seq<u8>, rest: seq<u8>)
    requires 4 < n < 8 && |head| == 4 && |rest| == 28 - n
    ensures (head + Zeros(n) + rest)[8] == 0
  {
    assert (head + Zeros(n))[8] == Zeros(n)[4];
  }

  lemma SlotsAfterStore(buf: seq<u8>, buf': seq<u8>, slots: seq<seq<u8>>, log: seq<Report>, r: nat, slot: seq<u8>, rep: Report)
    requires |buf| == USB_FIFO_NUM * USB_FIFO_SIZE && r <= |log| <= r + USB_FIFO_NUM
    requires SlotsHold(buf, slots, log, r) && rep.Valid() && Encodes(slot, rep)
    requires StandsAt(buf', Offset(|log|, USB_FIFO_NUM, USB_FIFO_SIZE), slot)
    requires SameOutside(buf, buf', Offset(|log|, USB_FIFO_NUM, USB_FIFO_SIZE), Offset(|log|, USB_FIFO_NUM, USB_FIFO_SIZE) + USB_FIFO_SIZE)
    ensures SlotsHold(buf', slots + [slot], log + [rep], if |log| == r + USB_FIFO_NUM then r + 1 else r)
  {
    hide Holds, Offset, StandsAt, SameOutside;
    if |log| == r + USB_FIFO_NUM {
      HoldsAfterDrop(buf, USB_FIFO_NUM, USB_FIFO_SIZE, slots, r);
      HoldsAfterStore(buf, buf', USB_FIFO_NUM, USB_FIFO_SIZE, slots, r + 1, slot);
    } else {
      HoldsAfterStore(buf, buf', USB_FIFO_NUM, USB_FIFO_SIZE, slots, r, slot);
    }
  }

  lemma SlotsAfterDrop(buf: seq<u8>, slots: seq<seq<u8>>, log: seq<Report>, r: nat)
    requires |buf| == USB_FIFO_NUM * USB_FIFO_SIZE && SlotsHold(buf, slots, log, r) && r < |log|
    ensures SlotsHold(buf, slots, log, r + 1)
    ensures var at := Offset(r, USB_FIFO_NUM, USB_FIFO_SIZE);
      at + USB_FIFO_SIZE <= |buf| && Encodes(buf[at..at + USB_FIFO_SIZE], log[r]) && log[r].Valid()
  {
    hide Holds, Offset;
    HoldsAfterDrop(buf, USB_FIFO_NUM, USB_FIFO_SIZE, slots, r);
    HeldItem(buf, USB_FIFO_NUM, USB_FIFO_SIZE, slots, r);
  }

  // ----------------------------------------------------------------- consequences

  function Tally(h: seq<Event>, p: Event -> bool): nat {
    if |h| == 0 then 0 else Tally(h[..|h| - 1], p) + (if p(h[|h| - 1]) then 1 else 0)
  }

  lemma {:induction false} LengthsAreTallies(h: seq<Event>)
    ensures |Queued(h)| == Tally(h, (e: Event) => e.Deferred?)
    ensures |Removed(h)| == Tally(h, (e: Event) => e.Dropped?) + Tally(h, (e: Event) => e.Reissued?)
  {
    if |h| > 0 {
      LengthsAreTallies(h[..|h| - 1]);
    }
  }
}
