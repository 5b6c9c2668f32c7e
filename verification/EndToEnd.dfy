/**
  From send to delivery, over unbounded runs of one link.

  A sender takes transfer IDs from its registry, cuts payloads into frames, compiles and transmits
  them; the listener parses, reassembles and checks them.  `Fidelity` states that every payload is
  delivered once, in order and unchanged: across transfer ID wrap-around, idle periods, registry
  entries that expire, listener clean-up at any moment and traffic of other sources in between.
 */
module EndToEnd {
  import opened Bits
  import opened Frames
  import opened Receiver
  import opened Listener
  import opened Sender
  import opened Reassembly
  import Crc

  // ----- One transfer on the wire

  /** What reaches the listener while one transfer is on its way: its frames in order, and clean-up calls. */
  datatype Arrival = Arrived(ts: nat, utc: nat, memory: Memory) | Sweep(now: nat)

  function TimeOf(a: Arrival): nat {
    match a
    case Arrived(ts, _, _) => ts
    case Sweep(now) => now
  }

  function NumOfFrames(arrivals: seq<Arrival>): nat {
    if arrivals == [] then 0 else (if arrivals[0].Arrived? then 1 else 0) + NumOfFrames(arrivals[1..])
  }

  predicate Ordered(arrivals: seq<Arrival>, from: nat, to: nat) {
    && (forall i :: 0 <= i < |arrivals| ==> 0 < TimeOf(arrivals[i]) && from <= TimeOf(arrivals[i]) <= to)
    && (forall i, j :: 0 <= i < j < |arrivals| ==> TimeOf(arrivals[i]) <= TimeOf(arrivals[j]))
    && (forall i :: 0 <= i < |arrivals| && arrivals[i].Arrived? ==> Ample(arrivals[i].memory))
  }

  /** Frame `k` after its trip over the bus: compiled by the sender, parsed by the receiver. */
  function OverTheBus(f: Frames.Frame): Frames.Frame {
    match Compile(f)
    case Some(can) => (match Parse(can) case Some(g) => g case None => f)
    case None => f
  }

  /** The listener events of a transfer whose first `k` frames have already arrived. */
  function EventsFrom(h: Header, c: Config, payload: seq<Byte>, iface: nat, arrivals: seq<Arrival>, k: nat): seq<Event>
    requires k + NumOfFrames(arrivals) <= NumOf(payload)
    decreases |arrivals|
  {
    if arrivals == [] then []
    else match arrivals[0]
      case Arrived(ts, utc, m) =>
        [Rx(RxFrame(OverTheBus(Transfer(h, c.crcBase, payload)[k]), ts, utc, iface), m)]
        + EventsFrom(h, c, payload, iface, arrivals[1..], k + 1)
      case Sweep(now) => [Cleanup(now)] + EventsFrom(h, c, payload, iface, arrivals[1..], k)
  }

  lemma BusIsTransparent(h: Header, c: Config, payload: seq<Byte>, k: nat)
    requires h.WellFormed() && h.src != BROADCAST && k < NumOf(payload)
    ensures OverTheBus(Transfer(h, c.crcBase, payload)[k]) == Transfer(h, c.crcBase, payload)[k]
  {
    hide Crc.Update, Compile, Parse;
    TransferIsValid(h, c.crcBase, payload);
    RoundTrip(Transfer(h, c.crcBase, payload)[k]);
  }

  lemma SlotRunCons(k: Slot, key: Key, e: Event, es: seq<Event>, c: Config)
    requires SlotInv(k, c.maxSize)
    ensures SlotInv(SlotNext(k, key, e, c).0, c.maxSize)
    ensures var (k1, d) := SlotNext(k, key, e, c);
            && (d.None? ==> SlotRun(k, key, [e] + es, c) == SlotRun(k1, key, es, c))
            && (d.Some? ==> SlotRun(k, key, [e] + es, c) == (SlotRun(k1, key, es, c).0, [d.value] + SlotRun(k1, key, es, c).1))
  {
    hide SlotNext, SlotInv;
    SlotNextInv(k, key, e, c);
    assert ([e] + es)[1..] == es;
    var ds := SlotRun(SlotNext(k, key, e, c).0, key, es, c).1;
    assert [] + ds == ds;
  }

  /** Clean-up does not touch a receiver that has not timed out. */
  lemma {:induction false} OnlySweeps(k: Slot, h: Header, c: Config, payload: seq<Byte>, iface: nat, arrivals: seq<Arrival>, n: nat)
    requires SlotInv(k, c.maxSize) && k.recv.Some? && n <= NumOf(payload) && NumOfFrames(arrivals) == 0
    requires Ordered(arrivals, 0, k.recv.value.thisTs + TID_TIMEOUT_USEC)
    ensures SlotRun(k, Key(h.src, h.transferType), EventsFrom(h, c, payload, iface, arrivals, n), c) == (k, [])
    decreases |arrivals|
  {
    hide SlotInv, NumOf;
    if arrivals != [] {
      OrderedTail(arrivals, 0, k.recv.value.thisTs + TID_TIMEOUT_USEC);
      var rest := EventsFrom(h, c, payload, iface, arrivals[1..], n);
      SlotRunCons(k, Key(h.src, h.transferType), Cleanup(arrivals[0].now), rest, c);
      OnlySweeps(k, h, c, payload, iface, arrivals[1..], n);
      assert SlotCleanup(k, arrivals[0].now) == k by { assert TimeOf(arrivals[0]) <= k.recv.value.thisTs + TID_TIMEOUT_USEC; }
      assert EventsFrom(h, c, payload, iface, arrivals, n) == [Cleanup(arrivals[0].now)] + rest;
    }
  }

  lemma OrderedTail(arrivals: seq<Arrival>, from: nat, to: nat)
    requires arrivals != [] && Ordered(arrivals, from, to)
    ensures Ordered(arrivals[1..], TimeOf(arrivals[0]), to) && Ordered(arrivals[1..], from, to)
  {}

  /** What a transfer becomes that started in a buffer holding `left`. */
  function Result(c: Config, payload: seq<Byte>, left: seq<Byte>): Option<seq<Byte>> {
    var r := Reassembled(left, payload);
    if Crc.Update(c.crcBase, r) == Crc.Update(c.crcBase, payload) then Some(r) else None
  }

  function AsDeliveries(r: Option<seq<Byte>>, key: Key, tid: TransferID, ts: nat): seq<Delivery> {
    match r
    case Some(p) => [Delivery(key, tid, ts, p)]
    case None => []
  }

  /** The slot after a transfer that started at `ts`. */
  predicate Finished(k: Slot, tid: TransferID, iface: nat, ts: nat, r: Option<seq<Byte>>) {
    && k.recv.Some? && Expecting(k.recv.value, Receiver.Next(tid), iface) && k.recv.value.thisTs == ts
    && (r.Some? ==> k.buf == None)
  }

  lemma {:induction false} ReceiveRest(k: Slot, h: Header, c: Config, payload: seq<Byte>, iface: nat,
                                       arrivals: seq<Arrival>, n: nat, left: seq<Byte>)
    requires SlotInv(k, c.maxSize) && h.WellFormed() && IsUnicast(h.src) && |payload| <= c.maxSize
    requires k.recv.Some? && Receiving(k.recv.value, k.buf, h, c, payload, n, iface, left)
    requires n + NumOfFrames(arrivals) == NumOf(payload)
    requires Ordered(arrivals, k.recv.value.thisTs, k.recv.value.thisTs + TID_TIMEOUT_USEC)
    ensures var key := Key(h.src, h.transferType);
            var (k', ds) := SlotRun(k, key, EventsFrom(h, c, payload, iface, arrivals, n), c);
            && ds == AsDeliveries(Result(c, payload, left), key, h.tid, k.recv.value.thisTs)
            && Finished(k', h.tid, iface, k.recv.value.thisTs, Result(c, payload, left))
            && SlotInv(k', c.maxSize)
    decreases |arrivals|
  {
    hide SlotInv, SlotStep, Receiving, Expecting, Transfer, Reassembled, Crc.Update, NumOf;
    var key := Key(h.src, h.transferType);
    var ts0 := k.recv.value.thisTs;
    ReceivingFacts(k.recv.value, k.buf, h, c, payload, n, iface, left);
    assert arrivals != [];
    OrderedTail(arrivals, ts0, ts0 + TID_TIMEOUT_USEC);
    var evs := EventsFrom(h, c, payload, iface, arrivals, n);
    match arrivals[0] {
      case Sweep(now) =>
        var rest := EventsFrom(h, c, payload, iface, arrivals[1..], n);
        SlotRunCons(k, key, Cleanup(now), rest, c);
        assert TimeOf(arrivals[0]) == now;
        assert SlotCleanup(k, now) == k;
        ReceiveRest(k, h, c, payload, iface, arrivals[1..], n, left);
      case Arrived(ts, utc, m) =>
        BusIsTransparent(h, c, payload, n);
        FrameFacts(h, c, payload, n);
        var f := RxFrame(Transfer(h, c.crcBase, payload)[n], ts, utc, iface);
        var rest := EventsFrom(h, c, payload, iface, arrivals[1..], n + 1);
        assert evs == [Rx(f, m)] + rest;
        SlotRunCons(k, key, Rx(f, m), rest, c);
        assert TimeOf(arrivals[0]) == ts;
        SlotLater(k, h, c, payload, n, left, f, m);
        var k1 := SlotStep(k, f, m, c).0;
        if n < NumOf(payload) - 1 {
          ReceiveRest(k1, h, c, payload, iface, arrivals[1..], n + 1, left);
        } else {
          OnlySweeps(k1, h, c, payload, iface, arrivals[1..], n + 1);
        }
    }
  }

  /** What a transfer is delivered as: a single frame needs no buffer. */
  function Expected(c: Config, payload: seq<Byte>, left: seq<Byte>): Option<seq<Byte>> {
    if |payload| <= PAYLOAD_CAPACITY then Some(payload) else Result(c, payload, left)
  }

  function FirstOf(h: Header, c: Config, payload: seq<Byte>, iface: nat, a: Arrival): RxFrame
    requires a.Arrived?
  {
    RxFrame(Transfer(h, c.crcBase, payload)[0], a.ts, a.utc, iface)
  }

  /** The arrivals of one complete transfer, in order and within the transfer ID timeout of its first frame. */
  predicate Arrives(arrivals: seq<Arrival>, payload: seq<Byte>) {
    && arrivals != [] && arrivals[0].Arrived? && NumOfFrames(arrivals) == NumOf(payload)
    && Ordered(arrivals, TimeOf(arrivals[0]), TimeOf(arrivals[0]) + TID_TIMEOUT_USEC)
  }

  lemma WholeTransfer(k: Slot, h: Header, c: Config, payload: seq<Byte>, iface: nat, arrivals: seq<Arrival>)
    requires SlotInv(k, c.maxSize) && h.WellFormed() && IsUnicast(h.src) && iface < MAX_CAN_IFACES
    requires |payload| <= PAYLOAD_CAPACITY || |payload| <= c.maxSize
    requires Arrives(arrivals, payload)
    requires Takes(k, FirstOf(h, c, payload, iface, arrivals[0]), h.tid)
    ensures var key, ts := Key(h.src, h.transferType), arrivals[0].ts;
            var r := Expected(c, payload, Leftover(k, FirstOf(h, c, payload, iface, arrivals[0])));
            var (k', ds) := SlotRun(k, key, EventsFrom(h, c, payload, iface, arrivals, 0), c);
            ds == AsDeliveries(r, key, h.tid, ts) && Finished(k', h.tid, iface, ts, r) && SlotInv(k', c.maxSize)
  {
    hide SlotInv, SlotStep, Receiving, Expecting, Transfer, Reassembled, Crc.Update, NumOf, NeedRestart, Takes, Leftover;
    var key := Key(h.src, h.transferType);
    var ts, utc, m := arrivals[0].ts, arrivals[0].utc, arrivals[0].memory;
    assert TimeOf(arrivals[0]) == ts;
    OrderedTail(arrivals, ts, ts + TID_TIMEOUT_USEC);
    NumPositive(payload);
    BusIsTransparent(h, c, payload, 0);
    var f := FirstOf(h, c, payload, iface, arrivals[0]);
    var rest := EventsFrom(h, c, payload, iface, arrivals[1..], 1);
    assert EventsFrom(h, c, payload, iface, arrivals, 0) == [Rx(f, m)] + rest;
    SlotRunCons(k, key, Rx(f, m), rest, c);
    var k1 := SlotStep(k, f, m, c).0;
    if |payload| <= PAYLOAD_CAPACITY {
      SingleFacts(h, c, payload);
      SlotFirstSingle(k, h, c, payload, f, m);
      NumSingle(payload);
      OnlySweeps(k1, h, c, payload, iface, arrivals[1..], 1);
    } else {
      FrameFacts(h, c, payload, 0);
      SlotFirstMulti(k, h, c, payload, f, m);
      ReceiveRest(k1, h, c, payload, iface, arrivals[1..], 1, Leftover(k, f));
    }
  }

  lemma NumPositive(payload: seq<Byte>)
    ensures NumOf(payload) > 0
  {}

  lemma NumSingle(payload: seq<Byte>)
    ensures |payload| <= PAYLOAD_CAPACITY ==> NumOf(payload) == 1
  {}

  /** Exactly when a complete, undamaged transfer is delivered unchanged: it fits one frame, or the buffer it
      found held no more bytes than it brings.  A longer leftover, from a transfer that failed its CRC check,
      costs the transfer: it is dropped, or delivered with the leftover bytes appended if the CRC happens to agree. */
  lemma StaleBuffer(k: Slot, h: Header, c: Config, payload: seq<Byte>, iface: nat, arrivals: seq<Arrival>)
    requires SlotInv(k, c.maxSize) && h.WellFormed() && IsUnicast(h.src) && iface < MAX_CAN_IFACES
    requires |payload| <= PAYLOAD_CAPACITY || |payload| <= c.maxSize
    requires Arrives(arrivals, payload)
    requires Takes(k, FirstOf(h, c, payload, iface, arrivals[0]), h.tid)
    ensures var key := Key(h.src, h.transferType);
            var left := Leftover(k, FirstOf(h, c, payload, iface, arrivals[0]));
            var ds := SlotRun(k, key, EventsFrom(h, c, payload, iface, arrivals, 0), c).1;
            ds == [Delivery(key, h.tid, arrivals[0].ts, payload)] <==> |payload| <= PAYLOAD_CAPACITY || |left| <= |payload|
  {
    hide SlotInv, SlotRun, EventsFrom, Arrives, Takes, Leftover, Crc.Update, Reassembled, Finished;
    assert arrivals != [] && arrivals[0].Arrived? by { ArrivesFirst(arrivals, payload); }
    WholeTransfer(k, h, c, payload, iface, arrivals);
    LeftoverHarmless(Leftover(k, FirstOf(h, c, payload, iface, arrivals[0])), payload);
  }

  // ----- The failing input

  /** The events of a damaged transfer of two frames followed by a complete, undamaged one. */
  function DamagedThenGood(h: Header, c: Config, wrong: Word16, a: seq<Byte>, b: seq<Byte>, iface: nat, t: nat, m: Memory, arrivals: seq<Arrival>): seq<Event>
    requires NumOf(a) == 2 && NumOfFrames(arrivals) <= NumOf(b)
  {
    var bad := Transfer(h, wrong, a);
    [Rx(RxFrame(bad[0], t, 0, iface), m), Rx(RxFrame(bad[1], t, 0, iface), m)]
    + EventsFrom(h.(tid := Receiver.Next(h.tid)), c, b, iface, arrivals, 0)
  }

  /** A frame in the middle of a transfer leaves the time of the last completed one alone. */
  lemma MiddleFrame(s: State, buf: Buffer, f: RxFrame, g: Grant, maxSize: nat)
    requires Coherent(s, buf) && !f.frame.endOfTransfer
    ensures var o := Step(s, buf, f, g, maxSize); o.code == NotComplete && o.s.prevTs == s.prevTs
  {}

  /** The first transfer of a source, twelve bytes with a CRC computed from the wrong base, leaves its bytes behind. */
  lemma DamagedTransfer(h: Header, c: Config, wrong: Word16, a: seq<Byte>, iface: nat, t: nat, m: Memory)
    requires h.WellFormed() && IsUnicast(h.src) && iface < MAX_CAN_IFACES && t > 0 && Ample(m)
    requires |a| == 12 && |a| <= c.maxSize && wrong != c.crcBase
    ensures var bad := Transfer(h, wrong, a);
            var k0 := Slot(None, None);
            var (k1, d1) := SlotStep(k0, RxFrame(bad[0], t, 0, iface), m, c);
            && SlotInv(k1, c.maxSize) && d1 == None
            && var (k2, d2) := SlotStep(k1, RxFrame(bad[1], t, 0, iface), m, c);
               && d2 == None && SlotInv(k2, c.maxSize) && k2.buf == Some(a) && k2.recv.Some?
               && Expecting(k2.recv.value, Receiver.Next(h.tid), iface) && k2.recv.value.thisTs == t && k2.recv.value.interval == DEFAULT_INTERVAL_MSEC
  {
    hide Transfer, Crc.Update, Receiving, Expecting, Reassembled;
    var c' := c.(crcBase := wrong);
    var bad := Transfer(h, wrong, a);
    var f0, f1 := RxFrame(bad[0], t, 0, iface), RxFrame(bad[1], t, 0, iface);
    var k0 := Slot(None, None);
    assert NumOf(a) == 2;
    FrameFacts(h, c', a, 0);
    FrameFacts(h, c', a, 1);
    SlotFirstMulti(k0, h, c', a, f0, m);
    MiddleFrame(Initial(), None, f0, m.grant, c.maxSize);
    var k1 := SlotStep(k0, f0, m, c).0;
    assert k1 == SlotStep(k0, f0, m, c').0;
    SlotStepInv(k0, f0, m, c);
    SecondFrame(k1, h, c, wrong, a, f1, m);
  }

  lemma SecondFrame(k: Slot, h: Header, c: Config, wrong: Word16, a: seq<Byte>, f: RxFrame, m: Memory)
    requires SlotInv(k, c.maxSize) && k.recv.Some? && Ample(m) && |a| == 12 && |a| <= c.maxSize && wrong != c.crcBase
    requires Receiving(k.recv.value, k.buf, h, c.(crcBase := wrong), a, 1, f.iface, [])
    requires f.frame == Transfer(h, wrong, a)[1] && f.tsMono > 0 && f.tsMono == k.recv.value.thisTs && k.recv.value.prevTs == 0
    ensures var (k2, d2) := SlotStep(k, f, m, c);
            && d2 == None && SlotInv(k2, c.maxSize) && k2.buf == Some(a) && k2.recv.Some?
            && Expecting(k2.recv.value, Receiver.Next(h.tid), f.iface) && k2.recv.value.thisTs == f.tsMono && k2.recv.value.interval == k.recv.value.interval
  {
    hide Transfer, Crc.Update, Reassembled, Process, Timed;
    var c' := c.(crcBase := wrong);
    var s := k.recv.value;
    FrameFacts(h, c', a, 1);
    NoRestart(s, h, f);
    LaterFrame(s, k.buf, h, c', a, 1, [], f, m.grant);
    LeftoverHarmless([], a);
    var o := Step(s, k.buf, f, m.grant, c.maxSize);
    assert o == Process(s, k.buf, f, m.grant, c.maxSize);
    if Crc.Update(c.crcBase, a) == Crc.Update(wrong, a) {
      Crc.UpdateInjective(c.crcBase, wrong, a);
    }
    SlotStepInv(k, f, m, c);
    FirstCompletion(s, k.buf, f, m.grant, c.maxSize);
  }

  /** The interval estimate does not change with the first transfer of a source. */
  lemma FirstCompletion(s: State, buf: Buffer, f: RxFrame, g: Grant, maxSize: nat)
    requires Coherent(s, buf) && s.prevTs == 0
    ensures Process(s, buf, f, g, maxSize).s.interval == s.interval
  {}

  /** From the empty listener on: a twelve-byte transfer with a wrong CRC costs the undamaged eight-byte transfer that follows
      it within a second, whatever the bytes are. */
  lemma StaleRun(h: Header, c: Config, wrong: Word16, a: seq<Byte>, b: seq<Byte>, iface: nat, t: nat, m: Memory, arrivals: seq<Arrival>)
    requires h.WellFormed() && IsUnicast(h.src) && iface < MAX_CAN_IFACES && t > 0 && Ample(m)
    requires |a| == 12 && |b| == 8 && |a| <= c.maxSize && wrong != c.crcBase
    requires Arrives(arrivals, b) && t <= TimeOf(arrivals[0]) <= t + TID_TIMEOUT_USEC
    ensures NumOf(a) == 2 && NumOfFrames(arrivals) <= NumOf(b)
    ensures var key := Key(h.src, h.transferType);
            var run := DamagedThenGood(h, c, wrong, a, b, iface, t, m, arrivals);
            var empty := Containers(map[], map[]);
            && Inv(empty, c.maxSize)
            && Mine(Run(empty, run, c).1, key) != [Delivery(key, Receiver.Next(h.tid), TimeOf(arrivals[0]), b)]
  {
    hide Transfer, Crc.Update, SlotInv, SlotStep, EventsFrom, SlotRun, Run, Mine, Receiving, Expecting, Arrives, Takes, Leftover, StateOf;
    var key := Key(h.src, h.transferType);
    var h2 := h.(tid := Receiver.Next(h.tid));
    var empty, k0 := Containers(map[], map[]), Slot(None, None);
    ArrivesFirst(arrivals, b);
    ArrivesNum(arrivals, b);
    EmptyInv(c.maxSize);
    var run := DamagedThenGood(h, c, wrong, a, b, iface, t, m, arrivals);
    Isolation(empty, run, c, key);
    DamagedTransfer(h, c, wrong, a, iface, t, m);
    var bad := Transfer(h, wrong, a);
    var f0, f1 := RxFrame(bad[0], t, 0, iface), RxFrame(bad[1], t, 0, iface);
    var k1 := SlotStep(k0, f0, m, c).0;
    var k2 := SlotStep(k1, f1, m, c).0;
    var rest := EventsFrom(h2, c, b, iface, arrivals, 0);
    FrameFacts(h, c.(crcBase := wrong), a, 0);
    FrameFacts(h, c.(crcBase := wrong), a, 1);
    SlotRunCons(k0, key, Rx(f0, m), [Rx(f1, m)] + rest, c);
    SlotRunCons(k1, key, Rx(f1, m), rest, c);
    assert run == [Rx(f0, m)] + ([Rx(f1, m)] + rest);
    NextFirst(k2, h2, c, b, iface, arrivals[0], t);
    StaleBuffer(k2, h2, c, b, iface, arrivals);
  }

  lemma EmptyInv(maxSize: nat)
    ensures Inv(Containers(map[], map[]), maxSize) && forall k :: SlotOf(Containers(map[], map[]), k) == Slot(None, None)
  {}

  lemma NextFirst(k: Slot, h: Header, c: Config, b: seq<Byte>, iface: nat, a: Arrival, t: nat)
    requires k.recv.Some? && k.buf.Some? && Expecting(k.recv.value, h.tid, iface) && k.recv.value.thisTs == t && t > 0
    requires k.recv.value.interval == DEFAULT_INTERVAL_MSEC && a.Arrived? && t <= a.ts <= t + TID_TIMEOUT_USEC && |b| == 8
    ensures Takes(k, FirstOf(h, c, b, iface, a), h.tid) && Leftover(k, FirstOf(h, c, b, iface, a)) == k.buf.value
  {
    hide Transfer, Crc.Update;
    FrameFacts(h, c, b, 0);
  }

  lemma ArrivesFirst(arrivals: seq<Arrival>, payload: seq<Byte>)
    requires Arrives(arrivals, payload)
    ensures arrivals != [] && arrivals[0].Arrived?
  {}

  // ----- A link over time

  /** One sender and one listener key; the header's transfer ID is filled in per transfer. */
  datatype Link = Link(h: Header, c: Config, iface: nat, maxInterval: nat)
  {
    function Key(): Key { Listener.Key(h.src, h.transferType) }

    predicate Valid() { h.WellFormed() && IsUnicast(h.src) && iface < MAX_CAN_IFACES }
  }

  datatype LinkEvent =
    | Transmit(payload: seq<Byte>, sendTime: nat, txDeadline: nat, arrivals: seq<Arrival>)
    | RegistryCleanup(now: nat)
    | ListenerCleanup(now: nat)

  /** The registry entry of this link, as the registry's operations change it. */
  function NextEntry(l: Link, reg: Option<Entry>, e: LinkEvent): Option<Entry> {
    match e
    case Transmit(_, _, txDeadline, _) =>
      Some(Entry(EntryDeadline(txDeadline, l.maxInterval), Receiver.Next(TidFor(reg))))
    case RegistryCleanup(now) => Kept(reg, now)
    case ListenerCleanup(_) => reg
  }

  /** The bus carries the frames in order, without loss, no earlier than they were sent and no later than the
      deadline after which the driver discards them. */
  predicate Delivers(l: Link, e: LinkEvent, senderNow: nat, rxNow: nat) {
    match e
    case Transmit(payload, sendTime, txDeadline, arrivals) =>
      && (|payload| <= PAYLOAD_CAPACITY || |payload| <= l.c.maxSize)
      && Arrives(arrivals, payload)
      && senderNow <= sendTime <= TimeOf(arrivals[0]) <= txDeadline && rxNow <= TimeOf(arrivals[0])
    case RegistryCleanup(now) => senderNow <= now
    case ListenerCleanup(now) => rxNow <= now
  }

  function SenderClock(e: LinkEvent, senderNow: nat): nat {
    match e
    case Transmit(_, sendTime, _, _) => sendTime
    case RegistryCleanup(now) => now
    case ListenerCleanup(_) => senderNow
  }

  function RxClock(e: LinkEvent, rxNow: nat): nat {
    match e
    case Transmit(_, _, _, arrivals) => if arrivals == [] then rxNow else TimeOf(arrivals[|arrivals| - 1])
    case RegistryCleanup(_) => rxNow
    case ListenerCleanup(now) => now
  }

  predicate WellTimed(l: Link, es: seq<LinkEvent>, senderNow: nat, rxNow: nat) {
    es == [] || (Delivers(l, es[0], senderNow, rxNow)
                 && WellTimed(l, es[1..], SenderClock(es[0], senderNow), RxClock(es[0], rxNow)))
  }

  /** What the listener sees of one link event. */
  function Wire(l: Link, reg: Option<Entry>, e: LinkEvent): seq<Event> {
    match e
    case Transmit(payload, _, _, arrivals) =>
      if NumOfFrames(arrivals) <= NumOf(payload)
      then EventsFrom(l.h.(tid := TidFor(reg)), l.c, payload, l.iface, arrivals, 0) else []
    case RegistryCleanup(_) => []
    case ListenerCleanup(now) => [Cleanup(now)]
  }

  function Wires(l: Link, reg: Option<Entry>, es: seq<LinkEvent>): seq<Event>
    decreases |es|
  {
    if es == [] then [] else Wire(l, reg, es[0]) + Wires(l, NextEntry(l, reg, es[0]), es[1..])
  }

  function Payloads(es: seq<LinkEvent>): seq<seq<Byte>> {
    if es == [] then []
    else (if es[0].Transmit? then [es[0].payload] else []) + Payloads(es[1..])
  }

  function PayloadsOf(ds: seq<Delivery>): seq<seq<Byte>> {
    seq(|ds|, i requires 0 <= i < |ds| => ds[i].payload)
  }

  /** Sender and listener agree: the listener knows nothing of this source, or expects the ID the registry will
      hand out next, or the registry has forgotten and the listener's timeout will have passed by the next send. */
  predicate Linked(l: Link, reg: Option<Entry>, k: Slot, senderNow: nat, rxNow: nat) {
    && SlotInv(k, l.c.maxSize) && k.buf == None
    && (k.recv.Some? ==>
          var s := k.recv.value;
          && s.thisTs <= rxNow
          && s.pos == 0 && s.prevTs <= s.thisTs && s.iface == l.iface && !s.toggle
          && (reg.Some? ==> s.tid == reg.value.tid && s.thisTs + MIN_ENTRY_LIFETIME_USEC <= reg.value.deadline)
          && (reg.None? ==> s.thisTs + MIN_ENTRY_LIFETIME_USEC <= senderNow))
  }

  lemma LinkedTakes(l: Link, reg: Option<Entry>, k: Slot, senderNow: nat, rxNow: nat, e: LinkEvent)
    requires l.Valid() && Linked(l, reg, k, senderNow, rxNow) && e.Transmit? && Delivers(l, e, senderNow, rxNow)
    ensures var h := l.h.(tid := TidFor(reg));
            var f := FirstOf(h, l.c, e.payload, l.iface, e.arrivals[0]);
            Takes(k, f, h.tid) && Leftover(k, f) == []
  {
    hide Crc.Update, SlotInv;
    var h := l.h.(tid := TidFor(reg));
    NumPositive(e.payload);
    HeaderOfFirst(h, l.c, e.payload);
    hide Transfer, NumOf;
    assert TimeOf(e.arrivals[0]) > 0;
  }

  lemma HeaderOfFirst(h: Header, c: Config, payload: seq<Byte>)
    ensures NumOf(payload) > 0
    ensures var f := Transfer(h, c.crcBase, payload)[0]; f.tid == h.tid && f.startOfTransfer
  {
    hide Crc.Update;
  }

  lemma LastTime(arrivals: seq<Arrival>, payload: seq<Byte>)
    requires Arrives(arrivals, payload)
    ensures TimeOf(arrivals[0]) <= TimeOf(arrivals[|arrivals| - 1])
  {}

  lemma ExpectedClean(c: Config, payload: seq<Byte>)
    ensures Expected(c, payload, []) == Some(payload)
  {
    LeftoverHarmless([], payload);
  }

  /** One link event keeps the agreement and delivers what was sent. */
  lemma LinkStep(l: Link, reg: Option<Entry>, k: Slot, senderNow: nat, rxNow: nat, e: LinkEvent)
    requires l.Valid() && Linked(l, reg, k, senderNow, rxNow) && Delivers(l, e, senderNow, rxNow)
    ensures SlotInv(k, l.c.maxSize)
    ensures var (k', ds) := SlotRun(k, l.Key(), Wire(l, reg, e), l.c);
            && Linked(l, NextEntry(l, reg, e), k', SenderClock(e, senderNow), RxClock(e, rxNow))
            && PayloadsOf(ds) == if e.Transmit? then [e.payload] else []
  {
    hide SlotInv, Crc.Update, Transfer, EventsFrom, Takes, Leftover, Ordered, Arrives, NeedRestart;
    assert SlotInv(k, l.c.maxSize);
    match e {
      case Transmit(payload, sendTime, txDeadline, arrivals) =>
        var h := l.h.(tid := TidFor(reg));
        LinkedTakes(l, reg, k, senderNow, rxNow, e);
        ArrivesNum(arrivals, payload);
        WholeTransfer(k, h, l.c, payload, l.iface, arrivals);
        ExpectedClean(l.c, payload);
        LastTime(arrivals, payload);
      case RegistryCleanup(now) =>
      case ListenerCleanup(now) =>
        SlotCleanupInv(k, now, l.c.maxSize);
        SlotRunCons(k, l.Key(), Cleanup(now), [], l.c);
        assert [Cleanup(now)] + [] == [Cleanup(now)];
    }
  }

  lemma ArrivesNum(arrivals: seq<Arrival>, payload: seq<Byte>)
    requires Arrives(arrivals, payload)
    ensures arrivals != [] && arrivals[0].Arrived? && NumOfFrames(arrivals) == NumOf(payload)
  {}

  lemma {:induction false} SlotRunConcat(k: Slot, key: Key, a: seq<Event>, b: seq<Event>, c: Config)
    requires SlotInv(k, c.maxSize)
    ensures SlotInv(SlotRun(k, key, a, c).0, c.maxSize)
    ensures SlotRun(k, key, a + b, c) ==
            (SlotRun(SlotRun(k, key, a, c).0, key, b, c).0,
             SlotRun(k, key, a, c).1 + SlotRun(SlotRun(k, key, a, c).0, key, b, c).1)
    decreases |a|
  {
    hide SlotNext, SlotInv;
    if a == [] {
      assert a + b == b;
      assert [] + SlotRun(k, key, b, c).1 == SlotRun(k, key, b, c).1;
    } else {
      hide SlotRun;
      SlotNextInv(k, key, a[0], c);
      SlotRunConcat(SlotNext(k, key, a[0], c).0, key, a[1..], b, c);
      SlotRunCons(k, key, a[0], a[1..], c);
      SlotRunCons(k, key, a[0], a[1..] + b, c);
      assert a == [a[0]] + a[1..] && a + b == [a[0]] + (a[1..] + b);
      var (k1, d) := SlotNext(k, key, a[0], c);
      var (k2, x) := SlotRun(k1, key, a[1..], c);
      var y := SlotRun(k2, key, b, c).1;
      if d.Some? {
        assert [d.value] + (x + y) == ([d.value] + x) + y;
      }
    }
  }

  /** Every payload sent over a link is delivered, once, in order and unchanged. */
  lemma {:induction false} LinkFidelity(l: Link, reg: Option<Entry>, k: Slot, senderNow: nat, rxNow: nat, es: seq<LinkEvent>)
    requires l.Valid() && Linked(l, reg, k, senderNow, rxNow) && WellTimed(l, es, senderNow, rxNow)
    ensures SlotInv(k, l.c.maxSize)
    ensures PayloadsOf(SlotRun(k, l.Key(), Wires(l, reg, es), l.c).1) == Payloads(es)
    decreases |es|
  {
    hide SlotInv, Delivers, Wire, NextEntry;
    assert SlotInv(k, l.c.maxSize) by { LinkedInv(l, reg, k, senderNow, rxNow); }
    hide Linked;
    if es != [] {
      hide SlotRun, PayloadsOf;
      var e := es[0];
      LinkStep(l, reg, k, senderNow, rxNow, e);
      var (k1, ds1) := SlotRun(k, l.Key(), Wire(l, reg, e), l.c);
      var rest := Wires(l, NextEntry(l, reg, e), es[1..]);
      LinkFidelity(l, NextEntry(l, reg, e), k1, SenderClock(e, senderNow), RxClock(e, rxNow), es[1..]);
      SlotRunConcat(k, l.Key(), Wire(l, reg, e), rest, l.c);
      var ds2 := SlotRun(k1, l.Key(), rest, l.c).1;
      PayloadsConcat(ds1, ds2);
    }
  }

  lemma PayloadsConcat(a: seq<Delivery>, b: seq<Delivery>)
    ensures PayloadsOf(a + b) == PayloadsOf(a) + PayloadsOf(b)
  {}

  lemma LinkedInv(l: Link, reg: Option<Entry>, k: Slot, senderNow: nat, rxNow: nat)
    requires Linked(l, reg, k, senderNow, rxNow)
    ensures SlotInv(k, l.c.maxSize)
  {}

  // ----- Among other traffic

  /** The events of a run that concern one key. */
  function Relevant(es: seq<Event>, key: Key): seq<Event> {
    if es == [] then []
    else (if es[0].Cleanup? || (IsUnicast(es[0].frame.frame.src) && KeyOf(es[0].frame) == key) then [es[0]] else [])
         + Relevant(es[1..], key)
  }

  lemma {:induction false} RunRelevant(k: Slot, key: Key, es: seq<Event>, c: Config)
    requires SlotInv(k, c.maxSize)
    ensures SlotRun(k, key, es, c) == SlotRun(k, key, Relevant(es, key), c)
    decreases |es|
  {
    hide SlotStep, SlotInv;
    if es != [] {
      SlotNextInv(k, key, es[0], c);
      var k1 := SlotNext(k, key, es[0], c).0;
      RunRelevant(k1, key, es[1..], c);
      assert es == [es[0]] + es[1..];
      SlotRunCons(k, key, es[0], es[1..], c);
      SlotRunCons(k, key, es[0], Relevant(es[1..], key), c);
      assert [] + Relevant(es[1..], key) == Relevant(es[1..], key);
    }
  }

  /** End-to-end fidelity: take any run of a listener whose events for one source are those of a link.  The
      payloads delivered for that source are exactly the payloads sent, whatever other sources do. */
  lemma Fidelity(l: Link, reg: Option<Entry>, cs: Containers, senderNow: nat, rxNow: nat, es: seq<LinkEvent>, run: seq<Event>)
    requires l.Valid() && Inv(cs, l.c.maxSize)
    requires Linked(l, reg, SlotOf(cs, l.Key()), senderNow, rxNow) && WellTimed(l, es, senderNow, rxNow)
    requires Relevant(run, l.Key()) == Wires(l, reg, es)
    ensures PayloadsOf(Mine(Run(cs, run, l.c).1, l.Key())) == Payloads(es)
  {
    hide Linked, WellTimed, Wires, Relevant, Run, SlotRun, Inv, SlotOf, SlotInv, Mine, Payloads;
    Isolation(cs, run, l.c, l.Key());
    RunRelevant(SlotOf(cs, l.Key()), l.Key(), run, l.c);
    LinkFidelity(l, reg, SlotOf(cs, l.Key()), senderNow, rxNow, es);
  }

  /** A listener that has just been created is in agreement with any sender. */
  lemma FreshlyLinked(l: Link, reg: Option<Entry>, senderNow: nat, rxNow: nat)
    ensures Linked(l, reg, SlotOf(Containers(map[], map[]), l.Key()), senderNow, rxNow)
  {}
}
