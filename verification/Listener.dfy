/**
  The transfer listener: one receiver and at most one buffer per (source, transfer type) key, CRC
  verification of completed transfers, and removal of receivers that timed out.

  `Handle` is one incoming frame as a function.  The main results are that the two containers never
  drift apart in any run (no buffer outlives its receiver and no write position outruns its buffer),
  and that keys do not interact: what one source delivers is a function of its own frames alone.
 */
module Listener {
  import opened Bits
  import opened Frames
  import opened TransferBuffer
  import opened Receiver
  import Crc

  datatype Key = Key(src: nat, transferType: TransferType)

  function KeyOf(f: RxFrame): Key { Key(f.frame.src, f.frame.transferType) }

  predicate IsUnicast(n: nat) { 0 < n <= MAX_NODE_ID }

  datatype Config = Config(crcBase: Word16, maxSize: nat, allowAnonymous: bool)

  datatype Delivery = Delivery(key: Key, tid: TransferID, tsMono: nat, payload: seq<Byte>)

  /** What the pool does for one frame: admit a new receiver, yield a buffer, grow it. */
  datatype Memory = Memory(insert: bool, grant: Grant)

  // ----- One key

  /** The receiver and the buffer of one key. */
  datatype Slot = Slot(recv: Option<State>, buf: Buffer)

  predicate SlotInv(k: Slot, maxSize: nat) {
    && (k.recv.None? ==> k.buf.None?)
    && (k.recv.Some? ==> Coherent(k.recv.value, k.buf))
    && (k.buf.Some? ==> |k.buf.value| <= maxSize)
  }

  function Reception(s: State, buf: Buffer, f: RxFrame, g: Grant, c: Config): (Slot, Option<Delivery>)
    requires Coherent(s, buf)
  {
    var o := Step(s, buf, f, g, c.maxSize);
    match o.code
    case NotComplete => (Slot(Some(o.s.(errors := 0)), o.buf), None)
    case SingleFrame => (Slot(Some(o.s), o.buf), Some(Delivery(KeyOf(f), f.frame.tid, f.tsMono, f.frame.payload)))
    case Complete =>
      if o.buf.Some? && Crc.Update(c.crcBase, o.buf.value) == o.s.crc
      then (Slot(Some(o.s), None), Some(Delivery(KeyOf(f), f.frame.tid, o.s.prevTs, o.buf.value)))
      else (Slot(Some(o.s), o.buf), None)
  }

  /** A unicast frame, seen by the slot of its own key. */
  function SlotStep(k: Slot, f: RxFrame, m: Memory, c: Config): (Slot, Option<Delivery>)
    requires SlotInv(k, c.maxSize)
  {
    if k.recv.Some? then Reception(k.recv.value, k.buf, f, m.grant, c)
    else if !f.frame.startOfTransfer || !m.insert then (k, None)
    else Reception(Initial(), k.buf, f, m.grant, c)
  }

  function SlotCleanup(k: Slot, now: nat): Slot {
    if k.recv.Some? && TimedOut(k.recv.value, now) then Slot(None, None) else k
  }

  lemma StepBounded(s: State, buf: Buffer, f: RxFrame, g: Grant, maxSize: nat)
    requires Coherent(s, buf) && (buf.Some? ==> |buf.value| <= maxSize)
    ensures var o := Step(s, buf, f, g, maxSize); o.buf.Some? ==> |o.buf.value| <= maxSize
  {}

  lemma SlotStepInv(k: Slot, f: RxFrame, m: Memory, c: Config)
    requires SlotInv(k, c.maxSize)
    ensures SlotInv(SlotStep(k, f, m, c).0, c.maxSize)
  {
    hide Step;
    var s := if k.recv.Some? then k.recv.value else Initial();
    StepCoherent(s, k.buf, f, m.grant, c.maxSize);
    StepBounded(s, k.buf, f, m.grant, c.maxSize);
  }

  // ----- The containers

  datatype Containers = Containers(receivers: map<Key, State>, buffers: map<Key, seq<Byte>>)

  function SlotOf(l: Containers, k: Key): Slot {
    Slot(if k in l.receivers then Some(l.receivers[k]) else None,
         if k in l.buffers then Some(l.buffers[k]) else None)
  }

  function WithSlot(l: Containers, k: Key, slot: Slot): Containers {
    Containers(if slot.recv.Some? then l.receivers[k := slot.recv.value] else l.receivers - {k},
               if slot.buf.Some? then l.buffers[k := slot.buf.value] else l.buffers - {k})
  }

  /** No buffer without its receiver, no write position beyond its buffer, no buffer beyond the limit. */
  ghost predicate Inv(l: Containers, maxSize: nat) {
    forall k :: SlotInv(SlotOf(l, k), maxSize)
  }

  lemma WithSlotAt(l: Containers, k: Key, slot: Slot, j: Key)
    ensures SlotOf(WithSlot(l, k, slot), j) == if j == k then slot else SlotOf(l, j)
  {}

  predicate IsAnonymous(f: Frame) {
    f.src == BROADCAST && f.startOfTransfer && f.endOfTransfer && f.dst == BROADCAST
  }

  function Handle(l: Containers, f: RxFrame, m: Memory, c: Config): (Containers, Option<Delivery>)
    requires SlotInv(SlotOf(l, KeyOf(f)), c.maxSize)
  {
    if IsUnicast(f.frame.src) then
      var (slot, d) := SlotStep(SlotOf(l, KeyOf(f)), f, m, c);
      (WithSlot(l, KeyOf(f), slot), d)
    else if IsAnonymous(f.frame) && c.allowAnonymous then
      (l, Some(Delivery(KeyOf(f), f.frame.tid, f.tsMono, f.frame.payload)))
    else (l, None)
  }

  function Cleaned(l: Containers, now: nat): Containers {
    var gone := set k | k in l.receivers && TimedOut(l.receivers[k], now);
    Containers(l.receivers - gone, l.buffers - gone)
  }

  // ----- Runs

  datatype Event = Rx(frame: RxFrame, memory: Memory) | Cleanup(now: nat)

  ghost function Apply(l: Containers, e: Event, c: Config): (Containers, Option<Delivery>)
    requires Inv(l, c.maxSize)
  {
    assert e.Rx? ==> SlotInv(SlotOf(l, KeyOf(e.frame)), c.maxSize);
    match e
    case Rx(f, m) => Handle(l, f, m, c)
    case Cleanup(now) => (Cleaned(l, now), None)
  }

  lemma NextInv(l: Containers, e: Event, c: Config)
    requires Inv(l, c.maxSize)
    ensures Inv(Apply(l, e, c).0, c.maxSize)
  {
    hide SlotStep, SlotInv, WithSlot;
    var l' := Apply(l, e, c).0;
    forall k
      ensures SlotInv(SlotOf(l', k), c.maxSize)
    {
      assert SlotInv(SlotOf(l, k), c.maxSize);
      NextSlot(l, e, c, k);
      match e
      case Rx(f, m) =>
        if IsUnicast(f.frame.src) && k == KeyOf(f) {
          SlotStepInv(SlotOf(l, k), f, m, c);
        }
      case Cleanup(now) =>
        SlotCleanupInv(SlotOf(l, k), now, c.maxSize);
    }
  }

  lemma SlotCleanupInv(k: Slot, now: nat, maxSize: nat)
    requires SlotInv(k, maxSize)
    ensures SlotInv(SlotCleanup(k, now), maxSize)
  {}

  /** One event, seen from one key. */
  ghost function SlotNext(k: Slot, key: Key, e: Event, c: Config): (Slot, Option<Delivery>)
    requires SlotInv(k, c.maxSize)
  {
    match e
    case Rx(f, m) => if IsUnicast(f.frame.src) && KeyOf(f) == key then SlotStep(k, f, m, c) else (k, None)
    case Cleanup(now) => (SlotCleanup(k, now), None)
  }

  lemma NextSlot(l: Containers, e: Event, c: Config, k: Key)
    requires Inv(l, c.maxSize)
    ensures SlotInv(SlotOf(l, k), c.maxSize)
    ensures SlotOf(Apply(l, e, c).0, k) == SlotNext(SlotOf(l, k), k, e, c).0
  {
    hide SlotStep, SlotInv;
    assert SlotInv(SlotOf(l, k), c.maxSize);
    match e
    case Rx(f, m) =>
      assert SlotInv(SlotOf(l, KeyOf(f)), c.maxSize);
      if IsUnicast(f.frame.src) {
        WithSlotAt(l, KeyOf(f), SlotStep(SlotOf(l, KeyOf(f)), f, m, c).0, k);
      }
    case Cleanup(now) =>
      BuffersHaveReceivers(l, c.maxSize, k);
  }

  lemma BuffersHaveReceivers(l: Containers, maxSize: nat, k: Key)
    requires SlotInv(SlotOf(l, k), maxSize)
    ensures k in l.buffers ==> k in l.receivers
  {}

  /** A whole run from a state: the final state and the deliveries in order. */
  ghost function Run(l: Containers, es: seq<Event>, c: Config): (Containers, seq<Delivery>)
    requires Inv(l, c.maxSize)
    decreases |es|
  {
    if es == [] then (l, [])
    else
      var (l1, d) := Apply(l, es[0], c);
      NextInv(l, es[0], c);
      var (l2, ds) := Run(l1, es[1..], c);
      (l2, (if d.Some? then [d.value] else []) + ds)
  }

  ghost function SlotRun(k: Slot, key: Key, es: seq<Event>, c: Config): (Slot, seq<Delivery>)
    requires SlotInv(k, c.maxSize)
    decreases |es|
  {
    if es == [] then (k, [])
    else
      SlotNextInv(k, key, es[0], c);
      var (k1, d) := SlotNext(k, key, es[0], c);
      var (k2, ds) := SlotRun(k1, key, es[1..], c);
      (k2, (if d.Some? then [d.value] else []) + ds)
  }

  lemma SlotNextInv(k: Slot, key: Key, e: Event, c: Config)
    requires SlotInv(k, c.maxSize)
    ensures SlotInv(SlotNext(k, key, e, c).0, c.maxSize)
  {
    hide SlotStep, SlotInv;
    match e
    case Rx(f, m) => SlotStepInv(k, f, m, c);
    case Cleanup(now) => SlotCleanupInv(k, now, c.maxSize);
  }

  function Mine(ds: seq<Delivery>, k: Key): seq<Delivery> {
    if ds == [] then [] else (if ds[0].key == k then [ds[0]] else []) + Mine(ds[1..], k)
  }

  lemma DeliveryKey(k: Slot, f: RxFrame, m: Memory, c: Config)
    requires SlotInv(k, c.maxSize)
    ensures var d := SlotStep(k, f, m, c).1; d.Some? ==> d.value.key == KeyOf(f)
  {
    hide Step;
  }

  lemma NextDelivery(l: Containers, e: Event, c: Config, k: Key)
    requires Inv(l, c.maxSize) && IsUnicast(k.src)
    ensures SlotInv(SlotOf(l, k), c.maxSize)
    ensures var d, d' := Apply(l, e, c).1, SlotNext(SlotOf(l, k), k, e, c).1;
            d' == if d.Some? && d.value.key == k then d else None
  {
    hide SlotStep, SlotInv;
    assert SlotInv(SlotOf(l, k), c.maxSize);
    if e.Rx? {
      assert SlotInv(SlotOf(l, KeyOf(e.frame)), c.maxSize);
      DeliveryKey(SlotOf(l, KeyOf(e.frame)), e.frame, e.memory, c);
    }
  }

  /** Keys do not interact: in any run, what a unicast source delivers and the state kept for it depend on its
      own frames only, whatever other sources send in between. */
  lemma {:induction false} Isolation(l: Containers, es: seq<Event>, c: Config, k: Key)
    requires Inv(l, c.maxSize) && IsUnicast(k.src)
    ensures SlotInv(SlotOf(l, k), c.maxSize)
    ensures SlotOf(Run(l, es, c).0, k) == SlotRun(SlotOf(l, k), k, es, c).0
    ensures Mine(Run(l, es, c).1, k) == SlotRun(SlotOf(l, k), k, es, c).1
    decreases |es|
  {
    hide Apply, SlotNext, SlotInv, SlotOf;
    assert SlotInv(SlotOf(l, k), c.maxSize);
    if es != [] {
      hide Run, SlotRun, Mine, Inv;
      RunStep(l, es, c);
      SlotRunStep(SlotOf(l, k), k, es, c);
      NextSlot(l, es[0], c, k);
      NextDelivery(l, es[0], c, k);
      var (l1, d) := Apply(l, es[0], c);
      Isolation(l1, es[1..], c, k);
      MineStep(d, Run(l1, es[1..], c).1, k);
    }
  }

  lemma RunStep(l: Containers, es: seq<Event>, c: Config)
    requires Inv(l, c.maxSize) && es != []
    ensures var (l1, d) := Apply(l, es[0], c);
            && Inv(l1, c.maxSize)
            && Run(l, es, c) == (Run(l1, es[1..], c).0, (if d.Some? then [d.value] else []) + Run(l1, es[1..], c).1)
  {
    hide Apply, Inv;
    NextInv(l, es[0], c);
  }

  lemma SlotRunStep(k: Slot, key: Key, es: seq<Event>, c: Config)
    requires SlotInv(k, c.maxSize) && es != []
    ensures var (k1, d) := SlotNext(k, key, es[0], c);
            && SlotInv(k1, c.maxSize)
            && SlotRun(k, key, es, c) == (SlotRun(k1, key, es[1..], c).0, (if d.Some? then [d.value] else []) + SlotRun(k1, key, es[1..], c).1)
  {
    hide SlotNext, SlotInv;
    SlotNextInv(k, key, es[0], c);
  }

  lemma MineStep(d: Option<Delivery>, ds: seq<Delivery>, k: Key)
    ensures Mine((if d.Some? then [d.value] else []) + ds, k)
            == (if d.Some? && d.value.key == k then [d.value] else []) + Mine(ds, k)
  {
    if d.Some? {
      assert ([d.value] + ds)[1..] == ds;
    } else {
      assert [] + ds == ds;
    }
  }

  /** In every run the containers stay in step, so a short read is impossible: `Inv` holds at the end. */
  lemma {:induction false} RunInv(l: Containers, es: seq<Event>, c: Config)
    requires Inv(l, c.maxSize)
    ensures Inv(Run(l, es, c).0, c.maxSize)
    ensures Run(l, es, c).0.buffers.Keys <= Run(l, es, c).0.receivers.Keys
    decreases |es|
  {
    hide Apply, SlotInv;
    if es == [] {
      forall k | k in l.buffers
        ensures k in l.receivers
      {
        assert SlotInv(SlotOf(l, k), c.maxSize);
        BuffersHaveReceivers(l, c.maxSize, k);
      }
    } else {
      NextInv(l, es[0], c);
      RunInv(Apply(l, es[0], c).0, es[1..], c);
    }
  }

  // ----- The class

  lemma CrcChunk(base: Word16, s: seq<Byte>, offset: nat, n: nat)
    requires offset + n <= |s|
    ensures Crc.Update(base, s[..offset + n]) == Crc.Update(Crc.Update(base, s[..offset]), s[offset..offset + n])
  {
    assert s[..offset + n] == s[..offset] + s[offset..offset + n];
    Crc.UpdateConcat(base, s[..offset], s[offset..offset + n]);
  }

  class TransferListener {
    const config: Config
    var receivers: map<Key, State>
    var buffers: map<Key, seq<Byte>>

    ghost function Abstract(): Containers
      reads this
    {
      Containers(receivers, buffers)
    }

    constructor (c: Config)
      ensures config == c && Abstract() == Containers(map[], map[]) && Inv(Abstract(), c.maxSize)
    {
      config := c;
      receivers, buffers := map[], map[];
    }

    /** Reads the buffer in chunks of sixteen bytes; the result is that of one pass over the whole payload. */
    method CheckPayloadCrc(compareWith: Word16, tbb: seq<Byte>) returns (ok: bool)
      ensures ok <==> Crc.Update(config.crcBase, tbb) == compareWith
    {
      var crc := new Crc.TransferCRC(config.crcBase);
      var offset := 0;
      while true
        invariant 0 <= offset <= |tbb|
        invariant crc.value == Crc.Update(config.crcBase, tbb[..offset])
        decreases |tbb| - offset
      {
        var buf := Window(tbb, offset, 16);
        if |buf| == 0 {
          break;
        }
        CrcChunk(config.crcBase, tbb, offset, |buf|);
        offset := offset + |buf|;
        crc.AddBytes(buf);
      }
      assert tbb[..offset] == tbb;
      ok := crc.value == compareWith;
    }

    method HandleReception(s: State, f: RxFrame, g: Grant) returns (d: Option<Delivery>)
      requires Coherent(s, SlotOf(Abstract(), KeyOf(f)).buf)
      modifies this
      ensures var (slot, d') := Reception(s, old(SlotOf(Abstract(), KeyOf(f))).buf, f, g, config);
              d == d' && Abstract() == WithSlot(old(Abstract()), KeyOf(f), slot)
    {
      hide Step;
      var key := KeyOf(f);
      var buf := if key in buffers then Some(buffers[key]) else None;
      var o := Step(s, buf, f, g, config.maxSize);
      d := None;
      receivers := receivers[key := o.s];
      buffers := if o.buf.Some? then buffers[key := o.buf.value] else buffers - {key};
      match o.code
      case NotComplete =>
        receivers := receivers[key := o.s.(errors := 0)];
      case SingleFrame =>
        d := Some(Delivery(key, f.frame.tid, f.tsMono, f.frame.payload));
      case Complete =>
        if o.buf.Some? {
          var ok := CheckPayloadCrc(o.s.crc, o.buf.value);
          if ok {
            d := Some(Delivery(key, f.frame.tid, o.s.prevTs, o.buf.value));
            buffers := buffers - {key};
          }
        }
    }

    method HandleFrame(f: RxFrame, m: Memory) returns (d: Option<Delivery>)
      requires Inv(Abstract(), config.maxSize)
      modifies this
      ensures Inv(Abstract(), config.maxSize)
      ensures (Abstract(), d) == Apply(old(Abstract()), Rx(f, m), config)
    {
      hide Reception, WithSlot;
      NextInv(Abstract(), Rx(f, m), config);
      assert SlotInv(SlotOf(Abstract(), KeyOf(f)), config.maxSize);
      d := None;
      if IsUnicast(f.frame.src) {
        var key := KeyOf(f);
        if key !in receivers {
          if !f.frame.startOfTransfer || !m.insert {
            UnchangedSlot(Abstract(), key);
            return;
          }
          d := HandleReception(Initial(), f, m.grant);
        } else {
          d := HandleReception(receivers[key], f, m.grant);
        }
      } else if f.frame.src == BROADCAST && f.frame.startOfTransfer && f.frame.endOfTransfer && f.frame.dst == BROADCAST {
        if config.allowAnonymous {
          d := Some(Delivery(KeyOf(f), f.frame.tid, f.tsMono, f.frame.payload));
        }
      }
    }

    /** Removes every receiver that timed out together with its buffer. */
    method Clean(now: nat)
      requires Inv(Abstract(), config.maxSize)
      modifies this
      ensures Inv(Abstract(), config.maxSize)
      ensures Abstract() == Apply(old(Abstract()), Cleanup(now), config).0
      ensures receivers == map[] ==> buffers == map[]
    {
      NextInv(Abstract(), Cleanup(now), config);
      var todo := receivers.Keys;
      ghost var gone := {};
      while todo != {}
        invariant todo <= old(receivers).Keys && gone <= old(receivers).Keys - todo
        invariant gone == set k | k in old(receivers) && k !in todo && TimedOut(old(receivers)[k], now)
        invariant receivers == old(receivers) - gone && buffers == old(buffers) - gone
        decreases todo
      {
        var k :| k in todo;
        if TimedOut(receivers[k], now) {
          buffers := buffers - {k};
          receivers := receivers - {k};
          gone := gone + {k};
        }
        todo := todo - {k};
      }
      assert gone == set k | k in old(receivers) && TimedOut(old(receivers)[k], now);
      assert Abstract() == Apply(old(Abstract()), Cleanup(now), config).0;
      if receivers == map[] {
        RunInv(Abstract(), [], config);
      }
    }
  }

  lemma UnchangedSlot(l: Containers, k: Key)
    ensures WithSlot(l, k, SlotOf(l, k)) == l
  {}
}
