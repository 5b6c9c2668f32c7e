/**
  How a receiver reassembles the frames that a sender cut.

  `Receiving` is the state after the first `k` frames of a transfer have been accepted.  Its first
  frame establishes it, each further frame advances it, frames of the same transfer that arrive on
  another interface do not disturb it, and the last frame delivers.  The buffer a transfer starts
  with is a parameter: a buffer left over from a transfer that failed its CRC check is written over,
  not cleared, and `StaleBuffer` says exactly when that costs the next transfer.
 */
module Reassembly {
  import opened Bits
  import opened Frames
  import opened TransferBuffer
  import opened Receiver
  import opened Listener
  import opened Sender
  import Crc

  predicate Ample(m: Memory) {
    m.insert && m.grant.create && m.grant.bytes >= PAYLOAD_CAPACITY
  }

  /** What a transfer is delivered as, given the bytes its buffer held when it started. */
  function Reassembled(left: seq<Byte>, payload: seq<Byte>): seq<Byte> { Splice(left, 0, payload) }

  /** The first `k` frames have been accepted, on interface `iface`, into a buffer that held `left`. */
  predicate Receiving(s: State, buf: Buffer, h: Header, c: Config, payload: seq<Byte>, k: nat, iface: nat, left: seq<Byte>) {
    && |payload| > PAYLOAD_CAPACITY && 1 <= k < NumOf(payload)
    && s.iface == iface < MAX_CAN_IFACES && s.tid == h.tid && s.toggle == (k % 2 == 1)
    && s.prevTs <= s.thisTs && s.pos == 7 * k - 2 <= |payload|
    && s.crc == Crc.Update(c.crcBase, payload)
    && buf == Some(Splice(left, 0, payload[..s.pos]))
  }

  /** The transfer is over: the next one is expected and nothing is pending. */
  predicate Expecting(s: State, tid: TransferID, iface: nat) {
    s.iface == iface < MAX_CAN_IFACES && s.tid == tid && !s.toggle && s.pos == 0 && s.prevTs <= s.thisTs
  }

  // ----- The frames of a transfer

  lemma FrameFacts(h: Header, c: Config, payload: seq<Byte>, k: nat)
    requires |payload| > PAYLOAD_CAPACITY && k < NumOf(payload)
    ensures var f := Transfer(h, c.crcBase, payload)[k];
            && f.tid == h.tid && f.src == h.src && f.transferType == h.transferType
            && (f.startOfTransfer <==> k == 0) && (f.endOfTransfer <==> k == NumOf(payload) - 1)
            && (f.toggle <==> k % 2 == 1)
            && f.payload == Chunk(Stream(c.crcBase, payload), k)
    ensures NumOf(payload) >= 2
  {
    hide Crc.Update;
  }

  lemma FirstChunk(h: Header, c: Config, payload: seq<Byte>)
    requires |payload| > PAYLOAD_CAPACITY
    ensures var f := Transfer(h, c.crcBase, payload)[0];
            && |f.payload| == 7 && Body(f) == payload[..5]
            && Word(f.payload[1], f.payload[0]) == Crc.Update(c.crcBase, payload)
  {
    hide Crc.Update;
    FrameFacts(h, c, payload, 0);
    var crc := Crc.Update(c.crcBase, payload);
    assert crc[..8] + crc[8..] == crc;
  }

  lemma LaterChunk(h: Header, c: Config, payload: seq<Byte>, k: nat)
    requires |payload| > PAYLOAD_CAPACITY && 1 <= k < NumOf(payload)
    ensures var f := Transfer(h, c.crcBase, payload)[k];
            && Body(f) == f.payload && |f.payload| <= 7 && 7 * k - 2 <= |payload|
            && f.payload == payload[7 * k - 2..Min(7 * k + 5, |payload|)]
            && (k == NumOf(payload) - 1 <==> 7 * k + 5 >= |payload|)
  {
    hide Crc.Update;
    FrameFacts(h, c, payload, k);
    var s := Stream(c.crcBase, payload);
    assert s[2..] == payload;
  }

  lemma SingleFacts(h: Header, c: Config, payload: seq<Byte>)
    requires |payload| <= PAYLOAD_CAPACITY
    ensures Transfer(h, c.crcBase, payload) == [h.Mark(true, true, false, payload)]
  {}

  // ----- One step of reassembly

  lemma SpliceGrows(left: seq<Byte>, payload: seq<Byte>, a: nat, b: nat)
    requires a <= b <= |payload|
    ensures a <= |Splice(left, 0, payload[..a])|
    ensures Splice(Splice(left, 0, payload[..a]), a, payload[a..b]) == Splice(left, 0, payload[..b])
  {
    SpliceAppend(left, 0, payload[..a], payload[a..b]);
    assert payload[..a] + payload[a..b] == payload[..b];
  }

  /** Accepting the first frame of a multi-frame transfer. */
  lemma FirstFrame(s: State, buf: Buffer, h: Header, c: Config, payload: seq<Byte>, f: RxFrame, g: Grant)
    requires |payload| > PAYLOAD_CAPACITY && |payload| <= c.maxSize
    requires f.frame == Transfer(h, c.crcBase, payload)[0]
    requires Coherent(s, buf) && s.prevTs <= f.tsMono && s.pos == 0 && Accepts(s, f) && f.iface < MAX_CAN_IFACES
    requires g.create && g.bytes >= PAYLOAD_CAPACITY
    ensures var o := Process(s, buf, f, g, c.maxSize);
            && o.code == NotComplete && o.s.thisTs == f.tsMono && o.s.interval == s.interval
            && Receiving(o.s, o.buf, h, c, payload, 1, f.iface, if buf.Some? then buf.value else [])
  {
    hide Transfer, Crc.Update;
    FrameFacts(h, c, payload, 0);
    FirstChunk(h, c, payload);
  }

  lemma ProcessLater(s: State, buf: Buffer, f: RxFrame, g: Grant, maxSize: nat)
    requires Coherent(s, buf) && buf.Some? && Accepts(s, f) && !f.frame.startOfTransfer && s.pos <= |buf.value|
    requires s.pos + |f.frame.payload| <= maxSize && |f.frame.payload| <= g.bytes
    ensures var s' := s.(pos := s.pos + |f.frame.payload|, toggle := !s.toggle);
            Process(s, buf, f, g, maxSize) ==
            Outcome(if f.frame.endOfTransfer then NextTransfer(Timed(s')) else s',
                    Some(Splice(buf.value, s.pos, f.frame.payload)),
                    if f.frame.endOfTransfer then Complete else NotComplete)
  {}

  lemma TimedKeeps(s: State)
    ensures Timed(s) == s.(prevTs := s.thisTs, interval := Timed(s).interval)
  {}

  /** Accepting a further frame. */
  lemma LaterFrame(s: State, buf: Buffer, h: Header, c: Config, payload: seq<Byte>, k: nat, left: seq<Byte>,
                   f: RxFrame, g: Grant)
    requires Receiving(s, buf, h, c, payload, k, f.iface, left) && |payload| <= c.maxSize
    requires f.frame == Transfer(h, c.crcBase, payload)[k]
    requires g.create && g.bytes >= PAYLOAD_CAPACITY
    ensures Coherent(s, buf) && Accepts(s, f)
    ensures var o := Process(s, buf, f, g, c.maxSize);
            && o.s.thisTs == s.thisTs
            && (k < NumOf(payload) - 1 ==>
                  o.code == NotComplete && o.s.interval == s.interval
                  && Receiving(o.s, o.buf, h, c, payload, k + 1, f.iface, left))
            && (k == NumOf(payload) - 1 ==>
                  o.code == Complete && Expecting(o.s, Receiver.Next(h.tid), f.iface) && o.s.prevTs == s.thisTs
                  && o.s.crc == Crc.Update(c.crcBase, payload) && o.buf == Some(Reassembled(left, payload)))
  {
    hide Transfer, Crc.Update, Splice, NumOf, Timed, Process, Body, Accepts;
    LaterOutcome(s, buf, h, c, payload, k, left, f, g);
    LaterChunk(h, c, payload, k);
    var b := Min(7 * k + 5, |payload|);
    if k == NumOf(payload) - 1 {
      TimedKeeps(s.(pos := b, toggle := !s.toggle));
      assert payload[..b] == payload;
    }
  }

  lemma LaterOutcome(s: State, buf: Buffer, h: Header, c: Config, payload: seq<Byte>, k: nat, left: seq<Byte>,
                     f: RxFrame, g: Grant)
    requires Receiving(s, buf, h, c, payload, k, f.iface, left) && |payload| <= c.maxSize
    requires f.frame == Transfer(h, c.crcBase, payload)[k] && g.bytes >= PAYLOAD_CAPACITY
    ensures Coherent(s, buf) && Accepts(s, f)
    ensures var b, last := Min(7 * k + 5, |payload|), k == NumOf(payload) - 1;
            var s' := s.(pos := b, toggle := !s.toggle);
            Process(s, buf, f, g, c.maxSize) ==
            Outcome(if last then NextTransfer(Timed(s')) else s', Some(Splice(left, 0, payload[..b])),
                    if last then Complete else NotComplete)
  {
    hide Transfer, Crc.Update, Splice, NumOf, Timed, Process, Body, NextTransfer;
    FrameFacts(h, c, payload, k);
    LaterChunk(h, c, payload, k);
    SpliceGrows(left, payload, s.pos, Min(7 * k + 5, |payload|));
    ProcessLater(s, buf, f, g, c.maxSize);
  }

  /** While a transfer is being received, no frame of it asks for a restart within the timeout, and a frame on
      another interface asks for none within the interface switch delay. */
  lemma NoRestart(s: State, h: Header, f: RxFrame)
    requires f.frame.tid == h.tid && s.tid == h.tid && s.iface != IFACE_NOT_SET
    requires s.thisTs <= f.tsMono <= s.thisTs + TID_TIMEOUT_USEC
    requires !f.frame.startOfTransfer || f.tsMono <= s.thisTs + s.interval * 1000
    ensures !NeedRestart(s, f)
  {}

  /** A frame on another interface leaves a receiver that is not restarted untouched, not even counting an error. */
  lemma OtherInterface(s: State, buf: Buffer, f: RxFrame, g: Grant, maxSize: nat)
    requires Coherent(s, buf) && !NeedRestart(s, f) && f.iface != s.iface
    ensures Step(s, buf, f, g, maxSize) == Outcome(s, buf, NotComplete)
  {}

  /** Once a transfer is over, any frame that still carries its ID changes nothing but the error count, on any
      interface, for as long as the transfer ID timeout has not expired. */
  lemma DuplicateIgnored(s: State, buf: Buffer, f: RxFrame, g: Grant, maxSize: nat)
    requires Coherent(s, buf) && s.iface != IFACE_NOT_SET && s.tid == Receiver.Next(f.frame.tid)
    requires !TimedOut(s, f.tsMono)
    ensures var o := Step(s, buf, f, g, maxSize);
            o.buf == buf && o.code == NotComplete && o.s == s.(errors := o.s.errors)
  {}

  // ----- The same at the listener, for one key

  function StateOf(k: Slot): State {
    if k.recv.Some? then k.recv.value else Initial()
  }

  /** The bytes a transfer starting with `f` finds in its buffer. */
  function Leftover(k: Slot, f: RxFrame): seq<Byte> {
    if k.recv.None? || NeedRestart(k.recv.value, f) || k.buf.None? then [] else k.buf.value
  }

  /** A slot that takes `f`, the first frame of a transfer with ID `tid`. */
  predicate Takes(k: Slot, f: RxFrame, tid: TransferID) {
    && !Stale(StateOf(k), f)
    && (NeedRestart(StateOf(k), f) || Expecting(StateOf(k), tid, f.iface))
  }

  lemma SlotFirstMulti(k: Slot, h: Header, c: Config, payload: seq<Byte>, f: RxFrame, m: Memory)
    requires SlotInv(k, c.maxSize) && Takes(k, f, h.tid) && Ample(m) && f.iface < MAX_CAN_IFACES
    requires PAYLOAD_CAPACITY < |payload| <= c.maxSize && f.frame == Transfer(h, c.crcBase, payload)[0]
    ensures var (k', d) := SlotStep(k, f, m, c);
            && d == None && k'.recv.Some?
            && k'.recv.value.thisTs == f.tsMono && k'.recv.value.interval == StateOf(k).interval
            && Receiving(k'.recv.value, k'.buf, h, c, payload, 1, f.iface, Leftover(k, f))
  {
    hide Transfer, Crc.Update, Process, Receiving;
    FrameFacts(h, c, payload, 0);
    var s := StateOf(k);
    var restart := NeedRestart(s, f);
    var s1 := if restart then Restarted(s, f) else s;
    FirstChunk(h, c, payload);
    FirstFrame(s1, if restart then None else k.buf, h, c, payload, f, m.grant);
    var o := Step(s, k.buf, f, m.grant, c.maxSize);
    ReceivingIgnoresErrors(o.s, o.buf, h, c, payload, 1, f.iface, Leftover(k, f));
  }

  lemma ReceivingIgnoresErrors(s: State, buf: Buffer, h: Header, c: Config, payload: seq<Byte>, k: nat, iface: nat,
                               left: seq<Byte>)
    requires Receiving(s, buf, h, c, payload, k, iface, left)
    ensures Receiving(s.(errors := 0), buf, h, c, payload, k, iface, left)
  {}

  lemma SlotFirstSingle(k: Slot, h: Header, c: Config, payload: seq<Byte>, f: RxFrame, m: Memory)
    requires SlotInv(k, c.maxSize) && Takes(k, f, h.tid) && Ample(m) && f.iface < MAX_CAN_IFACES
    requires |payload| <= PAYLOAD_CAPACITY && f.frame == Transfer(h, c.crcBase, payload)[0]
    ensures var (k', d) := SlotStep(k, f, m, c);
            && d == Some(Delivery(KeyOf(f), h.tid, f.tsMono, payload)) && k'.recv.Some? && k'.buf.None?
            && k'.recv.value.thisTs == f.tsMono && Expecting(k'.recv.value, Receiver.Next(h.tid), f.iface)
  {
    SingleFacts(h, c, payload);
    hide Transfer, Crc.Update;
  }

  lemma ReceivingFacts(s: State, buf: Buffer, h: Header, c: Config, payload: seq<Byte>, k: nat, iface: nat, left: seq<Byte>)
    requires Receiving(s, buf, h, c, payload, k, iface, left)
    ensures |payload| > PAYLOAD_CAPACITY && 1 <= k < NumOf(payload) && s.tid == h.tid && s.iface == iface < MAX_CAN_IFACES
    ensures s.prevTs <= s.thisTs
  {}

  /** A frame that is accepted without a restart. */
  lemma SlotIsProcess(k: Slot, f: RxFrame, m: Memory, c: Config)
    requires SlotInv(k, c.maxSize) && k.recv.Some? && Coherent(k.recv.value, k.buf)
    requires !NeedRestart(k.recv.value, f) && !Stale(k.recv.value, f)
    ensures var o := Process(k.recv.value, k.buf, f, m.grant, c.maxSize);
            && (o.code == NotComplete ==> SlotStep(k, f, m, c) == (Slot(Some(o.s.(errors := 0)), o.buf), None))
            && (o.code == Complete && o.buf.Some? ==>
                  SlotStep(k, f, m, c) ==
                  if Crc.Update(c.crcBase, o.buf.value) == o.s.crc
                  then (Slot(Some(o.s), None), Some(Delivery(KeyOf(f), f.frame.tid, o.s.prevTs, o.buf.value)))
                  else (Slot(Some(o.s), o.buf), None))
  {
    hide Process, Crc.Update, NeedRestart, Stale;
  }

  lemma InOrder(s: State, f: RxFrame)
    requires 0 < f.tsMono && s.prevTs <= s.thisTs <= f.tsMono
    ensures !Stale(s, f)
  {}

  lemma SlotLater(k: Slot, h: Header, c: Config, payload: seq<Byte>, n: nat, left: seq<Byte>, f: RxFrame, m: Memory)
    requires SlotInv(k, c.maxSize) && k.recv.Some? && Ample(m) && |payload| <= c.maxSize
    requires Receiving(k.recv.value, k.buf, h, c, payload, n, f.iface, left)
    requires f.frame == Transfer(h, c.crcBase, payload)[n] && f.tsMono > 0
    requires k.recv.value.thisTs <= f.tsMono <= k.recv.value.thisTs + TID_TIMEOUT_USEC
    ensures var (k', d) := SlotStep(k, f, m, c);
            && k'.recv.Some? && k'.recv.value.thisTs == k.recv.value.thisTs
            && (n < NumOf(payload) - 1 ==>
                  d == None && k'.recv.value.interval == k.recv.value.interval
                  && Receiving(k'.recv.value, k'.buf, h, c, payload, n + 1, f.iface, left))
            && (n == NumOf(payload) - 1 ==>
                  Expecting(k'.recv.value, Receiver.Next(h.tid), f.iface)
                  && var r := Reassembled(left, payload);
                     if Crc.Update(c.crcBase, r) == Crc.Update(c.crcBase, payload)
                     then d == Some(Delivery(KeyOf(f), h.tid, k.recv.value.thisTs, r)) && k'.buf == None
                     else d == None && k'.buf == Some(r))
  {
    hide Transfer, Crc.Update, Process, NumOf, Reassembled, Splice, Receiving, Expecting, Accepts, NeedRestart, SlotStep, SlotInv, Stale;
    var s := k.recv.value;
    ReceivingFacts(s, k.buf, h, c, payload, n, f.iface, left);
    FrameFacts(h, c, payload, n);
    NoRestart(s, h, f);
    InOrder(s, f);
    LaterFrame(s, k.buf, h, c, payload, n, left, f, m.grant);
    SlotIsProcess(k, f, m, c);
    var o := Process(s, k.buf, f, m.grant, c.maxSize);
    if n < NumOf(payload) - 1 {
      ReceivingIgnoresErrors(o.s, o.buf, h, c, payload, n + 1, f.iface, left);
    }
  }

  // ----- A leftover buffer

  lemma LeftoverHarmless(left: seq<Byte>, payload: seq<Byte>)
    ensures |Reassembled(left, payload)| == Max(|left|, |payload|)
    ensures Reassembled(left, payload) == payload <==> |left| <= |payload|
  {}

  /** A completed transfer whose CRC does not match leaves its bytes in place for the next one to find. */
  lemma FailedCheckLeavesBuffer(s: State, buf: Buffer, f: RxFrame, g: Grant, c: Config)
    requires Coherent(s, buf)
    requires var o := Step(s, buf, f, g, c.maxSize);
             o.code.Complete? && Crc.Update(c.crcBase, o.buf.value) != o.s.crc
    ensures var o := Step(s, buf, f, g, c.maxSize);
            var (k, d) := Reception(s, buf, f, g, c);
            d == None && k == Slot(Some(o.s), o.buf) && k.buf.Some? && o.s.pos == 0
  {
    StepCoherent(s, buf, f, g, c.maxSize);
  }
}
