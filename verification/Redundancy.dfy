/**
  Redundant interfaces: several copies of one transfer, one per CAN bus, arrive interleaved.

  For every interleaving of the copies that fits into the interface switch delay and the transfer ID
  timeout, the listener delivers the payload exactly once, whichever copy it locks on to.  When the bus it
  expects has gone silent, it goes over to another one after the switch delay, and not before.
 */
module Redundancy {
  import opened Bits
  import opened Frames
  import opened TransferBuffer
  import opened Receiver
  import opened Listener
  import opened Sender
  import opened Reassembly
  import opened EndToEnd
  import Crc

  /** Frame number `index` of the copy on bus `iface`. */
  datatype Copy = Copy(iface: nat, index: nat, ts: nat, utc: nat, memory: Memory)

  /** How many frames of bus `j` there are. */
  function Count(cs: seq<Copy>, j: nat): nat {
    if cs == [] then 0 else Count(cs[..|cs| - 1], j) + (if cs[|cs| - 1].iface == j then 1 else 0)
  }

  lemma CountNext(cs: seq<Copy>, i: nat, j: nat)
    requires i < |cs|
    ensures Count(cs[..i + 1], j) == Count(cs[..i], j) + (if cs[i].iface == j then 1 else 0)
  {
    assert cs[..i + 1][..i] == cs[..i];
  }

  /** An interleaving of complete copies, one per bus in `ifaces`, each in order. */
  predicate Interleaved(cs: seq<Copy>, n: nat, ifaces: set<nat>) {
    && (forall i :: 0 <= i < |cs| ==>
          cs[i].iface in ifaces && cs[i].index == Count(cs[..i], cs[i].iface) < n && cs[i].ts > 0 && Ample(cs[i].memory))
    && (forall i, j :: 0 <= i < j < |cs| ==> cs[i].ts <= cs[j].ts)
    && (forall j :: j in ifaces ==> Count(cs, j) == n && j < MAX_CAN_IFACES)
  }

  /** From the `i`-th copy on, everything arrives between `from` and `to`. */
  predicate Within(cs: seq<Copy>, i: nat, from: nat, to: nat) {
    forall x :: i <= x < |cs| ==> from <= cs[x].ts <= to
  }

  function FrameOf(h: Header, c: Config, payload: seq<Byte>, x: Copy): RxFrame
    requires x.index < NumOf(payload)
  {
    RxFrame(Transfer(h, c.crcBase, payload)[x.index], x.ts, x.utc, x.iface)
  }

  function CopyEvents(h: Header, c: Config, payload: seq<Byte>, cs: seq<Copy>, i: nat): seq<Event>
    requires i <= |cs| && forall x :: 0 <= x < |cs| ==> cs[x].index < NumOf(payload)
    decreases |cs| - i
  {
    if i == |cs| then []
    else [Rx(FrameOf(h, c, payload, cs[i]), cs[i].memory)] + CopyEvents(h, c, payload, cs, i + 1)
  }

  /** Facts about any frame of a transfer, short or long. */
  lemma AnyFrame(h: Header, c: Config, payload: seq<Byte>, k: nat)
    requires k < NumOf(payload)
    ensures var f := Transfer(h, c.crcBase, payload)[k];
            f.tid == h.tid && f.src == h.src && f.transferType == h.transferType && (f.startOfTransfer <==> k == 0)
  {
    hide Crc.Update;
  }

  /** The fixed part of the argument: which transfer, which copies, and how long its copies may take. */
  datatype Setup = Setup(h: Header, c: Config, payload: seq<Byte>, cs: seq<Copy>, ifaces: set<nat>, interval: nat)
  {
    ghost predicate Valid() {
      && h.WellFormed() && IsUnicast(h.src) && ifaces != {}
      && (|payload| <= PAYLOAD_CAPACITY || |payload| <= c.maxSize)
      && Interleaved(cs, NumOf(payload), ifaces)
      && (cs != [] ==> Within(cs, 0, cs[0].ts, cs[0].ts + Window()))
    }

    /** The interface switch delay or the transfer ID timeout, whichever is shorter. */
    function Window(): nat { Min(interval * 1000, TID_TIMEOUT_USEC) }

    function Key(): Key { Listener.Key(h.src, h.transferType) }

    ghost function Events(i: nat): seq<Event>
      requires Valid() && i <= |cs|
    {
      CopyEvents(h, c, payload, cs, i)
    }

    function At(i: nat): RxFrame
      requires i < |cs| && cs[i].index < NumOf(payload)
    {
      FrameOf(h, c, payload, cs[i])
    }
  }

  /** One event of the run. */
  lemma OneCopy(u: Setup, k: Slot, i: nat)
    requires u.Valid() && i < |u.cs| && SlotInv(k, u.c.maxSize)
    ensures u.cs[i].index < NumOf(u.payload)
    ensures var (k1, d) := SlotStep(k, u.At(i), u.cs[i].memory, u.c);
            && SlotInv(k1, u.c.maxSize)
            && (d.None? ==> SlotRun(k, u.Key(), u.Events(i), u.c) == SlotRun(k1, u.Key(), u.Events(i + 1), u.c))
            && var (k2, ds) := SlotRun(k1, u.Key(), u.Events(i + 1), u.c);
               (d.Some? ==> SlotRun(k, u.Key(), u.Events(i), u.c) == (k2, [d.value] + ds))
  {
    hide SlotInv, SlotStep, Transfer, SlotRun;
    AnyFrame(u.h, u.c, u.payload, u.cs[i].index);
    SlotRunCons(k, u.Key(), Rx(u.At(i), u.cs[i].memory), u.Events(i + 1), u.c);
    SlotStepInv(k, u.At(i), u.cs[i].memory, u.c);
  }

  // ----- After delivery

  lemma {:induction false} DonePhase(u: Setup, k: Slot, i: nat)
    requires u.Valid() && i <= |u.cs| && SlotInv(k, u.c.maxSize) && k.recv.Some?
    requires k.recv.value.tid == Receiver.Next(u.h.tid) && k.recv.value.iface != IFACE_NOT_SET
    requires Within(u.cs, i, 0, k.recv.value.thisTs + TID_TIMEOUT_USEC)
    ensures var (k', ds) := SlotRun(k, u.Key(), u.Events(i), u.c);
            ds == [] && k'.buf == k.buf && k'.recv.Some? && k'.recv.value == k.recv.value.(errors := k'.recv.value.errors)
    decreases |u.cs| - i
  {
    hide SlotInv, Transfer, Step;
    if i < |u.cs| {
      hide SlotRun;
      assert u.cs[i].index < NumOf(u.payload);
      AnyFrame(u.h, u.c, u.payload, u.cs[i].index);
      OneCopy(u, k, i);
      CoherentSlot(k, u.c.maxSize);
      DuplicateIgnored(k.recv.value, k.buf, u.At(i), u.cs[i].memory.grant, u.c.maxSize);
      DonePhase(u, SlotStep(k, u.At(i), u.cs[i].memory, u.c).0, i + 1);
    }
  }

  lemma CoherentSlot(k: Slot, maxSize: nat)
    requires SlotInv(k, maxSize) && k.recv.Some?
    ensures Coherent(k.recv.value, k.buf)
  {}

  // ----- While one copy is being received

  /** Locked on to bus `j`, whose frames so far have all been taken. */
  ghost predicate Locked(u: Setup, k: Slot, i: nat, j: nat) {
    && i <= |u.cs| && SlotInv(k, u.c.maxSize) && k.recv.Some? && j in u.ifaces
    && Receiving(k.recv.value, k.buf, u.h, u.c, u.payload, Count(u.cs[..i], j), j, [])
    && k.recv.value.interval == u.interval
    && Within(u.cs, i, k.recv.value.thisTs, k.recv.value.thisTs + u.Window())
  }

  /** Exactly one delivery of the payload, after which the next transfer is expected. */
  ghost predicate DeliversOnce(u: Setup, k: Slot, i: nat)
    requires u.Valid() && i <= |u.cs| && SlotInv(k, u.c.maxSize)
  {
    var (k', ds) := SlotRun(k, u.Key(), u.Events(i), u.c);
    && |ds| == 1 && ds[0].key == u.Key() && ds[0].tid == u.h.tid && ds[0].payload == u.payload
    && k'.buf == None && k'.recv.Some?
    && k'.recv.value.tid == Receiver.Next(u.h.tid) && k'.recv.value.pos == 0 && !k'.recv.value.toggle
  }

  /** The locked copy is not complete yet. */
  lemma LockedMore(u: Setup, k: Slot, i: nat, j: nat)
    requires u.Valid() && Locked(u, k, i, j)
    ensures i < |u.cs| && u.cs[i].index < NumOf(u.payload) && SlotInv(k, u.c.maxSize)
  {
    hide SlotInv, Transfer, Crc.Update, NumOf;
    assert u.cs[..|u.cs|] == u.cs;
  }

  /** Done with the transfer. */
  ghost predicate Over(u: Setup, k: Slot, i: nat) {
    && SlotInv(k, u.c.maxSize) && k.recv.Some? && k.buf == None
    && k.recv.value.tid == Receiver.Next(u.h.tid) && k.recv.value.iface != IFACE_NOT_SET
    && k.recv.value.pos == 0 && !k.recv.value.toggle
    && Within(u.cs, i, 0, k.recv.value.thisTs + TID_TIMEOUT_USEC)
  }

  lemma InTime(u: Setup, k: Slot, i: nat, j: nat)
    requires u.Valid() && Locked(u, k, i, j) && i < |u.cs| && u.cs[i].iface == j
    ensures var x, ts := u.cs[i], k.recv.value.thisTs;
            && x.index == Count(u.cs[..i], j) && x.ts > 0 && Ample(x.memory) && ts <= x.ts <= ts + TID_TIMEOUT_USEC
            && Within(u.cs, i + 1, ts, ts + u.Window()) && Within(u.cs, i + 1, 0, ts + TID_TIMEOUT_USEC)
  {
    hide SlotInv, Receiving, Transfer, NumOf;
  }

  /** The next frame of the locked copy. */
  lemma SameCopy(u: Setup, k: Slot, i: nat, j: nat)
    requires u.Valid() && Locked(u, k, i, j) && i < |u.cs| && u.cs[i].iface == j && u.cs[i].index < NumOf(u.payload)
    ensures var (k', d) := SlotStep(k, u.At(i), u.cs[i].memory, u.c);
            || (d == None && Locked(u, k', i + 1, j))
            || (d.Some? && d.value.key == u.Key() && d.value.tid == u.h.tid && d.value.payload == u.payload
                && Over(u, k', i + 1))
  {
    hide SlotInv, Transfer, Step, Receiving, Crc.Update, NumOf, SlotStep, Reassembled, Within, Interleaved;
    InTime(u, k, i, j);
    var n := Count(u.cs[..i], j);
    ReceivingFacts(k.recv.value, k.buf, u.h, u.c, u.payload, n, j, []);
    CountNext(u.cs, i, j);
    var f, m := u.At(i), u.cs[i].memory;
    AnyFrame(u.h, u.c, u.payload, n);
    SlotLater(k, u.h, u.c, u.payload, n, [], f, m);
    SlotStepInv(k, f, m, u.c);
    LeftoverHarmless([], u.payload);
  }

  lemma {:induction false} LockedPhase(u: Setup, k: Slot, i: nat, j: nat)
    requires u.Valid() && Locked(u, k, i, j)
    ensures i <= |u.cs| && SlotInv(k, u.c.maxSize) && DeliversOnce(u, k, i)
    decreases |u.cs| - i
  {
    LockedMore(u, k, i, j);
    hide SlotInv, Transfer, SlotStep, SlotRun, NumOf, Locked, Interleaved, Within;
    OneCopy(u, k, i);
    if u.cs[i].iface == j {
      SameCopy(u, k, i, j);
    } else {
      OtherCopy(u, k, i, j);
    }
    var (k1, d) := SlotStep(k, u.At(i), u.cs[i].memory, u.c);
    if d == None {
      LockedPhase(u, k1, i + 1, j);
    } else {
      DonePhase(u, k1, i + 1);
    }
  }

  /** A frame of another copy leaves a locked slot as it is. */
  lemma OtherCopy(u: Setup, k: Slot, i: nat, j: nat)
    requires u.Valid() && Locked(u, k, i, j) && i < |u.cs| && u.cs[i].iface != j
    ensures u.cs[i].index < NumOf(u.payload)
    ensures var (k', d) := SlotStep(k, u.At(i), u.cs[i].memory, u.c); d == None && Locked(u, k', i + 1, j)
  {
    hide Transfer, Step, Crc.Update, NumOf, NeedRestart;
    var s := k.recv.value;
    var x := u.cs[i];
    AnyFrame(u.h, u.c, u.payload, x.index);
    CountNext(u.cs, i, j);
    NoRestart(s, u.h, u.At(i));
    OtherInterface(s, k.buf, u.At(i), x.memory.grant, u.c.maxSize);
  }

  // ----- Before any copy has been taken

  /** No copy has been taken yet. */
  ghost predicate Untaken(u: Setup, k: Slot, i: nat) {
    var s := StateOf(k);
    && i <= |u.cs| && SlotInv(k, u.c.maxSize) && k.buf == None && s.interval == u.interval && s.prevTs <= s.thisTs
    && (forall x :: i <= x < |u.cs| ==> s.thisTs <= u.cs[x].ts)
  }

  /** No copy has been taken yet, and one whose frames are all still to come will be. */
  ghost predicate Waiting(u: Setup, k: Slot, i: nat) {
    var s := StateOf(k);
    && Untaken(u, k, i)
    && (|| Fresh(k, i)
        || (k.recv.Some? && Expecting(s, u.h.tid, s.iface) && s.iface in u.ifaces && Count(u.cs[..i], s.iface) == 0)
        || Limbo(u, k, i))
  }

  /** The first frame of all meets a receiver that has never been used. */
  ghost predicate Fresh(k: Slot, i: nat) {
    i == 0 && (k.recv.None? || k.recv.value.iface == IFACE_NOT_SET)
  }

  /** A later frame of an ignored copy has run into the timeout of the previous transfer: the receiver waits for
      a start of transfer, and will take the first one to come. */
  ghost predicate Limbo(u: Setup, k: Slot, i: nat) {
    && i <= |u.cs| && k.recv.Some? && k.recv.value.iface != IFACE_NOT_SET && k.recv.value.pos == 0
    && (forall x :: i <= x < |u.cs| ==> TimedOut(k.recv.value, u.cs[x].ts))
    && (exists j :: j in u.ifaces && Count(u.cs[..i], j) == 0)
  }

  lemma WaitingMore(u: Setup, k: Slot, i: nat)
    requires u.Valid() && Waiting(u, k, i)
    ensures i < |u.cs| && u.cs[i].index < NumOf(u.payload) && SlotInv(k, u.c.maxSize)
  {
    hide SlotInv, Transfer, Crc.Update, NumOf;
    NumPositive(u.payload);
    assert u.cs[..|u.cs|] == u.cs;
    var j :| j in u.ifaces;
    assert Count(u.cs, j) == NumOf(u.payload);
    assert u.cs[..0] == [];
  }

  /** The slot takes a first frame: it locks on to that copy, or is done if the transfer is a single frame. */
  lemma TakesCopy(u: Setup, k: Slot, i: nat)
    requires u.Valid() && Untaken(u, k, i) && i < |u.cs| && u.cs[i].index == 0 < NumOf(u.payload)
    requires Takes(k, u.At(i), u.h.tid)
    ensures var (k', d) := SlotStep(k, u.At(i), u.cs[i].memory, u.c);
            || (d == None && Locked(u, k', i + 1, u.cs[i].iface))
            || (d.Some? && d.value.key == u.Key() && d.value.tid == u.h.tid && d.value.payload == u.payload
                && Over(u, k', i + 1))
  {
    hide SlotInv, Transfer, Crc.Update, NumOf, Receiving, SlotStep, Takes, NeedRestart, Fresh, Limbo;
    var x, f := u.cs[i], u.At(i);
    CountNext(u.cs, i, x.iface);
    AnyFrame(u.h, u.c, u.payload, 0);
    SlotStepInv(k, f, x.memory, u.c);
    assert Leftover(k, f) == [];
    if |u.payload| <= PAYLOAD_CAPACITY {
      SlotFirstSingle(k, u.h, u.c, u.payload, f, x.memory);
    } else {
      SlotFirstMulti(k, u.h, u.c, u.payload, f, x.memory);
    }
  }

  lemma CountsNext(u: Setup, i: nat)
    requires i < |u.cs|
    ensures forall j :: Count(u.cs[..i + 1], j) == Count(u.cs[..i], j) + (if u.cs[i].iface == j then 1 else 0)
  {
    forall j
      ensures Count(u.cs[..i + 1], j) == Count(u.cs[..i], j) + (if u.cs[i].iface == j then 1 else 0)
    {
      CountNext(u.cs, i, j);
    }
  }

  /** A frame of a bus other than the expected one, with no reason to restart. */
  lemma IgnoresCopy(u: Setup, k: Slot, i: nat)
    requires u.Valid() && Waiting(u, k, i) && i < |u.cs| && u.cs[i].index < NumOf(u.payload) && k.recv.Some?
    requires !NeedRestart(k.recv.value, u.At(i)) && u.cs[i].iface != k.recv.value.iface
    ensures var (k', d) := SlotStep(k, u.At(i), u.cs[i].memory, u.c);
            d == None && Waiting(u, k', i + 1)
  {
    var f, s := u.At(i), k.recv.value;
    SlotStepInv(k, f, u.cs[i].memory, u.c);
    CoherentSlot(k, u.c.maxSize);
    assert !Limbo(u, k, i) && !Fresh(k, i);
    hide Transfer, Crc.Update, NumOf, SlotInv, Step, Coherent, Limbo, Fresh, NeedRestart;
    CountsNext(u, i);
    OtherInterface(s, k.buf, f, u.cs[i].memory.grant, u.c.maxSize);
  }

  /** A later frame that runs into the timeout. */
  lemma RestartsOnCopy(u: Setup, k: Slot, i: nat)
    requires u.Valid() && Waiting(u, k, i) && i < |u.cs| && 0 < u.cs[i].index < NumOf(u.payload) && k.recv.Some?
    requires TimedOut(k.recv.value, u.cs[i].ts)
    ensures var (k', d) := SlotStep(k, u.At(i), u.cs[i].memory, u.c);
            d == None && Waiting(u, k', i + 1)
  {
    var x, f, s := u.cs[i], u.At(i), k.recv.value;
    SlotStepInv(k, f, x.memory, u.c);
    CoherentSlot(k, u.c.maxSize);
    AnyFrame(u.h, u.c, u.payload, x.index);
    RestartWithoutStart(s, k.buf, f, x.memory.grant, u.c.maxSize);
    assert !Fresh(k, i) by { assert u.cs[..0] == []; }
    hide Transfer, Crc.Update, NumOf, SlotInv, Step, Coherent, NeedRestart;
    var j := if Count(u.cs[..i], s.iface) == 0 && s.iface in u.ifaces then s.iface
             else var j' :| j' in u.ifaces && Count(u.cs[..i], j') == 0; j';
    CountNext(u.cs, i, j);
    assert Count(u.cs[..i + 1], j) == 0;
    var k' := SlotStep(k, f, x.memory, u.c).0;
    assert Limbo(u, k', i + 1);
  }

  lemma RestartWithoutStart(s: State, buf: Buffer, f: RxFrame, g: Grant, maxSize: nat)
    requires Coherent(s, buf) && !Stale(s, f) && TimedOut(s, f.tsMono) && !f.frame.startOfTransfer
    ensures var o := Step(s, buf, f, g, maxSize);
            && o.code == NotComplete && o.buf == None
            && o.s == Restarted(s, f).(tid := Receiver.Next(f.frame.tid))
  {}

  /** Either way the slot goes on waiting. */
  lemma KeepsWaiting(u: Setup, k: Slot, i: nat)
    requires u.Valid() && Waiting(u, k, i) && i < |u.cs| && u.cs[i].index < NumOf(u.payload)
    requires u.cs[i].index > 0 || !Takes(k, u.At(i), u.h.tid)
    ensures var (k', d) := SlotStep(k, u.At(i), u.cs[i].memory, u.c);
            d == None && Waiting(u, k', i + 1)
  {
    AnyFrame(u.h, u.c, u.payload, u.cs[i].index);
    assert u.cs[..0] == [];
    hide Transfer, Crc.Update, NumOf, SlotInv, SlotStep;
    if NeedRestart(StateOf(k), u.At(i)) {
      assert u.cs[i].index > 0;
      RestartsOnCopy(u, k, i);
    } else {
      IgnoresCopy(u, k, i);
    }
  }

  lemma {:induction false} WaitingPhase(u: Setup, k: Slot, i: nat)
    requires u.Valid() && Waiting(u, k, i)
    ensures i <= |u.cs| && SlotInv(k, u.c.maxSize) && DeliversOnce(u, k, i)
    decreases |u.cs| - i
  {
    WaitingMore(u, k, i);
    hide SlotInv, Transfer, SlotStep, SlotRun, NumOf, Locked, Waiting, Interleaved, Within, Takes;
    OneCopy(u, k, i);
    var (k1, d) := SlotStep(k, u.At(i), u.cs[i].memory, u.c);
    if u.cs[i].index > 0 || !Takes(k, u.At(i), u.h.tid) {
      KeepsWaiting(u, k, i);
      WaitingPhase(u, k1, i + 1);
    } else {
      TakesCopy(u, k, i);
      if d == None {
        LockedPhase(u, k1, i + 1, u.cs[i].iface);
      } else {
        DonePhase(u, k1, i + 1);
      }
    }
  }

  /** Exactly-once delivery: the slot is unused, or expects this transfer on one of the buses that carry a copy. */
  lemma ExactlyOnce(u: Setup, k: Slot)
    requires u.Valid() && SlotInv(k, u.c.maxSize) && k.buf == None && StateOf(k).interval == u.interval
    requires StateOf(k).prevTs <= StateOf(k).thisTs && (u.cs != [] ==> StateOf(k).thisTs <= u.cs[0].ts)
    requires || k.recv.None? || k.recv.value.iface == IFACE_NOT_SET
             || (Expecting(k.recv.value, u.h.tid, k.recv.value.iface) && k.recv.value.iface in u.ifaces)
    ensures DeliversOnce(u, k, 0)
  {
    hide SlotInv, Transfer, NumOf;
    assert u.cs[..0] == [];
    WaitingPhase(u, k, 0);
  }

  // ----- The expected bus is silent

  /** Locked on to a bus that carries no copy. */
  ghost predicate Silent(u: Setup, k: Slot, i: nat) {
    && Untaken(u, k, i) && k.recv.Some? && k.recv.value.pos == 0
    && k.recv.value.iface < MAX_CAN_IFACES && k.recv.value.iface !in u.ifaces
  }

  /** Until when a transfer with this ID is not taken from another bus. */
  function SwitchTime(s: State, tid: TransferID): nat {
    s.thisTs + if ForwardDistance(s.tid, tid) < TID_HALF then Min(s.interval * 1000, TID_TIMEOUT_USEC) else TID_TIMEOUT_USEC
  }

  /** A copy starts after that. */
  ghost predicate ComesLate(u: Setup, s: State, i: nat) {
    exists x :: i <= x < |u.cs| && u.cs[x].index == 0 && u.cs[x].ts > SwitchTime(s, u.h.tid)
  }

  lemma {:induction false} CountMonotone(cs: seq<Copy>, i: nat, x: nat, j: nat)
    requires i <= x <= |cs|
    ensures Count(cs[..i], j) <= Count(cs[..x], j)
    decreases x - i
  {
    if i < x {
      CountMonotone(cs, i, x - 1, j);
      CountNext(cs, x - 1, j);
    }
  }

  lemma SilentRestart(u: Setup, k: Slot, i: nat)
    requires u.Valid() && Silent(u, k, i) && i < |u.cs| && u.cs[i].index < NumOf(u.payload)
    ensures !Stale(k.recv.value, u.At(i))
    ensures var s, x := k.recv.value, u.cs[i];
            NeedRestart(s, u.At(i)) <==> TimedOut(s, x.ts) || (x.index == 0 && x.ts > SwitchTime(s, u.h.tid))
  {
    hide Transfer, NumOf, SlotInv;
    AnyFrame(u.h, u.c, u.payload, u.cs[i].index);
  }

  /** Another bus, too early: nothing happens. */
  lemma SilentIgnores(u: Setup, k: Slot, i: nat)
    requires u.Valid() && Silent(u, k, i) && i < |u.cs| && u.cs[i].index < NumOf(u.payload) && !NeedRestart(k.recv.value, u.At(i))
    ensures var (k', d) := SlotStep(k, u.At(i), u.cs[i].memory, u.c);
            && d == None && Silent(u, k', i + 1)
            && SwitchTime(k'.recv.value, u.h.tid) == SwitchTime(k.recv.value, u.h.tid)
  {
    hide Transfer, Crc.Update, NumOf, SlotInv, Step, Coherent, NeedRestart, SwitchTime;
    SlotStepInv(k, u.At(i), u.cs[i].memory, u.c);
    CoherentSlot(k, u.c.maxSize);
    OtherInterface(k.recv.value, k.buf, u.At(i), u.cs[i].memory.grant, u.c.maxSize);
    SwitchKept(k.recv.value, u.h.tid);
  }

  lemma SwitchKept(s: State, tid: TransferID)
    ensures SwitchTime(s.(errors := 0), tid) == SwitchTime(s, tid)
  {}

  /** Waiting for a start of transfer, everything still to come being late. */
  ghost predicate Adrift(u: Setup, k: Slot, i: nat) {
    && Untaken(u, k, i) && k.recv.Some? && k.recv.value.pos == 0 && k.recv.value.iface != IFACE_NOT_SET
    && forall x :: i <= x < |u.cs| ==> TimedOut(k.recv.value, u.cs[x].ts)
  }

  lemma Drifts(u: Setup, k: Slot, i: nat)
    requires u.Valid() && Untaken(u, k, i) && k.recv.Some? && i < |u.cs| && 0 < u.cs[i].index < NumOf(u.payload)
    requires TimedOut(k.recv.value, u.cs[i].ts)
    ensures var (k', d) := SlotStep(k, u.At(i), u.cs[i].memory, u.c); d == None && Adrift(u, k', i + 1)
  {
    var x, f, s := u.cs[i], u.At(i), k.recv.value;
    SlotStepInv(k, f, x.memory, u.c);
    CoherentSlot(k, u.c.maxSize);
    AnyFrame(u.h, u.c, u.payload, x.index);
    RestartWithoutStart(s, k.buf, f, x.memory.grant, u.c.maxSize);
    hide Transfer, Crc.Update, NumOf, SlotInv, Step, Coherent, NeedRestart;
  }

  /** Without another start of transfer nothing is delivered. */
  lemma {:induction false} AdriftPhase(u: Setup, k: Slot, i: nat)
    requires u.Valid() && Adrift(u, k, i) && forall x :: i <= x < |u.cs| ==> u.cs[x].index > 0
    ensures SlotInv(k, u.c.maxSize) && SlotRun(k, u.Key(), u.Events(i), u.c).1 == []
    decreases |u.cs| - i
  {
    hide SlotInv, Transfer, SlotStep, NumOf, Interleaved, Within;
    if i < |u.cs| {
      hide SlotRun;
      OneCopy(u, k, i);
      Drifts(u, k, i);
      AdriftPhase(u, SlotStep(k, u.At(i), u.cs[i].memory, u.c).0, i + 1);
    }
  }

  /** With one, that copy is taken. */
  lemma AdriftWaits(u: Setup, k: Slot, i: nat, x: nat)
    requires u.Valid() && Adrift(u, k, i) && i <= x < |u.cs| && u.cs[x].index == 0
    ensures Waiting(u, k, i)
  {
    hide SlotInv, Transfer, NumOf;
    CountMonotone(u.cs, i, x, u.cs[x].iface);
    assert Limbo(u, k, i);
  }

  /** A copy taken from a silent bus is delivered once. */
  lemma SilentTakes(u: Setup, k: Slot, i: nat)
    requires u.Valid() && Silent(u, k, i) && i < |u.cs| && u.cs[i].index == 0 && NeedRestart(k.recv.value, u.At(i))
    ensures SlotInv(k, u.c.maxSize) && DeliversOnce(u, k, i)
  {
    hide SlotInv, Transfer, SlotStep, SlotRun, NumOf, Locked, Interleaved, Within, NeedRestart;
    OneCopy(u, k, i);
    SilentRestart(u, k, i);
    TakesCopy(u, k, i);
    var (k1, d) := SlotStep(k, u.At(i), u.cs[i].memory, u.c);
    if d == None {
      LockedPhase(u, k1, i + 1, u.cs[i].iface);
    } else {
      DonePhase(u, k1, i + 1);
    }
  }

  lemma {:induction false} SilentPhase(u: Setup, k: Slot, i: nat)
    requires u.Valid() && Silent(u, k, i)
    ensures SlotInv(k, u.c.maxSize)
    ensures if ComesLate(u, k.recv.value, i) then DeliversOnce(u, k, i) else SlotRun(k, u.Key(), u.Events(i), u.c).1 == []
    decreases |u.cs| - i
  {
    hide SlotInv, Transfer, SlotStep, NumOf, Locked, Interleaved, Within, NeedRestart, SwitchTime;
    if i < |u.cs| {
      hide SlotRun;
      OneCopy(u, k, i);
      SilentRestart(u, k, i);
      LateIsLate(u, k.recv.value, i);
      var k1 := SlotStep(k, u.At(i), u.cs[i].memory, u.c).0;
      if !NeedRestart(k.recv.value, u.At(i)) {
        SilentIgnores(u, k, i);
        SilentPhase(u, k1, i + 1);
      } else if u.cs[i].index == 0 {
        SilentTakes(u, k, i);
      } else {
        Drifts(u, k, i);
        if x :| i + 1 <= x < |u.cs| && u.cs[x].index == 0 {
          AdriftWaits(u, k1, i + 1, x);
          WaitingPhase(u, k1, i + 1);
        } else {
          AdriftPhase(u, k1, i + 1);
        }
      }
    }
  }

  /** Whatever starts after the timeout starts late. */
  lemma LateIsLate(u: Setup, s: State, i: nat)
    requires u.Valid() && i < |u.cs|
    ensures TimedOut(s, u.cs[i].ts) ==> forall x :: i <= x < |u.cs| ==> u.cs[x].ts > SwitchTime(s, u.h.tid)
  {
    hide Transfer, NumOf;
  }

  /** The expected bus is silent: the transfer is delivered exactly once if a copy of it starts on another bus after the switch
      delay or the transfer ID timeout, and otherwise not at all. */
  lemma SilentBusExact(u: Setup, k: Slot)
    requires u.Valid() && SlotInv(k, u.c.maxSize) && k.buf == None && k.recv.Some?
    requires var s := k.recv.value;
             && s.interval == u.interval && s.pos == 0 && s.iface < MAX_CAN_IFACES && s.iface !in u.ifaces
             && s.prevTs <= s.thisTs && (u.cs != [] ==> s.thisTs <= u.cs[0].ts)
    ensures if ComesLate(u, k.recv.value, 0) then DeliversOnce(u, k, 0) else SlotRun(k, u.Key(), u.Events(0), u.c).1 == []
  {
    hide SlotInv, Transfer, NumOf, SlotRun;
    SilentPhase(u, k, 0);
  }
}
