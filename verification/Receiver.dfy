/**
  The transfer receiver: the state machine that reassembles the frames of one (source, transfer type)
  pair, with its toggle bit, 5-bit transfer ID, timeouts and redundant interfaces.

  `Step` is one call of addFrame as a function of the receiver state, the reassembly buffer, the frame
  and what the allocator grants.  The class `TransferReceiver` updates its fields in place and is
  proved to follow `Step`.
 */
module Receiver {
  import opened Bits
  import opened Frames
  import opened TransferBuffer

  const MAX_CAN_IFACES := 3
  const IFACE_NOT_SET := 3
  const TID_HALF := 16
  const TID_TIMEOUT_USEC := 1000 * 1000
  const DEFAULT_INTERVAL_MSEC := 1000
  const MIN_INTERVAL_MSEC := 1
  const MAX_INTERVAL_MSEC := 0xFFFF
  const ERROR_MASK := 32

  datatype RxFrame = RxFrame(frame: Frame, tsMono: nat, tsUtc: nat, iface: nat)

  datatype State = State(
    prevTs: nat,      // when the last completed transfer started
    thisTs: nat,      // when the current transfer started
    firstUtc: nat,
    interval: nat,    // smoothed transfer interval in milliseconds, also the interface switch delay
    crc: Word16,
    pos: nat,         // next write position in the buffer
    tid: TransferID,  // expected transfer ID
    toggle: bool,     // expected toggle bit
    iface: nat,
    errors: nat)

  function Initial(): State {
    State(0, 0, 0, DEFAULT_INTERVAL_MSEC, Zeros(16), 0, 0, false, IFACE_NOT_SET, 0)
  }

  /** What the allocator does for this frame: whether it yields a buffer, and how many bytes it can hold. */
  datatype Grant = Grant(create: bool, bytes: nat)

  datatype Code = NotComplete | Complete | SingleFrame

  type Buffer = Option<seq<Byte>>

  datatype Outcome = Outcome(s: State, buf: Buffer, code: Code)

  /** A write position is always backed by a buffer. */
  predicate Coherent(s: State, buf: Buffer) {
    s.pos > 0 ==> buf.Some? && s.pos <= |buf.value|
  }

  // ----- Transfer IDs

  function Next(t: TransferID): TransferID { (t + 1) % NUM_TIDS }

  /** How many increments lead from `a` to `b`. */
  function ForwardDistance(a: TransferID, b: TransferID): (d: nat)
    ensures d < NUM_TIDS && (a + d) % NUM_TIDS == b
  {
    if b < a then b - a + NUM_TIDS else b - a
  }

  // ----- The transition function

  function Failed(s: State): State { s.(errors := (s.errors + 1) % ERROR_MASK) }

  function NextTransfer(s: State): State { s.(tid := Next(s.tid), toggle := false, pos := 0) }

  function Clamp(v: int, lo: int, hi: int): int { Max(Min(v, hi), lo) }

  /** Completion moves the start time and feeds the smoothed interval. */
  function Timed(s: State): State {
    s.(prevTs := s.thisTs,
       interval := if s.prevTs != 0 && s.thisTs != 0 && s.thisTs >= s.prevTs
                   then (s.interval * 7 + Clamp((s.thisTs - s.prevTs) / 1000, MIN_INTERVAL_MSEC, MAX_INTERVAL_MSEC)) / 8
                   else s.interval)
  }

  predicate TimedOut(s: State, now: nat) { now > s.thisTs + TID_TIMEOUT_USEC }

  predicate IfaceSwitchAllowed(s: State, now: nat) { now > s.thisTs + s.interval * 1000 }

  predicate NeedRestart(s: State, f: RxFrame) {
    || s.iface == IFACE_NOT_SET
    || TimedOut(s, f.tsMono)
    || (f.iface == s.iface && f.frame.startOfTransfer && ForwardDistance(f.frame.tid, s.tid) > 1)
    || (IfaceSwitchAllowed(s, f.tsMono) && f.frame.startOfTransfer && ForwardDistance(s.tid, f.frame.tid) < TID_HALF)
  }

  function Restarted(s: State, f: RxFrame): State {
    (if s.iface != IFACE_NOT_SET && s.tid != f.frame.tid then Failed(s) else s)
    .(iface := f.iface, tid := f.frame.tid, toggle := false, pos := 0, crc := Zeros(16))
  }

  predicate LacksCrc(f: Frame) { f.startOfTransfer && !f.endOfTransfer && |f.payload| < 2 }

  predicate Accepts(s: State, f: RxFrame) {
    && f.iface == s.iface && !LacksCrc(f.frame) && !(f.frame.startOfTransfer && f.frame.toggle)
    && f.frame.toggle == s.toggle && f.frame.tid == s.tid
  }

  /** A frame of another interface is dropped silently; every other objection is counted. */
  function Validated(s: State, f: RxFrame): State {
    if f.iface != s.iface then s
    else if LacksCrc(f.frame) || (f.frame.startOfTransfer && f.frame.toggle) then Failed(s)
    else
      var s1 := if f.frame.startOfTransfer && s.pos > 0 then Failed(s) else s;
      if Accepts(s, f) then s1 else Failed(s1)
  }

  /** The CRC travels in the first two payload bytes, least significant byte first. */
  function Started(s: State, f: RxFrame): State {
    if f.frame.startOfTransfer then s.(thisTs := f.tsMono, firstUtc := f.tsUtc) else s
  }

  function CarriedCrc(s: State, f: Frame): State {
    if f.startOfTransfer && |f.payload| >= 2 then s.(crc := Word(f.payload[1], f.payload[0])) else s
  }

  function Body(f: Frame): seq<Byte> {
    if f.startOfTransfer && |f.payload| >= 2 then f.payload[2..] else f.payload
  }

  function Fits(pos: nat, body: seq<Byte>, maxSize: nat, g: Grant): bool {
    || body == []
    || (pos + |body| <= maxSize && |body| <= g.bytes)
  }

  /** Whether a frame's bytes can be stored: a first frame must bring its CRC, and the rest must fit. */
  predicate Storable(pos: nat, f: Frame, maxSize: nat, g: Grant) {
    !(f.startOfTransfer && |f.payload| < 2) && Fits(pos, Body(f), maxSize, g)
  }

  function Receive(s: State, buf: Buffer, f: RxFrame, g: Grant, maxSize: nat): Outcome
    requires Coherent(s, buf)
  {
    var s1 := Started(s, f);
    if f.frame.startOfTransfer && f.frame.endOfTransfer then
      Outcome(NextTransfer(Timed(s1)).(crc := Zeros(16)), None, SingleFrame)
    else if buf.None? && !g.create then
      Outcome(Failed(NextTransfer(s1)), None, NotComplete)
    else
      var s2 := CarriedCrc(s1, f.frame);
      var body := Body(f.frame);
      if !Storable(s.pos, f.frame, maxSize, g) then
        Outcome(Failed(NextTransfer(s2)), None, NotComplete)
      else
        var stored := Splice(if buf.Some? then buf.value else [], s.pos, body);
        var s3 := s2.(pos := s.pos + |body|, toggle := !s.toggle);
        if f.frame.endOfTransfer then Outcome(NextTransfer(Timed(s3)), Some(stored), Complete)
        else Outcome(s3, Some(stored), NotComplete)
  }

  predicate Stale(s: State, f: RxFrame) {
    f.tsMono == 0 || f.tsMono < s.prevTs || f.tsMono < s.thisTs
  }

  function Process(s: State, buf: Buffer, f: RxFrame, g: Grant, maxSize: nat): Outcome
    requires Coherent(s, buf)
  {
    if Accepts(s, f) then Receive(Validated(s, f), buf, f, g, maxSize)
    else Outcome(Validated(s, f), buf, NotComplete)
  }

  /** One call of addFrame. */
  function Step(s: State, buf: Buffer, f: RxFrame, g: Grant, maxSize: nat): Outcome
    requires Coherent(s, buf)
  {
    if Stale(s, f) then Outcome(s, buf, NotComplete)
    else if NeedRestart(s, f) then
      if f.frame.startOfTransfer then Process(Restarted(s, f), None, f, g, maxSize)
      else Outcome(Restarted(s, f).(tid := Next(f.frame.tid)), None, NotComplete)
    else Process(s, buf, f, g, maxSize)
  }

  /** Whatever arrives and whatever the allocator does, write positions stay backed by a buffer. */
  lemma StepCoherent(s: State, buf: Buffer, f: RxFrame, g: Grant, maxSize: nat)
    requires Coherent(s, buf)
    ensures var o := Step(s, buf, f, g, maxSize); Coherent(o.s, o.buf)
    ensures var o := Step(s, buf, f, g, maxSize); o.code.Complete? ==> o.buf.Some? && o.s.pos == 0
    ensures var o := Step(s, buf, f, g, maxSize); o.code.SingleFrame? ==> o.buf.None? && o.s.pos == 0
  {}

  // ----- The class

  /** The buffer of one key in the buffer manager. */
  class TransferBufferAccessor {
    const maxSize: nat
    var buffer: Buffer

    constructor (size: nat)
      ensures maxSize == size && buffer == None
    {
      maxSize := size;
      buffer := None;
    }

    method Create(g: Grant)
      modifies this
      ensures buffer == if g.create then Some([]) else None
    {
      buffer := None;
      if g.create {
        buffer := Some([]);
      }
    }

    method Remove()
      modifies this
      ensures buffer == None
    {
      buffer := None;
    }

    /** Stores as much as the limit and the allocator permit. */
    method Write(offset: nat, bytes: seq<Byte>, g: Grant) returns (w: nat)
      requires buffer.Some? && offset <= |buffer.value|
      modifies this
      ensures w <= |bytes| && buffer == Some(Splice(old(buffer).value, offset, bytes[..w]))
      ensures w == |bytes| <==> Fits(offset, bytes, maxSize, g)
    {
      var n := if offset >= maxSize then 0 else if offset + |bytes| > maxSize then maxSize - offset else |bytes|;
      w := Min(n, g.bytes);
      buffer := Some(Splice(buffer.value, offset, bytes[..w]));
    }
  }

  /** The chained buffer behind the accessor: for some grant, determined by how many blocks the pool has to give, it
      stores and refuses exactly as the accessor does. */
  method StoreInChain(entry: TransferBufferManagerEntry, offset: nat, bytes: seq<Byte>, quota: nat) returns (w: nat, ghost g: Grant)
    requires entry.Valid() && offset <= |entry.Contents()|
    modifies entry`blocks, entry`maxWritePos, entry.blocks
    ensures entry.Valid() && w <= |bytes|
    ensures entry.Contents() == Splice(old(entry.Contents()), offset, bytes[..w])
    ensures w == |bytes| <==> Fits(offset, bytes, entry.maxSize, g)
  {
    entry.ContentsLength();
    g := Grant(true, BLOCK_SIZE * (|entry.blocks| + quota) - offset);
    w := entry.Write(offset, bytes, quota);
  }

  class TransferReceiver {
    var prevTransferTs: nat
    var thisTransferTs: nat
    var firstFrameTs: nat
    var transferIntervalMsec: nat
    var thisTransferCrc: Word16
    var bufferWritePos: nat
    var tid: TransferID
    var nextToggle: bool
    var ifaceIndex: nat
    var errorCnt: nat

    ghost function Abstract(): State
      reads this
    {
      State(prevTransferTs, thisTransferTs, firstFrameTs, transferIntervalMsec, thisTransferCrc,
            bufferWritePos, tid, nextToggle, ifaceIndex, errorCnt)
    }

    constructor ()
      ensures Abstract() == Initial()
    {
      prevTransferTs, thisTransferTs, firstFrameTs := 0, 0, 0;
      transferIntervalMsec, thisTransferCrc, bufferWritePos := DEFAULT_INTERVAL_MSEC, Zeros(16), 0;
      tid, nextToggle, ifaceIndex, errorCnt := 0, false, IFACE_NOT_SET, 0;
    }

    method RegisterError()
      modifies this
      ensures Abstract() == Failed(old(Abstract()))
    {
      errorCnt := (errorCnt + 1) % ERROR_MASK;
    }

    method UpdateTransferTimings()
      modifies this
      ensures Abstract() == Timed(old(Abstract()))
    {
      var prevPrevTs := prevTransferTs;
      prevTransferTs := thisTransferTs;
      if prevPrevTs != 0 && prevTransferTs != 0 && prevTransferTs >= prevPrevTs {
        var intervalMsec := (prevTransferTs - prevPrevTs) / 1000;
        intervalMsec := Min(intervalMsec, MAX_INTERVAL_MSEC);
        intervalMsec := Max(intervalMsec, MIN_INTERVAL_MSEC);
        transferIntervalMsec := (transferIntervalMsec * 7 + intervalMsec) / 8;
      }
    }

    method PrepareForNextTransfer()
      modifies this
      ensures Abstract() == NextTransfer(old(Abstract()))
    {
      tid := Next(tid);
      nextToggle := false;
      bufferWritePos := 0;
    }

    method Validate(f: RxFrame) returns (ok: bool)
      modifies this
      ensures ok == Accepts(old(Abstract()), f)
      ensures Abstract() == Validated(old(Abstract()), f)
    {
      if ifaceIndex != f.iface {
        return false;
      }
      if f.frame.startOfTransfer && !f.frame.endOfTransfer && |f.frame.payload| < 2 {
        RegisterError();
        return false;
      }
      if f.frame.startOfTransfer && f.frame.toggle {
        RegisterError();
        return false;
      }
      if f.frame.startOfTransfer && bufferWritePos > 0 {
        RegisterError();
      }
      if f.frame.toggle != nextToggle {
        RegisterError();
        return false;
      }
      if f.frame.tid != tid {
        RegisterError();
        return false;
      }
      return true;
    }

    method WritePayload(f: RxFrame, tba: TransferBufferAccessor, g: Grant) returns (ok: bool)
      requires tba.buffer.Some? && bufferWritePos <= |tba.buffer.value|
      modifies this, tba
      ensures ok == Storable(old(bufferWritePos), f.frame, tba.maxSize, g)
      ensures ok ==> tba.buffer == Some(Splice(old(tba.buffer).value, old(bufferWritePos), Body(f.frame)))
      ensures Abstract() == CarriedCrc(old(Abstract()), f.frame)
                            .(pos := if ok then old(bufferWritePos) + |Body(f.frame)| else old(bufferWritePos))
    {
      var payload := f.frame.payload;
      if f.frame.startOfTransfer {
        if |payload| < 2 {
          return false;
        }
        thisTransferCrc := Word(payload[1], payload[0]);
        payload := payload[2..];
      }
      var res := tba.Write(bufferWritePos, payload, g);
      ok := res == |payload|;
      if ok {
        assert payload[..res] == payload;
        bufferWritePos := bufferWritePos + |payload|;
      }
    }

    method ReceiveFrame(f: RxFrame, tba: TransferBufferAccessor, g: Grant) returns (code: Code)
      requires Coherent(Abstract(), tba.buffer)
      modifies this, tba
      ensures Outcome(Abstract(), tba.buffer, code) == Receive(old(Abstract()), old(tba.buffer), f, g, tba.maxSize)
    {
      if f.frame.startOfTransfer {
        thisTransferTs := f.tsMono;
        firstFrameTs := f.tsUtc;
      }
      if f.frame.startOfTransfer && f.frame.endOfTransfer {
        tba.Remove();
        UpdateTransferTimings();
        PrepareForNextTransfer();
        thisTransferCrc := Zeros(16);
        return SingleFrame;
      }
      if tba.buffer.None? {
        tba.Create(g);
      }
      if tba.buffer.None? {
        PrepareForNextTransfer();
        RegisterError();
        return NotComplete;
      }
      var ok := WritePayload(f, tba, g);
      if !ok {
        tba.Remove();
        PrepareForNextTransfer();
        RegisterError();
        return NotComplete;
      }
      nextToggle := !nextToggle;
      if f.frame.endOfTransfer {
        UpdateTransferTimings();
        PrepareForNextTransfer();
        return Complete;
      }
      return NotComplete;
    }

    method Restart(f: RxFrame, tba: TransferBufferAccessor, notInitialized: bool)
      requires notInitialized == (ifaceIndex == IFACE_NOT_SET)
      modifies this, tba
      ensures Abstract() == Restarted(old(Abstract()), f) && tba.buffer == None
    {
      if !notInitialized && tid != f.frame.tid {
        RegisterError();
      }
      tba.Remove();
      ifaceIndex := f.iface;
      tid := f.frame.tid;
      nextToggle := false;
      bufferWritePos := 0;
      thisTransferCrc := Zeros(16);
    }

    method AddFrame(f: RxFrame, tba: TransferBufferAccessor, g: Grant) returns (code: Code)
      requires Coherent(Abstract(), tba.buffer) && f.iface < MAX_CAN_IFACES
      modifies this, tba
      ensures Outcome(Abstract(), tba.buffer, code) == Step(old(Abstract()), old(tba.buffer), f, g, tba.maxSize)
      ensures Coherent(Abstract(), tba.buffer)
    {
      hide Receive, Timed, NextTransfer;
      StepCoherent(Abstract(), tba.buffer, f, g, tba.maxSize);
      if f.tsMono == 0 || f.tsMono < prevTransferTs || f.tsMono < thisTransferTs {
        return NotComplete;
      }
      var notInitialized := ifaceIndex == IFACE_NOT_SET;
      var tidTimedOut := f.tsMono - thisTransferTs > TID_TIMEOUT_USEC;
      var sameIface := f.iface == ifaceIndex;
      var firstFrame := f.frame.startOfTransfer;
      var nonWrappedTid := ForwardDistance(tid, f.frame.tid) < TID_HALF;
      var notPreviousTid := ForwardDistance(f.frame.tid, tid) > 1;
      var ifaceSwitchAllowed := f.tsMono - thisTransferTs > transferIntervalMsec * 1000;

      var needRestart :=
        || notInitialized
        || tidTimedOut
        || (sameIface && firstFrame && notPreviousTid)
        || (ifaceSwitchAllowed && firstFrame && nonWrappedTid);

      if needRestart {
        Restart(f, tba, notInitialized);
        if !firstFrame {
          tid := Next(tid);
          return NotComplete;
        }
      }
      var ok := Validate(f);
      if !ok {
        return NotComplete;
      }
      code := ReceiveFrame(f, tba, g);
    }
  }
}
