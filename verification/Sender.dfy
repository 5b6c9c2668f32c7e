/**
  The transfer sender: cuts a payload into CAN frames and assigns transfer IDs from a registry of
  outgoing transfers.

  `Transfer` says which frames a payload becomes: the CRC in front, seven bytes per frame, an
  alternating toggle bit, one start and one end mark.  The sending loop is proved to emit exactly
  these frames, or, when the bus refuses one, exactly the frames before it.
 */
module Sender {
  import opened Bits
  import opened Frames
  import Crc
  import Receiver

  const ERR_MEMORY := 3
  const ERR_PASSIVE_MODE := 11
  const MIN_ENTRY_LIFETIME_USEC := 2000 * 1000

  /** Everything about a transfer except its payload. */
  datatype Header = Header(
    priority: nat,
    transferType: TransferType,
    dataTypeId: nat,
    src: nat,
    dst: nat,
    tid: TransferID)
  {
    /** What the frame constructor demands of its arguments. */
    predicate WellFormed() {
      && src <= MAX_NODE_ID && dst <= MAX_NODE_ID && priority < 32
      && (src != BROADCAST ==> src != dst)
      && (transferType.MessageBroadcast? <==> dst == BROADCAST)
      && dataTypeId <= (if transferType.MessageBroadcast? then 65535 else 255)
    }

    function Mark(start: bool, end: bool, toggle: bool, payload: seq<Byte>): Frame {
      Frame(priority, transferType, dataTypeId, src, dst, tid, start, end, toggle, payload)
    }
  }

  // ----- Which frames a payload becomes

  /** The byte stream of a multi-frame transfer: the CRC, least significant byte first, then the payload. */
  function Stream(crcBase: Word16, payload: seq<Byte>): (s: seq<Byte>)
    ensures |s| == |payload| + 2
  {
    var crc := Crc.Update(crcBase, payload);
    [crc[8..], crc[..8]] + payload
  }

  function NumFrames(len: nat): nat { (len + PAYLOAD_CAPACITY - 1) / PAYLOAD_CAPACITY }

  /** The bytes carried by frame `k`. */
  function Chunk(s: seq<Byte>, k: nat): seq<Byte>
    requires k < NumFrames(|s|)
  {
    s[7 * k..if 7 * k + 7 < |s| then 7 * k + 7 else |s|]
  }

  function MultiFrame(h: Header, s: seq<Byte>, k: nat): Frame
    requires k < NumFrames(|s|)
  {
    h.Mark(k == 0, k == NumFrames(|s|) - 1, k % 2 == 1, Chunk(s, k))
  }

  function NumOf(payload: seq<Byte>): nat {
    if |payload| <= PAYLOAD_CAPACITY then 1 else NumFrames(|payload| + 2)
  }

  function Transfer(h: Header, crcBase: Word16, payload: seq<Byte>): (fs: seq<Frame>)
    ensures |fs| == NumOf(payload)
  {
    if |payload| <= PAYLOAD_CAPACITY then [h.Mark(true, true, false, payload)]
    else
      var s := Stream(crcBase, payload);
      seq(NumFrames(|s|), k requires 0 <= k < NumFrames(|s|) => MultiFrame(h, s, k))
  }

  /** Every frame of a transfer can be compiled. */
  lemma TransferIsValid(h: Header, crcBase: Word16, payload: seq<Byte>)
    requires h.WellFormed()
    requires h.src == BROADCAST ==> h.transferType.MessageBroadcast? && |payload| <= PAYLOAD_CAPACITY
    ensures forall i :: 0 <= i < |Transfer(h, crcBase, payload)| ==> Transfer(h, crcBase, payload)[i].IsValid()
  {
    hide Crc.Update;
  }

  // ----- The registry of outgoing transfers

  datatype RegistryKey = RegistryKey(dataTypeId: nat, transferType: TransferType, dst: nat)

  datatype Entry = Entry(deadline: nat, tid: TransferID)

  class OutgoingTransferRegistry {
    var entries: map<RegistryKey, Entry>

    constructor ()
      ensures entries == map[]
    {
      entries := map[];
    }

    /** The transfer ID to use now; the stored one moves on.  A fresh entry starts at zero. */
    method TakeTid(key: RegistryKey, newDeadline: nat, mayInsert: bool) returns (tid: Option<TransferID>)
      modifies this
      ensures tid.None? <==> key !in old(entries) && !mayInsert
      ensures tid.None? ==> entries == old(entries)
      ensures tid.Some? ==> tid == Some(if key in old(entries) then old(entries)[key].tid else 0)
                            && entries == old(entries)[key := Entry(newDeadline, Receiver.Next(tid.value))]
    {
      if key !in entries {
        if !mayInsert {
          return None;
        }
        entries := entries[key := Entry(0, 0)];
      }
      tid := Some(entries[key].tid);
      entries := entries[key := Entry(newDeadline, Receiver.Next(entries[key].tid))];
    }

    /** Of every key: an entry whose deadline has passed is forgotten, any other keeps its place in the sequence. */
    method Cleanup(now: nat)
      modifies this
      ensures forall k :: EntryOf(entries, k) == Kept(EntryOf(old(entries), k), now)
    {
      var todo := entries.Keys;
      while todo != {}
        invariant todo <= old(entries).Keys
        invariant forall k :: EntryOf(entries, k) == if k in todo then EntryOf(old(entries), k) else Kept(EntryOf(old(entries), k), now)
        decreases |todo|
      {
        var k :| k in todo;
        assert EntryOf(entries, k) == Some(entries[k]);
        if entries[k].deadline <= now {
          entries := entries - {k};
        }
        todo := todo - {k};
      }
    }
  }

  function EntryOf(entries: map<RegistryKey, Entry>, key: RegistryKey): Option<Entry> {
    if key in entries then Some(entries[key]) else None
  }

  /** What a clean-up at time `now` leaves of an entry. */
  function Kept(e: Option<Entry>, now: nat): Option<Entry> {
    if e.Some? && e.value.deadline <= now then None else e
  }

  /** The transfer ID that the next send takes. */
  function TidFor(e: Option<Entry>): TransferID { if e.Some? then e.value.tid else 0 }

  /** The sequence of a key survives a clean-up, whatever happens to other keys, until the deadline set by the last send. */
  lemma SequenceSurvives(entries: map<RegistryKey, Entry>, cleaned: map<RegistryKey, Entry>, key: RegistryKey, deadline: nat, now: nat)
    requires forall k :: EntryOf(cleaned, k) == Kept(EntryOf(entries[key := Entry(deadline, Receiver.Next(TidFor(EntryOf(entries, key))))], k), now)
    ensures TidFor(EntryOf(cleaned, key)) == if now < deadline then Receiver.Next(TidFor(EntryOf(entries, key))) else 0
  {
    var e := entries[key := Entry(deadline, Receiver.Next(TidFor(EntryOf(entries, key))))];
    assert EntryOf(e, key) == Some(e[key]);
    assert EntryOf(cleaned, key) == Kept(EntryOf(e, key), now);
  }

  // ----- The sending loop

  /** `net(k)` is what the dispatcher answers to the k-th frame: negative is a failure. */
  class TransferSender {
    const maxTransferInterval: nat
    const selfNodeId: nat
    const dataTypeId: nat
    const crcBase: Word16
    var priority: nat
    var allowAnonymous: bool

    constructor (interval: nat, self: nat, dtid: nat, base: Word16, prio: nat)
      ensures maxTransferInterval == interval && selfNodeId == self && dataTypeId == dtid && crcBase == base
      ensures priority == prio && !allowAnonymous
    {
      maxTransferInterval, selfNodeId, dataTypeId, crcBase, priority := interval, self, dtid, base, prio;
      allowAnonymous := false;
    }

    function HeaderFor(t: TransferType, dst: nat, tid: TransferID): Header
      reads this
    {
      Header(priority, t, dataTypeId, selfNodeId, dst, tid)
    }

    predicate MaySend(t: TransferType, len: nat)
      reads this
    {
      selfNodeId != BROADCAST || (allowAnonymous && t.MessageBroadcast? && len <= PAYLOAD_CAPACITY)
    }

    /** A forbidden send does nothing; otherwise the frames of the transfer go out in order up to the first failure,
        which is the result, and without a failure the result is the network's answer or the number of frames. */
    ghost predicate SendResult(t: TransferType, dst: nat, tid: TransferID, payload: seq<Byte>, net: nat -> int, res: int, sent: seq<Frame>)
      reads this
    {
      if !MaySend(t, |payload|) then res == -ERR_PASSIVE_MODE && sent == []
      else
        var fs := Transfer(HeaderFor(t, dst, tid), crcBase, payload);
        && |sent| <= |fs| && sent == fs[..|sent|]
        && (forall i :: 0 <= i < |sent| ==> net(i) >= 0)
        && (|sent| < |fs| ==> res == net(|sent|) < 0)
        && (|sent| == |fs| ==> res == if |fs| == 1 then net(0) else |fs|)
    }

    method Send(payload: seq<Byte>, t: TransferType, dst: nat, tid: TransferID, net: nat -> int)
      returns (res: int, sent: seq<Frame>)
      requires HeaderFor(t, dst, tid).WellFormed()
      ensures SendResult(t, dst, tid, payload, net, res, sent)
    {
      sent := [];
      var h := HeaderFor(t, dst, tid);
      if selfNodeId == BROADCAST {
        var allow := allowAnonymous && t.MessageBroadcast? && |payload| <= PAYLOAD_CAPACITY;
        if !allow {
          return -ERR_PASSIVE_MODE, sent;
        }
      }
      if PAYLOAD_CAPACITY >= |payload| {
        res := net(0);
        if res >= 0 {
          sent := [h.Mark(true, true, false, payload)];
        }
      } else {
        res, sent := SendMulti(h, payload, net);
      }
    }

    method SendMulti(h: Header, payload: seq<Byte>, net: nat -> int) returns (res: int, sent: seq<Frame>)
      requires |payload| > PAYLOAD_CAPACITY
      ensures var fs := Transfer(h, crcBase, payload);
              && |fs| > 1 && |sent| <= |fs| && sent == fs[..|sent|]
              && (forall i :: 0 <= i < |sent| ==> net(i) >= 0)
              && (|sent| < |fs| ==> res == net(|sent|) < 0)
              && (|sent| == |fs| ==> res == |fs|)
    {
      ghost var fs := Transfer(h, crcBase, payload);
      ghost var s := Stream(crcBase, payload);
      sent := [];
      var crc := new Crc.TransferCRC(crcBase);
      crc.AddBytes(payload);
      var buf: seq<Byte> := [crc.value[8..], crc.value[..8]] + payload[..6];
      var start, end, toggle := true, false, false;
      var chunk: seq<Byte> := buf[..PAYLOAD_CAPACITY];
      var offset := 5;
      assert chunk == Chunk(s, 0);
      while true
        invariant |sent| < |fs| && sent == fs[..|sent|] && forall i :: 0 <= i < |sent| ==> net(i) >= 0
        invariant h.Mark(start, end, toggle, chunk) == fs[|sent|]
        invariant offset == (if 7 * |sent| + 5 < |payload| then 7 * |sent| + 5 else |payload|)
        invariant end <==> |sent| == |fs| - 1
        decreases |fs| - |sent|
      {
        res := net(|sent|);
        if res < 0 {
          return;
        }
        sent := sent + [h.Mark(start, end, toggle, chunk)];
        if end {
          return |sent|, sent;
        }
        start := false;
        toggle := !toggle;
        var n := if |payload| - offset < PAYLOAD_CAPACITY then |payload| - offset else PAYLOAD_CAPACITY;
        chunk := payload[offset..offset + n];
        assert chunk == Chunk(s, |sent|);
        offset := offset + n;
        if offset >= |payload| {
          end := true;
        }
      }
    }

    /** Send with a transfer ID from the registry. */
    method SendAuto(payload: seq<Byte>, txDeadline: nat, t: TransferType, dst: nat, registry: OutgoingTransferRegistry,
                    mayInsert: bool, net: nat -> int)
      returns (res: int, sent: seq<Frame>)
      requires HeaderFor(t, dst, 0).WellFormed() && !t.ServiceResponse?
      modifies registry
      ensures var key := RegistryKey(dataTypeId, t, dst);
              if key !in old(registry.entries) && !mayInsert then
                res == -ERR_MEMORY && sent == [] && registry.entries == old(registry.entries)
              else
                var tid := TidFor(EntryOf(old(registry.entries), key));
                && registry.entries == old(registry.entries)[key := Entry(EntryDeadline(txDeadline, maxTransferInterval),
                                                                          Receiver.Next(tid))]
                && SendResult(t, dst, tid, payload, net, res, sent)
    {
      var tid := registry.TakeTid(RegistryKey(dataTypeId, t, dst), EntryDeadline(txDeadline, maxTransferInterval), mayInsert);
      if tid.None? {
        return -ERR_MEMORY, [];
      }
      res, sent := Send(payload, t, dst, tid.value, net);
    }
  }

  function EntryDeadline(txDeadline: nat, maxInterval: nat): nat {
    txDeadline + (if maxInterval * 2 > MIN_ENTRY_LIFETIME_USEC then maxInterval * 2 else MIN_ENTRY_LIFETIME_USEC)
  }
}
