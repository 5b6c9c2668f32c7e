/**
  Sending one CAN frame on several interfaces through their queues.

  The driver, the clock and the pool are an arbitrary script of rounds.  Each interface keeps, besides
  its queue, the history of what its driver accepted and of what was pushed to its queue; the histories
  decide nothing and let the results speak about frames rather than counts.
 */
module CanIo {
  import opened Frames
  import opened TxQueue

  const ERR_DRIVER := 4

  datatype Iface = Iface(q: Queue, sent: seq<Entry>, pushed: seq<Entry>)

  /** What the driver answers to an offer of the queue head and of the new frame, at time `now`. */
  datatype Answer = Answer(now: nat, fromQueue: int, direct: int)

  /** One turn of the send loop as the outside world plays it. */
  datatype Round = Round(selected: int, write: seq<bool>, answers: seq<Answer>, clock: nat,
                         pushTimes: seq<nat>, grants: seq<Grants>)
  {
    predicate For(n: nat) { |write| == |answers| == |pushTimes| == |grants| == n }

    /** An interface that is reported writable takes the next frame. */
    ghost predicate Accepting() {
      forall i :: 0 <= i < |answers| ==> answers[i].fromQueue > 0 && answers[i].direct > 0
    }
  }

  // ----- Histories

  /** How often a call's frame occurs in a history. */
  ghost function Times(es: seq<Entry>, serial: nat): nat {
    if es == [] then 0 else Times(es[..|es| - 1], serial) + if es[|es| - 1].serial == serial then 1 else 0
  }

  lemma TimesSnoc(es: seq<Entry>, x: Entry, serial: nat)
    ensures Times(es + [x], serial) == Times(es, serial) + if x.serial == serial then 1 else 0
  {
    assert (es + [x])[..|es|] == es;
  }

  ghost predicate Below(es: seq<Entry>, bound: nat) { forall x <- es :: x.serial < bound }

  lemma {:induction false} TimesBelow(es: seq<Entry>, serial: nat)
    requires Below(es, serial)
    ensures Times(es, serial) == 0
  {
    if es != [] {
      assert es[|es| - 1] in es;
      TimesBelow(es[..|es| - 1], serial);
    }
  }

  /** Frames of equal arbitration priority left in the order of their calls, and before those still queued. */
  ghost predicate InOrder(s: Iface) {
    && (forall i, j :: 0 <= i < j < |s.sent| && Rank(s.sent[i].frame) == Rank(s.sent[j].frame) ==> s.sent[i].serial < s.sent[j].serial)
    && (forall x, y :: x in s.sent && y in s.q.entries && Rank(x.frame) == Rank(y.frame) ==> x.serial < y.serial)
  }

  /** Between calls: everything on record comes from calls before number `next`. */
  ghost predicate Idle(s: Iface, next: nat) {
    Inv(s.q) && Below(s.q.entries, next) && Below(s.sent, next) && Below(s.pushed, next)
  }

  /** During call `e`, with the frame selected for this interface or not, and still wanted or not. */
  ghost predicate Busy(s: Iface, e: Entry, selected: bool, wanted: bool) {
    && Inv(s.q) && Below(s.q.entries, e.serial) && Below(s.pushed, e.serial) && Below(s.sent, e.serial + 1)
    && (wanted ==> selected && Below(s.sent, e.serial))
    && Times(s.sent, e.serial) == if selected && !wanted then 1 else 0
  }

  // ----- One interface

  function SendFromTxQueue(s: Iface, now: nat, answer: int): (r: (Iface, int))
    requires |s.q.entries| <= s.q.used
  {
    var q := Peek(s.q, now);
    if q.entries == [] then (s.(q := q), 0)
    else if answer > 0 then (s.(q := Evict(q, 0), sent := s.sent + [q.entries[0]]), answer)
    else (s.(q := q), answer)
  }

  /** What one turn does on a writable interface: the new interface, whether the frame is still wanted, the result code. */
  function Transmit(s: Iface, wanted: bool, e: Entry, a: Answer): (r: (Iface, bool, int))
    requires |s.q.entries| <= s.q.used
  {
    if !wanted then
      var (s', res) := SendFromTxQueue(s, a.now, a.fromQueue);
      (s', false, res)
    else
      var (s1, res) := if TopPriorityHigherOrEqual(s.q, e.frame) then SendFromTxQueue(s, a.now, a.fromQueue) else (s, 0);
      if res > 0 then (s1, true, res)
      else if a.direct > 0 then (s1.(sent := s1.sent + [e]), false, a.direct)
      else (s1, true, a.direct)
  }

  /** An entry that leaves the queue goes to the end of the history; the order is kept. */
  lemma QueueSendFacts(s: Iface, e: Entry, selected: bool, wanted: bool, now: nat, answer: int)
    requires Busy(s, e, selected, wanted)
    ensures var (s', res) := SendFromTxQueue(s, now, answer);
            && Busy(s', e, selected, wanted) && s'.pushed == s.pushed
            && |s'.sent| == |s.sent| + (if res > 0 then 1 else 0)
            && (res <= 0 ==> s'.sent == s.sent)
            && (answer > 0 && res <= 0 ==> s'.q.entries == [])
            && (forall x <- s'.q.entries :: x in s.q.entries)
            && (InOrder(s) ==> InOrder(s'))
  {
    hide Peek, Rank, Inv;
    InvBound(s.q);
    var n := PeekFacts(s.q, now);
    var q := Peek(s.q, now);
    assert forall x <- q.entries :: x in s.q.entries;
    InvBound(q);
    if q.entries != [] && answer > 0 {
      HeadLeaves(s, s.(q := q), e);
    }
  }

  lemma InvBound(q: Queue)
    requires Inv(q)
    ensures |q.entries| <= q.used && Ordered(q.entries)
  {}

  lemma HeadLeaves(s0: Iface, s: Iface, e: Entry)
    requires Inv(s.q) && s.q.entries != [] && Below(s.q.entries, e.serial) && Below(s.sent, e.serial + 1) && s0.sent == s.sent
    requires forall x <- s.q.entries :: x in s0.q.entries
    ensures var s' := s.(q := Evict(s.q, 0), sent := s.sent + [s.q.entries[0]]);
            && Inv(s'.q) && Below(s'.q.entries, e.serial) && Below(s'.sent, e.serial + 1)
            && (Below(s.sent, e.serial) ==> Below(s'.sent, e.serial))
            && Times(s'.sent, e.serial) == Times(s.sent, e.serial)
            && (forall x <- s'.q.entries :: x in s.q.entries)
            && (InOrder(s0) ==> InOrder(s'))
  {
    hide Rank;
    var h := s.q.entries[0];
    var es := Removed(s.q.entries, 0);
    RemovedOrdered(s.q.entries, 0);
    TimesSnoc(s.sent, h, e.serial);
    assert h in s.q.entries;
    forall y | y in es
      ensures Before(h, y)
    {
      var j :| 0 <= j < |es| && es[j] == y;
      assert y == s.q.entries[j + 1];
    }
  }

  /** Sending the new frame directly keeps the order exactly when nothing of its priority is queued. */
  lemma DirectSendFacts(s: Iface, e: Entry)
    requires Busy(s, e, true, true)
    ensures Busy(s.(sent := s.sent + [e]), e, true, false)
    ensures InOrder(s) ==> (InOrder(s.(sent := s.sent + [e])) <==> NoEqual(s.q, e))
  {
    hide Rank, Inv, InOrder, NoEqual;
    TimesSnoc(s.sent, e, e.serial);
    if InOrder(s) {
      DirectSendOrder(s, e);
    }
  }

  lemma DirectSendOrder(s: Iface, e: Entry)
    requires Below(s.sent, e.serial) && Below(s.q.entries, e.serial) && InOrder(s)
    ensures InOrder(s.(sent := s.sent + [e])) <==> NoEqual(s.q, e)
  {
    hide Rank;
    var s' := s.(sent := s.sent + [e]);
    assert e in s'.sent by { assert s'.sent[|s.sent|] == e; }
    if NoEqual(s.q, e) {
      forall i, j | 0 <= i < j < |s'.sent| && Rank(s'.sent[i].frame) == Rank(s'.sent[j].frame)
        ensures s'.sent[i].serial < s'.sent[j].serial
      {
        assert s'.sent[i] == s.sent[i] && s.sent[i] in s.sent;
      }
    }
  }

  ghost predicate NoEqual(q: Queue, e: Entry) { forall y <- q.entries :: Rank(y.frame) != Rank(e.frame) }

  /** If the head does not precede the new frame, nothing queued does. */
  lemma NothingAbove(q: Queue, f: CanFrame)
    requires Inv(q) && !TopPriorityHigherOrEqual(q, f)
    ensures forall y <- q.entries :: Rank(y.frame) > Rank(f)
  {
    hide Rank, PriorityHigherThan;
    if q.entries != [] {
      PriorityIsRank(f, q.entries[0].frame);
      forall y | y in q.entries
        ensures Rank(y.frame) > Rank(f)
      {
        var j :| 0 <= j < |q.entries| && q.entries[j] == y;
        assert j > 0 ==> Before(q.entries[0], y);
      }
    }
  }

  lemma TransmitFacts(s: Iface, e: Entry, selected: bool, wanted: bool, a: Answer)
    requires Busy(s, e, selected, wanted)
    ensures var (s', wanted', res) := Transmit(s, wanted, e, a);
            && Busy(s', e, selected, wanted') && s'.pushed == s.pushed
            && |s'.sent| == |s.sent| + (if res > 0 then 1 else 0)
            && (InOrder(s) && a.fromQueue > 0 && a.direct > 0 ==> InOrder(s'))
  {
    hide SendFromTxQueue, InOrder, Busy, TopPriorityHigherOrEqual;
    BusyInv(s, e, selected, wanted);
    QueueSendFacts(s, e, selected, wanted, a.now, a.fromQueue);
    if wanted {
      var (s1, res) := if TopPriorityHigherOrEqual(s.q, e.frame) then SendFromTxQueue(s, a.now, a.fromQueue) else (s, 0);
      if res <= 0 && a.direct > 0 {
        DirectSendFacts(s1, e);
        if !TopPriorityHigherOrEqual(s.q, e.frame) {
          NothingAbove(s.q, e.frame);
          NoneAboveNoneEqual(s.q, e);
        } else {
          EmptyNoEqual(s1.q, e);
        }
      }
    }
  }

  /** The new frame is sent past an equal one that the driver has just refused. */
  ghost predicate Overtakes(s: Iface, e: Entry, a: Answer)
    requires |s.q.entries| <= s.q.used
  {
    TopPriorityHigherOrEqual(s.q, e.frame) && a.fromQueue <= 0 && a.direct > 0 && !NoEqual(Peek(s.q, a.now), e)
  }

  /** Without any assumption on the driver: a turn keeps the order unless the frame overtakes, and overtaking is the only way. */
  lemma OrderExact(s: Iface, e: Entry, a: Answer)
    requires Busy(s, e, true, true) && InOrder(s)
    ensures |s.q.entries| <= s.q.used && (InOrder(Transmit(s, true, e, a).0) <==> !Overtakes(s, e, a))
  {
    hide InOrder, Busy, TopPriorityHigherOrEqual, Peek, NoEqual;
    BusyInv(s, e, true, true);
    QueueSendFacts(s, e, true, true, a.now, a.fromQueue);
    var s1 := if TopPriorityHigherOrEqual(s.q, e.frame) then SendFromTxQueue(s, a.now, a.fromQueue).0 else s;
    DirectSendFacts(s1, e);
    if !TopPriorityHigherOrEqual(s.q, e.frame) {
      NothingAbove(s.q, e.frame);
      NoneAboveNoneEqual(s.q, e);
    } else {
      EmptyNoEqual(s1.q, e);
    }
  }

  /** The failing input, for any frame: one entry queued, the driver refuses it and then takes an equal frame of a later call. */
  lemma OvertakesQueued(f: CanFrame)
    ensures var first, second := Entry(f, 10, Volatile, 0, 0), Entry(f, 10, Volatile, 0, 1);
            var s := Iface(Queue([first], 1, 1, 0), [], [first]);
            && Busy(s, second, true, true) && InOrder(s)
            && Transmit(s, true, second, Answer(5, 0, 1)).0 == s.(sent := [second])
            && !InOrder(s.(sent := [second]))
  {
    hide PriorityHigherThan, Rank;
    var first, second := Entry(f, 10, Volatile, 0, 0), Entry(f, 10, Volatile, 0, 1);
    PriorityIsRank(f, f);
    assert first in [first] && second in [second];
    assert Times([], 1) == 0;
    assert [] + [second] == [second];
  }

  lemma NoneAboveNoneEqual(q: Queue, e: Entry)
    requires forall y <- q.entries :: Rank(y.frame) > Rank(e.frame)
    ensures NoEqual(q, e)
  {
    hide Rank;
  }

  lemma EmptyNoEqual(q: Queue, e: Entry)
    ensures q.entries == [] ==> NoEqual(q, e)
  {
    hide Rank;
  }

  lemma BusyInv(s: Iface, e: Entry, selected: bool, wanted: bool)
    requires Busy(s, e, selected, wanted)
    ensures Inv(s.q) && |s.q.entries| <= s.q.used && (wanted ==> selected)
  {}

  function Enqueue(s: Iface, e: Entry, now: nat, g: Grants): Iface
    requires |s.q.entries| <= s.q.used
  {
    s.(q := Push(s.q, e, now, g).0, pushed := s.pushed + [e])
  }

  lemma EnqueueOrder(s: Iface, e: Entry, now: nat, g: Grants)
    requires Busy(s, e, true, true) && InOrder(s)
    ensures InOrder(Enqueue(s, e, now, g))
  {
    hide Rank, Push, Inv;
    assert forall i :: 0 <= i < |s.q.entries| ==> s.q.entries[i] in s.q.entries;
    PushInv(s.q, e, now, g);
  }

  lemma EnqueueFacts(s: Iface, e: Entry, now: nat, g: Grants)
    requires Busy(s, e, true, true)
    ensures var s' := Enqueue(s, e, now, g);
            && Idle(s', e.serial + 1)
            && Times(s'.sent, e.serial) == 0 && Times(s'.pushed, e.serial) == 1
            && (InOrder(s) ==> InOrder(s'))
  {
    hide Push, Inv, InOrder;
    if InOrder(s) {
      EnqueueOrder(s, e, now, g);
    }
    assert forall i :: 0 <= i < |s.q.entries| ==> s.q.entries[i] in s.q.entries;
    PushInv(s.q, e, now, g);
    TimesSnoc(s.pushed, e, e.serial);
    TimesBelow(s.pushed, e.serial);
    TimesBelow(s.sent, e.serial);
  }

  lemma BusyEnds(s: Iface, e: Entry, selected: bool, wanted: bool)
    requires Busy(s, e, selected, wanted)
    ensures Idle(s, e.serial + 1) && Times(s.pushed, e.serial) == 0
    ensures Times(s.sent, e.serial) == if selected && !wanted then 1 else 0
  {
    hide Inv;
    TimesBelow(s.pushed, e.serial);
  }

  lemma BusyStarts(s: Iface, e: Entry, selected: bool)
    requires Idle(s, e.serial)
    ensures Busy(s, e, selected, selected)
  {
    hide Inv;
    TimesBelow(s.sent, e.serial);
  }

  // ----- All interfaces

  ghost function TotalSent(ifaces: seq<Iface>): nat {
    if ifaces == [] then 0 else TotalSent(ifaces[..|ifaces| - 1]) + |ifaces[|ifaces| - 1].sent|
  }

  lemma {:induction false} TotalSentUpdate(ifaces: seq<Iface>, i: nat, s: Iface)
    requires i < |ifaces|
    ensures TotalSent(ifaces[i := s]) == TotalSent(ifaces) - |ifaces[i].sent| + |s.sent|
  {
    var n := |ifaces| - 1;
    if i == n {
      assert ifaces[i := s][..n] == ifaces[..n];
    } else {
      TotalSentUpdate(ifaces[..n], i, s);
      assert ifaces[i := s][..n] == ifaces[..n][i := s];
    }
  }

  ghost predicate AllIdle(ifaces: seq<Iface>, next: nat) { forall i :: 0 <= i < |ifaces| ==> Idle(ifaces[i], next) }

  ghost predicate AllInOrder(ifaces: seq<Iface>) { forall i :: 0 <= i < |ifaces| ==> InOrder(ifaces[i]) }

  ghost predicate AllBusy(ifaces: seq<Iface>, e: Entry, mask: seq<bool>, wanted: seq<bool>) {
    && |ifaces| == |mask| == |wanted|
    && forall i :: 0 <= i < |ifaces| ==> Busy(ifaces[i], e, mask[i], wanted[i])
  }

  /** The frame went to the driver once or to the queue once, on exactly the selected interfaces. */
  ghost predicate ExactlyOnce(s: Iface, e: Entry, selected: bool) {
    Times(s.sent, e.serial) + Times(s.pushed, e.serial) == if selected then 1 else 0
  }

  /** Each interface is still busy with the frame, or is done with it: pushed where it was wanted. */
  ghost predicate Settled(ifaces: seq<Iface>, e: Entry, mask: seq<bool>, wanted: seq<bool>, k: nat) {
    && |ifaces| == |mask| == |wanted| && k <= |mask|
    && (forall i :: 0 <= i < k ==> Idle(ifaces[i], e.serial + 1) && ExactlyOnce(ifaces[i], e, mask[i]))
    && (forall i :: k <= i < |mask| ==> Busy(ifaces[i], e, mask[i], wanted[i]))
  }

  class CanIOManager {
    var ifaces: seq<Iface>

    /** Offer the queue heads and the frame to every interface that the driver reported writable. */
    method TransmitAll(e: Entry, writable: seq<bool>, answers: seq<Answer>, ghost mask: seq<bool>, wanted: seq<bool>)
      returns (wanted': seq<bool>, count: nat)
      requires |writable| == |answers| == |ifaces| && AllBusy(ifaces, e, mask, wanted)
      modifies this
      ensures AllBusy(ifaces, e, mask, wanted') && |ifaces| == old(|ifaces|)
      ensures TotalSent(ifaces) == old(TotalSent(ifaces)) + count
      ensures old(AllInOrder(ifaces)) && (forall i :: 0 <= i < |answers| ==> answers[i].fromQueue > 0 && answers[i].direct > 0) ==> AllInOrder(ifaces)
    {
      hide Busy, InOrder, Transmit, TotalSent;
      wanted', count := wanted, 0;
      var i := 0;
      while i < |ifaces|
        invariant 0 <= i <= |ifaces| == |writable| && AllBusy(ifaces, e, mask, wanted')
        invariant TotalSent(ifaces) == old(TotalSent(ifaces)) + count
        invariant old(AllInOrder(ifaces)) && (forall j :: 0 <= j < |answers| ==> answers[j].fromQueue > 0 && answers[j].direct > 0) ==> AllInOrder(ifaces)
      {
        if writable[i] {
          TransmitFacts(ifaces[i], e, mask[i], wanted'[i], answers[i]);
          BusyInv(ifaces[i], e, mask[i], wanted'[i]);
          var (s, w, res) := Transmit(ifaces[i], wanted'[i], e, answers[i]);
          TotalSentUpdate(ifaces, i, s);
          ifaces := ifaces[i := s];
          wanted' := wanted'[i := w];
          if res > 0 {
            count := count + 1;
          }
        }
        i := i + 1;
      }
    }

    /** On timeout, push the frame to the queue of every interface that still wants it. */
    method EnqueueAll(e: Entry, times: seq<nat>, grants: seq<Grants>, ghost mask: seq<bool>, wanted: seq<bool>)
      requires |times| == |grants| == |ifaces| && AllBusy(ifaces, e, mask, wanted)
      modifies this
      ensures |ifaces| == old(|ifaces|) && Settled(ifaces, e, mask, wanted, |mask|)
      ensures TotalSent(ifaces) == old(TotalSent(ifaces))
      ensures old(AllInOrder(ifaces)) ==> AllInOrder(ifaces)
    {
      hide Busy, InOrder, Idle, Times, TotalSent, Push;
      var i := 0;
      while i < |ifaces|
        invariant 0 <= i <= |ifaces| == |times| && Settled(ifaces, e, mask, wanted, i)
        invariant TotalSent(ifaces) == old(TotalSent(ifaces))
        invariant old(AllInOrder(ifaces)) ==> AllInOrder(ifaces)
      {
        BusyInv(ifaces[i], e, mask[i], wanted[i]);
        BusyEnds(ifaces[i], e, mask[i], wanted[i]);
        if wanted[i] {
          EnqueueFacts(ifaces[i], e, times[i], grants[i]);
          var s := Enqueue(ifaces[i], e, times[i], grants[i]);
          TotalSentUpdate(ifaces, i, s);
          ifaces := ifaces[i := s];
        }
        i := i + 1;
      }
    }

    /**
      Send a frame on the interfaces of `mask`.  `done` is false when the script ends while the call is
      still waiting; a negative result is a driver failure.
     */
    method Send(e: Entry, blockingDeadline: nat, mask: seq<bool>, rounds: seq<Round>) returns (done: bool, res: int)
      requires |mask| == |ifaces| && AllIdle(ifaces, e.serial) && forall r <- rounds :: r.For(|ifaces|)
      modifies this
      ensures |ifaces| == old(|ifaces|) && AllIdle(ifaces, e.serial + 1)
      ensures done && res >= 0 ==> forall i :: 0 <= i < |mask| ==> ExactlyOnce(ifaces[i], e, mask[i])
      ensures forall i :: 0 <= i < |mask| ==> Times(ifaces[i].sent, e.serial) + Times(ifaces[i].pushed, e.serial) <= if mask[i] then 1 else 0
      ensures res >= 0 ==> TotalSent(ifaces) == old(TotalSent(ifaces)) + res
      ensures res < 0 ==> res == -ERR_DRIVER && done
      ensures old(AllInOrder(ifaces)) && (forall r <- rounds :: r.Accepting()) ==> AllInOrder(ifaces)
    {
      hide Busy, InOrder, Idle, Times, TotalSent;
      var deadline := if blockingDeadline > e.deadline then e.deadline else blockingDeadline;
      var wanted := mask;
      done, res := false, 0;
      forall i | 0 <= i < |ifaces|
        ensures Busy(ifaces[i], e, mask[i], mask[i])
      {
        BusyStarts(ifaces[i], e, mask[i]);
      }
      var k := 0;
      while k < |rounds| && true in wanted
        invariant 0 <= k <= |rounds| && |ifaces| == old(|ifaces|) && AllBusy(ifaces, e, mask, wanted)
        invariant res >= 0 && TotalSent(ifaces) == old(TotalSent(ifaces)) + res
        invariant old(AllInOrder(ifaces)) && (forall r <- rounds :: r.Accepting()) ==> AllInOrder(ifaces)
      {
        var round := rounds[k];
        assert round in rounds;
        if round.selected < 0 {
          AllEnd(ifaces, e, mask, wanted);
          return true, -ERR_DRIVER;
        }
        var writable := seq(|ifaces|, i requires 0 <= i < |ifaces| && |round.write| == |wanted| == |ifaces| reads this =>
                                        round.write[i] && (wanted[i] || ifaces[i].q.entries != []));
        var count;
        wanted, count := TransmitAll(e, writable, round.answers, mask, wanted);
        res := res + count;
        // No writable interface and no timeout is a premature wake-up, which the loop repeats.
        if round.clock >= deadline {
          EnqueueAll(e, round.pushTimes, round.grants, mask, wanted);
          ExactlyOnceBound(ifaces, e, mask);
          return true, res;
        }
        k := k + 1;
      }
      AllEnd(ifaces, e, mask, wanted);
      done := true !in wanted;
    }
  }

  lemma ExactlyOnceBound(ifaces: seq<Iface>, e: Entry, mask: seq<bool>)
    requires |ifaces| == |mask| && forall i :: 0 <= i < |mask| ==> ExactlyOnce(ifaces[i], e, mask[i])
    ensures forall i :: 0 <= i < |mask| ==> Times(ifaces[i].sent, e.serial) + Times(ifaces[i].pushed, e.serial) <= if mask[i] then 1 else 0
  {}

  lemma AllEnd(ifaces: seq<Iface>, e: Entry, mask: seq<bool>, wanted: seq<bool>)
    requires AllBusy(ifaces, e, mask, wanted)
    ensures AllIdle(ifaces, e.serial + 1)
    ensures forall i :: 0 <= i < |mask| ==> Times(ifaces[i].sent, e.serial) + Times(ifaces[i].pushed, e.serial) <= if mask[i] then 1 else 0
    ensures true !in wanted ==> forall i :: 0 <= i < |mask| ==> ExactlyOnce(ifaces[i], e, mask[i])
  {
    hide Busy, Idle, Times;
    forall i | 0 <= i < |ifaces|
      ensures Idle(ifaces[i], e.serial + 1)
      ensures Times(ifaces[i].sent, e.serial) + Times(ifaces[i].pushed, e.serial) <= if mask[i] then 1 else 0
      ensures true !in wanted ==> ExactlyOnce(ifaces[i], e, mask[i])
    {
      BusyEnds(ifaces[i], e, mask[i], wanted[i]);
      BusyInv(ifaces[i], e, mask[i], wanted[i]);
      assert wanted[i] in wanted;
    }
  }
}
