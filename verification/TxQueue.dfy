/**
  The transmission queue of one CAN interface.

  Entries are kept in CAN arbitration order, first-in first-out among equals, within a block quota.
  When no block is left, expired entries are dropped first and then the entry of the lowest quality
  of service gives way, unless the new frame is even lower.
 */
module TxQueue {
  import opened Bits
  import opened Frames
  import opened PoolMap

  // ----- Arbitration

  const ID_SPAN := 0x2000_0000
  const ARB11_UNIT := 0x4_0000

  /** The identifier without the three flags. */
  function CleanId(f: CanFrame): nat { Num(f.id[3..]) }

  lemma CleanIdBound(f: CanFrame)
    ensures CleanId(f) < ID_SPAN
  {
    hide Num, Pow2;
    Pow2Add(8, 8);
    Pow2Add(16, 8);
    Pow2Add(24, 5);
    Pow2Small();
  }

  lemma Pow2Small()
    ensures Pow2(5) == 32 && Pow2(8) == 256
  {
    assert Pow2(4) == 16;
  }

  predicate Extended(f: CanFrame) { f.id[0] }

  predicate Remote(f: CanFrame) { f.id[1] }

  /** The bits that decide between a standard and an extended frame. */
  function Arb11(f: CanFrame): nat { if Extended(f) then CleanId(f) / ARB11_UNIT else CleanId(f) }

  predicate PriorityHigherThan(a: CanFrame, b: CanFrame) {
    if Extended(a) != Extended(b) then
      (if Arb11(a) != Arb11(b) then Arb11(a) < Arb11(b) else Extended(b))
    else if CleanId(a) == CleanId(b) && Remote(a) != Remote(b) then Remote(b)
    else CleanId(a) < CleanId(b)
  }

  /** Arbitration as one number, smaller wins: leading bits, then frame format, then identifier, then RTR. */
  function Rank(f: CanFrame): nat {
    ((2 * Arb11(f) + Digit(Extended(f))) * ID_SPAN + CleanId(f)) * 2 + Digit(Remote(f))
  }

  lemma Lexicographic(m: nat, x: nat, a: nat, y: nat, b: nat)
    requires a < m && b < m
    ensures x * m + a < y * m + b <==> x < y || (x == y && a < b)
  {
    if x < y {
      assert y * m - x * m == m * (y - x);
      MulGrows(m, y - x);
    } else if y < x {
      assert x * m - y * m == m * (x - y);
      MulGrows(m, x - y);
    }
  }

  /** The three-branch comparison is the order of the ranks, hence a strict weak order. */
  lemma PriorityIsRank(a: CanFrame, b: CanFrame)
    ensures PriorityHigherThan(a, b) <==> Rank(a) < Rank(b)
  {
    hide CleanId;
    CleanIdBound(a);
    CleanIdBound(b);
    Lexicographic(ID_SPAN, 2 * Arb11(a) + Digit(Extended(a)), CleanId(a), 2 * Arb11(b) + Digit(Extended(b)), CleanId(b));
  }

  // ----- Entries

  datatype Qos = Volatile | Persistent

  /** `serial` numbers the calls that produced the entries; it names an entry and decides nothing. */
  datatype Entry = Entry(frame: CanFrame, deadline: nat, qos: Qos, flags: nat, serial: nat)
  {
    predicate IsExpired(now: nat) { now > deadline }

    predicate QosHigherThan(other: Entry) {
      if qos != other.qos then qos.Persistent? else PriorityHigherThan(frame, other.frame)
    }
  }

  /** Quality of service as an order: class first, arbitration second. */
  ghost predicate QosAtMost(a: Entry, b: Entry) { !a.QosHigherThan(b) }

  lemma {:induction false} QosTotal(a: Entry, b: Entry, c: Entry)
    ensures QosAtMost(a, a)
    ensures QosAtMost(a, b) || QosAtMost(b, a)
    ensures QosAtMost(a, b) && QosAtMost(b, c) ==> QosAtMost(a, c)
  {
    hide PriorityHigherThan, Rank;
    PriorityIsRank(a.frame, a.frame);
    PriorityIsRank(a.frame, b.frame);
    PriorityIsRank(b.frame, a.frame);
    PriorityIsRank(b.frame, c.frame);
    PriorityIsRank(a.frame, c.frame);
  }

  // ----- The queue

  const MAX_COUNT := 0xFFFF_FFFF

  datatype Queue = Queue(entries: seq<Entry>, used: nat, max: nat, rejected: nat)

  /** Arbitration order, first-in first-out among equals, and the quota. */
  ghost predicate Inv(q: Queue) {
    && Ordered(q.entries)
    && |q.entries| <= q.used <= q.max
    && q.rejected <= MAX_COUNT
  }

  /** `a` may stand before `b`. */
  ghost predicate Before(a: Entry, b: Entry) {
    Rank(a.frame) < Rank(b.frame) || (Rank(a.frame) == Rank(b.frame) && a.serial < b.serial)
  }

  ghost predicate Ordered(es: seq<Entry>) {
    forall i, j :: 0 <= i < j < |es| ==> Before(es[i], es[j])
  }

  function Count(rejected: nat, n: nat): nat {
    if rejected + n <= MAX_COUNT then rejected + n else MAX_COUNT
  }

  // ----- Operations as functions

  function Insert(es: seq<Entry>, e: Entry): seq<Entry> {
    if es == [] || PriorityHigherThan(e.frame, es[0].frame) then [e] + es
    else [es[0]] + Insert(es[1..], e)
  }

  function Unexpired(es: seq<Entry>, now: nat): (r: seq<Entry>)
    ensures |r| <= |es|
  {
    if es == [] then []
    else (if es[0].IsExpired(now) then [] else [es[0]]) + Unexpired(es[1..], now)
  }

  /** The first entry of the lowest quality of service. */
  function Lowest(es: seq<Entry>): (k: nat)
    requires es != []
    ensures k < |es|
  {
    if |es| == 1 then 0
    else
      var k := Lowest(es[..|es| - 1]);
      if es[k].QosHigherThan(es[|es| - 1]) then |es| - 1 else k
  }

  function Removed(es: seq<Entry>, k: nat): seq<Entry>
    requires k < |es|
  {
    es[..k] + es[k + 1..]
  }

  /** What the shared pool answers to the attempts of one push. */
  datatype Grants = Grants(first: bool, second: bool, third: bool)

  /** The quota counts an attempt even when the shared pool then refuses it. */
  function Attempt(q: Queue, grant: bool): (r: (Queue, bool)) {
    if q.used < q.max then (q.(used := q.used + 1), grant) else (q, false)
  }

  function Drop(q: Queue, now: nat): Queue
    requires |q.entries| <= q.used
  {
    var left := Unexpired(q.entries, now);
    var n := |q.entries| - |left|;
    q.(entries := left, used := q.used - n, rejected := Count(q.rejected, n))
  }

  function Evict(q: Queue, k: nat): Queue
    requires k < |q.entries| <= q.used
  {
    q.(entries := Removed(q.entries, k), used := q.used - 1)
  }

  /** How a push ends. */
  datatype PushResult = Expired | Stored | Replaced(victim: Entry) | Refused | Lost(victim: Entry)

  function Push(q: Queue, e: Entry, now: nat, g: Grants): (r: (Queue, PushResult))
    requires |q.entries| <= q.used
  {
    if now >= e.deadline then (q.(rejected := Count(q.rejected, 1)), Expired)
    else
      var (q1, ok1) := Attempt(q, g.first);
      if ok1 then (q1.(entries := Insert(q1.entries, e)), Stored)
      else
        var (q2, ok2) := Attempt(Drop(q1, now), g.second);
        if ok2 then (q2.(entries := Insert(q2.entries, e)), Stored)
        else
          var q3 := q2.(rejected := Count(q2.rejected, 1));
          if q3.entries == [] then (q3, Refused)
          else
            var k := Lowest(q3.entries);
            var victim := q3.entries[k];
            if victim.QosHigherThan(e) then (q3, Refused)
            else
              var (q4, ok4) := Attempt(Evict(q3, k), g.third);
              if ok4 then (q4.(entries := Insert(q4.entries, e)), Replaced(victim))
              else (q4, Lost(victim))
  }

  /** Drop expired entries from the head. */
  function Peek(q: Queue, now: nat): (r: Queue)
    requires |q.entries| <= q.used
    ensures |r.entries| <= r.used
    decreases |q.entries|
  {
    if q.entries != [] && q.entries[0].IsExpired(now) then
      Peek(q.(entries := q.entries[1..], used := q.used - 1, rejected := Count(q.rejected, 1)), now)
    else q
  }

  predicate TopPriorityHigherOrEqual(q: Queue, f: CanFrame) {
    q.entries != [] && !PriorityHigherThan(f, q.entries[0].frame)
  }

  // ----- Insertion and removal keep the order

  ghost predicate Newest(es: seq<Entry>, e: Entry) { forall i :: 0 <= i < |es| ==> es[i].serial < e.serial }

  lemma {:induction false} InsertOrdered(es: seq<Entry>, e: Entry)
    requires Ordered(es) && Newest(es, e)
    ensures Ordered(Insert(es, e)) && |Insert(es, e)| == |es| + 1
    ensures multiset(Insert(es, e)) == multiset(es) + multiset{e}
    ensures forall x <- Insert(es, e) :: x == e || x in es
  {
    hide PriorityHigherThan, Before;
    InsertAdds(es, e);
    if es != [] {
      OrderedTail(es);
      if PriorityHigherThan(e.frame, es[0].frame) {
        BeforeAll(es, e);
        OrderedCons(e, es);
      } else {
        InsertOrdered(es[1..], e);
        BehindHead(es, e);
        OrderedCons(es[0], Insert(es[1..], e));
      }
    }
  }

  lemma {:induction false} InsertAdds(es: seq<Entry>, e: Entry)
    ensures |Insert(es, e)| == |es| + 1 && multiset(Insert(es, e)) == multiset(es) + multiset{e}
    ensures forall x <- Insert(es, e) :: x == e || x in es
  {
    hide PriorityHigherThan;
    if es != [] {
      assert es == [es[0]] + es[1..];
      InsertAdds(es[1..], e);
    }
  }

  lemma OrderedTail(es: seq<Entry>)
    requires Ordered(es) && es != []
    ensures Ordered(es[1..]) && forall x <- es[1..] :: Before(es[0], x)
  {
    hide Before;
  }

  lemma OrderedCons(x: Entry, es: seq<Entry>)
    requires Ordered(es) && forall y <- es :: Before(x, y)
    ensures Ordered([x] + es)
  {
    hide Before;
  }

  /** A new entry of a higher priority than the head is before the whole queue. */
  lemma BeforeAll(es: seq<Entry>, e: Entry)
    requires es != [] && Ordered(es) && PriorityHigherThan(e.frame, es[0].frame)
    ensures forall y <- es :: Before(e, y)
  {
    hide PriorityHigherThan, Rank;
    PriorityIsRank(e.frame, es[0].frame);
    forall y | y in es
      ensures Before(e, y)
    {
      var i :| 0 <= i < |es| && es[i] == y;
      assert i == 0 || Before(es[0], y);
    }
  }

  lemma BehindHead(es: seq<Entry>, e: Entry)
    requires es != [] && Ordered(es) && Newest(es, e) && !PriorityHigherThan(e.frame, es[0].frame)
    ensures forall y <- Insert(es[1..], e) :: Before(es[0], y)
  {
    hide PriorityHigherThan, Rank, Insert;
    PriorityIsRank(e.frame, es[0].frame);
    InsertAdds(es[1..], e);
    OrderedTail(es);
  }

  lemma {:induction false} UnexpiredOrdered(es: seq<Entry>, now: nat)
    ensures forall x :: x in Unexpired(es, now) <==> x in es && !x.IsExpired(now)
    ensures Ordered(es) ==> Ordered(Unexpired(es, now))
  {
    if es != [] {
      assert es == [es[0]] + es[1..];
      UnexpiredOrdered(es[1..], now);
      var r := Unexpired(es[1..], now);
      assert forall i :: 0 <= i < |r| ==> r[i] in r;
      if Ordered(es) {
        assert Ordered(es[1..]);
        assert forall i :: 0 <= i < |r| ==> Before(es[0], r[i]);
      }
    }
  }

  lemma {:induction false} LowestIsMinimum(es: seq<Entry>, i: nat)
    requires i < |es|
    ensures QosAtMost(es[Lowest(es)], es[i])
  {
    hide PriorityHigherThan;
    var n := |es| - 1;
    QosTotal(es[i], es[i], es[i]);
    if n > 0 {
      var k := Lowest(es[..n]);
      if i < n {
        LowestIsMinimum(es[..n], i);
        QosTotal(es[n], es[k], es[i]);
      }
      QosTotal(es[n], es[n], es[n]);
    }
  }

  lemma RemovedOrdered(es: seq<Entry>, k: nat)
    requires Ordered(es) && k < |es|
    ensures Ordered(Removed(es, k)) && multiset(es) == multiset(Removed(es, k)) + multiset{es[k]}
    ensures forall x <- Removed(es, k) :: x in es
  {
    hide Before;
    assert es == es[..k] + [es[k]] + es[k + 1..];
    var r := Removed(es, k);
    assert |r| == |es| - 1;
    forall i, j | 0 <= i < j < |r|
      ensures Before(r[i], r[j])
    {
      var i', j' := if i < k then i else i + 1, if j < k then j else j + 1;
      assert r[i] == es[i'] && r[j] == es[j'];
    }
  }

  // ----- What a push keeps

  lemma StepFacts(q: Queue, e: Entry, now: nat, grant: bool)
    requires Inv(q) && Newest(q.entries, e)
    ensures var (q', ok) := Attempt(q, grant);
            Inv(q') && q'.entries == q.entries && (ok ==> |q'.entries| + 1 <= q'.used)
            && q'.rejected == q.rejected && q'.max == q.max
    ensures var d := Drop(q, now);
            Inv(d) && Newest(d.entries, e) && d.max == q.max && |d.entries| <= |q.entries|
            && d.rejected == Count(q.rejected, |q.entries| - |d.entries|)
            && forall x <- d.entries :: x in q.entries
  {
    hide Before;
    UnexpiredOrdered(q.entries, now);
    var d := Drop(q, now);
    assert forall i :: 0 <= i < |d.entries| ==> d.entries[i] in q.entries;
  }

  lemma StoreInv(q: Queue, e: Entry)
    requires Inv(q) && Newest(q.entries, e) && |q.entries| + 1 <= q.used
    ensures Inv(q.(entries := Insert(q.entries, e))) && |Insert(q.entries, e)| == |q.entries| + 1
    ensures e in Insert(q.entries, e) && forall x <- Insert(q.entries, e) :: x == e || x in q.entries
  {
    hide Insert, Before;
    InsertOrdered(q.entries, e);
    assert e in multiset(Insert(q.entries, e));
  }

  /** Every push keeps the order, the FIFO rule and the quota. */
  lemma PushInv(q: Queue, e: Entry, now: nat, g: Grants)
    requires Inv(q) && Newest(q.entries, e)
    ensures Inv(Push(q, e, now, g).0) && Push(q, e, now, g).0.max == q.max
    ensures forall x <- Push(q, e, now, g).0.entries :: x == e || x in q.entries
  {
    hide Insert, Ordered, Newest, Unexpired, Removed, Entry.QosHigherThan, Lowest, Drop;
    if now < e.deadline {
      StepFacts(q, e, now, g.first);
      var (q1, ok1) := Attempt(q, g.first);
      if ok1 {
        StoreInv(q1, e);
      } else {
        StepFacts(q1, e, now, true);
        var d := Drop(q1, now);
        StepFacts(d, e, now, g.second);
        var (q2, ok2) := Attempt(d, g.second);
        if ok2 {
          StoreInv(q2, e);
        } else {
          PushEvicts(q2.(rejected := Count(q2.rejected, 1)), e, g.third);
        }
      }
    }
  }

  /** The last resort of a push. */
  lemma PushEvicts(q: Queue, e: Entry, third: bool)
    requires Inv(q) && Newest(q.entries, e)
    ensures q.entries != [] ==>
              var v := Evict(q, Lowest(q.entries));
              var (q', ok) := Attempt(v, third);
              && Inv(v) && Inv(q') && q'.max == q.max && q'.rejected == q.rejected && q'.entries == v.entries
              && |q'.entries| + 1 == |q.entries|
              && (third ==> ok)
              && (forall x <- q'.entries :: x in q.entries)
              && (ok ==> && Inv(q'.(entries := Insert(q'.entries, e)))
                         && |Insert(q'.entries, e)| == |q.entries| && e in Insert(q'.entries, e)
                         && forall x <- Insert(q'.entries, e) :: x == e || x in q.entries)
  {
    hide Insert, Before, Lowest;
    if q.entries != [] {
      var k := Lowest(q.entries);
      RemovedOrdered(q.entries, k);
      var v := Evict(q, k);
      assert forall i :: 0 <= i < |v.entries| ==> v.entries[i] in q.entries;
      var (q', ok) := Attempt(v, third);
      if ok {
        StoreInv(q', e);
      }
    }
  }

  /** A victim is a minimum of the quality of service among what was queued, and is not above the new frame. */
  lemma VictimIsLowest(q: Queue, e: Entry, now: nat, g: Grants)
    requires Inv(q) && Newest(q.entries, e)
    ensures var (q', r) := Push(q, e, now, g);
            r.Replaced? || r.Lost? ==>
              && r.victim in q.entries
              && QosAtMost(r.victim, e)
              && (forall x <- q.entries :: !x.IsExpired(now) ==> QosAtMost(r.victim, x))
              && !(r.victim.qos.Persistent? && e.qos.Volatile?)
  {
    hide Insert, PriorityHigherThan, Lowest, Unexpired, Removed;
    var r := Push(q, e, now, g).1;
    if r.Replaced? || r.Lost? {
      var q1 := Attempt(q, g.first).0;
      var left := Drop(q1, now).entries;
      UnexpiredOrdered(q.entries, now);
      assert r.victim == left[Lowest(left)];
      forall x | x in left
        ensures QosAtMost(r.victim, x)
      {
        var i :| 0 <= i < |left| && left[i] == x;
        LowestIsMinimum(left, i);
      }
    }
  }

  /** A push comes to its last resort: no block at either attempt, something left to displace, and nothing lower than
      the new frame itself. */
  predicate Displaces(q: Queue, e: Entry, now: nat, g: Grants)
    requires |q.entries| <= q.used
  {
    var left := Unexpired(q.entries, now);
    var used := (if q.used < q.max then q.used + 1 else q.used) - (|q.entries| - |left|);
    && now < e.deadline
    && !(q.used < q.max && g.first) && !(used < q.max && g.second)
    && left != [] && !left[Lowest(left)].QosHigherThan(e)
  }

  lemma LostExact(q: Queue, e: Entry, now: nat, g: Grants)
    requires Inv(q)
    ensures Push(q, e, now, g).1.Lost? <==> Displaces(q, e, now, g) && !g.third
  {
    hide Insert, Ordered, Unexpired, Removed, Entry.QosHigherThan, Lowest, Count;
  }

  /** Nothing disappears uncounted: a push ends queued or rejected, and so does every entry it displaced, except when the
      pool refuses the very block that has just been given back to it. */
  lemma PushConserves(q: Queue, e: Entry, now: nat, g: Grants)
    requires Inv(q) && Newest(q.entries, e)
    ensures var (q', r) := Push(q, e, now, g);
            exists n: nat ::
              && q'.rejected == Count(q.rejected, n)
              && |q'.entries| + n + (if r.Lost? then 1 else 0) == |q.entries| + 1
    ensures Push(q, e, now, g).1.Lost? <==> Displaces(q, e, now, g) && !g.third
    ensures Push(q, e, now, g).1.Stored? || Push(q, e, now, g).1.Replaced? ==> e in Push(q, e, now, g).0.entries
  {
    hide Insert, Ordered, Newest, Unexpired, Removed, Entry.QosHigherThan, Lowest, Drop, Count, Displaces;
    LostExact(q, e, now, g);
    if now >= e.deadline {
      assert Push(q, e, now, g).0.rejected == Count(q.rejected, 1);
    } else {
      StepFacts(q, e, now, g.first);
      CountZero(q.rejected);
      var (q1, ok1) := Attempt(q, g.first);
      if ok1 {
        StoreInv(q1, e);
      } else {
        StepFacts(q1, e, now, true);
        var d := Drop(q1, now);
        var n := |q.entries| - |d.entries|;
        StepFacts(d, e, now, g.second);
        var (q2, ok2) := Attempt(d, g.second);
        if ok2 {
          StoreInv(q2, e);
          assert Push(q, e, now, g).0.rejected == Count(q.rejected, n);
        } else {
          CountAdds(q.rejected, n, 1);
          var q3 := q2.(rejected := Count(q2.rejected, 1));
          CountBound(q2.rejected, 1);
          PushEvicts(q3, e, g.third);
          assert Push(q, e, now, g).0.rejected == Count(q.rejected, n + 1);
        }
      }
    }
  }

  /** What a pool with `free` blocks answers: the expired entries of the second attempt, and the victim of the third, have
      just gone back to it. */
  function PoolGrants(q: Queue, now: nat, free: nat): Grants {
    Grants(free > 0, free + |q.entries| - |Unexpired(q.entries, now)| > 0, true)
  }

  /** With such a pool nothing is lost: a push and everything it displaces is queued or counted as rejected. */
  lemma PoolPushConserves(q: Queue, e: Entry, now: nat, free: nat) returns (rejects: nat)
    requires Inv(q) && Newest(q.entries, e)
    ensures var (q', r) := Push(q, e, now, PoolGrants(q, now, free));
            !r.Lost? && q'.rejected == Count(q.rejected, rejects) && |q'.entries| + rejects == |q.entries| + 1
  {
    hide Push, Count, Displaces, Newest, Ordered;
    var g := PoolGrants(q, now, free);
    PushConserves(q, e, now, g);
    var q' := Push(q, e, now, g).0;
    rejects :| q'.rejected == Count(q.rejected, rejects) && |q'.entries| + rejects + (if Push(q, e, now, g).1.Lost? then 1 else 0) == |q.entries| + 1;
  }

  lemma CountZero(r: nat)
    requires r <= MAX_COUNT
    ensures Count(r, 0) == r
  {
  }

  lemma CountBound(r: nat, n: nat)
    ensures Count(r, n) <= MAX_COUNT
  {}

  lemma CountAdds(r: nat, a: nat, b: nat)
    ensures Count(Count(r, a), b) == Count(r, a + b)
  {
  }

  /** Peeking drops the expired head entries, counts each, and stops at an unexpired one. */
  lemma {:induction false} PeekFacts(q: Queue, now: nat) returns (n: nat)
    requires Inv(q)
    ensures n <= |q.entries| && Peek(q, now).entries == q.entries[n..] && Inv(Peek(q, now)) && Peek(q, now).max == q.max
    ensures forall i :: 0 <= i < n ==> q.entries[i].IsExpired(now)
    ensures n < |q.entries| ==> !q.entries[n].IsExpired(now)
    ensures Peek(q, now).rejected == Count(q.rejected, n)
    decreases |q.entries|
  {
    hide Before, Count;
    n := 0;
    CountZero(q.rejected);
    if q.entries != [] && q.entries[0].IsExpired(now) {
      var q' := q.(entries := q.entries[1..], used := q.used - 1, rejected := Count(q.rejected, 1));
      CountBound(q.rejected, 1);
      var m := PeekFacts(q', now);
      CountAdds(q.rejected, 1, m);
      n := m + 1;
      assert q.entries[n..] == q'.entries[m..];
      assert forall i :: 0 < i < n ==> q.entries[i] == q'.entries[i - 1];
    }
  }

  // ----- Runs

  datatype Op = Pushing(entry: Entry, now: nat, grants: Grants) | Peeking(now: nat) | Taking

  function Step(q: Queue, op: Op): Queue
    requires |q.entries| <= q.used
  {
    match op
    case Pushing(e, now, g) => Push(q, e, now, g).0
    case Peeking(now) => Peek(q, now)
    case Taking => if q.entries == [] then q else Evict(q, 0)
  }

  /** The states of a queue under any operations, from the empty queue. */
  ghost predicate IsRun(qs: seq<Queue>, ops: seq<Op>) {
    && |qs| == |ops| + 1
    && qs[0].entries == [] && qs[0].used == 0 && qs[0].rejected == 0
    && (forall i :: 0 <= i < |ops| ==> |qs[i].entries| <= qs[i].used && qs[i + 1] == Step(qs[i], ops[i]))
    && (forall i, j :: 0 <= i < j < |ops| && ops[i].Pushing? && ops[j].Pushing? ==> ops[i].entry.serial < ops[j].entry.serial)
  }

  ghost function Pushes(ops: seq<Op>): nat {
    if ops == [] then 0 else Pushes(ops[..|ops| - 1]) + if ops[|ops| - 1].Pushing? then 1 else 0
  }

  ghost function Taken(qs: seq<Queue>, ops: seq<Op>): nat
    requires IsRun(qs, ops)
  {
    if ops == [] then 0 else
      var n := |ops| - 1;
      Taken(qs[..n + 1], ops[..n]) + if ops[n].Taking? && qs[n].entries != [] then 1 else 0
  }

  ghost function Losses(qs: seq<Queue>, ops: seq<Op>): nat
    requires IsRun(qs, ops)
  {
    if ops == [] then 0 else
      var n := |ops| - 1;
      Losses(qs[..n + 1], ops[..n])
      + if ops[n].Pushing? && Push(qs[n], ops[n].entry, ops[n].now, ops[n].grants).1.Lost? then 1 else 0
  }

  ghost predicate FromPushes(es: seq<Entry>, ops: seq<Op>) {
    forall x <- es :: exists i :: 0 <= i < |ops| && ops[i].Pushing? && ops[i].entry == x
  }

  /** One operation: order and quota are kept, and the books stay balanced. */
  lemma StepInv(q: Queue, op: Op) returns (rejects: nat)
    requires Inv(q) && (op.Pushing? ==> Newest(q.entries, op.entry))
    ensures Inv(Step(q, op)) && Step(q, op).max == q.max
    ensures forall x <- Step(q, op).entries :: x in q.entries || (op.Pushing? && x == op.entry)
    ensures Step(q, op).rejected == Count(q.rejected, rejects)
    ensures |Step(q, op).entries| + rejects
            + (if op.Taking? && q.entries != [] then 1 else 0)
            + (if op.Pushing? && Push(q, op.entry, op.now, op.grants).1.Lost? then 1 else 0)
            == |q.entries| + if op.Pushing? then 1 else 0
  {
    hide Before, Push, Peek, Count;
    match op
    case Pushing(e, now, g) =>
      PushInv(q, e, now, g);
      PushConserves(q, e, now, g);
      rejects :| Push(q, e, now, g).0.rejected == Count(q.rejected, rejects)
        && |Push(q, e, now, g).0.entries| + rejects + (if Push(q, e, now, g).1.Lost? then 1 else 0) == |q.entries| + 1;
    case Peeking(now) =>
      rejects := PeekFacts(q, now);
    case Taking =>
      rejects := 0;
      CountZero(q.rejected);
      if q.entries != [] {
        RemovedOrdered(q.entries, 0);
      }
  }

  /**
    Every reachable queue is in arbitration order, first-in first-out among equals and within quota; and
    the pushes are what is queued, taken, counted as rejected (until that counter saturates), or lost
    because the pool refused a block it had just been given back.
   */
  lemma {:induction false} RunInv(qs: seq<Queue>, ops: seq<Op>) returns (rejects: nat)
    requires IsRun(qs, ops)
    ensures Inv(qs[|ops|]) && qs[|ops|].max == qs[0].max && FromPushes(qs[|ops|].entries, ops)
    ensures qs[|ops|].rejected == Count(0, rejects)
    ensures Pushes(ops) == |qs[|ops|].entries| + Taken(qs, ops) + rejects + Losses(qs, ops)
    decreases |ops|
  {
    hide Step, Before, Count, Push;
    CountZero(0);
    rejects := 0;
    if ops != [] {
      var n := |ops| - 1;
      var qs', ops' := qs[..n + 1], ops[..n];
      var r := RunInv(qs', ops');
      NewestPush(qs[n].entries, ops);
      var k := StepInv(qs[n], ops[n]);
      CountAdds(0, r, k);
      rejects := r + k;
      StillFromPushes(qs[n].entries, qs[n + 1].entries, ops);
    }
  }

  /** The answers of the run are those of a pool, `free[i]` blocks being free at operation `i`, whatever others take and
      give back in between. */
  ghost predicate FromPool(qs: seq<Queue>, ops: seq<Op>, free: seq<nat>) {
    && |free| == |ops| < |qs|
    && forall i :: 0 <= i < |ops| && ops[i].Pushing? ==> ops[i].grants == PoolGrants(qs[i], ops[i].now, free[i])
  }

  lemma {:induction false} NoLosses(qs: seq<Queue>, ops: seq<Op>, free: seq<nat>)
    requires IsRun(qs, ops) && FromPool(qs, ops, free)
    ensures Losses(qs, ops) == 0
    decreases |ops|
  {
    hide Step, Push, Displaces, Count;
    if ops != [] {
      var n := |ops| - 1;
      var qs', ops' := qs[..n + 1], ops[..n];
      NoLosses(qs', ops', free[..n]);
      if ops[n].Pushing? {
        var r := RunInv(qs', ops');
        LostExact(qs[n], ops[n].entry, ops[n].now, ops[n].grants);
      }
    }
  }

  /** Every push over a pool is queued, taken or counted as rejected, in every reachable state. */
  lemma RunConserves(qs: seq<Queue>, ops: seq<Op>, free: seq<nat>) returns (rejects: nat)
    requires IsRun(qs, ops) && FromPool(qs, ops, free)
    ensures Inv(qs[|ops|]) && qs[|ops|].rejected == Count(0, rejects)
    ensures Pushes(ops) == |qs[|ops|].entries| + Taken(qs, ops) + rejects
  {
    hide Step, Push, Count, Inv;
    rejects := RunInv(qs, ops);
    NoLosses(qs, ops, free);
  }

  lemma NewestPush(es: seq<Entry>, ops: seq<Op>)
    requires ops != [] && FromPushes(es, ops[..|ops| - 1])
    requires forall i, j :: 0 <= i < j < |ops| && ops[i].Pushing? && ops[j].Pushing? ==> ops[i].entry.serial < ops[j].entry.serial
    ensures ops[|ops| - 1].Pushing? ==> Newest(es, ops[|ops| - 1].entry)
  {
    var n := |ops| - 1;
    forall k | 0 <= k < |es|
      ensures ops[n].Pushing? ==> es[k].serial < ops[n].entry.serial
    {
      assert es[k] in es;
      var i :| 0 <= i < n && ops[..n][i].Pushing? && ops[..n][i].entry == es[k];
      assert ops[i] == ops[..n][i];
    }
  }

  lemma StillFromPushes(es: seq<Entry>, es': seq<Entry>, ops: seq<Op>)
    requires ops != [] && FromPushes(es, ops[..|ops| - 1])
    requires forall x <- es' :: x in es || (ops[|ops| - 1].Pushing? && x == ops[|ops| - 1].entry)
    ensures FromPushes(es', ops)
  {
    var n := |ops| - 1;
    forall x | x in es'
      ensures exists i :: 0 <= i < |ops| && ops[i].Pushing? && ops[i].entry == x
    {
      if x in es {
        var i :| 0 <= i < n && ops[..n][i].Pushing? && ops[..n][i].entry == x;
        assert ops[i].Pushing? && ops[i].entry == x;
      } else {
        assert ops[n].Pushing? && ops[n].entry == x;
      }
    }
  }

  // ----- The code

  lemma {:induction false} InsertAt(es: seq<Entry>, e: Entry, k: nat)
    requires k <= |es| && (forall i :: 0 <= i < k ==> !PriorityHigherThan(e.frame, es[i].frame))
    requires k < |es| ==> PriorityHigherThan(e.frame, es[k].frame)
    ensures Insert(es, e) == es[..k] + [e] + es[k..]
  {
    hide PriorityHigherThan;
    if k == 0 {
      assert es[..0] + [e] + es[0..] == [e] + es;
    } else {
      InsertAt(es[1..], e, k - 1);
      assert es[1..][..k - 1] == es[1..k] && es[1..][k - 1..] == es[k..];
      assert [es[0]] + (es[1..k] + [e] + es[k..]) == es[..k] + [e] + es[k..];
    }
  }

  lemma {:induction false} UnexpiredSnoc(es: seq<Entry>, x: Entry, now: nat)
    ensures Unexpired(es + [x], now) == Unexpired(es, now) + if x.IsExpired(now) then [] else [x]
  {
    if es == [] {
      assert [] + [x] == [x];
      assert [x][1..] == [];
    } else {
      UnexpiredSnoc(es[1..], x, now);
      var all, first := es + [x], if es[0].IsExpired(now) then [] else [es[0]];
      assert all[1..] == es[1..] + [x] && all[0] == es[0];
      assert Unexpired(all, now) == first + Unexpired(all[1..], now);
    }
  }

  /** The blocks of a list of nodes, each once, are all the blocks that are out. */
  ghost predicate Owns(blocks: seq<nat>, outstanding: set<nat>) {
    NoRepeats(blocks) && forall b :: b in blocks <==> b in outstanding
  }

  lemma {:induction false} OwnsCount(blocks: seq<nat>, outstanding: set<nat>)
    requires Owns(blocks, outstanding)
    ensures |outstanding| == |blocks|
  {
    if blocks == [] {
      assert outstanding == {};
    } else {
      HeadTaken(blocks);
      OwnsCount(blocks[1..], outstanding - {blocks[0]});
    }
  }

  lemma OwnsWithout(blocks: seq<nat>, outstanding: set<nat>, k: nat)
    requires Owns(blocks, outstanding) && k < |blocks|
    ensures Owns(blocks[..k] + blocks[k + 1..], outstanding - {blocks[k]})
  {
    var r := blocks[..k] + blocks[k + 1..];
    assert blocks == blocks[..k] + [blocks[k]] + blocks[k + 1..];
    forall b | b in r
      ensures b != blocks[k]
    {
      var i :| 0 <= i < |r| && r[i] == b;
      assert b == blocks[if i < k then i else i + 1];
    }
    assert forall i :: 0 <= i < |r| ==> r[i] == blocks[if i < k then i else i + 1];
  }

  lemma OwnsWith(blocks: seq<nat>, outstanding: set<nat>, k: nat, b: nat)
    requires Owns(blocks, outstanding) && k <= |blocks| && b !in outstanding
    ensures Owns(blocks[..k] + [b] + blocks[k..], outstanding + {b})
  {
    var r := blocks[..k] + [b] + blocks[k..];
    assert blocks == blocks[..k] + blocks[k..];
    forall i, j | 0 <= i < j < |r|
      ensures r[i] != r[j]
    {
      var i', j' := if i < k then i else i - 1, if j < k then j else j - 1;
      if i == k {
        assert r[j] == blocks[j'] && blocks[j'] in blocks;
      } else if j == k {
        assert r[i] == blocks[i'] && blocks[i'] in blocks;
      } else {
        assert r[i] == blocks[i'] && r[j] == blocks[j'];
      }
    }
  }

  /** The queue over a limited share of the pool: each node of the list lives in one block. */
  class CanTxQueue {
    const allocator: LimitedPoolAllocator
    var queue: seq<Entry>
    var blocks: seq<nat>
    var rejectedFrames: nat

    ghost predicate Valid()
      reads this, allocator, allocator.pool
    {
      && allocator.Valid() && |blocks| == |queue| && Owns(blocks, allocator.outstanding)
      && |queue| <= allocator.usedBlocks && rejectedFrames <= MAX_COUNT
    }

    function View(): Queue
      reads this, allocator
    {
      Queue(queue, allocator.usedBlocks, allocator.maxBlocks, rejectedFrames)
    }

    constructor (a: LimitedPoolAllocator)
      requires a.Valid() && a.outstanding == {} && a.usedBlocks == 0
      ensures Valid() && allocator == a && View() == Queue([], 0, a.maxBlocks, 0)
    {
      allocator, queue, blocks, rejectedFrames := a, [], [], 0;
    }

    method RegisterRejectedFrame()
      requires rejectedFrames <= MAX_COUNT
      modifies this`rejectedFrames
      ensures rejectedFrames == Count(old(rejectedFrames), 1) && rejectedFrames <= MAX_COUNT
    {
      if rejectedFrames < MAX_COUNT {
        rejectedFrames := rejectedFrames + 1;
      }
    }

    /** One attempt to get a block, which the queue does not hold yet. */
    method Allocate() returns (block: Option<nat>)
      requires Valid()
      modifies allocator, allocator.pool
      ensures allocator.Valid() && (View(), block.Some?) == Attempt(old(View()), old(allocator.pool.free) != [])
      ensures block.None? ==> Valid()
      ensures block.Some? ==> block.value !in old(allocator.outstanding) && allocator.outstanding == old(allocator.outstanding) + {block.value}
      ensures |allocator.pool.free| == old(|allocator.pool.free|) - if block.Some? then 1 else 0
    {
      hide PoolAllocator.Valid;
      block := allocator.Allocate();
    }

    /** Unlink the entry at position `k` and give its block back. */
    method Remove(k: nat)
      requires Valid() && k < |queue|
      modifies this`queue, this`blocks, allocator, allocator.pool
      ensures Valid() && View() == Evict(old(View()), k) && |allocator.pool.free| == old(|allocator.pool.free|) + 1
      ensures |queue| == old(|queue|) - 1
    {
      hide PoolAllocator.Valid, Owns;
      OwnsMember(k);
      OwnsCount(blocks, allocator.outstanding);
      OwnsWithout(blocks, allocator.outstanding, k);
      allocator.Deallocate(blocks[k]);
      blocks := blocks[..k] + blocks[k + 1..];
      queue := queue[..k] + queue[k + 1..];
    }

    lemma QuotaBound()
      requires Valid()
      ensures allocator.usedBlocks <= allocator.maxBlocks
    {}

    lemma OwnsMember(k: nat)
      requires Valid() && k < |blocks|
      ensures blocks[k] in allocator.outstanding
    {
      assert blocks[k] in blocks;
    }

    /** Link a node that lives in a block just taken, before the first entry of lower priority. */
    method InsertBefore(e: Entry, block: nat)
      requires allocator.Valid() && |blocks| == |queue| && Owns(blocks, allocator.outstanding - {block}) && block in allocator.outstanding
      requires |queue| < allocator.usedBlocks && rejectedFrames <= MAX_COUNT
      modifies this`queue, this`blocks
      ensures Valid() && queue == Insert(old(queue), e) && |queue| == old(|queue|) + 1
    {
      hide PriorityHigherThan, PoolAllocator.Valid, LimitedPoolAllocator.Valid, Owns, Insert;
      var k := 0;
      if queue != [] && !PriorityHigherThan(e.frame, queue[0].frame) {
        var p := 0;
        while p + 1 < |queue| && !PriorityHigherThan(e.frame, queue[p + 1].frame)
          invariant 0 <= p < |queue|
          invariant forall i :: 0 <= i <= p ==> !PriorityHigherThan(e.frame, queue[i].frame)
        {
          p := p + 1;
        }
        k := p + 1;
      }
      InsertAt(queue, e, k);
      OwnsWith(blocks, allocator.outstanding - {block}, k, block);
      assert allocator.outstanding - {block} + {block} == allocator.outstanding;
      queue := queue[..k] + [e] + queue[k..];
      blocks := blocks[..k] + [block] + blocks[k..];
    }

    method DropExpired(now: nat)
      requires Valid()
      modifies this, allocator, allocator.pool
      ensures Valid() && View() == Drop(old(View()), now)
      ensures |allocator.pool.free| + |queue| == old(|allocator.pool.free| + |queue|)
    {
      hide PoolAllocator.Valid, LimitedPoolAllocator.Valid, Owns, Count;
      ghost var all := queue;
      ghost var done := 0;
      var p := 0;
      CountZero(rejectedFrames);
      while p < |queue|
        invariant 0 <= done <= |all| && p <= |queue| && Valid()
        invariant queue[..p] == Unexpired(all[..done], now) && queue[p..] == all[done..]
        invariant allocator.usedBlocks == old(allocator.usedBlocks) - (done - p) && rejectedFrames == Count(old(rejectedFrames), done - p)
        invariant |allocator.pool.free| + |queue| == old(|allocator.pool.free| + |queue|)
        decreases |all| - done
      {
        ghost var before := queue;
        DropStep(all, done, queue, p, now);
        if queue[p].IsExpired(now) {
          CountAdds(old(rejectedFrames), done - p, 1);
          RegisterRejectedFrame();
          Remove(p);
        } else {
          p := p + 1;
        }
        done := done + 1;
      }
      assert all[..done] == all && queue == queue[..p];
    }

    method FindLowest() returns (k: nat)
      requires queue != []
      ensures k == Lowest(queue)
    {
      hide Entry.QosHigherThan;
      k := 0;
      var p := 1;
      assert queue[..1] == [queue[0]];
      while p < |queue|
        invariant 1 <= p <= |queue| && k < p && k == Lowest(queue[..p])
      {
        assert queue[..p + 1][..p] == queue[..p];
        if queue[k].QosHigherThan(queue[p]) {
          k := p;
        }
        p := p + 1;
      }
      assert queue[..p] == queue;
    }

    /** A push over the pool: as the push function does with the pool's answers, and every block accounted for. */
    method PushFrame(e: Entry, now: nat)
      requires Valid()
      modifies this, allocator, allocator.pool
      ensures Valid()
      ensures View() == Push(old(View()), e, now, PoolGrants(old(View()), now, old(|allocator.pool.free|))).0
      ensures |allocator.pool.free| + |queue| == old(|allocator.pool.free| + |queue|)
    {
      hide Insert, Unexpired, Removed, Entry.QosHigherThan, Lowest, Count, PoolAllocator.Valid, LimitedPoolAllocator.Valid, Owns;
      if now >= e.deadline {
        RegisterRejectedFrame();
        return;
      }
      var block := Allocate();
      if block.None? {
        DropExpired(now);
        block := Allocate();
        if block.None? {
          RegisterRejectedFrame();
          if queue == [] {
            return;
          }
          var k := FindLowest();
          if queue[k].QosHigherThan(e) {
            return;
          }
          QuotaBound();
          Remove(k);
          block := Allocate();
        }
      }
      InsertBefore(e, block.value);
    }

    method PeekEntry(now: nat) returns (found: bool)
      requires Valid()
      modifies this, allocator, allocator.pool
      ensures Valid() && View() == Peek(old(View()), now) && found == (queue != [])
    {
      hide PoolAllocator.Valid, LimitedPoolAllocator.Valid, Owns;
      while queue != []
        invariant Valid()
        invariant Peek(View(), now) == Peek(old(View()), now)
        decreases |queue|
      {
        if queue[0].IsExpired(now) {
          assert queue[..0] + queue[1..] == queue[1..];
          RegisterRejectedFrame();
          Remove(0);
        } else {
          return true;
        }
      }
      return false;
    }
  }

  /** One turn of the loop over the expired entries. */
  lemma DropStep(all: seq<Entry>, done: nat, queue: seq<Entry>, p: nat, now: nat)
    requires done <= |all| && p < |queue| && queue[..p] == Unexpired(all[..done], now) && queue[p..] == all[done..]
    ensures done < |all|
    ensures var r := Removed(queue, p);
            queue[p].IsExpired(now) ==> r[..p] == Unexpired(all[..done + 1], now) && r[p..] == all[done + 1..]
    ensures !queue[p].IsExpired(now) ==> queue[..p + 1] == Unexpired(all[..done + 1], now) && queue[p + 1..] == all[done + 1..]
  {
    hide Unexpired;
    assert |queue[p..]| == |all[done..]|;
    assert queue[p] == all[done..][0] == all[done];
    UnexpiredSnoc(all[..done], all[done], now);
    assert all[..done + 1] == all[..done] + [all[done]];
    assert queue[p + 1..] == all[done..][1..] == all[done + 1..];
    var r := Removed(queue, p);
    assert r[..p] == queue[..p] && r[p..] == queue[p + 1..];
    assert queue[..p + 1] == queue[..p] + [queue[p]];
    assert queue[..p] + [] == queue[..p];
  }
}
