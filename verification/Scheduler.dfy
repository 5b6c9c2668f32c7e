/**
  The deadline scheduler and periodic timers.

  Handlers are listed by deadline.  Polling takes the first handler off the list, lets a periodic timer
  put itself back one period after its scheduled time, and repeats while a deadline has passed, so that
  a late poll makes up for every missed period and no error accumulates.
 */
module Scheduler {
  import opened Bits
  import opened Frames

  /** A registered timer; `name` stands for the object.  Without a period it fires once. */
  datatype Timer = Timer(name: nat, deadline: nat, period: Option<nat>)
  {
    predicate Valid() { period.Some? ==> period.value > 0 }

    /** Registered again, one period later. */
    function Next(): Timer
      requires period.Some?
    {
      this.(deadline := deadline + period.value)
    }
  }

  datatype Event = Event(name: nat, scheduled: nat, at: nat)

  ghost predicate Sorted(hs: seq<Timer>) { forall i, j :: 0 <= i < j < |hs| ==> hs[i].deadline <= hs[j].deadline }

  ghost predicate Distinct(hs: seq<Timer>) { forall i, j :: 0 <= i < j < |hs| ==> hs[i].name != hs[j].name }

  ghost predicate Inv(hs: seq<Timer>) { Sorted(hs) && Distinct(hs) && forall t <- hs :: t.Valid() }

  /** Insertion before the first handler with a later deadline. */
  function Insert(hs: seq<Timer>, t: Timer): (r: seq<Timer>)
    ensures |r| == |hs| + 1
  {
    if hs == [] || hs[0].deadline > t.deadline then [t] + hs else [hs[0]] + Insert(hs[1..], t)
  }

  lemma {:induction false} InsertMembers(hs: seq<Timer>, t: Timer)
    ensures forall x :: x in Insert(hs, t) <==> x == t || x in hs
  {
    if hs != [] {
      assert hs == [hs[0]] + hs[1..];
      InsertMembers(hs[1..], t);
    }
  }

  lemma {:induction false} InsertSorted(hs: seq<Timer>, t: Timer)
    requires Sorted(hs)
    ensures Sorted(Insert(hs, t))
  {
    InsertMembers(hs, t);
    if hs != [] && hs[0].deadline <= t.deadline {
      var r := Insert(hs[1..], t);
      InsertMembers(hs[1..], t);
      InsertSorted(hs[1..], t);
      assert forall i :: 0 <= i < |r| ==> r[i] in r;
      assert Insert(hs, t) == [hs[0]] + r;
    }
  }

  lemma {:induction false} InsertDistinct(hs: seq<Timer>, t: Timer)
    requires Distinct(hs) && forall x <- hs :: x.name != t.name
    ensures Distinct(Insert(hs, t))
  {
    if hs != [] && hs[0].deadline <= t.deadline {
      var r := Insert(hs[1..], t);
      InsertMembers(hs[1..], t);
      InsertDistinct(hs[1..], t);
      assert forall i :: 0 <= i < |r| ==> r[i] in r;
      assert Insert(hs, t) == [hs[0]] + r;
    }
  }

  lemma InsertFacts(hs: seq<Timer>, t: Timer)
    requires Inv(hs) && t.Valid() && forall x <- hs :: x.name != t.name
    ensures Inv(Insert(hs, t)) && forall x :: x in Insert(hs, t) <==> x == t || x in hs
  {
    hide Insert, Sorted, Distinct;
    InsertMembers(hs, t);
    InsertSorted(hs, t);
    InsertDistinct(hs, t);
  }

  // ----- What a timer owes

  /** The scheduled times that a timer owes by `now`. */
  ghost function DueTimes(t: Timer, now: nat): seq<nat>
    requires t.Valid()
    decreases if t.deadline > now then 0 else now - t.deadline + 1
  {
    if t.deadline > now then []
    else [t.deadline] + if t.period.Some? then DueTimes(t.Next(), now) else []
  }

  /** The timer behind them; a one-shot timer that fired is gone. */
  ghost function Advanced(t: Timer, now: nat): Option<Timer>
    requires t.Valid()
    decreases if t.deadline > now then 0 else now - t.deadline + 1
  {
    if t.deadline > now then Some(t) else if t.period.Some? then Advanced(t.Next(), now) else None
  }

  function FiringCount(t: Timer, now: nat): nat
    requires t.Valid()
  {
    if t.deadline > now then 0
    else if t.period.None? then 1
    else (now - t.deadline) / t.period.value + 1
  }

  lemma FiringStep(d: nat, p: nat, now: nat)
    requires p > 0 && d <= now
    ensures d + p <= now ==> (now - d) / p == (now - (d + p)) / p + 1
    ensures d + p > now ==> (now - d) / p == 0
  {
    if d + p <= now {
      var q, r := (now - (d + p)) / p, (now - (d + p)) % p;
      assert now - d == p * (q + 1) + r by { assert p * (q + 1) == p * q + p; }
      ModUnique(now - d, p, q + 1, r);
    } else {
      ModUnique(now - d, p, 0, now - d);
    }
  }

  /** The scheduled time of event number `k`. */
  function Scheduled(t: Timer, k: nat): nat { t.deadline + if t.period.Some? then k * t.period.value else 0 }

  /** A timer owes floor((now - d) / p) + 1 events, at exactly d, d + p, d + 2p and so on. */
  lemma {:induction false} DueTimesExact(t: Timer, now: nat)
    requires t.Valid()
    ensures |DueTimes(t, now)| == FiringCount(t, now)
    ensures forall k :: 0 <= k < FiringCount(t, now) ==> DueTimes(t, now)[k] == Scheduled(t, k)
    decreases if t.deadline > now then 0 else now - t.deadline + 1
  {
    if t.deadline <= now && t.period.Some? {
      var rest := DueTimes(t.Next(), now);
      DueTimesExact(t.Next(), now);
      CountStep(t, now);
      hide FiringCount;
      forall k | 0 <= k < |rest| + 1
        ensures ([t.deadline] + rest)[k] == Scheduled(t, k)
      {
        if k > 0 {
          ScheduledStep(t, k);
        }
      }
    }
  }

  lemma CountStep(t: Timer, now: nat)
    requires t.Valid() && t.deadline <= now && t.period.Some?
    ensures FiringCount(t, now) == FiringCount(t.Next(), now) + 1
  {
    FiringStep(t.deadline, t.period.value, now);
  }

  lemma ScheduledStep(t: Timer, k: nat)
    requires t.period.Some? && k > 0
    ensures Scheduled(t, k) == Scheduled(t.Next(), k - 1)
  {
    assert k * t.period.value == (k - 1) * t.period.value + t.period.value;
  }

  /** Behind its due events, a periodic timer waits for the next multiple of its period. */
  lemma {:induction false} AdvancedExact(t: Timer, now: nat)
    requires t.Valid()
    ensures Advanced(t, now) == if t.period.None? && t.deadline <= now then None else Some(t.(deadline := Scheduled(t, FiringCount(t, now))))
    ensures Advanced(t, now).Some? ==> Advanced(t, now).value.deadline > now
    decreases if t.deadline > now then 0 else now - t.deadline + 1
  {
    if t.deadline <= now && t.period.Some? {
      AdvancedExact(t.Next(), now);
      CountStep(t, now);
      ScheduledStep(t, FiringCount(t, now));
    }
  }

  /** Polling late or often makes no difference: what is owed in two steps is what is owed at once. */
  lemma {:induction false} NoDrift(t: Timer, first: nat, second: nat)
    requires t.Valid() && first <= second
    ensures Advanced(t, first).Some? ==> Advanced(t, first).value.Valid()
    ensures DueTimes(t, second) == DueTimes(t, first) + (if Advanced(t, first).Some? then DueTimes(Advanced(t, first).value, second) else [])
    ensures Advanced(t, second) == if Advanced(t, first).Some? then Advanced(Advanced(t, first).value, second) else None
    decreases if t.deadline > first then 0 else first - t.deadline + 1
  {
    if t.deadline <= first && t.period.Some? {
      NoDrift(t.Next(), first, second);
    }
  }

  // ----- Polling at a fixed time

  ghost function Pending(hs: seq<Timer>, now: nat): nat
    requires forall t <- hs :: t.Valid()
  {
    if hs == [] then 0 else FiringCount(hs[0], now) + Pending(hs[1..], now)
  }

  lemma {:induction false} PendingInsert(hs: seq<Timer>, t: Timer, now: nat)
    requires t.Valid() && forall x <- hs :: x.Valid()
    ensures forall x <- Insert(hs, t) :: x.Valid()
    ensures Pending(Insert(hs, t), now) == Pending(hs, now) + FiringCount(t, now)
  {
    InsertMembers(hs, t);
    var r := Insert(hs, t);
    if hs == [] || hs[0].deadline > t.deadline {
      assert r[0] == t && r[1..] == hs;
    } else {
      PendingInsert(hs[1..], t, now);
      assert r[0] == hs[0] && r[1..] == Insert(hs[1..], t);
    }
  }

  /** The list after the first handler has fired. */
  function Fire(hs: seq<Timer>): seq<Timer>
    requires hs != []
  {
    if hs[0].period.Some? then Insert(hs[1..], hs[0].Next()) else hs[1..]
  }

  lemma FireFacts(hs: seq<Timer>)
    requires Inv(hs) && hs != []
    ensures Inv(Fire(hs))
    ensures forall x :: x in Fire(hs) <==> (x in hs[1..] || (hs[0].period.Some? && x == hs[0].Next()))
    ensures forall x <- hs[1..] :: x.name != hs[0].name
  {
    var h, rest := hs[0], hs[1..];
    assert hs == [h] + rest;
    assert forall x <- rest :: x.name != h.name by {
      forall x | x in rest
        ensures x.name != h.name
      {
        var i :| 0 <= i < |rest| && rest[i] == x;
        assert hs[i + 1] == x;
      }
    }
    assert h in hs;
    if h.period.Some? {
      InsertFacts(rest, h.Next());
    }
  }

  lemma FireShrinks(hs: seq<Timer>, now: nat)
    requires Inv(hs) && hs != [] && hs[0].deadline <= now
    ensures Inv(Fire(hs)) && Pending(Fire(hs), now) < Pending(hs, now)
  {
    hide Insert, Sorted, Distinct;
    FireFacts(hs);
    var h := hs[0];
    assert forall x <- hs[1..] :: x in hs;
    if h.period.Some? {
      PendingInsert(hs[1..], h.Next(), now);
      FiringStep(h.deadline, h.period.value, now);
    }
  }

  /** Events and remaining handlers of a poll while the clock reads `now`. */
  ghost function Polled(hs: seq<Timer>, now: nat): (seq<Event>, seq<Timer>)
    requires Inv(hs)
    decreases Pending(hs, now)
  {
    if hs == [] || now < hs[0].deadline then ([], hs)
    else
      FireShrinks(hs, now);
      var (es, r) := Polled(Fire(hs), now);
      ([Event(hs[0].name, hs[0].deadline, now)] + es, r)
  }

  /** The scheduled times of a timer's events. */
  ghost function Of(es: seq<Event>, name: nat): seq<nat> {
    if es == [] then [] else (if es[0].name == name then [es[0].scheduled] else []) + Of(es[1..], name)
  }

  /** Every timer gets exactly the events it owes, in order, and is left where it should be. */
  lemma {:induction false} PollExact(hs: seq<Timer>, now: nat, t: Timer)
    requires Inv(hs) && t in hs
    ensures t.Valid()
    ensures Of(Polled(hs, now).0, t.name) == DueTimes(t, now)
    ensures Advanced(t, now).Some? ==> Advanced(t, now).value in Polled(hs, now).1
    decreases Pending(hs, now)
  {
    hide Insert, Fire, Sorted, Distinct, Pending;
    if hs == [] || now < hs[0].deadline {
      LateEnough(hs, now, t);
    } else {
      FireShrinks(hs, now);
      FireFacts(hs);
      var h := hs[0];
      var es := Polled(Fire(hs), now).0;
      assert hs == [h] + hs[1..];
      OfStep(Event(h.name, h.deadline, now), es, t.name);
      if t != h {
        PollExact(Fire(hs), now, t);
      } else if h.period.Some? {
        PollExact(Fire(hs), now, h.Next());
      } else {
        PollSilent(Fire(hs), now, h.name);
      }
    }
  }

  lemma LateEnough(hs: seq<Timer>, now: nat, t: Timer)
    requires Inv(hs) && t in hs && (hs == [] || now < hs[0].deadline)
    ensures t.Valid() && t.deadline > now
  {}

  lemma OfStep(e: Event, es: seq<Event>, name: nat)
    ensures Of([e] + es, name) == (if e.name == name then [e.scheduled] else []) + Of(es, name)
  {
    assert ([e] + es)[1..] == es;
  }

  /** Nothing fires for a timer that is not registered. */
  lemma {:induction false} PollSilent(hs: seq<Timer>, now: nat, name: nat)
    requires Inv(hs) && forall t <- hs :: t.name != name
    ensures Of(Polled(hs, now).0, name) == []
    decreases Pending(hs, now)
  {
    hide Insert, Fire, Sorted, Distinct, Pending;
    if hs != [] && hs[0].deadline <= now {
      FireShrinks(hs, now);
      FireFacts(hs);
      assert hs == [hs[0]] + hs[1..];
      PollSilent(Fire(hs), now, name);
      OfStep(Event(hs[0].name, hs[0].deadline, now), Polled(Fire(hs), now).0, name);
    }
  }

  /** Events come in the order of their scheduled times, none early; afterwards every deadline is in the future. */
  lemma {:induction false} PollOrder(hs: seq<Timer>, now: nat, from: nat)
    requires Inv(hs) && forall t <- hs :: t.deadline >= from
    ensures var (es, r) := Polled(hs, now);
            && Inv(r) && (forall t <- r :: t.deadline > now)
            && (forall i :: 0 <= i < |es| ==> from <= es[i].scheduled <= now == es[i].at)
            && (forall i, j :: 0 <= i < j < |es| ==> es[i].scheduled <= es[j].scheduled)
    decreases Pending(hs, now)
  {
    hide Insert, Fire, Pending;
    if hs != [] && hs[0].deadline <= now {
      FireShrinks(hs, now);
      FireFacts(hs);
      assert hs[0] in hs;
      assert forall t <- hs[1..] :: t.deadline >= hs[0].deadline;
      PollOrder(Fire(hs), now, hs[0].deadline);
    }
  }

  // ----- The code

  lemma {:induction false} InsertAt(hs: seq<Timer>, t: Timer, k: nat)
    requires k <= |hs| && (forall i :: 0 <= i < k ==> hs[i].deadline <= t.deadline) && (k < |hs| ==> hs[k].deadline > t.deadline)
    ensures Insert(hs, t) == hs[..k] + [t] + hs[k..]
  {
    if k > 0 {
      InsertAt(hs[1..], t, k - 1);
      assert hs[1..][..k - 1] == hs[1..k] && hs[1..][k - 1..] == hs[k..];
      assert [hs[0]] + hs[1..k] == hs[..k];
    }
  }

  class DeadlineScheduler {
    var handlers: seq<Timer>

    ghost predicate Valid()
      reads this
    {
      Inv(handlers)
    }

    constructor ()
      ensures Valid() && handlers == []
    {
      handlers := [];
    }

    /** Register a timer that is not on the list. */
    method Add(t: Timer)
      requires Valid() && t.Valid() && forall x <- handlers :: x.name != t.name
      modifies this
      ensures Valid() && handlers == Insert(old(handlers), t)
    {
      InsertFacts(handlers, t);
      if handlers == [] || handlers[0].deadline > t.deadline {
        handlers := [t] + handlers;
      } else {
        var p := 0;
        while p + 1 < |handlers| && !(handlers[p + 1].deadline > t.deadline)
          invariant 0 <= p < |handlers|
          invariant forall i :: 0 <= i <= p ==> handlers[i].deadline <= t.deadline
        {
          p := p + 1;
        }
        InsertAt(handlers, t, p + 1);
        handlers := handlers[..p + 1] + [t] + handlers[p + 1..];
      }
    }

    /** Take a timer off the list, if it is there. */
    method Remove(name: nat)
      requires Valid()
      modifies this
      ensures Valid() && (forall x <- handlers :: x.name != name)
      ensures forall x :: x in handlers <==> x in old(handlers) && x.name != name
    {
      var p := 0;
      while p < |handlers|
        invariant 0 <= p <= |handlers| && handlers == old(handlers) && forall i :: 0 <= i < p ==> handlers[i].name != name
      {
        if handlers[p].name == name {
          assert handlers == handlers[..p] + [handlers[p]] + handlers[p + 1..];
          handlers := handlers[..p] + handlers[p + 1..];
          return;
        }
        p := p + 1;
      }
    }

    /**
      The clock gives any readings.  `done` is false when they end while deadlines are still due.
      On return every remaining deadline is later than the returned time.
     */
    method PollAndGetMonotonicTime(readings: seq<nat>) returns (done: bool, ts: nat, events: seq<Event>)
      requires Valid()
      modifies this
      ensures Valid()
      ensures done ==> forall t <- handlers :: ts < t.deadline
      ensures forall e <- events :: e.scheduled <= e.at && e.at in readings
    {
      hide Insert;
      events, done, ts := [], false, 0;
      var k := 0;
      while k < |readings|
        invariant 0 <= k <= |readings| && Valid()
        invariant forall e <- events :: e.scheduled <= e.at && e.at in readings
      {
        ts := readings[k];
        if handlers == [] || ts < handlers[0].deadline {
          return true, ts, events;
        }
        FireFacts(handlers);
        var mdh := handlers[0];
        handlers := handlers[1..];
        if mdh.period.Some? {
          Add(mdh.Next());
        }
        events := events + [Event(mdh.name, mdh.deadline, ts)];
        k := k + 1;
      }
    }

    /** With a clock that stands still the poll ends, and does what `Polled` says. */
    method PollAt(now: nat) returns (events: seq<Event>)
      requires Valid()
      modifies this
      ensures Valid() && (events, handlers) == Polled(old(handlers), now)
    {
      hide Insert, Pending, Polled, Sorted, Distinct;
      events := [];
      assert events + Polled(handlers, now).0 == Polled(handlers, now).0;
      while handlers != [] && handlers[0].deadline <= now
        invariant Valid()
        invariant Polled(old(handlers), now) == (events + Polled(handlers, now).0, Polled(handlers, now).1)
        decreases Pending(handlers, now)
      {
        FireFacts(handlers);
        FireShrinks(handlers, now);
        PolledStep(handlers, now);
        HeadOff(handlers);
        ghost var before := handlers;
        var mdh := handlers[0];
        handlers := handlers[1..];
        if mdh.period.Some? {
          Add(mdh.Next());
        }
        assert handlers == Fire(before);
        assert events + ([Event(mdh.name, mdh.deadline, now)] + Polled(handlers, now).0) == events + [Event(mdh.name, mdh.deadline, now)] + Polled(handlers, now).0;
        events := events + [Event(mdh.name, mdh.deadline, now)];
      }
      PolledStep(handlers, now);
      assert events + [] == events;
    }
  }

  lemma PolledStep(hs: seq<Timer>, now: nat)
    requires Inv(hs)
    ensures hs == [] || now < hs[0].deadline ==> Polled(hs, now) == ([], hs)
    ensures hs != [] && now >= hs[0].deadline ==>
              && Inv(Fire(hs))
              && Polled(hs, now) == ([Event(hs[0].name, hs[0].deadline, now)] + Polled(Fire(hs), now).0, Polled(Fire(hs), now).1)
  {
    hide Fire;
    if hs != [] && now >= hs[0].deadline {
      FireShrinks(hs, now);
    }
  }

  lemma HeadOff(hs: seq<Timer>)
    requires Inv(hs) && hs != []
    ensures Inv(hs[1..]) && hs[0].Valid() && (hs[0].period.Some? ==> hs[0].Next().Valid())
    ensures forall x <- hs[1..] :: x.name != hs[0].name
  {
    FireFacts(hs);
    assert hs[0] in hs;
  }
}
