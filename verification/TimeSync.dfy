/**
  Network time synchronisation: a master publishes messages that carry the transmission time of the
  previous message, and a slave compares that time with its own reception time of the same message.

  The main result is that the two times of every adjustment belong to one and the same frame, across
  lost messages, wrap-around and restart of transfer IDs, several masters and several interfaces.
 */
module TimeSync {
  import opened Bits
  import opened Frames
  import Receiver

  /** The constants of the message definition, in milliseconds. */
  datatype Periods = Periods(max: nat, min: nat, timeout: nat)
  {
    /** A full cycle of transfer IDs takes longer than the longest period. */
    ghost predicate Valid() { min > 0 && 32 * min >= max }
  }

  const INVALID_NODE := 255

  datatype Msg = Msg(src: nat, iface: nat, tid: TransferID, mono: nat, utc: int, previousTx: nat)

  // ----- The slave

  datatype Slave = Slave(prevUtc: int, prevMono: nat, lastAdjustment: nat, adjust: bool, master: nat,
                         prevTid: TransferID, prevIface: nat, suppressed: bool)

  function InitialSlave(): Slave { Slave(0, 0, 0, false, INVALID_NODE, 0, 255, false) }

  function Updated(s: Slave, m: Msg): Slave {
    s.(prevUtc := m.utc, prevMono := m.mono, master := m.src, prevIface := m.iface, prevTid := m.tid, adjust := true)
  }

  predicate NeedsInit(s: Slave) { s.master > MAX_NODE_ID || s.prevMono == 0 }

  predicate PublisherTimeout(s: Slave, m: Msg, p: Periods) { (m.mono - s.prevMono) / 1000 > p.timeout }

  predicate Usable(s: Slave, m: Msg, p: Periods) {
    m.previousTx != 0 && Receiver.ForwardDistance(s.prevTid, m.tid) == 1 && (m.mono - s.prevMono) / 1000 <= p.max
  }

  /** The new state, and the adjustment of the clock if one is computed. */
  function Process(s: Slave, m: Msg, p: Periods): (r: (Slave, Option<int>)) {
    if m.src < s.master || PublisherTimeout(s, m, p) || NeedsInit(s) then (Updated(s, m), None)
    else if m.iface == s.prevIface && m.src == s.master then
      if s.adjust && Usable(s, m, p) then (s.(lastAdjustment := m.mono, adjust := false), Some(m.previousTx - s.prevUtc))
      else (Updated(s, m), None)
    else (s, None)
  }

  class GlobalTimeSyncSlave {
    var state: Slave
    const periods: Periods
    /** What was passed to the clock. */
    var adjustments: seq<int>

    constructor (p: Periods)
      ensures state == InitialSlave() && periods == p && adjustments == []
    {
      state, periods, adjustments := InitialSlave(), p, [];
    }

    method AdjustFromMsg(m: Msg)
      modifies this
      ensures state == old(state).(lastAdjustment := m.mono, adjust := false)
      ensures adjustments == old(adjustments) + if old(state).suppressed then [] else [m.previousTx - old(state).prevUtc]
    {
      if !state.suppressed {
        adjustments := adjustments + [m.previousTx - state.prevUtc];
      }
      state := state.(lastAdjustment := m.mono, adjust := false);
    }

    method UpdateFromMsg(m: Msg)
      modifies this`state
      ensures state == Updated(old(state), m)
    {
      state := state.(prevUtc := m.utc, prevMono := m.mono, master := m.src);
      state := state.(prevIface := m.iface, prevTid := m.tid, adjust := true);
    }

    method ProcessMsg(m: Msg)
      modifies this
      ensures var (s, a) := Process(old(state), m, periods);
              state == s && adjustments == old(adjustments) + if a.Some? && !old(state).suppressed then [a.value] else []
    {
      var sincePrev := m.mono - state.prevMono;
      var needsInit := state.master > MAX_NODE_ID || state.prevMono == 0;
      var switchMaster := m.src < state.master;
      var pubTimeout := sincePrev / 1000 > periods.timeout;
      if switchMaster || pubTimeout || needsInit {
        UpdateFromMsg(m);
      } else if m.iface == state.prevIface && m.src == state.master {
        if state.adjust {
          var msgInvalid := m.previousTx == 0;
          var wrongTid := Receiver.ForwardDistance(state.prevTid, m.tid) != 1;
          var wrongTiming := sincePrev / 1000 > periods.max;
          if msgInvalid || wrongTid || wrongTiming {
            state := state.(adjust := false);
          }
        }
        if state.adjust {
          AdjustFromMsg(m);
        } else {
          UpdateFromMsg(m);
        }
      }
    }
  }

  // ----- Runs of the slave

  /** The state after the first `n` messages. */
  ghost function After(ms: seq<Msg>, n: nat, p: Periods): Slave
    requires n <= |ms|
  {
    if n == 0 then InitialSlave() else Process(After(ms, n - 1, p), ms[n - 1], p).0
  }

  ghost predicate Received(ms: seq<Msg>) {
    && (forall i :: 0 <= i < |ms| ==> 0 < ms[i].src <= MAX_NODE_ID && ms[i].mono > 0)
    && (forall i, j :: 0 <= i < j < |ms| ==> ms[i].mono <= ms[j].mono)
  }

  /** Whether the slave stores this message as its new reference. */
  predicate Updates(s: Slave, m: Msg, p: Periods) {
    || m.src < s.master || PublisherTimeout(s, m, p) || NeedsInit(s)
    || (m.iface == s.prevIface && m.src == s.master && !(s.adjust && Usable(s, m, p)))
  }

  /** The number of the last message before `n` that the slave stored. */
  ghost function LastUpdate(ms: seq<Msg>, n: nat, p: Periods): (k: nat)
    requires 0 < n <= |ms|
    ensures k < n
  {
    if n == 1 || Updates(After(ms, n - 1, p), ms[n - 1], p) then n - 1 else LastUpdate(ms, n - 1, p)
  }

  /** What the slave remembers is message `m`. */
  ghost predicate Remembers(s: Slave, m: Msg) {
    s.prevUtc == m.utc && s.prevMono == m.mono && s.master == m.src && s.prevIface == m.iface && s.prevTid == m.tid
  }

  lemma {:induction false} Remembered(ms: seq<Msg>, n: nat, p: Periods)
    requires 0 < n <= |ms|
    ensures Remembers(After(ms, n, p), ms[LastUpdate(ms, n, p)])
  {
    if n > 1 {
      Remembered(ms, n - 1, p);
    }
  }

  /** Every adjustment compares a carried time with the stored reception time of one earlier message of the same
      master, on the same interface, with the previous transfer ID, within the longest period. */
  lemma {:induction false} AdjustmentOrigin(ms: seq<Msg>, n: nat, p: Periods) returns (k: nat)
    requires n < |ms| && Received(ms) && Process(After(ms, n, p), ms[n], p).1.Some?
    ensures k < n && ms[k].src == ms[n].src && ms[k].iface == ms[n].iface && ms[n].previousTx > 0
    ensures Receiver.ForwardDistance(ms[k].tid, ms[n].tid) == 1 && (ms[n].mono - ms[k].mono) / 1000 <= p.max
    ensures Process(After(ms, n, p), ms[n], p).1 == Some(ms[n].previousTx - ms[k].utc)
  {
    assert After(ms, 0, p) == InitialSlave();
    assert n > 0;
    k := LastUpdate(ms, n, p);
    Remembered(ms, n, p);
  }

  /** The followed master ID rises exactly when a message of a greater ID comes more than the timeout after the last
      message that the slave stored. */
  lemma {:induction false} MasterRises(ms: seq<Msg>, n: nat, p: Periods)
    requires 0 < n < |ms| && Received(ms)
    ensures var k := LastUpdate(ms, n, p);
            && After(ms, n, p).master == ms[k].src
            && (After(ms, n, p).master < After(ms, n + 1, p).master <==>
                ms[k].src < ms[n].src && (ms[n].mono - ms[k].mono) / 1000 > p.timeout)
  {
    Remembered(ms, n, p);
  }

  /** What that says about silence: since the last stored message, the slave has had at most one message of that master
      on that interface, namely the one that it adjusted from, and none of a smaller ID. */
  lemma {:induction false} HeardSinceUpdate(ms: seq<Msg>, n: nat, p: Periods)
    requires 0 < n <= |ms|
    ensures var k := LastUpdate(ms, n, p);
            AtMostOne(ms, k, n, p) && (After(ms, n, p).adjust <==> NoneFrom(ms, k, n))
  {
    hide Process, Updates, Remembers, After, LastUpdate, AtMostOne, NoneFrom;
    UpdateStep(ms, n, p);
    if n == 1 || Updates(After(ms, n - 1, p), ms[n - 1], p) {
      NothingBetween(ms, n - 1, p);
    } else {
      var k := LastUpdate(ms, n - 1, p);
      HeardSinceUpdate(ms, n - 1, p);
      Remembered(ms, n - 1, p);
      QuietStep(After(ms, n - 1, p), ms[n - 1], p, ms[k]);
      OneMoreHeard(ms, k, n, p);
    }
  }

  ghost predicate AtMostOne(ms: seq<Msg>, k: nat, n: nat, p: Periods)
    requires k < n <= |ms|
  {
    && (forall i :: k < i < n ==> ms[i].src >= ms[k].src)
    && (forall i :: k < i < n && FromReference(ms, k, i) ==> Process(After(ms, i, p), ms[i], p).1.Some?)
    && (forall i, j :: k < i < j < n ==> !(FromReference(ms, k, i) && FromReference(ms, k, j)))
  }

  ghost predicate NoneFrom(ms: seq<Msg>, k: nat, n: nat)
    requires k < n <= |ms|
  {
    forall i :: k < i < n ==> !FromReference(ms, k, i)
  }

  lemma NothingBetween(ms: seq<Msg>, k: nat, p: Periods)
    requires k < |ms|
    ensures AtMostOne(ms, k, k + 1, p) && NoneFrom(ms, k, k + 1)
  {}

  lemma OneMoreHeard(ms: seq<Msg>, k: nat, n: nat, p: Periods)
    requires k < n - 1 < |ms| && AtMostOne(ms, k, n - 1, p) && ms[n - 1].src >= ms[k].src
    requires FromReference(ms, k, n - 1) ==> NoneFrom(ms, k, n - 1) && Process(After(ms, n - 1, p), ms[n - 1], p).1.Some?
    ensures AtMostOne(ms, k, n, p) && (NoneFrom(ms, k, n) <==> NoneFrom(ms, k, n - 1) && !FromReference(ms, k, n - 1))
  {
    hide Process, After, FromReference;
  }

  lemma UpdateStep(ms: seq<Msg>, n: nat, p: Periods)
    requires 0 < n <= |ms|
    ensures LastUpdate(ms, n, p) == if n == 1 || Updates(After(ms, n - 1, p), ms[n - 1], p) then n - 1 else LastUpdate(ms, n - 1, p)
    ensures n == 1 || Updates(After(ms, n - 1, p), ms[n - 1], p) ==> After(ms, n, p).adjust
    ensures After(ms, n, p) == Process(After(ms, n - 1, p), ms[n - 1], p).0
  {
    hide LastUpdate;
    LastUpdateIs(ms, n, p);
    if n == 1 {
      assert After(ms, 0, p) == InitialSlave();
    }
  }

  lemma LastUpdateIs(ms: seq<Msg>, n: nat, p: Periods)
    requires 0 < n <= |ms|
    ensures LastUpdate(ms, n, p) == if n == 1 || Updates(After(ms, n - 1, p), ms[n - 1], p) then n - 1 else LastUpdate(ms, n - 1, p)
  {
    hide Updates, After;
  }

  /** A message that is not stored comes from the reference and is adjusted from, or changes nothing. */
  lemma QuietStep(s: Slave, m: Msg, p: Periods, reference: Msg)
    requires Remembers(s, reference) && !Updates(s, m, p)
    ensures m.src >= reference.src
    ensures if m.src == reference.src && m.iface == reference.iface
            then s.adjust && Process(s, m, p).1.Some? && !Process(s, m, p).0.adjust
            else Process(s, m, p) == (s, None)
  {}

  /** Message `i` has the source and the interface of message `k`. */
  ghost predicate FromReference(ms: seq<Msg>, k: nat, i: nat)
    requires k < |ms| && i < |ms|
  {
    ms[i].src == ms[k].src && ms[i].iface == ms[k].iface
  }

  /** The timeout is no measure of silence: the slave leaves a master that it heard and used 1.3 seconds before. */
  lemma RisesThoughUsed()
    ensures var p := Periods(1100, 40, 2200);
            var ms := [Msg(10, 0, 0, 1000000, 5, 0), Msg(10, 0, 1, 2000000, 6, 77), Msg(20, 0, 0, 3300000, 7, 0)];
            && Received(ms) && Process(After(ms, 1, p), ms[1], p).1.Some?
            && After(ms, 2, p).master == 10 && After(ms, 3, p).master == 20
  {
    var p := Periods(1100, 40, 2200);
    var ms := [Msg(10, 0, 0, 1000000, 5, 0), Msg(10, 0, 1, 2000000, 6, 77), Msg(20, 0, 0, 3300000, 7, 0)];
    assert After(ms, 0, p) == InitialSlave();
    assert After(ms, 1, p) == Updated(InitialSlave(), ms[0]);
    assert After(ms, 2, p) == After(ms, 1, p).(lastAdjustment := 2000000, adjust := false);
  }

  /** ... and one that it heard on another interface a tenth of a second before. */
  lemma RisesThoughHeard()
    ensures var p := Periods(1100, 40, 2200);
            var ms := [Msg(10, 0, 0, 1000000, 5, 0), Msg(10, 1, 3, 3200000, 6, 77), Msg(20, 0, 0, 3300000, 7, 0)];
            Received(ms) && After(ms, 2, p).master == 10 && After(ms, 3, p).master == 20
  {
    var p := Periods(1100, 40, 2200);
    var ms := [Msg(10, 0, 0, 1000000, 5, 0), Msg(10, 1, 3, 3200000, 6, 77), Msg(20, 0, 0, 3300000, 7, 0)];
    assert After(ms, 0, p) == InitialSlave();
    assert After(ms, 1, p) == Updated(InitialSlave(), ms[0]);
    assert After(ms, 2, p) == After(ms, 1, p);
  }

  // ----- The master on one interface

  datatype IfaceState = IfaceState(prevTx: nat, prevPub: nat)

  /** The carried time and the new state. */
  function Publish(s: IfaceState, now: nat, p: Periods): (nat, IfaceState) {
    (if (now - s.prevPub) / 1000 >= p.max then 0 else s.prevTx, IfaceState(0, now))
  }

  /** A second report for one publication discredits both. */
  function Loopback(s: IfaceState, ts: nat): IfaceState {
    if ts == 0 then s else s.(prevTx := if s.prevTx != 0 then 0 else ts)
  }

  class IfaceMaster {
    var prevTxUtc: nat
    var ifacePrevPubMono: nat
    const periods: Periods

    function View(): IfaceState
      reads this
    {
      IfaceState(prevTxUtc, ifacePrevPubMono)
    }

    constructor (p: Periods)
      ensures View() == IfaceState(0, 0) && periods == p
    {
      prevTxUtc, ifacePrevPubMono, periods := 0, 0, p;
    }

    method SetTxTimestamp(ts: nat)
      modifies this
      ensures View() == Loopback(old(View()), ts)
    {
      if ts == 0 {
        return;
      }
      if prevTxUtc != 0 {
        prevTxUtc := 0;
        return;
      }
      prevTxUtc := ts;
    }

    method PublishMsg(now: nat) returns (carried: nat)
      modifies this
      ensures (carried, View()) == Publish(old(View()), now, periods)
    {
      var sincePrevPub := now - ifacePrevPubMono;
      ifacePrevPubMono := now;
      var longPeriod := sincePrevPub / 1000 >= periods.max;
      carried := if longPeriod then 0 else prevTxUtc;
      prevTxUtc := 0;
    }
  }

  /**
    One publication: when it was made, whether the transfer ID registry had forgotten the type before, and
    the transmission time, reported before the next publication.
   */
  datatype Publication = Publication(time: nat, forgotten: bool, tx: nat)

  /** Publications in the order of time, the minimum interval apart. */
  ghost predicate Spaced(times: seq<nat>, p: Periods) {
    forall n :: 0 < n < |times| ==> times[n] >= times[n - 1] && (times[n] - times[n - 1]) / 1000 >= p.min
  }

  ghost function Times(pubs: seq<Publication>): (r: seq<nat>)
    ensures |r| == |pubs|
  {
    seq(|pubs|, n requires 0 <= n < |pubs| => pubs[n].time)
  }

  /** The publishing limit is kept, and the registry forgets an entry only when the longest period has passed.  A report
      that never comes is a transmission time of zero. */
  ghost predicate Published(pubs: seq<Publication>, p: Periods) {
    && Spaced(Times(pubs), p)
    && (forall n :: 0 < n < |pubs| && pubs[n].forgotten ==> pubs[n].time >= pubs[n - 1].time + 1000 * p.max)
  }

  lemma PublishedStep(pubs: seq<Publication>, n: nat, p: Periods)
    requires 0 < n < |pubs| && Published(pubs, p)
    ensures pubs[n].time >= pubs[n - 1].time + 1000 * p.min
    ensures pubs[n].forgotten ==> pubs[n].time >= pubs[n - 1].time + 1000 * p.max
  {
    assert Times(pubs)[n] == pubs[n].time && Times(pubs)[n - 1] == pubs[n - 1].time;
  }

  ghost function TidOf(pubs: seq<Publication>, n: nat, first: TransferID): TransferID
    requires n < |pubs|
  {
    if n == 0 then first else if pubs[n].forgotten then 0 else Receiver.Next(TidOf(pubs, n - 1, first))
  }

  /** The interface's state just before publication `n`: publish and report alternate. */
  ghost function Before(pubs: seq<Publication>, n: nat, p: Periods): IfaceState
    requires n <= |pubs|
  {
    if n == 0 then IfaceState(0, 0) else Loopback(Publish(Before(pubs, n - 1, p), pubs[n - 1].time, p).1, pubs[n - 1].tx)
  }

  ghost function Carried(pubs: seq<Publication>, n: nat, p: Periods): nat
    requires n < |pubs|
  {
    Publish(Before(pubs, n, p), pubs[n].time, p).0
  }

  /** A message carries the transmission time of its predecessor, or nothing. */
  lemma CarriesPrevious(pubs: seq<Publication>, n: nat, p: Periods)
    requires n < |pubs| && Published(pubs, p)
    ensures Carried(pubs, n, p) == 0 || (n > 0 && Carried(pubs, n, p) == pubs[n - 1].tx)
    ensures n > 0 && (pubs[n].time - pubs[n - 1].time) / 1000 >= p.max ==> Carried(pubs, n, p) == 0
  {}

  lemma {:induction false} Spread(pubs: seq<Publication>, k: nat, n: nat, p: Periods)
    requires k <= n < |pubs| && Published(pubs, p)
    ensures pubs[n].time >= pubs[k].time + 1000 * p.min * (n - k)
    decreases n
  {
    hide Published;
    if k < n {
      PublishedStep(pubs, n, p);
      Spread(pubs, k, n - 1, p);
      assert 1000 * p.min * (n - k) == 1000 * p.min * (n - 1 - k) + 1000 * p.min;
    }
  }

  /** A gap anywhere between two publications adds up with the minimum intervals. */
  lemma SpreadGap(pubs: seq<Publication>, k: nat, g: nat, n: nat, p: Periods)
    requires k < g <= n < |pubs| && Published(pubs, p) && pubs[g].forgotten && n - k >= 2
    ensures pubs[n].time >= pubs[k].time + 1000 * p.max + 1000 * p.min
  {
    hide Published;
    PublishedStep(pubs, g, p);
    Spread(pubs, k, g - 1, p);
    Spread(pubs, g, n, p);
    var d := (g - 1 - k) + (n - g);
    assert 1000 * p.min * (g - 1 - k) + 1000 * p.min * (n - g) == 1000 * p.min * d;
    Scaled(1000 * p.min, 1, d);
  }

  lemma {:induction false} TidsAdvance(pubs: seq<Publication>, k: nat, n: nat, first: TransferID)
    requires k <= n < |pubs| && forall g :: k < g <= n ==> !pubs[g].forgotten
    ensures TidOf(pubs, n, first) == (TidOf(pubs, k, first) + (n - k)) % NUM_TIDS
    decreases n
  {
    hide TidOf;
    if k < n {
      TidsAdvance(pubs, k, n - 1, first);
      TidStep(pubs, n, first);
      NextOf(TidOf(pubs, n - 1, first), TidOf(pubs, k, first) + (n - 1 - k));
    }
  }

  lemma TidStep(pubs: seq<Publication>, n: nat, first: TransferID)
    requires 0 < n < |pubs| && !pubs[n].forgotten
    ensures TidOf(pubs, n, first) == Receiver.Next(TidOf(pubs, n - 1, first))
  {}

  lemma NextOf(t: TransferID, x: nat)
    requires t == x % NUM_TIDS
    ensures Receiver.Next(t) == (x + 1) % NUM_TIDS
  {}

  /**
    The messages of one master on one interface as the slave gets them: some publications in order, `at`
    giving their numbers, each received within the latency bound.
   */
  ghost predicate Carries(ms: seq<Msg>, at: seq<nat>, pubs: seq<Publication>, src: nat, iface: nat, first: TransferID, latency: nat, p: Periods) {
    && |at| == |ms|
    && (forall i :: 0 <= i < |ms| && ms[i].src == src && ms[i].iface == iface ==>
          && at[i] < |pubs|
          && ms[i].tid == TidOf(pubs, at[i], first)
          && ms[i].previousTx == Carried(pubs, at[i], p)
          && pubs[at[i]].time <= ms[i].mono <= pubs[at[i]].time + latency)
    && (forall i, j :: 0 <= i < j < |ms| && ms[i].src == ms[j].src == src && ms[i].iface == ms[j].iface == iface ==> at[i] < at[j])
  }

  /** Two publications whose transfer IDs are consecutive, received within the longest period, the second one
      carrying a time, are neighbours. */
  lemma {:induction false} Neighbours(pubs: seq<Publication>, k: nat, n: nat, first: TransferID, rxK: nat, rxN: nat, latency: nat, p: Periods)
    requires k < n < |pubs| && Published(pubs, p) && p.Valid() && latency <= 1000 * (p.min - 1)
    requires Receiver.ForwardDistance(TidOf(pubs, k, first), TidOf(pubs, n, first)) == 1 && Carried(pubs, n, p) != 0
    requires pubs[k].time <= rxK <= pubs[k].time + latency && pubs[n].time <= rxN && (rxN - rxK) / 1000 <= p.max
    ensures n == k + 1
  {
    hide Carried, TidOf;
    CarriesPrevious(pubs, n, p);
    if n != k + 1 {
      forall g | k < g <= n
        ensures !pubs[g].forgotten
      {
        if pubs[g].forgotten {
          SpreadGap(pubs, k, g, n, p);
        }
      }
      TidsAdvance(pubs, k, n, first);
      Spread(pubs, k, n, p);
      if n - k >= 33 {
        Scaled(1000 * p.min, 33, n - k);
      }
    }
  }

  /**
    Whatever else the slave hears, an adjustment taken from a master is the transmission time of one of its
    publications minus the slave's own reception time of that very publication.
   */
  lemma {:induction false} SameFrame(ms: seq<Msg>, n: nat, at: seq<nat>, pubs: seq<Publication>, first: TransferID, latency: nat, p: Periods) returns (k: nat)
    requires n < |ms| && Received(ms) && p.Valid() && Published(pubs, p) && latency <= 1000 * (p.min - 1)
    requires Carries(ms, at, pubs, ms[n].src, ms[n].iface, first, latency, p)
    requires Process(After(ms, n, p), ms[n], p).1.Some?
    ensures k < n && ms[k].src == ms[n].src && ms[k].iface == ms[n].iface && at[k] < |pubs|
    ensures Process(After(ms, n, p), ms[n], p).1 == Some(pubs[at[k]].tx - ms[k].utc)
  {
    hide Carried, TidOf, Process, After;
    k := AdjustmentOrigin(ms, n, p);
    Neighbours(pubs, at[k], at[n], first, ms[k].mono, ms[n].mono, latency, p);
    CarriesPrevious(pubs, at[n], p);
  }

  // ----- The publishing limit

  function Last(times: seq<nat>): nat { if times == [] then 0 else times[|times| - 1] }

  /** Which of a run of requests, given by their times, are published: those that come the minimum interval after the
      last publication. */
  function Granted(requests: seq<nat>, p: Periods): (r: seq<nat>) {
    if requests == [] then []
    else
      var n := |requests| - 1;
      var before := Granted(requests[..n], p);
      if (requests[n] - Last(before)) / 1000 >= p.min then before + [requests[n]] else before
  }

  ghost predicate Ascending(requests: seq<nat>) { forall i, j :: 0 <= i < j < |requests| ==> requests[i] <= requests[j] }

  /** However often publishing is requested, publications keep the minimum interval. */
  lemma {:induction false} GrantedSpaced(requests: seq<nat>, p: Periods)
    requires Ascending(requests)
    ensures Spaced(Granted(requests, p), p)
    ensures requests == [] ==> Granted(requests, p) == []
    ensures requests != [] ==> Last(Granted(requests, p)) <= requests[|requests| - 1]
  {
    if requests != [] {
      var n := |requests| - 1;
      GrantedSpaced(requests[..n], p);
      var before := Granted(requests[..n], p);
      assert n > 0 ==> requests[..n][n - 1] <= requests[n];
      if (requests[n] - Last(before)) / 1000 >= p.min {
        SpacedSnoc(before, requests[n], p);
      }
    }
  }

  lemma SpacedSnoc(times: seq<nat>, t: nat, p: Periods)
    requires Spaced(times, p) && Last(times) <= t && (t - Last(times)) / 1000 >= p.min
    ensures Spaced(times + [t], p)
  {}

  /** ... and no request is put off for longer: at every request, less than the interval has passed since the last
      publication, that very request included. */
  lemma {:induction false} GrantedPrompt(requests: seq<nat>, p: Periods)
    requires Ascending(requests) && requests != [] && p.min > 0
    ensures 0 <= requests[|requests| - 1] - Last(Granted(requests, p)) < 1000 * p.min
  {
    GrantedSpaced(requests, p);
  }

  class GlobalTimeSyncMaster {
    var prevPubMono: nat
    const periods: Periods
    /** The times of all requests so far. */
    ghost var requests: seq<nat>

    ghost predicate Valid()
      reads this
    {
      Ascending(requests) && prevPubMono == Last(Granted(requests, periods))
    }

    constructor (p: Periods)
      ensures Valid() && requests == [] && periods == p
    {
      prevPubMono, periods, requests := 0, p, [];
    }

    /** The publications of all requests so far, this one included, are those of the limit. */
    method PublishRequest(now: nat) returns (published: bool)
      requires Valid() && Last(requests) <= now
      modifies this
      ensures Valid() && requests == old(requests) + [now]
      ensures Granted(requests, periods) == Granted(old(requests), periods) + if published then [now] else []
    {
      ghost var before := requests;
      requests := requests + [now];
      assert requests[..|before|] == before;
      if (now - prevPubMono) / 1000 < periods.min {
        assert Granted(before, periods) + [] == Granted(before, periods);
        return false;
      }
      prevPubMono := now;
      return true;
    }
  }
}
