/**
  The bookkeeping of concurrent service calls: every accepted call ends in exactly one of a success
  callback, a timeout callback or a cancellation.  With one call per pool block, as by default, that holds
  of every run.  With more, a call whose request cannot be sent may take back an older call of the same ID
  instead of itself, and the condition for that is exact.

  A call's own deadline only marks it; the client's shared deadline, raised at once, runs the timeout
  callbacks and then drops the marked calls.  `serial` numbers the calls and decides nothing.
 */
module ServiceClient {
  import opened Bits
  import opened Frames
  import opened Multisets

  datatype CallId = CallId(server: nat, tid: TransferID)

  datatype Call = Call(id: CallId, serial: nat, timedOut: bool)
  {
    predicate Matches(other: CallId) { id == other && !timedOut }
  }

  /** The registry of pending calls, whether responses are listened for, and the history. */
  datatype Client = Client(slots: Slots, registry: seq<Chunk<Call>>, listening: bool, accepted: seq<nat>, successes: seq<nat>, timeouts: seq<nat>, cancelled: seq<nat>)
  {
    ghost predicate Valid() { Shaped(registry, slots) }

    /** The pending calls, in the order in which searches meet them. */
    function Calls(): seq<Call> { Items(registry) }
  }

  function NewClient(n: Slots): Client { Client(n, [], false, [], [], [], []) }

  /** What the environment answers to a call: the subscriber starts, memory is there, the request goes out. */
  datatype Attempt = Attempt(id: CallId, serial: nat, starts: bool, memory: bool, publishes: bool)

  datatype Happening =
    | Calling(attempt: Attempt)
    | Expiring(serial: nat)
    | Sweeping(attempts: seq<Attempt>)
    | Responding(id: CallId)
    | Cancelling(id: CallId)
    | CancellingAll

  // ----- The registry

  function Matching(id: CallId): Call -> bool { (x: Call) => x.Matches(id) }

  /** The position of the first matching call, or the length. */
  function Find(calls: seq<Call>, id: CallId): (k: nat)
    ensures k <= |calls| && (k < |calls| ==> calls[k].Matches(id)) && forall i :: 0 <= i < k ==> !calls[i].Matches(id)
  {
    First(calls, Matching(id))
  }

  function Running(calls: seq<Call>): (r: seq<Call>)
    ensures |r| <= |calls|
  {
    if calls == [] then [] else (if calls[0].timedOut then [] else [calls[0]]) + Running(calls[1..])
  }

  function Expired(calls: seq<Call>): (r: seq<nat>)
    ensures |r| + |Running(calls)| == |calls|
  {
    if calls == [] then [] else (if calls[0].timedOut then [calls[0].serial] else []) + Expired(calls[1..])
  }

  function Marked(calls: seq<Call>, serial: nat): (r: seq<Call>)
    ensures |r| == |calls|
  {
    seq(|calls|, i requires 0 <= i < |calls| => if calls[i].serial == serial then calls[i].(timedOut := true) else calls[i])
  }

  // ----- The operations

  function TimedOut(): Call -> bool { (x: Call) => x.timedOut }

  function Marking(serial: nat): Call -> Call { (x: Call) => if x.serial == serial then x.(timedOut := true) else x }

  /** Remove the first matching call and stop listening when none is left. */
  function Removal(c: Client, id: CallId): Client {
    var left := c.(registry := Compact(WithoutFirst(c.registry, Matching(id))));
    left.(listening := c.listening && left.Calls() != [])
  }

  /** Whether a call state can be added: the subscriber starts, and a slot is free or the pool has a block. */
  predicate Adds(c: Client, a: Attempt) { (c.Calls() != [] || a.starts) && (HasFree(c.registry) || a.memory) }

  function CallOf(a: Attempt): Call { Call(a.id, a.serial, false) }

  /** A failed allocation stops the subscriber, whatever else is pending. */
  function AddCallState(c: Client, a: Attempt): (r: (Client, bool)) {
    if c.Calls() == [] && !a.starts then (c, false)
    else if !HasFree(c.registry) && !a.memory then (c.(listening := false), false)
    else (c.(registry := Place(c.registry, c.slots, CallOf(a)), listening := c.listening || c.Calls() == []), true)
  }

  function MakeCall(c: Client, a: Attempt): Client {
    var (c1, ok) := AddCallState(c, a);
    if !ok then c1
    else if a.publishes then c1.(accepted := c1.accepted + [a.serial])
    else Removal(c1, a.id)
  }

  function MakeCalls(c: Client, attempts: seq<Attempt>): Client
    decreases |attempts|
  {
    if attempts == [] then c else MakeCalls(MakeCall(c, attempts[0]), attempts[1..])
  }

  /** A response reaches the client only while the subscriber runs. */
  function Respond(c: Client, id: CallId): Client {
    var k := Find(c.Calls(), id);
    if !c.listening || k == |c.Calls()| then c
    else Removal(c, id).(successes := c.successes + [c.Calls()[k].serial])
  }

  function Cancel(c: Client, id: CallId): Client {
    var k := Find(c.Calls(), id);
    if k == |c.Calls()| then Removal(c, id)
    else Removal(c, id).(cancelled := c.cancelled + [c.Calls()[k].serial])
  }

  function Serials(calls: seq<Call>): (r: seq<nat>)
    ensures |r| == |calls|
  {
    seq(|calls|, i requires 0 <= i < |calls| => calls[i].serial)
  }

  /** The shared deadline: timeout callbacks, which may make further calls, then removal of what had timed out. */
  function Sweep(c: Client, attempts: seq<Attempt>): Client {
    var c1 := MakeCalls(c.(timeouts := c.timeouts + Expired(c.Calls())), attempts);
    var left := c1.(registry := Compact(KeptChunks(c1.registry, Except(TimedOut()))));
    left.(listening := c1.listening && left.Calls() != [])
  }

  function Step(c: Client, h: Happening): Client {
    match h
    case Calling(a) => MakeCall(c, a)
    case Expiring(serial) => c.(registry := Mapped(c.registry, Marking(serial)))
    case Sweeping(attempts) => Sweep(c, attempts)
    case Responding(id) => Respond(c, id)
    case Cancelling(id) => Cancel(c, id)
    case CancellingAll => c.(cancelled := c.cancelled + Serials(c.Calls()), registry := [], listening := false)
  }

  // ----- What the operations do to the pending calls

  lemma PlacedCalls(c: Client, a: Attempt)
    requires Adds(c, a)
    ensures AddCallState(c, a).1 && Position(c.registry) <= |c.Calls()|
    ensures AddCallState(c, a).0.Calls() == InsertAt(c.Calls(), Position(c.registry), CallOf(a))
  {
    hide Items, Place, Position, InsertAt;
    PlaceItems(c.registry, c.slots, CallOf(a));
  }

  lemma RemovedCalls(c: Client, id: CallId)
    ensures var k := Find(c.Calls(), id);
            Removal(c, id).Calls() == if k < |c.Calls()| then Without(c.Calls(), k) else c.Calls()
  {
    hide Items, Compact, WithoutFirst;
    WithoutFirstItems(c.registry, Matching(id));
    CompactItems(WithoutFirst(c.registry, Matching(id)));
  }

  lemma MarkedCalls(c: Client, serial: nat)
    ensures Step(c, Expiring(serial)).Calls() == Marked(c.Calls(), serial)
  {
    hide Items, Mapped;
    MappedItems(c.registry, Marking(serial));
  }

  lemma {:induction false} KeptRunning(calls: seq<Call>)
    ensures Kept(calls, Except(TimedOut())) == Running(calls)
  {
    if calls != [] {
      KeptRunning(calls[1..]);
    }
  }

  lemma SweptCalls(c: Client, attempts: seq<Attempt>)
    ensures Sweep(c, attempts).Calls() == Running(MakeCalls(c.(timeouts := c.timeouts + Expired(c.Calls())), attempts).Calls())
  {
    hide Items, Compact, KeptChunks, Kept, MakeCalls;
    var c1 := MakeCalls(c.(timeouts := c.timeouts + Expired(c.Calls())), attempts);
    KeptItems(c1.registry, Except(TimedOut()));
    CompactItems(KeptChunks(c1.registry, Except(TimedOut())));
    KeptRunning(c1.Calls());
  }

  // ----- Runs

  function IfRunning(x: Call): seq<Call> { if x.timedOut then [] else [x] }

  function IfExpired(x: Call): seq<nat> { if x.timedOut then [x.serial] else [] }

  lemma OneMore(x: Call, rest: seq<Call>)
    ensures Running([x] + rest) == IfRunning(x) + Running(rest) && Expired([x] + rest) == IfExpired(x) + Expired(rest)
    ensures Serials([x] + rest) == [x.serial] + Serials(rest)
  {
    assert ([x] + rest)[1..] == rest;
  }

  lemma NoCalls()
    ensures Running([]) == [] && Expired([]) == [] && Serials([]) == []
  {}

  lemma JustOne(x: Call)
    ensures Running([x]) == IfRunning(x) && Expired([x]) == IfExpired(x)
  {
    hide *;
    OneMore(x, []);
    NoCalls();
    assert [x] + [] == [x] && IfRunning(x) + [] == IfRunning(x) && IfExpired(x) + [] == IfExpired(x);
  }

  lemma {:induction false} RunningAppend(a: seq<Call>, b: seq<Call>)
    ensures Running(a + b) == Running(a) + Running(b) && Expired(a + b) == Expired(a) + Expired(b)
  {
    hide *;
    if a == [] {
      NoCalls();
      assert [] + b == b && [] + Running(b) == Running(b) && [] + Expired(b) == Expired(b);
    } else {
      var x, rest := a[0], a[1..];
      RunningAppend(rest, b);
      OneMore(x, rest);
      OneMore(x, rest + b);
      assert a == [x] + rest && a + b == [x] + (rest + b);
      assert IfRunning(x) + (Running(rest) + Running(b)) == IfRunning(x) + Running(rest) + Running(b);
      assert IfExpired(x) + (Expired(rest) + Expired(b)) == IfExpired(x) + Expired(rest) + Expired(b);
    }
  }

  lemma InsertedExpired(calls: seq<Call>, p: nat, x: Call)
    requires p <= |calls| && !x.timedOut
    ensures Expired(InsertAt(calls, p, x)) == Expired(calls)
  {
    hide Running, Expired;
    assert calls == calls[..p] + calls[p..];
    RunningAppend(calls[..p], calls[p..]);
    RunningAppend(calls[..p] + [x], calls[p..]);
    RunningAppend(calls[..p], [x]);
    JustOne(x);
    assert Expired(calls[..p]) + [] == Expired(calls[..p]);
  }

  /** A call adds itself among the others or takes one of its ID back. */
  lemma MakeCallFacts(c: Client, a: Attempt)
    ensures var c' := MakeCall(c, a);
            && c'.successes == c.successes && c'.timeouts == c.timeouts && c'.cancelled == c.cancelled
            && |c'.Calls()| - |c.Calls()| == |c'.accepted| - |c.accepted|
            && Expired(c'.Calls()) == Expired(c.Calls())
  {
    hide Running, Expired, Items, First, Place, Position, HasFree;
    if Adds(c, a) {
      var c1 := AddCallState(c, a).0;
      var p, n := Position(c.registry), CallOf(a);
      PlacedCalls(c, a);
      InsertedExpired(c.Calls(), p, n);
      if !a.publishes {
        assert c1.Calls()[p] == n && n.Matches(a.id);
        var k := Find(c1.Calls(), a.id);
        RemovedCalls(c1, a.id);
        RemovalExpired(c1.Calls(), k);
      }
    }
  }

  lemma RemovalExpired(calls: seq<Call>, k: nat)
    requires k < |calls| && !calls[k].timedOut
    ensures Expired(Without(calls, k)) == Expired(calls)
  {
    hide Running, Expired;
    var a, x, b := calls[..k], calls[k], calls[k + 1..];
    assert calls == a + ([x] + b);
    RunningAppend(a, [x] + b);
    OneMore(x, b);
    RunningAppend(a, b);
    assert IfExpired(x) + Expired(b) == Expired(b);
  }

  lemma {:induction false} MakeCallsFacts(c: Client, attempts: seq<Attempt>)
    ensures var c' := MakeCalls(c, attempts);
            && c'.successes == c.successes && c'.timeouts == c.timeouts && c'.cancelled == c.cancelled
            && |c'.Calls()| - |c.Calls()| == |c'.accepted| - |c.accepted|
            && Expired(c'.Calls()) == Expired(c.Calls())
    decreases |attempts|
  {
    hide MakeCall, Expired, Items;
    if attempts != [] {
      MakeCallFacts(c, attempts[0]);
      MakeCallsFacts(MakeCall(c, attempts[0]), attempts[1..]);
    }
  }

  ghost function Run(c: Client, hs: seq<Happening>): Client
    decreases |hs|
  {
    if hs == [] then c else Run(Step(c, hs[0]), hs[1..])
  }

  // ----- No call is answered twice

  /** Serials below `next` only, and each at most once among pending calls and endings. */
  ghost predicate Once(c: Client, next: nat) {
    NoRepeats(Record(c)) && forall s <- Record(c) :: s < next
  }

  /** All endings so far, and the calls that can still end. */
  ghost function Record(c: Client): seq<nat> { c.successes + c.timeouts + c.cancelled + Serials(c.Calls()) }

  lemma RepeatsAsMultiset(s: seq<nat>)
    ensures NoRepeats(s) <==> forall x :: multiset(s)[x] <= 1
  {
    if NoRepeats(s) {
      NoRepeatsCount(s);
    } else {
      var i, j :| 0 <= i < j < |s| && s[i] == s[j];
      assert s == s[..i] + [s[i]] + s[i + 1..j] + [s[j]] + s[j + 1..];
      assert multiset(s)[s[i]] >= 2;
    }
  }

  lemma {:induction false} NoRepeatsCount(s: seq<nat>)
    requires NoRepeats(s)
    ensures forall x :: multiset(s)[x] <= 1
  {
    if s != [] {
      var n := |s| - 1;
      NoRepeatsCount(s[..n]);
      assert s == s[..n] + [s[n]];
      assert s[n] !in s[..n];
    }
  }

  lemma {:induction false} SerialsOf(calls: seq<Call>)
    ensures multiset(Serials(calls)) == multiset(Expired(calls)) + multiset(Serials(Running(calls)))
  {
    hide Running, Expired, Serials;
    NoCalls();
    if calls != [] {
      var x, rest := calls[0], calls[1..];
      SerialsOf(rest);
      assert calls == [x] + rest;
      OneMore(x, rest);
      if x.timedOut {
        assert IfRunning(x) + Running(rest) == Running(rest);
      } else {
        OneMore(x, Running(rest));
        assert IfExpired(x) + Expired(rest) == Expired(rest);
      }
    }
  }

  lemma SerialsWithout(calls: seq<Call>, k: nat)
    requires k < |calls|
    ensures multiset(Serials(calls)) == multiset(Serials(Without(calls, k))) + multiset{calls[k].serial}
  {
    var a, b := Serials(calls[..k]), Serials(calls[k + 1..]);
    assert Serials(calls) == a + [calls[k].serial] + b;
    assert Serials(Without(calls, k)) == a + b;
  }

  ghost function RecordSet(c: Client): multiset<nat> {
    multiset(c.successes) + multiset(c.timeouts) + multiset(c.cancelled) + multiset(Serials(c.Calls()))
  }

  lemma RecordIs(c: Client)
    ensures multiset(Record(c)) == RecordSet(c)
  {}

  lemma MakeCallRecord(c: Client, a: Attempt)
    ensures RecordSet(MakeCall(c, a)) <= RecordSet(c) + multiset{a.serial}
  {
    hide Serials, First, Items, Place, Position, HasFree;
    if Adds(c, a) {
      var c1 := AddCallState(c, a).0;
      PlacedCalls(c, a);
      SerialsInserted(c.Calls(), Position(c.registry), CallOf(a));
      if !a.publishes {
        RemovalSerials(c1, a.id);
      }
    }
  }

  lemma SerialsInserted(calls: seq<Call>, p: nat, x: Call)
    requires p <= |calls|
    ensures multiset(Serials(InsertAt(calls, p, x))) == multiset(Serials(calls)) + multiset{x.serial}
  {
    var a, b := Serials(calls[..p]), Serials(calls[p..]);
    assert Serials(calls) == a + b;
    assert Serials(InsertAt(calls, p, x)) == a + [x.serial] + b;
  }

  lemma RemovalSerials(c: Client, id: CallId)
    ensures multiset(Serials(Removal(c, id).Calls())) <= multiset(Serials(c.Calls()))
  {
    hide Serials, First, Items;
    RemovedCalls(c, id);
    var k := Find(c.Calls(), id);
    if k < |c.Calls()| {
      SerialsWithout(c.Calls(), k);
    }
  }

  /** A new call must not reuse a serial. */
  ghost function NewSerials(h: Happening): seq<nat> {
    match h
    case Calling(a) => [a.serial]
    case Sweeping(attempts) => seq(|attempts|, i requires 0 <= i < |attempts| => attempts[i].serial)
    case _ => []
  }

  lemma {:induction false} MakeCallsRecord(c: Client, attempts: seq<Attempt>)
    ensures RecordSet(MakeCalls(c, attempts)) <= RecordSet(c) + multiset(NewSerials(Sweeping(attempts)))
    decreases |attempts|
  {
    hide MakeCall, RecordSet;
    if attempts != [] {
      MakeCallRecord(c, attempts[0]);
      MakeCallsRecord(MakeCall(c, attempts[0]), attempts[1..]);
      assert NewSerials(Sweeping(attempts)) == [attempts[0].serial] + NewSerials(Sweeping(attempts[1..]));
    }
  }

  lemma NoItems(c: Client)
    ensures c.(registry := []).Calls() == [] && Serials([]) == []
  {}

  lemma MarkedSerials(calls: seq<Call>, serial: nat)
    ensures Serials(Marked(calls, serial)) == Serials(calls)
  {}

  lemma StepRecord(c: Client, h: Happening)
    ensures RecordSet(Step(c, h)) <= RecordSet(c) + multiset(NewSerials(h))
  {
    hide MakeCall, Sweep, Respond, Cancel, Serials, Items;
    match h
    case Calling(a) => MakeCallRecord(c, a);
    case Expiring(serial) =>
      MarkedCalls(c, serial);
      MarkedSerials(c.Calls(), serial);
    case Sweeping(attempts) => SweepRecord(c, attempts);
    case Responding(id) => EndingRecord(c, id);
    case Cancelling(id) => EndingRecord(c, id);
    case CancellingAll => NoItems(c);
  }

  /** A response or a cancellation moves one serial from the pending calls to the endings. */
  lemma EndingRecord(c: Client, id: CallId)
    ensures RecordSet(Respond(c, id)) == RecordSet(c) && RecordSet(Cancel(c, id)) == RecordSet(c)
  {
    hide Serials, First, Items, Removal;
    RemovedCalls(c, id);
    RemovalKeeps(c, id);
    var k := Find(c.Calls(), id);
    if k < |c.Calls()| {
      SerialsWithout(c.Calls(), k);
      OneMoved(c, multiset(Serials(Removal(c, id).Calls())), c.Calls()[k].serial);
    }
  }

  lemma RemovalKeeps(c: Client, id: CallId)
    ensures Removal(c, id) == c.(registry := Removal(c, id).registry, listening := Removal(c, id).listening)
  {}

  lemma OneMoved(c: Client, rest: multiset<nat>, x: nat)
    ensures var s, t, u := multiset(c.successes), multiset(c.timeouts), multiset(c.cancelled);
            && multiset(c.successes + [x]) + t + u + rest == s + t + u + (rest + multiset{x})
            && s + t + multiset(c.cancelled + [x]) + rest == s + t + u + (rest + multiset{x})
  {}

  lemma SweepRecord(c: Client, attempts: seq<Attempt>)
    ensures RecordSet(Sweep(c, attempts)) <= RecordSet(c) + multiset(NewSerials(Sweeping(attempts)))
  {
    hide MakeCalls, RecordSet, Expired, NewSerials, Sweep, Items;
    var c0 := c.(timeouts := c.timeouts + Expired(c.Calls()));
    MakeCallsRecord(c0, attempts);
    SweepMoves(c, attempts);
    CancelBoth(RecordSet(Sweep(c, attempts)), RecordSet(c), multiset(NewSerials(Sweeping(attempts))), multiset(Expired(c.Calls())));
  }

  /** The sweep first records the marked calls as timed out and in the end removes the same calls. */
  lemma SweepMoves(c: Client, attempts: seq<Attempt>)
    ensures var c0 := c.(timeouts := c.timeouts + Expired(c.Calls()));
            var x := multiset(Expired(c.Calls()));
            && RecordSet(c0) == RecordSet(c) + x
            && RecordSet(Sweep(c, attempts)) + x == RecordSet(MakeCalls(c0, attempts))
            && Sweep(c, attempts).accepted == MakeCalls(c0, attempts).accepted
  {
    hide MakeCalls, Running, Expired, Serials, Items;
    var c0 := c.(timeouts := c.timeouts + Expired(c.Calls()));
    var c1 := MakeCalls(c0, attempts);
    MakeCallsFacts(c0, attempts);
    SweptCalls(c, attempts);
    SerialsOf(c1.Calls());
    assert multiset(c0.timeouts) == multiset(c.timeouts) + multiset(Expired(c.Calls()));
  }

  lemma CancelBoth(a: multiset<nat>, b: multiset<nat>, n: multiset<nat>, x: multiset<nat>)
    requires a + x <= b + x + n
    ensures a <= b + n
  {
    forall k
      ensures a[k] <= (b + n)[k]
    {
      assert (a + x)[k] <= (b + x + n)[k];
    }
  }

  ghost predicate Fresh(hs: seq<Happening>, next: nat)
    decreases |hs|
  {
    hs == [] || (
      var news := NewSerials(hs[0]);
      NoRepeats(news) && (forall s <- news :: s >= next)
      && exists bound: nat :: bound >= next && (forall s <- news :: s < bound) && Fresh(hs[1..], bound))
  }

  lemma NotIn(s: seq<nat>, x: nat)
    requires x !in s
    ensures multiset(s)[x] == 0
  {}

  lemma StepOnce(c: Client, h: Happening, next: nat, bound: nat)
    requires Once(c, next) && NoRepeats(NewSerials(h)) && bound >= next && forall s <- NewSerials(h) :: next <= s < bound
    ensures Once(Step(c, h), bound)
  {
    hide Step, Record, RecordSet, NewSerials;
    StepRecord(c, h);
    RecordIs(c);
    RecordIs(Step(c, h));
    var r, r', news := Record(c), Record(Step(c, h)), NewSerials(h);
    RepeatsAsMultiset(r);
    RepeatsAsMultiset(news);
    forall x: nat
      ensures multiset(r')[x] <= 1
    {
      if x in r {
        assert x < next;
        NotIn(news, x);
      } else {
        NotIn(r, x);
      }
    }
    RepeatsAsMultiset(r');
    forall s | s in r'
      ensures s < bound
    {
      assert s in multiset(r');
      assert s in multiset(r) + multiset(news);
      assert s in r || s in news;
    }
  }

  /** Over any run, no call gets two callbacks, nor a callback after its cancellation, and a pending call has had none. */
  lemma {:induction false} NoSecondCallback(c: Client, hs: seq<Happening>, next: nat)
    requires Once(c, next) && Fresh(hs, next)
    ensures NoRepeats(Record(Run(c, hs)))
    decreases |hs|
  {
    hide Step, Record;
    if hs != [] {
      var bound: nat :| bound >= next && (forall s <- NewSerials(hs[0]) :: s < bound) && Fresh(hs[1..], bound);
      StepOnce(c, hs[0], next, bound);
      NoSecondCallback(Step(c, hs[0]), hs[1..], bound);
    }
  }

  /** A response that is heard completes a call that is pending and not marked, and no other. */
  lemma ResponseCompletes(c: Client, id: CallId)
    ensures var k := Find(c.Calls(), id);
            if c.listening && k < |c.Calls()| then
              && Respond(c, id).successes == c.successes + [c.Calls()[k].serial]
              && Respond(c, id).Calls() == Without(c.Calls(), k) && c.Calls()[k].id == id && !c.Calls()[k].timedOut
            else Respond(c, id) == c && (c.listening ==> forall x <- c.Calls() :: x.id == id ==> x.timedOut)
  {
    hide Items, First;
    RemovedCalls(c, id);
    assert forall x <- c.Calls() :: exists i :: 0 <= i < |c.Calls()| && c.Calls()[i] == x;
  }

  /** The next sweep ends every marked call with a timeout callback, and only those. */
  lemma SweepEnds(c: Client, attempts: seq<Attempt>)
    ensures Sweep(c, attempts).timeouts == c.timeouts + Expired(c.Calls())
    ensures forall x <- Sweep(c, attempts).Calls() :: !x.timedOut
  {
    hide MakeCalls, Items;
    var c0 := c.(timeouts := c.timeouts + Expired(c.Calls()));
    MakeCallsFacts(c0, attempts);
    SweptCalls(c, attempts);
    RunningOnly(MakeCalls(c0, attempts).Calls());
  }

  lemma {:induction false} RunningOnly(calls: seq<Call>)
    ensures forall x <- Running(calls) :: !x.timedOut
  {
    if calls != [] {
      RunningOnly(calls[1..]);
    }
  }

  // ----- The calls that end are the calls that were accepted

  /** Every accepted call is pending or has ended once, and nothing else is. */
  ghost predicate Faithful(c: Client) { multiset(c.accepted) == RecordSet(c) }

  /** A request that cannot be sent, while a pending call of the same ID is met before the slot that the new one gets. */
  predicate Collides(c: Client, a: Attempt) {
    Adds(c, a) && !a.publishes && Find(c.Calls(), a.id) < Position(c.registry)
  }

  lemma CollidesBound(c: Client, a: Attempt)
    requires Collides(c, a)
    ensures !a.publishes && Find(c.Calls(), a.id) < |c.Calls()|
  {
    hide Items, Position, First;
    PlacedCalls(c, a);
  }

  lemma FindInserted(calls: seq<Call>, p: nat, x: Call, id: CallId)
    requires p <= |calls| && x.Matches(id)
    ensures var k := Find(calls, id);
            Find(InsertAt(calls, p, x), id) == if k < p then k else p
  {
    hide First;
    var all := InsertAt(calls, p, x);
    assert all[p] == x && forall i :: 0 <= i < p ==> all[i] == calls[i];
  }

  /** What a call does to the record: nothing, or it adds the new serial and with a failed request takes one back,
      the older one if the IDs collide. */
  lemma MakeCallExact(c: Client, a: Attempt)
    ensures && MakeCall(c, a).accepted == c.accepted + (if Adds(c, a) && a.publishes then [a.serial] else [])
            && (!Adds(c, a) ==> RecordSet(MakeCall(c, a)) == RecordSet(c))
            && (Adds(c, a) && a.publishes ==> RecordSet(MakeCall(c, a)) == RecordSet(c) + multiset{a.serial})
            && (Adds(c, a) && !a.publishes && !Collides(c, a) ==> RecordSet(MakeCall(c, a)) == RecordSet(c))
            && (Collides(c, a) ==>
                  && Find(c.Calls(), a.id) < |c.Calls()|
                  && RecordSet(MakeCall(c, a)) + multiset{c.Calls()[Find(c.Calls(), a.id)].serial} == RecordSet(c) + multiset{a.serial})
  {
    hide Serials, Find, RecordSet, Items, Place, Position, HasFree;
    assert c.accepted + [] == c.accepted;
    if Adds(c, a) {
      if a.publishes {
        CallStays(c, a);
      } else {
        TakenBack(c, a);
        if Collides(c, a) {
          CollidesBound(c, a);
        } else {
          SameRest(RecordSet(MakeCall(c, a)), RecordSet(c), multiset{a.serial});
        }
      }
    } else {
      CallsUnchanged(c, a);
    }
  }

  lemma CallsUnchanged(c: Client, a: Attempt)
    requires !Adds(c, a)
    ensures RecordSet(MakeCall(c, a)) == RecordSet(c)
  {
    hide Serials, Items, HasFree;
  }

  lemma CallStays(c: Client, a: Attempt)
    requires Adds(c, a) && a.publishes
    ensures RecordSet(MakeCall(c, a)) == RecordSet(c) + multiset{a.serial}
  {
    hide Serials, Items, HasFree, Place, Position;
    PlacedCalls(c, a);
    SerialsInserted(c.Calls(), Position(c.registry), CallOf(a));
  }

  lemma TakenBack(c: Client, a: Attempt)
    requires Adds(c, a) && !a.publishes
    ensures var k, p := Find(c.Calls(), a.id), Position(c.registry);
            && p <= |c.Calls()|
            && var gone := if k < p then c.Calls()[k].serial else a.serial;
               RecordSet(MakeCall(c, a)) + multiset{gone} == RecordSet(c) + multiset{a.serial}
  {
    hide Serials, Find, Without, Items, HasFree, Place, Position, InsertAt;
    var p, n := Position(c.registry), CallOf(a);
    PlacedCalls(c, a);
    var c1 := AddCallState(c, a).0;
    var all := InsertAt(c.Calls(), p, n);
    SerialsInserted(c.Calls(), p, n);
    FindInserted(c.Calls(), p, n, a.id);
    InsertedAt(c.Calls(), p, n);
    RemovedCalls(c1, a.id);
    var k := Find(all, a.id);
    SerialsWithout(all, k);
    var m := MakeCall(c, a);
    assert m.Calls() == Without(all, k) && m.successes == c.successes && m.timeouts == c.timeouts && m.cancelled == c.cancelled;
    var gone := if Find(c.Calls(), a.id) < p then c.Calls()[Find(c.Calls(), a.id)].serial else a.serial;
    assert all[k].serial == gone;
    var base := multiset(c.successes) + multiset(c.timeouts) + multiset(c.cancelled);
    var left, right := multiset(Serials(m.Calls())), multiset(Serials(c.Calls()));
    assert left + multiset{gone} == right + multiset{a.serial};
    assert base + left + multiset{gone} == base + (left + multiset{gone});
    assert base + right + multiset{a.serial} == base + (right + multiset{a.serial});
  }

  lemma InsertedAt(calls: seq<Call>, p: nat, x: Call)
    requires p <= |calls|
    ensures var all := InsertAt(calls, p, x);
            |all| == |calls| + 1 && all[p] == x && forall i :: 0 <= i < p ==> all[i] == calls[i]
  {}

  /** A call with a new serial keeps the record faithful exactly when it does not collide. */
  lemma CallFaithful(c: Client, a: Attempt)
    requires Faithful(c) && a.serial !in RecordSet(c)
    ensures Faithful(MakeCall(c, a)) <==> !Collides(c, a)
  {
    hide MakeCall, RecordSet, Find, Collides, Items, HasFree, Position;
    MakeCallExact(c, a);
    var before, after := RecordSet(c), RecordSet(MakeCall(c, a));
    if Collides(c, a) {
      CollidesBound(c, a);
      var gone := c.Calls()[Find(c.Calls(), a.id)].serial;
      PendingOnRecord(c, Find(c.Calls(), a.id));
      assert after + multiset{gone} == before + multiset{a.serial};
      assert (after + multiset{gone})[a.serial] == 1;
      assert after != before;
      assert c.accepted + [] == c.accepted;
    }
  }

  lemma PendingOnRecord(c: Client, k: nat)
    requires k < |c.Calls()|
    ensures c.Calls()[k].serial in RecordSet(c)
  {
    hide Serials, Items;
    SerialsWithout(c.Calls(), k);
  }

  /** No attempt of a happening collides at its turn. */
  ghost predicate NoCollision(c: Client, attempts: seq<Attempt>)
    decreases |attempts|
  {
    attempts == [] || (!Collides(c, attempts[0]) && NoCollision(MakeCall(c, attempts[0]), attempts[1..]))
  }

  ghost predicate Clean(c: Client, h: Happening) {
    match h
    case Calling(a) => !Collides(c, a)
    case Sweeping(attempts) => NoCollision(c.(timeouts := c.timeouts + Expired(c.Calls())), attempts)
    case _ => true
  }

  lemma CallsOnlyAdd(c: Client, a: Attempt)
    requires !Collides(c, a)
    ensures exists x: multiset<nat> :: RecordSet(MakeCall(c, a)) == RecordSet(c) + x && multiset(MakeCall(c, a).accepted) == multiset(c.accepted) + x
  {
    hide MakeCall, RecordSet, Collides, Items, HasFree;
    MakeCallExact(c, a);
    if Adds(c, a) && a.publishes {
      assert multiset(MakeCall(c, a).accepted) == multiset(c.accepted) + multiset{a.serial};
    } else {
      assert RecordSet(MakeCall(c, a)) == RecordSet(c) + multiset{};
      assert multiset(MakeCall(c, a).accepted) == multiset(c.accepted) + multiset{};
    }
  }

  /** Calls without collisions add the same serials to the accepted calls and to the record. */
  lemma {:induction false} ManyCallsOnlyAdd(c: Client, attempts: seq<Attempt>)
    requires NoCollision(c, attempts)
    ensures exists x: multiset<nat> :: RecordSet(MakeCalls(c, attempts)) == RecordSet(c) + x && multiset(MakeCalls(c, attempts).accepted) == multiset(c.accepted) + x
    decreases |attempts|
  {
    hide MakeCall, RecordSet, Collides;
    if attempts == [] {
      assert RecordSet(c) == RecordSet(c) + multiset{} && multiset(c.accepted) == multiset(c.accepted) + multiset{};
    } else {
      var c1 := MakeCall(c, attempts[0]);
      CallsOnlyAdd(c, attempts[0]);
      ManyCallsOnlyAdd(c1, attempts[1..]);
      var x: multiset<nat> :| RecordSet(c1) == RecordSet(c) + x && multiset(c1.accepted) == multiset(c.accepted) + x;
      var y: multiset<nat> :| RecordSet(MakeCalls(c1, attempts[1..])) == RecordSet(c1) + y && multiset(MakeCalls(c1, attempts[1..]).accepted) == multiset(c1.accepted) + y;
      assert RecordSet(c) + x + y == RecordSet(c) + (x + y) && multiset(c.accepted) + x + y == multiset(c.accepted) + (x + y);
    }
  }

  lemma SweepFaithful(c: Client, attempts: seq<Attempt>)
    requires Faithful(c) && Clean(c, Sweeping(attempts))
    ensures Faithful(Sweep(c, attempts))
  {
    hide MakeCalls, Running, Expired, Serials, NoCollision, Items;
    var c0 := c.(timeouts := c.timeouts + Expired(c.Calls()));
    var c1 := MakeCalls(c0, attempts);
    SweepMoves(c, attempts);
    ManyCallsOnlyAdd(c0, attempts);
    var x: multiset<nat> :| RecordSet(c1) == RecordSet(c0) + x && multiset(c1.accepted) == multiset(c0.accepted) + x;
    var e := multiset(Expired(c.Calls()));
    assert RecordSet(Sweep(c, attempts)) + e == RecordSet(c) + e + x;
    assert RecordSet(c) + e + x == RecordSet(c) + x + e;
    SameRest(RecordSet(Sweep(c, attempts)), RecordSet(c) + x, e);
  }

  lemma SameRest(a: multiset<nat>, b: multiset<nat>, x: multiset<nat>)
    requires a + x == b + x
    ensures a == b
  {
    forall k
      ensures a[k] == b[k]
    {
      assert (a + x)[k] == (b + x)[k];
    }
  }

  lemma StepFaithful(c: Client, h: Happening)
    requires Faithful(c) && Clean(c, h)
    ensures Faithful(Step(c, h))
  {
    hide MakeCall, Sweep, Respond, Cancel, Serials, Collides, NoCollision, Items;
    match h
    case Calling(a) =>
      CallsOnlyAdd(c, a);
    case Expiring(serial) =>
      MarkedCalls(c, serial);
      MarkedSerials(c.Calls(), serial);
    case Sweeping(attempts) => SweepFaithful(c, attempts);
    case Responding(id) =>
      EndingRecord(c, id);
      EndingAccepted(c, id);
    case Cancelling(id) =>
      EndingRecord(c, id);
      EndingAccepted(c, id);
    case CancellingAll => NoItems(c);
  }

  lemma EndingAccepted(c: Client, id: CallId)
    ensures Respond(c, id).accepted == c.accepted && Cancel(c, id).accepted == c.accepted
  {}

  ghost predicate CleanRun(c: Client, hs: seq<Happening>)
    decreases |hs|
  {
    hs == [] || (Clean(c, hs[0]) && CleanRun(Step(c, hs[0]), hs[1..]))
  }

  /** Conservation of calls and not just of their number, for any number of slots: over every run without a collision, the
      accepted calls are exactly the calls that ended, each once, and the calls still pending. */
  lemma {:induction false} CleanConservation(c: Client, hs: seq<Happening>)
    requires Faithful(c) && CleanRun(c, hs)
    ensures Faithful(Run(c, hs))
    decreases |hs|
  {
    hide Step, Clean, Faithful;
    if hs != [] {
      StepFaithful(c, hs[0]);
      CleanConservation(Step(c, hs[0]), hs[1..]);
    }
  }

  // ----- One slot per chunk

  lemma CallValid(c: Client, a: Attempt)
    requires c.Valid()
    ensures MakeCall(c, a).Valid() && MakeCall(c, a).slots == c.slots
  {
    hide Items, Place, Compact, WithoutFirst, Shaped, HasFree;
    PlaceShaped(c.registry, c.slots, CallOf(a));
    var c1 := AddCallState(c, a).0;
    RemovalValid(c1, a.id);
  }

  lemma RemovalValid(c: Client, id: CallId)
    requires c.Valid()
    ensures Removal(c, id).Valid() && Removal(c, id).slots == c.slots
  {
    hide Items, Compact;
    WithoutFirstSizes(c.registry, Matching(id), c.slots);
    CompactShaped(WithoutFirst(c.registry, Matching(id)), c.slots);
  }

  lemma {:induction false} CallsValid(c: Client, attempts: seq<Attempt>)
    requires c.Valid()
    ensures MakeCalls(c, attempts).Valid() && MakeCalls(c, attempts).slots == c.slots
    decreases |attempts|
  {
    hide MakeCall, Shaped;
    if attempts != [] {
      CallValid(c, attempts[0]);
      CallsValid(MakeCall(c, attempts[0]), attempts[1..]);
    }
  }

  lemma StepValid(c: Client, h: Happening)
    requires c.Valid()
    ensures Step(c, h).Valid() && Step(c, h).slots == c.slots
  {
    hide Items, MakeCall, MakeCalls, Removal, Compact;
    match h
    case Calling(a) => CallValid(c, a);
    case Expiring(serial) =>
      MappedShaped(c.registry, Marking(serial), c.slots);
    case Sweeping(attempts) =>
      var c0 := c.(timeouts := c.timeouts + Expired(c.Calls()));
      CallsValid(c0, attempts);
      CompactShaped(KeptChunks(MakeCalls(c0, attempts).registry, Except(TimedOut())), c.slots);
    case Responding(id) => RemovalValid(c, id);
    case Cancelling(id) => RemovalValid(c, id);
    case CancellingAll =>
  }

  lemma OneSlotNoCollision(c: Client, a: Attempt)
    requires c.Valid() && c.slots == 1
    ensures !Collides(c, a)
  {
    hide Items;
    OneSlot(c.registry);
  }

  lemma {:induction false} OneSlotCalls(c: Client, attempts: seq<Attempt>)
    requires c.Valid() && c.slots == 1
    ensures NoCollision(c, attempts)
    decreases |attempts|
  {
    hide MakeCall, Shaped, Collides;
    if attempts != [] {
      OneSlotNoCollision(c, attempts[0]);
      CallValid(c, attempts[0]);
      OneSlotCalls(MakeCall(c, attempts[0]), attempts[1..]);
    }
  }

  lemma {:induction false} OneSlotClean(c: Client, hs: seq<Happening>)
    requires c.Valid() && c.slots == 1
    ensures CleanRun(c, hs)
    decreases |hs|
  {
    hide Step, Shaped, Collides, NoCollision, Items;
    if hs != [] {
      match hs[0] {
        case Calling(a) => OneSlotNoCollision(c, a);
        case Sweeping(attempts) => OneSlotCalls(c.(timeouts := c.timeouts + Expired(c.Calls())), attempts);
        case _ =>
      }
      StepValid(c, hs[0]);
      OneSlotClean(Step(c, hs[0]), hs[1..]);
    }
  }

  /** With one call per pool block, as by default, every run conserves calls: the accepted calls are exactly the calls
      that ended, each once, and the calls still pending. */
  lemma Conservation(c: Client, hs: seq<Happening>)
    requires Faithful(c) && c.Valid() && c.slots == 1
    ensures Faithful(Run(c, hs))
  {
    hide Faithful, Shaped, Run, CleanRun;
    OneSlotClean(c, hs);
    CleanConservation(c, hs);
  }

  /** While call 1 is pending, call 2 has got the same ID, the transfer ID having wrapped around, and its request cannot be
      sent. */
  function Wrapped(): seq<Happening> {
    var id := CallId(5, 0);
    [Calling(Attempt(id, 1, true, true, true)), Calling(Attempt(id, 2, true, true, false))]
  }

  /** With more slots per block, call 2 comes behind call 1 and call 1 is taken back: it was accepted and will never end. */
  lemma CollisionSwaps(n: Slots)
    requires n > 1
    ensures var c := Run(NewClient(n), Wrapped());
            c.accepted == [1] && Serials(c.Calls()) == [2] && !Faithful(c)
  {
    hide First, Place, WithoutFirst, Compact, Items, HasFree, Position, MakeCall;
    var id := CallId(5, 0);
    var a1, a2 := Attempt(id, 1, true, true, true), Attempt(id, 2, true, true, false);
    var c0 := NewClient(n);
    var c1 := MakeCall(c0, a1);
    FirstCall(n, a1);
    var c2 := MakeCall(c1, a2);
    SecondCall(n, a1, a2);
    RunOfTwo(c0, Calling(a1), Calling(a2));
    assert c2.Calls() == [CallOf(a2)];
    assert Serials([CallOf(a2)]) == [2];
    assert multiset([1])[1] == 1 && multiset([2])[1] == 0;
    assert RecordSet(c2) == multiset([2]);
  }

  lemma RunOfTwo(c: Client, h: Happening, g: Happening)
    ensures Run(c, [h, g]) == Step(Step(c, h), g)
  {
    hide Step;
    assert [h, g][1..] == [g] && [g][1..] == [];
    assert Run(Step(Step(c, h), g), []) == Step(Step(c, h), g);
  }

  lemma FirstCall(n: Slots, a: Attempt)
    requires n > 1 && a.starts && a.memory && a.publishes
    ensures MakeCall(NewClient(n), a) == Client(n, [FreshChunk(n, CallOf(a))], true, [a.serial], [], [], [])
  {
    assert [FreshChunk(n, CallOf(a))] + [] == [FreshChunk(n, CallOf(a))];
  }

  lemma SecondCall(n: Slots, a: Attempt, b: Attempt)
    requires n > 1 && a.id == b.id && b.memory && !b.publishes
    ensures var c := Client(n, [FreshChunk(n, CallOf(a))], true, [a.serial], [], [], []);
            MakeCall(c, b).Calls() == [CallOf(b)] && MakeCall(c, b) == c.(registry := MakeCall(c, b).registry)
  {
    hide First, Place, WithoutFirst, Compact, Items, HasFree, Position, FreshChunk;
    var x, y := CallOf(a), CallOf(b);
    var c := Client(n, [FreshChunk(n, x)], true, [a.serial], [], [], []);
    FreshPlace(n, x);
    PlacedCalls(c, b);
    var c1 := AddCallState(c, b).0;
    assert InsertAt([x], 1, y) == [x, y];
    RemovedCalls(c1, b.id);
    assert Find([x, y], b.id) == 0;
    assert Without([x, y], 0) == [y];
  }

  lemma FreshPlace(n: Slots, x: Call)
    requires n > 1
    ensures var cs := [FreshChunk(n, x)]; Items(cs) == [x] && HasFree(cs) && Position(cs) == 1
  {
    var cs := [FreshChunk(n, x)];
    FreshItems(n, x);
    ItemsOne(cs[0]);
    assert cs[0][0].Some? && cs[0][1].None?;
    assert !Full(cs[0]);
    assert FreeSlot(cs[0]) == 1;
    assert cs[..0] == [];
  }

  /** Calls are conserved by every run exactly when there is one slot per chunk. */
  lemma SlotsExact(n: Slots)
    ensures (forall hs :: Faithful(Run(NewClient(n), hs))) <==> n == 1
  {
    hide Run;
    if n == 1 {
      forall hs
        ensures Faithful(Run(NewClient(n), hs))
      {
        Conservation(NewClient(n), hs);
      }
    } else {
      CollisionSwaps(n);
    }
  }

  // ----- Listening

  /** Pending calls can be answered only while the client listens. */
  ghost predicate Listening(c: Client) { c.Calls() != [] ==> c.listening }

  ghost predicate Deaf(c: Client) { c.Calls() != [] && !c.listening }

  /** A call leaves the client deaf exactly when it needs a block that is refused, while others are pending. */
  lemma CallListening(c: Client, a: Attempt)
    requires Listening(c)
    ensures Deaf(MakeCall(c, a)) <==> c.Calls() != [] && !HasFree(c.registry) && !a.memory
  {
    hide Items, HasFree, Place, Position, First;
    if Adds(c, a) {
      PlacedCalls(c, a);
      RemovedCalls(AddCallState(c, a).0, a.id);
    }
  }

  lemma {:induction false} CallsListening(c: Client, attempts: seq<Attempt>)
    requires Listening(c) && forall a <- attempts :: a.memory
    ensures Listening(MakeCalls(c, attempts))
    decreases |attempts|
  {
    hide MakeCall, Items, HasFree;
    if attempts != [] {
      CallListening(c, attempts[0]);
      CallsListening(MakeCall(c, attempts[0]), attempts[1..]);
    }
  }

  /** Nothing else does: every happening whose calls all get memory keeps the subscriber running for what is pending. */
  lemma KeepsListening(c: Client, h: Happening)
    requires Listening(c)
    requires h.Calling? ==> c.Calls() == [] || h.attempt.memory
    requires h.Sweeping? ==> forall a <- h.attempts :: a.memory
    ensures Listening(Step(c, h))
  {
    hide MakeCall, MakeCalls, Running, Expired, First, Items, HasFree;
    match h
    case Calling(a) => CallListening(c, a);
    case Expiring(serial) => MarkedCalls(c, serial);
    case Sweeping(attempts) =>
      CallsListening(c.(timeouts := c.timeouts + Expired(c.Calls())), attempts);
      SweptCalls(c, attempts);
    case Responding(id) => RemovedCalls(c, id);
    case Cancelling(id) => RemovedCalls(c, id);
    case CancellingAll => NoItems(c);
  }

  lemma DeafCall(c: Client, a: Attempt)
    requires Deaf(c)
    ensures Deaf(MakeCall(c, a)) && MakeCall(c, a).successes == c.successes
  {
    hide Items, HasFree, Place, Position, First;
    if Adds(c, a) {
      PlacedCalls(c, a);
      var c1, p := AddCallState(c, a).0, Position(c.registry);
      InsertedAt(c.Calls(), p, CallOf(a));
      RemovedCalls(c1, a.id);
    }
  }

  lemma {:induction false} DeafCalls(c: Client, attempts: seq<Attempt>)
    requires Deaf(c)
    ensures Deaf(MakeCalls(c, attempts)) && MakeCalls(c, attempts).successes == c.successes
    decreases |attempts|
  {
    hide MakeCall;
    if attempts != [] {
      DeafCall(c, attempts[0]);
      DeafCalls(MakeCall(c, attempts[0]), attempts[1..]);
    }
  }

  /** No happening cures deafness, not even another call, unless it ends the last pending call. */
  lemma DeafStep(c: Client, h: Happening)
    requires Deaf(c) && Step(c, h).Calls() != []
    ensures Deaf(Step(c, h)) && Step(c, h).successes == c.successes
  {
    hide MakeCall, MakeCalls, Running, Expired, First, Items;
    match h
    case Calling(a) => DeafCall(c, a);
    case Expiring(serial) => MarkedCalls(c, serial);
    case Sweeping(attempts) => DeafCalls(c.(timeouts := c.timeouts + Expired(c.Calls())), attempts);
    case CancellingAll => NoItems(c);
    case _ =>
  }

  /** Calls are pending all through the run. */
  ghost predicate AlwaysPending(c: Client, hs: seq<Happening>)
    decreases |hs|
  {
    hs == [] || (Step(c, hs[0]).Calls() != [] && AlwaysPending(Step(c, hs[0]), hs[1..]))
  }

  /** Once deaf, no call succeeds, whatever is answered and whatever new calls are made, until no call is pending. */
  lemma {:induction false} DeafRun(c: Client, hs: seq<Happening>)
    requires Deaf(c) && AlwaysPending(c, hs)
    ensures Run(c, hs).successes == c.successes && Deaf(Run(c, hs))
    decreases |hs|
  {
    hide Step;
    if hs != [] {
      DeafStep(c, hs[0]);
      DeafRun(Step(c, hs[0]), hs[1..]);
    }
  }

  /** The failing input, for any number of slots with the block full: the response to a pending call goes unheard after
      another call ran out of memory. */
  lemma RefusalDeafens()
    ensures var c := MakeCall(NewClient(1), Attempt(CallId(5, 0), 1, true, true, true));
            var deaf := MakeCall(c, Attempt(CallId(6, 0), 2, true, false, true));
            && Respond(c, CallId(5, 0)).successes == [1]
            && Deaf(deaf) && Respond(deaf, CallId(5, 0)) == deaf
  {
    hide First;
    var one := Call(CallId(5, 0), 1, false);
    var c := MakeCall(NewClient(1), Attempt(CallId(5, 0), 1, true, true, true));
    assert [FreshChunk(1, one)] + [] == [FreshChunk(1, one)];
    FreshItems(1, one);
    ItemsOne(FreshChunk(1, one));
    assert c.Calls() == [one];
    assert Shaped(c.registry, 1);
    OneSlot(c.registry);
    assert Find([one], CallId(5, 0)) == 0;
  }

  // ----- The loops of the code

  /** The loop over all calls that runs the timeout callbacks. */
  method CollectExpired(calls: seq<Call>) returns (called: seq<nat>)
    ensures called == Expired(calls)
  {
    hide Running, Expired;
    called := [];
    var p := 0;
    NoCalls();
    assert calls[..0] == [];
    while p < |calls|
      invariant 0 <= p <= |calls| && called == Expired(calls[..p])
    {
      RunningAppend(calls[..p], [calls[p]]);
      JustOne(calls[p]);
      assert calls[..p + 1] == calls[..p] + [calls[p]];
      if calls[p].timedOut {
        called := called + [calls[p].serial];
      }
      p := p + 1;
    }
    assert calls[..p] == calls;
  }

  class Registry {
    const registry: Multiset<Call>
    var listening: bool
    var accepted: seq<nat>
    var successes: seq<nat>
    var timeouts: seq<nat>
    var cancelled: seq<nat>

    ghost predicate Valid()
      reads this, registry
    {
      registry.Valid()
    }

    function View(): Client
      reads this, registry
    {
      Client(registry.slots, registry.chunks, listening, accepted, successes, timeouts, cancelled)
    }

    constructor (n: Slots)
      ensures fresh(registry) && Valid() && View() == NewClient(n) && Faithful(View()) && Once(View(), 0)
    {
      registry := new Multiset<Call>(n);
      listening := false;
      accepted, successes, timeouts, cancelled := [], [], [], [];
    }

    /** Whether a response frame belongs to a pending call. */
    method ShouldAcceptFrame(id: CallId) returns (yes: bool)
      requires Valid()
      ensures yes <==> exists c <- View().Calls() :: c.Matches(id)
    {
      hide Items;
      var calls := registry.Contents();
      var p := 0;
      while p < |calls|
        invariant 0 <= p <= |calls| && forall i :: 0 <= i < p ==> !calls[i].Matches(id)
      {
        if calls[p].Matches(id) {
          return true;
        }
        p := p + 1;
      }
      return false;
    }

    method CancelCall(id: CallId)
      requires Valid()
      modifies this`listening, registry
      ensures Valid() && View() == Removal(old(View()), id)
    {
      hide Items, Compact, WithoutFirst;
      registry.RemoveFirstWhere(Matching(id));
      if registry.Contents() == [] {
        listening := false;
      }
    }

    method StartCall(a: Attempt) returns (ok: bool)
      requires Valid()
      modifies this`listening, registry
      ensures Valid() && (View(), ok) == AddCallState(old(View()), a)
    {
      hide Items, Place, HasFree;
      if registry.Contents() == [] {
        if !a.starts {
          return false;
        }
        listening := true;
      }
      ok := registry.Emplace(CallOf(a), a.memory);
      if !ok {
        listening := false;
      }
    }

    method PlaceCall(a: Attempt)
      requires Valid()
      modifies this, registry
      ensures Valid() && View() == MakeCall(old(View()), a)
    {
      hide Removal, AddCallState;
      var ok := StartCall(a);
      if !ok {
        return;
      }
      if !a.publishes {
        CancelCall(a.id);
        return;
      }
      accepted := accepted + [a.serial];
    }

    /** A decoded response that passed the frame filter: the call ends, then the callback runs. */
    method HandleReceivedDataStruct(id: CallId)
      requires Valid() && listening && exists c <- View().Calls() :: c.Matches(id)
      modifies this, registry
      ensures Valid() && View() == Respond(old(View()), id)
    {
      hide Removal, Items, First;
      var calls := registry.Contents();
      var serial := calls[Find(calls, id)].serial;
      CancelCall(id);
      successes := successes + [serial];
    }

    /** The shared deadline: callbacks first, which may place calls, then removal of what had timed out. */
    method HandleDeadline(attempts: seq<Attempt>)
      requires Valid()
      modifies this, registry
      ensures Valid() && View() == Sweep(old(View()), attempts)
    {
      hide Expired, MakeCall, Items, Compact, KeptChunks;
      var called := CollectExpired(registry.Contents());
      timeouts := timeouts + called;
      ghost var c := View();
      var i := 0;
      assert attempts[0..] == attempts;
      while i < |attempts|
        invariant 0 <= i <= |attempts| && Valid() && MakeCalls(View(), attempts[i..]) == MakeCalls(c, attempts)
      {
        assert attempts[i..][0] == attempts[i] && attempts[i..][1..] == attempts[i + 1..];
        PlaceCall(attempts[i]);
        i := i + 1;
      }
      registry.RemoveAllWhere(TimedOut());
      if registry.Contents() == [] {
        listening := false;
      }
    }
  }
}
