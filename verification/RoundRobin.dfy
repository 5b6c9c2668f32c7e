/**
  Round-robin polling of nodes: the two pickers, one over an array of all node IDs and one over an
  unordered map, both choose the next eligible node in cyclic order, so a node that stays eligible is
  chosen within 127 turns.  The retriever's timer runs whenever a request is still needed.
 */
module RoundRobin {
  import opened Frames

  /** How many steps lead from `last` to `x`, counting around the IDs 1 to 127. */
  function Distance(last: nat, x: nat): (d: nat)
    requires last <= MAX_NODE_ID && 1 <= x <= MAX_NODE_ID
    ensures 1 <= d <= MAX_NODE_ID
  {
    if x > last then x - last else x + MAX_NODE_ID - last
  }

  ghost predicate NodeIds(s: set<nat>) { forall z <- s :: 1 <= z <= MAX_NODE_ID }

  /** `y` is the eligible node next in turn. */
  ghost predicate IsNext(last: nat, eligible: set<nat>, y: nat)
    requires last <= MAX_NODE_ID && NodeIds(eligible)
  {
    y in eligible && forall z <- eligible :: Distance(last, y) <= Distance(last, z)
  }

  /** The nodes chosen in a series of turns, whatever else is eligible at each. */
  ghost predicate Turns(last: nat, eligible: seq<set<nat>>, picks: seq<nat>) {
    && last <= MAX_NODE_ID && |picks| == |eligible|
    && (forall i :: 0 <= i < |picks| ==> NodeIds(eligible[i]) && 1 <= picks[i] <= MAX_NODE_ID)
    && (|picks| > 0 ==> IsNext(last, eligible[0], picks[0]))
    && (forall i :: 0 < i < |picks| ==> IsNext(picks[i - 1], eligible[i], picks[i]))
  }

  /** A node that is eligible at every turn is chosen after at most its distance, which is at most 127. */
  lemma {:induction false} Fair(last: nat, eligible: seq<set<nat>>, picks: seq<nat>, x: nat) returns (k: nat)
    requires Turns(last, eligible, picks) && 1 <= x <= MAX_NODE_ID && (forall i :: 0 <= i < |eligible| ==> x in eligible[i])
    requires |picks| >= Distance(last, x)
    ensures k < Distance(last, x) && picks[k] == x
    decreases Distance(last, x)
  {
    k := 0;
    var y := picks[0];
    assert IsNext(last, eligible[0], y);
    if y != x {
      assert Distance(y, x) == Distance(last, x) - Distance(last, y);
      assert forall i :: 0 <= i < |picks| - 1 ==> picks[1..][i] == picks[i + 1] && eligible[1..][i] == eligible[i + 1];
      var j := Fair(y, eligible[1..], picks[1..], x);
      k := j + 1;
    }
  }

  // ----- The retriever

  datatype Entry = Entry(uptime: nat, attempts: nat, requestNeeded: bool, updated: bool)

  const NO_ENTRY := Entry(0, 0, false, false)

  /** An entry after a response or a timeout; zero attempts means any number of them. */
  function Responded(e: Entry, success: bool, uptime: nat, limit: nat): Entry {
    if success then e.(uptime := uptime, requestNeeded := false)
    else if limit == 0 then e
    else
      var made := (e.attempts + 1) % 256;
      e.(attempts := made, requestNeeded := e.requestNeeded && made < limit)
  }

  function TimedOut(e: Entry, n: nat, limit: nat): Entry {
    if n == 0 then e else Responded(TimedOut(e, n - 1, limit), false, 0, limit)
  }

  /** A node that never answers is asked exactly as often as the limit says, and for ever without a limit. */
  lemma {:induction false} GivesUp(e: Entry, n: nat, limit: nat)
    requires e.requestNeeded && e.attempts == 0 && limit <= 254
    ensures limit == 0 ==> TimedOut(e, n, limit) == e
    ensures 0 < n <= limit ==> TimedOut(e, n, limit) == e.(attempts := n, requestNeeded := n < limit)
  {
    if n > 0 {
      GivesUp(e, n - 1, limit);
    }
  }

  /** The ID that `k` steps lead to. */
  function Around(last: nat, k: nat): nat { if last + k > MAX_NODE_ID then last + k - MAX_NODE_ID else last + k }

  class NodeInfoRetriever {
    const entries: array<Entry>
    var lastPicked: nat
    var timerRunning: bool
    var numAttempts: nat

    /** A request that is still needed keeps the timer running. */
    ghost predicate Valid()
      reads this, entries
    {
      && entries.Length == MAX_NODE_ID && 1 <= lastPicked <= MAX_NODE_ID
      && ((exists i :: 0 <= i < MAX_NODE_ID && entries[i].requestNeeded) ==> timerRunning)
    }

    ghost predicate Eligible(z: nat, pending: set<nat>)
      reads this, entries
      requires entries.Length == MAX_NODE_ID
    {
      1 <= z <= MAX_NODE_ID && entries[z - 1].requestNeeded && entries[z - 1].updated && z !in pending
    }

    ghost function AllEligible(pending: set<nat>): (s: set<nat>)
      reads this, entries
      requires entries.Length == MAX_NODE_ID
      ensures NodeIds(s)
    {
      set z | 1 <= z <= MAX_NODE_ID && Eligible(z, pending)
    }

    constructor (attempts: nat)
      ensures Valid() && fresh(entries) && forall i :: 0 <= i < MAX_NODE_ID ==> entries[i] == NO_ENTRY
    {
      entries := new Entry[MAX_NODE_ID](_ => NO_ENTRY);
      lastPicked, timerRunning, numAttempts := 1, false, attempts;
    }

    method PickNextNodeToQuery(pending: set<nat>) returns (node: nat, needed: bool)
      requires Valid()
      modifies this`lastPicked
      ensures Valid()
      ensures node != 0 ==> needed && lastPicked == node && IsNext(old(lastPicked), AllEligible(pending), node)
      ensures node == 0 ==> AllEligible(pending) == {} && lastPicked == old(lastPicked)
      ensures node == 0 ==> (needed <==> exists i :: 0 <= i < MAX_NODE_ID && entries[i].requestNeeded)
    {
      ghost var last := lastPicked;
      needed := false;
      var iter := 0;
      while iter < MAX_NODE_ID
        invariant 0 <= iter <= MAX_NODE_ID && Valid() && lastPicked == Around(last, iter)
        invariant forall k :: 1 <= k <= iter ==> !Eligible(Around(last, k), pending)
        invariant needed <==> exists k :: 1 <= k <= iter && entries[Around(last, k) - 1].requestNeeded
      {
        lastPicked := lastPicked + 1;
        if lastPicked > MAX_NODE_ID {
          lastPicked := 1;
        }
        assert lastPicked == Around(last, iter + 1);
        var entry := entries[lastPicked - 1];
        if entry.requestNeeded {
          needed := true;
          if entry.updated && lastPicked !in pending {
            ghost var all := AllEligible(pending);
            forall z | z in all
              ensures Distance(last, lastPicked) <= Distance(last, z)
            {
              assert z == Around(last, Distance(last, z));
            }
            return lastPicked, true;
          }
        }
        iter := iter + 1;
      }
      forall z | 1 <= z <= MAX_NODE_ID
        ensures !Eligible(z, pending)
      {
        assert z == Around(last, Distance(last, z));
      }
      forall i | 0 <= i < MAX_NODE_ID && entries[i].requestNeeded
        ensures needed
      {
        assert i + 1 == Around(last, Distance(last, i + 1));
      }
      return 0, needed;
    }

    /** A turn of the timer: query the next node in turn, or stop when nothing is needed any more. */
    method HandleTimerEvent(pending: set<nat>) returns (queried: nat)
      requires Valid()
      modifies this, entries
      ensures Valid()
      ensures queried != 0 ==> IsNext(old(lastPicked), old(AllEligible(pending)), queried) && lastPicked == queried && timerRunning == old(timerRunning)
      ensures queried == 0 <==> old(AllEligible(pending)) == {}
      ensures queried == 0 ==> (timerRunning <==> old(timerRunning) && exists i :: 0 <= i < MAX_NODE_ID && entries[i].requestNeeded)
    {
      var needed;
      queried, needed := PickNextNodeToQuery(pending);
      if queried != 0 {
        entries[queried - 1] := entries[queried - 1].(updated := false);
        assert forall i :: 0 <= i < MAX_NODE_ID ==> entries[i].requestNeeded == old(entries[i].requestNeeded);
      } else if !needed {
        timerRunning := false;
      }
    }

    method HandleNodeStatusChange(node: nat, wasOffline: bool, offlineNow: bool)
      requires Valid() && 1 <= node <= MAX_NODE_ID
      modifies this`timerRunning, entries
      ensures Valid()
      ensures (wasOffline || offlineNow) ==> entries[node - 1] == old(entries[node - 1]).(requestNeeded := !offlineNow, attempts := 0)
      ensures forall i :: 0 <= i < MAX_NODE_ID && (i != node - 1 || !(wasOffline || offlineNow)) ==> entries[i] == old(entries[i])
      ensures old(timerRunning) ==> timerRunning
    {
      if wasOffline || offlineNow {
        entries[node - 1] := entries[node - 1].(requestNeeded := !offlineNow, attempts := 0);
        assert forall i :: 0 <= i < MAX_NODE_ID && i != node - 1 ==> entries[i] == old(entries[i]);
        if !offlineNow {
          timerRunning := true;
        }
      }
    }

    /** A decreasing uptime means a restart, which asks for a new request. */
    method HandleNodeStatusMessage(node: nat, uptime: nat)
      requires Valid() && 1 <= node <= MAX_NODE_ID
      modifies this`timerRunning, entries
      ensures Valid()
      ensures entries[node - 1].updated && entries[node - 1].uptime == uptime
      ensures entries[node - 1].requestNeeded <==> old(entries[node - 1].requestNeeded) || uptime < old(entries[node - 1].uptime)
      ensures forall i :: 0 <= i < MAX_NODE_ID && i != node - 1 ==> entries[i] == old(entries[i])
    {
      var e := entries[node - 1];
      if uptime < e.uptime {
        e := e.(requestNeeded := true, attempts := 0);
        timerRunning := true;
      }
      entries[node - 1] := e.(uptime := uptime, updated := true);
      assert forall i :: 0 <= i < MAX_NODE_ID && i != node - 1 ==> entries[i] == old(entries[i]);
    }

    /** Success, or too many failures, ends the requests. */
    method HandleGetNodeInfoResponse(node: nat, success: bool, uptime: nat)
      requires Valid() && 1 <= node <= MAX_NODE_ID
      modifies entries
      ensures Valid()
      ensures entries[node - 1] == Responded(old(entries[node - 1]), success, uptime, numAttempts)
      ensures forall i :: 0 <= i < MAX_NODE_ID && i != node - 1 ==> entries[i] == old(entries[i])
    {
      var e := entries[node - 1];
      if success {
        e := e.(uptime := uptime, requestNeeded := false);
      } else if numAttempts != 0 {
        e := e.(attempts := (e.attempts + 1) % 256);
        if e.attempts >= numAttempts {
          e := e.(requestNeeded := false);
        }
      }
      entries[node - 1] := e;
      assert forall i :: 0 <= i < MAX_NODE_ID && i != node - 1 ==> entries[i] == old(entries[i]);
    }

    method InvalidateAll()
      requires Valid()
      modifies entries
      ensures Valid() && forall i :: 0 <= i < MAX_NODE_ID ==> entries[i] == NO_ENTRY
    {
      var i := 0;
      while i < MAX_NODE_ID
        invariant 0 <= i <= MAX_NODE_ID
        invariant forall k :: 0 <= k < i ==> entries[k] == NO_ENTRY
        invariant forall k :: i <= k < MAX_NODE_ID ==> entries[k] == old(entries[k])
      {
        entries[i] := NO_ENTRY;
        i := i + 1;
      }
    }
  }

  // ----- The firmware update trigger

  const DEFAULT_OUTPUT := 255

  class FirmwareUpdateTrigger {
    /** The keys of the map of pending nodes, in no particular order. */
    var pendingNodes: seq<nat>
    var lastQueried: nat

    ghost predicate Valid()
      reads this
    {
      lastQueried <= MAX_NODE_ID && forall z <- pendingNodes :: 1 <= z <= MAX_NODE_ID
    }

    ghost function AllEligible(calls: set<nat>): (s: set<nat>)
      reads this
      requires Valid()
      ensures NodeIds(s)
    {
      set z | z in pendingNodes && z !in calls
    }

    constructor ()
      ensures Valid() && pendingNodes == [] && lastQueried == 0
    {
      pendingNodes, lastQueried := [], 0;
    }

    /** The smallest eligible ID above `last`. */
    method Search(last: nat, calls: set<nat>) returns (output: nat)
      requires Valid()
      ensures output == DEFAULT_OUTPUT || (output in AllEligible(calls) && output > last)
      ensures forall z <- AllEligible(calls) :: z > last ==> output <= z
    {
      output := DEFAULT_OUTPUT;
      var i := 0;
      while i < |pendingNodes|
        invariant 0 <= i <= |pendingNodes|
        invariant output == DEFAULT_OUTPUT || (output in AllEligible(calls) && output > last)
        invariant forall k :: 0 <= k < i && pendingNodes[k] > last && pendingNodes[k] !in calls ==> output <= pendingNodes[k]
      {
        var z := pendingNodes[i];
        assert z in pendingNodes;
        if z > last && z !in calls {
          output := if output < z then output else z;
        }
        i := i + 1;
      }
    }

    method PickNextNodeId(calls: set<nat>) returns (node: nat)
      requires Valid()
      modifies this`lastQueried
      ensures Valid() && node == lastQueried
      ensures AllEligible(calls) != {} ==> IsNext(old(lastQueried), AllEligible(calls), node)
      ensures AllEligible(calls) == {} ==> node == 0
    {
      ghost var all, last := AllEligible(calls), lastQueried;
      var s1 := Search(lastQueried, calls);
      assert AllEligible(calls) == all;
      assert forall z <- all :: z in AllEligible(calls) && (z > last ==> s1 <= z);
      if s1 != DEFAULT_OUTPUT {
        FoundAbove(last, all, s1);
        lastQueried := s1;
      } else if lastQueried != 0 {
        lastQueried := 0;
        var s2 := Search(0, calls);
        assert AllEligible(calls) == all;
        assert forall z <- all :: z in AllEligible(calls) && (z > 0 ==> s2 <= z);
        FoundAround(last, all, s2);
        if s2 != DEFAULT_OUTPUT {
          lastQueried := s2;
        }
      } else {
        FoundAround(0, all, DEFAULT_OUTPUT);
      }
      assert AllEligible(calls) == all;
      return lastQueried;
    }
  }

  lemma FoundAbove(last: nat, all: set<nat>, y: nat)
    requires last <= MAX_NODE_ID && NodeIds(all) && y in all && y > last && forall z <- all :: z > last ==> y <= z
    ensures IsNext(last, all, y)
  {
    forall z | z in all
      ensures Distance(last, y) <= Distance(last, z)
    {
      assert 1 <= z <= MAX_NODE_ID;
    }
  }

  /** The second search starts from zero, nothing being left above `last`. */
  lemma FoundAround(last: nat, all: set<nat>, y: nat)
    requires last <= MAX_NODE_ID && NodeIds(all) && (y == DEFAULT_OUTPUT || y in all)
    requires forall z <- all :: (z > last ==> DEFAULT_OUTPUT <= z) && (z > 0 ==> y <= z)
    ensures if y == DEFAULT_OUTPUT then all == {} else IsNext(last, all, y)
  {
    assert forall z <- all :: 1 <= z <= MAX_NODE_ID;
  }
}
