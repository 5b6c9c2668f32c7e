/**
  The listener registries of the dispatcher and the routing of a received CAN frame to listeners.
 */
module Routing {
  import opened Frames

  /** A registered listener: its data type ID, and a number that names the object. */
  datatype Listener = Listener(dataTypeId: nat, name: nat)

  /** From the root on, data type IDs never rise (the comment at the insertion says the opposite). */
  ghost predicate Descending(ls: seq<Listener>) {
    forall i, j :: 0 <= i < j < |ls| ==> ls[i].dataTypeId >= ls[j].dataTypeId
  }

  /** Every listener of the type, in list order. */
  function Matching(ls: seq<Listener>, id: nat): seq<Listener> {
    if ls == [] then [] else (if ls[0].dataTypeId == id then [ls[0]] else []) + Matching(ls[1..], id)
  }

  function IfMatching(l: Listener, id: nat): seq<Listener> { if l.dataTypeId == id then [l] else [] }

  lemma MatchingStep(l: Listener, rest: seq<Listener>, id: nat)
    ensures Matching([l] + rest, id) == IfMatching(l, id) + Matching(rest, id)
  {
    assert ([l] + rest)[1..] == rest;
  }

  lemma MatchingNone(id: nat)
    ensures Matching([], id) == []
  {}

  lemma {:induction false} MatchingConcat(a: seq<Listener>, b: seq<Listener>, id: nat)
    ensures Matching(a + b, id) == Matching(a, id) + Matching(b, id)
  {
    hide *;
    if a == [] {
      MatchingNone(id);
      assert [] + b == b && [] + Matching(b, id) == Matching(b, id);
    } else {
      var l, rest := a[0], a[1..];
      MatchingConcat(rest, b, id);
      MatchingStep(l, rest, id);
      MatchingStep(l, rest + b, id);
      assert a == [l] + rest && a + b == [l] + (rest + b);
    }
  }

  lemma MatchingSnoc(ls: seq<Listener>, l: Listener, id: nat)
    ensures Matching(ls + [l], id) == Matching(ls, id) + if l.dataTypeId == id then [l] else []
  {
    hide Matching;
    MatchingConcat(ls, [l], id);
    MatchingStep(l, [], id);
    MatchingNone(id);
    assert [l] + [] == [l];
  }

  lemma {:induction false} NoneMatching(ls: seq<Listener>, id: nat)
    ensures Matching(ls, id) == [] <==> forall l <- ls :: l.dataTypeId != id
  {
    hide Matching;
    MatchingNone(id);
    if ls != [] {
      var l, rest := ls[0], ls[1..];
      NoneMatching(rest, id);
      assert ls == [l] + rest;
      MatchingStep(l, rest, id);
    }
  }

  class ListenerRegistry {
    var list: seq<Listener>

    ghost predicate Valid()
      reads this
    {
      Descending(list)
    }

    constructor ()
      ensures Valid() && list == []
    {
      list := [];
    }

    /** Insert behind all listeners of the same or a greater ID; with `unique`, refuse a second listener of a type. */
    method Add(l: Listener, unique: bool) returns (ok: bool)
      requires Valid()
      modifies this
      ensures Valid()
      ensures ok <==> !unique || forall x <- old(list) :: x.dataTypeId != l.dataTypeId
      ensures !ok ==> list == old(list)
      ensures ok ==> multiset(list) == multiset(old(list)) + multiset{l}
      ensures ok ==> forall id :: Matching(list, id) == Matching(old(list), id) + if id == l.dataTypeId then [l] else []
    {
      hide Matching, Descending;
      if unique {
        var taken := Exists(l.dataTypeId);
        if taken {
          return false;
        }
      }
      var k := 0;
      while k < |list| && !(l.dataTypeId > list[k].dataTypeId)
        invariant 0 <= k <= |list| && list == old(list) && forall i :: 0 <= i < k ==> list[i].dataTypeId >= l.dataTypeId
      {
        k := k + 1;
      }
      InsertedMatching(list, l, k);
      list := list[..k] + [l] + list[k..];
      return true;
    }

    method Exists(dataTypeId: nat) returns (yes: bool)
      ensures yes <==> exists x <- list :: x.dataTypeId == dataTypeId
    {
      var p := 0;
      while p < |list|
        invariant 0 <= p <= |list| && forall k :: 0 <= k < p ==> list[k].dataTypeId != dataTypeId
      {
        if list[p].dataTypeId == dataTypeId {
          return true;
        }
        p := p + 1;
      }
      return false;
    }

    /** Hand the frame to the listeners of its type; stop at the first smaller ID. */
    method HandleFrame(dataTypeId: nat) returns (called: seq<Listener>)
      requires Valid()
      ensures called == Matching(list, dataTypeId)
    {
      hide Matching;
      called := [];
      var p := 0;
      MatchingNone(dataTypeId);
      assert list[..0] == [];
      while p < |list|
        invariant 0 <= p <= |list| && called == Matching(list[..p], dataTypeId)
      {
        MatchingSnoc(list[..p], list[p], dataTypeId);
        assert list[..p + 1] == list[..p] + [list[p]];
        if list[p].dataTypeId == dataTypeId {
          called := called + [list[p]];
        } else if list[p].dataTypeId < dataTypeId {
          NoneBehind(list, p, dataTypeId);
          return;
        }
        p := p + 1;
      }
      assert list[..|list|] == list;
    }
  }

  /** From the first smaller ID on there is nothing to find. */
  lemma NoneBehind(ls: seq<Listener>, p: nat, id: nat)
    requires Descending(ls) && p <= |ls| && (p < |ls| ==> ls[p].dataTypeId < id)
    ensures Matching(ls[p..], id) == [] && Matching(ls, id) == Matching(ls[..p], id)
  {
    hide Matching;
    forall x | x in ls[p..]
      ensures x.dataTypeId != id
    {
      var i :| p <= i < |ls| && ls[i] == x;
      assert p < i ==> ls[p].dataTypeId >= ls[i].dataTypeId;
    }
    NoneMatching(ls[p..], id);
    MatchingConcat(ls[..p], ls[p..], id);
    assert ls == ls[..p] + ls[p..];
    assert Matching(ls[..p], id) + [] == Matching(ls[..p], id);
  }

  lemma InsertedOrder(ls: seq<Listener>, l: Listener, k: nat)
    requires k <= |ls| && Descending(ls)
    requires forall i :: 0 <= i < k ==> ls[i].dataTypeId >= l.dataTypeId
    requires k < |ls| ==> l.dataTypeId > ls[k].dataTypeId
    ensures Descending(ls[..k] + [l] + ls[k..])
  {
    var r := ls[..k] + [l] + ls[k..];
    assert forall i :: k <= i < |ls| ==> ls[i].dataTypeId <= l.dataTypeId;
    assert forall i :: 0 <= i < |r| ==> r[i] == if i < k then ls[i] else if i == k then l else ls[i - 1];
  }

  lemma InsertedMatching(ls: seq<Listener>, l: Listener, k: nat)
    requires k <= |ls| && Descending(ls)
    requires forall i :: 0 <= i < k ==> ls[i].dataTypeId >= l.dataTypeId
    requires k < |ls| ==> l.dataTypeId > ls[k].dataTypeId
    ensures Descending(ls[..k] + [l] + ls[k..]) && multiset(ls[..k] + [l] + ls[k..]) == multiset(ls) + multiset{l}
    ensures forall id :: Matching(ls[..k] + [l] + ls[k..], id) == Matching(ls, id) + if id == l.dataTypeId then [l] else []
  {
    hide Matching, Descending;
    InsertedOrder(ls, l, k);
    assert ls == ls[..k] + ls[k..];
    NoneBehind(ls, k, l.dataTypeId);
    forall id: nat
      ensures Matching(ls[..k] + [l] + ls[k..], id) == Matching(ls, id) + if id == l.dataTypeId then [l] else []
    {
      InsertedFor(ls[..k], l, ls[k..], id);
    }
  }

  lemma InsertedFor(a: seq<Listener>, l: Listener, b: seq<Listener>, id: nat)
    requires id == l.dataTypeId ==> Matching(b, id) == []
    ensures Matching(a + [l] + b, id) == Matching(a + b, id) + if id == l.dataTypeId then [l] else []
  {
    hide Matching;
    MatchingConcat(a + [l], b, id);
    MatchingSnoc(a, l, id);
    MatchingConcat(a, b, id);
  }

  /** What the dispatcher of node `self` does with a CAN frame, given its three registries: the listeners it calls. */
  function Routed(c: CanFrame, self: nat, messages: seq<Listener>, requests: seq<Listener>, responses: seq<Listener>): seq<Listener> {
    match Parse(c)
    case None => []
    case Some(f) =>
      if f.dst != BROADCAST && f.dst != self then []
      else
        match f.transferType
        case MessageBroadcast => Matching(messages, f.dataTypeId)
        case ServiceRequest => Matching(requests, f.dataTypeId)
        case ServiceResponse => Matching(responses, f.dataTypeId)
  }

  class Dispatcher {
    const messages: ListenerRegistry
    const requests: ListenerRegistry
    const responses: ListenerRegistry
    var self: nat

    constructor (m: ListenerRegistry, q: ListenerRegistry, r: ListenerRegistry, nodeId: nat)
      ensures messages == m && requests == q && responses == r && self == nodeId
    {
      messages, requests, responses, self := m, q, r, nodeId;
    }

    /** Early exits and all, the listeners called are exactly those of the frame's kind and type. */
    method HandleFrame(c: CanFrame) returns (called: seq<Listener>)
      requires messages.Valid() && requests.Valid() && responses.Valid()
      ensures called == Routed(c, self, messages.list, requests.list, responses.list)
    {
      hide Parse, Matching;
      var frame := Parse(c);
      if frame.None? {
        return [];
      }
      var f := frame.value;
      if f.dst != BROADCAST && f.dst != self {
        return [];
      }
      match f.transferType
      case MessageBroadcast => called := messages.HandleFrame(f.dataTypeId);
      case ServiceRequest => called := requests.HandleFrame(f.dataTypeId);
      case ServiceResponse => called := responses.HandleFrame(f.dataTypeId);
    }
  }
}
