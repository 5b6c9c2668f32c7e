/**
  What happens to the data types whose filters were dropped, when the hardware has few filters: conditions
  on the data type IDs under which their frames are lost, and under which the merge of the other filters
  covers them after all.
 */
module SmallHardware {
  import opened Bits
  import opened Frames
  import opened Routing
  import opened Multisets
  import opened Filters
  import opened FilterLimits

  // ----- Outside what the others agree on

  /** The data type agrees with `p` on the bits `w`. */
  ghost predicate Fits(d: nat, w: Word16, p: Word16) { forall k :: 0 <= k < 16 && w[k] ==> ToBits(d, 16)[k] == p[k] }

  /** The bits of an identifier that stand for `w` and for an extended message frame. */
  function Fence(w: Word16): Word32 { [true, true, true] + Zeros(5) + w + [true] + Zeros(7) }

  function Pattern(p: Word16): Word32 { [true, false, false] + Zeros(5) + p + Zeros(8) }

  /** A filter that checks those bits, and nothing that no message filter checks. */
  ghost predicate Inside(c: Config, w: Word16, p: Word16) {
    && (forall k :: 0 <= k < 32 && Fence(w)[k] ==> c.mask[k] && c.id[k] == Pattern(p)[k])
    && (forall k :: 0 <= k < 32 && c.mask[k] ==> FlagsAnd(8, 25)[k])
  }

  lemma {:induction false} OnesConcat(a: seq<bool>, b: seq<bool>)
    ensures Ones(a + b) == Ones(a) + Ones(b)
  {
    if b == [] {
      assert a + b == a;
    } else {
      var n := |b| - 1;
      OnesConcat(a, b[..n]);
      assert (a + b)[..|a + b| - 1] == a + b[..n];
    }
  }

  lemma FenceOnes(w: Word16)
    ensures Ones(Fence(w)) >= Ones(w) + 4
  {
    hide Ones;
    var a, b, c, d := [true, true, true], Zeros(5), [true], Zeros(7);
    OnesConcat(a + b + w + c, d);
    OnesConcat(a + b + w, c);
    OnesConcat(a + b, w);
    OnesConcat(a, b);
    OnesSmall();
  }

  lemma OnesSmall()
    ensures Ones([true, true, true]) == 3 && Ones([true]) == 1
  {
    assert [true, true, true][..2] == [true, true] && [true, true][..1] == [true] && [true][..0] == [];
  }

  lemma MessageInside(d: nat, w: Word16, p: Word16)
    requires Fits(d, w, p)
    ensures Inside(MessageConfig(d), w, p)
  {
    hide MessageConfig, ToBits;
    MessageConfigBits(d);
    var c := MessageConfig(d);
    forall k | 0 <= k < 32 && Fence(w)[k]
      ensures c.mask[k] && c.id[k] == Pattern(p)[k]
    {
      if 8 <= k < 24 {
        assert c.id[k] == c.id[8..24][k - 8];
      }
    }
  }

  lemma MergeInside(a: Config, b: Config, w: Word16, p: Word16)
    requires Inside(a, w, p) && Inside(b, w, p)
    ensures Inside(MergeFilters(a, b), w, p) && Ones(MergeFilters(a, b).mask) >= Ones(w) + 4
  {
    hide Ones, Fence, Pattern, FlagsAnd;
    SubMask(a, b);
    var m := MergeFilters(a, b);
    assert forall k :: 0 <= k < 32 && m.mask[k] ==> m.id[k] == a.id[k];
    OnesStrict(Fence(w), m.mask, 32);
    FenceOnes(w);
  }

  /** A filter that is not for messages agrees on at most ten bits with anything else. */
  lemma HeadRank(h: Config, c: Config, self: nat, w: Word16, p: Word16)
    requires IsHead(h, self) && (Inside(c, w, p) || (IsHead(c, self) && c != h))
    ensures Ones(MergeFilters(h, c).mask) <= 10 && Ones(MergeFilters(c, h).mask) <= 10
  {
    hide AnonymousConfig, ServiceConfig, MergeFilters, Ones;
    HeadMasks(self);
    HeadBits(self);
    SubMask(h, c);
    SubMask(c, h);
    OnesOfFlags(17, 24);
    OnesOfFlags(24, 25);
    assert Fence(w)[24] && !Pattern(p)[24];
    var limit := if h == ServiceConfig(self) then FlagsAnd(17, 24) else FlagsAnd(24, 25);
    OnesStrict(MergeFilters(h, c).mask, limit, 32);
    OnesStrict(MergeFilters(c, h).mask, limit, 32);
  }

  /** Filters inside the fence, and at most one for anonymous messages and one for services. */
  ghost predicate Fenced(cs: seq<Config>, self: nat, w: Word16, p: Word16) {
    && (forall i :: 0 <= i < |cs| ==> Inside(cs[i], w, p) || IsHead(cs[i], self))
    && (forall i, j :: 0 <= i < j < |cs| && cs[i] == cs[j] ==> Inside(cs[i], w, p))
  }

  lemma FencedUnlike(cs: seq<Config>, self: nat, w: Word16, p: Word16, a: nat, b: nat)
    requires Fenced(cs, self, w, p) && a < |cs| && b < |cs| && a != b
    ensures cs[a] == cs[b] ==> Inside(cs[a], w, p)
  {
    assert cs[a] == cs[b] ==> cs[if a < b then a else b] == cs[if a < b then b else a];
  }

  lemma TwoInside(cs: seq<Config>, self: nat, w: Word16, p: Word16) returns (x: nat, y: nat)
    requires Fenced(cs, self, w, p) && |cs| >= 4
    ensures x < y < 4 && Inside(cs[x], w, p) && Inside(cs[y], w, p)
  {
    hide Inside, AnonymousConfig, ServiceConfig;
    forall a, b | 0 <= a < b < 4
      ensures cs[a] == cs[b] ==> Inside(cs[a], w, p)
    {
      FencedUnlike(cs, self, w, p, a, b);
    }
    var inside := seq(4, t requires 0 <= t < 4 => Inside(cs[t], w, p));
    assert forall t :: 0 <= t < 4 ==> inside[t] == Inside(cs[t], w, p);
    assert exists a, b :: 0 <= a < b < 4 && inside[a] && inside[b] by {
      assert !inside[0] && !inside[1] ==> inside[2] && inside[3];
      assert !inside[0] && !inside[2] ==> inside[1] && inside[3];
      assert !inside[0] && !inside[3] ==> inside[1] && inside[2];
      assert !inside[1] && !inside[2] ==> inside[0] && inside[3];
      assert !inside[1] && !inside[3] ==> inside[0] && inside[2];
      assert !inside[2] && !inside[3] ==> inside[0] && inside[1];
    }
    x, y :| 0 <= x < y < 4 && inside[x] && inside[y];
  }

  /** A pass over at least four of them merges no filter that is not for messages. */
  lemma FencePass(cs: seq<Config>, self: nat, w: Word16, p: Word16, i: nat, j: nat, best: nat)
    requires |cs| >= 4 && Fenced(cs, self, w, p) && Ones(w) >= 7 && BestPair(cs, i, j, best)
    ensures i < |cs| && j < |cs| && Fenced(Pass(cs, i, j), self, w, p)
  {
    hide Inside, IsHead, Ones, MergeFilters, RemoveFirst;
    var x, y := TwoInside(cs, self, w, p);
    MergeInside(cs[x], cs[y], w, p);
    assert Considered(cs, x, y);
    assert PairRank(cs, i, j) == best >= 11;
    var merged := cs[j := MergeFilters(cs[i], cs[j])];
    if Inside(cs[i], w, p) && Inside(cs[j], w, p) {
      MergeInside(cs[i], cs[j], w, p);
    } else {
      OnlyItself(cs, self, w, p, i, j);
      assert merged == cs;
    }
    assert Fenced(merged, self, w, p);
    var k := RemoveFirstAt(merged, i);
    FencedWithout(merged, self, w, p, k);
  }

  lemma OnlyItself(cs: seq<Config>, self: nat, w: Word16, p: Word16, i: nat, j: nat)
    requires Fenced(cs, self, w, p) && i < |cs| && j < |cs| && PairRank(cs, i, j) >= 11 && !(Inside(cs[i], w, p) && Inside(cs[j], w, p))
    ensures i == j && MergeFilters(cs[i], cs[j]) == cs[j]
  {
    hide Inside, IsHead, Ones, MergeFilters;
    if cs[i] == cs[j] {
      if i != j {
        FencedUnlike(cs, self, w, p, i, j);
        assert false;
      }
      LoadedSelfMerge(cs[i], self);
    } else if !Inside(cs[i], w, p) {
      HeadRank(cs[i], cs[j], self, w, p);
      assert false;
    } else {
      HeadRank(cs[j], cs[i], self, w, p);
      assert false;
    }
  }

  lemma FencedWithout(cs: seq<Config>, self: nat, w: Word16, p: Word16, m: nat)
    requires Fenced(cs, self, w, p) && m < |cs|
    ensures Fenced(cs[..m] + cs[m + 1..], self, w, p)
  {
    hide Inside, IsHead;
    var r := cs[..m] + cs[m + 1..];
    assert forall i :: 0 <= i < |r| ==> r[i] == cs[if i < m then i else i + 1];
    forall i, j | 0 <= i < j < |r| && r[i] == r[j]
      ensures Inside(r[i], w, p)
    {
      assert cs[if i < m then i else i + 1] == cs[if j < m then j else j + 1];
    }
  }

  lemma {:induction false} FenceRun(cs: seq<Config>, self: nat, w: Word16, p: Word16, filters: nat, r: seq<Config>)
    requires Fenced(cs, self, w, p) && Ones(w) >= 7 && filters >= 3 && Merges(cs, filters, r)
    ensures Fenced(r, self, w, p)
    decreases |cs|
  {
    hide Merges, Fenced, BestPair, Pass, Ones;
    if |cs| <= filters {
      MergesAlready(cs, filters, r);
    } else {
      var i, j, best := MergesStep(cs, filters, r);
      FencePass(cs, self, w, p, i, j, best);
      FenceRun(Pass(cs, i, j), self, w, p, filters, r);
    }
  }

  lemma FenceRejects(cs: seq<Config>, self: nat, w: Word16, p: Word16, d: nat)
    requires Fenced(cs, self, w, p) && !Fits(d, w, p)
    ensures !SomeAccepts(cs, LostId(d))
  {
    hide AnonymousConfig, ServiceConfig, MessageConfig, ToBits;
    MessageConfigBits(d);
    HeadBits(self);
    HeadMasks(self);
    var k :| 0 <= k < 16 && w[k] && ToBits(d, 16)[k] != p[k];
    assert LostId(d)[8 + k] == MessageConfig(d).id[8..24][k];
    assert Fence(w)[8 + k] && Pattern(p)[8 + k] == p[k];
  }

  lemma SurvivorsFenced(cs: seq<Config>, self: nat, w: Word16, p: Word16)
    requires FromLoading(cs, self) && forall d: nat :: d < 65536 && MessageConfig(d) in cs ==> Fits(d, w, p)
    ensures Fenced(cs, self, w, p)
  {
    hide MessageConfig, IsHead, Fits, Inside;
    forall i | 0 <= i < |cs|
      ensures IsMessage(cs[i]) ==> Inside(cs[i], w, p)
    {
      if IsMessage(cs[i]) {
        var d: nat :| d < 65536 && cs[i] == MessageConfig(d);
        assert cs[i] in cs;
        MessageInside(d, w, p);
      }
    }
  }

  /** Three hardware filters or more: a listener loses frames if the data types whose filters survive agree on at least
      seven of the sixteen bits of the ID, and its own differs from them in one of those. */
  lemma OutsideLost(cs: seq<Config>, self: nat, filters: nat, r: seq<Config>, w: Word16, p: Word16, d: nat)
    requires FromLoading(cs, self) && filters >= 3 && Merges(cs, filters, r)
    requires Ones(w) >= 7 && forall e: nat :: e < 65536 && MessageConfig(e) in Surviving(cs, filters) ==> Fits(e, w, p)
    requires d < 65536 && MessageConfig(d) in cs && !Fits(d, w, p)
    ensures SomeAccepts(cs, LostId(d)) && !SomeAccepts(r, LostId(d)) && !Covered(cs, r)
  {
    hide Merges, FromLoading, Surviving, Fenced, MessageConfig, Fits, Accepts, LostId, Ones;
    BeyondMerges(cs, self, filters, r);
    var k := Surviving(cs, filters);
    SurvivorsFenced(k, self, w, p);
    FenceRun(k, self, w, p, filters, r);
    FenceRejects(r, self, w, p, d);
    OwnFilterOnly(cs, self, d);
    var i :| 0 <= i < |cs| && cs[i] == MessageConfig(d);
    assert Accepts(cs[i], LostId(d));
  }

  // ----- Surrounded by the others

  /** Wherever `a` and `b` agree, so does `d`. */
  ghost predicate Between(d: nat, a: nat, b: nat) {
    forall k :: 0 <= k < 16 && ToBits(a, 16)[k] == ToBits(b, 16)[k] ==> ToBits(d, 16)[k] == ToBits(a, 16)[k]
  }

  /** `d` lies between any two of more data types than there are hardware filters. */
  ghost predicate Surrounded(d: nat, ts: seq<nat>, filters: nat) {
    |ts| > filters && forall i, j :: 0 <= i < j < |ts| ==> Between(d, ts[i], ts[j])
  }

  lemma {:induction false} Pigeons(f: seq<nat>, n: nat) returns (i: nat, j: nat)
    requires |f| > n && forall k :: 0 <= k < |f| ==> f[k] < n
    ensures i < j < |f| && f[i] == f[j]
    decreases n
  {
    var last := |f| - 1;
    if x :| 0 <= x < last && f[x] == f[last] {
      i, j := x, last;
    } else {
      var g := seq(last, k requires 0 <= k < last => if f[k] > f[last] then f[k] - 1 else f[k]);
      i, j := Pigeons(g, n - 1);
    }
  }

  /** An identifier with the data type ID exchanged. */
  function Retyped(id: Word32, d: nat): Word32 { id[..8] + ToBits(d, 16) + id[24..] }

  lemma RetypedAccepted(id: Word32, d: nat, e: nat)
    requires Accepts(MessageConfig(d), id)
    ensures Accepts(MessageConfig(e), Retyped(id, e)) && id[8..24] == ToBits(d, 16)
  {
    hide MessageConfig, ToBits;
    MessageConfigBits(d);
    MessageConfigBits(e);
    var x := Retyped(id, e);
    forall k | 0 <= k < 32 && MessageConfig(e).mask[k]
      ensures x[k] == MessageConfig(e).id[k]
    {
      if 8 <= k < 24 {
        assert MessageConfig(e).id[k] == MessageConfig(e).id[8..24][k - 8];
      }
    }
    forall k | 0 <= k < 16
      ensures id[8..24][k] == ToBits(d, 16)[k]
    {
      assert MessageConfig(d).mask[8 + k] && MessageConfig(d).id[8 + k] == MessageConfig(d).id[8..24][k];
    }
  }

  lemma BetweenAccepted(c: Config, id: Word32, d: nat, a: nat, b: nat)
    requires Accepts(c, Retyped(id, a)) && Accepts(c, Retyped(id, b)) && Between(d, a, b) && id[8..24] == ToBits(d, 16)
    ensures Accepts(c, id)
  {
    hide ToBits;
    var x, y := Retyped(id, a), Retyped(id, b);
    forall k | 0 <= k < 32 && c.mask[k]
      ensures id[k] == c.id[k]
    {
      if 8 <= k < 24 {
        assert x[k] == ToBits(a, 16)[k - 8] && y[k] == ToBits(b, 16)[k - 8] && id[k] == id[8..24][k - 8];
      } else {
        assert x[k] == id[k];
      }
    }
  }

  lemma SurroundedAccepted(k: seq<Config>, r: seq<Config>, d: nat, ts: seq<nat>, id: Word32)
    requires Covered(k, r) && Surrounded(d, ts, |r|) && (forall i :: 0 <= i < |ts| ==> MessageConfig(ts[i]) in k)
    requires Accepts(MessageConfig(d), id)
    ensures SomeAccepts(r, id)
  {
    hide Accepts, MessageConfig, Between, Retyped;
    var f: seq<nat> := [];
    while |f| < |ts|
      invariant |f| <= |ts| && forall i :: 0 <= i < |f| ==> f[i] < |r| && Accepts(r[f[i]], Retyped(id, ts[i]))
    {
      var e := ts[|f|];
      RetypedAccepted(id, d, e);
      var i :| 0 <= i < |k| && k[i] == MessageConfig(e);
      assert SomeAccepts(k, Retyped(id, e));
      var x: nat :| x < |r| && Accepts(r[x], Retyped(id, e));
      f := f + [x];
    }
    var i, j := Pigeons(f, |r|);
    RetypedAccepted(id, d, d);
    BetweenAccepted(r[f[i]], id, d, ts[i], ts[j]);
  }

  /** All traffic is covered if every data type survives or lies between any two of more surviving ones than there are
      hardware filters: two of those must share a filter, and that one covers it. */
  lemma SurroundedCovered(cs: seq<Config>, self: nat, filters: nat, r: seq<Config>, around: nat -> seq<nat>)
    requires FromLoading(cs, self) && filters > 0 && Merges(cs, filters, r)
    requires forall d: nat :: d < 65536 && MessageConfig(d) in cs ==>
               var k := Surviving(cs, filters);
               MessageConfig(d) in k || (Surrounded(d, around(d), filters) && forall e <- around(d) :: MessageConfig(e) in k)
    ensures Covered(cs, r)
  {
    hide Merges, FromLoading, MessageConfig, Surrounded, Accepts, Surviving;
    var k := Surviving(cs, filters);
    SurvivingCovered(cs, self, filters, r);
    MergesLength(cs, filters, r);
    forall id: Word32 | SomeAccepts(cs, id)
      ensures SomeAccepts(r, id)
    {
      var i :| 0 <= i < |cs| && Accepts(cs[i], id);
      if cs[i] in k {
        var j :| 0 <= j < |k| && k[j] == cs[i];
        assert SomeAccepts(k, id);
      } else {
        HeadsSurvive(cs, self, filters, cs[i]);
        var d: nat :| d < 65536 && cs[i] == MessageConfig(d);
        assert cs[i] in cs;
        StillSurrounded(d, around(d), filters, |r|);
        SurroundedAccepted(k, r, d, around(d), id);
      }
    }
  }

  lemma StillSurrounded(d: nat, ts: seq<nat>, a: nat, b: nat)
    requires Surrounded(d, ts, a) && b <= a
    ensures Surrounded(d, ts, b)
  {}

  /** Only message filters are taken out. */
  lemma {:induction false} HeadsSurvive(cs: seq<Config>, self: nat, filters: nat, c: Config)
    requires FromLoading(cs, self) && c in cs
    ensures c in Surviving(cs, filters) || IsMessage(c)
    decreases |cs|
  {
    hide IsMessage, FirstRemovable, FromLoading;
    var m := FirstRemovable(cs);
    if |cs| > 256 && |cs| > filters && m < |cs| && c != cs[m] {
      WithoutLoaded(cs, self, m);
      var i :| 0 <= i < |cs| && cs[i] == c;
      assert Without(cs, m)[if i < m then i else i - 1] == c;
      HeadsSurvive(Without(cs, m), self, filters, c);
    }
  }

  // ----- A single hardware filter

  /** A single hardware filter covers everything in the mode that accepts anonymous messages: the merge of the anonymous and
      the service filter checks nothing but the three flags. */
  lemma OneFilterCovers(cs: seq<Config>, self: nat, r: seq<Config>)
    requires FromLoading(cs, self) && AnonymousConfig() in cs && ServiceConfig(self) in cs && Merges(cs, 1, r)
    ensures Covered(cs, r)
  {
    hide Merges, Surviving, Covered, FromLoading, AnonymousConfig, ServiceConfig, IsMessage;
    var k := Surviving(cs, 1);
    SurvivingCovered(cs, self, 1, r);
    MergesLength(cs, 1, r);
    HeadsSurvive(cs, self, 1, AnonymousConfig());
    HeadsSurvive(cs, self, 1, ServiceConfig(self));
    NeverMessages(self);
    OnlyFlags(self, k, r);
    FlagsCover(cs, self, r);
  }

  lemma NeverMessages(self: nat)
    ensures !IsMessage(AnonymousConfig()) && !IsMessage(ServiceConfig(self))
  {
    hide AnonymousConfig, ServiceConfig, IsMessage;
    if IsMessage(AnonymousConfig()) {
      NotBoth(AnonymousConfig(), self);
    }
    if IsMessage(ServiceConfig(self)) {
      NotBoth(ServiceConfig(self), self);
    }
  }

  lemma OnlyFlags(self: nat, k: seq<Config>, r: seq<Config>)
    requires |r| == 1 && Covered(k, r) && AnonymousConfig() in k && ServiceConfig(self) in k
    ensures forall b :: 0 <= b < 32 && r[0].mask[b] ==> b < 3 && r[0].id[b] == (b == 0)
  {
    hide AnonymousConfig, ServiceConfig, Accepts;
    MemberCovered(k, r, AnonymousConfig());
    MemberCovered(k, r, ServiceConfig(self));
    forall b | 0 <= b < 32 && r[0].mask[b]
      ensures b < 3 && r[0].id[b] == (b == 0)
    {
      Fixed(AnonymousConfig(), r[0], b);
      Fixed(ServiceConfig(self), r[0], b);
      HeadMasks(self);
      HeadBits(self);
    }
  }

  lemma MemberCovered(k: seq<Config>, r: seq<Config>, c: Config)
    requires |r| == 1 && Covered(k, r) && c in k
    ensures forall x: Word32 :: Accepts(c, x) ==> Accepts(r[0], x)
  {
    hide Accepts;
    var i :| 0 <= i < |k| && k[i] == c;
    forall x: Word32 | Accepts(c, x)
      ensures Accepts(r[0], x)
    {
      assert SomeAccepts(k, x);
    }
  }

  lemma FlagsCover(cs: seq<Config>, self: nat, r: seq<Config>)
    requires FromLoading(cs, self) && |r| == 1 && forall b :: 0 <= b < 32 && r[0].mask[b] ==> b < 3 && r[0].id[b] == (b == 0)
    ensures Covered(cs, r)
  {
    hide AnonymousConfig, ServiceConfig, MessageConfig, ToBits;
    HeadMasks(self);
    HeadBits(self);
    forall id: Word32 | SomeAccepts(cs, id)
      ensures SomeAccepts(r, id)
    {
      var i :| 0 <= i < |cs| && Accepts(cs[i], id);
      if IsMessage(cs[i]) {
        var d: nat :| d < 65536 && cs[i] == MessageConfig(d);
        MessageConfigBits(d);
      }
      assert forall b :: 0 <= b < 3 ==> cs[i].mask[b] && cs[i].id[b] == (b == 0);
      assert Accepts(r[0], id);
    }
  }

  // ----- A failing input

  function CrowdType(i: nat): nat
    requires i < 257
  {
    if i < 3 then 510 - 2 * i else if i == 3 then 505 else 512 - 2 * i
  }

  /** Listeners of 257 data types: the even ones up to 510, and 505. */
  function Crowd(): (r: seq<Listener>)
    ensures |r| == 257
  {
    seq(257, i requires 0 <= i < 257 => Listener(CrowdType(i), i))
  }

  lemma CrowdTypes()
    ensures DistinctTypes(Crowd()) && Descending(Crowd())
    ensures forall l <- Crowd() :: l.dataTypeId == 505 || (l.dataTypeId % 2 == 0 && l.dataTypeId < 512)
  {}

  function EvenSmall(): Word16 { seq(16, i => i < 7 || i == 15) }

  lemma EvenSmallOnes()
    ensures Ones(EvenSmall()) >= 7
  {
    var w := EvenSmall();
    OnesAll(w[..7]);
    OnesConcat(w[..7], w[7..]);
    assert w[..7] + w[7..] == w;
  }

  lemma EvenFits(e: nat)
    requires e < 512
    ensures Fits(e, EvenSmall(), Zeros(16)) <==> e % 2 == 0
  {
    hide ToBits;
    ToBitsAt(e, 16, 0);
    forall k | 0 <= k < 7
      ensures !ToBits(e, 16)[k]
    {
      ToBitsAt(e, 16, 15 - k);
      HighBit(e, 15 - k);
    }
    assert EvenSmall()[15];
    assert forall k :: 0 <= k < 16 && EvenSmall()[k] ==> k < 7 || k == 15;
  }

  lemma HighBit(e: nat, k: nat)
    requires e < 512 && k >= 9
    ensures e / Pow2(k) == 0
  {
    Pow2Add(9, k - 9);
    assert Pow2(9) == 512 by { assert Pow2(3) == 8 && Pow2(6) == 64; }
    assert Pow2(k) >= 512 by { assert 512 * Pow2(k - 9) >= 512; }
    ModUnique(e, Pow2(k), 0, e);
  }

  /** The filters of the crowd: number 255 is that of data type 505, and the next two are not for messages. */
  lemma CrowdOrder(self: nat)
    ensures var cs := Loaded(self, Crowd(), true, 3);
            |cs| == 259 && cs[255] == MessageConfig(505) && cs[256] == AnonymousConfig() && cs[257] == ServiceConfig(self)
  {
    hide MessageConfig, AnonymousConfig, ServiceConfig, Input, Enumerated, Crowd;
    var xs := Input(self, Crowd(), true);
    EnumeratedAt(xs, 3, 255);
    EnumeratedAt(xs, 3, 256);
    EnumeratedAt(xs, 3, 257);
    InputAt(self, Crowd(), true, 5);
    InputAt(self, Crowd(), true, 0);
    InputAt(self, Crowd(), true, 1);
    CrowdFourth();
  }

  lemma CrowdFourth()
    ensures Crowd()[3].dataTypeId == 505
  {}

  lemma CrowdSurvives(self: nat, filters: nat)
    requires 0 < filters <= 258
    ensures var cs := Loaded(self, Crowd(), true, 3);
            |cs| == 259 && Surviving(cs, filters) == Without(cs, 255) && FromLoading(cs, self) && Distinct(cs)
  {
    hide MessageConfig, AnonymousConfig, ServiceConfig, Input, Enumerated, Crowd, IsMessage, FromLoading, Loaded;
    var cs := Loaded(self, Crowd(), true, 3);
    CrowdOrder(self);
    CrowdTypes();
    LoadedFrom(self, Crowd(), true, 3);
    MessageIs(505);
    assert Removable(cs, 255);
    assert FirstRemovable(cs) == 255;
    var k := Without(cs, 255);
    WithoutDistinct(cs, 255);
    assert k[255] == cs[256] && k[256] == cs[257];
    NeverMessages(self);
    assert FirstRemovable(k) == |k|;
  }

  lemma MessageIs(d: nat)
    requires d < 65536
    ensures IsMessage(MessageConfig(d))
  {}

  lemma CrowdRest(self: nat, e: nat)
    requires |Loaded(self, Crowd(), true, 3)| == 259 && MessageConfig(e) in Without(Loaded(self, Crowd(), true, 3), 255) && e < 65536
    ensures e % 2 == 0 && e < 512
  {
    hide MessageConfig, AnonymousConfig, ServiceConfig, Input, Enumerated, Crowd, IsMessage, Loaded, FromLoading;
    var cs := Loaded(self, Crowd(), true, 3);
    CrowdOrder(self);
    CrowdTypes();
    LoadedFrom(self, Crowd(), true, 3);
    LoadedMembers(self, Crowd(), true, 3);
    var k := Without(cs, 255);
    var i :| 0 <= i < |k| && k[i] == MessageConfig(e);
    var j := if i < 255 then i else i + 1;
    assert cs[j] == MessageConfig(e) && cs[if j < 255 then j else 255] != cs[if j < 255 then 255 else j];
    assert cs[j] in cs;
    CrowdMember(self, e);
  }

  lemma CrowdMember(self: nat, e: nat)
    requires MessageConfig(e) in Input(self, Crowd(), true) && e < 65536
    ensures e == 505 || (e % 2 == 0 && e < 512)
  {
    hide MessageConfig, AnonymousConfig, ServiceConfig, Input, Crowd, IsMessage;
    var xs := Input(self, Crowd(), true);
    var i :| 0 <= i < |xs| && xs[i] == MessageConfig(e);
    InputAt(self, Crowd(), true, i);
    NeverMessages(self);
    MessageIs(e);
    CrowdTypes();
    var l := Crowd()[i - 2];
    assert l in Crowd();
    SameFilterSameType(l.dataTypeId, e);
  }

  /** The failing input, with three filters per pool block as on 64-bit machines, anonymous messages wanted and any hardware
      from 3 to 258 filters: the frames of data type 505 are lost. */
  lemma CrowdLoses(self: nat, filters: nat, r: seq<Config>)
    requires 3 <= filters <= 258 && Merges(Loaded(self, Crowd(), true, 3), filters, r)
    ensures SomeAccepts(Loaded(self, Crowd(), true, 3), LostId(505)) && !SomeAccepts(r, LostId(505))
  {
    hide MessageConfig, Loaded, Crowd, FromLoading, Merges, Surviving, Fits, LostId, EvenSmall, Ones;
    var cs := Loaded(self, Crowd(), true, 3);
    CrowdSurvives(self, filters);
    CrowdOrder(self);
    EvenSmallOnes();
    forall e: nat | e < 65536 && MessageConfig(e) in Surviving(cs, filters)
      ensures Fits(e, EvenSmall(), Zeros(16))
    {
      CrowdRest(self, e);
      EvenFits(e);
    }
    EvenFits(505);
    assert cs[255] in cs;
    OutsideLost(cs, self, filters, r, EvenSmall(), Zeros(16), 505);
  }
}
