/**
  The filter merge beyond 256 filters, where the eight-bit start of the inner loop lets a filter be paired
  with itself and dropped.

  The first part is about loaded filters in any order; which filter is dropped when then follows from the
  order in which the container enumerates them.
 */
module FilterLimits {
  import opened Bits
  import opened Frames
  import opened Routing
  import opened Multisets
  import opened Filters

  // ----- Ranks

  /** Clearing a bit lowers the count. */
  lemma {:induction false} OnesStrict(a: seq<bool>, b: seq<bool>, k: nat)
    requires |a| == |b| && (forall i :: 0 <= i < |a| ==> (a[i] ==> b[i]))
    ensures Ones(a) <= Ones(b)
    ensures k < |a| && b[k] && !a[k] ==> Ones(a) < Ones(b)
  {
    if a != [] {
      var n := |a| - 1;
      OnesStrict(a[..n], b[..n], k);
    }
  }

  lemma {:induction false} OnesAll(bs: seq<bool>)
    requires forall i :: 0 <= i < |bs| ==> bs[i]
    ensures Ones(bs) == |bs|
  {
    if bs != [] {
      OnesAll(bs[..|bs| - 1]);
    }
  }

  lemma {:induction false} OnesRange(bs: seq<bool>, from: nat, to: nat)
    requires 3 <= from <= to && |bs| >= 3 && forall i :: 0 <= i < |bs| ==> bs[i] == (i < 3 || from <= i < to)
    ensures Ones(bs) == 3 + (if |bs| <= from then 0 else if |bs| <= to then |bs| - from else to - from)
  {
    if |bs| == 3 {
      OnesAll(bs);
    } else {
      OnesRange(bs[..|bs| - 1], from, to);
    }
  }

  lemma OnesOfFlags(from: nat, to: nat)
    requires 3 <= from <= to <= 32
    ensures Ones(FlagsAnd(from, to)) == 3 + to - from
  {
    OnesRange(FlagsAnd(from, to), from, to);
  }

  lemma MessageConfigBits(d: nat)
    ensures var c := MessageConfig(d);
            && c.mask == FlagsAnd(8, 25) && c.id[0] && !c.id[1] && !c.id[2] && !c.id[24]
            && c.id[8..24] == ToBits(d, 16)
            && (forall k :: 0 <= k < 32 && !c.mask[k] ==> !c.id[k])
  {
    hide BitPack, ToBits;
    EffBit(8, 16, d);
  }

  lemma SmallDistinct(d: nat, e: nat) returns (k: nat)
    requires d < 65536 && e < 65536 && d != e
    ensures k < 16 && ToBits(d, 16)[k] != ToBits(e, 16)[k]
  {
    hide ToBits, Num, Pow2;
    Pow16();
    NumToBits(d, 16);
    NumToBits(e, 16);
    assert ToBits(d, 16) != ToBits(e, 16);
    k :| 0 <= k < 16 && ToBits(d, 16)[k] != ToBits(e, 16)[k];
  }

  lemma Pow16()
    ensures Pow2(16) == 65536
  {
    assert Pow2(4) == 16 && Pow2(8) == 256;
  }

  lemma HeadMasks(self: nat)
    ensures AnonymousConfig().mask == FlagsAnd(24, 32) && ServiceConfig(self).mask == FlagsAnd(17, 25)
  {}

  lemma MasksDiffer()
    ensures FlagsAnd(24, 32) != FlagsAnd(17, 25) && FlagsAnd(24, 32) != FlagsAnd(8, 25) && FlagsAnd(17, 25) != FlagsAnd(8, 25)
  {
    assert FlagsAnd(8, 25)[8] && !FlagsAnd(17, 25)[8] && !FlagsAnd(24, 32)[8] && FlagsAnd(17, 25)[17] && !FlagsAnd(24, 32)[17];
  }

  lemma HeadBits(self: nat)
    ensures var a, s := AnonymousConfig(), ServiceConfig(self);
            && !a.id[24] && s.id[24] && !a.id[31]
            && (forall k :: 0 <= k < 3 ==> a.id[k] == (k == 0) && s.id[k] == (k == 0))
            && (forall k :: 0 <= k < 32 && !a.mask[k] ==> !a.id[k]) && (forall k :: 0 <= k < 32 && !s.mask[k] ==> !s.id[k])
  {
    hide BitPack, ToBits;
    EffBit(7, 1, 1);
    EffBit(8, 7, self);
    OneIsTrue();
  }

  // ----- Loaded filters, in any order

  ghost predicate IsMessage(c: Config) { exists d: nat :: d < 65536 && c == MessageConfig(d) }

  ghost predicate IsHead(c: Config, self: nat) { c == AnonymousConfig() || c == ServiceConfig(self) }

  /** Filters as loading produces them: any message filters, at most one for anonymous messages and one for services. */
  ghost predicate FromLoading(cs: seq<Config>, self: nat) {
    && (forall i :: 0 <= i < |cs| ==> IsMessage(cs[i]) || IsHead(cs[i], self))
    && (forall i, j :: 0 <= i < j < |cs| && cs[i] == cs[j] ==> IsMessage(cs[i]))
  }

  lemma NotBoth(c: Config, self: nat)
    requires IsMessage(c)
    ensures !IsHead(c, self) && c.mask == FlagsAnd(8, 25)
  {
    hide MessageConfig, AnonymousConfig, ServiceConfig, FlagsAnd;
    var d: nat :| d < 65536 && c == MessageConfig(d);
    MessageConfigBits(d);
    HeadMasks(self);
    MasksDiffer();
  }

  /** A filter whose identifier has no bits outside its mask is its own merge. */
  lemma SelfMerge(c: Config)
    requires forall k :: 0 <= k < 32 && !c.mask[k] ==> !c.id[k]
    ensures MergeFilters(c, c) == c
  {
    var m := MergeFilters(c, c);
    assert m.mask == c.mask;
    assert m.id == c.id;
  }

  lemma LoadedSelfMerge(c: Config, self: nat)
    requires IsMessage(c) || IsHead(c, self)
    ensures MergeFilters(c, c) == c && Ones(c.mask) == if IsMessage(c) then 20 else 11
  {
    hide MessageConfig, AnonymousConfig, ServiceConfig, MergeFilters, FlagsAnd, Ones, ToBits;
    HeadBits(self);
    HeadMasks(self);
    OnesOfFlags(8, 25);
    OnesOfFlags(17, 25);
    OnesOfFlags(24, 32);
    if IsMessage(c) {
      var d: nat :| d < 65536 && c == MessageConfig(d);
      MessageConfigBits(d);
    }
    SelfMerge(c);
  }

  lemma SubMask(a: Config, b: Config)
    ensures forall i :: 0 <= i < 32 && MergeFilters(a, b).mask[i] ==> a.mask[i] && b.mask[i] && a.id[i] == b.id[i]
    ensures forall i :: 0 <= i < 32 && a.mask[i] && b.mask[i] && a.id[i] == b.id[i] ==> MergeFilters(a, b).mask[i]
  {}

  /** Different loaded filters agree on fewer bits than a message filter checks. */
  lemma LesserRank(a: Config, b: Config, self: nat)
    requires (IsMessage(a) || IsHead(a, self)) && (IsMessage(b) || IsHead(b, self)) && a != b
    ensures Ones(MergeFilters(a, b).mask) < 20
  {
    hide Ones, AnonymousConfig, ServiceConfig, MessageConfig, MergeFilters, ToBits;
    var m, full := MergeFilters(a, b).mask, FlagsAnd(8, 25);
    HeadMasks(self);
    OnesOfFlags(8, 25);
    SubMask(a, b);
    if d: nat, e: nat :| d < 65536 && e < 65536 && a == MessageConfig(d) && b == MessageConfig(e) {
      MessageConfigBits(d);
      MessageConfigBits(e);
      var k := SmallDistinct(d, e);
      assert a.id[8 + k] == a.id[8..24][k] && b.id[8 + k] == b.id[8..24][k];
      OnesStrict(m, full, 8 + k);
    } else {
      LesserHead(a, b, self);
    }
  }

  lemma LesserHead(a: Config, b: Config, self: nat)
    requires IsHead(a, self) || IsHead(b, self)
    ensures Ones(MergeFilters(a, b).mask) < 20
  {
    hide Ones, AnonymousConfig, ServiceConfig, MergeFilters;
    var h := if IsHead(a, self) then a else b;
    HeadMasks(self);
    OnesOfFlags(17, 25);
    OnesOfFlags(24, 32);
    SubMask(a, b);
    OnesStrict(MergeFilters(a, b).mask, h.mask, 32);
  }

  /** Only equal message filters reach the full rank. */
  lemma FullRank(cs: seq<Config>, self: nat, i: nat, j: nat)
    requires FromLoading(cs, self) && i < |cs| && j < |cs|
    ensures PairRank(cs, i, j) <= 20
    ensures PairRank(cs, i, j) == 20 <==> cs[i] == cs[j] && IsMessage(cs[i])
  {
    hide Ones, MergeFilters, IsMessage, IsHead;
    if cs[i] == cs[j] {
      LoadedSelfMerge(cs[i], self);
    } else {
      LesserRank(cs[i], cs[j], self);
    }
  }

  // ----- A filter that the pass takes out unmerged

  /** A message filter that has a copy behind it, or that can be paired with itself because the loop over its partners
      starts at or before it. */
  ghost predicate Removable(cs: seq<Config>, i: nat) {
    i + 1 < |cs| && IsMessage(cs[i]) && (i >= 255 || exists j :: i < j < |cs| && cs[j] == cs[i])
  }

  ghost function NextRemovable(cs: seq<Config>, from: nat): (m: nat)
    requires from <= |cs|
    ensures from <= m <= |cs| && (m < |cs| ==> Removable(cs, m)) && forall i :: from <= i < m ==> !Removable(cs, i)
    decreases |cs| - from
  {
    if from == |cs| || Removable(cs, from) then from else NextRemovable(cs, from + 1)
  }

  ghost function FirstRemovable(cs: seq<Config>): (m: nat)
    ensures m <= |cs| && (m < |cs| ==> Removable(cs, m)) && forall i :: 0 <= i < m ==> !Removable(cs, i)
  {
    NextRemovable(cs, 0)
  }

  lemma RemovablePair(cs: seq<Config>, self: nat, m: nat) returns (x: nat)
    requires FromLoading(cs, self) && Removable(cs, m)
    ensures x < |cs| && Considered(cs, m, x) && PairRank(cs, m, x) == 20
  {
    hide IsMessage, IsHead, PairRank;
    if m >= 255 {
      x := m;
    } else {
      x :| m < x < |cs| && cs[x] == cs[m];
    }
    FullRank(cs, self, m, x);
  }

  /** If there is such a filter, the first one is what the pass takes out, and nothing else changes. */
  lemma RemovableGoes(cs: seq<Config>, self: nat, i: nat, j: nat, best: nat)
    requires FromLoading(cs, self) && BestPair(cs, i, j, best) && FirstRemovable(cs) < |cs|
    ensures i == FirstRemovable(cs) && j < |cs| && Pass(cs, i, j) == Without(cs, i)
  {
    hide IsMessage, IsHead, PairRank, Pass;
    var m := FirstRemovable(cs);
    var x := RemovablePair(cs, self, m);
    FullRank(cs, self, i, j);
    assert best >= 20;
    assert cs[i] == cs[j] && IsMessage(cs[i]);
    assert Removable(cs, i);
    assert m <= i;
    assert i == m;
    EqualPass(cs, self, i, j);
  }

  lemma EqualPass(cs: seq<Config>, self: nat, i: nat, j: nat)
    requires FromLoading(cs, self) && i < |cs| && j < |cs| && cs[i] == cs[j] && IsMessage(cs[i])
    requires i == FirstRemovable(cs)
    ensures Pass(cs, i, j) == Without(cs, i)
  {
    hide IsMessage, IsHead, MergeFilters, RemoveFirst;
    LoadedSelfMerge(cs[i], self);
    assert cs[j := cs[j]] == cs;
    var k := RemoveFirstAt(cs, i);
    assert k < i ==> Removable(cs, k);
  }

  // ----- Otherwise two different filters are merged

  function Agree(x: seq<bool>, y: seq<bool>, full: seq<bool>): (r: seq<bool>)
    requires |x| == |y| == |full|
    ensures |r| == |full|
  {
    seq(|full|, i requires 0 <= i < |full| => full[i] && x[i] == y[i])
  }

  function Same(x: bool, y: bool): nat { if x == y then 1 else 0 }

  /** Of the ten pairs of five bits at least four agree, and all ten when the five are equal. */
  lemma FiveBits(a: bool, b: bool, c: bool, d: bool, e: bool)
    ensures TenSame(a, b, c, d, e) >= 4 && (a == b == c == d == e ==> TenSame(a, b, c, d, e) == 10)
  {}

  lemma AgreeStep(x: seq<bool>, y: seq<bool>, full: seq<bool>)
    requires |x| == |y| == |full| > 0
    ensures var n := |full| - 1;
            Ones(Agree(x, y, full)) == Ones(Agree(x[..n], y[..n], full[..n])) + if full[n] then Same(x[n], y[n]) else 0
  {
    var n := |full| - 1;
    assert Agree(x, y, full)[..n] == Agree(x[..n], y[..n], full[..n]);
  }

  ghost function TenPairs(a: seq<bool>, b: seq<bool>, c: seq<bool>, d: seq<bool>, e: seq<bool>, full: seq<bool>): nat
    requires |a| == |b| == |c| == |d| == |e| == |full|
  {
    Ones(Agree(a, b, full)) + Ones(Agree(a, c, full)) + Ones(Agree(a, d, full)) + Ones(Agree(a, e, full)) + Ones(Agree(b, c, full))
    + Ones(Agree(b, d, full)) + Ones(Agree(b, e, full)) + Ones(Agree(c, d, full)) + Ones(Agree(c, e, full)) + Ones(Agree(d, e, full))
  }

  ghost function TenSame(a: bool, b: bool, c: bool, d: bool, e: bool): nat {
    Same(a, b) + Same(a, c) + Same(a, d) + Same(a, e) + Same(b, c) + Same(b, d) + Same(b, e) + Same(c, d) + Same(c, e) + Same(d, e)
  }

  lemma TenStep(a: seq<bool>, b: seq<bool>, c: seq<bool>, d: seq<bool>, e: seq<bool>, full: seq<bool>)
    requires |a| == |b| == |c| == |d| == |e| == |full| > 0
    ensures var n := |full| - 1;
            TenPairs(a, b, c, d, e, full)
            == TenPairs(a[..n], b[..n], c[..n], d[..n], e[..n], full[..n]) + if full[n] then TenSame(a[n], b[n], c[n], d[n], e[n]) else 0
  {
    hide Ones, Agree, Same;
    AgreeStep(a, b, full);
    AgreeStep(a, c, full);
    AgreeStep(a, d, full);
    AgreeStep(a, e, full);
    AgreeStep(b, c, full);
    AgreeStep(b, d, full);
    AgreeStep(b, e, full);
    AgreeStep(c, d, full);
    AgreeStep(c, e, full);
    AgreeStep(d, e, full);
  }

  lemma {:induction false} FiveStrings(a: seq<bool>, b: seq<bool>, c: seq<bool>, d: seq<bool>, e: seq<bool>, full: seq<bool>, common: seq<bool>)
    requires |a| == |b| == |c| == |d| == |e| == |full| == |common|
    requires forall i :: 0 <= i < |full| && common[i] ==> full[i] && a[i] == b[i] == c[i] == d[i] == e[i]
    ensures TenPairs(a, b, c, d, e, full) >= 4 * Ones(full) + 6 * Ones(common)
  {
    hide Ones, TenPairs, TenSame;
    if full == [] {
      OnesNone(common);
      OnesNone(full);
    } else {
      var n := |full| - 1;
      FiveStrings(a[..n], b[..n], c[..n], d[..n], e[..n], full[..n], common[..n]);
      OnesStep(full, n);
      OnesStep(common, n);
      FiveBits(a[n], b[n], c[n], d[n], e[n]);
      TenStep(a, b, c, d, e, full);
    }
  }

  lemma OnesNone(bs: seq<bool>)
    requires bs == []
    ensures Ones(bs) == 0
  {}

  lemma MessageRank(d: nat, e: nat)
    ensures MergeFilters(MessageConfig(d), MessageConfig(e)).mask == Agree(MessageConfig(d).id, MessageConfig(e).id, FlagsAnd(8, 25))
  {
    hide MessageConfig, ToBits, MergeFilters;
    MessageConfigBits(d);
    MessageConfigBits(e);
    SubMask(MessageConfig(d), MessageConfig(e));
  }

  /** Among any five message filters, two agree on at least eleven bits. */
  lemma FiveMessages(ms: seq<Config>) returns (x: nat, y: nat)
    requires |ms| == 5 && forall i :: 0 <= i < 5 ==> IsMessage(ms[i])
    ensures x < y < 5 && PairRank(ms, x, y) >= 11
  {
    hide MessageConfig, ToBits, MergeFilters, Ones, Agree, TenPairs;
    var a: nat :| a < 65536 && ms[0] == MessageConfig(a);
    var b: nat :| b < 65536 && ms[1] == MessageConfig(b);
    var c: nat :| c < 65536 && ms[2] == MessageConfig(c);
    var d: nat :| d < 65536 && ms[3] == MessageConfig(d);
    var e: nat :| e < 65536 && ms[4] == MessageConfig(e);
    TenRanks(a, b, c, d, e);
    FiveCommon(a, b, c, d, e);
    assert ms == [MessageConfig(a), MessageConfig(b), MessageConfig(c), MessageConfig(d), MessageConfig(e)];
    SomePair(ms);
    x, y :| 0 <= x < y < 5 && PairRank(ms, x, y) >= 11;
  }

  lemma SomePair(ms: seq<Config>)
    requires |ms| == 5
    requires PairRank(ms, 0, 1) + PairRank(ms, 0, 2) + PairRank(ms, 0, 3) + PairRank(ms, 0, 4) + PairRank(ms, 1, 2)
             + PairRank(ms, 1, 3) + PairRank(ms, 1, 4) + PairRank(ms, 2, 3) + PairRank(ms, 2, 4) + PairRank(ms, 3, 4) >= 104
    ensures exists x, y :: 0 <= x < y < 5 && PairRank(ms, x, y) >= 11
  {
    hide PairRank;
    if forall x, y :: 0 <= x < y < 5 ==> PairRank(ms, x, y) < 11 {
      assert false;
    }
  }

  lemma TenRanks(a: nat, b: nat, c: nat, d: nat, e: nat)
    ensures var ms := [MessageConfig(a), MessageConfig(b), MessageConfig(c), MessageConfig(d), MessageConfig(e)];
            TenPairs(ms[0].id, ms[1].id, ms[2].id, ms[3].id, ms[4].id, FlagsAnd(8, 25))
            == PairRank(ms, 0, 1) + PairRank(ms, 0, 2) + PairRank(ms, 0, 3) + PairRank(ms, 0, 4) + PairRank(ms, 1, 2)
             + PairRank(ms, 1, 3) + PairRank(ms, 1, 4) + PairRank(ms, 2, 3) + PairRank(ms, 2, 4) + PairRank(ms, 3, 4)
  {
    hide MessageConfig, MergeFilters, Ones, Agree, FlagsAnd;
    MessageRank(a, b);
    MessageRank(a, c);
    MessageRank(a, d);
    MessageRank(a, e);
    MessageRank(b, c);
    MessageRank(b, d);
    MessageRank(b, e);
    MessageRank(c, d);
    MessageRank(c, e);
    MessageRank(d, e);
  }

  lemma FiveCommon(a: nat, b: nat, c: nat, d: nat, e: nat)
    ensures TenPairs(MessageConfig(a).id, MessageConfig(b).id, MessageConfig(c).id, MessageConfig(d).id, MessageConfig(e).id, FlagsAnd(8, 25)) >= 104
  {
    hide MessageConfig, ToBits, Ones, TenPairs;
    MessageConfigBits(a);
    MessageConfigBits(b);
    MessageConfigBits(c);
    MessageConfigBits(d);
    MessageConfigBits(e);
    OnesOfFlags(8, 25);
    OnesOfFlags(24, 25);
    FiveStrings(MessageConfig(a).id, MessageConfig(b).id, MessageConfig(c).id, MessageConfig(d).id, MessageConfig(e).id, FlagsAnd(8, 25), FlagsAnd(24, 25));
  }

  /** Five message filters before number 255, and behind it only filters that check at most eleven bits: the pass merges
      two different filters, the first of them before number 255. */
  lemma ProperBeyond(cs: seq<Config>, five: seq<nat>, i: nat, j: nat, best: nat)
    requires BestPair(cs, i, j, best) && |five| == 5
    requires forall k :: 0 <= k < 5 ==> five[k] < 255 && five[k] < |cs| && IsMessage(cs[five[k]])
    requires forall k :: 0 <= k < 4 ==> five[k] < five[k + 1]
    requires forall t :: 255 <= t < |cs| - 1 ==> Ones(cs[t].mask) <= 11
    ensures i < 255 && j < |cs| && i != j
  {
    hide IsMessage, MergeFilters, Ones;
    var ms := [cs[five[0]], cs[five[1]], cs[five[2]], cs[five[3]], cs[five[4]]];
    var x, y := FiveMessages(ms);
    assert five[0] < five[1] < five[2] < five[3] < five[4];
    assert PairRank(cs, five[x], five[y]) == PairRank(ms, x, y);
    assert Considered(cs, five[x], five[y]);
    RankBelow(cs, i, j);
  }

  lemma RankBelow(cs: seq<Config>, i: nat, j: nat)
    requires i < |cs| && j < |cs|
    ensures PairRank(cs, i, j) <= Ones(cs[i].mask) && PairRank(cs, i, j) <= Ones(cs[j].mask)
  {
    hide MergeFilters, Ones;
    SubMask(cs[i], cs[j]);
    OnesStrict(MergeFilters(cs[i], cs[j]).mask, cs[i].mask, 32);
    OnesStrict(MergeFilters(cs[i], cs[j]).mask, cs[j].mask, 32);
  }

  lemma Unlike(cs: seq<Config>, self: nat, a: nat, b: nat)
    requires FromLoading(cs, self) && a < |cs| && b < |cs| && a != b
    ensures cs[a] == cs[b] ==> IsMessage(cs[a])
  {
    assert cs[a] == cs[b] ==> cs[if a < b then a else b] == cs[if a < b then b else a];
  }

  /** Where filters other than message filters can be. */
  lemma HeadsAt(cs: seq<Config>, self: nat) returns (p: nat, q: nat)
    requires FromLoading(cs, self)
    ensures forall t :: 0 <= t < |cs| && t != p && t != q ==> IsMessage(cs[t])
  {
    hide IsMessage, AnonymousConfig, ServiceConfig;
    p, q := |cs|, |cs|;
    if x: nat :| x < |cs| && cs[x] == AnonymousConfig() && !IsMessage(cs[x]) {
      p := x;
    }
    if x: nat :| x < |cs| && cs[x] == ServiceConfig(self) && !IsMessage(cs[x]) {
      q := x;
    }
    forall t | 0 <= t < |cs| && t != p && t != q
      ensures IsMessage(cs[t])
    {
      if p < |cs| {
        Unlike(cs, self, t, p);
      }
      if q < |cs| {
        Unlike(cs, self, t, q);
      }
    }
  }

  /** Five indices below eight, away from three. */
  lemma FiveOf(cs: seq<Config>, p: nat, q: nat, s: nat) returns (five: seq<nat>)
    requires |cs| >= 8 && forall t :: 0 <= t < 8 && t != p && t != q && t != s ==> IsMessage(cs[t])
    ensures |five| == 5 && (forall k :: 0 <= k < 5 ==> five[k] < 8 && IsMessage(cs[five[k]]))
    ensures forall k :: 0 <= k < 4 ==> five[k] < five[k + 1]
  {
    hide IsMessage;
    five := [];
    var t := 0;
    while t < 8 && |five| < 5
      invariant 0 <= t <= 8 && |five| <= 5
      invariant t - |five| <= (if p < t then 1 else 0) + (if q < t then 1 else 0) + (if s < t then 1 else 0)
      invariant forall k :: 0 <= k < |five| ==> five[k] < t && IsMessage(cs[five[k]])
      invariant forall k :: 0 <= k < |five| - 1 ==> five[k] < five[k + 1]
    {
      if t != p && t != q && t != s {
        five := five + [t];
      }
      t := t + 1;
    }
  }

  /** Without a removable filter, the pass merges two different ones. */
  lemma ProperOtherwise(cs: seq<Config>, self: nat, i: nat, j: nat, best: nat)
    requires FromLoading(cs, self) && |cs| > 256 && BestPair(cs, i, j, best) && FirstRemovable(cs) == |cs|
    ensures i < 255 && j < |cs| && i != j
  {
    hide IsMessage, IsHead, BestPair, Ones;
    var p, q := HeadsAt(cs, self);
    var five := FiveOf(cs, p, q, p);
    forall t | 255 <= t < |cs| - 1
      ensures Ones(cs[t].mask) <= 11
    {
      assert !Removable(cs, t);
      LoadedSelfMerge(cs[t], self);
    }
    ProperBeyond(cs, five, i, j, best);
  }

  /** A frame of a data type that only its own filter accepts: named source, no service. */
  function LostId(d: nat): Word32 { MessageConfig(d).id[31 := true] }

  lemma OtherType(e: nat, d: nat)
    requires e < 65536 && d < 65536
    ensures Accepts(MessageConfig(e), LostId(d)) ==> e == d
  {
    hide MessageConfig, ToBits;
    MessageConfigBits(d);
    MessageConfigBits(e);
    if e != d {
      var k := SmallDistinct(e, d);
      assert MessageConfig(e).id[8 + k] == MessageConfig(e).id[8..24][k] && LostId(d)[8 + k] == MessageConfig(d).id[8..24][k];
    }
  }

  lemma OwnFilterOnly(cs: seq<Config>, self: nat, d: nat)
    requires FromLoading(cs, self) && d < 65536
    ensures Accepts(MessageConfig(d), LostId(d))
    ensures SomeAccepts(cs, LostId(d)) ==> MessageConfig(d) in cs
  {
    hide AnonymousConfig, ServiceConfig, MessageConfig, ToBits;
    MessageConfigBits(d);
    HeadBits(self);
    HeadMasks(self);
    if SomeAccepts(cs, LostId(d)) {
      var i :| 0 <= i < |cs| && Accepts(cs[i], LostId(d));
      assert IsMessage(cs[i]);
      var e: nat :| e < 65536 && cs[i] == MessageConfig(e);
      OtherType(e, d);
    }
  }

  /** One pass over more than 256 loaded filters, whatever their order, loses traffic exactly when there is a removable
      filter and the first one has no copy. */
  lemma BeyondExact(cs: seq<Config>, self: nat, i: nat, j: nat, best: nat)
    requires FromLoading(cs, self) && |cs| > 256 && BestPair(cs, i, j, best)
    ensures i < |cs| && j < |cs|
    ensures var m := FirstRemovable(cs);
            Covered(cs, Pass(cs, i, j)) <==> m == |cs| || exists x :: 0 <= x < |cs| && x != m && cs[x] == cs[m]
  {
    hide IsMessage, IsHead, BestPair, Pass, Covered, Redundant;
    BestPairBounds(cs, i, j, best);
    var m := FirstRemovable(cs);
    if m == |cs| {
      ProperOtherwise(cs, self, i, j, best);
      PassExact(cs, i, j);
    } else {
      RemovableGoes(cs, self, i, j, best);
      WithoutCovered(cs, self, m);
    }
  }

  lemma WithoutCovered(cs: seq<Config>, self: nat, m: nat)
    requires FromLoading(cs, self) && m < |cs| && IsMessage(cs[m])
    ensures Covered(cs, Without(cs, m)) <==> exists x :: 0 <= x < |cs| && x != m && cs[x] == cs[m]
  {
    hide Accepts, MessageConfig, IsHead;
    var r := Without(cs, m);
    if x :| 0 <= x < |cs| && x != m && cs[x] == cs[m] {
      forall id: Word32 | SomeAccepts(cs, id)
        ensures SomeAccepts(r, id)
      {
        var i :| 0 <= i < |cs| && Accepts(cs[i], id);
        StillThere(cs, m, if i == m then x else i, id);
      }
    } else {
      var d: nat :| d < 65536 && cs[m] == MessageConfig(d);
      OwnFilterOnly(cs, self, d);
      WithoutLoaded(cs, self, m);
      OwnFilterOnly(r, self, d);
      assert SomeAccepts(cs, LostId(d));
      assert forall i :: 0 <= i < |r| ==> r[i] == cs[if i < m then i else i + 1];
    }
  }

  lemma WithoutLoaded(cs: seq<Config>, self: nat, m: nat)
    requires FromLoading(cs, self) && m < |cs|
    ensures FromLoading(Without(cs, m), self) && forall c <- Without(cs, m) :: c in cs
  {
    hide IsMessage, IsHead;
    var r := Without(cs, m);
    assert forall i :: 0 <= i < |r| ==> r[i] == cs[if i < m then i else i + 1];
    forall i, j | 0 <= i < j < |r| && r[i] == r[j]
      ensures IsMessage(r[i])
    {
      assert cs[if i < m then i else i + 1] == cs[if j < m then j else j + 1];
    }
  }

  // ----- The whole merge

  /** The filters left when no more are taken out unmerged: at most 256 or as many as the hardware holds, or none removable. */
  ghost function Surviving(cs: seq<Config>, filters: nat): seq<Config>
    decreases |cs|
  {
    var m := FirstRemovable(cs);
    if |cs| > 256 && |cs| > filters && m < |cs| then Surviving(Without(cs, m), filters) else cs
  }

  /** Whatever the hardware and the order, the merge is a merge of the filters that survive; the others are gone unmerged. */
  lemma {:induction false} BeyondMerges(cs: seq<Config>, self: nat, filters: nat, r: seq<Config>)
    requires FromLoading(cs, self) && filters > 0 && Merges(cs, filters, r)
    ensures FromLoading(Surviving(cs, filters), self) && Merges(Surviving(cs, filters), filters, r)
    ensures forall c <- Surviving(cs, filters) :: c in cs
    decreases |cs|
  {
    hide Merges, FromLoading, BestPair, Pass, FirstRemovable;
    var m := FirstRemovable(cs);
    if |cs| > 256 && |cs| > filters && m < |cs| {
      var i, j, best := MergesStep(cs, filters, r);
      RemovableGoes(cs, self, i, j, best);
      WithoutLoaded(cs, self, m);
      BeyondMerges(Without(cs, m), self, filters, r);
    }
  }

  lemma {:induction false} SurvivingStops(cs: seq<Config>, filters: nat)
    ensures var k := Surviving(cs, filters);
            (|k| <= 256 || |k| <= filters || FirstRemovable(k) == |k|) && |k| <= |cs|
    decreases |cs|
  {
    hide FirstRemovable;
    var m := FirstRemovable(cs);
    if |cs| > 256 && |cs| > filters && m < |cs| {
      SurvivingStops(Without(cs, m), filters);
    }
  }

  /** Without a removable filter there are at most 258: only two filters are not for messages. */
  lemma FewLeft(cs: seq<Config>, self: nat)
    requires FromLoading(cs, self) && FirstRemovable(cs) == |cs|
    ensures |cs| <= 258
  {
    hide IsMessage, IsHead, FromLoading;
    var p, q := HeadsAt(cs, self);
    assert |cs| > 258 ==> !Removable(cs, 255) && !Removable(cs, 256) && !Removable(cs, 257);
  }

  lemma LoadedBit(cs: seq<Config>, self: nat)
    requires FromLoading(cs, self)
    ensures SharedBit(cs, 0)
  {
    hide AnonymousConfig, ServiceConfig, MessageConfig, ToBits;
    HeadMasks(self);
    HeadBits(self);
    forall i | 0 <= i < |cs|
      ensures cs[i].mask[0] && cs[i].id[0]
    {
      if IsMessage(cs[i]) {
        var d: nat :| d < 65536 && cs[i] == MessageConfig(d);
        MessageConfigBits(d);
      }
    }
  }

  /** Where number `s` is after number `x` has gone. */
  function Moved(s: nat, x: nat): nat { if s < x then s else if s == x then 300 else s - 1 }

  /** The second pass of the two that can be left to do beyond 256 filters. */
  lemma SecondPass(cs: seq<Config>, self: nat, i: nat, j: nat, best: nat, i': nat, j': nat, best': nat)
    requires FromLoading(cs, self) && |cs| == 258 && FirstRemovable(cs) == |cs| && BestPair(cs, i, j, best)
    requires i < |cs| && j < |cs| && BestPair(Pass(cs, i, j), i', j', best')
    ensures i' < 257 && j' < 257 && i' != j'
  {
    hide IsMessage, IsHead, BestPair, Ones, MergeFilters, FromLoading, RemoveFirst;
    ProperOtherwise(cs, self, i, j, best);
    var merged := cs[j := MergeFilters(cs[i], cs[j])];
    var x := RemoveFirstAt(merged, i);
    var k := Pass(cs, i, j);
    assert forall t :: 0 <= t < 257 ==> k[t] == merged[if t < x then t else t + 1];
    var p, q := HeadsAt(cs, self);
    var five := FiveOf(k, Moved(p, x), Moved(q, x), Moved(j, x));
    TailMask(cs, self, i, j);
    ProperBeyond(k, five, i', j', best');
  }

  lemma TailMask(cs: seq<Config>, self: nat, i: nat, j: nat)
    requires FromLoading(cs, self) && |cs| == 258 && FirstRemovable(cs) == |cs| && i < |cs| && j < |cs|
    ensures Ones(cs[j := MergeFilters(cs[i], cs[j])][256].mask) <= 11
  {
    hide IsMessage, IsHead, Ones, MergeFilters;
    assert !Removable(cs, 256);
    LoadedSelfMerge(cs[256], self);
    if j == 256 {
      RankBelow(cs, i, j);
    }
  }

  /** Nothing that survives is lost. */
  lemma SurvivingCovered(cs: seq<Config>, self: nat, filters: nat, r: seq<Config>)
    requires FromLoading(cs, self) && filters > 0 && Merges(cs, filters, r)
    ensures Covered(Surviving(cs, filters), r)
  {
    hide Merges, FromLoading, BestPair, Pass, FirstRemovable, Surviving, Covered, SharedBit, Redundant;
    var k := Surviving(cs, filters);
    BeyondMerges(cs, self, filters, r);
    SurvivingStops(cs, filters);
    LoadedBit(k, self);
    if |k| <= 256 {
      MergesCovers(k, filters, r, 0);
    } else if |k| <= filters {
      MergesAlready(k, filters, r);
      CoveredSelf(k);
    } else {
      FewLeft(k, self);
      LastPasses(k, self, filters, r);
    }
  }

  lemma MergesAlready(cs: seq<Config>, filters: nat, r: seq<Config>)
    requires filters > 0 && |cs| <= filters && Merges(cs, filters, r)
    ensures r == cs
  {}

  lemma LastPasses(k: seq<Config>, self: nat, filters: nat, r: seq<Config>)
    requires FromLoading(k, self) && 256 < |k| <= 258 && FirstRemovable(k) == |k| && 0 < filters < |k| && Merges(k, filters, r)
    ensures Covered(k, r)
  {
    hide Merges, FromLoading, BestPair, Pass, FirstRemovable, Covered, SharedBit, Redundant;
    LoadedBit(k, self);
    var i, j, best := MergesStep(k, filters, r);
    ProperOtherwise(k, self, i, j, best);
    PassExact(k, i, j);
    SharedKept(k, i, j, 0);
    var k1 := Pass(k, i, j);
    if |k1| <= 256 {
      MergesCovers(k1, filters, r, 0);
    } else if |k1| <= filters {
      MergesAlready(k1, filters, r);
      CoveredSelf(k1);
    } else {
      var i', j', best' := MergesStep(k1, filters, r);
      SecondPass(k, self, i, j, best, i', j', best');
      PassExact(k1, i', j');
      SharedKept(k1, i', j', 0);
      MergesCovers(Pass(k1, i', j'), filters, r, 0);
      CoveredTransitive(k1, Pass(k1, i', j'), r);
    }
    CoveredTransitive(k, k1, r);
  }

  /** All filters different. */
  ghost predicate Distinct(cs: seq<Config>) { forall i, j :: 0 <= i < j < |cs| ==> cs[i] != cs[j] }

  /** A filter taken out of different ones is lost for good unless something is merged afterwards. */
  lemma {:induction false} SurvivorsOnly(cs: seq<Config>, self: nat, filters: nat)
    requires FromLoading(cs, self) && Distinct(cs)
    ensures Covered(cs, Surviving(cs, filters)) <==> Surviving(cs, filters) == cs
    ensures FromLoading(Surviving(cs, filters), self) && forall c <- Surviving(cs, filters) :: c in cs
    decreases |cs|
  {
    hide FromLoading, FirstRemovable, Covered, IsMessage;
    var m := FirstRemovable(cs);
    if |cs| > 256 && |cs| > filters && m < |cs| {
      var rest := Without(cs, m);
      WithoutLoaded(cs, self, m);
      WithoutDistinct(cs, m);
      SurvivorsOnly(rest, self, filters);
      SurvivingStops(rest, filters);
      WithoutCovered(cs, self, m);
      SubsetCovered(Surviving(rest, filters), rest);
      if Covered(cs, Surviving(cs, filters)) {
        CoveredTransitive(cs, Surviving(rest, filters), rest);
      }
    } else {
      CoveredSelf(cs);
    }
  }

  lemma SubsetCovered(a: seq<Config>, b: seq<Config>)
    requires forall c <- a :: c in b
    ensures Covered(a, b)
  {
    hide Accepts;
    forall id: Word32 | SomeAccepts(a, id)
      ensures SomeAccepts(b, id)
    {
      MembersAccept(a, b, id);
    }
  }

  lemma WithoutDistinct(cs: seq<Config>, m: nat)
    requires Distinct(cs) && m < |cs|
    ensures Distinct(Without(cs, m))
  {
    var r := Without(cs, m);
    assert forall i :: 0 <= i < |r| ==> r[i] == cs[if i < m then i else i + 1];
    forall i, j | 0 <= i < j < |r|
      ensures r[i] != r[j]
    {
      assert cs[if i < m then i else i + 1] != cs[if j < m then j else j + 1];
    }
  }

  /** When the filters that survive fit the hardware, all traffic is covered exactly when all of them survive. */
  lemma NothingMergedExact(cs: seq<Config>, self: nat, filters: nat, r: seq<Config>)
    requires FromLoading(cs, self) && Distinct(cs) && filters > 0 && Merges(cs, filters, r) && |Surviving(cs, filters)| <= filters
    ensures r == Surviving(cs, filters) && (Covered(cs, r) <==> r == cs)
  {
    hide Merges, FromLoading, Distinct, Surviving, Covered;
    BeyondMerges(cs, self, filters, r);
    MergesAlready(Surviving(cs, filters), filters, r);
    SurvivorsOnly(cs, self, filters);
  }

  /** Hardware with room for 258 filters or more, and different filters in any order: the merge covers all traffic exactly
      when nothing has to be merged. */
  lemma LargeHardwareExact(cs: seq<Config>, self: nat, filters: nat, r: seq<Config>)
    requires FromLoading(cs, self) && Distinct(cs) && filters >= 258 && Merges(cs, filters, r)
    ensures Covered(cs, r) <==> |cs| <= filters
  {
    hide Merges, FromLoading, Distinct, FirstRemovable, Surviving, Covered;
    var k := Surviving(cs, filters);
    BeyondMerges(cs, self, filters, r);
    SurvivingStops(cs, filters);
    if |k| > filters {
      FewLeft(k, self);
      assert false;
    }
    NothingMergedExact(cs, self, filters, r);
    MergesLength(cs, filters, r);
    if |cs| <= filters {
      MergesAlready(cs, filters, r);
    }
  }

  // ----- In the order of the container

  ghost predicate SmallTypes(ls: seq<Listener>) { forall i :: 0 <= i < |ls| ==> ls[i].dataTypeId < 65536 }

  ghost predicate DistinctTypes(ls: seq<Listener>) {
    SmallTypes(ls) && forall i, j :: 0 <= i < j < |ls| ==> ls[i].dataTypeId != ls[j].dataTypeId
  }

  lemma InputAt(self: nat, ls: seq<Listener>, anonymous: bool, i: nat)
    requires i < |ls| + Head(anonymous)
    ensures var h := Head(anonymous);
            Input(self, ls, anonymous)[i] ==
            if i >= h then MessageConfig(ls[i - h].dataTypeId) else if i == h - 1 then ServiceConfig(self) else AnonymousConfig()
  {
    hide AnonymousConfig, ServiceConfig, MessageConfig;
  }

  lemma InputKind(self: nat, ls: seq<Listener>, anonymous: bool, i: nat)
    requires i < |ls| + Head(anonymous) && SmallTypes(ls)
    ensures var c := Input(self, ls, anonymous)[i];
            if i >= Head(anonymous) then IsMessage(c) else !IsMessage(c) && IsHead(c, self)
  {
    hide AnonymousConfig, ServiceConfig, MessageConfig, Input;
    InputAt(self, ls, anonymous, i);
    var c := Input(self, ls, anonymous)[i];
    if i < Head(anonymous) && IsMessage(c) {
      NotBoth(c, self);
    }
  }

  lemma InputDistinct(self: nat, ls: seq<Listener>, anonymous: bool, i: nat, j: nat)
    requires i < j < |ls| + Head(anonymous) && SmallTypes(ls)
    ensures var c, d := Input(self, ls, anonymous)[i], Input(self, ls, anonymous)[j];
            c == d ==> IsMessage(c) && exists a, b :: 0 <= a < b < |ls| && ls[a].dataTypeId == ls[b].dataTypeId
  {
    hide AnonymousConfig, ServiceConfig, MessageConfig, Input, ToBits, IsMessage, IsHead;
    InputAt(self, ls, anonymous, i);
    InputAt(self, ls, anonymous, j);
    InputKind(self, ls, anonymous, i);
    InputKind(self, ls, anonymous, j);
    HeadMasks(self);
    MasksDiffer();
    var h := Head(anonymous);
    if i >= h {
      SameFilterSameType(ls[i - h].dataTypeId, ls[j - h].dataTypeId);
    }
  }

  lemma SameFilterSameType(d: nat, e: nat)
    requires d < 65536 && e < 65536
    ensures MessageConfig(d) == MessageConfig(e) ==> d == e
  {
    hide MessageConfig, ToBits;
    MessageConfigBits(d);
    MessageConfigBits(e);
    if d != e {
      var k := SmallDistinct(d, e);
    }
  }

  lemma {:induction false} SourceInjective(len: nat, n: Slots, p: nat, q: nat)
    requires p < len && q < len && p != q
    ensures Source(len, n, p) != Source(len, n, q)
    decreases len
  {
    if len > n && p < len - n && q < len - n {
      SourceInjective(len - n, n, p, q);
    }
  }

  lemma LoadedFrom(self: nat, ls: seq<Listener>, anonymous: bool, n: Slots)
    requires SmallTypes(ls)
    ensures FromLoading(Loaded(self, ls, anonymous, n), self)
    ensures DistinctTypes(ls) ==> Distinct(Loaded(self, ls, anonymous, n))
  {
    hide AnonymousConfig, ServiceConfig, MessageConfig, Input, Enumerated, IsMessage, IsHead, Source;
    var xs, cs := Input(self, ls, anonymous), Loaded(self, ls, anonymous, n);
    forall i | 0 <= i < |cs|
      ensures IsMessage(cs[i]) || IsHead(cs[i], self)
    {
      EnumeratedAt(xs, n, i);
      InputKind(self, ls, anonymous, Source(|xs|, n, i));
    }
    forall i, j | 0 <= i < j < |cs|
      ensures cs[i] == cs[j] ==> IsMessage(cs[i]) && !DistinctTypes(ls)
    {
      EnumeratedAt(xs, n, i);
      EnumeratedAt(xs, n, j);
      SourceInjective(|xs|, n, i, j);
      var a, b := Source(|xs|, n, i), Source(|xs|, n, j);
      InputDistinct(self, ls, anonymous, if a < b then a else b, if a < b then b else a);
    }
  }

  /** From how many different filters on a pass drops one, with `n` filters per pool block. */
  function FirstDrop(n: Slots, anonymous: bool): nat {
    if anonymous then (if n == 3 then 259 else if n < 3 then 258 else 257) else if n == 2 then 258 else 257
  }

  /** A place at which a filter can be dropped has a message filter from that number on. */
  lemma DropPlace(n: Slots, anonymous: bool, total: nat) returns (m: nat)
    requires total > 256 && total >= FirstDrop(n, anonymous)
    ensures 255 <= m < total - 1 && Source(total, n, m) >= Head(anonymous)
  {
    m := if n == 1 then (if anonymous then total - 3 else total - 2) else if n == 2 then total - 3
         else if n == 3 && anonymous then total - 4 else total - 2;
  }

  lemma NoDropPlace(n: Slots, anonymous: bool, total: nat, m: nat)
    requires total > 256 && total < FirstDrop(n, anonymous) && 255 <= m < total - 1
    ensures Source(total, n, m) < Head(anonymous)
  {}

  lemma FirstDropExact(self: nat, ls: seq<Listener>, anonymous: bool, n: Slots)
    requires DistinctTypes(ls) && |ls| + Head(anonymous) > 256
    ensures var cs := Loaded(self, ls, anonymous, n);
            FirstRemovable(cs) < |cs| <==> |cs| >= FirstDrop(n, anonymous)
  {
    hide AnonymousConfig, ServiceConfig, MessageConfig, Input, Enumerated, IsMessage, Source, FirstRemovable;
    var xs, cs := Input(self, ls, anonymous), Loaded(self, ls, anonymous, n);
    LoadedFrom(self, ls, anonymous, n);
    forall m | 0 <= m < |cs|
      ensures Removable(cs, m) <==> 255 <= m < |cs| - 1 && Source(|cs|, n, m) >= Head(anonymous)
    {
      EnumeratedAt(xs, n, m);
      InputKind(self, ls, anonymous, Source(|xs|, n, m));
    }
    if |cs| >= FirstDrop(n, anonymous) {
      var m := DropPlace(n, anonymous, |cs|);
      assert Removable(cs, m);
    } else {
      forall m | 255 <= m < |cs| - 1
        ensures Source(|cs|, n, m) < Head(anonymous)
      {
        NoDropPlace(n, anonymous, |cs|, m);
      }
    }
  }

  /** One pass over the filters of a node with different data types: it loses traffic exactly from that number on. */
  lemma FirstDropLoses(self: nat, ls: seq<Listener>, anonymous: bool, n: Slots, i: nat, j: nat, best: nat)
    requires DistinctTypes(ls) && |ls| + Head(anonymous) > 256 && BestPair(Loaded(self, ls, anonymous, n), i, j, best)
    ensures var cs := Loaded(self, ls, anonymous, n);
            i < |cs| && j < |cs| && (Covered(cs, Pass(cs, i, j)) <==> |cs| < FirstDrop(n, anonymous))
  {
    hide Loaded, BestPair, Pass, Covered, FirstRemovable, FromLoading;
    var cs := Loaded(self, ls, anonymous, n);
    LoadedFrom(self, ls, anonymous, n);
    FirstDropExact(self, ls, anonymous, n);
    BeyondExact(cs, self, i, j, best);
    var m := FirstRemovable(cs);
    if m < |cs| {
      forall x | 0 <= x < |cs| && x != m
        ensures cs[x] != cs[m]
      {
        assert cs[if x < m then x else m] != cs[if x < m then m else x];
      }
    }
  }

  /** Below it, the whole merge covers all traffic, whatever the hardware. */
  lemma BelowFirstDrop(self: nat, ls: seq<Listener>, anonymous: bool, n: Slots, filters: nat, r: seq<Config>)
    requires DistinctTypes(ls) && |ls| + Head(anonymous) < FirstDrop(n, anonymous)
    requires filters > 0 && Merges(Loaded(self, ls, anonymous, n), filters, r)
    ensures Covered(Loaded(self, ls, anonymous, n), r)
  {
    hide Loaded, Covered, FirstRemovable, FromLoading, Merges, DistinctTypes;
    var cs := Loaded(self, ls, anonymous, n);
    TypesSmall(ls);
    LoadedFrom(self, ls, anonymous, n);
    if |cs| > 256 {
      FirstDropExact(self, ls, anonymous, n);
    }
    SurvivingCovered(cs, self, filters, r);
  }

  lemma TypesSmall(ls: seq<Listener>)
    requires DistinctTypes(ls)
    ensures SmallTypes(ls)
  {}
}
