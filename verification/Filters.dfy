/**
  Hardware acceptance filters: one per message listener, one for service calls and one for anonymous
  messages, merged pairwise until the hardware can hold them.

  A merge accepts whatever either filter accepted and is the tightest filter that does; up to 256 filters,
  the whole computation never makes the hardware reject a frame that the dispatcher would route.
 */
module Filters {
  import opened Bits
  import opened Frames
  import opened Routing
  import opened Multisets

  const ERR_MEMORY := 3
  const ERR_DRIVER := 4
  const ERR_LOGIC := 10

  datatype Config = Config(id: Word32, mask: Word32)

  ghost predicate Accepts(c: Config, id: Word32) {
    forall k :: 0 <= k < 32 && c.mask[k] ==> id[k] == c.id[k]
  }

  ghost predicate SomeAccepts(cs: seq<Config>, id: Word32) {
    exists i :: 0 <= i < |cs| && Accepts(cs[i], id)
  }

  /** Everything that `cs` accepts, `ds` accepts. */
  ghost predicate Covered(cs: seq<Config>, ds: seq<Config>) {
    forall id: Word32 :: SomeAccepts(cs, id) ==> SomeAccepts(ds, id)
  }

  // ----- One merge

  function MergeFilters(a: Config, b: Config): Config {
    var mask := And(And(a.mask, b.mask), Not(Xor(a.id, b.id)));
    Config(And(a.id, mask), mask)
  }

  lemma MergeAccepts(a: Config, b: Config, id: Word32)
    requires Accepts(a, id) || Accepts(b, id)
    ensures Accepts(MergeFilters(a, b), id)
  {}

  /** Any filter that covers both covers the merge. */
  lemma MergeTightest(a: Config, b: Config, c: Config, id: Word32)
    requires forall x: Word32 :: Accepts(a, x) || Accepts(b, x) ==> Accepts(c, x)
    requires Accepts(MergeFilters(a, b), id)
    ensures Accepts(c, id)
  {
    forall k | 0 <= k < 32 && c.mask[k]
      ensures id[k] == c.id[k]
    {
      Fixed(a, c, k);
      Fixed(b, c, k);
    }
  }

  /** A bit that the wider filter checks is checked alike by the narrower one: otherwise flipping it tells them apart. */
  lemma Fixed(a: Config, c: Config, k: nat)
    requires k < 32 && c.mask[k] && forall x: Word32 :: Accepts(a, x) ==> Accepts(c, x)
    ensures a.mask[k] && a.id[k] == c.id[k]
  {
    assert Accepts(a, a.id);
    if !a.mask[k] {
      var x: Word32 := a.id[k := !a.id[k]];
      assert Accepts(a, x);
    }
  }

  // ----- Counting bits

  function Ones(bs: seq<bool>): (r: nat)
    ensures r <= |bs|
  {
    if bs == [] then 0 else Ones(bs[..|bs| - 1]) + Digit(bs[|bs| - 1])
  }

  lemma {:induction false} OnesZero(bs: seq<bool>)
    ensures Num(bs) == 0 <==> Ones(bs) == 0
    ensures Ones(bs) == 0 <==> forall i :: 0 <= i < |bs| ==> !bs[i]
  {
    if bs != [] {
      OnesZero(bs[..|bs| - 1]);
    }
  }

  /** `n & (n - 1)` clears one set bit. */
  lemma {:induction false} ClearsLowest(bs: seq<bool>)
    requires Num(bs) > 0
    ensures Ones(And(bs, ToBits(Num(bs) - 1, |bs|))) == Ones(bs) - 1
  {
    hide *;
    var n := NonEmpty(bs);
    var pre := bs[..n];
    Decremented(bs, n);
    if bs[n] {
      ToBitsNum(pre);
      OnesAnd(bs, pre, false);
      AndSelf(pre);
    } else {
      ClearsLowest(pre);
      OnesAnd(bs, ToBits(Num(pre) - 1, n), true);
    }
  }

  lemma NonEmpty(bs: seq<bool>) returns (n: nat)
    requires Num(bs) > 0
    ensures n == |bs| - 1
  {
    n := |bs| - 1;
  }

  lemma Decremented(bs: seq<bool>, n: nat)
    requires Num(bs) > 0 && n == |bs| - 1
    ensures bs[n] ==> ToBits(Num(bs) - 1, |bs|) == ToBits(Num(bs[..n]), n) + [false] && Ones(bs) == Ones(bs[..n]) + 1
    ensures !bs[n] ==> Num(bs[..n]) > 0 && ToBits(Num(bs) - 1, |bs|) == ToBits(Num(bs[..n]) - 1, n) + [true] && Ones(bs) == Ones(bs[..n])
  {
    hide *;
    var p := Num(bs[..n]);
    NumStep(bs, n);
    OnesStep(bs, n);
    if bs[n] {
      HalfStep(p, n, false);
    } else {
      HalfStep(p - 1, n, true);
    }
  }

  lemma NumStep(bs: seq<bool>, n: nat)
    requires n == |bs| - 1
    ensures Num(bs) == 2 * Num(bs[..n]) + if bs[n] then 1 else 0
  {}

  lemma OnesStep(bs: seq<bool>, n: nat)
    requires n == |bs| - 1
    ensures Ones(bs) == Ones(bs[..n]) + if bs[n] then 1 else 0
  {}

  lemma HalfStep(p: nat, n: nat, last: bool)
    ensures ToBits(2 * p + (if last then 1 else 0), n + 1) == ToBits(p, n) + [last]
  {}

  lemma AndSelf(bs: seq<bool>)
    ensures And(bs, bs) == bs
  {}

  lemma OnesAnd(bs: seq<bool>, pre: seq<bool>, last: bool)
    requires bs != [] && |pre| == |bs| - 1
    ensures Ones(And(bs, pre + [last])) == Ones(And(bs[..|pre|], pre)) + if bs[|pre|] && last then 1 else 0
  {
    var r := And(bs, pre + [last]);
    assert r[..|pre|] == And(bs[..|pre|], pre);
  }

  method CountBits(n: Word32) returns (c: nat)
    ensures c == Ones(n)
  {
    hide Num, ToBits, Ones, And;
    var m: Word32 := n;
    c := 0;
    while Num(m) != 0
      invariant c + Ones(m) == Ones(n)
      decreases Ones(m)
    {
      ClearsLowest(m);
      m := And(m, ToBits(Num(m) - 1, 32));
      c := c + 1;
    }
    OnesZero(m);
  }

  // ----- One pass of the merge

  function PairRank(cs: seq<Config>, i: nat, j: nat): nat
    requires i < |cs| && j < |cs|
  {
    Ones(MergeFilters(cs[i], cs[j]).mask)
  }

  /** The pairs that a pass looks at: the start of the inner loop is cut to eight bits. */
  predicate Considered(cs: seq<Config>, i: nat, j: nat) {
    i + 1 < |cs| && (i + 1) % 256 <= j < |cs|
  }

  /** `i` and `j` are the first best pair; both are zero when no pair has a bit in common. */
  ghost predicate BestPair(cs: seq<Config>, i: nat, j: nat, best: nat) {
    && i < |cs| && j < |cs|
    && (forall a: nat, b: nat :: Considered(cs, a, b) ==> PairRank(cs, a, b) <= best)
    && (best == 0 ==> i == j == 0)
    && (best > 0 ==> Considered(cs, i, j) && PairRank(cs, i, j) == best)
    && (best > 0 ==> forall a: nat, b: nat :: Considered(cs, a, b) && (a < i || (a == i && b < j)) ==> PairRank(cs, a, b) < best)
  }

  method FindBest(cs: seq<Config>) returns (i: nat, j: nat, best: nat)
    requires |cs| >= 2
    ensures BestPair(cs, i, j, best)
  {
    hide PairRank, MergeFilters;
    i, j, best := 0, 0, 0;
    var a := 0;
    while a < |cs| - 1
      invariant 0 <= a <= |cs| - 1 && i < |cs| && j < |cs|
      invariant forall x: nat, y: nat :: Considered(cs, x, y) && x < a ==> PairRank(cs, x, y) <= best
      invariant best == 0 ==> i == j == 0
      invariant best > 0 ==> Considered(cs, i, j) && PairRank(cs, i, j) == best
      invariant best > 0 ==> forall x: nat, y: nat :: Considered(cs, x, y) && (x < i || (x == i && y < j)) ==> PairRank(cs, x, y) < best
    {
      var b := (a + 1) % 256;
      while b < |cs|
        invariant (a + 1) % 256 <= b && i < |cs| && j < |cs|
        invariant forall x: nat, y: nat :: Considered(cs, x, y) && (x < a || (x == a && y < b)) ==> PairRank(cs, x, y) <= best
        invariant best == 0 ==> i == j == 0
        invariant best > 0 ==> Considered(cs, i, j) && PairRank(cs, i, j) == best
        invariant best > 0 ==> forall x: nat, y: nat :: Considered(cs, x, y) && (x < i || (x == i && y < j)) ==> PairRank(cs, x, y) < best
      {
        var rank := CountBits(MergeFilters(cs[a], cs[b]).mask);
        assert rank == PairRank(cs, a, b) by { RankIs(cs, a, b); }
        if rank > best {
          i, j, best := a, b, rank;
        }
        b := b + 1;
      }
      a := a + 1;
    }
  }

  lemma RankIs(cs: seq<Config>, a: nat, b: nat)
    requires a < |cs| && b < |cs|
    ensures PairRank(cs, a, b) == Ones(MergeFilters(cs[a], cs[b]).mask)
  {}

  function EqualTo(c: Config): Config -> bool { (x: Config) => x == c }

  /** Remove the first filter equal to `c`. */
  function RemoveFirst(cs: seq<Config>, c: Config): (r: seq<Config>)
    ensures c in cs ==> |r| == |cs| - 1
  {
    assert forall k :: 0 <= k < |cs| ==> EqualTo(c)(cs[k]) == (cs[k] == c);
    WithoutFirstOf(cs, EqualTo(c))
  }

  function Pass(cs: seq<Config>, i: nat, j: nat): (r: seq<Config>)
    requires i < |cs| && j < |cs|
    ensures |r| == |cs| - 1
  {
    var merged := cs[j := MergeFilters(cs[i], cs[j])];
    RemoveFirst(merged, merged[i])
  }

  lemma RemoveFirstAt(cs: seq<Config>, i: nat) returns (k: nat)
    requires i < |cs|
    ensures k <= i && cs[k] == cs[i] && RemoveFirst(cs, cs[i]) == cs[..k] + cs[k + 1..]
    ensures forall x :: 0 <= x < k ==> cs[x] != cs[i]
  {
    hide First;
    k := First(cs, EqualTo(cs[i]));
  }

  /** Removing a filter equal to number `i` leaves everything that the others accept. */
  lemma RemovedAccepts(cs: seq<Config>, i: nat, id: Word32)
    requires i < |cs|
    ensures (exists m :: 0 <= m < |cs| && m != i && Accepts(cs[m], id)) <==> SomeAccepts(RemoveFirst(cs, cs[i]), id)
  {
    hide Accepts, RemoveFirst;
    var k := RemoveFirstAt(cs, i);
    var r := RemoveFirst(cs, cs[i]);
    if m :| 0 <= m < |cs| && m != i && Accepts(cs[m], id) {
      StillThere(cs, k, if m == k then i else m, id);
    }
    if SomeAccepts(r, id) {
      var x :| 0 <= x < |r| && Accepts(r[x], id);
      var m := if x < k then x else x + 1;
      assert r[x] == cs[m];
      if m == i {
        assert k != i && Accepts(cs[k], id);
      }
    }
  }

  lemma StillThere(cs: seq<Config>, k: nat, m: nat, id: Word32)
    requires k < |cs| && m < |cs| && m != k && Accepts(cs[m], id)
    ensures SomeAccepts(cs[..k] + cs[k + 1..], id)
  {
    hide Accepts;
    var r := cs[..k] + cs[k + 1..];
    var x := if m < k then m else m - 1;
    assert r[x] == cs[m];
  }

  /** Filter `i` accepts nothing that the other filters do not accept. */
  ghost predicate Redundant(cs: seq<Config>, i: nat)
    requires i < |cs|
  {
    forall id: Word32 :: Accepts(cs[i], id) ==> exists m :: 0 <= m < |cs| && m != i && Accepts(cs[m], id)
  }

  /** A pass loses no traffic if it merges two different filters, and otherwise only if the one it drops was redundant. */
  lemma PassExact(cs: seq<Config>, i: nat, j: nat)
    requires i < |cs| && j < |cs|
    ensures Covered(cs, Pass(cs, i, j)) <==> i != j || Redundant(cs, i)
  {
    if i != j {
      forall id: Word32 | SomeAccepts(cs, id)
        ensures SomeAccepts(Pass(cs, i, j), id)
      {
        ProperPass(cs, i, j, id);
      }
    } else {
      SelfPass(cs, i);
    }
  }

  lemma ProperPass(cs: seq<Config>, i: nat, j: nat, id: Word32)
    requires i < |cs| && j < |cs| && i != j && SomeAccepts(cs, id)
    ensures SomeAccepts(Pass(cs, i, j), id)
  {
    hide Accepts, MergeFilters, RemoveFirst;
    var x :| 0 <= x < |cs| && Accepts(cs[x], id);
    var merged := cs[j := MergeFilters(cs[i], cs[j])];
    var m := if x == i then j else x;
    if x == i || x == j {
      MergeAccepts(cs[i], cs[j], id);
    }
    assert Accepts(merged[m], id);
    RemovedAccepts(merged, i, id);
  }

  lemma SelfPass(cs: seq<Config>, i: nat)
    requires i < |cs|
    ensures Covered(cs, Pass(cs, i, i)) <==> Redundant(cs, i)
  {
    hide Accepts, MergeFilters, RemoveFirst;
    var r := Pass(cs, i, i);
    forall id: Word32
      ensures SomeAccepts(r, id) <==> exists m :: 0 <= m < |cs| && m != i && Accepts(cs[m], id)
    {
      SelfPassAt(cs, i, id);
    }
    if Redundant(cs, i) {
      forall id: Word32 | SomeAccepts(cs, id)
        ensures SomeAccepts(r, id)
      {
        var x :| 0 <= x < |cs| && Accepts(cs[x], id);
      }
    }
    if Covered(cs, r) {
      forall id: Word32 | Accepts(cs[i], id)
        ensures exists m :: 0 <= m < |cs| && m != i && Accepts(cs[m], id)
      {
        assert SomeAccepts(cs, id);
      }
    }
  }

  lemma SelfPassAt(cs: seq<Config>, i: nat, id: Word32)
    requires i < |cs|
    ensures SomeAccepts(Pass(cs, i, i), id) <==> exists m :: 0 <= m < |cs| && m != i && Accepts(cs[m], id)
  {
    hide Accepts, MergeFilters, RemoveFirst;
    var merged := cs[i := MergeFilters(cs[i], cs[i])];
    RemovedAccepts(merged, i, id);
    assert forall m :: 0 <= m < |cs| && m != i ==> merged[m] == cs[m];
  }

  // ----- The whole merge

  /** All filters check bit `k`, and for the same value. */
  ghost predicate SharedBit(cs: seq<Config>, k: nat) {
    k < 32 && forall i, j :: 0 <= i < |cs| && 0 <= j < |cs| ==> cs[i].mask[k] && cs[i].id[k] == cs[j].id[k]
  }

  /** With at most 256 filters, a pass merges two different filters exactly when some pair agrees on a checked bit. */
  lemma {:induction false} ProperExact(cs: seq<Config>, i: nat, j: nat, best: nat)
    requires 2 <= |cs| <= 256 && BestPair(cs, i, j, best)
    ensures i != j <==> exists a, b :: 0 <= a < b < |cs| && PairRank(cs, a, b) > 0
  {
    hide PairRank;
    assert forall a, b :: 0 <= a < b < |cs| ==> Considered(cs, a, b);
  }

  lemma SharedRank(cs: seq<Config>, k: nat)
    requires |cs| >= 2 && SharedBit(cs, k)
    ensures PairRank(cs, 0, 1) > 0
  {
    OnesZero(MergeFilters(cs[0], cs[1]).mask);
    assert MergeFilters(cs[0], cs[1]).mask[k];
  }

  lemma SharedKept(cs: seq<Config>, i: nat, j: nat, k: nat)
    requires i < |cs| && j < |cs| && SharedBit(cs, k)
    ensures SharedBit(Pass(cs, i, j), k)
  {
    hide RemoveFirst;
    var merged := cs[j := MergeFilters(cs[i], cs[j])];
    assert SharedBit(merged, k);
    var x := RemoveFirstAt(merged, i);
  }

  /** One pass under the shared bit: nothing is lost, and the bit stays shared. */
  lemma PassKeeps(cs: seq<Config>, i: nat, j: nat, best: nat, k: nat)
    requires 2 <= |cs| <= 256 && BestPair(cs, i, j, best) && SharedBit(cs, k)
    ensures Covered(cs, Pass(cs, i, j)) && SharedBit(Pass(cs, i, j), k)
  {
    hide Covered, Pass, SharedBit, Redundant, PairRank, BestPair;
    BestPairBounds(cs, i, j, best);
    ProperExact(cs, i, j, best);
    SharedRank(cs, k);
    PassExact(cs, i, j);
    SharedKept(cs, i, j, k);
  }

  lemma CoveredTransitive(a: seq<Config>, b: seq<Config>, c: seq<Config>)
    requires Covered(a, b) && Covered(b, c)
    ensures Covered(a, c)
  {}

  /** `r` is what passes over `cs` lead to when the hardware has `filters` filters. */
  ghost predicate Merges(cs: seq<Config>, filters: nat, r: seq<Config>)
    requires filters > 0
    decreases |cs|
  {
    if |cs| <= filters then r == cs
    else exists i, j, best :: BestPair(cs, i, j, best) && Merges(Pass(cs, i, j), filters, r)
  }

  lemma MergesStep(cs: seq<Config>, filters: nat, r: seq<Config>) returns (i: nat, j: nat, best: nat)
    requires filters > 0 && Merges(cs, filters, r) && |cs| > filters
    ensures i < |cs| && j < |cs| && BestPair(cs, i, j, best) && Merges(Pass(cs, i, j), filters, r)
  {
    hide Pass, PairRank;
    i, j, best :| BestPair(cs, i, j, best) && Merges(Pass(cs, i, j), filters, r);
  }

  /** The merge fills the hardware exactly, or leaves what already fits. */
  lemma {:induction false} MergesLength(cs: seq<Config>, filters: nat, r: seq<Config>)
    requires filters > 0 && Merges(cs, filters, r)
    ensures |r| == if |cs| <= filters then |cs| else filters
    decreases |cs|
  {
    hide BestPair, Pass;
    if |cs| > filters {
      var i, j, best := MergesStep(cs, filters, r);
      MergesLength(Pass(cs, i, j), filters, r);
    }
  }

  /** With at most 256 filters that share a checked bit, the merge loses nothing. */
  lemma {:induction false} MergesCovers(cs: seq<Config>, filters: nat, r: seq<Config>, k: nat)
    requires filters > 0 && Merges(cs, filters, r) && |cs| <= 256 && SharedBit(cs, k)
    ensures Covered(cs, r)
    decreases |cs|
  {
    hide BestPair, Pass, Covered, SharedBit;
    if |cs| <= filters {
      CoveredSelf(cs);
    } else {
      var i, j, best := MergesStep(cs, filters, r);
      PassKeeps(cs, i, j, best, k);
      MergesCovers(Pass(cs, i, j), filters, r, k);
      CoveredTransitive(cs, Pass(cs, i, j), r);
    }
  }

  /** Two filters that agree on no checked bit, and one hardware filter: the first one is paired with itself and dropped. */
  lemma FirstDropped(a: Config, b: Config, r: seq<Config>)
    requires (forall k :: 0 <= k < 32 ==> !MergeFilters(a, b).mask[k]) && MergeFilters(a, a) == a && Merges([a, b], 1, r)
    ensures r == [b]
  {
    hide Ones, MergeFilters;
    var cs := [a, b];
    OnesZero(MergeFilters(a, b).mask);
    var i, j, best := MergesStep(cs, 1, r);
    assert forall x: nat, y: nat :: Considered(cs, x, y) ==> x == 0 && y == 1;
    assert PairRank(cs, 0, 1) == 0;
    assert i == j == 0;
    assert cs[0 := a] == cs;
    var k := RemoveFirstAt(cs, 0);
    assert cs[..0] + cs[1..] == [b];
  }

  /** The failing input: filters that check different bits. */
  lemma NothingShared()
    ensures var a := Config([true] + Zeros(31), [true] + Zeros(31));
            var b := Config([false, true] + Zeros(30), [false, true] + Zeros(30));
            && (forall r :: Merges([a, b], 1, r) ==> r == [b])
            && SomeAccepts([a, b], a.id) && !SomeAccepts([b], a.id)
  {
    hide Merges;
    var a := Config([true] + Zeros(31), [true] + Zeros(31));
    var b := Config([false, true] + Zeros(30), [false, true] + Zeros(30));
    assert Accepts([a, b][0], a.id);
    assert [b][0].mask[1] && a.id[1] != b.id[1];
    assert MergeFilters(a, a) == a;
    forall r | Merges([a, b], 1, r)
      ensures r == [b]
    {
      FirstDropped(a, b, r);
    }
  }

  lemma CoveredSelf(cs: seq<Config>)
    ensures Covered(cs, cs)
  {}

  lemma BestPairBounds(cs: seq<Config>, i: nat, j: nat, best: nat)
    requires BestPair(cs, i, j, best)
    ensures i < |cs| && j < |cs|
  {}

  // ----- The filters of a node

  /** The three flags and the bits from `from` to `to`. */
  function FlagsAnd(from: nat, to: nat): Word32 { seq(32, i => i < 3 || from <= i < to) }

  /** Anonymous messages: source node ID zero and not a service frame. */
  function AnonymousConfig(): Config { Config(BitPack(FLAG_EFF, 1, 1), FlagsAnd(24, 32)) }

  /** Service frames for this node. */
  function ServiceConfig(self: nat): Config {
    Config(Or(Or(BitPack(7, 1, 1), BitPack(8, 7, self)), BitPack(FLAG_EFF, 1, 1)), FlagsAnd(17, 25))
  }

  /** Messages of one data type. */
  function MessageConfig(dataTypeId: nat): Config {
    Config(Or(BitPack(8, 16, dataTypeId), BitPack(FLAG_EFF, 1, 1)), FlagsAnd(8, 25))
  }

  function MessageConfigs(ls: seq<Listener>): (r: seq<Config>)
    ensures |r| == |ls|
  {
    seq(|ls|, i requires 0 <= i < |ls| => MessageConfig(ls[i].dataTypeId))
  }

  /** The filters in the order in which they are put into the container. */
  function Input(self: nat, messages: seq<Listener>, anonymous: bool): (r: seq<Config>)
    ensures |r| == |messages| + Head(anonymous)
  {
    (if anonymous then [AnonymousConfig()] else []) + [ServiceConfig(self)] + MessageConfigs(messages)
  }

  /** How many filters are put in before those of the message listeners. */
  function Head(anonymous: bool): nat { if anonymous then 2 else 1 }

  /** The filters in the order in which the merge meets them, with `n` of them per pool block. */
  function Loaded(self: nat, messages: seq<Listener>, anonymous: bool, n: Slots): (r: seq<Config>)
    ensures |r| == |messages| + Head(anonymous)
  {
    Enumerated(Input(self, messages, anonymous), n)
  }

  lemma LoadedMembers(self: nat, messages: seq<Listener>, anonymous: bool, n: Slots)
    ensures forall c :: c in Loaded(self, messages, anonymous, n) <==> c in Input(self, messages, anonymous)
  {
    hide Enumerated, Input;
    SameMembers(Loaded(self, messages, anonymous, n), Input(self, messages, anonymous));
  }

  lemma SameMembers(a: seq<Config>, b: seq<Config>)
    requires multiset(a) == multiset(b)
    ensures forall c :: c in a <==> c in b
  {
    assert forall c :: c in a <==> c in multiset(a);
    assert forall c :: c in b <==> c in multiset(b);
  }

  lemma EffBit(offset: nat, width: nat, field: nat)
    requires offset + width <= 24
    ensures BitPack(FLAG_EFF, 1, 1)[0] && forall i :: 1 <= i < 32 ==> !BitPack(FLAG_EFF, 1, 1)[i]
    ensures forall i :: 0 <= i < 32 ==> BitPack(offset, width, field)[i] == if 32 - offset - width <= i < 32 - offset then ToBits(field, width)[i - (32 - offset - width)] else false
  {
    assert ToBits(1, 1) == [true];
    forall i | 0 <= i < 32
      ensures BitPack(offset, width, field)[i] == if 32 - offset - width <= i < 32 - offset then ToBits(field, width)[i - (32 - offset - width)] else false
    {
      BitPackAt(offset, width, field, i);
    }
  }

  /** The loaded filters all check that the frame is extended. */
  lemma LoadedShare(self: nat, messages: seq<Listener>, anonymous: bool, n: Slots)
    ensures SharedBit(Loaded(self, messages, anonymous, n), 0)
  {
    hide BitPack, Enumerated, Loaded;
    EffBit(0, 1, 0);
    var xs, cs := Input(self, messages, anonymous), Loaded(self, messages, anonymous, n);
    LoadedMembers(self, messages, anonymous, n);
    forall c | c in xs
      ensures c.mask[0] && c.id[0]
    {
      if c != AnonymousConfig() && c != ServiceConfig(self) {
        var i :| 0 <= i < |messages| && c == MessageConfig(messages[i].dataTypeId);
      }
    }
    assert forall i :: 0 <= i < |cs| ==> cs[i] in cs;
  }

  ghost predicate Flagged(id: Word32) { id[0] && !id[1] && !id[2] }

  lemma AnonymousAccepted(id: Word32)
    requires Flagged(id) && !id[24] && Num(id[25..32]) == 0
    ensures Accepts(AnonymousConfig(), id)
  {
    hide BitPack;
    EffBit(0, 1, 0);
    NumZeros(7);
    NumInjective(id[25..32], Zeros(7));
    forall k | 0 <= k < 32 && AnonymousConfig().mask[k]
      ensures id[k] == AnonymousConfig().id[k]
    {
      if k >= 25 {
        assert id[k] == id[25..32][k - 25];
      }
    }
  }

  lemma ServiceAccepted(id: Word32, self: nat)
    requires Flagged(id) && id[24] && Num(id[17..24]) == self
    ensures Accepts(ServiceConfig(self), id)
  {
    hide BitPack, ToBits, Num;
    EffBit(7, 1, 1);
    EffBit(8, 7, self);
    ToBitsNum(id[17..24]);
    OneIsTrue();
    forall k | 0 <= k < 32 && ServiceConfig(self).mask[k]
      ensures id[k] == ServiceConfig(self).id[k]
    {
      if 17 <= k < 24 {
        assert id[k] == id[17..24][k - 17];
      }
    }
  }

  lemma OneIsTrue()
    ensures ToBits(1, 1) == [true]
  {}

  lemma MessageAccepted(id: Word32, dataTypeId: nat)
    requires Flagged(id) && !id[24] && Num(id[8..24]) == dataTypeId
    ensures Accepts(MessageConfig(dataTypeId), id)
  {
    hide BitPack, ToBits, Num;
    EffBit(8, 16, dataTypeId);
    ToBitsNum(id[8..24]);
    forall k | 0 <= k < 32 && MessageConfig(dataTypeId).mask[k]
      ensures id[k] == MessageConfig(dataTypeId).id[k]
    {
      if 8 <= k < 24 {
        assert id[k] == id[8..24][k - 8];
      }
    }
  }

  /** What parsing tells about the identifier. */
  lemma ParsedFields(c: CanFrame)
    requires Parse(c).Some?
    ensures var f := Parse(c).value;
            && Flagged(c.id)
            && (f.transferType.MessageBroadcast? <==> !c.id[24])
            && (f.transferType.MessageBroadcast? && f.src != 0 ==> f.dataTypeId == Num(c.id[8..24]))
            && f.src == Num(c.id[25..32])
            && (!f.transferType.MessageBroadcast? ==> f.dst == Num(c.id[17..24]) && f.dst != BROADCAST)
  {
    hide BitUnpack, Num;
    Unpacked(c.id);
  }

  /** The frames that the filters are meant for: anonymous messages only when the mode asks for them. */
  ghost predicate Wanted(c: CanFrame, anonymous: bool) {
    Parse(c).Some? && (anonymous || Parse(c).value.src != BROADCAST)
  }

  /** Every wanted frame that the dispatcher routes to a listener passes one of the loaded filters. */
  lemma LoadedAccepts(c: CanFrame, self: nat, messages: seq<Listener>, requests: seq<Listener>, responses: seq<Listener>, anonymous: bool, n: Slots)
    requires Routed(c, self, messages, requests, responses) != [] && Wanted(c, anonymous)
    ensures SomeAccepts(Loaded(self, messages, anonymous, n), c.id)
  {
    hide Parse, Accepts, AnonymousConfig, ServiceConfig, MessageConfig, Matching, Num, Loaded;
    ParsedFields(c);
    var f := Parse(c).value;
    var xs := Input(self, messages, anonymous);
    var k := if anonymous then 1 else 0;
    assert xs[k] == ServiceConfig(self);
    if f.transferType.MessageBroadcast? {
      if f.src == 0 {
        AnonymousAccepted(c.id);
        assert xs[0] == AnonymousConfig();
      } else {
        NoneMatching(messages, f.dataTypeId);
        var l :| l in messages && l.dataTypeId == f.dataTypeId;
        var i :| 0 <= i < |messages| && messages[i] == l;
        assert xs[k + 1 + i] == MessageConfig(f.dataTypeId);
        MessageAccepted(c.id, f.dataTypeId);
      }
    } else {
      ServiceAccepted(c.id, self);
    }
    LoadedMembers(self, messages, anonymous, n);
    MembersAccept(xs, Loaded(self, messages, anonymous, n), c.id);
  }

  lemma MembersAccept(a: seq<Config>, b: seq<Config>, id: Word32)
    requires SomeAccepts(a, id) && forall c <- a :: c in b
    ensures SomeAccepts(b, id)
  {
    hide Accepts;
    var i :| 0 <= i < |a| && Accepts(a[i], id);
    assert a[i] in b;
    var j :| 0 <= j < |b| && b[j] == a[i];
  }

  /** How many pool blocks that many filters take. */
  function Blocks(count: nat, n: Slots): nat { (count + n - 1) / n }

  lemma {:induction false} StackedBlocks(xs: seq<Config>, n: Slots)
    ensures |Stacked(xs, n)| == Blocks(|xs|, n) && (HasFree(Stacked(xs, n)) <==> |xs| % n != 0)
    ensures |xs| % n == 0 ==> Blocks(|xs| + 1, n) == Blocks(|xs|, n) + 1
    ensures |xs| % n != 0 ==> Blocks(|xs| + 1, n) == Blocks(|xs|, n)
    decreases |xs|
  {
    hide Filled, Full;
    if |xs| == 0 {
      BlocksStep(0, n);
    } else if |xs| <= n {
      FilledIs(xs, n);
      BlocksSmall(|xs|, n);
      BlocksStep(|xs|, n);
      assert HasFree([Filled(xs, n)]) <==> !Full([Filled(xs, n)][0]);
    } else {
      var rest, last := Stacked(xs[n..], n), Filled(xs[..n], n);
      StackedBlocks(xs[n..], n);
      FilledIs(xs[..n], n);
      BlocksLess(|xs|, n);
      BlocksStep(|xs|, n);
      FreeSnoc(rest, last);
    }
  }

  lemma FreeSnoc(chunks: seq<Chunk<Config>>, last: Chunk<Config>)
    requires Full(last)
    ensures HasFree(chunks + [last]) <==> HasFree(chunks)
  {
    hide Full;
    var all := chunks + [last];
    assert all[|chunks|] == last && forall i :: 0 <= i < |chunks| ==> all[i] == chunks[i];
  }

  lemma BlocksSmall(count: nat, n: Slots)
    requires 0 < count <= n
    ensures Blocks(count, n) == 1 && (count % n == 0 <==> count == n)
  {
    assert count + n - 1 == 1 * n + (count - 1);
    ModUnique(count + n - 1, n, 1, count - 1);
    if count < n {
      ModUnique(count, n, 0, count);
    } else {
      ModUnique(count, n, 1, 0);
    }
  }

  lemma BlocksLess(count: nat, n: Slots)
    requires count > n
    ensures Blocks(count, n) == Blocks(count - n, n) + 1 && count % n == (count - n) % n
  {
    var c := count - n;
    var q, r := (c + n - 1) / n, (c + n - 1) % n;
    assert count + n - 1 == (q + 1) * n + r;
    ModUnique(count + n - 1, n, q + 1, r);
    assert count == (c / n + 1) * n + c % n;
    ModUnique(count, n, c / n + 1, c % n);
  }

  lemma BlocksStep(count: nat, n: Slots)
    ensures Blocks(count + 1, n) == Blocks(count, n) + if count % n == 0 then 1 else 0
  {
    var q, r := count / n, count % n;
    assert count == q * n + r;
    if r == 0 {
      assert count + n - 1 == q * n + (n - 1);
      ModUnique(count + n - 1, n, q, n - 1);
      assert count + n == (q + 1) * n;
      ModUnique(count + n, n, q + 1, 0);
    } else {
      assert count + n - 1 == (q + 1) * n + (r - 1);
      ModUnique(count + n - 1, n, q + 1, r - 1);
      assert count + n == (q + 1) * n + r;
      ModUnique(count + n, n, q + 1, r);
    }
  }

  lemma BlocksGrow(a: nat, b: nat, n: Slots)
    requires a <= b
    ensures Blocks(a, n) <= Blocks(b, n)
    decreases b - a
  {
    hide Blocks;
    if a < b {
      BlocksGrow(a, b - 1, n);
      BlocksStep(b - 1, n);
    }
  }

  function Any(): Config -> bool { (x: Config) => true }

  lemma {:induction false} ClearedAll(cs: seq<Config>)
    ensures Kept(cs, Except(Any())) == []
  {
    if cs != [] {
      ClearedAll(cs[1..]);
    }
  }

  lemma NoItemsNoChunks(chunks: seq<Chunk<Config>>, n: Slots)
    requires Shaped(chunks, n) && Items(chunks) == []
    ensures chunks == []
  {
    hide InChunk;
    if chunks != [] {
      var j :| 0 <= j < n && chunks[0][j].Some?;
      assert chunks[0][j := chunks[0][j]] == chunks[0];
      InChunkAround(chunks[0], j, chunks[0][j]);
    }
  }

  class CanAcceptanceFilterConfigurator {
    const configs: Multiset<Config>
    /** What the driver or the application says, within the limit of the build. */
    const filters: nat
    const limit: nat

    constructor (n: Slots, filtersNumber: nat, maxFilters: nat)
      ensures fresh(configs) && configs.Valid() && configs.slots == n && configs.Contents() == [] && filters == filtersNumber && limit == maxFilters
    {
      configs := new Multiset<Config>(n);
      filters, limit := filtersNumber, maxFilters;
    }

    /** Fill the container; `memory` is how many blocks the pool can give to it. */
    method LoadInputConfiguration(self: nat, messages: seq<Listener>, anonymous: bool, memory: nat) returns (res: int)
      requires configs.Valid()
      modifies configs
      ensures configs.Valid()
      ensures res == if Blocks(|messages| + Head(anonymous), configs.slots) <= memory then 0 else -ERR_MEMORY
      ensures res == 0 ==> configs.Contents() == Loaded(self, messages, anonymous, configs.slots)
    {
      hide AnonymousConfig, ServiceConfig, MessageConfig, Items, Stacked, HasFree, Blocks, Place, Enumerated, Kept, Shaped;
      var n := configs.slots;
      configs.RemoveAllWhere(Any());
      ClearedAll(old(configs.Contents()));
      NoItemsNoChunks(configs.chunks, n);
      ghost var xs, total := [], |messages| + Head(anonymous);
      NothingStacked<Config>(n);
      StackedBlocks(xs, n);
      if anonymous {
        var ok := EmplaceNext(AnonymousConfig(), memory, xs, total);
        if !ok {
          return -ERR_MEMORY;
        }
        xs := xs + [AnonymousConfig()];
      }
      var ok := EmplaceNext(ServiceConfig(self), memory, xs, total);
      if !ok {
        return -ERR_MEMORY;
      }
      xs := xs + [ServiceConfig(self)];
      var p := 0;
      assert xs == Input(self, messages[..0], anonymous);
      while p < |messages|
        invariant 0 <= p <= |messages| && configs.Valid() && xs == Input(self, messages[..p], anonymous) && configs.chunks == Stacked(xs, n)
        invariant Blocks(|xs|, n) <= memory
      {
        var cfg := MessageConfig(messages[p].dataTypeId);
        ok := EmplaceNext(cfg, memory, xs, total);
        if !ok {
          return -ERR_MEMORY;
        }
        assert MessageConfigs(messages[..p + 1]) == MessageConfigs(messages[..p]) + [cfg];
        xs := xs + [cfg];
        p := p + 1;
      }
      assert messages[..p] == messages;
      ItemsStacked(xs, n);
      res := 0;
    }

    /** One more filter, `xs` being those before it and `total` the number there will be. */
    method EmplaceNext(cfg: Config, memory: nat, ghost xs: seq<Config>, ghost total: nat) returns (ok: bool)
      requires configs.Valid() && configs.chunks == Stacked(xs, configs.slots) && |xs| < total
      modifies configs
      ensures configs.Valid()
      ensures ok ==> configs.chunks == Stacked(xs + [cfg], configs.slots) && Blocks(|xs| + 1, configs.slots) <= Max(memory, Blocks(|xs|, configs.slots))
      ensures !ok ==> Blocks(total, configs.slots) > memory
    {
      hide Items, Stacked, HasFree, Blocks, Place, Position, InsertAt, Shaped;
      StackedBlocks(xs, configs.slots);
      PlaceStacked(xs, configs.slots, cfg);
      BlocksGrow(|xs| + 1, total, configs.slots);
      ok := configs.Emplace(cfg, |configs.chunks| < memory);
    }

    method MergeConfigurations() returns (res: int)
      requires configs.Valid()
      modifies configs
      ensures configs.Valid() && res == if filters == 0 then -ERR_DRIVER else 0
      ensures res != 0 ==> configs.chunks == old(configs.chunks)
      ensures res == 0 ==> Merges(old(configs.Contents()), filters, configs.Contents())
    {
      hide BestPair, Items, MergeFilters, Shaped;
      if filters == 0 {
        return -ERR_DRIVER;
      }
      ghost var all := configs.Contents();
      while filters < |configs.Contents()|
        invariant configs.Valid() && |configs.Contents()| <= |all|
        invariant forall r :: Merges(configs.Contents(), filters, r) ==> Merges(all, filters, r)
        decreases |configs.Contents()|
      {
        var cs := configs.Contents();
        var i, j, best := FindBest(cs);
        BestPairBounds(cs, i, j, best);
        configs.AssignByIndex(j, MergeFilters(cs[i], cs[j]));
        var x := configs.GetByIndex(i);
        configs.RemoveFirstWhere(EqualTo(x.value));
        assert configs.Contents() == Pass(cs, i, j);
        MergesBack(cs, i, j, best, filters, all);
      }
      res := 0;
    }

    /** A filter that the application adds by itself. */
    method AddFilterConfig(config: Config, memory: bool) returns (res: int)
      requires configs.Valid()
      modifies configs
      ensures configs.Valid() && res == if HasFree(old(configs.chunks)) || memory then 0 else -ERR_MEMORY
      ensures multiset(configs.Contents()) == multiset(old(configs.Contents())) + if res == 0 then multiset{config} else multiset{}
      ensures forall id: Word32 :: SomeAccepts(configs.Contents(), id) <==> SomeAccepts(old(configs.Contents()), id) || (res == 0 && Accepts(config, id))
    {
      hide Items, HasFree, Position, Accepts, Shaped, Place;
      ghost var before := configs.Contents();
      var ok := configs.Emplace(config, memory);
      if ok {
        AddedAccepts(before, Position(old(configs.chunks)), config);
      }
      return if ok then 0 else -ERR_MEMORY;
    }

    /** Up to 256 filters, what ends up in the container never loses a wanted frame that the dispatcher would route. */
    method ComputeConfiguration(self: nat, messages: seq<Listener>, anonymous: bool, memory: nat) returns (res: int)
      requires configs.Valid()
      modifies configs
      ensures configs.Valid()
      ensures res == if filters == 0 then -ERR_DRIVER else if Blocks(|messages| + Head(anonymous), configs.slots) > memory then -ERR_MEMORY else 0
      ensures res == 0 ==> |configs.Contents()| <= filters && Merges(Loaded(self, messages, anonymous, configs.slots), filters, configs.Contents())
      ensures res == 0 && |messages| + Head(anonymous) <= 256 ==>
                forall c: CanFrame, requests, responses ::
                  Routed(c, self, messages, requests, responses) != [] && Wanted(c, anonymous) ==> SomeAccepts(configs.Contents(), c.id)
    {
      hide Routed, SomeAccepts, Loaded, SharedBit, Wanted, Merges, Items, Blocks, Shaped;
      if filters == 0 {
        return -ERR_DRIVER;
      }
      res := LoadInputConfiguration(self, messages, anonymous, memory);
      if res != 0 {
        return;
      }
      ghost var all, n := configs.Contents(), configs.slots;
      res := MergeConfigurations();
      MergesLength(all, filters, configs.Contents());
      if |messages| + Head(anonymous) <= 256 {
        LoadedShare(self, messages, anonymous, n);
        MergesCovers(all, filters, configs.Contents(), 0);
        forall c: CanFrame, requests, responses | Routed(c, self, messages, requests, responses) != [] && Wanted(c, anonymous)
          ensures SomeAccepts(configs.Contents(), c.id)
        {
          LoadedAccepts(c, self, messages, requests, responses, anonymous, n);
        }
      }
    }

    /** Program every interface, merging first what the application has added; `answers` are those of the drivers. */
    method ApplyConfiguration(answers: seq<int>) returns (res: int, programmed: seq<Config>)
      requires configs.Valid()
      modifies configs
      ensures configs.Valid()
      ensures filters == 0 ==> res == -ERR_DRIVER && configs.chunks == old(configs.chunks)
      ensures filters > 0 ==> Merges(old(configs.Contents()), filters, configs.Contents()) && programmed == configs.Contents()
      ensures filters > 0 ==> res == if |programmed| > limit then -ERR_LOGIC else if exists a <- answers :: a < 0 then -ERR_DRIVER else 0
    {
      hide Items, Merges, Shaped;
      programmed := [];
      if filters == 0 {
        return -ERR_DRIVER, programmed;
      }
      MergesNothing(configs.Contents(), filters);
      if |configs.Contents()| > filters {
        res := MergeConfigurations();
      }
      programmed := configs.Contents();
      if |programmed| > limit {
        return -ERR_LOGIC, programmed;
      }
      var i := 0;
      while i < |answers|
        invariant 0 <= i <= |answers| && forall k :: 0 <= k < i ==> answers[k] >= 0
      {
        if answers[i] < 0 {
          assert answers[i] in answers;
          return -ERR_DRIVER, programmed;
        }
        i := i + 1;
      }
      res := 0;
    }
  }

  lemma MergesNothing(cs: seq<Config>, filters: nat)
    requires filters > 0
    ensures |cs| <= filters ==> Merges(cs, filters, cs)
  {}

  lemma MergesBack(cs: seq<Config>, i: nat, j: nat, best: nat, filters: nat, all: seq<Config>)
    requires filters > 0 && |cs| > filters && BestPair(cs, i, j, best) && i < |cs| && j < |cs|
    requires forall r :: Merges(cs, filters, r) ==> Merges(all, filters, r)
    ensures forall r :: Merges(Pass(cs, i, j), filters, r) ==> Merges(all, filters, r)
  {
    hide Pass, BestPair;
    forall r | Merges(Pass(cs, i, j), filters, r)
      ensures Merges(all, filters, r)
    {
      assert Merges(cs, filters, r);
    }
  }

  lemma AddedAccepts(cs: seq<Config>, p: nat, c: Config)
    requires p <= |cs|
    ensures multiset(InsertAt(cs, p, c)) == multiset(cs) + multiset{c}
    ensures forall id: Word32 :: SomeAccepts(InsertAt(cs, p, c), id) <==> SomeAccepts(cs, id) || Accepts(c, id)
  {
    hide Accepts, SomeAccepts;
    assert cs == cs[..p] + cs[p..];
    forall id: Word32
      ensures SomeAccepts(InsertAt(cs, p, c), id) <==> SomeAccepts(cs, id) || Accepts(c, id)
    {
      AddedAt(cs, p, c, id);
    }
  }

  lemma AddedAt(cs: seq<Config>, p: nat, c: Config, id: Word32)
    requires p <= |cs|
    ensures SomeAccepts(InsertAt(cs, p, c), id) <==> SomeAccepts(cs, id) || Accepts(c, id)
  {
    hide Accepts;
    var r := InsertAt(cs, p, c);
    assert r[p] == c;
    if SomeAccepts(cs, id) {
      var i :| 0 <= i < |cs| && Accepts(cs[i], id);
      assert r[if i < p then i else i + 1] == cs[i];
    }
    if SomeAccepts(r, id) && !Accepts(c, id) {
      var i :| 0 <= i < |r| && Accepts(r[i], id);
      assert r[i] == cs[if i < p then i else i - 1];
    }
  }
}
