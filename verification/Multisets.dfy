/**
  The unordered container whose items live in pool blocks of a few slots each.

  A new item takes the first free slot on the list of chunks; with none free, a new chunk goes to the
  front of the list.  Every search goes by that list, so the order in which items are found is decided by
  the number of slots: with one slot per chunk the newest item comes first, with more it depends.
 */
module Multisets {
  import opened Frames

  /** How many items a pool block holds. */
  type Slots = n: nat | n > 0 witness 1

  type Chunk<T> = seq<Option<T>>

  // ----- The order of enumeration

  function InChunk<T>(chunk: Chunk<T>): (r: seq<T>)
    ensures |r| <= |chunk|
  {
    if chunk == [] then [] else IfSome(chunk[0]) + InChunk(chunk[1..])
  }

  function IfSome<T>(slot: Option<T>): seq<T> { if slot.Some? then [slot.value] else [] }

  /** All items, as every search meets them. */
  function Items<T>(chunks: seq<Chunk<T>>): seq<T> {
    if chunks == [] then [] else InChunk(chunks[0]) + Items(chunks[1..])
  }

  predicate Full<T>(chunk: Chunk<T>) { forall i :: 0 <= i < |chunk| ==> chunk[i].Some? }

  predicate Empty<T>(chunk: Chunk<T>) { forall i :: 0 <= i < |chunk| ==> chunk[i].None? }

  /** Chunks of the right size, none of them empty. */
  ghost predicate Shaped<T>(chunks: seq<Chunk<T>>, n: Slots) {
    forall i :: 0 <= i < |chunks| ==> |chunks[i]| == n && !Empty(chunks[i])
  }

  lemma Assoc<T>(a: seq<T>, b: seq<T>, c: seq<T>)
    ensures a + (b + c) == a + b + c
  {}

  lemma NextChunk<T>(chunk: Chunk<T>, rest: seq<Chunk<T>>)
    ensures Items([chunk] + rest) == InChunk(chunk) + Items(rest)
  {
    assert ([chunk] + rest)[1..] == rest;
  }

  lemma NextSlot<T>(slot: Option<T>, rest: Chunk<T>)
    ensures InChunk([slot] + rest) == IfSome(slot) + InChunk(rest)
  {
    assert ([slot] + rest)[1..] == rest;
  }

  lemma Nothing<T>()
    ensures Items<T>([]) == [] && InChunk<T>([]) == []
  {}

  lemma NothingBefore<T>(s: seq<T>)
    ensures [] + s == s && s + [] == s
  {}

  lemma {:induction false} ItemsConcat<T>(a: seq<Chunk<T>>, b: seq<Chunk<T>>)
    ensures Items(a + b) == Items(a) + Items(b)
  {
    hide *;
    Nothing<T>();
    if a == [] {
      NothingBefore(b);
      NothingBefore(Items(b));
    } else {
      var x, rest := a[0], a[1..];
      assert a == [x] + rest;
      ItemsConcat(rest, b);
      NextChunk(x, rest);
      NextChunk(x, rest + b);
      Assoc([x], rest, b);
      Assoc(InChunk(x), Items(rest), Items(b));
    }
  }

  lemma {:induction false} InChunkConcat<T>(a: Chunk<T>, b: Chunk<T>)
    ensures InChunk(a + b) == InChunk(a) + InChunk(b)
  {
    hide *;
    Nothing<T>();
    if a == [] {
      NothingBefore(b);
      NothingBefore(InChunk(b));
    } else {
      var x, rest := a[0], a[1..];
      assert a == [x] + rest;
      InChunkConcat(rest, b);
      NextSlot(x, rest);
      NextSlot(x, rest + b);
      Assoc([x], rest, b);
      Assoc(IfSome(x), InChunk(rest), InChunk(b));
    }
  }

  lemma InChunkOne<T>(slot: Option<T>)
    ensures InChunk([slot]) == IfSome(slot)
  {
    assert [slot][1..] == [];
  }

  lemma ItemsOne<T>(chunk: Chunk<T>)
    ensures Items([chunk]) == InChunk(chunk)
  {
    assert [chunk][1..] == [];
  }

  lemma Around<T>(s: seq<T>, i: nat, x: T)
    requires i < |s|
    ensures s[i := x] == s[..i] + [x] + s[i + 1..]
  {}

  /** The items around one slot of a chunk. */
  lemma InChunkAround<T>(chunk: Chunk<T>, i: nat, slot: Option<T>)
    requires i < |chunk|
    ensures InChunk(chunk[i := slot]) == InChunk(chunk[..i]) + IfSome(slot) + InChunk(chunk[i + 1..])
  {
    hide *;
    Around(chunk, i, slot);
    InChunkConcat(chunk[..i] + [slot], chunk[i + 1..]);
    InChunkConcat(chunk[..i], [slot]);
    InChunkOne(slot);
  }

  lemma {:induction false} InChunkFull<T>(chunk: Chunk<T>)
    requires Full(chunk)
    ensures |InChunk(chunk)| == |chunk| && forall i :: 0 <= i < |chunk| ==> InChunk(chunk)[i] == chunk[i].value
  {
    if chunk != [] {
      InChunkFull(chunk[1..]);
    }
  }

  lemma {:induction false} InChunkEmpty<T>(chunk: Chunk<T>)
    requires Empty(chunk)
    ensures InChunk(chunk) == []
  {
    if chunk != [] {
      InChunkEmpty(chunk[1..]);
    }
  }

  // ----- A new item

  predicate HasFree<T>(chunks: seq<Chunk<T>>) { exists i :: 0 <= i < |chunks| && !Full(chunks[i]) }

  function FreeSlot<T>(chunk: Chunk<T>): (i: nat)
    requires !Full(chunk)
    ensures i < |chunk| && chunk[i].None? && Full(chunk[..i])
  {
    if chunk[0].None? then 0 else
      assert chunk == [chunk[0]] + chunk[1..];
      FreeSlot(chunk[1..]) + 1
  }

  function FreshChunk<T>(n: Slots, x: T): Chunk<T> { [Some(x)] + seq(n - 1, _ => None) }

  function FreeChunk<T>(chunks: seq<Chunk<T>>): (k: nat)
    requires HasFree(chunks)
    ensures k < |chunks| && !Full(chunks[k]) && forall i :: 0 <= i < k ==> Full(chunks[i])
  {
    if !Full(chunks[0]) then 0 else
      assert chunks == [chunks[0]] + chunks[1..];
      FreeChunk(chunks[1..]) + 1
  }

  function Place<T>(chunks: seq<Chunk<T>>, n: Slots, x: T): seq<Chunk<T>> {
    if HasFree(chunks) then
      var k := FreeChunk(chunks);
      chunks[k := chunks[k][FreeSlot(chunks[k]) := Some(x)]]
    else [FreshChunk(n, x)] + chunks
  }

  /** How many items are enumerated before a new one. */
  function Position<T>(chunks: seq<Chunk<T>>): nat {
    if HasFree(chunks) then
      var k := FreeChunk(chunks);
      |Items(chunks[..k])| + FreeSlot(chunks[k])
    else 0
  }

  function InsertAt<T>(s: seq<T>, p: nat, x: T): (r: seq<T>)
    requires p <= |s|
  {
    s[..p] + [x] + s[p..]
  }

  /** The new item stands at its position among the others, whose order stays. */
  lemma PlaceItems<T>(chunks: seq<Chunk<T>>, n: Slots, x: T)
    ensures Position(chunks) <= |Items(chunks)|
    ensures Items(Place(chunks, n, x)) == InsertAt(Items(chunks), Position(chunks), x)
  {
    hide InChunk, Items, Full, InsertAt, FreeChunk, FreeSlot, FreshChunk;
    if HasFree(chunks) {
      PlaceItemsAt(chunks, FreeChunk(chunks), FreeSlot(chunks[FreeChunk(chunks)]), x);
    } else {
      FreshItems(n, x);
      NextChunk(FreshChunk(n, x), chunks);
      InsertFirst(Items(chunks), x);
    }
  }

  lemma PlaceItemsAt<T>(chunks: seq<Chunk<T>>, k: nat, i: nat, x: T)
    requires k < |chunks| && i < |chunks[k]| && chunks[k][i].None? && Full(chunks[k][..i])
    ensures |Items(chunks[..k])| + i <= |Items(chunks)|
    ensures Items(chunks[k := chunks[k][i := Some(x)]]) == InsertAt(Items(chunks), |Items(chunks[..k])| + i, x)
  {
    hide InChunk, Items, Full, InsertAt;
    var chunk := chunks[k];
    ItemsAround(chunks, k, chunk);
    ItemsAround(chunks, k, chunk[i := Some(x)]);
    assert chunks[k := chunk] == chunks;
    PlacedInChunk(chunk, i, x);
    InChunkFull(chunk[..i]);
    InsertInside(Items(chunks[..k]), InChunk(chunk[..i]), InChunk(chunk[i + 1..]), Items(chunks[k + 1..]), x);
  }

  lemma InsertInside<T>(a: seq<T>, before: seq<T>, after: seq<T>, b: seq<T>, x: T)
    ensures InsertAt(a + (before + after) + b, |a| + |before|, x) == a + (before + [x] + after) + b
  {}

  lemma InsertFirst<T>(s: seq<T>, x: T)
    ensures InsertAt(s, 0, x) == [x] + s
  {}

  lemma ItemsAround<T>(chunks: seq<Chunk<T>>, k: nat, chunk: Chunk<T>)
    requires k < |chunks|
    ensures Items(chunks[k := chunk]) == Items(chunks[..k]) + InChunk(chunk) + Items(chunks[k + 1..])
  {
    hide *;
    Around(chunks, k, chunk);
    ItemsConcat(chunks[..k] + [chunk], chunks[k + 1..]);
    ItemsConcat(chunks[..k], [chunk]);
    ItemsOne(chunk);
  }

  lemma PlacedInChunk<T>(chunk: Chunk<T>, i: nat, x: T)
    requires i < |chunk| && chunk[i].None?
    ensures InChunk(chunk) == InChunk(chunk[..i]) + InChunk(chunk[i + 1..])
    ensures InChunk(chunk[i := Some(x)]) == InChunk(chunk[..i]) + [x] + InChunk(chunk[i + 1..])
  {
    hide InChunk;
    InChunkAround(chunk, i, chunk[i]);
    InChunkAround(chunk, i, Some(x));
    assert chunk[i := chunk[i]] == chunk;
    NothingBefore(InChunk(chunk[..i]));
  }

  lemma FreshItems<T>(n: Slots, x: T)
    ensures InChunk(FreshChunk(n, x)) == [x]
  {
    hide InChunk;
    var rest: Chunk<T> := seq(n - 1, _ => None);
    NextSlot(Some(x), rest);
    InChunkEmpty(rest);
    NothingBefore([x]);
  }

  lemma PlaceShaped<T>(chunks: seq<Chunk<T>>, n: Slots, x: T)
    requires Shaped(chunks, n)
    ensures Shaped(Place(chunks, n, x), n)
  {
    if HasFree(chunks) {
      var k := FreeChunk(chunks);
      assert chunks[k] in chunks;
      var c := chunks[k][FreeSlot(chunks[k]) := Some(x)];
      assert c[FreeSlot(chunks[k])].Some?;
    } else {
      assert FreshChunk(n, x)[0].Some?;
    }
  }

  /** With one slot per chunk no slot is ever free, so a new item always comes first. */
  lemma OneSlot<T>(chunks: seq<Chunk<T>>)
    requires Shaped(chunks, 1)
    ensures !HasFree(chunks) && Position(chunks) == 0
  {}

  // ----- Items loaded one after the other

  function PlaceAll<T>(xs: seq<T>, n: Slots): seq<Chunk<T>> {
    if xs == [] then [] else Place(PlaceAll(xs[..|xs| - 1], n), n, xs[|xs| - 1])
  }

  /** The order in which a container that was filled with `xs` enumerates them: the newest chunk first. */
  function Enumerated<T>(xs: seq<T>, n: Slots): (r: seq<T>)
    ensures |r| == |xs| && multiset(r) == multiset(xs)
    decreases |xs|
  {
    if |xs| <= n then xs else
      assert xs == xs[..n] + xs[n..];
      Enumerated(xs[n..], n) + xs[..n]
  }

  function Filled<T>(xs: seq<T>, n: Slots): Chunk<T>
    requires |xs| <= n
  {
    seq(n, i requires 0 <= i < n => if i < |xs| then Some(xs[i]) else None)
  }

  /** The chunks of a container that was filled with `xs`. */
  function Stacked<T>(xs: seq<T>, n: Slots): seq<Chunk<T>>
    decreases |xs|
  {
    if xs == [] then [] else if |xs| <= n then [Filled(xs, n)] else Stacked(xs[n..], n) + [Filled(xs[..n], n)]
  }

  lemma FilledIs<T>(xs: seq<T>, n: Slots)
    requires |xs| <= n
    ensures InChunk(Filled(xs, n)) == xs && (Full(Filled(xs, n)) <==> |xs| == n)
    ensures |xs| < n ==> FreeSlot(Filled(xs, n)) == |xs|
  {
    hide InChunk, FreeSlot, Filled, Full, Empty;
    var c := Filled(xs, n);
    FilledParts(xs, n);
    InChunkConcat(c[..|xs|], c[|xs|..]);
    InChunkFull(c[..|xs|]);
    InChunkEmpty(c[|xs|..]);
    SameItems(InChunk(c[..|xs|]), xs);
    NothingBefore(xs);
    if |xs| < n {
      FreeSlotIs(c, |xs|);
    }
  }

  lemma FreeSlotIs<T>(chunk: Chunk<T>, i: nat)
    requires i < |chunk| && chunk[i].None? && Full(chunk[..i])
    ensures !Full(chunk) && FreeSlot(chunk) == i
  {
    hide FreeSlot;
    assert !Full(chunk);
    var k := FreeSlot(chunk);
    assert forall j :: 0 <= j < i ==> chunk[..i][j] == chunk[j];
    assert forall j :: 0 <= j < k ==> chunk[..k][j] == chunk[j];
  }

  lemma FilledParts<T>(xs: seq<T>, n: Slots)
    requires |xs| <= n
    ensures var c := Filled(xs, n);
            && |c| == n && c == c[..|xs|] + c[|xs|..] && Full(c[..|xs|]) && Empty(c[|xs|..]) && (forall i :: 0 <= i < |xs| ==> c[i] == Some(xs[i]))
            && (Full(c) <==> |xs| == n) && (|xs| < n ==> c[|xs|].None?)
  {
    var c := Filled(xs, n);
    assert |xs| < n ==> c[|xs|].None?;
  }

  lemma SameItems<T>(a: seq<T>, b: seq<T>)
    requires |a| == |b| && forall i :: 0 <= i < |a| ==> a[i] == b[i]
    ensures a == b
  {}

  lemma {:induction false} ItemsStacked<T>(xs: seq<T>, n: Slots)
    ensures Items(Stacked(xs, n)) == Enumerated(xs, n)
    decreases |xs|
  {
    hide Items, InChunk, Filled;
    Nothing<T>();
    if 0 < |xs| <= n {
      FilledIs(xs, n);
      ItemsOne(Filled(xs, n));
    } else if |xs| > n {
      ItemsStacked(xs[n..], n);
      FilledIs(xs[..n], n);
      ItemsOne(Filled(xs[..n], n));
      ItemsConcat(Stacked(xs[n..], n), [Filled(xs[..n], n)]);
    }
  }

  lemma PlaceFront<T>(chunks: seq<Chunk<T>>, last: Chunk<T>, n: Slots, x: T)
    requires Full(last)
    ensures Place(chunks + [last], n, x) == Place(chunks, n, x) + [last]
  {
    hide Full, FreeSlot, FreshChunk;
    var all := chunks + [last];
    assert HasFree(all) <==> HasFree(chunks) by {
      assert all[|chunks|] == last;
      if HasFree(chunks) {
        var k := FreeChunk(chunks);
        assert all[k] == chunks[k];
      }
    }
    if HasFree(chunks) {
      var k := FreeChunk(chunks);
      assert all[k] == chunks[k];
      assert FreeChunk(all) == k;
    } else {
      Assoc([FreshChunk(n, x)], chunks, [last]);
    }
  }

  lemma PlaceInRoom<T>(xs: seq<T>, n: Slots, x: T)
    requires 0 < |xs| < n
    ensures Place([Filled(xs, n)], n, x) == [Filled(xs + [x], n)]
  {
    hide Full, FreeSlot, InChunk;
    FilledIs(xs, n);
    var cs := [Filled(xs, n)];
    assert !Full(cs[0]);
    assert FreeChunk(cs) == 0;
    assert Filled(xs, n)[|xs| := Some(x)] == Filled(xs + [x], n);
  }

  lemma FreshIsFilled<T>(n: Slots, x: T)
    ensures FreshChunk(n, x) == Filled([x], n)
  {}

  lemma {:induction false} PlaceStacked<T>(xs: seq<T>, n: Slots, x: T)
    ensures Place(Stacked(xs, n), n, x) == Stacked(xs + [x], n)
    decreases |xs|
  {
    hide Filled, Full, InChunk, FreeSlot, FreeChunk, FreshChunk;
    var all := xs + [x];
    FreshIsFilled(n, x);
    if xs == [] {
      assert [Filled([x], n)] + [] == [Filled([x], n)];
      assert all == [x];
    } else if |xs| < n {
      PlaceInRoom(xs, n, x);
    } else {
      hide Place;
      assert all[n..] == xs[n..] + [x] && all[..n] == xs[..n];
      FilledIs(xs[..n], n);
      if |xs| == n {
        assert xs[n..] == [] && xs[..n] == xs;
        NothingStacked<T>(n);
      }
      PlaceFront(Stacked(xs[n..], n), Filled(xs[..n], n), n, x);
      PlaceStacked(xs[n..], n, x);
      StackedMore(xs, n);
      StackedMore(all, n);
    }
  }

  lemma StackedMore<T>(xs: seq<T>, n: Slots)
    requires |xs| >= n
    ensures Stacked(xs, n) == Stacked(xs[n..], n) + [Filled(xs[..n], n)]
  {
    if |xs| == n {
      assert xs[n..] == [] && xs[..n] == xs;
    }
  }

  /** Filling an empty container: which item comes when. */
  lemma {:induction false} PlaceAllItems<T>(xs: seq<T>, n: Slots)
    ensures PlaceAll(xs, n) == Stacked(xs, n) && Items(PlaceAll(xs, n)) == Enumerated(xs, n)
  {
    hide Place, Stacked, Items, Enumerated;
    NothingStacked<T>(n);
    if xs != [] {
      var pre := xs[..|xs| - 1];
      PlaceAllItems(pre, n);
      PlaceStacked(pre, n, xs[|xs| - 1]);
      assert pre + [xs[|xs| - 1]] == xs;
    }
    ItemsStacked(xs, n);
  }

  lemma NothingStacked<T>(n: Slots)
    ensures Stacked<T>([], n) == []
  {}

  /** From the place in the enumeration back to the number of the item. */
  function Source(len: nat, n: Slots, p: nat): (k: nat)
    requires p < len
    ensures k < len
    decreases len
  {
    if len <= n then p else if p < len - n then n + Source(len - n, n, p) else p - (len - n)
  }

  lemma {:induction false} EnumeratedAt<T>(xs: seq<T>, n: Slots, p: nat)
    requires p < |xs|
    ensures Enumerated(xs, n)[p] == xs[Source(|xs|, n, p)]
    decreases |xs|
  {
    if |xs| > n {
      EnumeratedMore(xs, n);
      hide Enumerated;
      if p < |xs| - n {
        EnumeratedAt(xs[n..], n, p);
      }
    }
  }

  lemma EnumeratedMore<T>(xs: seq<T>, n: Slots)
    requires |xs| > n
    ensures Enumerated(xs, n) == Enumerated(xs[n..], n) + xs[..n]
  {}

  // ----- Removal

  function WithoutIn<T>(chunk: Chunk<T>, p: T -> bool): (r: Chunk<T>)
    ensures |r| == |chunk|
  {
    if chunk == [] then []
    else if Hit(chunk[0], p) then [None] + chunk[1..]
    else [chunk[0]] + WithoutIn(chunk[1..], p)
  }

  predicate Hit<T>(slot: Option<T>, p: T -> bool) { slot.Some? && p(slot.value) }

  predicate AnyHit<T>(chunk: Chunk<T>, p: T -> bool) { exists i :: 0 <= i < |chunk| && Hit(chunk[i], p) }

  /** The first item with the property goes; the others keep their slots. */
  function WithoutFirst<T>(chunks: seq<Chunk<T>>, p: T -> bool): seq<Chunk<T>> {
    if chunks == [] then []
    else if AnyHit(chunks[0], p) then [WithoutIn(chunks[0], p)] + chunks[1..]
    else [chunks[0]] + WithoutFirst(chunks[1..], p)
  }

  /** The number of the first item with the property, or the length. */
  function First<T>(items: seq<T>, p: T -> bool): (k: nat)
    ensures k <= |items| && (k < |items| ==> p(items[k])) && forall i :: 0 <= i < k ==> !p(items[i])
  {
    if items == [] || p(items[0]) then 0 else First(items[1..], p) + 1
  }

  function Without<T>(items: seq<T>, k: nat): seq<T>
    requires k < |items|
  {
    items[..k] + items[k + 1..]
  }

  function WithoutFirstOf<T>(items: seq<T>, p: T -> bool): seq<T> {
    var k := First(items, p);
    if k < |items| then Without(items, k) else items
  }

  /** Empty chunks go back to the pool. */
  function Compact<T>(chunks: seq<Chunk<T>>): seq<Chunk<T>> {
    if chunks == [] then [] else (if Empty(chunks[0]) then [] else [chunks[0]]) + Compact(chunks[1..])
  }

  lemma {:induction false} CompactItems<T>(chunks: seq<Chunk<T>>)
    ensures Items(Compact(chunks)) == Items(chunks)
  {
    hide InChunk, Items, Empty;
    if chunks != [] {
      var x, rest := chunks[0], chunks[1..];
      assert chunks == [x] + rest;
      CompactItems(rest);
      NextChunk(x, rest);
      NextChunk(x, Compact(rest));
      NothingBefore(Compact(rest));
      if Empty(x) {
        InChunkEmpty(x);
        NothingBefore(Items(rest));
      }
    }
  }

  lemma {:induction false} CompactShaped<T>(chunks: seq<Chunk<T>>, n: Slots)
    requires forall i :: 0 <= i < |chunks| ==> |chunks[i]| == n
    ensures Shaped(Compact(chunks), n)
  {
    if chunks != [] {
      CompactShaped(chunks[1..], n);
    }
  }

  lemma FirstStep<T>(x: T, rest: seq<T>, p: T -> bool)
    ensures First([x] + rest, p) == if p(x) then 0 else First(rest, p) + 1
    ensures WithoutFirstOf([x] + rest, p) == if p(x) then rest else [x] + WithoutFirstOf(rest, p)
  {
    var all := [x] + rest;
    assert all[1..] == rest;
    var k := First(rest, p);
    if p(x) {
      assert all[..0] + all[1..] == rest;
    } else if k < |rest| {
      assert all[..k + 1] == [x] + rest[..k] && all[k + 2..] == rest[k + 1..];
      Assoc([x], rest[..k], rest[k + 1..]);
    }
  }

  lemma {:induction false} FirstConcat<T>(a: seq<T>, b: seq<T>, p: T -> bool)
    ensures WithoutFirstOf(a + b, p) == if First(a, p) < |a| then WithoutFirstOf(a, p) + b else a + WithoutFirstOf(b, p)
  {
    hide First, WithoutFirstOf;
    if a == [] {
      NothingBefore(b);
      NothingBefore(WithoutFirstOf(b, p));
    } else {
      var x, rest := a[0], a[1..];
      assert a == [x] + rest;
      FirstStep(x, rest, p);
      FirstStep(x, rest + b, p);
      Assoc([x], rest, b);
      if !p(x) {
        FirstConcat(rest, b, p);
        Assoc([x], WithoutFirstOf(rest, p), b);
        Assoc([x], rest, WithoutFirstOf(b, p));
      }
    }
  }

  lemma {:induction false} WithoutInItems<T>(chunk: Chunk<T>, p: T -> bool)
    ensures AnyHit(chunk, p) <==> First(InChunk(chunk), p) < |InChunk(chunk)|
    ensures AnyHit(chunk, p) ==> InChunk(WithoutIn(chunk, p)) == WithoutFirstOf(InChunk(chunk), p)
  {
    hide InChunk, First, WithoutFirstOf;
    Nothing<T>();
    if chunk != [] {
      var x, rest := chunk[0], chunk[1..];
      assert chunk == [x] + rest;
      assert AnyHit(chunk, p) <==> Hit(x, p) || AnyHit(rest, p) by { AnyStep(x, rest, p); }
      WithoutInItems(rest, p);
      NextSlot(x, rest);
      NextSlot(x, WithoutIn(rest, p));
      NextSlot(None, rest);
      NothingBefore(InChunk(rest));
      if x.Some? {
        FirstStep(x.value, InChunk(rest), p);
      } else {
        NothingBefore(InChunk(WithoutIn(rest, p)));
      }
    }
  }

  lemma AnyStep<T>(x: Option<T>, rest: Chunk<T>, p: T -> bool)
    ensures AnyHit([x] + rest, p) <==> Hit(x, p) || AnyHit(rest, p)
  {
    var all := [x] + rest;
    assert all[0] == x && forall i :: 0 <= i < |rest| ==> all[i + 1] == rest[i];
  }

  /** Removal by a search takes the first item that the enumeration meets. */
  lemma {:induction false} WithoutFirstItems<T>(chunks: seq<Chunk<T>>, p: T -> bool)
    ensures Items(WithoutFirst(chunks, p)) == WithoutFirstOf(Items(chunks), p)
  {
    hide InChunk, Items, First, WithoutFirstOf, WithoutIn, AnyHit;
    Nothing<T>();
    if chunks == [] {
      NoneFirst(p);
    } else {
      var x, rest := chunks[0], chunks[1..];
      assert chunks == [x] + rest;
      WithoutInItems(x, p);
      WithoutFirstItems(rest, p);
      NextChunk(x, rest);
      NextChunk(x, WithoutFirst(rest, p));
      NextChunk(WithoutIn(x, p), rest);
      FirstConcat(InChunk(x), Items(rest), p);
    }
  }

  lemma {:induction false} WithoutFirstSizes<T>(chunks: seq<Chunk<T>>, p: T -> bool, n: Slots)
    requires forall i :: 0 <= i < |chunks| ==> |chunks[i]| == n
    ensures forall i :: 0 <= i < |WithoutFirst(chunks, p)| ==> |WithoutFirst(chunks, p)[i]| == n
  {
    hide WithoutIn, AnyHit;
    if chunks != [] {
      WithoutFirstSizes(chunks[1..], p, n);
    }
  }

  lemma NoneFirst<T>(p: T -> bool)
    ensures WithoutFirstOf([], p) == []
  {}

  // ----- Removal of all, and changes in place

  function Kept<T>(items: seq<T>, keep: T -> bool): seq<T> {
    if items == [] then [] else (if keep(items[0]) then [items[0]] else []) + Kept(items[1..], keep)
  }

  function KeptSlot<T>(slot: Option<T>, keep: T -> bool): Option<T> { if slot.Some? && !keep(slot.value) then None else slot }

  function KeptIn<T>(chunk: Chunk<T>, keep: T -> bool): (r: Chunk<T>)
    ensures |r| == |chunk|
  {
    seq(|chunk|, i requires 0 <= i < |chunk| => KeptSlot(chunk[i], keep))
  }

  function KeptChunks<T>(chunks: seq<Chunk<T>>, keep: T -> bool): (r: seq<Chunk<T>>)
    ensures |r| == |chunks|
  {
    seq(|chunks|, i requires 0 <= i < |chunks| => KeptIn(chunks[i], keep))
  }

  lemma {:induction false} KeptConcat<T>(a: seq<T>, b: seq<T>, keep: T -> bool)
    ensures Kept(a + b, keep) == Kept(a, keep) + Kept(b, keep)
  {
    if a == [] {
      NothingBefore(b);
      NothingBefore(Kept(b, keep));
    } else {
      var x, rest := a[0], a[1..];
      KeptConcat(rest, b, keep);
      assert (a + b)[1..] == rest + b;
      Assoc(if keep(x) then [x] else [], Kept(rest, keep), Kept(b, keep));
    }
  }

  lemma {:induction false} KeptInItems<T>(chunk: Chunk<T>, keep: T -> bool)
    ensures InChunk(KeptIn(chunk, keep)) == Kept(InChunk(chunk), keep)
  {
    if chunk != [] {
      var x, rest := chunk[0], chunk[1..];
      KeptInItems(rest, keep);
      assert KeptIn(chunk, keep)[1..] == KeptIn(rest, keep);
      KeptConcat(IfSome(x), InChunk(rest), keep);
    }
  }

  lemma {:induction false} KeptItems<T>(chunks: seq<Chunk<T>>, keep: T -> bool)
    ensures Items(KeptChunks(chunks, keep)) == Kept(Items(chunks), keep)
  {
    if chunks != [] {
      var x, rest := chunks[0], chunks[1..];
      KeptItems(rest, keep);
      KeptInItems(x, keep);
      assert KeptChunks(chunks, keep)[1..] == KeptChunks(rest, keep);
      KeptConcat(InChunk(x), Items(rest), keep);
    }
  }

  function MappedIn<T>(chunk: Chunk<T>, f: T -> T): (r: Chunk<T>)
    ensures |r| == |chunk|
  {
    seq(|chunk|, i requires 0 <= i < |chunk| => if chunk[i].Some? then Some(f(chunk[i].value)) else None)
  }

  /** Items changed where they are. */
  function Mapped<T>(chunks: seq<Chunk<T>>, f: T -> T): (r: seq<Chunk<T>>)
    ensures |r| == |chunks|
  {
    seq(|chunks|, i requires 0 <= i < |chunks| => MappedIn(chunks[i], f))
  }

  lemma {:induction false} MappedInItems<T>(chunk: Chunk<T>, f: T -> T)
    ensures |InChunk(MappedIn(chunk, f))| == |InChunk(chunk)|
    ensures forall i :: 0 <= i < |InChunk(chunk)| ==> InChunk(MappedIn(chunk, f))[i] == f(InChunk(chunk)[i])
  {
    if chunk != [] {
      MappedInItems(chunk[1..], f);
      assert MappedIn(chunk, f)[1..] == MappedIn(chunk[1..], f);
    }
  }

  lemma {:induction false} MappedItems<T>(chunks: seq<Chunk<T>>, f: T -> T)
    ensures |Items(Mapped(chunks, f))| == |Items(chunks)|
    ensures forall i :: 0 <= i < |Items(chunks)| ==> Items(Mapped(chunks, f))[i] == f(Items(chunks)[i])
  {
    if chunks != [] {
      MappedItems(chunks[1..], f);
      MappedInItems(chunks[0], f);
      assert Mapped(chunks, f)[1..] == Mapped(chunks[1..], f);
    }
  }

  lemma MappedShaped<T>(chunks: seq<Chunk<T>>, f: T -> T, n: Slots)
    requires Shaped(chunks, n)
    ensures Shaped(Mapped(chunks, f), n)
  {
    var r := Mapped(chunks, f);
    forall i | 0 <= i < |r|
      ensures |r[i]| == n && !Empty(r[i])
    {
      var j :| 0 <= j < n && chunks[i][j].Some?;
      assert r[i][j].Some?;
    }
  }

  function Except<T>(p: T -> bool): T -> bool { x => !p(x) }

  // ----- The loops of the code

  /** How many items are enumerated before a slot. */
  ghost function Before<T>(chunks: seq<Chunk<T>>, k: nat, i: nat): nat
    requires k < |chunks| && i <= |chunks[k]|
  {
    |Items(chunks[..k])| + |InChunk(chunks[k][..i])|
  }

  lemma SlotItem<T>(chunks: seq<Chunk<T>>, k: nat, i: nat, x: T)
    requires k < |chunks| && i < |chunks[k]| && chunks[k][i].Some?
    ensures Before(chunks, k, i) < |Items(chunks)| && Items(chunks)[Before(chunks, k, i)] == chunks[k][i].value
    ensures Items(chunks[k := chunks[k][i := Some(x)]]) == Items(chunks)[Before(chunks, k, i) := x]
  {
    hide Items, InChunk;
    var c := chunks[k];
    assert chunks[k := c] == chunks && c[i := c[i]] == c;
    ItemsAround(chunks, k, c);
    ItemsAround(chunks, k, c[i := Some(x)]);
    InChunkAround(c, i, c[i]);
    InChunkAround(c, i, Some(x));
    Inside(Items(chunks[..k]), InChunk(c[..i]), InChunk(c[i + 1..]), Items(chunks[k + 1..]), c[i].value, x);
  }

  lemma Inside<T>(a: seq<T>, before: seq<T>, after: seq<T>, b: seq<T>, x: T, y: T)
    ensures (a + (before + [x] + after) + b)[|a| + |before|] == x
    ensures (a + (before + [x] + after) + b)[|a| + |before| := y] == a + (before + [y] + after) + b
  {}

  lemma BeforeNext<T>(chunks: seq<Chunk<T>>, k: nat, i: nat)
    requires k < |chunks| && i < |chunks[k]|
    ensures Before(chunks, k, i + 1) == Before(chunks, k, i) + if chunks[k][i].Some? then 1 else 0
  {
    hide Items, InChunk;
    var c := chunks[k];
    assert c[..i + 1] == c[..i] + [c[i]];
    InChunkConcat(c[..i], [c[i]]);
    InChunkOne(c[i]);
  }

  lemma BeforeChunk<T>(chunks: seq<Chunk<T>>, k: nat)
    requires k < |chunks|
    ensures Before(chunks, k, 0) == |Items(chunks[..k])| && Before(chunks, k, |chunks[k]|) == |Items(chunks[..k + 1])|
  {
    hide Items, InChunk;
    Nothing<T>();
    assert chunks[k][..0] == [] && chunks[k][..|chunks[k]|] == chunks[k];
    assert chunks[..k + 1] == chunks[..k] + [chunks[k]];
    ItemsConcat(chunks[..k], [chunks[k]]);
    ItemsOne(chunks[k]);
  }

  lemma {:induction false} WithoutInAt<T>(chunk: Chunk<T>, p: T -> bool, i: nat)
    requires i < |chunk| && Hit(chunk[i], p) && forall j :: 0 <= j < i ==> !Hit(chunk[j], p)
    ensures WithoutIn(chunk, p) == chunk[i := None]
  {
    if i > 0 {
      WithoutInAt(chunk[1..], p, i - 1);
    }
  }

  lemma {:induction false} WithoutFirstAt<T>(chunks: seq<Chunk<T>>, p: T -> bool, k: nat)
    requires k <= |chunks| && (k < |chunks| ==> AnyHit(chunks[k], p)) && forall j :: 0 <= j < k ==> !AnyHit(chunks[j], p)
    ensures WithoutFirst(chunks, p) == if k < |chunks| then chunks[k := WithoutIn(chunks[k], p)] else chunks
  {
    hide AnyHit, WithoutIn;
    if k > 0 {
      WithoutFirstAt(chunks[1..], p, k - 1);
      assert chunks == [chunks[0]] + chunks[1..];
    }
  }

  lemma {:induction false} CompactNone<T>(chunks: seq<Chunk<T>>, n: Slots)
    requires Shaped(chunks, n)
    ensures Compact(chunks) == chunks
  {
    hide Empty;
    if chunks != [] {
      CompactNone(chunks[1..], n);
    }
  }

  lemma {:induction false} CompactSnoc<T>(chunks: seq<Chunk<T>>, x: Chunk<T>)
    ensures Compact(chunks + [x]) == Compact(chunks) + if Empty(x) then [] else [x]
  {
    hide Empty;
    var all := chunks + [x];
    if chunks == [] {
      assert all == [x] && [x][1..] == [];
    } else {
      CompactSnoc(chunks[1..], x);
      assert all[1..] == chunks[1..] + [x];
    }
  }

  class Multiset<T> {
    const slots: Slots
    var chunks: seq<Chunk<T>>

    ghost predicate Valid()
      reads this
    {
      Shaped(chunks, slots)
    }

    function Contents(): seq<T>
      reads this
    {
      Items(chunks)
    }

    constructor (n: Slots)
      ensures Valid() && slots == n && chunks == [] && Contents() == []
    {
      slots, chunks := n, [];
    }

    /** `memory` is the answer of the allocator, which is asked only when no slot is free. */
    method Emplace(x: T, memory: bool) returns (ok: bool)
      requires Valid()
      modifies this`chunks
      ensures Valid() && (ok <==> HasFree(old(chunks)) || memory)
      ensures chunks == if ok then Place(old(chunks), slots, x) else old(chunks)
      ensures Position(old(chunks)) <= |old(Contents())|
      ensures ok ==> Contents() == InsertAt(old(Contents()), Position(old(chunks)), x)
    {
      hide Items, Position, InsertAt;
      PlaceItems(chunks, slots, x);
      PlaceShaped(chunks, slots, x);
      var k := 0;
      while k < |chunks|
        invariant 0 <= k <= |chunks| && forall j :: 0 <= j < k ==> Full(chunks[j])
      {
        var i := 0;
        while i < slots
          invariant 0 <= i <= slots && forall j :: 0 <= j < i ==> chunks[k][j].Some?
        {
          if chunks[k][i].None? {
            assert !Full(chunks[k]);
            assert FreeChunk(chunks) == k && FreeSlot(chunks[k]) == i;
            chunks := chunks[k := chunks[k][i := Some(x)]];
            return true;
          }
          i := i + 1;
        }
        k := k + 1;
      }
      if !memory {
        return false;
      }
      chunks := [FreshChunk(slots, x)] + chunks;
      return true;
    }

    method CompactAll()
      requires forall i :: 0 <= i < |chunks| ==> |chunks[i]| == slots
      modifies this`chunks
      ensures Valid() && chunks == Compact(old(chunks))
    {
      hide Compact, Shaped;
      CompactShaped(chunks, slots);
      var left: seq<Chunk<T>> := [];
      var k := 0;
      NoneCompact<T>();
      assert chunks[..0] == [];
      while k < |chunks|
        invariant 0 <= k <= |chunks| && chunks == old(chunks) && left == Compact(chunks[..k])
      {
        var i := 0;
        while i < slots && chunks[k][i].None?
          invariant 0 <= i <= slots && chunks == old(chunks) && forall j :: 0 <= j < i ==> chunks[k][j].None?
        {
          i := i + 1;
        }
        CompactSnoc(chunks[..k], chunks[k]);
        assert chunks[..k + 1] == chunks[..k] + [chunks[k]];
        if i < slots {
          assert !Empty(chunks[k]);
          left := left + [chunks[k]];
        }
        k := k + 1;
      }
      assert chunks[..k] == chunks;
      chunks := left;
    }

    method RemoveFirstWhere(p: T -> bool)
      requires Valid()
      modifies this`chunks
      ensures Valid() && chunks == Compact(WithoutFirst(old(chunks), p))
      ensures Contents() == WithoutFirstOf(old(Contents()), p)
    {
      hide Items, Compact, WithoutFirst, WithoutIn, WithoutFirstOf, Hit;
      ghost var before := chunks;
      WithoutFirstItems(before, p);
      CompactItems(WithoutFirst(before, p));
      var k := 0;
      while k < |chunks|
        invariant 0 <= k <= |chunks| && chunks == before && forall j :: 0 <= j < k ==> !AnyHit(chunks[j], p)
      {
        var i := 0;
        while i < slots
          invariant 0 <= i <= slots && chunks == before && forall j :: 0 <= j < i ==> !Hit(chunks[k][j], p)
        {
          var slot := chunks[k][i];
          if slot.Some? && p(slot.value) {
            HitIs(slot, p);
            WithoutInAt(chunks[k], p, i);
            WithoutFirstAt(chunks, p, k);
            chunks := chunks[k := chunks[k][i := None]];
            CompactAll();
            return;
          }
          HitIs(slot, p);
          i := i + 1;
        }
        k := k + 1;
      }
      WithoutFirstAt(chunks, p, k);
      CompactNone(chunks, slots);
    }

    method RemoveAllWhere(p: T -> bool)
      requires Valid()
      modifies this`chunks
      ensures Valid() && chunks == Compact(KeptChunks(old(chunks), Except(p)))
      ensures Contents() == Kept(old(Contents()), Except(p))
    {
      hide Items, Compact, Kept;
      ghost var before := chunks;
      KeptItems(before, Except(p));
      CompactItems(KeptChunks(before, Except(p)));
      var k := 0;
      while k < |chunks|
        invariant 0 <= k <= |chunks| == |before| && forall j :: 0 <= j < |chunks| ==> |chunks[j]| == slots == |before[j]|
        invariant forall j :: 0 <= j < k ==> chunks[j] == KeptIn(before[j], Except(p))
        invariant forall j :: k <= j < |chunks| ==> chunks[j] == before[j]
      {
        var i := 0;
        while i < slots
          invariant 0 <= i <= slots && |chunks| == |before| && forall j :: 0 <= j < |chunks| ==> |chunks[j]| == slots
          invariant forall j :: 0 <= j < |chunks| && j != k ==> chunks[j] == if j < k then KeptIn(before[j], Except(p)) else before[j]
          invariant forall j :: 0 <= j < slots ==> chunks[k][j] == if j < i then KeptSlot(before[k][j], Except(p)) else before[k][j]
        {
          var slot := chunks[k][i];
          if slot.Some? && p(slot.value) {
            chunks := chunks[k := chunks[k][i := None]];
          }
          i := i + 1;
        }
        assert chunks[k] == KeptIn(before[k], Except(p));
        k := k + 1;
      }
      assert chunks == KeptChunks(before, Except(p));
      CompactAll();
    }

    /** The slot of an item. */
    method Locate(index: nat) returns (k: nat, i: nat)
      requires Valid()
      ensures k < |chunks| <==> index < |Contents()|
      ensures k < |chunks| ==> i < slots && chunks[k][i].Some? && Before(chunks, k, i) == index
    {
      hide Items, InChunk, Before;
      var count := 0;
      k, i := 0, 0;
      Nothing<T>();
      assert chunks[..0] == [];
      while k < |chunks|
        invariant 0 <= k <= |chunks| && count == |Items(chunks[..k])| <= index
      {
        i := 0;
        BeforeChunk(chunks, k);
        while i < slots
          invariant 0 <= i <= slots && count == Before(chunks, k, i) <= index
        {
          BeforeNext(chunks, k, i);
          if chunks[k][i].Some? {
            if count == index {
              SlotItem(chunks, k, i, chunks[k][i].value);
              return;
            }
            count := count + 1;
          }
          i := i + 1;
        }
        k := k + 1;
      }
      assert chunks[..k] == chunks;
    }

    method GetByIndex(index: nat) returns (r: Option<T>)
      requires Valid()
      ensures r == if index < |Contents()| then Some(Contents()[index]) else None
    {
      hide Items, Before;
      var k, i := Locate(index);
      if k < |chunks| {
        SlotItem(chunks, k, i, chunks[k][i].value);
        return chunks[k][i];
      }
      return None;
    }

    /** Assignment to the item that the search by index finds. */
    method AssignByIndex(index: nat, x: T)
      requires Valid() && index < |Contents()|
      modifies this`chunks
      ensures Valid() && Contents() == old(Contents())[index := x]
    {
      hide Items, Before;
      var k, i := Locate(index);
      SlotItem(chunks, k, i, x);
      assert chunks[k][i := Some(x)][i].Some?;
      chunks := chunks[k := chunks[k][i := Some(x)]];
    }
  }

  lemma NoneCompact<T>()
    ensures Compact<T>([]) == []
  {}

  lemma HitIs<T>(slot: Option<T>, p: T -> bool)
    ensures Hit(slot, p) <==> slot.Some? && p(slot.value)
  {}
}
