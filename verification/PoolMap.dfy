/**
  The block pool, the per-user block limit on top of it, and the key-value container whose entries live
  in pool blocks of a few slots each.
 */
module PoolMap {
  import opened Bits
  import opened Frames

  // ----- The pool

  lemma HeadTaken(free: seq<nat>)
    requires free != [] && NoRepeats(free)
    ensures NoRepeats(free[1..]) && free[0] in free && forall x :: x in free[1..] <==> x in free && x != free[0]
  {
    assert free == [free[0]] + free[1..];
    forall x | x in free[1..]
      ensures x != free[0]
    {
      var k :| 0 <= k < |free[1..]| && free[1..][k] == x;
      assert free[k + 1] == x;
    }
  }

  class PoolAllocator {
    const numBlocks: nat
    /** The free list, head first. */
    var free: seq<nat>
    var used: nat
    var maxUsed: nat
    /** The blocks handed out and not returned. */
    ghost var taken: set<nat>

    /** The free list and the blocks in use partition the pool. */
    ghost predicate Valid()
      reads this
    {
      && NoRepeats(free) && (forall b <- taken :: b < numBlocks)
      && (forall b :: b in free <==> 0 <= b < numBlocks && b !in taken)
      && used == |taken| && used + |free| == numBlocks && used <= maxUsed <= numBlocks
    }

    constructor (n: nat)
      requires n > 0
      ensures Valid() && numBlocks == n && taken == {} && |free| == n
    {
      numBlocks := n;
      free := seq(n, i => i);
      used, maxUsed, taken := 0, 0, {};
      new;
      forall b | 0 <= b < n
        ensures b in free
      {
        assert free[b] == b;
      }
    }

    /** A block that nobody else has, unless the pool is exhausted. */
    method Allocate() returns (block: Option<nat>)
      requires Valid()
      modifies this
      ensures Valid() && (block.None? <==> old(free) == [])
      ensures block.None? ==> taken == old(taken) && free == old(free)
      ensures block.Some? ==> block.value !in old(taken) && taken == old(taken) + {block.value} && |free| == old(|free|) - 1
    {
      if free == [] {
        return None;
      }
      var b := free[0];
      HeadTaken(free);
      free := free[1..];
      taken := taken + {b};
      used := used + 1;
      if used > maxUsed {
        maxUsed := used;
      }
      return Some(b);
    }

    method Deallocate(block: nat)
      requires Valid() && block in taken
      modifies this
      ensures Valid() && taken == old(taken) - {block} && free == [block] + old(free)
    {
      free := [block] + free;
      taken := taken - {block};
      used := used - 1;
    }
  }

  // ----- The limit

  /** What the limiter counts, what is really out, and how often the pool refused an attempt that had been counted. */
  datatype Limit = Limit(used: nat, outstanding: nat, refusals: nat)

  datatype Request = Try(poolHasBlock: bool) | Return

  /** An attempt is counted before the pool has answered it. */
  function Limited(l: Limit, r: Request, max: nat): Limit {
    match r
    case Try(has) =>
      if l.used >= max then l
      else if has then l.(used := l.used + 1, outstanding := l.outstanding + 1)
      else l.(used := l.used + 1, refusals := l.refusals + 1)
    case Return => if l.outstanding == 0 || l.used == 0 then l else l.(used := l.used - 1, outstanding := l.outstanding - 1)
  }

  ghost function LimitedRun(l: Limit, rs: seq<Request>, max: nat): Limit
    decreases |rs|
  {
    if rs == [] then l else LimitedRun(Limited(l, rs[0], max), rs[1..], max)
  }

  ghost predicate Counted(l: Limit, max: nat) { l.used == l.outstanding + l.refusals && l.used <= max }

  /** Over every run the count exceeds the blocks out by exactly the number of refusals, which never goes down. */
  lemma {:induction false} CountExact(l: Limit, rs: seq<Request>, max: nat)
    requires Counted(l, max)
    ensures Counted(LimitedRun(l, rs, max), max) && LimitedRun(l, rs, max).refusals >= l.refusals
    decreases |rs|
  {
    if rs != [] {
      CountExact(Limited(l, rs[0], max), rs[1..], max);
    }
  }

  /** A limiter grants exactly while blocks out and refusals together stay below the limit, so each refusal costs a
      block for good: after as many refusals as the limit allows blocks, nothing is ever granted again. */
  lemma {:induction false} Exhausted(l: Limit, rs: seq<Request>, max: nat)
    requires Counted(l, max) && l.refusals == max
    ensures LimitedRun(l, rs, max) == l && l.outstanding == 0
    decreases |rs|
  {
    if rs != [] {
      Exhausted(Limited(l, rs[0], max), rs[1..], max);
    }
  }

  class LimitedPoolAllocator {
    const pool: PoolAllocator
    const maxBlocks: nat
    var usedBlocks: nat
    ghost var outstanding: set<nat>
    ghost var refusals: nat

    /** The count is the blocks out and the refusals, and never exceeds the limit. */
    ghost predicate Valid()
      reads this, pool
    {
      pool.Valid() && outstanding <= pool.taken && Counted(View(), maxBlocks)
    }

    ghost function View(): Limit
      reads this
    {
      Limit(usedBlocks, |outstanding|, refusals)
    }

    constructor (p: PoolAllocator, max: nat)
      requires p.Valid()
      ensures Valid() && pool == p && outstanding == {} && usedBlocks == 0
      ensures maxBlocks == if max < 65535 then max else 65535
    {
      pool, usedBlocks, outstanding, refusals := p, 0, {}, 0;
      maxBlocks := if max < 65535 then max else 65535;
    }

    method Allocate() returns (block: Option<nat>)
      requires Valid()
      modifies this, pool
      ensures Valid() && View() == Limited(old(View()), Try(old(pool.free) != []), maxBlocks)
      ensures block.Some? <==> old(usedBlocks) < maxBlocks && old(pool.free) != []
      ensures block.Some? ==> block.value !in old(pool.taken) && outstanding == old(outstanding) + {block.value}
      ensures block.None? ==> outstanding == old(outstanding) && pool.taken == old(pool.taken)
      ensures |pool.free| == old(|pool.free|) - if block.Some? then 1 else 0
    {
      if usedBlocks < maxBlocks {
        usedBlocks := usedBlocks + 1;
        block := pool.Allocate();
        if block.Some? {
          outstanding := outstanding + {block.value};
        } else {
          refusals := refusals + 1;
        }
      } else {
        block := None;
      }
    }

    method Deallocate(block: nat)
      requires Valid() && block in outstanding
      modifies this, pool
      ensures Valid() && View() == Limited(old(View()), Return, maxBlocks)
      ensures outstanding == old(outstanding) - {block} && |pool.free| == old(|pool.free|) + 1
    {
      assert |outstanding - {block}| == |outstanding| - 1;
      pool.Deallocate(block);
      outstanding := outstanding - {block};
      usedBlocks := usedBlocks - 1;
    }
  }

  // ----- The map

  datatype Pair<K, V> = Pair(key: K, value: V)

  /** A block of slots; a slot without a pair is one that holds the default key. */
  datatype Group<K, V> = Group(block: nat, slots: seq<Option<Pair<K, V>>>)

  function Slot<K, V>(gs: seq<Group<K, V>>, g: nat, i: nat): Option<Pair<K, V>> {
    if g < |gs| && i < |gs[g].slots| then gs[g].slots[i] else None
  }

  /** Each pair is in the map, each key of the map is in a slot, and in one slot only. */
  ghost predicate Represents<K(!new), V(!new)>(gs: seq<Group<K, V>>, m: map<K, V>) {
    && (forall g: nat, i: nat :: Slot(gs, g, i).Some? ==> Slot(gs, g, i).value.key in m && m[Slot(gs, g, i).value.key] == Slot(gs, g, i).value.value)
    && (forall k <- m :: exists g: nat, i: nat :: Slot(gs, g, i).Some? && Slot(gs, g, i).value.key == k)
    && (forall g: nat, i: nat, h: nat, j: nat :: Slot(gs, g, i).Some? && Slot(gs, h, j).Some? && Slot(gs, g, i).value.key == Slot(gs, h, j).value.key ==> g == h && i == j)
  }

  predicate Empty<K, V>(grp: Group<K, V>) { forall i :: 0 <= i < |grp.slots| ==> grp.slots[i].None? }

  ghost predicate Shaped<K, V>(gs: seq<Group<K, V>>, n: nat, taken: set<nat>) {
    && (forall g :: 0 <= g < |gs| ==> |gs[g].slots| == n && gs[g].block in taken)
    && (forall g, h :: 0 <= g < h < |gs| ==> gs[g].block != gs[h].block)
  }

  ghost predicate Compacted<K, V>(gs: seq<Group<K, V>>) { forall g :: 0 <= g < |gs| ==> !Empty(gs[g]) }

  function Put<K, V>(gs: seq<Group<K, V>>, g: nat, i: nat, x: Option<Pair<K, V>>): seq<Group<K, V>>
    requires g < |gs| && i < |gs[g].slots|
  {
    gs[g := gs[g].(slots := gs[g].slots[i := x])]
  }

  lemma PutSlot<K, V>(gs: seq<Group<K, V>>, g: nat, i: nat, x: Option<Pair<K, V>>)
    requires g < |gs| && i < |gs[g].slots|
    ensures forall a: nat, b: nat :: Slot(Put(gs, g, i, x), a, b) == if a == g && b == i then x else Slot(gs, a, b)
  {}

  lemma PutRemoves<K(!new), V(!new)>(gs: seq<Group<K, V>>, g: nat, i: nat, m: map<K, V>)
    requires Represents(gs, m) && g < |gs| && i < |gs[g].slots| && gs[g].slots[i].Some?
    ensures Represents(Put(gs, g, i, None), m - {gs[g].slots[i].value.key})
  {
    PutSlot(gs, g, i, None);
    var gs' := Put(gs, g, i, None);
    var key := gs[g].slots[i].value.key;
    assert Slot(gs, g, i) == gs[g].slots[i];
    hide Slot, Put;
    forall k | k in m - {key}
      ensures exists a: nat, b: nat :: Slot(gs', a, b).Some? && Slot(gs', a, b).value.key == k
    {
      var a: nat, b: nat :| Slot(gs, a, b).Some? && Slot(gs, a, b).value.key == k;
      assert Slot(gs', a, b) == Slot(gs, a, b);
    }
  }

  lemma PutAdds<K(!new), V(!new)>(gs: seq<Group<K, V>>, g: nat, i: nat, m: map<K, V>, p: Pair<K, V>)
    requires Represents(gs, m) && g < |gs| && i < |gs[g].slots| && gs[g].slots[i].None? && p.key !in m
    ensures Represents(Put(gs, g, i, Some(p)), m[p.key := p.value])
  {
    PutSlot(gs, g, i, Some(p));
    var gs' := Put(gs, g, i, Some(p));
    assert Slot(gs, g, i).None? && Slot(gs', g, i) == Some(p);
    hide Slot, Put;
    forall k | k in m
      ensures exists a: nat, b: nat :: Slot(gs', a, b).Some? && Slot(gs', a, b).value.key == k
    {
      var a: nat, b: nat :| Slot(gs, a, b).Some? && Slot(gs, a, b).value.key == k;
      assert Slot(gs', a, b) == Slot(gs, a, b);
    }
  }

  /** A group in front, with one pair in its first slot. */
  lemma FrontSlot<K, V>(gs: seq<Group<K, V>>, grp: Group<K, V>)
    ensures forall a: nat, b: nat :: Slot([grp] + gs, a, b) == if a == 0 then Slot([grp], 0, b) else Slot(gs, a - 1, b)
  {}

  lemma FrontAdds<K(!new), V(!new)>(gs: seq<Group<K, V>>, grp: Group<K, V>, m: map<K, V>, p: Pair<K, V>)
    requires Represents(gs, m) && p.key !in m && grp.slots != [] && grp.slots[0] == Some(p)
    requires forall i :: 0 < i < |grp.slots| ==> grp.slots[i].None?
    ensures Represents([grp] + gs, m[p.key := p.value])
  {
    FrontSlot(gs, grp);
    var gs' := [grp] + gs;
    assert forall b: nat :: Slot([grp], 0, b) == if b == 0 then Some(p) else None;
    hide Slot;
    forall k | k in m
      ensures exists a: nat, b: nat :: Slot(gs', a, b).Some? && Slot(gs', a, b).value.key == k
    {
      var a: nat, b: nat :| Slot(gs, a, b).Some? && Slot(gs, a, b).value.key == k;
      assert Slot(gs', a + 1, b) == Slot(gs, a, b);
    }
    assert Slot(gs', 0, 0) == Some(p);
  }

  function Skip(p: nat, a: nat): nat { if a < p then a else a + 1 }

  lemma DropSlot<K, V>(gs: seq<Group<K, V>>, p: nat)
    requires p < |gs| && Empty(gs[p])
    ensures forall a: nat, b: nat :: Slot(gs[..p] + gs[p + 1..], a, b) == Slot(gs, Skip(p, a), b)
    ensures forall b: nat :: Slot(gs, p, b).None?
  {}

  /** Dropping a group without pairs changes nothing. */
  lemma DropEmpty<K(!new), V(!new)>(gs: seq<Group<K, V>>, p: nat, m: map<K, V>)
    requires Represents(gs, m) && p < |gs| && Empty(gs[p])
    ensures Represents(gs[..p] + gs[p + 1..], m)
  {
    DropSlot(gs, p);
    var gs' := gs[..p] + gs[p + 1..];
    hide Slot, Empty;
    forall k | k in m
      ensures exists a: nat, b: nat :: Slot(gs', a, b).Some? && Slot(gs', a, b).value.key == k
    {
      var a: nat, b: nat :| Slot(gs, a, b).Some? && Slot(gs, a, b).value.key == k;
      var a': nat := if a < p then a else a - 1;
      assert Slot(gs', a', b) == Slot(gs, a, b);
    }
    forall g: nat, i: nat, h: nat, j: nat | Slot(gs', g, i).Some? && Slot(gs', h, j).Some? && Slot(gs', g, i).value.key == Slot(gs', h, j).value.key
      ensures g == h && i == j
    {
      assert Slot(gs, Skip(p, g), i).value.key == Slot(gs, Skip(p, h), j).value.key;
    }
    forall g: nat, i: nat | Slot(gs', g, i).Some?
      ensures Slot(gs', g, i).value.key in m && m[Slot(gs', g, i).value.key] == Slot(gs', g, i).value.value
    {
      assert Slot(gs, Skip(p, g), i).Some?;
    }
  }

  lemma DropShaped<K, V>(gs: seq<Group<K, V>>, p: nat, n: nat, taken: set<nat>)
    requires Shaped(gs, n, taken) && p < |gs|
    ensures Shaped(gs[..p] + gs[p + 1..], n, taken - {gs[p].block})
  {
    var gs' := gs[..p] + gs[p + 1..];
    forall g, h | 0 <= g < h < |gs'|
      ensures gs'[g].block != gs'[h].block
    {
      assert gs'[g] == gs[if g < p then g else g + 1] && gs'[h] == gs[if h < p then h else h + 1];
    }
  }

  class Map<K(==, !new), V(!new)> {
    const pool: PoolAllocator
    const numKV: nat
    var groups: seq<Group<K, V>>
    /** The finite map that the groups stand for. */
    ghost var contents: map<K, V>

    /** Between operations no group is empty. */
    ghost predicate Valid()
      reads this, pool
    {
      pool.Valid() && numKV > 0 && Shaped(groups, numKV, pool.taken) && Compacted(groups) && Represents(groups, contents)
    }

    constructor (p: PoolAllocator, n: nat)
      requires p.Valid() && n > 0
      ensures Valid() && pool == p && numKV == n && contents == map[]
    {
      pool, numKV, groups, contents := p, n, [], map[];
    }

    /** The slot of a key; without a key, a free slot. */
    method FindKey(key: Option<K>) returns (found: bool, g: nat, i: nat)
      requires forall h :: 0 <= h < |groups| ==> |groups[h].slots| == numKV
      ensures found ==> g < |groups| && i < numKV
      ensures found && key.Some? ==> groups[g].slots[i].Some? && groups[g].slots[i].value.key == key.value
      ensures found && key.None? ==> groups[g].slots[i].None?
      ensures !found && key.Some? ==> forall h: nat, j: nat :: Slot(groups, h, j).Some? ==> Slot(groups, h, j).value.key != key.value
      ensures !found && key.None? ==> forall h, j :: 0 <= h < |groups| && 0 <= j < numKV ==> groups[h].slots[j].Some?
    {
      g := 0;
      while g < |groups|
        invariant 0 <= g <= |groups|
        invariant forall h, j :: 0 <= h < g && 0 <= j < numKV ==> !Match(groups[h].slots[j], key)
      {
        i := 0;
        while i < numKV
          invariant 0 <= i <= numKV
          invariant forall j :: 0 <= j < i ==> !Match(groups[g].slots[j], key)
        {
          if Match(groups[g].slots[i], key) {
            return true, g, i;
          }
          i := i + 1;
        }
        g := g + 1;
      }
      return false, 0, 0;
    }

    static predicate Match(s: Option<Pair<K, V>>, key: Option<K>) {
      match key
      case None => s.None?
      case Some(k) => s.Some? && s.value.key == k
    }

    method Access(key: K) returns (value: Option<V>)
      requires Valid()
      ensures value.Some? <==> key in contents
      ensures value.Some? ==> value.value == contents[key]
    {
      var found, g, i := FindKey(Some(key));
      if found {
        assert Slot(groups, g, i) == groups[g].slots[i];
        return Some(groups[g].slots[i].value.value);
      }
      return None;
    }

    /** Give the blocks of empty groups back. */
    method Compact()
      requires pool.Valid() && numKV > 0 && Shaped(groups, numKV, pool.taken) && Represents(groups, contents)
      modifies this`groups, pool
      ensures Valid() && contents == old(contents) && pool.taken <= old(pool.taken) && |pool.free| >= old(|pool.free|)
      ensures |pool.free| - old(|pool.free|) == old(|groups|) - |groups|
      ensures old(exists g :: 0 <= g < |groups| && !Empty(groups[g])) ==> groups != []
      ensures forall x <- groups :: x in old(groups)
    {
      hide Represents, Slot;
      var p := 0;
      while p < |groups|
        invariant 0 <= p <= |groups| && pool.Valid() && Shaped(groups, numKV, pool.taken) && Represents(groups, contents)
        invariant forall g :: 0 <= g < p ==> !Empty(groups[g])
        invariant pool.taken <= old(pool.taken) && |pool.free| - old(|pool.free|) == old(|groups|) - |groups| >= 0
        invariant (exists g :: 0 <= g < |groups| && !Empty(groups[g])) <==> old(exists g :: 0 <= g < |groups| && !Empty(groups[g]))
        invariant forall x <- groups :: x in old(groups)
        decreases |groups| - p
      {
        var removeThis := true;
        var i := 0;
        while i < numKV
          invariant 0 <= i <= numKV && (removeThis ==> forall j :: 0 <= j < i ==> groups[p].slots[j].None?)
          invariant !removeThis ==> !Empty(groups[p])
        {
          if groups[p].slots[i].Some? {
            removeThis := false;
            break;
          }
          i := i + 1;
        }
        if removeThis {
          DropEmpty(groups, p, contents);
          DropShaped(groups, p, numKV, pool.taken);
          DropKeepsOthers(groups, p);
          pool.Deallocate(groups[p].block);
          groups := groups[..p] + groups[p + 1..];
        } else {
          p := p + 1;
        }
      }
    }

    method Remove(key: K)
      requires Valid()
      modifies this, pool
      ensures Valid() && contents == old(contents) - {key}
      ensures key !in old(contents) ==> groups == old(groups) && pool.free == old(pool.free)
      ensures key in old(contents) ==> pool.free != [] || exists g, i :: 0 <= g < |groups| && 0 <= i < numKV && groups[g].slots[i].None?
    {
      hide Represents;
      var found, g, i := FindKey(Some(key));
      if found {
        InContents(groups, contents, g, i);
        PutRemoves(groups, g, i, contents);
        PutShaped(groups, g, i, None, numKV, pool.taken);
        groups := Put(groups, g, i, None);
        contents := contents - {key};
        ghost var before := groups;
        Compact();
        if |groups| == |before| {
          SameGroups(before, groups, numKV, pool.taken, g);
        }
      } else {
        NotInContents(groups, contents, key);
        assert contents - {key} == contents;
      }
    }

    /** Replacing never fails; a new key fails only when no slot and no block is left, and then nothing changes. */
    method Insert(key: K, value: V) returns (ok: bool)
      requires Valid()
      modifies this, pool
      ensures Valid()
      ensures contents == if ok then old(contents)[key := value] else old(contents)
      ensures key in old(contents) ==> ok
      ensures !ok ==> old(pool.free) == [] && forall g, i :: 0 <= g < old(|groups|) && 0 <= i < |old(groups)[g].slots| ==> old(groups)[g].slots[i].Some?
    {
      hide Represents;
      Remove(key);
      var found, g, i := FindKey(None);
      var pair := Pair(key, value);
      if found {
        PutAdds(groups, g, i, contents, pair);
        PutShaped(groups, g, i, Some(pair), numKV, pool.taken);
        groups := Put(groups, g, i, Some(pair));
        contents := contents[key := value];
        assert contents == old(contents)[key := value];
        return true;
      }
      var block := pool.Allocate();
      if block.None? {
        return false;
      }
      var grp := Group(block.value, [Some(pair)] + seq(numKV - 1, _ => None));
      FrontAdds(groups, grp, contents, pair);
      assert !Empty(grp) by { assert grp.slots[0].Some?; }
      groups := [grp] + groups;
      contents := contents[key := value];
      assert contents == old(contents)[key := value];
      return true;
    }
  }

  lemma DropKeepsOthers<K, V>(gs: seq<Group<K, V>>, p: nat)
    requires p < |gs| && Empty(gs[p])
    ensures var gs' := gs[..p] + gs[p + 1..];
            (exists g :: 0 <= g < |gs'| && !Empty(gs'[g])) <==> (exists g :: 0 <= g < |gs| && !Empty(gs[g]))
  {
    hide Empty;
    var gs' := gs[..p] + gs[p + 1..];
    if g :| 0 <= g < |gs| && !Empty(gs[g]) {
      assert gs'[if g < p then g else g - 1] == gs[g];
    }
    if g :| 0 <= g < |gs'| && !Empty(gs'[g]) {
      assert gs'[g] == gs[if g < p then g else g + 1];
    }
  }

  lemma InContents<K(!new), V(!new)>(gs: seq<Group<K, V>>, m: map<K, V>, g: nat, i: nat)
    requires Represents(gs, m) && g < |gs| && i < |gs[g].slots| && gs[g].slots[i].Some?
    ensures gs[g].slots[i].value.key in m
  {
    assert Slot(gs, g, i) == gs[g].slots[i];
  }

  lemma NotInContents<K(!new), V(!new)>(gs: seq<Group<K, V>>, m: map<K, V>, key: K)
    requires Represents(gs, m) && forall h: nat, j: nat :: Slot(gs, h, j).Some? ==> Slot(gs, h, j).value.key != key
    ensures key !in m
  {
    hide Slot;
  }

  lemma PutShaped<K, V>(gs: seq<Group<K, V>>, g: nat, i: nat, x: Option<Pair<K, V>>, n: nat, taken: set<nat>)
    requires Shaped(gs, n, taken) && g < |gs| && i < n
    ensures Shaped(Put(gs, g, i, x), n, taken) && Put(gs, g, i, x)[g].slots[i] == x
    ensures x.Some? && Compacted(gs) ==> Compacted(Put(gs, g, i, x))
  {}

  /** As many groups as before, all from before, with distinct blocks: the cleared group is still there. */
  lemma SameGroups<K(!new), V(!new)>(before: seq<Group<K, V>>, after: seq<Group<K, V>>, n: nat, taken: set<nat>, g: nat)
    requires g < |before| == |after| && Shaped(after, n, taken)
    requires forall h, k :: 0 <= h < k < |before| ==> before[h].block != before[k].block
    requires forall x <- after :: x in before
    ensures before[g] in after
  {
    var a := set h | 0 <= h < |after| :: after[h].block;
    var b := set h | 0 <= h < |before| :: before[h].block;
    assert a <= b by {
      forall x | x in a
        ensures x in b
      {
        var h :| 0 <= h < |after| && after[h].block == x;
        assert after[h] in after;
        var k :| 0 <= k < |before| && before[k] == after[h];
      }
    }
    BlockCount(after);
    BlockCount(before);
    SubsetFull(a, b);
    assert before[g].block in a;
    var h :| 0 <= h < |after| && after[h].block == before[g].block;
    assert after[h] in after;
    var k :| 0 <= k < |before| && before[k] == after[h];
    assert k == g;
  }

  lemma SubsetFull(a: set<nat>, b: set<nat>)
    requires a <= b && |a| == |b|
    ensures a == b
  {
    if x :| x in b && x !in a {
      assert a <= b - {x};
      SubsetSize(a, b - {x});
    }
  }

  lemma {:induction false} SubsetSize(a: set<nat>, b: set<nat>)
    requires a <= b
    ensures |a| <= |b|
  {
    if a != {} {
      var x :| x in a;
      SubsetSize(a - {x}, b - {x});
    }
  }

  lemma {:induction false} BlockCount<K, V>(gs: seq<Group<K, V>>)
    requires forall h, k :: 0 <= h < k < |gs| ==> gs[h].block != gs[k].block
    ensures |set h | 0 <= h < |gs| :: gs[h].block| == |gs|
  {
    if gs != [] {
      var n := |gs| - 1;
      BlockCount(gs[..n]);
      var s := set h | 0 <= h < |gs[..n]| :: gs[..n][h].block;
      assert (set h | 0 <= h < |gs| :: gs[h].block) == s + {gs[n].block};
    }
  }
}
