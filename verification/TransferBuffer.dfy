/**
  Transfer payload buffers.

  `StaticTransferBuffer` is one flat array.  `TransferBufferManagerEntry` scatters the payload over
  a chain of fixed-size blocks taken from a pool that may refuse.  Both are specified by `Splice`, so
  a chain is indistinguishable from a flat array to every caller that writes without leaving a gap,
  and under refusal it holds exactly the prefix whose length it reported.
 */
module TransferBuffer {
  import opened Bits

  /** Bytes in one chain block: a 64-byte pool block less the link to the next one. */
  const BLOCK_SIZE := 56

  /** Overwrite `s` from `offset` on, extending it if the new bytes reach past its end. */
  function Splice(s: seq<Byte>, offset: nat, d: seq<Byte>): (r: seq<Byte>)
    requires offset <= |s|
    ensures |r| == Max(|s|, offset + |d|)
  {
    s[..offset] + d + (if offset + |d| <= |s| then s[offset + |d|..] else [])
  }

  lemma SpliceAt(s: seq<Byte>, offset: nat, d: seq<Byte>, i: nat)
    requires offset <= |s| && i < |Splice(s, offset, d)|
    ensures Splice(s, offset, d)[i] == if offset <= i < offset + |d| then d[i - offset] else s[i]
  {}

  lemma Spliced(s: seq<Byte>, r: seq<Byte>, offset: nat, d: seq<Byte>)
    requires |r| == Max(|s|, offset + |d|)
    requires forall i :: 0 <= i < |r| && offset <= i < offset + |d| ==> r[i] == d[i - offset]
    requires forall i :: 0 <= i < |s| && !(offset <= i < offset + |d|) ==> r[i] == s[i]
    ensures |d| > 0 ==> r[offset..offset + |d|] == d
    ensures offset <= |s| ==> r == Splice(s, offset, d)
  {}

  /** Consecutive writes are one write: reassembly in pieces yields the whole. */
  lemma {:induction false} SpliceAppend(s: seq<Byte>, offset: nat, d: seq<Byte>, e: seq<Byte>)
    requires offset <= |s|
    ensures Splice(Splice(s, offset, d), offset + |d|, e) == Splice(s, offset, d + e)
  {
    var l, r := Splice(Splice(s, offset, d), offset + |d|, e), Splice(s, offset, d + e);
    forall i | 0 <= i < |r|
      ensures l[i] == r[i]
    {
      SpliceAt(s, offset, d + e, i);
      SpliceAt(Splice(s, offset, d), offset + |d|, e, i);
      if i < |Splice(s, offset, d)| {
        SpliceAt(s, offset, d, i);
      }
    }
  }

  /** What a bounded read returns. */
  function Window(s: seq<Byte>, offset: nat, len: nat): seq<Byte> {
    if offset >= |s| then [] else s[offset..Min(offset + len, |s|)]
  }

  /** The byte at position `pos` after `bytes` were stored from `offset` on. */
  function Stored(offset: nat, bytes: seq<Byte>, pos: nat, before: Byte): Byte {
    if offset <= pos < offset + |bytes| then bytes[pos - offset] else before
  }

  lemma BlockIndex(p: nat, i: nat)
    requires BLOCK_SIZE * p <= i < BLOCK_SIZE * p + BLOCK_SIZE
    ensures i / BLOCK_SIZE == p && i % BLOCK_SIZE == i - BLOCK_SIZE * p
  {}

  /** A window grows by the bytes that follow it. */
  lemma Extended(c: seq<Byte>, offset: nat, before: seq<Byte>, r: seq<Byte>)
    requires |before| <= |r| && offset + |r| <= |c| && before == c[offset..offset + |before|] && r[..|before|] == before
    requires forall j :: |before| <= j < |r| ==> r[j] == c[offset + j]
    ensures r == c[offset..offset + |r|]
  {
    forall j | 0 <= j < |before|
      ensures r[j] == c[offset + j]
    {
      assert r[j] == r[..|before|][j] == before[j];
    }
  }

  class StaticTransferBuffer {
    const data: array<Byte>
    var maxWritePos: nat

    ghost predicate Valid()
      reads this
    {
      maxWritePos <= data.Length
    }

    ghost function Contents(): seq<Byte>
      requires Valid()
      reads this, data
    {
      data[..maxWritePos]
    }

    constructor (size: nat)
      ensures Valid() && fresh(data) && data.Length == size && Contents() == []
    {
      data := new Byte[size](_ => Zeros(8));
      maxWritePos := 0;
    }

    method Read(offset: nat, len: nat) returns (r: seq<Byte>)
      requires Valid()
      ensures r == Window(Contents(), offset, len)
    {
      if offset >= maxWritePos {
        return [];
      }
      var n := if offset + len > maxWritePos then maxWritePos - offset else len;
      r := data[offset..offset + n];
    }

    /** Stores the prefix that fits and nothing else.  A write beyond the write position leaves what the array held
        between the two. */
    method Write(offset: nat, bytes: seq<Byte>) returns (w: nat)
      requires Valid()
      modifies this, data
      ensures Valid()
      ensures w == if offset >= data.Length then 0 else Min(|bytes|, data.Length - offset)
      ensures maxWritePos == if offset >= data.Length then old(maxWritePos) else Max(offset + w, old(maxWritePos))
      ensures forall i :: 0 <= i < data.Length ==> data[i] == Stored(offset, bytes[..w], i, old(data[i]))
      ensures offset <= old(maxWritePos) ==> Contents() == Splice(old(Contents()), offset, bytes[..w])
    {
      if offset >= data.Length {
        assert bytes[..0] == [];
        return 0;
      }
      ghost var before := Contents();
      w := if offset + |bytes| > data.Length then data.Length - offset else |bytes|;
      forall i | 0 <= i < w {
        data[offset + i] := bytes[i];
      }
      maxWritePos := Max(offset + w, maxWritePos);
      forall i | 0 <= i < data.Length
        ensures data[i] == Stored(offset, bytes[..w], i, old(data[i]))
      {
        if offset <= i < offset + w {
          assert data[offset + (i - offset)] == bytes[..w][i - offset];
        }
      }
      if offset <= |before| {
        Spliced(before, Contents(), offset, bytes[..w]);
      }
    }
  }

  class TransferBufferManagerEntry {
    const maxSize: nat
    var blocks: seq<array<Byte>>
    var maxWritePos: nat

    /** The chain is made of distinct blocks of one size. */
    ghost predicate Chained()
      reads this
    {
      && maxWritePos <= maxSize
      && (forall b :: 0 <= b < |blocks| ==> blocks[b].Length == BLOCK_SIZE)
      && (forall b, c :: 0 <= b < c < |blocks| ==> blocks[b] != blocks[c])
    }

    /** ... and covers everything up to the write position. */
    ghost predicate Valid()
      reads this
    {
      Chained() && maxWritePos <= BLOCK_SIZE * |blocks|
    }

    static ghost function ByteAt(bs: seq<array<Byte>>, i: nat): Byte
      requires i < BLOCK_SIZE * |bs| && forall b :: 0 <= b < |bs| ==> bs[b].Length == BLOCK_SIZE
      reads bs
    {
      bs[i / BLOCK_SIZE][i % BLOCK_SIZE]
    }

    ghost function Contents(): seq<Byte>
      requires Valid()
      reads this, blocks
    {
      seq(maxWritePos, i requires 0 <= i < maxWritePos && Valid() reads this, blocks => ByteAt(blocks, i))
    }

    lemma ContentsAt(p: nat, i: nat)
      requires Valid() && p < |blocks| && BLOCK_SIZE * p <= i < BLOCK_SIZE * p + BLOCK_SIZE && i < maxWritePos
      ensures |Contents()| == maxWritePos && Contents()[i] == blocks[p][i - BLOCK_SIZE * p]
    {
      BlockIndex(p, i);
    }

    lemma NothingChained()
      requires maxWritePos == 0 && blocks == []
      ensures Valid() && Contents() == []
    {}

    lemma ContentsLength()
      requires Valid()
      ensures |Contents()| == maxWritePos
    {}

    constructor (size: nat)
      ensures Valid() && maxSize == size && Contents() == [] && blocks == []
    {
      maxSize := size;
      blocks := [];
      maxWritePos := 0;
    }

    /** Copies out of one block the bytes at and after the target offset. */
    static method ReadBlock(b: array<Byte>, target: nat, total: nat, len: nat, out: seq<Byte>)
      returns (r: seq<Byte>)
      requires b.Length == BLOCK_SIZE && |out| <= len
      requires |out| == if total >= target then Min(total - target, len) else 0
      ensures |r| == Max(0, Min(total + BLOCK_SIZE - target, len))
      ensures |out| <= |r| && r[..|out|] == out
      ensures forall j :: |out| <= j < |r| ==> total <= target + j && r[j] == b[target + j - total]
    {
      r := out;
      var i := 0;
      while i < BLOCK_SIZE && |r| < len
        invariant 0 <= i <= BLOCK_SIZE
        invariant |out| <= |r| == Max(|out|, Max(0, Min(total + i - target, len)))
        invariant r[..|out|] == out
        invariant forall j :: |out| <= j < |r| ==> total <= target + j < total + i && r[j] == b[target + j - total]
      {
        if total + i >= target {
          r := r + [b[i]];
        }
        i := i + 1;
      }
    }

    /** One turn of the read loop: `out` is what the blocks before number `p` gave. */
    method ReadNext(p: nat, offset: nat, n: nat, out: seq<Byte>) returns (r: seq<Byte>)
      requires Valid() && p < |blocks| && offset + n <= maxWritePos
      requires |out| == Max(0, Min(BLOCK_SIZE * p - offset, n)) && out == Contents()[offset..offset + |out|]
      ensures |r| == Max(0, Min(BLOCK_SIZE * (p + 1) - offset, n)) && r == Contents()[offset..offset + |r|]
    {
      ContentsLength();
      hide Contents, ByteAt;
      r := ReadBlock(blocks[p], offset, BLOCK_SIZE * p, n, out);
      forall j | |out| <= j < |r|
        ensures r[j] == Contents()[offset + j]
      {
        ContentsAt(p, offset + j);
      }
      Extended(Contents(), offset, out, r);
    }

    method Read(offset: nat, len: nat) returns (r: seq<Byte>)
      requires Valid()
      ensures r == Window(Contents(), offset, len)
    {
      ContentsLength();
      hide Contents, ByteAt, Chained;
      if offset >= maxWritePos {
        return [];
      }
      var n := if offset + len > maxWritePos then maxWritePos - offset else len;
      r := [];
      var p := 0;
      while p < |blocks|
        invariant 0 <= p <= |blocks|
        invariant |r| == Max(0, Min(BLOCK_SIZE * p - offset, n)) && r == Contents()[offset..offset + |r|]
      {
        r := ReadNext(p, offset, n, r);
        if |r| == n {
          break;
        }
        p := p + 1;
      }
      assert |r| == n;
    }

    /** Copies into one block the part of the input that falls into it. */
    static method WriteBlock(b: array<Byte>, target: nat, total: nat, bytes: seq<Byte>, done: nat) returns (r: nat)
      requires b.Length == BLOCK_SIZE && done <= |bytes|
      requires done == if total >= target then Min(total - target, |bytes|) else 0
      modifies b
      ensures r == Max(0, Min(total + BLOCK_SIZE - target, |bytes|))
      ensures forall i :: 0 <= i < BLOCK_SIZE ==>
                b[i] == Stored(target, bytes, total + i, old(b[i]))
    {
      r := done;
      var i := 0;
      while i < BLOCK_SIZE && r < |bytes|
        invariant 0 <= i <= BLOCK_SIZE
        invariant r == Max(done, Max(0, Min(total + i - target, |bytes|)))
        invariant forall k :: 0 <= k < i ==>
                    b[k] == Stored(target, bytes, total + k, old(b[k]))
        invariant forall k :: i <= k < BLOCK_SIZE ==> b[k] == old(b[k])
      {
        if total + i >= target {
          b[i] := bytes[r];
          r := r + 1;
        }
        i := i + 1;
      }
    }

    /** The first loop of a write: the part that falls into blocks already chained. */
    method WriteChained(offset: nat, bytes: seq<Byte>) returns (done: nat)
      requires Chained()
      modifies blocks
      ensures Chained()
      ensures done == Max(0, Min(BLOCK_SIZE * |blocks| - offset, |bytes|))
      ensures forall p, i :: 0 <= p < |blocks| && 0 <= i < BLOCK_SIZE ==>
                blocks[p][i] == Stored(offset, bytes, BLOCK_SIZE * p + i, old(blocks[p][i]))
    {
      done := 0;
      var p := 0;
      while p < |blocks|
        invariant 0 <= p <= |blocks|
        invariant done == Max(0, Min(BLOCK_SIZE * p - offset, |bytes|))
        invariant forall q, i :: 0 <= q < p && 0 <= i < BLOCK_SIZE ==>
                    blocks[q][i] == Stored(offset, bytes, BLOCK_SIZE * q + i, old(blocks[q][i]))
        invariant forall q, i :: p <= q < |blocks| && 0 <= i < BLOCK_SIZE ==> blocks[q][i] == old(blocks[q][i])
      {
        done := WriteBlock(blocks[p], offset, BLOCK_SIZE * p, bytes, done);
        if done == |bytes| {
          break;
        }
        p := p + 1;
      }
    }

    /** The second loop: append blocks until everything is stored or the pool, which has `quota` blocks
        to give, refuses. */
    method WriteAppending(offset: nat, bytes: seq<Byte>, from: nat, quota: nat) returns (done: nat)
      requires Chained()
      requires from == Max(0, Min(BLOCK_SIZE * |blocks| - offset, |bytes|))
      modifies this`blocks
      ensures Chained()
      ensures done == Max(0, Min(BLOCK_SIZE * (old(|blocks|) + quota) - offset, |bytes|))
      ensures done > from ==> offset + done <= BLOCK_SIZE * |blocks|
      ensures |old(blocks)| <= |blocks| <= |old(blocks)| + quota && blocks[..|old(blocks)|] == old(blocks)
      ensures fresh(blocks[|old(blocks)|..])
      ensures forall p, i :: |old(blocks)| <= p < |blocks| && 0 <= i < BLOCK_SIZE ==>
                (offset <= BLOCK_SIZE * p + i < offset + done ==> blocks[p][i] == bytes[BLOCK_SIZE * p + i - offset])
    {
      done := from;
      var left := quota;
      ghost var n := |blocks|;
      while done < |bytes| && left > 0
        invariant 0 <= left <= quota && |blocks| == n + quota - left
        invariant Chained() && maxWritePos == old(maxWritePos)
        invariant done == Max(0, Min(BLOCK_SIZE * |blocks| - offset, |bytes|))
        invariant blocks[..n] == old(blocks) && fresh(blocks[n..])
        invariant forall p, i :: n <= p < |blocks| && 0 <= i < BLOCK_SIZE ==>
                    (offset <= BLOCK_SIZE * p + i < offset + done ==> blocks[p][i] == bytes[BLOCK_SIZE * p + i - offset])
      {
        var b := new Byte[BLOCK_SIZE](_ => Zeros(8));
        ghost var was := blocks;
        done := WriteBlock(b, offset, BLOCK_SIZE * |blocks|, bytes, done);
        blocks := blocks + [b];
        left := left - 1;
        assert blocks[..n] == was[..n] && blocks[n..] == was[n..] + [b];
      }
    }

    /** Both loops, byte by byte. */
    method WriteBytes(offset: nat, bytes: seq<Byte>, quota: nat) returns (w: nat)
      requires Chained()
      modifies this`blocks, blocks
      ensures Chained()
      ensures |old(blocks)| <= |blocks| && blocks[..|old(blocks)|] == old(blocks) && fresh(blocks[|old(blocks)|..])
      ensures w == Max(0, Min(BLOCK_SIZE * (|old(blocks)| + quota) - offset, |bytes|))
      ensures w > 0 ==> offset + w <= BLOCK_SIZE * |blocks|
      ensures forall i :: 0 <= i < BLOCK_SIZE * |blocks| && offset <= i < offset + w ==> ByteAt(blocks, i) == bytes[i - offset]
      ensures forall i :: 0 <= i < BLOCK_SIZE * |old(blocks)| && !(offset <= i < offset + w) ==> ByteAt(blocks, i) == old(ByteAt(blocks, i))
    {
      w := WriteChained(offset, bytes);
      label chained:
      w := WriteAppending(offset, bytes, w, quota);
      forall i | 0 <= i < BLOCK_SIZE * |blocks|
        ensures offset <= i < offset + w ==> ByteAt(blocks, i) == bytes[i - offset]
        ensures i < BLOCK_SIZE * |old(blocks)| && !(offset <= i < offset + w) ==> ByteAt(blocks, i) == old(ByteAt(blocks, i))
      {
        var p, k := i / BLOCK_SIZE, i % BLOCK_SIZE;
        if p < |old(blocks)| {
          assert blocks[p] == blocks[..|old(blocks)|][p];
          assert blocks[p][k] == Stored(offset, bytes, BLOCK_SIZE * p + k, old(blocks[p][k]));
        }
      }
    }

    /** Store `bytes` from `offset` on; `w` bytes were stored.  The chain stays valid unless a write beyond
        its end stored nothing at all. */
    method Write(offset: nat, bytes: seq<Byte>, quota: nat) returns (w: nat)
      requires Valid()
      modifies this`blocks, this`maxWritePos, blocks
      ensures Chained()
      ensures |old(blocks)| <= |blocks| && blocks[..|old(blocks)|] == old(blocks) && fresh(blocks[|old(blocks)|..])
      ensures w == if offset >= maxSize then 0 else
                Max(0, Min(BLOCK_SIZE * (|old(blocks)| + quota) - offset, Min(|bytes|, maxSize - offset)))
      ensures offset <= old(maxWritePos) || w > 0 ==> Valid()
      ensures Valid() && w > 0 ==> offset + w <= maxWritePos && Contents()[offset..offset + w] == bytes[..w]
      ensures offset <= old(maxWritePos) ==> Contents() == Splice(old(Contents()), offset, bytes[..w])
    {
      if offset >= maxSize {
        w := 0;
        assert bytes[..w] == [];
        return;
      }
      var n := if offset + |bytes| > maxSize then maxSize - offset else |bytes|;
      ghost var before := Contents();
      w := WriteBytes(offset, bytes[..n], quota);
      maxWritePos := Max(offset + w, maxWritePos);
      if offset <= |before| || w > 0 {
        ghost var after := Contents();
        forall i | 0 <= i < |after| && offset <= i < offset + w
          ensures after[i] == bytes[..w][i - offset]
        {
          assert after[i] == ByteAt(blocks, i) == bytes[..n][i - offset];
        }
        forall i | 0 <= i < |before| && !(offset <= i < offset + w)
          ensures after[i] == before[i]
        {
          assert after[i] == ByteAt(blocks, i);
          assert before[i] == old(ByteAt(blocks, i));
        }
        Spliced(before, after, offset, bytes[..w]);
      }
    }

    /** Hands every block of the chain back, first to last. */
    method Reset() returns (freed: seq<array<Byte>>)
      requires Chained()
      modifies this`blocks, this`maxWritePos
      ensures Valid() && blocks == [] && Contents() == []
      ensures freed == old(blocks)
    {
      hide Chained, ByteAt;
      maxWritePos := 0;
      freed := [];
      while blocks != []
        invariant maxWritePos == 0 && freed + blocks == old(blocks)
        decreases |blocks|
      {
        freed := freed + [blocks[0]];
        blocks := blocks[1..];
      }
      NothingChained();
    }
  }
}
