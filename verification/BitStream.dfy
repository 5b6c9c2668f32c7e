/**
  The bit stream over a transfer buffer: consecutive writes lay down consecutive bits at any
  alignment, the last byte is padded with zeros, and reads return the bits that were written.
 */
module BitStream {
  import opened Bits
  import opened BitCopy
  import opened TransferBuffer

  const MAX_BITS_PER_RW := 128

  /** The bits of a byte string. */
  function BitsOf(s: seq<Byte>): (r: seq<bool>)
    ensures |r| == 8 * |s|
  {
    seq(8 * |s|, i requires 0 <= i < 8 * |s| => BitAt(s, i))
  }

  function ByteLen(bits: nat): nat { (bits + 7) / 8 }

  /** `s` holds the bits `w`, padded with zeros to a byte boundary. */
  ghost predicate Holds(s: seq<Byte>, w: seq<bool>) {
    && |s| == ByteLen(|w|)
    && (forall i :: 0 <= i < |w| ==> BitAt(s, i) == w[i])
    && (forall i :: |w| <= i < 8 * |s| ==> !BitAt(s, i))
  }

  lemma HoldsIf(s: seq<Byte>, w: seq<bool>)
    requires |s| == ByteLen(|w|) && forall i :: 0 <= i < 8 * |s| ==> BitAt(s, i) == (i < |w| && w[i])
    ensures Holds(s, w)
  {}

  lemma HoldsBits(s: seq<Byte>, w: seq<bool>)
    requires Holds(s, w)
    ensures BitsOf(s)[..|w|] == w && BitsOf(s) == w + Zeros(8 * |s| - |w|)
  {}

  /** The incomplete last byte, kept to be merged into the next write. */
  function Cached(s: seq<Byte>, bits: nat): Byte {
    if bits % 8 == 0 || s == [] then Zeros(8) else s[|s| - 1]
  }

  lemma BitAtConcat(s: seq<Byte>, t: seq<Byte>, i: nat)
    requires i < 8 * |s + t|
    ensures BitAt(s + t, i) == if i < 8 * |s| then BitAt(s, i) else BitAt(t, i - 8 * |s|)
  {
    if i >= 8 * |s| {
      assert i / 8 - |s| == (i - 8 * |s|) / 8 && i % 8 == (i - 8 * |s|) % 8;
    }
  }

  lemma BitAtSlice(s: seq<Byte>, a: nat, b: nat, i: nat)
    requires a <= b <= |s| && i < 8 * (b - a)
    ensures BitAt(s[a..b], i) == BitAt(s, 8 * a + i)
  {
    assert (8 * a + i) / 8 == a + i / 8 && (8 * a + i) % 8 == i % 8;
  }

  /** The staging bytes of a write: the new bits at their alignment, with the cached bits restored in front. */
  lemma StagedAppends(s: seq<Byte>, w: seq<bool>, bytes: seq<Byte>, n: nat, zero: seq<Byte>, copied: seq<Byte>, staged: seq<Byte>)
    requires Holds(s, w) && 0 < n <= 8 * |bytes|
    requires |zero| == |copied| == |staged| == ByteLen(n + |w| % 8) && forall i :: 0 <= i < |zero| ==> zero[i] == Zeros(8)
    requires Copied(zero, copied, bytes, 0, |w| % 8, n)
    requires staged == copied[0 := Or(copied[0], Cached(s, |w|))]
    ensures |w| / 8 <= |s|
    ensures Holds(s[..|w| / 8] + staged, w + BitsOf(bytes)[..n])
    ensures Splice(s, |w| / 8, staged) == s[..|w| / 8] + staged
    ensures Cached(s[..|w| / 8] + staged, |w| + n) == if (|w| + n) % 8 != 0 then staged[|staged| - 1] else Zeros(8)
  {
    hide Or, Copied, BitAt, Holds;
    HeldLength(s, w, n);
    var t, x := s[..|w| / 8] + staged, w + BitsOf(bytes)[..n];
    forall i | 0 <= i < 8 * |t|
      ensures BitAt(t, i) == (i < |x| && x[i])
    {
      StagedBits(s, w, bytes, n, zero, copied, staged, i);
    }
    HoldsIf(t, x);
  }

  lemma HeldLength(s: seq<Byte>, w: seq<bool>, n: nat)
    requires Holds(s, w) && n > 0
    ensures |w| / 8 <= |s| <= |w| / 8 + ByteLen(n + |w| % 8) == ByteLen(|w| + n)
  {}

  lemma StagedBits(s: seq<Byte>, w: seq<bool>, bytes: seq<Byte>, n: nat, zero: seq<Byte>, copied: seq<Byte>, staged: seq<Byte>, i: nat)
    requires Holds(s, w) && 0 < n <= 8 * |bytes|
    requires |zero| == |copied| == |staged| == ByteLen(n + |w| % 8) && forall i :: 0 <= i < |zero| ==> zero[i] == Zeros(8)
    requires Copied(zero, copied, bytes, 0, |w| % 8, n)
    requires staged == copied[0 := Or(copied[0], Cached(s, |w|))]
    requires |w| / 8 <= |s| && i < 8 * (|w| / 8 + |staged|)
    ensures BitAt(s[..|w| / 8] + staged, i) == var x := w + BitsOf(bytes)[..n]; i < |x| && x[i]
  {
    hide Or, Copied, BitAt;
    var q := |w| / 8;
    BitAtConcat(s[..q], staged, i);
    if i < 8 * q {
      BitAtConcat(s[..q], s[q..], i);
      assert s[..q] + s[q..] == s;
    } else {
      StagedBit(s, w, bytes, n, zero, copied, staged, i - 8 * q);
    }
  }

  lemma StagedBit(s: seq<Byte>, w: seq<bool>, bytes: seq<Byte>, n: nat, zero: seq<Byte>, copied: seq<Byte>, staged: seq<Byte>, j: nat)
    requires Holds(s, w) && 0 < n <= 8 * |bytes|
    requires |zero| == |copied| == |staged| == ByteLen(n + |w| % 8) && forall i :: 0 <= i < |zero| ==> zero[i] == Zeros(8)
    requires Copied(zero, copied, bytes, 0, |w| % 8, n)
    requires staged == copied[0 := Or(copied[0], Cached(s, |w|))] && j < 8 * |staged|
    ensures var r := |w| % 8;
            BitAt(staged, j) == if j < r then w[|w| - r + j] else if j < r + n then BitAt(bytes, j - r) else false
  {
    var q, r := |w| / 8, |w| % 8;
    if j < 8 {
      assert BitAt(staged, j) == (BitAt(copied, j) || Cached(s, |w|)[j]);
      if r > 0 {
        assert Cached(s, |w|)[j] == BitAt(s, 8 * q + j) by { assert (8 * q + j) / 8 == q && (8 * q + j) % 8 == j; }
      }
    } else {
      assert BitAt(staged, j) == BitAt(copied, j);
    }
  }

  /** Reading `n` bits from position `off` needs bytes that the buffer has exactly when it has the bits. */
  lemma EnoughBytes(off: nat, n: nat, len: nat)
    ensures off / 8 + ByteLen(n + off % 8) <= len <==> off + n <= 8 * len
  {}

  lemma BytesHold(bits: nat)
    ensures bits <= 8 * ByteLen(bits) < bits + 8
  {}

  class Stream {
    const buf: StaticTransferBuffer
    var bitOffset: nat
    var byteCache: Byte

    /** Everything written so far is in the buffer, padded with zeros. */
    ghost predicate Writing(w: seq<bool>)
      reads this, buf, buf.data
    {
      buf.Valid() && bitOffset == |w| && Holds(buf.Contents(), w) && byteCache == Cached(buf.Contents(), |w|)
    }

    lemma WritingFits(w: seq<bool>)
      requires Writing(w)
      ensures |w| <= 8 * buf.data.Length
    {}

    constructor (b: StaticTransferBuffer)
      ensures buf == b && bitOffset == 0 && byteCache == Zeros(8)
    {
      buf := b;
      bitOffset := 0;
      byteCache := Zeros(8);
    }

    /** The bytes from the cached one on, with the new bits in place. */
    method Stage(bytes: array<Byte>, bitlen: nat, ghost w: seq<bool>) returns (tmp: array<Byte>)
      requires Writing(w) && 0 < bitlen <= 8 * bytes.Length
      ensures fresh(tmp) && tmp.Length == ByteLen(bitlen + |w| % 8) > 0
      ensures |w| / 8 <= |buf.Contents()|
      ensures var s := Splice(buf.Contents(), |w| / 8, tmp[..]); var x := w + BitsOf(bytes[..])[..bitlen];
              Holds(s, x) && Cached(s, |x|) == if |x| % 8 != 0 then tmp[tmp.Length - 1] else Zeros(8)
    {
      hide Splice, Holds, Copied, Cached, Or, BitsOf, ByteLen;
      BytesHold(bitlen + bitOffset % 8);
      tmp := new Byte[ByteLen(bitlen + bitOffset % 8)](_ => Zeros(8));
      ghost var zero := tmp[..];
      BitarrayCopy(bytes, 0, bitlen, tmp, bitOffset % 8);
      ghost var copied := tmp[..];
      tmp[0] := Or(tmp[0], byteCache);
      StagedAppends(buf.Contents(), w, bytes[..], bitlen, zero, copied, tmp[..]);
    }

    /** Append `bitlen` bits.  Zero means that the buffer is full; the stream is unusable then. */
    method Write(bytes: array<Byte>, bitlen: nat, ghost w: seq<bool>) returns (res: int)
      requires Writing(w) && 0 < bitlen <= 8 * bytes.Length && bitlen + |w| % 8 <= MAX_BITS_PER_RW && bytes != buf.data
      modifies this, buf, buf.data
      ensures res == 1 <==> |w| + bitlen <= 8 * buf.data.Length
      ensures res == 1 ==> Writing(w + BitsOf(old(bytes[..]))[..bitlen])
      ensures res != 1 ==> res == 0 && bitOffset == old(bitOffset)
    {
      hide Splice, Holds, Cached, BitsOf, Stored, ByteLen;
      EnoughBytes(bitOffset, bitlen, buf.data.Length);
      var tmp := Stage(bytes, bitlen, w);
      var newBitOffset := bitOffset + bitlen;
      byteCache := if newBitOffset % 8 != 0 then tmp[tmp.Length - 1] else Zeros(8);
      var writeRes := buf.Write(bitOffset / 8, tmp[..]);
      if writeRes < tmp.Length {
        return 0;
      }
      assert tmp[..][..writeRes] == tmp[..];
      bitOffset := newBitOffset;
      return 1;
    }

    /** Take the next `bitlen` bits, left-aligned and zero-padded. */
    method Read(bitlen: nat) returns (res: int, bytes: array<Byte>)
      requires buf.Valid() && 0 < bitlen && bitlen + bitOffset % 8 <= MAX_BITS_PER_RW
      modifies this`bitOffset
      ensures fresh(bytes) && bytes.Length == ByteLen(bitlen)
      ensures res == 1 <==> old(bitOffset) + bitlen <= 8 * |buf.Contents()|
      ensures res == 1 ==> bitOffset == old(bitOffset) + bitlen
                           && Holds(bytes[..], BitsOf(buf.Contents())[old(bitOffset)..bitOffset])
      ensures res != 1 ==> res == 0 && bitOffset == old(bitOffset)
    {
      hide Holds, Copied, BitsOf, ByteLen;
      EnoughBytes(bitOffset, bitlen, |buf.Contents()|);
      BytesHold(bitlen + bitOffset % 8);
      BytesHold(bitlen);
      var bytelen := ByteLen(bitlen + bitOffset % 8);
      bytes := new Byte[ByteLen(bitlen)](_ => Zeros(8));
      var got := buf.Read(bitOffset / 8, bytelen);
      if |got| < bytelen {
        return 0, bytes;
      }
      var tmp := new Byte[bytelen](i requires 0 <= i < |got| => got[i]);
      assert tmp[..] == got;
      ghost var zero := bytes[..];
      BitarrayCopy(tmp, bitOffset % 8, bitlen, bytes, 0);
      WindowBits(buf.Contents(), bitOffset, bitlen, got, zero, bytes[..]);
      bitOffset := bitOffset + bitlen;
      return 1, bytes;
    }
  }

  lemma WindowBits(s: seq<Byte>, off: nat, n: nat, got: seq<Byte>, zero: seq<Byte>, bytes: seq<Byte>)
    requires 0 < n && off + n <= 8 * |s| && |got| == ByteLen(n + off % 8) && off / 8 + |got| <= |s|
    requires got == s[off / 8..off / 8 + |got|]
    requires |zero| == |bytes| == ByteLen(n) && forall i :: 0 <= i < |zero| ==> zero[i] == Zeros(8)
    requires Copied(zero, bytes, got, off % 8, 0, n)
    ensures Holds(bytes, BitsOf(s)[off..off + n])
  {
    hide BitAt, Copied, Holds, BitsOf;
    var w := BitsOf(s)[off..off + n];
    forall i | 0 <= i < 8 * |bytes|
      ensures BitAt(bytes, i) == (i < |w| && w[i])
    {
      WindowBit(s, off, n, got, zero, bytes, i);
    }
    HoldsIf(bytes, w);
  }

  lemma WindowBit(s: seq<Byte>, off: nat, n: nat, got: seq<Byte>, zero: seq<Byte>, bytes: seq<Byte>, i: nat)
    requires 0 < n && off + n <= 8 * |s| && |got| == ByteLen(n + off % 8) && off / 8 + |got| <= |s|
    requires got == s[off / 8..off / 8 + |got|] && i < 8 * |bytes|
    requires |zero| == |bytes| == ByteLen(n) && forall i :: 0 <= i < |zero| ==> zero[i] == Zeros(8)
    requires Copied(zero, bytes, got, off % 8, 0, n)
    ensures BitAt(bytes, i) == (i < n && BitsOf(s)[off + i])
  {
    if i < n {
      hide BitAt;
      var j := off % 8 + i;
      BitAtSlice(s, off / 8, off / 8 + |got|, j);
      assert 8 * (off / 8) + j == off + i;
    }
  }
}
