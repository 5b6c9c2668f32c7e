/**
  bitarrayCopy: the fast copy of unaligned bit arrays, up to eight bits per round by shifting and
  masking bytes, proved to be the bit-by-bit copy at every pair of alignments and every length.
 */
module BitCopy {
  import opened Bits

  /** Bit `i` of a byte array, most significant bit of each byte first. */
  function BitAt(s: seq<Byte>, i: nat): bool
    requires i < 8 * |s|
  {
    s[i / 8][i % 8]
  }

  /** The byte mask with `n` ones from bit `offset` on: a 16-bit shift, truncated, then shifted again. */
  function WriteMask(n: nat, offset: nat): Byte
    requires n <= 8 && offset < 8
  {
    Shr(Shr(Not(Zeros(8)) + Zeros(8), n)[8..], offset)
  }

  /** The source byte moved from bit `from` to bit `to`; the shift is done in a wider integer. */
  function Moved(b: Byte, from: nat, to: nat): Byte
    requires from < 8 && to < 8
  {
    Shr(Shl(Zeros(8) + b, from), to)[8..]
  }

  function Merged(dst: Byte, src: Byte, from: nat, to: nat, n: nat): Byte
    requires from < 8 && to < 8 && n <= 8
  {
    var mask := WriteMask(n, to);
    Or(And(dst, Not(mask)), And(Moved(src, from, to), mask))
  }

  lemma WriteMaskAt(n: nat, offset: nat, p: nat)
    requires n <= 8 && offset < 8 && p < 8
    ensures WriteMask(n, offset)[p] <==> offset <= p < offset + n
  {
    var w := Shr(Not(Zeros(8)) + Zeros(8), n);
    assert forall q :: 0 <= q < 8 ==> (w[8..][q] <==> q < n);
  }

  lemma MovedAt(b: Byte, from: nat, to: nat, p: nat)
    requires from < 8 && to <= p < 8 && from + p - to < 8
    ensures Moved(b, from, to)[p] == b[from + p - to]
  {
    var w := Shl(Zeros(8) + b, from);
    assert w[8 + p - to] == (Zeros(8) + b)[8 + p - to + from];
  }

  /** One round copies `n` bits and leaves the others alone. */
  lemma MergedAt(dst: Byte, src: Byte, from: nat, to: nat, n: nat, p: nat)
    requires from + n <= 8 && to + n <= 8 && from < 8 && to < 8 && p < 8
    ensures Merged(dst, src, from, to, n)[p] == if to <= p < to + n then src[from + p - to] else dst[p]
  {
    WriteMaskAt(n, to, p);
    if to <= p < to + n {
      MovedAt(src, from, to, p);
    }
    hide WriteMask, Moved;
  }

  /** The bit array after copying `len` bits. */
  ghost predicate Copied(before: seq<Byte>, after: seq<Byte>, src: seq<Byte>, srcOffset: nat, dstOffset: nat, len: nat)
    requires srcOffset + len <= 8 * |src| && |before| == |after|
  {
    forall i :: 0 <= i < 8 * |after| ==>
      BitAt(after, i) == if dstOffset <= i < dstOffset + len then BitAt(src, srcOffset + i - dstOffset) else BitAt(before, i)
  }

  lemma RoundCopies(before: seq<Byte>, now: seq<Byte>, next: seq<Byte>, src: seq<Byte>,
                    srcOffset: nat, dstOffset: nat, done: nat, n: nat)
    requires |before| == |now| == |next|
    requires srcOffset + done + n <= 8 * |src| && dstOffset + done + n <= 8 * |now| && 0 < n
    requires (srcOffset + done) % 8 + n <= 8 && (dstOffset + done) % 8 + n <= 8
    requires Copied(before, now, src, srcOffset, dstOffset, done)
    requires next == now[(dstOffset + done) / 8 := Merged(now[(dstOffset + done) / 8], src[(srcOffset + done) / 8],
                                                          (srcOffset + done) % 8, (dstOffset + done) % 8, n)]
    ensures Copied(before, next, src, srcOffset, dstOffset, done + n)
  {
    hide Merged, BitAt;
    var s, d := srcOffset + done, dstOffset + done;
    forall i | 0 <= i < 8 * |next|
      ensures BitAt(next, i) ==
              if dstOffset <= i < dstOffset + done + n then BitAt(src, srcOffset + i - dstOffset) else BitAt(before, i)
    {
      RoundBit(now, next, src, s, d, n, i);
    }
  }

  lemma RoundBit(now: seq<Byte>, next: seq<Byte>, src: seq<Byte>, s: nat, d: nat, n: nat, i: nat)
    requires |now| == |next| && s + n <= 8 * |src| && d + n <= 8 * |now| && 0 < n && i < 8 * |next|
    requires s % 8 + n <= 8 && d % 8 + n <= 8
    requires next == now[d / 8 := Merged(now[d / 8], src[s / 8], s % 8, d % 8, n)]
    ensures BitAt(next, i) == if d <= i < d + n then BitAt(src, s + i - d) else BitAt(now, i)
  {
    hide Merged;
    if i / 8 == d / 8 {
      MergedAt(now[d / 8], src[s / 8], s % 8, d % 8, n, i % 8);
      if d <= i < d + n {
        SameByte(s, i - d, n);
      }
    }
  }

  lemma SameByte(s: nat, k: nat, n: nat)
    requires k < n && s % 8 + n <= 8
    ensures (s + k) / 8 == s / 8 && (s + k) % 8 == s % 8 + k
  {}

  method BitarrayCopy(src: array<Byte>, srcStart: nat, srcLen: nat, dst: array<Byte>, dstStart: nat)
    requires src != dst && srcStart + srcLen <= 8 * src.Length && dstStart + srcLen <= 8 * dst.Length
    modifies dst
    ensures Copied(old(dst[..]), dst[..], src[..], srcStart, dstStart, srcLen)
  {
    hide Merged;
    var lastBit := srcStart + srcLen;
    var srcOffset, dstOffset := srcStart, dstStart;
    while lastBit - srcOffset != 0
      invariant srcStart <= srcOffset <= lastBit && dstOffset - dstStart == srcOffset - srcStart
      invariant Copied(old(dst[..]), dst[..], src[..], srcStart, dstStart, srcOffset - srcStart)
      decreases lastBit - srcOffset
    {
      var srcBitOffset := srcOffset % 8;
      var dstBitOffset := dstOffset % 8;
      var maxOffset := if srcBitOffset > dstBitOffset then srcBitOffset else dstBitOffset;
      var copyBits := Min(lastBit - srcOffset, 8 - maxOffset);
      ghost var now := dst[..];
      dst[dstOffset / 8] := Merged(dst[dstOffset / 8], src[srcOffset / 8], srcBitOffset, dstBitOffset, copyBits);
      RoundCopies(old(dst[..]), now, dst[..], src[..], srcStart, dstStart, srcOffset - srcStart, copyBits);
      srcOffset := srcOffset + copyBits;
      dstOffset := dstOffset + copyBits;
    }
  }
}
