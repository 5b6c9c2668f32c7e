/**
  Scalar encoding: integers of 1 to 64 bits, signed or unsigned, saturated or truncated, written
  least significant byte first with the bits of an incomplete last byte left-aligned.

  `Laid` is the bit string of a value and `Taken` the number a bit string denotes; the byte
  shuffling of the codec is proved to compute them, and together they restore every value up to the
  cast that its type prescribes.
 */
module ScalarCodec {
  import opened Bits
  import opened BitCopy
  import opened BitStream
  import opened TransferBuffer

  // ----- The wire form of an unsigned number

  /** Little-endian bytes, the last one possibly incomplete. */
  function Laid(u: nat, w: nat): (r: seq<bool>)
    ensures |r| == w
  {
    if w <= 8 then ToBits(u, w) else ToBits(u, 8) + Laid(u / 256, w - 8)
  }

  function Taken(bs: seq<bool>): nat {
    if |bs| <= 8 then Num(bs) else Num(bs[..8]) + 256 * Taken(bs[8..])
  }

  lemma LaidStep(u: nat, w: nat)
    requires w > 8
    ensures Laid(u, w) == ToBits(u, 8) + Laid(u / 256, w - 8)
    ensures Laid(u, w)[..8] == ToBits(u, 8) && Laid(u, w)[8..] == Laid(u / 256, w - 8)
  {
    hide ToBits;
  }

  lemma TakenStep(bs: seq<bool>)
    ensures |bs| <= 8 ==> Taken(bs) == Num(bs)
    ensures |bs| > 8 ==> Taken(bs) == Num(bs[..8]) + 256 * Taken(bs[8..])
  {
    hide Num;
  }

  lemma Pow256(w: nat)
    requires w >= 8
    ensures Pow2(8) == 256 && Pow2(w) == 256 * Pow2(w - 8)
  {
    Pow2Add(w - 8, 8);
    assert Pow2(4) == 16;
  }

  /** The first byte holds the number modulo 256. */
  lemma FirstByte(u: nat)
    ensures Num(ToBits(u, 8)) == u % 256
  {
    hide *;
    Pow256(8);
    ToBitsMod(u, 8);
    NumToBits(u % 256, 8);
  }

  lemma {:induction false} TakenLaid(u: nat, w: nat)
    requires u < Pow2(w)
    ensures Taken(Laid(u, w)) == u
  {
    hide Num, ToBits, Pow2, Taken;
    TakenStep(Laid(u, w));
    if w <= 8 {
      NumToBits(u, w);
    } else {
      LaidStep(u, w);
      Pow256(w);
      FirstByte(u);
      TakenLaid(u / 256, w - 8);
    }
  }

  lemma {:induction false} LaidTaken(bs: seq<bool>)
    ensures Taken(bs) < Pow2(|bs|) && Laid(Taken(bs), |bs|) == bs
  {
    hide Num, ToBits, Pow2, Taken;
    TakenStep(bs);
    if |bs| <= 8 {
      ToBitsNum(bs);
    } else {
      var lo, hi := Num(bs[..8]), Taken(bs[8..]);
      LaidTaken(bs[8..]);
      Pow256(|bs|);
      LaidStep(lo + 256 * hi, |bs|);
      FirstByte(lo + 256 * hi);
      NumInjective(ToBits(lo + 256 * hi, 8), bs[..8]);
      assert bs == bs[..8] + bs[8..];
    }
  }

  // ----- The bytes of the integer in memory

  function LeBytes(u: nat, size: nat): (r: seq<Byte>)
    ensures |r| == size
  {
    if size == 0 then [] else [ToBits(u, 8)] + LeBytes(u / 256, size - 1)
  }

  function LeNum(s: seq<Byte>): nat {
    if s == [] then 0 else Num(s[0]) + 256 * LeNum(s[1..])
  }

  /** Left-align the bits of an incomplete last byte; `Unaligned` undoes it. */
  function Aligned(s: seq<Byte>, w: nat): (r: seq<Byte>)
    requires w <= 8 * |s|
    ensures |r| == |s|
  {
    if w % 8 != 0 then s[w / 8 := Shl(s[w / 8], 8 - w % 8)] else s
  }

  function Unaligned(s: seq<Byte>, w: nat): (r: seq<Byte>)
    requires w <= 8 * |s|
    ensures |r| == |s|
  {
    if w % 8 != 0 then s[w / 8 := Shr(s[w / 8], 8 - w % 8)] else s
  }

  lemma BitsOfCons(b: Byte, s: seq<Byte>)
    ensures BitsOf([b] + s) == b + BitsOf(s)
  {
    var l, r := BitsOf([b] + s), b + BitsOf(s);
    forall i | 0 <= i < 8 * |s| + 8
      ensures l[i] == r[i]
    {
      if i >= 8 {
        assert i / 8 - 1 == (i - 8) / 8 && i % 8 == (i - 8) % 8;
      }
    }
  }

  /** Left-aligning one byte puts its low bits first. */
  lemma ByteAligned(u: nat, w: nat, b: Byte, rest: seq<Byte>)
    requires 0 < w < 8 && b == Shl(ToBits(u, 8), 8 - w)
    ensures BitsOf([b] + rest)[..w] == ToBits(u, w)
  {
    hide ToBits, BitsOf;
    ToBitsSuffix(u, 8, w);
    BitsOfCons(b, rest);
    assert b[..w] == ToBits(u, 8)[8 - w..];
    assert (b + BitsOf(rest))[..w] == b[..w];
  }

  lemma LeBytesStep(u: nat, size: nat)
    requires size > 0
    ensures LeBytes(u, size) == [ToBits(u, 8)] + LeBytes(u / 256, size - 1)
  {}

  lemma AlignedFirst(b: Byte, rest: seq<Byte>, w: nat)
    requires 0 < w <= 8
    ensures Aligned([b] + rest, w) == if w < 8 then [Shl(b, 8 - w)] + rest else [b] + rest
    ensures Unaligned([b] + rest, w) == if w < 8 then [Shr(b, 8 - w)] + rest else [b] + rest
  {
    hide Shl, Shr;
  }

  /** The aligned little-endian bytes start with the wire form. */
  lemma {:induction false} AlignedBits(u: nat, size: nat, w: nat)
    requires 0 < w <= 8 * size
    ensures BitsOf(Aligned(LeBytes(u, size), w))[..w] == Laid(u, w)
  {
    hide ToBits, BitsOf, Aligned, LeBytes, Shl;
    var b: Byte, rest := ToBits(u, 8), LeBytes(u / 256, size - 1);
    LeBytesStep(u, size);
    if w <= 8 {
      AlignedFirst(b, rest, w);
      if w < 8 {
        ByteAligned(u, w, Shl(b, 8 - w), rest);
      } else {
        BitsOfCons(b, rest);
      }
    } else {
      AlignedBits(u / 256, size - 1, w - 8);
      AlignedCons(b, rest, w);
      BitsOfCons(b, Aligned(rest, w - 8));
      LaidStep(u, w);
      assert (b + BitsOf(Aligned(rest, w - 8)))[..w] == b + BitsOf(Aligned(rest, w - 8))[..w - 8];
    }
  }

  lemma AlignedCons(b: Byte, rest: seq<Byte>, w: nat)
    requires 8 < w <= 8 * |rest| + 8
    ensures Aligned([b] + rest, w) == [b] + Aligned(rest, w - 8)
    ensures Unaligned([b] + rest, w) == [b] + Unaligned(rest, w - 8)
  {
    hide Shl, Shr;
    var k := (w - 8) / 8;
    assert w / 8 == k + 1 && w % 8 == (w - 8) % 8;
    if w % 8 != 0 {
      assert ([b] + rest)[k + 1] == rest[k];
    }
  }

  lemma HoldsCons(s: seq<Byte>, bs: seq<bool>)
    requires Holds(s, bs) && |bs| > 8
    ensures s[0] == bs[..8] && Holds(s[1..], bs[8..])
  {
    forall i | 0 <= i < 8
      ensures s[0][i] == bs[i]
    {
      assert BitAt(s, i) == bs[i];
    }
    forall i | 0 <= i < 8 * |s[1..]|
      ensures BitAt(s[1..], i) == BitAt(s, i + 8)
    {
      assert (i + 8) / 8 == i / 8 + 1 && (i + 8) % 8 == i % 8;
    }
  }

  lemma HoldsLast(s: seq<Byte>, bs: seq<bool>)
    requires Holds(s, bs) && 0 < |bs| <= 8
    ensures |s| == 1 && s[0] == bs + Zeros(8 - |bs|)
  {
    var t := bs + Zeros(8 - |bs|);
    forall i | 0 <= i < 8
      ensures s[0][i] == t[i]
    {
      assert BitAt(s, i) == s[0][i];
    }
  }

  lemma LeNumStep(b: Byte, s: seq<Byte>)
    ensures LeNum([b] + s) == Num(b) + 256 * LeNum(s)
  {
    hide Num;
    assert ([b] + s)[1..] == s;
  }

  lemma LeNumEmpty()
    ensures LeNum([]) == 0
  {}

  lemma ShiftedBack(bs: seq<bool>)
    requires |bs| <= 8
    ensures Shr(bs + Zeros(8 - |bs|), 8 - |bs|) == Zeros(8 - |bs|) + bs
  {}

  lemma ByteUnaligned(bs: seq<bool>, b: Byte)
    requires 0 < |bs| <= 8 && b == Shr(bs + Zeros(8 - |bs|), 8 - |bs|)
    ensures LeNum([b]) == Num(bs)
  {
    hide *;
    ShiftedBack(bs);
    NumZeroExtended(8 - |bs|, bs);
    LeNumStep(b, []);
    LeNumEmpty();
    assert [b] + [] == [b];
  }

  /** Reading back: the bytes that hold a wire form denote its number. */
  lemma {:induction false} UnalignedNum(s: seq<Byte>, bs: seq<bool>)
    requires Holds(s, bs) && |bs| > 0
    ensures |bs| <= 8 * |s| && LeNum(Unaligned(s, |bs|)) == Taken(bs)
    decreases |bs|
  {
    hide Num, Unaligned, Taken, LeNum, Holds, Shr;
    var w := |bs|;
    HoldsLength(s, bs);
    TakenStep(bs);
    assert s == [s[0]] + s[1..];
    if w <= 8 {
      HoldsLast(s, bs);
      AlignedFirst(s[0], s[1..], w);
      var b: Byte := Shr(s[0], 8 - w);
      ShrNone(s[0]);
      ByteUnaligned(bs, b);
      assert Unaligned(s, w) == [b];
    } else {
      HoldsCons(s, bs);
      UnalignedNum(s[1..], bs[8..]);
      AlignedCons(s[0], s[1..], w);
      LeNumStep(s[0], Unaligned(s[1..], w - 8));
    }
  }

  lemma HoldsLength(s: seq<Byte>, bs: seq<bool>)
    requires Holds(s, bs)
    ensures |s| == ByteLen(|bs|)
  {}

  lemma ShrNone(b: Byte)
    ensures Shr(b, 0) == b
  {}

  // ----- Integer types

  datatype IntSpec = IntSpec(bits: nat, signed: bool, saturate: bool)
  {
    predicate Valid() { 1 <= bits <= 64 && (signed ==> bits > 1) }

    function Max(): int
      requires Valid()
    {
      if signed then Pow2(bits - 1) - 1 else Pow2(bits) - 1
    }

    function Min(): int
      requires Valid()
    {
      if signed then -Max() - 1 else 0
    }

    /** sizeof the storage type. */
    function StorageBytes(): nat { if bits <= 8 then 1 else if bits <= 16 then 2 else if bits <= 32 then 4 else 8 }

    function Saturated(v: int): int
      requires Valid()
    {
      if v > Max() then Max() else if v <= Min() then Min() else v
    }

    /** Masking; a full-width mask leaves the value as it is. */
    function Truncated(v: int): int {
      if bits == 8 * StorageBytes() then v else v % Pow2(bits)
    }

    function Cast(v: int): int
      requires Valid()
    {
      if saturate then Saturated(v) else Truncated(v)
    }

    /** The bits that encode `v`. */
    function Encoded(v: int): (r: seq<bool>)
      requires Valid()
      ensures |r| == bits
    {
      Laid(Cast(v) % Pow2(bits), bits)
    }

    /** Two's complement: a set top bit of a signed type makes the value negative. */
    function SignFixed(u: nat): int
      requires Valid()
    {
      if signed && u >= Pow2(bits - 1) then u - Pow2(bits) else u
    }

    function Decoded(bs: seq<bool>): int
      requires Valid()
    {
      SignFixed(Taken(bs))
    }

    /** What the type makes of a value: the nearest representable one, or the one congruent to it. */
    function Normal(v: int): int
      requires Valid()
    {
      if saturate then (if v > Max() then Max() else if v < Min() then Min() else v)
      else if signed then (v + Pow2(bits - 1)) % Pow2(bits) - Pow2(bits - 1)
      else v % Pow2(bits)
    }
  }

  lemma Halves(w: nat)
    requires w > 0
    ensures Pow2(w) == 2 * Pow2(w - 1)
  {}

  lemma ModShift(v: int, p: nat, m: nat)
    requires m == 2 * p > 0
    ensures var u := v % m; (if u >= p then u - m else u) == (v + p) % m - p
  {
    var q, u := v / m, v % m;
    assert v == m * q + u;
    if u >= p {
      assert v + p == m * (q + 1) + (u - p) by { assert m * (q + 1) == m * q + m; }
      ModUnique(v + p, m, q + 1, u - p);
    } else {
      ModUnique(v + p, m, q, u + p);
    }
  }

  lemma InRange(t: IntSpec, v: int)
    requires t.Valid() && t.Min() <= v <= t.Max()
    ensures t.SignFixed(v % Pow2(t.bits)) == v
  {
    var m := Pow2(t.bits);
    if v >= 0 {
      ModUnique(v, m, 0, v);
    } else {
      ModUnique(v, m, -1, v + m);
    }
  }

  /** Decoding restores the value up to the cast, for every type and every integer. */
  lemma RoundTrip(t: IntSpec, v: int)
    requires t.Valid()
    ensures |t.Encoded(v)| == t.bits && t.Decoded(t.Encoded(v)) == t.Normal(v)
    ensures t.Min() <= t.Normal(v) <= t.Max()
  {
    hide Pow2, Laid, Taken;
    var m := Pow2(t.bits);
    Halves(t.bits);
    TakenLaid(t.Cast(v) % m, t.bits);
    if t.saturate {
      InRange(t, t.Cast(v));
    } else {
      assert t.Cast(v) % m == v % m by { ModTwice(v, m); }
      if t.signed {
        ModShift(v, Pow2(t.bits - 1), m);
      }
    }
  }

  lemma ModTwice(v: int, m: nat)
    requires m > 0
    ensures v % m % m == v % m
  {
    ModUnique(v % m, m, 0, v % m);
  }

  /** Encoding a decoded bit string gives the same bits: every pattern is used. */
  lemma NoRedundantCode(t: IntSpec, bs: seq<bool>)
    requires t.Valid() && |bs| == t.bits
    ensures t.Min() <= t.Decoded(bs) <= t.Max() && t.Encoded(t.Decoded(bs)) == bs
  {
    hide Pow2, Laid, Taken;
    LaidTaken(bs);
    Halves(t.bits);
    var m, u, v := Pow2(t.bits), Taken(bs), t.Decoded(bs);
    if t.signed && u >= Pow2(t.bits - 1) {
      ModUnique(v, m, -1, u);
    } else {
      ModUnique(v, m, 0, u);
    }
    if !t.saturate {
      ModTwice(v, m);
    }
  }

  // ----- The codec over a bit stream

  class Codec {
    const stream: Stream

    constructor (s: Stream)
      ensures stream == s
    {
      stream := s;
    }

    method EncodeBytesImpl(bytes: array<Byte>, bitlen: nat, ghost w: seq<bool>) returns (res: int)
      requires stream.Writing(w) && 0 < bitlen <= 8 * bytes.Length && bitlen <= 64 && bytes != stream.buf.data
      modifies bytes, stream, stream.buf, stream.buf.data
      ensures res == 1 <==> |w| + bitlen <= 8 * stream.buf.data.Length
      ensures res == 1 ==> stream.Writing(w + BitsOf(Aligned(old(bytes[..]), bitlen))[..bitlen])
      ensures res != 1 ==> res == 0
    {
      hide BitsOf, Holds, Cached, Shl;
      if bitlen % 8 != 0 {
        bytes[bitlen / 8] := Shl(bytes[bitlen / 8], 8 - bitlen % 8);
      }
      assert bytes[..] == Aligned(old(bytes[..]), bitlen);
      res := stream.Write(bytes, bitlen, w);
    }

    method DecodeBytesImpl(bitlen: nat) returns (res: int, bytes: array<Byte>)
      requires stream.buf.Valid() && 0 < bitlen <= 64
      modifies stream`bitOffset
      ensures fresh(bytes)
      ensures res == 1 <==> old(stream.bitOffset) + bitlen <= 8 * |stream.buf.Contents()|
      ensures res == 1 ==> stream.bitOffset == old(stream.bitOffset) + bitlen
                           && LeNum(bytes[..]) == Taken(BitsOf(stream.buf.Contents())[old(stream.bitOffset)..stream.bitOffset])
      ensures res != 1 ==> res == 0 && stream.bitOffset == old(stream.bitOffset)
    {
      hide BitsOf, Holds, Shr, LeNum, Taken;
      res, bytes := stream.Read(bitlen);
      if res > 0 {
        ghost var got := bytes[..];
        UnalignedNum(got, BitsOf(stream.buf.Contents())[old(stream.bitOffset)..stream.bitOffset]);
        if bitlen % 8 != 0 {
          bytes[bitlen / 8] := Shr(bytes[bitlen / 8], 8 - bitlen % 8);
        }
        assert bytes[..] == Unaligned(got, bitlen);
      }
    }

    /** Append a value of an integer type; zero means that it does not fit. */
    method Encode(t: IntSpec, v: int, ghost w: seq<bool>) returns (res: int)
      requires t.Valid() && stream.Writing(w)
      modifies stream, stream.buf, stream.buf.data
      ensures res == 1 <==> |w| + t.bits <= 8 * stream.buf.data.Length
      ensures res == 1 ==> stream.Writing(w + t.Encoded(v))
      ensures res != 1 ==> res == 0
    {
      hide BitsOf, Holds, Cached, Aligned, LeBytes, Laid, Pow2;
      var value := v;
      if t.saturate {
        if value > t.Max() {
          value := t.Max();
        } else if value <= t.Min() {
          value := t.Min();
        }
      } else {
        value := t.Truncated(value);
      }
      assert value == t.Cast(v);
      var u := value % Pow2(t.bits);
      var s := LeBytes(u, t.StorageBytes());
      var bytes := new Byte[t.StorageBytes()](i requires 0 <= i < |s| => s[i]);
      assert bytes[..] == s;
      AlignedBits(u, t.StorageBytes(), t.bits);
      res := EncodeBytesImpl(bytes, t.bits, w);
    }

    /** Take a value of an integer type; zero means that the stream ends before it. */
    method Decode(t: IntSpec) returns (res: int, value: int)
      requires t.Valid() && stream.buf.Valid()
      modifies stream`bitOffset
      ensures res == 1 <==> old(stream.bitOffset) + t.bits <= 8 * |stream.buf.Contents()|
      ensures res == 1 ==> stream.bitOffset == old(stream.bitOffset) + t.bits
                           && value == t.Decoded(BitsOf(stream.buf.Contents())[old(stream.bitOffset)..stream.bitOffset])
      ensures res != 1 ==> res == 0 && stream.bitOffset == old(stream.bitOffset)
    {
      hide BitsOf, LeNum, Taken, Pow2;
      var bytes;
      res, bytes := DecodeBytesImpl(t.bits);
      value := 0;
      if res > 0 {
        value := LeNum(bytes[..]);
        if t.signed && value >= Pow2(t.bits - 1) {
          value := value - Pow2(t.bits);
        }
      }
    }
  }

  // ----- Lists of fields

  datatype Field = Field(spec: IntSpec, value: int)

  ghost predicate AllValid(fs: seq<Field>) { forall f <- fs :: f.spec.Valid() }

  /** The concatenated encodings of a list of fields. */
  ghost function Packed(fs: seq<Field>): (r: seq<bool>)
    requires AllValid(fs)
  {
    if fs == [] then [] else fs[0].spec.Encoded(fs[0].value) + Packed(fs[1..])
  }

  /** What the successive decodes of the same types return from position `pos`; none once the bits run out. */
  ghost function Unpacked(fs: seq<Field>, bits: seq<bool>, pos: nat): (r: seq<int>)
    requires AllValid(fs)
    decreases |fs|
  {
    if fs == [] || pos + fs[0].spec.bits > |bits| then []
    else [fs[0].spec.Decoded(bits[pos..pos + fs[0].spec.bits])] + Unpacked(fs[1..], bits, pos + fs[0].spec.bits)
  }

  /** Every list of fields is read back, each value cast by its own type, at any alignment and with anything behind it. */
  lemma {:induction false} ListRoundTrip(fs: seq<Field>, bits: seq<bool>, pos: nat)
    requires AllValid(fs) && pos + |Packed(fs)| <= |bits| && bits[pos..pos + |Packed(fs)|] == Packed(fs)
    ensures Unpacked(fs, bits, pos) == seq(|fs|, i requires 0 <= i < |fs| => fs[i].spec.Normal(fs[i].value))
    decreases |fs|
  {
    hide IntSpec.Encoded, IntSpec.Decoded, IntSpec.Normal;
    if fs != [] {
      var f := fs[0];
      var e, rest := f.spec.Encoded(f.value), Packed(fs[1..]);
      RoundTrip(f.spec, f.value);
      assert Packed(fs) == e + rest;
      assert bits[pos..pos + |e|] == bits[pos..pos + |Packed(fs)|][..|e|] == e;
      assert bits[pos + |e|..pos + |e| + |rest|] == bits[pos..pos + |Packed(fs)|][|e|..] == rest;
      ListRoundTrip(fs[1..], bits, pos + |e|);
    }
  }

  lemma {:induction false} PackedSnoc(fs: seq<Field>, f: Field)
    requires AllValid(fs) && f.spec.Valid()
    ensures AllValid(fs + [f]) && Packed(fs + [f]) == Packed(fs) + f.spec.Encoded(f.value)
    decreases |fs|
  {
    hide IntSpec.Encoded;
    var all, e := fs + [f], f.spec.Encoded(f.value);
    if fs == [] {
      assert all[0] == f && all[1..] == [] && e + [] == e && [] + e == e;
    } else {
      PackedSnoc(fs[1..], f);
      assert all[0] == fs[0] && all[1..] == fs[1..] + [f];
      var first := fs[0].spec.Encoded(fs[0].value);
      assert first + (Packed(fs[1..]) + e) == first + Packed(fs[1..]) + e;
    }
  }

  /** Encode a list of fields one after another, as a message does; stops at the first that does not fit. */
  method EncodeFields(fs: seq<Field>, codec: Codec, ghost w: seq<bool>) returns (res: int)
    requires AllValid(fs) && codec.stream.Writing(w)
    modifies codec.stream, codec.stream.buf, codec.stream.buf.data
    ensures res == 1 <==> |w| + |Packed(fs)| <= 8 * codec.stream.buf.data.Length
    ensures res == 1 ==> codec.stream.Writing(w + Packed(fs))
  {
    hide Holds, Cached, IntSpec.Encoded;
    var i := 0;
    assert fs[..0] == [] && w + [] == w;
    while i < |fs|
      invariant 0 <= i <= |fs| && codec.stream.Writing(w + Packed(fs[..i]))
    {
      var f := fs[i];
      assert f in fs;
      PackedSnoc(fs[..i], f);
      assert fs[..i + 1] == fs[..i] + [f];
      ghost var e := f.spec.Encoded(f.value);
      assert w + (Packed(fs[..i]) + e) == w + Packed(fs[..i]) + e;
      res := codec.Encode(f.spec, f.value, w + Packed(fs[..i]));
      if res <= 0 {
        PackedGrows(fs, i + 1);
        return;
      }
      i := i + 1;
    }
    assert fs[..i] == fs;
    codec.stream.WritingFits(w + Packed(fs));
    res := 1;
  }

  lemma {:induction false} PackedGrows(fs: seq<Field>, i: nat)
    requires AllValid(fs) && i <= |fs|
    ensures |Packed(fs[..i])| <= |Packed(fs)|
    decreases |fs|
  {
    hide IntSpec.Encoded;
    if fs != [] && i > 0 {
      PackedGrows(fs[1..], i - 1);
      assert fs[..i][1..] == fs[1..][..i - 1] && fs[..i][0] == fs[0];
    }
  }

  /** Decode the same types one after another: every value comes back, cast by its own type. */
  method DecodeFields(fs: seq<Field>, codec: Codec) returns (res: int, values: seq<int>)
    requires AllValid(fs) && codec.stream.buf.Valid()
    requires var bits, pos := BitsOf(codec.stream.buf.Contents()), codec.stream.bitOffset;
             pos + |Packed(fs)| <= |bits| && bits[pos..pos + |Packed(fs)|] == Packed(fs)
    modifies codec.stream`bitOffset
    ensures res == 1 && values == seq(|fs|, i requires 0 <= i < |fs| => fs[i].spec.Normal(fs[i].value))
    ensures codec.stream.bitOffset == old(codec.stream.bitOffset) + |Packed(fs)|
  {
    hide BitsOf, IntSpec.Encoded, IntSpec.Decoded, IntSpec.Normal;
    ghost var bits := BitsOf(codec.stream.buf.Contents());
    ghost var start := codec.stream.bitOffset;
    values := [];
    var i := 0;
    assert fs[..0] == [];
    while i < |fs|
      invariant 0 <= i <= |fs| && |values| == i && codec.stream.bitOffset == start + |Packed(fs[..i])|
      invariant forall j :: 0 <= j < i ==> values[j] == fs[j].spec.Normal(fs[j].value)
    {
      var f := fs[i];
      assert f in fs;
      PackedAt(fs, i, bits, start);
      RoundTrip(f.spec, f.value);
      PackedSnoc(fs[..i], f);
      assert fs[..i + 1] == fs[..i] + [f];
      var v;
      res, v := codec.Decode(f.spec);
      values := values + [v];
      i := i + 1;
    }
    assert fs[..i] == fs;
    res := 1;
  }

  lemma SplitWindow(bits: seq<bool>, pos: nat, e: seq<bool>, rest: seq<bool>)
    requires pos + |e + rest| <= |bits| && bits[pos..pos + |e + rest|] == e + rest
    ensures bits[pos..pos + |e|] == e && bits[pos + |e|..pos + |e| + |rest|] == rest
  {
    var window := bits[pos..pos + |e + rest|];
    assert bits[pos..pos + |e|] == window[..|e|];
    assert bits[pos + |e|..pos + |e| + |rest|] == window[|e|..];
  }

  /** Where field `i` lies. */
  lemma {:induction false} PackedAt(fs: seq<Field>, i: nat, bits: seq<bool>, pos: nat)
    requires AllValid(fs) && i < |fs| && pos + |Packed(fs)| <= |bits| && bits[pos..pos + |Packed(fs)|] == Packed(fs)
    ensures var at := pos + |Packed(fs[..i])|;
            at + fs[i].spec.bits <= |bits| && bits[at..at + fs[i].spec.bits] == fs[i].spec.Encoded(fs[i].value)
    decreases |fs|
  {
    hide IntSpec.Encoded;
    var e, rest := fs[0].spec.Encoded(fs[0].value), Packed(fs[1..]);
    SplitWindow(bits, pos, e, rest);
    if i == 0 {
      assert fs[..0] == [];
    } else {
      PackedAt(fs[1..], i - 1, bits, pos + |e|);
      assert fs[..i][1..] == fs[1..][..i - 1] && fs[..i][0] == fs[0];
    }
  }

  /** Through a buffer and back: every list of fields that fits comes out as each type makes of it. */
  method ThereAndBack(fs: seq<Field>, buf: StaticTransferBuffer) returns (res: int, values: seq<int>)
    requires AllValid(fs) && buf.Valid() && buf.Contents() == []
    modifies buf, buf.data
    ensures res == 1 <==> |Packed(fs)| <= 8 * buf.data.Length
    ensures res == 1 ==> values == seq(|fs|, i requires 0 <= i < |fs| => fs[i].spec.Normal(fs[i].value))
  {
    hide IntSpec.Normal, Packed;
    values := [];
    var out := new Stream(buf);
    var encoder := new Codec(out);
    assert out.Writing([]);
    res := EncodeFields(fs, encoder, []);
    if res == 1 {
      assert [] + Packed(fs) == Packed(fs);
      HoldsBits(buf.Contents(), Packed(fs));
      var back := new Stream(buf);
      var decoder := new Codec(back);
      assert BitsOf(buf.Contents())[0..|Packed(fs)|] == Packed(fs);
      res, values := DecodeFields(fs, decoder);
    }
  }
}
