/**
  Arrays of arbitrarily nested static and dynamic arrays of integers.

  A dynamic array carries a length prefix, unless it is the last thing in a transfer and its element
  takes at least 8 bits: then the prefix is dropped and decoding runs to the end of the stream (tail
  array optimization).  The prefixed form is a prefix code; the optimized form is lossless because
  the padding of the last byte is shorter than any element.
 */
module ArrayCodec {
  import opened Bits
  import opened BitStream
  import opened ScalarCodec

  const ERR_INVALID_MARSHAL_DATA := 6

  datatype Type = Int(spec: IntSpec) | Static(elem: Type, size: nat) | Dynamic(elem: Type, max: nat)

  datatype Value = Scalar(v: int) | Items(items: seq<Value>)

  // ----- Types

  function IntegerBitLen(n: nat): nat { if n == 0 then 0 else 1 + IntegerBitLen(n / 2) }

  /** The type of the length prefix. */
  function SizeSpec(max: nat): IntSpec { IntSpec(IntegerBitLen(max), false, true) }

  predicate WellFormed(t: Type) {
    match t
    case Int(spec) => spec.Valid()
    case Static(elem, size) => size > 0 && WellFormed(elem)
    case Dynamic(elem, max) => 0 < max < Pow2(32) && WellFormed(elem)
  }

  /** The values of a type. */
  ghost predicate Has(t: Type, v: Value)
    requires WellFormed(t)
  {
    match t
    case Int(spec) => v.Scalar? && spec.Min() <= v.v <= spec.Max()
    case Static(elem, size) => v.Items? && |v.items| == size && AllHave(elem, v.items)
    case Dynamic(elem, max) => v.Items? && |v.items| <= max && AllHave(elem, v.items)
  }

  ghost predicate AllHave(elem: Type, items: seq<Value>)
    requires WellFormed(elem)
  {
    forall i :: 0 <= i < |items| ==> Has(elem, items[i])
  }

  function MinBitLen(t: Type): nat {
    match t
    case Int(spec) => spec.bits
    case Static(elem, size) => MinBitLen(elem) * size
    case Dynamic(_, _) => 0
  }

  function MaxBitLen(t: Type): nat {
    match t
    case Int(spec) => spec.bits
    case Static(elem, size) => MaxBitLen(elem) * size
    case Dynamic(elem, max) => IntegerBitLen(max) + MaxBitLen(elem) * max
  }

  predicate Optimized(elem: Type, tao: bool) { MinBitLen(elem) >= 8 && tao }

  lemma {:induction false} BitLenBounds(n: nat, w: nat)
    ensures n < Pow2(IntegerBitLen(n))
    ensures n < Pow2(w) ==> IntegerBitLen(n) <= w
  {
    if n > 0 {
      BitLenBounds(n / 2, if w > 0 then w - 1 else 0);
    }
  }

  /** Every admissible length fits the prefix. */
  lemma SizeFits(max: nat, n: nat)
    requires 0 < max < Pow2(32) && n <= max
    ensures SizeSpec(max).Valid() && SizeSpec(max).Min() <= n <= SizeSpec(max).Max()
  {
    hide Pow2;
    BitLenBounds(max, 32);
  }

  lemma SizeValid(max: nat)
    requires 0 < max < Pow2(32)
    ensures SizeSpec(max).Valid()
  {
    SizeFits(max, 0);
  }

  // ----- Encoding

  ghost function Enc(t: Type, v: Value, tao: bool): seq<bool>
    requires WellFormed(t) && Has(t, v)
    decreases t, 0
  {
    match t
    case Int(spec) => spec.Encoded(v.v)
    case Static(elem, _) => EncAll(elem, v.items, tao)
    case Dynamic(elem, max) =>
      SizeValid(max);
      if Optimized(elem, tao) then EncAll(elem, v.items, false)
      else SizeSpec(max).Encoded(|v.items|) + EncAll(elem, v.items, tao)
  }

  /** Only the last element inherits the tail position. */
  ghost function EncAll(elem: Type, items: seq<Value>, tao: bool): seq<bool>
    requires WellFormed(elem) && AllHave(elem, items)
    decreases elem, |items| + 1
  {
    if items == [] then []
    else Enc(elem, items[0], tao && |items| == 1) + EncAll(elem, items[1..], tao)
  }

  // ----- Decoding

  /** Result code, value, and the position behind what was read. */
  datatype Decoding = Decoding(code: int, value: Value, pos: nat)

  function Dec(t: Type, bits: seq<bool>, pos: nat, tao: bool): (r: Decoding)
    requires WellFormed(t) && pos <= |bits|
    ensures pos <= r.pos <= |bits| && r.code <= 1
    ensures t.Int? <==> r.value.Scalar?
    decreases t, 0
  {
    match t
    case Int(spec) =>
      if pos + spec.bits > |bits| then Decoding(0, Scalar(0), pos)
      else Decoding(1, Scalar(spec.Decoded(bits[pos..pos + spec.bits])), pos + spec.bits)
    case Static(elem, size) => DecAll(elem, size, bits, pos, tao)
    case Dynamic(elem, max) =>
      if Optimized(elem, tao) then DecTail(elem, max, bits, pos)
      else
        SizeValid(max);
        var spec := SizeSpec(max);
        if pos + spec.bits > |bits| then Decoding(0, Items([]), pos)
        else
          var n := spec.Decoded(bits[pos..pos + spec.bits]);
          if n > max then Decoding(-ERR_INVALID_MARSHAL_DATA, Items([]), pos + spec.bits)
          else DecAll(elem, n, bits, pos + spec.bits, tao)
  }

  function DecAll(elem: Type, n: nat, bits: seq<bool>, pos: nat, tao: bool): (r: Decoding)
    requires WellFormed(elem) && pos <= |bits|
    ensures pos <= r.pos <= |bits| && r.code <= 1 && r.value.Items?
    decreases elem, n + 1
  {
    if n == 0 then Decoding(1, Items([]), pos)
    else
      var first := Dec(elem, bits, pos, tao && n == 1);
      if first.code <= 0 then Decoding(first.code, Items([]), first.pos)
      else
        var rest := DecAll(elem, n - 1, bits, first.pos, tao);
        Decoding(rest.code, Items([first.value] + rest.value.items), rest.pos)
  }

  /** Elements until the stream ends; `room` is what the array can still take. */
  function DecTail(elem: Type, room: nat, bits: seq<bool>, pos: nat): (r: Decoding)
    requires WellFormed(elem) && pos <= |bits|
    ensures pos <= r.pos <= |bits| && r.code <= 1 && r.value.Items?
    decreases elem, room + 1
  {
    var first := Dec(elem, bits, pos, false);
    if first.code < 0 then Decoding(first.code, Items([]), first.pos)
    else if first.code == 0 then Decoding(1, Items([]), first.pos)
    else if room == 0 then Decoding(-ERR_INVALID_MARSHAL_DATA, Items([]), first.pos)
    else
      var rest := DecTail(elem, room - 1, bits, first.pos);
      Decoding(rest.code, Items([first.value] + rest.value.items), rest.pos)
  }

  // ----- Lossless

  ghost predicate At(bits: seq<bool>, pos: nat, e: seq<bool>) {
    pos + |e| <= |bits| && bits[pos..pos + |e|] == e
  }

  lemma AtSplit(bits: seq<bool>, pos: nat, a: seq<bool>, b: seq<bool>)
    requires At(bits, pos, a + b)
    ensures At(bits, pos, a) && At(bits, pos + |a|, b)
  {
    assert bits[pos..pos + |a|] == bits[pos..pos + |a + b|][..|a|];
    assert bits[pos + |a|..pos + |a + b|] == bits[pos..pos + |a + b|][|a|..];
  }

  /** A value of an integer type, read where it was written. */
  lemma ScalarAt(spec: IntSpec, v: int, bits: seq<bool>, pos: nat)
    requires spec.Valid() && spec.Min() <= v <= spec.Max() && At(bits, pos, spec.Encoded(v))
    ensures pos + spec.bits <= |bits| && |spec.Encoded(v)| == spec.bits && spec.Decoded(bits[pos..pos + spec.bits]) == v
  {
    hide IntSpec.Encoded, IntSpec.Decoded, IntSpec.Normal, Pow2;
    RoundTrip(spec, v);
    NormalInRange(spec, v);
  }

  lemma NormalInRange(spec: IntSpec, v: int)
    requires spec.Valid() && spec.Min() <= v <= spec.Max()
    ensures spec.Normal(v) == v
  {
    hide Pow2;
    Halves(spec.bits);
    if !spec.saturate {
      if spec.signed {
        ModUnique(v + Pow2(spec.bits - 1), Pow2(spec.bits), 0, v + Pow2(spec.bits - 1));
      } else {
        ModUnique(v, Pow2(spec.bits), 0, v);
      }
    }
  }

  /** Whatever was read successfully took at least the minimum length. */
  lemma {:induction false} Consumes(t: Type, bits: seq<bool>, pos: nat, tao: bool)
    requires WellFormed(t) && pos <= |bits| && Dec(t, bits, pos, tao).code > 0
    ensures Dec(t, bits, pos, tao).pos >= pos + MinBitLen(t)
    decreases t, 0
  {
    if t.Static? {
      ConsumesAll(t.elem, t.size, bits, pos, tao);
    }
  }

  lemma {:induction false} ConsumesAll(elem: Type, n: nat, bits: seq<bool>, pos: nat, tao: bool)
    requires WellFormed(elem) && pos <= |bits| && DecAll(elem, n, bits, pos, tao).code > 0
    ensures DecAll(elem, n, bits, pos, tao).pos >= pos + MinBitLen(elem) * n
    decreases elem, n + 1
  {
    if n > 0 {
      var first := Dec(elem, bits, pos, tao && n == 1);
      Consumes(elem, bits, pos, tao && n == 1);
      ConsumesAll(elem, n - 1, bits, first.pos, tao);
      assert MinBitLen(elem) * n == MinBitLen(elem) * (n - 1) + MinBitLen(elem);
    }
  }

  /** With fewer bits than the minimum length left, decoding stops at the end of the stream and reports no error. */
  lemma {:induction false} TooShort(t: Type, bits: seq<bool>, pos: nat, tao: bool)
    requires WellFormed(t) && pos <= |bits| && |bits| - pos < MinBitLen(t)
    ensures Dec(t, bits, pos, tao).code == 0
    decreases t, 0
  {
    if t.Static? {
      TooShortAll(t.elem, t.size, bits, pos, tao);
    }
  }

  lemma {:induction false} TooShortAll(elem: Type, n: nat, bits: seq<bool>, pos: nat, tao: bool)
    requires WellFormed(elem) && pos <= |bits| && |bits| - pos < MinBitLen(elem) * n
    ensures DecAll(elem, n, bits, pos, tao).code == 0
    decreases elem, n + 1
  {
    var last := tao && n == 1;
    var first := Dec(elem, bits, pos, last);
    if |bits| - pos < MinBitLen(elem) {
      TooShort(elem, bits, pos, last);
    } else {
      NeverBad(elem, bits, pos, last);
      if first.code > 0 {
        Consumes(elem, bits, pos, last);
        assert MinBitLen(elem) * n == MinBitLen(elem) * (n - 1) + MinBitLen(elem);
        TooShortAll(elem, n - 1, bits, first.pos, tao);
      }
    }
  }

  /** A type with a positive minimum length holds no dynamic array, so nothing in it can be malformed. */
  lemma {:induction false} NeverBad(t: Type, bits: seq<bool>, pos: nat, tao: bool)
    requires WellFormed(t) && pos <= |bits| && MinBitLen(t) > 0
    ensures Dec(t, bits, pos, tao).code >= 0
    decreases t, 0
  {
    if t.Static? {
      NeverBadAll(t.elem, t.size, bits, pos, tao);
    }
  }

  lemma {:induction false} NeverBadAll(elem: Type, n: nat, bits: seq<bool>, pos: nat, tao: bool)
    requires WellFormed(elem) && pos <= |bits| && MinBitLen(elem) > 0
    ensures DecAll(elem, n, bits, pos, tao).code >= 0
    decreases elem, n + 1
  {
    if n > 0 {
      NeverBad(elem, bits, pos, tao && n == 1);
      NeverBadAll(elem, n - 1, bits, Dec(elem, bits, pos, tao && n == 1).pos, tao);
    }
  }

  /** A type with a positive minimum length has a fixed length: with that many bits left it is read. */
  lemma {:induction false} Enough(t: Type, bits: seq<bool>, pos: nat, tao: bool)
    requires WellFormed(t) && MinBitLen(t) > 0 && pos + MinBitLen(t) <= |bits|
    ensures var r := Dec(t, bits, pos, tao); r.code == 1 && r.pos == pos + MinBitLen(t)
    decreases t, 0
  {
    if t.Static? {
      EnoughAll(t.elem, t.size, bits, pos, tao);
    }
  }

  lemma {:induction false} EnoughAll(elem: Type, n: nat, bits: seq<bool>, pos: nat, tao: bool)
    requires WellFormed(elem) && MinBitLen(elem) > 0 && pos + MinBitLen(elem) * n <= |bits|
    ensures var r := DecAll(elem, n, bits, pos, tao); r.code == 1 && r.pos == pos + MinBitLen(elem) * n
    decreases elem, n + 1
  {
    hide Dec, MinBitLen;
    if n > 0 {
      OneMore(MinBitLen(elem), n);
      Enough(elem, bits, pos, tao && n == 1);
      EnoughAll(elem, n - 1, bits, pos + MinBitLen(elem), tao);
    }
  }

  /**
    Decoding restores every value of every type.  Away from the tail this holds whatever follows; in
    tail position it holds when less than a byte follows, which is what padding to a byte leaves.
   */
  lemma {:induction false} Lossless(t: Type, v: Value, bits: seq<bool>, pos: nat, tao: bool)
    requires WellFormed(t) && Has(t, v) && At(bits, pos, Enc(t, v, tao))
    requires tao ==> |bits| - (pos + |Enc(t, v, tao)|) < 8
    ensures var r := Dec(t, bits, pos, tao);
            r.code == 1 && r.value == v && (!tao ==> r.pos == pos + |Enc(t, v, tao)|)
    decreases t, 0
  {
    match t
    case Int(spec) => ScalarAt(spec, v.v, bits, pos);
    case Static(elem, size) => LosslessAll(elem, v.items, bits, pos, tao);
    case Dynamic(elem, max) =>
      if Optimized(elem, tao) {
        LosslessTail(elem, v.items, max, bits, pos);
      } else {
        LosslessPrefixed(elem, max, v.items, bits, pos, tao);
      }
  }

  lemma {:induction false} LosslessPrefixed(elem: Type, max: nat, items: seq<Value>, bits: seq<bool>, pos: nat, tao: bool)
    requires var t := Dynamic(elem, max);
             WellFormed(t) && Has(t, Items(items)) && !Optimized(elem, tao) && At(bits, pos, Enc(t, Items(items), tao))
    requires tao ==> |bits| - (pos + |Enc(Dynamic(elem, max), Items(items), tao)|) < 8
    ensures var t := Dynamic(elem, max);
            var r := Dec(t, bits, pos, tao);
            r.code == 1 && r.value == Items(items) && (!tao ==> r.pos == pos + |Enc(t, Items(items), tao)|)
    decreases elem, |items| + 2
  {
    hide IntSpec.Encoded, IntSpec.Decoded, Optimized, Pow2;
    var spec := SizeSpec(max);
    SizeFits(max, |items|);
    AtSplit(bits, pos, spec.Encoded(|items|), EncAll(elem, items, tao));
    ScalarAt(spec, |items|, bits, pos);
    LosslessAll(elem, items, bits, pos + spec.bits, tao);
  }

  lemma {:induction false} LosslessAll(elem: Type, items: seq<Value>, bits: seq<bool>, pos: nat, tao: bool)
    requires WellFormed(elem) && AllHave(elem, items) && At(bits, pos, EncAll(elem, items, tao))
    requires tao ==> |bits| - (pos + |EncAll(elem, items, tao)|) < 8
    ensures var r := DecAll(elem, |items|, bits, pos, tao);
            r.code == 1 && r.value == Items(items) && (!tao ==> r.pos == pos + |EncAll(elem, items, tao)|)
    decreases elem, |items| + 1
  {
    hide Enc, Dec;
    if items != [] {
      var last := tao && |items| == 1;
      var e, rest := Enc(elem, items[0], last), EncAll(elem, items[1..], tao);
      AtSplit(bits, pos, e, rest);
      Lossless(elem, items[0], bits, pos, last);
      if |items| > 1 {
        LosslessAll(elem, items[1..], bits, pos + |e|, tao);
      }
      assert items == [items[0]] + items[1..];
    }
  }

  /** An optimized array is read back exactly when fewer bits follow it than an element takes. */
  lemma {:induction false} LosslessTail(elem: Type, items: seq<Value>, room: nat, bits: seq<bool>, pos: nat)
    requires WellFormed(elem) && AllHave(elem, items) && MinBitLen(elem) >= 8 && |items| <= room
    requires At(bits, pos, EncAll(elem, items, false))
    ensures var r := DecTail(elem, room, bits, pos);
            (r.code == 1 && r.value == Items(items)) <==> |bits| - (pos + |EncAll(elem, items, false)|) < MinBitLen(elem)
    decreases elem, |items| + 1
  {
    hide Enc, Dec;
    if items == [] {
      if |bits| - pos < MinBitLen(elem) {
        TooShort(elem, bits, pos, false);
      } else {
        Enough(elem, bits, pos, false);
      }
    } else {
      var e, rest := Enc(elem, items[0], false), EncAll(elem, items[1..], false);
      AtSplit(bits, pos, e, rest);
      Lossless(elem, items[0], bits, pos, false);
      LosslessTail(elem, items[1..], room - 1, bits, pos + |e|);
      assert items == [items[0]] + items[1..];
    }
  }

  /** The same for the whole array: the optimization relies on what follows, and on nothing else. */
  lemma OptimizedExact(elem: Type, max: nat, items: seq<Value>, bits: seq<bool>, pos: nat)
    requires var t := Dynamic(elem, max);
             WellFormed(t) && Has(t, Items(items)) && Optimized(elem, true) && At(bits, pos, Enc(t, Items(items), true))
    ensures var t := Dynamic(elem, max);
            var r := Dec(t, bits, pos, true);
            (r.code == 1 && r.value == Items(items)) <==> |bits| - (pos + |Enc(t, Items(items), true)|) < MinBitLen(elem)
  {
    LosslessTail(elem, items, max, bits, pos);
  }

  /** The statement on buffers: an array written last, behind any other fields, into a byte-padded buffer is read back. */
  lemma TailArrayLossless(t: Type, v: Value, before: seq<bool>, s: seq<Byte>)
    requires WellFormed(t) && Has(t, v) && Holds(s, before + Enc(t, v, true))
    ensures |before| <= 8 * |s|
    ensures var r := Dec(t, BitsOf(s), |before|, true);
            r.code == 1 && r.value == v
  {
    hide Enc, Dec, BitsOf, Holds;
    var w := before + Enc(t, v, true);
    HoldsLength(s, w);
    HoldsBits(s, w);
    assert BitsOf(s)[..|w|][|before|..] == Enc(t, v, true);
    Lossless(t, v, BitsOf(s), |before|, true);
  }

  // ----- Lengths

  lemma {:induction false} LengthBounds(t: Type, v: Value, tao: bool)
    requires WellFormed(t) && Has(t, v)
    ensures MinBitLen(t) <= |Enc(t, v, tao)| <= MaxBitLen(t)
    decreases t, 0
  {
    match t
    case Int(spec) =>
    case Static(elem, size) => LengthBoundsAll(elem, v.items, tao);
    case Dynamic(elem, max) =>
      SizeValid(max);
      LengthBoundsAll(elem, v.items, if Optimized(elem, tao) then false else tao);
      Scaled(MaxBitLen(elem), |v.items|, max);
  }

  lemma OneMore(x: nat, n: nat)
    requires n > 0
    ensures x * n == x * (n - 1) + x
  {}

  lemma {:induction false} LengthBoundsAll(elem: Type, items: seq<Value>, tao: bool)
    requires WellFormed(elem) && AllHave(elem, items)
    ensures MinBitLen(elem) * |items| <= |EncAll(elem, items, tao)| <= MaxBitLen(elem) * |items|
    decreases elem, |items| + 1
  {
    hide Enc, MinBitLen, MaxBitLen;
    if items != [] {
      var n := |items|;
      LengthBounds(elem, items[0], tao && n == 1);
      LengthBoundsAll(elem, items[1..], tao);
      OneMore(MinBitLen(elem), n);
      OneMore(MaxBitLen(elem), n);
      assert |items[1..]| == n - 1;
    }
  }

  // ----- Any input

  /** Whatever the bits, a successful decode gives a value of the type: lengths within bounds, integers in range. */
  lemma {:induction false} DecodedIsTyped(t: Type, bits: seq<bool>, pos: nat, tao: bool)
    requires WellFormed(t) && pos <= |bits| && Dec(t, bits, pos, tao).code > 0
    ensures Has(t, Dec(t, bits, pos, tao).value)
    decreases t, 0
  {
    match t
    case Int(spec) => ScalarTyped(spec, bits, pos);
    case Static(elem, size) => DecodedAllTyped(elem, size, bits, pos, tao);
    case Dynamic(elem, max) =>
      if Optimized(elem, tao) {
        DecodedTailTyped(elem, max, bits, pos);
      } else {
        DecodedPrefixTyped(elem, max, bits, pos, tao);
      }
  }

  lemma ScalarTyped(spec: IntSpec, bits: seq<bool>, pos: nat)
    requires spec.Valid() && pos + spec.bits <= |bits|
    ensures spec.Min() <= spec.Decoded(bits[pos..pos + spec.bits]) <= spec.Max()
  {
    NoRedundantCode(spec, bits[pos..pos + spec.bits]);
  }

  lemma {:induction false} DecodedPrefixTyped(elem: Type, max: nat, bits: seq<bool>, pos: nat, tao: bool)
    requires WellFormed(Dynamic(elem, max)) && pos <= |bits| && !Optimized(elem, tao) && Dec(Dynamic(elem, max), bits, pos, tao).code > 0
    ensures Has(Dynamic(elem, max), Dec(Dynamic(elem, max), bits, pos, tao).value)
    decreases elem, max + 2
  {
    hide IntSpec.Decoded, Optimized, Pow2, AllHave;
    SizeValid(max);
    var spec := SizeSpec(max);
    var n := spec.Decoded(bits[pos..pos + spec.bits]);
    UnsignedNat(spec, bits[pos..pos + spec.bits]);
    DecodedAllTyped(elem, n, bits, pos + spec.bits, tao);
  }

  lemma UnsignedNat(spec: IntSpec, bs: seq<bool>)
    requires spec.Valid() && !spec.signed
    ensures spec.Decoded(bs) >= 0
  {}

  lemma {:induction false} DecodedAllTyped(elem: Type, n: nat, bits: seq<bool>, pos: nat, tao: bool)
    requires WellFormed(elem) && pos <= |bits| && DecAll(elem, n, bits, pos, tao).code > 0
    ensures var items := DecAll(elem, n, bits, pos, tao).value.items;
            |items| == n && AllHave(elem, items)
    decreases elem, n + 1
  {
    hide Dec, Has, WellFormed;
    if n > 0 {
      var first := Dec(elem, bits, pos, tao && n == 1);
      DecodedIsTyped(elem, bits, pos, tao && n == 1);
      DecodedAllTyped(elem, n - 1, bits, first.pos, tao);
    }
  }

  lemma {:induction false} DecodedTailTyped(elem: Type, room: nat, bits: seq<bool>, pos: nat)
    requires WellFormed(elem) && pos <= |bits| && DecTail(elem, room, bits, pos).code > 0
    ensures var items := DecTail(elem, room, bits, pos).value.items;
            |items| <= room && AllHave(elem, items)
    decreases elem, room + 1
  {
    var first := Dec(elem, bits, pos, false);
    if first.code > 0 {
      DecodedIsTyped(elem, bits, pos, false);
      DecodedTailTyped(elem, room - 1, bits, first.pos);
    }
  }

  // ----- The codec over a bit stream

  method Encode(t: Type, v: Value, codec: Codec, tao: bool, ghost w: seq<bool>) returns (res: int)
    requires WellFormed(t) && Has(t, v) && codec.stream.Writing(w)
    modifies codec.stream, codec.stream.buf, codec.stream.buf.data
    ensures res == 1 <==> |w| + |Enc(t, v, tao)| <= 8 * codec.stream.buf.data.Length
    ensures res == 1 ==> codec.stream.Writing(w + Enc(t, v, tao))
    ensures res != 1 ==> res == 0
    decreases t, 0
  {
    hide Holds, Cached, IntSpec.Encoded, Pow2;
    match t
    case Int(spec) =>
      res := codec.Encode(spec, v.v, w);
    case Static(elem, _) =>
      res := EncodeItems(elem, v.items, codec, tao, w);
    case Dynamic(elem, max) =>
      SizeValid(max);
      var selfTao := Optimized(elem, tao);
      ghost var w' := w;
      if !selfTao {
        res := codec.Encode(SizeSpec(max), |v.items|, w);
        w' := w + SizeSpec(max).Encoded(|v.items|);
        if res <= 0 {
          return;
        }
      }
      assert w' + EncAll(elem, v.items, if selfTao then false else tao) == w + Enc(t, v, tao);
      if v.items == [] {
        assert w' + [] == w';
        codec.stream.WritingFits(w');
        return 1;
      }
      res := EncodeItems(elem, v.items, codec, if selfTao then false else tao, w');
  }

  method EncodeItems(elem: Type, items: seq<Value>, codec: Codec, tao: bool, ghost w: seq<bool>) returns (res: int)
    requires WellFormed(elem) && AllHave(elem, items) && codec.stream.Writing(w)
    modifies codec.stream, codec.stream.buf, codec.stream.buf.data
    ensures res == 1 <==> |w| + |EncAll(elem, items, tao)| <= 8 * codec.stream.buf.data.Length
    ensures res == 1 ==> codec.stream.Writing(w + EncAll(elem, items, tao))
    ensures res != 1 ==> res == 0
    decreases elem, |items| + 1
  {
    hide Enc, EncAll, Stream.Writing;
    var i := 0;
    ghost var w' := w;
    assert items[0..] == items;
    while i < |items|
      invariant 0 <= i <= |items| && codec.stream.Writing(w')
      invariant w' + EncAll(elem, items[i..], tao) == w + EncAll(elem, items, tao)
    {
      var last := i == |items| - 1;
      EncAllStep(elem, items, i, tao, w');
      res := Encode(elem, items[i], codec, last && tao, w');
      if res <= 0 {
        return;
      }
      w' := w' + Enc(elem, items[i], last && tao);
      i := i + 1;
    }
    EncAllDone(elem, items[i..], tao, w');
    codec.stream.WritingFits(w');
    return 1;
  }

  lemma EncAllStep(elem: Type, items: seq<Value>, i: nat, tao: bool, w: seq<bool>)
    requires WellFormed(elem) && AllHave(elem, items) && i < |items|
    ensures AllHave(elem, items[i..]) && AllHave(elem, items[i + 1..]) && Has(elem, items[i])
    ensures w + EncAll(elem, items[i..], tao) == w + Enc(elem, items[i], i == |items| - 1 && tao) + EncAll(elem, items[i + 1..], tao)
  {
    hide Enc, Has;
    assert items[i..][0] == items[i] && items[i..][1..] == items[i + 1..];
    var all := EncAll(elem, items[i..], tao);
    assert all == Enc(elem, items[i], i == |items| - 1 && tao) + EncAll(elem, items[i + 1..], tao);
  }

  lemma EncAllDone(elem: Type, items: seq<Value>, tao: bool, w: seq<bool>)
    requires WellFormed(elem) && AllHave(elem, items) && items == []
    ensures w + EncAll(elem, items, tao) == w
  {
    assert w + [] == w;
  }

  /** A decoding behind elements that were already read. */
  ghost function Behind(items: seq<Value>, d: Decoding): Decoding
    requires d.value.Items?
  {
    Decoding(d.code, Items(items + d.value.items), d.pos)
  }

  lemma BehindNothing(d: Decoding)
    requires d.value.Items?
    ensures Behind([], d) == d
  {
    assert [] + d.value.items == d.value.items;
  }

  lemma BehindStep(elem: Type, n: nat, bits: seq<bool>, pos: nat, tao: bool, items: seq<Value>)
    requires WellFormed(elem) && pos <= |bits|
    ensures Behind(items, DecAll(elem, 0, bits, pos, tao)) == Decoding(1, Items(items), pos)
    ensures n > 0 ==>
              var first := Dec(elem, bits, pos, tao && n == 1);
              var all := Behind(items, DecAll(elem, n, bits, pos, tao));
              if first.code <= 0 then all.code == first.code && all.pos == first.pos
              else all == Behind(items + [first.value], DecAll(elem, n - 1, bits, first.pos, tao))
  {
    hide Dec;
    assert items + [] == items;
    if n > 0 && Dec(elem, bits, pos, tao && n == 1).code > 0 {
      var first := Dec(elem, bits, pos, tao && n == 1);
      var rest := DecAll(elem, n - 1, bits, first.pos, tao);
      assert items + ([first.value] + rest.value.items) == items + [first.value] + rest.value.items;
    }
  }

  lemma BehindTailStep(elem: Type, room: nat, bits: seq<bool>, pos: nat, items: seq<Value>)
    requires WellFormed(elem) && pos <= |bits|
    ensures var first := Dec(elem, bits, pos, false);
            var all := Behind(items, DecTail(elem, room, bits, pos));
            if first.code < 0 then all.code == first.code && all.pos == first.pos
            else if first.code == 0 then all == Decoding(1, Items(items), first.pos)
            else if room == 0 then all.code == -ERR_INVALID_MARSHAL_DATA && all.pos == first.pos
            else all == Behind(items + [first.value], DecTail(elem, room - 1, bits, first.pos))
  {
    hide Dec;
    var first := Dec(elem, bits, pos, false);
    assert items + [] == items;
    if first.code > 0 && room > 0 {
      var rest := DecTail(elem, room - 1, bits, first.pos);
      assert items + ([first.value] + rest.value.items) == items + [first.value] + rest.value.items;
    }
  }

  method Decode(t: Type, codec: Codec, tao: bool) returns (res: int, value: Value)
    requires WellFormed(t) && codec.stream.buf.Valid() && codec.stream.bitOffset <= 8 * |codec.stream.buf.Contents()|
    modifies codec.stream`bitOffset
    ensures var r := Dec(t, BitsOf(codec.stream.buf.Contents()), old(codec.stream.bitOffset), tao);
            res == r.code && codec.stream.bitOffset == r.pos && (res > 0 ==> value == r.value)
    decreases t, 0
  {
    hide BitsOf, IntSpec.Decoded, Pow2;
    value := Items([]);
    match t
    case Int(spec) =>
      var v;
      res, v := codec.Decode(spec);
      value := Scalar(v);
    case Static(elem, size) =>
      res, value := DecodeItems(elem, size, codec, tao);
    case Dynamic(elem, max) =>
      if Optimized(elem, tao) {
        res, value := DecodeToEnd(elem, max, codec);
      } else {
        SizeValid(max);
        var sz;
        res, sz := codec.Decode(SizeSpec(max));
        if res <= 0 {
          return;
        }
        if sz > max {
          return -ERR_INVALID_MARSHAL_DATA, value;
        }
        UnsignedNat(SizeSpec(max), BitsOf(codec.stream.buf.Contents())[old(codec.stream.bitOffset)..codec.stream.bitOffset]);
        if sz == 0 {
          return 1, Items([]);
        }
        res, value := DecodeItems(elem, sz, codec, tao);
      }
  }

  method DecodeItems(elem: Type, n: nat, codec: Codec, tao: bool) returns (res: int, value: Value)
    requires WellFormed(elem) && codec.stream.buf.Valid() && codec.stream.bitOffset <= 8 * |codec.stream.buf.Contents()|
    modifies codec.stream`bitOffset
    ensures var r := DecAll(elem, n, BitsOf(codec.stream.buf.Contents()), old(codec.stream.bitOffset), tao);
            res == r.code && codec.stream.bitOffset == r.pos && (res > 0 ==> value == r.value)
    decreases elem, n + 1
  {
    hide BitsOf, Dec, DecAll, Behind;
    ghost var bits := BitsOf(codec.stream.buf.Contents());
    ghost var all := DecAll(elem, n, bits, codec.stream.bitOffset, tao);
    BehindNothing(all);
    var i, items := 0, [];
    while i < n
      invariant 0 <= i <= n && codec.stream.bitOffset <= |bits|
      invariant all == Behind(items, DecAll(elem, n - i, bits, codec.stream.bitOffset, tao))
    {
      var v;
      BehindStep(elem, n - i, bits, codec.stream.bitOffset, tao, items);
      res, v := Decode(elem, codec, i == n - 1 && tao);
      if res <= 0 {
        return res, Items([]);
      }
      items := items + [v];
      i := i + 1;
    }
    BehindStep(elem, 0, bits, codec.stream.bitOffset, tao, items);
    return 1, Items(items);
  }

  method DecodeToEnd(elem: Type, max: nat, codec: Codec) returns (res: int, value: Value)
    requires WellFormed(elem) && codec.stream.buf.Valid() && codec.stream.bitOffset <= 8 * |codec.stream.buf.Contents()|
    modifies codec.stream`bitOffset
    ensures var r := DecTail(elem, max, BitsOf(codec.stream.buf.Contents()), old(codec.stream.bitOffset));
            res == r.code && codec.stream.bitOffset == r.pos && (res > 0 ==> value == r.value)
    decreases elem, max + 1
  {
    hide BitsOf, Dec, DecTail, Behind, WellFormed;
    ghost var bits := BitsOf(codec.stream.buf.Contents());
    ghost var all := DecTail(elem, max, bits, codec.stream.bitOffset);
    BehindNothing(all);
    var items := [];
    while true
      invariant |items| <= max && codec.stream.bitOffset <= |bits|
      invariant all == Behind(items, DecTail(elem, max - |items|, bits, codec.stream.bitOffset))
      decreases max - |items|
    {
      var v;
      BehindTailStep(elem, max - |items|, bits, codec.stream.bitOffset, items);
      res, v := Decode(elem, codec, false);
      if res < 0 {
        return res, Items([]);
      }
      if res == 0 {
        return 1, Items(items);
      }
      if |items| == max {
        return -ERR_INVALID_MARSHAL_DATA, Items([]);
      }
      items := items + [v];
    }
  }

  /** Through a stream and back, behind whatever was written before: every value of the type comes out as it went in, if and
      only if it fits. */
  method ThereAndBack(t: Type, v: Value, encoder: Codec, tao: bool, ghost w: seq<bool>) returns (res: int, value: Value)
    requires WellFormed(t) && Has(t, v) && encoder.stream.Writing(w)
    modifies encoder.stream, encoder.stream.buf, encoder.stream.buf.data
    ensures res == 1 <==> |w| + |Enc(t, v, tao)| <= 8 * encoder.stream.buf.data.Length
    ensures res == 1 ==> value == v
  {
    hide Enc, Dec, Has, WellFormed, Holds, BitsOf;
    value := v;
    var start := encoder.stream.bitOffset;
    res := Encode(t, v, encoder, tao, w);
    if res == 1 {
      var back := new Stream(encoder.stream.buf);
      back.bitOffset := start;
      var decoder := new Codec(back);
      ReadBack(t, v, w, back.buf.Contents(), tao);
      res, value := Decode(t, decoder, tao);
    }
  }

  lemma ReadBack(t: Type, v: Value, w: seq<bool>, s: seq<Byte>, tao: bool)
    requires WellFormed(t) && Has(t, v) && Holds(s, w + Enc(t, v, tao))
    ensures |w| <= 8 * |s|
    ensures var r := Dec(t, BitsOf(s), |w|, tao); r.code == 1 && r.value == v
  {
    hide Enc, Dec, BitsOf, Holds, Has, WellFormed;
    if tao {
      TailArrayLossless(t, v, w, s);
    } else {
      var x := w + Enc(t, v, false);
      HoldsLength(s, x);
      HoldsBits(s, x);
      assert BitsOf(s)[..|x|][|w|..] == Enc(t, v, false);
      Lossless(t, v, BitsOf(s), |w|, false);
    }
  }
}
