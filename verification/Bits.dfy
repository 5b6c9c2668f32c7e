/**
  Machine words as bit strings, most significant bit first.

  An 8-, 16- or 32-bit word of the library is the sequence of its bits, so a mask is a pointwise
  operation, a field extraction is a slice, and a shift is a slice padded with zeros.  `Num` and
  `ToBits` connect bit strings with the numbers they denote.
 */
module Bits {

  type Byte = b: seq<bool> | |b| == 8 witness seq(8, _ => false)
  type Word16 = b: seq<bool> | |b| == 16 witness seq(16, _ => false)
  type Word32 = b: seq<bool> | |b| == 32 witness seq(32, _ => false)

  function Concat(hi: seq<bool>, lo: seq<bool>): seq<bool> { hi + lo }

  /** A word from its two bytes. */
  function Word(hi: Byte, lo: Byte): Word16 { Concat(hi, lo) }

  // ----- Bitwise operators

  function Zeros(n: nat): (r: seq<bool>)
    ensures |r| == n
  {
    seq(n, _ => false)
  }

  function Xor(a: seq<bool>, b: seq<bool>): (r: seq<bool>)
    requires |a| == |b|
    ensures |r| == |a|
  {
    seq(|a|, i requires 0 <= i < |a| => a[i] != b[i])
  }

  function And(a: seq<bool>, b: seq<bool>): (r: seq<bool>)
    requires |a| == |b|
    ensures |r| == |a|
  {
    seq(|a|, i requires 0 <= i < |a| => a[i] && b[i])
  }

  function Or(a: seq<bool>, b: seq<bool>): (r: seq<bool>)
    requires |a| == |b|
    ensures |r| == |a|
  {
    seq(|a|, i requires 0 <= i < |a| => a[i] || b[i])
  }

  function Not(a: seq<bool>): (r: seq<bool>)
    ensures |r| == |a|
  {
    seq(|a|, i requires 0 <= i < |a| => !a[i])
  }

  function Shl(a: seq<bool>, n: nat): (r: seq<bool>)
    ensures |r| == |a|
  {
    if n <= |a| then a[n..] + Zeros(n) else Zeros(|a|)
  }

  function Shr(a: seq<bool>, n: nat): (r: seq<bool>)
    ensures |r| == |a|
  {
    if n <= |a| then Zeros(n) + a[..|a| - n] else Zeros(|a|)
  }

  // ----- Numbers

  function Min(a: int, b: int): int { if a < b then a else b }

  function Max(a: int, b: int): int { if a < b then b else a }

  ghost predicate NoRepeats(s: seq<nat>) { forall i, j :: 0 <= i < j < |s| ==> s[i] != s[j] }

  function Digit(b: bool): nat { if b then 1 else 0 }

  function Pow2(n: nat): (r: nat)
    ensures r > 0
  {
    if n == 0 then 1 else 2 * Pow2(n - 1)
  }

  /** The number a bit string denotes. */
  function Num(bs: seq<bool>): (r: nat)
    ensures r < Pow2(|bs|)
  {
    if bs == [] then 0 else 2 * Num(bs[..|bs| - 1]) + Digit(bs[|bs| - 1])
  }

  /** The low `w` bits of a number. */
  function ToBits(v: nat, w: nat): (r: seq<bool>)
    ensures |r| == w
  {
    if w == 0 then [] else ToBits(v / 2, w - 1) + [v % 2 == 1]
  }

  lemma {:induction false} Pow2Add(m: nat, n: nat)
    ensures Pow2(m + n) == Pow2(m) * Pow2(n)
  {
    if n > 0 {
      Pow2Add(m, n - 1);
    }
  }

  lemma {:induction false} NumToBits(v: nat, w: nat)
    requires v < Pow2(w)
    ensures Num(ToBits(v, w)) == v
  {
    if w > 0 {
      NumToBits(v / 2, w - 1);
      assert ToBits(v, w)[..w - 1] == ToBits(v / 2, w - 1);
    }
  }

  lemma {:induction false} ToBitsNum(bs: seq<bool>)
    ensures ToBits(Num(bs), |bs|) == bs
  {
    if bs != [] {
      ToBitsNum(bs[..|bs| - 1]);
    }
  }

  /** Distinct bit strings of one length denote distinct numbers. */
  lemma NumInjective(a: seq<bool>, b: seq<bool>)
    requires |a| == |b| && Num(a) == Num(b)
    ensures a == b
  {
    ToBitsNum(a);
    ToBitsNum(b);
  }

  lemma MulTwice(x: int, p: int)
    ensures x * (2 * p) == 2 * (x * p)
  {}

  lemma AppendDigit(x: nat, p: nat, y: nat, d: nat)
    ensures 2 * (x * p + y) + d == x * (2 * p) + (2 * y + d)
  {
    MulTwice(x, p);
  }

  lemma {:induction false} NumConcat(a: seq<bool>, b: seq<bool>)
    ensures Num(a + b) == Num(a) * Pow2(|b|) + Num(b)
  {
    if b == [] {
      assert a + b == a;
    } else {
      var n := |b| - 1;
      assert (a + b)[..|a + b| - 1] == a + b[..n];
      NumConcat(a, b[..n]);
      assert Num(a + b) == 2 * Num(a + b[..n]) + Digit(b[n]) && Num(b) == 2 * Num(b[..n]) + Digit(b[n]);
      AppendDigit(Num(a), Pow2(n), Num(b[..n]), Digit(b[n]));
    }
  }

  lemma {:induction false} NumZeros(n: nat)
    ensures Num(Zeros(n)) == 0
  {
    if n > 0 {
      assert Zeros(n)[..n - 1] == Zeros(n - 1);
      NumZeros(n - 1);
    }
  }

  lemma {:induction false} NumZeroExtended(n: nat, bs: seq<bool>)
    ensures Num(Zeros(n) + bs) == Num(bs)
  {
    var xs := Zeros(n) + bs;
    if bs == [] {
      NumZeros(n);
      assert xs == Zeros(n);
    } else {
      NumZeroExtended(n, bs[..|bs| - 1]);
      assert xs[..|xs| - 1] == Zeros(n) + bs[..|bs| - 1];
    }
  }

  /** Truncating a number to its low bits keeps the trailing part of its bit string. */
  lemma {:induction false} ToBitsSuffix(v: nat, w: nat, k: nat)
    requires k <= w
    ensures ToBits(v, w)[w - k..] == ToBits(v, k)
  {
    if k > 0 {
      ToBitsSuffix(v / 2, w - 1, k - 1);
    }
  }

  lemma {:induction false} ToBitsMod(v: nat, w: nat)
    ensures ToBits(v, w) == ToBits(v % Pow2(w), w)
  {
    if w > 0 {
      HalfMod(v, Pow2(w - 1));
      ToBitsMod(v / 2, w - 1);
    }
  }

  lemma HalfMod(v: nat, p: nat)
    requires p > 0
    ensures (v % (2 * p)) / 2 == (v / 2) % p && (v % (2 * p)) % 2 == v % 2
  {
    var q, r := v / (2 * p), v % (2 * p);
    assert v == 2 * (p * q) + r by {
      assert v == 2 * p * q + r;
    }
    assert r / 2 < p;
    ModUnique(v / 2, p, q, r / 2);
  }

  lemma {:induction false} ToBitsAt(v: nat, w: nat, k: nat)
    requires k < w
    ensures ToBits(v, w)[w - 1 - k] <==> v / Pow2(k) % 2 == 1
  {
    if k > 0 {
      ToBitsAt(v / 2, w - 1, k - 1);
      DivTwice(v, Pow2(k - 1));
    }
  }

  lemma DivTwice(v: nat, p: nat)
    requires p > 0
    ensures v / (2 * p) == v / 2 / p
  {
    var a, b := v / 2, v % 2;
    var q, r := a / p, a % p;
    assert v == (2 * p) * q + (2 * r + b) by { assert v == 2 * (p * q + r) + b; }
    ModUnique(v, 2 * p, q, 2 * r + b);
  }

  /** Inverting a bit of a string adds or subtracts its weight. */
  lemma {:induction false} NumFlip(bs: seq<bool>, i: nat)
    requires i < |bs|
    ensures var p := Pow2(|bs| - 1 - i);
            if bs[i] then Num(bs[i := !bs[i]]) + p == Num(bs) else Num(bs[i := !bs[i]]) == Num(bs) + p
  {
    var n := |bs| - 1;
    var cs := bs[i := !bs[i]];
    if i == n {
      assert cs[..n] == bs[..n];
    } else {
      NumFlip(bs[..n], i);
      assert cs[..n] == bs[..n][i := !bs[i]];
    }
  }

  lemma ToggleBit(x: nat, y: int, w: nat, k: nat)
    requires k < w && x < Pow2(w)
    requires y == if x / Pow2(k) % 2 == 1 then x - Pow2(k) else x + Pow2(k)
    ensures 0 <= y < Pow2(w)
    ensures ToBits(y, w) == ToBits(x, w)[w - 1 - k := !ToBits(x, w)[w - 1 - k]]
  {
    hide *;
    var bs, i := ToBits(x, w), w - 1 - k;
    ToBitsAt(x, w, k);
    NumToBits(x, w);
    NumFlip(bs, i);
    ToBitsNum(bs[i := !bs[i]]);
  }

  lemma MulGrows(m: nat, d: int)
    ensures d >= 1 ==> m * d >= m
    ensures d <= -1 ==> m * d + m <= 0
  {}

  lemma Scaled(x: nat, a: nat, b: nat)
    requires a <= b
    ensures x * a <= x * b
  {}

  lemma ModUnique(x: int, m: nat, q: int, r: nat)
    requires r < m && x == m * q + r
    ensures x / m == q && x % m == r
  {
    var d := x / m - q;
    assert m * d == m * (x / m) - m * q;
    MulGrows(m, d);
  }
}
