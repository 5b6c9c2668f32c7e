/**
  CRC-16-CCITT of transfer payloads: initial value 0xFFFF, polynomial 0x1021, no reflection.

  The library carries two implementations, a bitwise one for small targets and a table-driven one.
  `Update` is the reference: one polynomial division step per bit.  Both implementations are proved
  equal to it, and the code is proved to notice every corruption confined to two adjacent bytes.
 */
module Crc {
  import opened Bits


  function Initial(): Word16 { Not(Zeros(16)) }

  /** x^12 + x^5 + 1, below the implicit x^16: the constant 0x1021. */
  function Poly(): Word16 {
    [false, false, false, true, false, false, false, false, false, false, true, false, false, false, false, true]
  }

  /** One division step: shift in a zero, reduce by the polynomial if a one fell out. */
  function ShiftBit(v: Word16): Word16 {
    if v[0] then Xor(v[1..] + [false], Poly()) else v[1..] + [false]
  }

  /** `n` division steps. */
  function Shift(v: Word16, n: nat): Word16 {
    if n == 0 then v else ShiftBit(Shift(v, n - 1))
  }

  /** Reference: absorb one byte. */
  function AddByte(v: Word16, b: Byte): Word16 {
    Shift(Xor(v, b + Zeros(8)), 8)
  }

  /** Reference: absorb a byte string. */
  function Update(v: Word16, bytes: seq<Byte>): Word16 {
    if bytes == [] then v
    else AddByte(Update(v, bytes[..|bytes| - 1]), bytes[|bytes| - 1])
  }

  // ----- The division steps are linear and invertible

  lemma ShiftBitLinear(a: Word16, b: Word16)
    ensures ShiftBit(Xor(a, b)) == Xor(ShiftBit(a), ShiftBit(b))
  {}

  lemma {:induction false} ShiftLinear(a: Word16, b: Word16, n: nat)
    ensures Shift(Xor(a, b), n) == Xor(Shift(a, n), Shift(b, n))
  {
    if n > 0 {
      ShiftLinear(a, b, n - 1);
      ShiftBitLinear(Shift(a, n - 1), Shift(b, n - 1));
    }
  }

  /** The polynomial has a constant term, so a division step can be undone. */
  lemma ShiftBitInjective(a: Word16, b: Word16)
    requires ShiftBit(a) == ShiftBit(b)
    ensures a == b
  {
    var x, y := ShiftBit(a), ShiftBit(b);
    assert x[15] == a[0] && y[15] == b[0];
    forall j | 0 <= j < 16
      ensures a[j] == b[j]
    {
      if j > 0 {
        assert x[j - 1] == (a[j] != (a[0] && Poly()[j - 1]));
        assert y[j - 1] == (b[j] != (b[0] && Poly()[j - 1]));
      }
    }
  }

  lemma {:induction false} ShiftInjective(a: Word16, b: Word16, n: nat)
    requires Shift(a, n) == Shift(b, n)
    ensures a == b
  {
    if n > 0 {
      ShiftBitInjective(Shift(a, n - 1), Shift(b, n - 1));
      ShiftInjective(a, b, n - 1);
    }
  }

  lemma {:induction false} ShiftCompose(v: Word16, m: nat, n: nat)
    ensures Shift(Shift(v, m), n) == Shift(v, m + n)
  {
    if n > 0 {
      ShiftCompose(v, m, n - 1);
    }
  }

  /** As long as only zeros fall out, a division step is a plain shift. */
  lemma {:induction false} ShiftZeros(v: Word16, n: nat)
    requires n <= 16 && forall i :: 0 <= i < n ==> !v[i]
    ensures Shift(v, n) == v[n..] + Zeros(n)
  {
    if n > 0 {
      ShiftZeros(v, n - 1);
    }
  }

  // ----- The constant table

  // The 256 entries, in 32 rows of eight.
  const ROW0: seq<nat> := [0x0000, 0x1021, 0x2042, 0x3063, 0x4084, 0x50A5, 0x60C6, 0x70E7]
  const ROW1: seq<nat> := [0x8108, 0x9129, 0xA14A, 0xB16B, 0xC18C, 0xD1AD, 0xE1CE, 0xF1EF]
  const ROW2: seq<nat> := [0x1231, 0x0210, 0x3273, 0x2252, 0x52B5, 0x4294, 0x72F7, 0x62D6]
  const ROW3: seq<nat> := [0x9339, 0x8318, 0xB37B, 0xA35A, 0xD3BD, 0xC39C, 0xF3FF, 0xE3DE]
  const ROW4: seq<nat> := [0x2462, 0x3443, 0x0420, 0x1401, 0x64E6, 0x74C7, 0x44A4, 0x5485]
  const ROW5: seq<nat> := [0xA56A, 0xB54B, 0x8528, 0x9509, 0xE5EE, 0xF5CF, 0xC5AC, 0xD58D]
  const ROW6: seq<nat> := [0x3653, 0x2672, 0x1611, 0x0630, 0x76D7, 0x66F6, 0x5695, 0x46B4]
  const ROW7: seq<nat> := [0xB75B, 0xA77A, 0x9719, 0x8738, 0xF7DF, 0xE7FE, 0xD79D, 0xC7BC]
  const ROW8: seq<nat> := [0x48C4, 0x58E5, 0x6886, 0x78A7, 0x0840, 0x1861, 0x2802, 0x3823]
  const ROW9: seq<nat> := [0xC9CC, 0xD9ED, 0xE98E, 0xF9AF, 0x8948, 0x9969, 0xA90A, 0xB92B]
  const ROW10: seq<nat> := [0x5AF5, 0x4AD4, 0x7AB7, 0x6A96, 0x1A71, 0x0A50, 0x3A33, 0x2A12]
  const ROW11: seq<nat> := [0xDBFD, 0xCBDC, 0xFBBF, 0xEB9E, 0x9B79, 0x8B58, 0xBB3B, 0xAB1A]
  const ROW12: seq<nat> := [0x6CA6, 0x7C87, 0x4CE4, 0x5CC5, 0x2C22, 0x3C03, 0x0C60, 0x1C41]
  const ROW13: seq<nat> := [0xEDAE, 0xFD8F, 0xCDEC, 0xDDCD, 0xAD2A, 0xBD0B, 0x8D68, 0x9D49]
  const ROW14: seq<nat> := [0x7E97, 0x6EB6, 0x5ED5, 0x4EF4, 0x3E13, 0x2E32, 0x1E51, 0x0E70]
  const ROW15: seq<nat> := [0xFF9F, 0xEFBE, 0xDFDD, 0xCFFC, 0xBF1B, 0xAF3A, 0x9F59, 0x8F78]
  const ROW16: seq<nat> := [0x9188, 0x81A9, 0xB1CA, 0xA1EB, 0xD10C, 0xC12D, 0xF14E, 0xE16F]
  const ROW17: seq<nat> := [0x1080, 0x00A1, 0x30C2, 0x20E3, 0x5004, 0x4025, 0x7046, 0x6067]
  const ROW18: seq<nat> := [0x83B9, 0x9398, 0xA3FB, 0xB3DA, 0xC33D, 0xD31C, 0xE37F, 0xF35E]
  const ROW19: seq<nat> := [0x02B1, 0x1290, 0x22F3, 0x32D2, 0x4235, 0x5214, 0x6277, 0x7256]
  const ROW20: seq<nat> := [0xB5EA, 0xA5CB, 0x95A8, 0x8589, 0xF56E, 0xE54F, 0xD52C, 0xC50D]
  const ROW21: seq<nat> := [0x34E2, 0x24C3, 0x14A0, 0x0481, 0x7466, 0x6447, 0x5424, 0x4405]
  const ROW22: seq<nat> := [0xA7DB, 0xB7FA, 0x8799, 0x97B8, 0xE75F, 0xF77E, 0xC71D, 0xD73C]
  const ROW23: seq<nat> := [0x26D3, 0x36F2, 0x0691, 0x16B0, 0x6657, 0x7676, 0x4615, 0x5634]
  const ROW24: seq<nat> := [0xD94C, 0xC96D, 0xF90E, 0xE92F, 0x99C8, 0x89E9, 0xB98A, 0xA9AB]
  const ROW25: seq<nat> := [0x5844, 0x4865, 0x7806, 0x6827, 0x18C0, 0x08E1, 0x3882, 0x28A3]
  const ROW26: seq<nat> := [0xCB7D, 0xDB5C, 0xEB3F, 0xFB1E, 0x8BF9, 0x9BD8, 0xABBB, 0xBB9A]
  const ROW27: seq<nat> := [0x4A75, 0x5A54, 0x6A37, 0x7A16, 0x0AF1, 0x1AD0, 0x2AB3, 0x3A92]
  const ROW28: seq<nat> := [0xFD2E, 0xED0F, 0xDD6C, 0xCD4D, 0xBDAA, 0xAD8B, 0x9DE8, 0x8DC9]
  const ROW29: seq<nat> := [0x7C26, 0x6C07, 0x5C64, 0x4C45, 0x3CA2, 0x2C83, 0x1CE0, 0x0CC1]
  const ROW30: seq<nat> := [0xEF1F, 0xFF3E, 0xCF5D, 0xDF7C, 0xAF9B, 0xBFBA, 0x8FD9, 0x9FF8]
  const ROW31: seq<nat> := [0x6E17, 0x7E36, 0x4E55, 0x5E74, 0x2E93, 0x3EB2, 0x0ED1, 0x1EF0]

  const ROWS: seq<seq<nat>> :=
    [ROW0, ROW1, ROW2, ROW3, ROW4, ROW5, ROW6, ROW7,
     ROW8, ROW9, ROW10, ROW11, ROW12, ROW13, ROW14, ROW15,
     ROW16, ROW17, ROW18, ROW19, ROW20, ROW21, ROW22, ROW23,
     ROW24, ROW25, ROW26, ROW27, ROW28, ROW29, ROW30, ROW31]

  predicate Bit(v: nat, p: nat)
    requires p > 0
  {
    v / p % 2 == 1
  }

  /** `y` is `x` xor 0x1021, written with the three bits that change. */
  predicate DiffersByPoly(x: nat, y: nat) {
    y == x + (if Bit(x, 0x1000) then -0x1000 else 0x1000)
           + (if Bit(x, 0x20) then -0x20 else 0x20)
           + (if Bit(x, 1) then -1 else 1)
  }

  /** Entry 2i is one division step from entry i, and entry 2i+1 differs from it by the polynomial. */
  predicate Doubles(x: nat, even: nat, odd: nat) {
    && x < 0x10000
    && (if x < 0x8000 then even == 2 * x else DiffersByPoly(2 * x - 0x10000, even))
    && DiffersByPoly(even, odd)
  }

  predicate RowDoubles(x: seq<nat>, lo: seq<nat>, hi: seq<nat>)
    requires |x| == |lo| == |hi| == 8
  {
    && Doubles(x[0], lo[0], lo[1]) && Doubles(x[1], lo[2], lo[3])
    && Doubles(x[2], lo[4], lo[5]) && Doubles(x[3], lo[6], lo[7])
    && Doubles(x[4], hi[0], hi[1]) && Doubles(x[5], hi[2], hi[3])
    && Doubles(x[6], hi[4], hi[5]) && Doubles(x[7], hi[6], hi[7])
  }

  /** The remainder of the polynomial whose top byte is `i`. */
  function Remainder(i: nat): Word16 {
    Shift(ToBits(i, 8) + Zeros(8), 8)
  }

  predicate RowCorrect(row: seq<nat>, r: nat) {
    |row| == 8 && forall c :: 0 <= c < 8 ==> EntryCorrect(row[c], 8 * r + c)
  }

  predicate EntryCorrect(v: nat, i: nat) {
    v < 0x10000 && ToBits(v, 16) == Remainder(i)
  }

  lemma RowStep(x: seq<nat>, lo: seq<nat>, hi: seq<nat>, r: nat)
    requires |x| == |lo| == |hi| == 8 && RowDoubles(x, lo, hi)
    requires r < 16 && RowCorrect(x, r)
    ensures RowCorrect(lo, 2 * r) && RowCorrect(hi, 2 * r + 1)
  {
    hide EntryCorrect, RowDoubles;
    forall c | 0 <= c < 8
      ensures EntryCorrect(lo[c], 8 * (2 * r) + c) && EntryCorrect(hi[c], 8 * (2 * r + 1) + c)
    {
      RowStepAt(x, lo, hi, r, c);
      RowStepAt(x, lo, hi, r, 8 + c);
    }
  }

  lemma RowStepAt(x: seq<nat>, lo: seq<nat>, hi: seq<nat>, r: nat, c: nat)
    requires |x| == |lo| == |hi| == 8 && RowDoubles(x, lo, hi)
    requires r < 16 && c < 16 && RowCorrect(x, r)
    ensures EntryCorrect((lo + hi)[c], 16 * r + c)
  {
    hide Doubles, EntryCorrect, RowDoubles;
    var h := c / 2;
    var y := lo + hi;
    var j := 8 * r + h;
    assert Doubles(x[h], y[2 * h], y[2 * h + 1]) by { RowDoublesAt(x, lo, hi, h); }
    assert EntryCorrect(x[h], j);
    DoublesCorrect(x[h], y[2 * h], y[2 * h + 1], j);
    assert c == 2 * h || c == 2 * h + 1;
  }

  lemma RowDoublesAt(x: seq<nat>, lo: seq<nat>, hi: seq<nat>, c: nat)
    requires |x| == |lo| == |hi| == 8 && RowDoubles(x, lo, hi)
    requires c < 8
    ensures Doubles(x[c], (lo + hi)[2 * c], (lo + hi)[2 * c + 1])
  {}

  /** Doubling the index is one more division step. */
  lemma RemainderEven(i: nat)
    requires i < 128
    ensures Remainder(2 * i) == ShiftBit(Remainder(i))
  {
    var w: Word16 := ToBits(i, 8) + Zeros(8);
    assert Pow2(3) == 8 && Pow2(7) == 128;
    TopBitClear(i, 8);
    assert ToBits(2 * i, 8) == ToBits(i, 7) + [false];
    assert ShiftBit(w) == ToBits(2 * i, 8) + Zeros(8);
    ShiftCompose(w, 1, 8);
    assert Shift(w, 1) == ShiftBit(Shift(w, 0));
    assert Shift(w, 9) == ShiftBit(Shift(w, 8));
  }

  lemma RemainderOdd(i: nat)
    requires i < 128
    ensures Remainder(2 * i + 1) == Xor(Remainder(2 * i), Poly())
  {
    hide Shift, ShiftBit, ToBits, Poly;
    var w: Word16 := ToBits(2 * i, 8) + Zeros(8);
    var e: Word16 := Zeros(7) + [true] + Zeros(8);
    DoubledBits(i, 8);
    assert ToBits(2 * i + 1, 8) + Zeros(8) == Xor(w, e);
    ShiftLinear(w, e, 8);
    UnitShift(e);
  }

  /** Eight steps bring the lowest bit of the index to the top and out, leaving the polynomial. */
  lemma UnitShift(e: Word16)
    requires e == Zeros(7) + [true] + Zeros(8)
    ensures Shift(e, 8) == Poly()
  {
    hide Poly;
    ShiftZeros(e, 7);
    var t: Word16 := e[7..] + Zeros(7);
    assert Shift(e, 8) == ShiftBit(t);
    assert t[1..] + [false] == Zeros(16);
    XorZeros(Poly());
  }

  lemma XorZeros(p: Word16)
    ensures Xor(Zeros(16), p) == p
  {}

  lemma TopBitClear(i: nat, w: nat)
    requires w > 0 && i < Pow2(w - 1)
    ensures ToBits(i, w) == [false] + ToBits(i, w - 1)
  {
    hide *;
    ToBitsAt(i, w, w - 1);
    ToBitsSuffix(i, w, w - 1);
    ModUnique(i, Pow2(w - 1), 0, i);
    var b := ToBits(i, w);
    assert b == [b[0]] + b[1..];
  }

  lemma PolyBits(x: nat, y: nat)
    requires x < 0x10000 && DiffersByPoly(x, y)
    ensures y < 0x10000 && ToBits(y, 16) == Xor(ToBits(x, 16), Poly())
  {
    hide ToBits, Pow2, Xor, Poly;
    PowTable();
    var x1 := x + (if Bit(x, 0x1000) then -0x1000 else 0x1000);
    ToggleBit(x, x1, 16, 12);
    ToBitsAt(x, 16, 5);
    ToBitsAt(x1, 16, 5);
    var x2 := x1 + (if Bit(x, 0x20) then -0x20 else 0x20);
    ToggleBit(x1, x2, 16, 5);
    ToBitsAt(x, 16, 0);
    ToBitsAt(x2, 16, 0);
    ToggleBit(x2, y, 16, 0);
    Toggled(ToBits(x, 16), ToBits(x1, 16), ToBits(x2, 16), ToBits(y, 16));
  }

  lemma PowTable()
    ensures Pow2(0) == 1 && Pow2(5) == 32 && Pow2(12) == 0x1000 && Pow2(15) == 0x8000 && Pow2(16) == 0x10000
  {
    assert Pow2(4) == 16 && Pow2(8) == 256;
  }

  /** The three coefficients of the polynomial, inverted one by one. */
  lemma Toggled(b: Word16, b1: Word16, b2: Word16, b3: Word16)
    requires b1 == b[3 := !b[3]] && b2 == b1[10 := !b1[10]] && b3 == b2[15 := !b2[15]]
    ensures b3 == Xor(b, Poly())
  {}

  lemma {:induction false} DoubledBits(m: nat, w: nat)
    requires w > 0
    ensures ToBits(2 * m, w) == ToBits(m, w - 1) + [false] && ToBits(2 * m + 1, w) == ToBits(m, w - 1) + [true]
  {
    assert 2 * m / 2 == m && (2 * m + 1) / 2 == m;
  }

  lemma DoubleBits(x: nat, w: nat)
    requires w > 0 && x < 2 * Pow2(w - 1)
    ensures var d := if x < Pow2(w - 1) then 2 * x else 2 * x - 2 * Pow2(w - 1);
            && ToBits(d, w) == ToBits(x, w)[1..] + [false]
            && (ToBits(x, w)[0] <==> x >= Pow2(w - 1))
  {
    hide ToBits, Pow2;
    var p := Pow2(w - 1);
    var m := if x < p then x else x - p;
    ModUnique(x, p, if x < p then 0 else 1, m);
    ToBitsAt(x, w, w - 1);
    ToBitsSuffix(x, w, w - 1);
    ToBitsMod(x, w - 1);
    DoubledBits(m, w);
  }

  lemma DoublesCorrect(x: nat, even: nat, odd: nat, i: nat)
    requires Doubles(x, even, odd) && i < 128
    requires EntryCorrect(x, i)
    ensures EntryCorrect(even, 2 * i) && EntryCorrect(odd, 2 * i + 1)
  {
    hide ToBits, Pow2, DiffersByPoly, Remainder, Xor, Poly;
    RemainderEven(i);
    RemainderOdd(i);
    PowTable();
    DoubleBits(x, 16);
    if x >= 0x8000 {
      PolyBits(2 * x - 0x10000, even);
    }
    PolyBits(even, odd);
  }

  lemma RowDoubles0() ensures RowDoubles(ROW0, ROW0, ROW1) {}
  lemma RowDoubles1() ensures RowDoubles(ROW1, ROW2, ROW3) {}
  lemma RowDoubles2() ensures RowDoubles(ROW2, ROW4, ROW5) {}
  lemma RowDoubles3() ensures RowDoubles(ROW3, ROW6, ROW7) {}
  lemma RowDoubles4() ensures RowDoubles(ROW4, ROW8, ROW9) {}
  lemma RowDoubles5() ensures RowDoubles(ROW5, ROW10, ROW11) {}
  lemma RowDoubles6() ensures RowDoubles(ROW6, ROW12, ROW13) {}
  lemma RowDoubles7() ensures RowDoubles(ROW7, ROW14, ROW15) {}
  lemma RowDoubles8() ensures RowDoubles(ROW8, ROW16, ROW17) {}
  lemma RowDoubles9() ensures RowDoubles(ROW9, ROW18, ROW19) {}
  lemma RowDoubles10() ensures RowDoubles(ROW10, ROW20, ROW21) {}
  lemma RowDoubles11() ensures RowDoubles(ROW11, ROW22, ROW23) {}
  lemma RowDoubles12() ensures RowDoubles(ROW12, ROW24, ROW25) {}
  lemma RowDoubles13() ensures RowDoubles(ROW13, ROW26, ROW27) {}
  lemma RowDoubles14() ensures RowDoubles(ROW14, ROW28, ROW29) {}
  lemma RowDoubles15() ensures RowDoubles(ROW15, ROW30, ROW31) {}

  lemma FirstRow(x: seq<nat>, hi: seq<nat>)
    requires |x| == |hi| == 8 && RowDoubles(x, x, hi) && x[0] == 0
    ensures RowCorrect(x, 0)
  {
    hide Doubles, EntryCorrect;
    ZeroCorrect();
    DoublesCorrect(x[0], x[0], x[1], 0);
    DoublesCorrect(x[1], x[2], x[3], 1);
    DoublesCorrect(x[2], x[4], x[5], 2);
    DoublesCorrect(x[3], x[6], x[7], 3);
  }

  lemma ZeroCorrect()
    ensures EntryCorrect(0, 0)
  {
    hide ToBits;
    AllZeros(8);
    AllZeros(16);
    assert Zeros(8) + Zeros(8) == Zeros(16);
    ShiftZeros(Zeros(16), 8);
    assert Zeros(16)[8..] + Zeros(8) == Zeros(16);
  }

  lemma {:induction false} AllZeros(w: nat)
    ensures ToBits(0, w) == Zeros(w)
  {
    if w > 0 {
      AllZeros(w - 1);
    }
  }

  lemma SecondRow(x: seq<nat>, hi: seq<nat>)
    requires |x| == |hi| == 8 && RowDoubles(x, x, hi) && x[0] == 0
    ensures RowCorrect(hi, 1)
  {
    FirstRow(x, hi);
    RowStep(x, x, hi, 0);
  }

  /** Row 0 starts with zero, and rows 2h and 2h+1 follow from row h. */
  predicate TableDoubles(rows: seq<seq<nat>>) {
    && |rows| == 32 && (forall r :: 0 <= r < 32 ==> |rows[r]| == 8) && rows[0][0] == 0
    && forall h :: 0 <= h < 16 ==> RowDoubles(rows[h], rows[2 * h], rows[2 * h + 1])
  }

  lemma {:induction false} RowsCorrect(rows: seq<seq<nat>>, r: nat)
    requires TableDoubles(rows) && r < 32
    ensures RowCorrect(rows[r], r)
  {
    hide RowDoubles, EntryCorrect;
    var h := r / 2;
    assert RowDoubles(rows[h], rows[2 * h], rows[2 * h + 1]);
    if h == 0 {
      FirstRow(rows[0], rows[1]);
      SecondRow(rows[0], rows[1]);
    } else {
      RowsCorrect(rows, h);
      RowStep(rows[h], rows[2 * h], rows[2 * h + 1], h);
    }
  }

  lemma RowDoublesOf(h: nat)
    requires h < 16
    ensures |ROWS| == 32 && |ROWS[h]| == |ROWS[2 * h]| == |ROWS[2 * h + 1]| == 8
    ensures RowDoubles(ROWS[h], ROWS[2 * h], ROWS[2 * h + 1])
  {
    hide RowDoubles;
    RowDoubles0();
    RowDoubles1();
    RowDoubles2();
    RowDoubles3();
    RowDoubles4();
    RowDoubles5();
    RowDoubles6();
    RowDoubles7();
    RowDoubles8();
    RowDoubles9();
    RowDoubles10();
    RowDoubles11();
    RowDoubles12();
    RowDoubles13();
    RowDoubles14();
    RowDoubles15();
  }

  predicate Correct(rows: seq<seq<nat>>) {
    |rows| == 32 && forall r :: 0 <= r < 32 ==> RowCorrect(rows[r], r)
  }

  lemma AllCorrect()
    ensures Correct(ROWS)
  {
    hide RowDoubles, RowCorrect;
    forall h | 0 <= h < 16
      ensures |ROWS[h]| == |ROWS[2 * h]| == |ROWS[2 * h + 1]| == 8 && RowDoubles(ROWS[h], ROWS[2 * h], ROWS[2 * h + 1])
    {
      RowDoublesOf(h);
    }
    assert forall r :: 0 <= r < 32 ==> |ROWS[r]| == 8;
    forall r | 0 <= r < 32
      ensures RowCorrect(ROWS[r], r)
    {
      RowsCorrect(ROWS, r);
    }
  }

  function Lookup(rows: seq<seq<nat>>, n: nat): (v: nat)
    requires Correct(rows) && n < 256
    ensures ToBits(v, 16) == Remainder(n)
  {
    var r, c := n / 8, n % 8;
    assert RowCorrect(rows[r], r);
    assert EntryCorrect(rows[r][c], 8 * r + c);
    rows[r][c]
  }

  lemma NumByte(i: Byte)
    ensures Num(i) < 256
  {
    assert Pow2(4) == 16 && Pow2(8) == 256;
  }

  /** The table lookup: every one of the 256 entries is the remainder of its own index. */
  function Table(i: Byte): (v: Word16)
    ensures v == Shift(i + Zeros(8), 8)
  {
    AllCorrect();
    NumByte(i);
    ToBitsNum(i);
    ToBits(Lookup(ROWS, Num(i)), 16)
  }

  /** The table-driven step is the bitwise step, for every register value and every byte. */
  lemma TableStepIsBitwise(v: Word16, b: Byte)
    ensures Xor(v[8..] + Zeros(8), Table(Xor(v[..8], b))) == AddByte(v, b)
  {
    var i: Byte := Xor(v[..8], b);
    var lo: Word16 := Zeros(8) + v[8..];
    assert Xor(v, b + Zeros(8)) == Xor(i + Zeros(8), lo);
    ShiftLinear(i + Zeros(8), lo, 8);
    ShiftZeros(lo, 8);
    assert lo[8..] == v[8..];
    XorCommutes(v[8..] + Zeros(8), Table(i));
  }

  lemma XorCommutes(a: seq<bool>, b: seq<bool>)
    requires |a| == |b|
    ensures Xor(a, b) == Xor(b, a)
  {}

  // ----- Byte strings

  lemma {:induction false} UpdateConcat(v: Word16, a: seq<Byte>, b: seq<Byte>)
    ensures Update(v, a + b) == Update(Update(v, a), b)
  {
    if b == [] {
      assert a + b == a;
    } else {
      var n := |b| - 1;
      assert (a + b)[..|a + b| - 1] == a + b[..n];
      UpdateConcat(v, a, b[..n]);
    }
  }

  lemma XorCancels(a: seq<bool>, b: seq<bool>, c: seq<bool>)
    requires |a| == |b| == |c| && Xor(a, c) == Xor(b, c)
    ensures a == b
  {
    forall i | 0 <= i < |a|
      ensures a[i] == b[i]
    {
      assert Xor(a, c)[i] == Xor(b, c)[i];
    }
  }

  lemma {:induction false} UpdateInjective(v: Word16, w: Word16, s: seq<Byte>)
    requires Update(v, s) == Update(w, s)
    ensures v == w
  {
    if s != [] {
      var n := |s| - 1;
      var x := s[n] + Zeros(8);
      ShiftInjective(Xor(Update(v, s[..n]), x), Xor(Update(w, s[..n]), x), 8);
      XorCancels(Update(v, s[..n]), Update(w, s[..n]), x);
      UpdateInjective(v, w, s[..n]);
    }
  }

  /** Two adjacent bytes enter the register as one 16-bit word. */
  lemma TwoBytes(v: Word16, b0: Byte, b1: Byte)
    ensures Update(v, [b0, b1]) == Shift(Xor(v, b0 + b1), 16)
  {
    var x: Word16 := Xor(v, b0 + Zeros(8));
    var y: Word16 := Zeros(8) + b1;
    assert [b0, b1][..1] == [b0] && [b0][..0] == [];
    assert Update(v, [b0]) == AddByte(v, b0);
    ShiftZeros(y, 8);
    assert y[8..] + Zeros(8) == b1 + Zeros(8);
    ShiftLinear(x, y, 8);
    assert Xor(x, y) == Xor(v, b0 + b1);
    ShiftCompose(Xor(x, y), 8, 8);
  }

  /** A corruption confined to two adjacent bytes always changes the CRC, whatever surrounds it. */
  lemma BurstDetected(v: Word16, pre: seq<Byte>, post: seq<Byte>, a0: Byte, a1: Byte, b0: Byte, b1: Byte)
    requires a0 != b0 || a1 != b1
    ensures Update(v, pre + [a0, a1] + post) != Update(v, pre + [b0, b1] + post)
  {
    var u := Update(v, pre);
    assert a0 + a1 != b0 + b1 by {
      assert a0 == (a0 + a1)[..8] && b0 == (b0 + b1)[..8] && a1 == (a0 + a1)[8..] && b1 == (b0 + b1)[8..];
    }
    UpdateConcat(v, pre, [a0, a1]);
    UpdateConcat(v, pre, [b0, b1]);
    UpdateConcat(v, pre + [a0, a1], post);
    UpdateConcat(v, pre + [b0, b1], post);
    if Update(v, pre + [a0, a1] + post) == Update(v, pre + [b0, b1] + post) {
      UpdateInjective(Update(u, [a0, a1]), Update(u, [b0, b1]), post);
      TwoBytes(u, a0, a1);
      TwoBytes(u, b0, b1);
      ShiftInjective(Xor(u, a0 + a1), Xor(u, b0 + b1), 16);
      XorCommutes(u, a0 + a1);
      XorCommutes(u, b0 + b1);
      XorCancels(a0 + a1, b0 + b1, u);
    }
  }

  /** The running CRC object; `value` is the register. */
  class TransferCRC {
    var value: Word16

    constructor (initial: Word16)
      ensures value == initial
    {
      value := initial;
    }

    /** The bitwise form: the register absorbs the byte and is shifted eight times. */
    method AddBitwise(b: Byte)
      modifies this
      ensures value == AddByte(old(value), b)
    {
      value := Xor(value, b + Zeros(8));
      ghost var start := value;
      for bit := 8 downto 0
        invariant value == Shift(start, 8 - bit)
      {
        if value[0] {
          value := Xor(Shl(value, 1), Poly());
        } else {
          value := Shl(value, 1);
        }
      }
    }

    /** The table-driven form. */
    method Add(b: Byte)
      modifies this
      ensures value == AddByte(old(value), b)
    {
      TableStepIsBitwise(value, b);
      value := Xor(Shl(value, 8), Table(Xor(value[..8], b)));
    }

    method AddBytes(bytes: seq<Byte>)
      modifies this
      ensures value == Update(old(value), bytes)
    {
      var i := 0;
      while i < |bytes|
        invariant 0 <= i <= |bytes|
        invariant value == Update(old(value), bytes[..i])
      {
        Add(bytes[i]);
        assert bytes[..i + 1][..i] == bytes[..i];
        i := i + 1;
      }
      assert bytes[..i] == bytes;
    }
  }
}
