/**
  Square matrix packing: a row-major matrix is stored as a scalar, a diagonal, an upper triangle or in
  full, and the receiver tells the forms apart by their length alone.

  Elements are integers, so closeness is equality and no element is NaN.
 */
module SquareMatrix {
  import opened Bits

  /** `m` is an n-by-n matrix in row-major order. */
  predicate Square(m: seq<int>, n: nat) { n > 0 && |m| == n * n }

  predicate OnDiagonal(i: nat, n: nat)
    requires n > 0
  {
    i / n == i % n
  }

  lemma RowCol(n: nat, r: nat, c: nat)
    requires c < n
    ensures (r * n + c) / n == r && (r * n + c) % n == c
  {
    ModUnique(r * n + c, n, r, c);
  }

  lemma InSquare(n: nat, r: nat, c: nat)
    requires r < n && c < n
    ensures r * n + n <= n * n && 0 <= r * n + c < n * n
  {
    assert n * n - r * n == (n - r) * n;
    MulGrows(n, n - r);
  }

  /** The row and the column of an index. */
  lemma Position(n: nat, i: nat)
    requires n > 0 && i < n * n
    ensures i / n < n && i % n < n && i == (i / n) * n + i % n
  {
    var r := i / n;
    assert i == n * r + i % n && 0 <= i % n < n;
    if r >= n {
      Scaled(n, n, r);
    }
  }

  // ----- The forms

  ghost predicate IsDiagonal(m: seq<int>, n: nat)
    requires Square(m, n)
  {
    forall i :: 0 <= i < |m| && !OnDiagonal(i, n) ==> m[i] == 0
  }

  ghost predicate IsScalar(m: seq<int>, n: nat)
    requires Square(m, n)
  {
    IsDiagonal(m, n) && forall i :: 0 <= i < |m| && OnDiagonal(i, n) ==> m[i] == m[0]
  }

  function Transposed(i: nat, n: nat): nat
    requires n > 0
  {
    (i % n) * n + i / n
  }

  ghost predicate IsSymmetric(m: seq<int>, n: nat)
    requires Square(m, n)
  {
    forall i :: 0 <= i < |m| ==> Transposed(i, n) < |m| && m[i] == m[Transposed(i, n)]
  }

  // ----- The upper triangle

  /** Where row `row` starts in the packed triangle. */
  function Start(n: nat, row: nat): nat
    requires row <= n
  {
    if row == 0 then 0 else Start(n, row - 1) + (n - (row - 1))
  }

  /** The rows above `k`, each from the diagonal on. */
  ghost function Upper(m: seq<int>, n: nat, k: nat): (r: seq<int>)
    requires Square(m, n) && k <= n
    ensures |r| == Start(n, k)
  {
    if k == 0 then [] else
      InSquare(n, k - 1, k - 1);
      Upper(m, n, k - 1) + m[(k - 1) * n + (k - 1)..(k - 1) * n + n]
  }

  lemma {:induction false} StartValue(n: nat, row: nat)
    requires row <= n
    ensures 2 * Start(n, row) == 2 * row * n - row * (row - 1)
  {
    if row > 0 {
      StartValue(n, row - 1);
      assert 2 * row * n == 2 * (row - 1) * n + 2 * n;
      assert row * (row - 1) == (row - 1) * (row - 2) + 2 * (row - 1);
    }
  }

  /** The running index of the triangle reaches the right element. */
  lemma {:induction false} UpperAt(m: seq<int>, n: nat, k: nat, r: nat, c: nat)
    requires Square(m, n) && r < k <= n && r <= c < n
    ensures r * n + c < |m| && Start(n, r) + c - r < Start(n, k)
    ensures Upper(m, n, k)[Start(n, r) + c - r] == m[r * n + c]
  {
    hide Upper, Start;
    InSquare(n, r, c);
    var p, a, b := UpperStep(m, n, k);
    if r < k - 1 {
      UpperAt(m, n, k - 1, r, c);
    } else {
      InSlice(p, m, a, b, c - r);
    }
  }

  lemma UpperStep(m: seq<int>, n: nat, k: nat) returns (p: seq<int>, a: nat, b: nat)
    requires Square(m, n) && 0 < k <= n
    ensures a == (k - 1) * n + (k - 1) && b == a + n - (k - 1) <= |m| && p == Upper(m, n, k - 1)
    ensures Upper(m, n, k) == p + m[a..b] && Start(n, k) == Start(n, k - 1) + (b - a)
  {
    p, a, b := Upper(m, n, k - 1), (k - 1) * n + (k - 1), (k - 1) * n + n;
    InSquare(n, k - 1, k - 1);
  }

  lemma InSlice(p: seq<int>, m: seq<int>, a: nat, b: nat, j: nat)
    requires a <= b <= |m| && j < b - a
    ensures (p + m[a..b])[|p| + j] == m[a + j]
  {}

  // ----- Packing and unpacking as functions

  ghost function Packed(m: seq<int>, n: nat): seq<int>
    requires Square(m, n)
  {
    if IsScalar(m, n) then [m[0]]
    else if IsDiagonal(m, n) then Diagonal(m, n, n)
    else if IsSymmetric(m, n) then Upper(m, n, n)
    else m
  }

  ghost function Diagonal(m: seq<int>, n: nat, k: nat): (r: seq<int>)
    requires Square(m, n) && k <= n
    ensures |r| == k && forall i :: 0 <= i < k ==> i * n + i < |m| && r[i] == m[i * n + i]
  {
    if k == 0 then [] else
      InSquare(n, k - 1, k - 1);
      Diagonal(m, n, k - 1) + [m[(k - 1) * n + (k - 1)]]
  }

  /** The triangle index of an element: a lower one is found at its mirror image. */
  function TriangleIndex(n: nat, i: nat): nat
    requires 0 < n && i < n * n
  {
    Position(n, i);
    var r, c := i / n, i % n;
    if r <= c then Start(n, r) + c - r else Start(n, c) + r - c
  }

  lemma TriangleIndexIn(n: nat, i: nat)
    requires 0 < n && i < n * n
    ensures TriangleIndex(n, i) < Start(n, n)
  {
    Position(n, i);
    var r, c := i / n, i % n;
    var m := seq(n * n, _ => 0);
    if r <= c {
      UpperAt(m, n, n, r, c);
    } else {
      UpperAt(m, n, n, c, r);
    }
  }

  /** The value that position `i` of the unpacked matrix gets. */
  ghost function UnpackedAt(s: seq<int>, n: nat, i: nat): int
    requires n > 0 && i < n * n
  {
    Position(n, i);
    TriangleIndexIn(n, i);
    if |s| == n || |s| == 1 then (if OnDiagonal(i, n) then s[if |s| == 1 then 0 else i / n] else 0)
    else if |s| == Start(n, n) then s[TriangleIndex(n, i)]
    else if |s| == n * n then s[i]
    else 0
  }

  ghost function Unpacked(s: seq<int>, n: nat): (r: seq<int>)
    requires n > 0
    ensures |r| == n * n
  {
    seq(n * n, i requires 0 <= i < n * n => UnpackedAt(s, n, i))
  }

  /** The lengths of the forms never alias, except for n = 1 where all forms are the same. */
  lemma Sizes(n: nat)
    requires n >= 2
    ensures 1 < n < Start(n, n) < n * n
  {
    StartValue(n, n);
    assert 2 * Start(n, n) == n * n + n by { assert 2 * n * n - n * (n - 1) == n * n + n; }
    assert n * n >= 2 * n by { assert n * n - 2 * n == n * (n - 2); }
  }

  /** Unpacking restores every matrix of every size. */
  lemma RoundTrip(m: seq<int>, n: nat)
    requires Square(m, n)
    ensures Unpacked(Packed(m, n), n) == m
  {
    hide Packed, Unpacked, UnpackedAt;
    var s := Packed(m, n);
    forall i | 0 <= i < n * n
      ensures UnpackedAt(s, n, i) == m[i]
    {
      RoundTripAt(m, n, i);
    }
    UnpackedEach(s, n, m);
  }

  lemma UnpackedEach(s: seq<int>, n: nat, m: seq<int>)
    requires Square(m, n) && forall i :: 0 <= i < n * n ==> UnpackedAt(s, n, i) == m[i]
    ensures Unpacked(s, n) == m
  {
    hide UnpackedAt;
  }

  lemma RoundTripAt(m: seq<int>, n: nat, i: nat)
    requires Square(m, n) && i < n * n
    ensures UnpackedAt(Packed(m, n), n, i) == m[i]
  {
    hide Start, Upper, TriangleIndex, Transposed, Diagonal;
    Position(n, i);
    if n == 1 {
      assert i == 0;
      OneByOne(m);
    } else {
      Sizes(n);
      if IsScalar(m, n) {
      } else if IsDiagonal(m, n) {
        assert OnDiagonal(i, n) ==> m[(i / n) * n + i / n] == m[i];
      } else if IsSymmetric(m, n) {
        SymmetricAt(m, n, i);
      }
    }
  }

  lemma OneByOne(m: seq<int>)
    requires Square(m, 1)
    ensures IsScalar(m, 1)
  {}

  lemma SymmetricAt(m: seq<int>, n: nat, i: nat)
    requires Square(m, n) && i < n * n && IsSymmetric(m, n)
    ensures TriangleIndex(n, i) < Start(n, n) && Upper(m, n, n)[TriangleIndex(n, i)] == m[i]
  {
    hide Start, Upper;
    Position(n, i);
    var r, c := i / n, i % n;
    if r <= c {
      UpperAt(m, n, n, r, c);
    } else {
      UpperAt(m, n, n, c, r);
      assert m[i] == m[Transposed(i, n)];
    }
  }

  // ----- The code

  method CheckScalar(m: seq<int>, n: nat) returns (r: bool)
    requires Square(m, n)
    ensures r <==> IsScalar(m, n)
  {
    var index := 0;
    while index < n * n
      invariant 0 <= index <= n * n
      invariant forall i :: 0 <= i < index ==> if OnDiagonal(i, n) then m[i] == m[0] else m[i] == 0
    {
      if !OnDiagonal(index, n) && m[index] != 0 {
        return false;
      }
      if OnDiagonal(index, n) && m[index] != m[0] {
        return false;
      }
      index := index + 1;
    }
    return true;
  }

  method CheckDiagonal(m: seq<int>, n: nat) returns (r: bool)
    requires Square(m, n)
    ensures r <==> IsDiagonal(m, n)
  {
    var index := 0;
    while index < n * n
      invariant 0 <= index <= n * n
      invariant forall i :: 0 <= i < index && !OnDiagonal(i, n) ==> m[i] == 0
    {
      if !OnDiagonal(index, n) && m[index] != 0 {
        return false;
      }
      index := index + 1;
    }
    return true;
  }

  method CheckSymmetric(m: seq<int>, n: nat) returns (r: bool)
    requires Square(m, n)
    ensures r <==> IsSymmetric(m, n)
  {
    var i := 0;
    while i < n
      invariant 0 <= i <= n
      invariant forall j :: 0 <= j < i * n && j < |m| ==> Transposed(j, n) < |m| && m[j] == m[Transposed(j, n)]
    {
      var k := 0;
      while k < n
        invariant 0 <= k <= n
        invariant forall j :: 0 <= j < i * n + k && j < |m| ==> Transposed(j, n) < |m| && m[j] == m[Transposed(j, n)]
      {
        InSquare(n, i, k);
        InSquare(n, k, i);
        RowCol(n, i, k);
        assert Transposed(i * n + k, n) == k * n + i;
        if i != k && m[i * n + k] != m[k * n + i] {
          return false;
        }
        k := k + 1;
      }
      i := i + 1;
      assert i * n == (i - 1) * n + n;
    }
    return true;
  }

  method PackUpper(m: seq<int>, n: nat) returns (s: seq<int>)
    requires Square(m, n)
    ensures s == Upper(m, n, n)
  {
    s := [];
    var row := 0;
    while row < n
      invariant 0 <= row <= n && s == Upper(m, n, row)
    {
      var col := row;
      InSquare(n, row, row);
      ghost var p, a, b := UpperStep(m, n, row + 1);
      hide Upper;
      while col < n
        invariant row <= col <= n && s == p + m[a..row * n + col]
      {
        assert m[a..row * n + col] + [m[row * n + col]] == m[a..row * n + col + 1];
        s := s + [m[row * n + col]];
        col := col + 1;
      }
      row := row + 1;
    }
  }

  method Pack(m: seq<int>, n: nat) returns (s: seq<int>)
    requires Square(m, n)
    ensures s == Packed(m, n)
  {
    hide IsScalar, IsDiagonal, IsSymmetric;
    s := [];
    var scalar := CheckScalar(m, n);
    if scalar {
      return [m[0]];
    }
    var diagonal := CheckDiagonal(m, n);
    if diagonal {
      var i := 0;
      while i < n
        invariant 0 <= i <= n && s == Diagonal(m, n, i)
      {
        InSquare(n, i, i);
        s := s + [m[i * n + i]];
        i := i + 1;
      }
      return;
    }
    var symmetric := CheckSymmetric(m, n);
    if symmetric {
      s := PackUpper(m, n);
      return;
    }
    var index := 0;
    while index < n * n
      invariant 0 <= index <= n * n && s == m[..index]
    {
      s := s + [m[index]];
      index := index + 1;
    }
  }

  method Unpack(s: seq<int>, n: nat, dst: array<int>)
    requires n > 0 && dst.Length == n * n
    modifies dst
    ensures dst[..] == Unpacked(s, n)
  {
    hide UnpackedAt, Start, TriangleIndex;
    if |s| == n || |s| == 1 {
      var index := 0;
      while index < n * n
        invariant 0 <= index <= n * n
        invariant forall i :: 0 <= i < index ==> dst[i] == UnpackedAt(s, n, i)
      {
        DiagonalValue(s, n, index);
        if OnDiagonal(index, n) {
          dst[index] := s[if |s| == 1 then 0 else index / n];
        } else {
          dst[index] := 0;
        }
        index := index + 1;
      }
    } else if |s| == (1 + n) * n / 2 {
      UnpackTriangle(s, n, dst);
    } else if |s| == n * n {
      var index := 0;
      while index < n * n
        invariant 0 <= index <= n * n
        invariant forall i :: 0 <= i < index ==> dst[i] == UnpackedAt(s, n, i)
      {
        OtherValue(s, n, index);
        dst[index] := s[index];
        index := index + 1;
      }
    } else {
      var index := 0;
      while index < n * n
        invariant 0 <= index <= n * n
        invariant forall i :: 0 <= i < index ==> dst[i] == UnpackedAt(s, n, i)
      {
        OtherValue(s, n, index);
        dst[index] := 0;
        index := index + 1;
      }
    }
  }

  lemma TriangleSize(n: nat)
    ensures (1 + n) * n / 2 == Start(n, n)
  {
    StartValue(n, n);
    assert (1 + n) * n == 2 * n * n - n * (n - 1);
  }

  lemma DiagonalValue(s: seq<int>, n: nat, i: nat)
    requires n > 0 && i < n * n && (|s| == n || |s| == 1)
    ensures i / n < n
    ensures UnpackedAt(s, n, i) == if OnDiagonal(i, n) then s[if |s| == 1 then 0 else i / n] else 0
  {
    Position(n, i);
  }

  lemma OtherValue(s: seq<int>, n: nat, i: nat)
    requires n > 0 && i < n * n && |s| != n && |s| != 1 && |s| != (1 + n) * n / 2
    ensures UnpackedAt(s, n, i) == if |s| == n * n then s[i] else 0
  {
    TriangleSize(n);
  }

  /** An element on or above the diagonal comes from the running index, one below it from its mirror image. */
  lemma TriangleValue(s: seq<int>, n: nat, row: nat, col: nat)
    requires row < n && col < n && |s| != n && |s| != 1 && |s| == Start(n, n)
    ensures row * n + col < n * n && col * n + row < n * n
    ensures col >= row ==> Start(n, row) + col - row < |s| && UnpackedAt(s, n, row * n + col) == s[Start(n, row) + col - row]
    ensures col < row ==> UnpackedAt(s, n, row * n + col) == UnpackedAt(s, n, col * n + row)
  {
    hide Start, UnpackedAt, TriangleIndex;
    InSquare(n, row, col);
    InSquare(n, col, row);
    TriangleEntry(s, n, row * n + col);
    TriangleEntry(s, n, col * n + row);
    TriangleIndexAt(n, row, col);
    TriangleIndexAt(n, col, row);
  }

  lemma TriangleEntry(s: seq<int>, n: nat, i: nat)
    requires i < n * n && |s| != n && |s| != 1 && |s| == Start(n, n)
    ensures TriangleIndex(n, i) < |s| && UnpackedAt(s, n, i) == s[TriangleIndex(n, i)]
  {
    hide Start, TriangleIndex;
    TriangleIndexIn(n, i);
  }

  lemma TriangleIndexAt(n: nat, row: nat, col: nat)
    requires row < n && col < n
    ensures row * n + col < n * n
    ensures TriangleIndex(n, row * n + col) == if row <= col then Start(n, row) + col - row else Start(n, col) + row - col
  {
    hide Start;
    InSquare(n, row, col);
    RowCol(n, row, col);
  }

  method UnpackTriangle(s: seq<int>, n: nat, dst: array<int>)
    requires n > 0 && dst.Length == n * n && |s| != n && |s| != 1 && |s| == (1 + n) * n / 2
    modifies dst
    ensures forall i :: 0 <= i < n * n ==> dst[i] == UnpackedAt(s, n, i)
  {
    hide UnpackedAt;
    TriangleSize(n);
    var sourceIndex, row := 0, 0;
    while row < n
      invariant 0 <= row <= n && sourceIndex == Start(n, row)
      invariant row * n <= n * n && Filled(dst[..], s, n, row * n)
    {
      sourceIndex := UnpackRow(s, n, row, sourceIndex, dst);
      row := row + 1;
      assert row * n == (row - 1) * n + n;
    }
  }

  /** One turn of the outer loop. */
  method UnpackRow(s: seq<int>, n: nat, row: nat, first: nat, dst: array<int>) returns (sourceIndex: nat)
    requires row < n && dst.Length == n * n && |s| != n && |s| != 1 && |s| == Start(n, n) && first == Start(n, row)
    requires row * n <= n * n && Filled(dst[..], s, n, row * n)
    modifies dst
    ensures sourceIndex == Start(n, row + 1)
    ensures row * n + n <= n * n && Filled(dst[..], s, n, row * n + n)
  {
    hide UnpackedAt;
    sourceIndex := first;
    var col := 0;
    while col < n
      invariant 0 <= col <= n
      invariant sourceIndex == first + if col > row then col - row else 0
      invariant row * n + col <= n * n && Filled(dst[..], s, n, row * n + col)
    {
      hide Start, Filled;
      TriangleValue(s, n, row, col);
      ghost var before, k := dst[..], row * n + col;
      if col >= row {
        dst[row * n + col] := s[sourceIndex];
        sourceIndex := sourceIndex + 1;
      } else {
        Above(n, row, col);
        FilledAt(before, s, n, k, col * n + row);
        dst[row * n + col] := dst[col * n + row];
      }
      FilledStep(before, s, n, k);
      assert dst[..] == before[k := UnpackedAt(s, n, k)];
      col := col + 1;
    }
  }

  ghost predicate Filled(a: seq<int>, s: seq<int>, n: nat, k: nat)
    requires n > 0 && k <= |a| == n * n
  {
    forall i :: 0 <= i < k ==> a[i] == UnpackedAt(s, n, i)
  }

  lemma FilledAt(a: seq<int>, s: seq<int>, n: nat, k: nat, i: nat)
    requires n > 0 && i < k <= |a| == n * n && Filled(a, s, n, k)
    ensures a[i] == UnpackedAt(s, n, i)
  {}

  lemma FilledStep(a: seq<int>, s: seq<int>, n: nat, k: nat)
    requires n > 0 && k < |a| == n * n && Filled(a, s, n, k)
    ensures Filled(a[k := UnpackedAt(s, n, k)], s, n, k + 1)
  {
    hide UnpackedAt;
  }

  /** The mirror image of an element below the diagonal was written before it. */
  lemma Above(n: nat, row: nat, col: nat)
    requires col < row < n
    ensures col * n + row < row * n + col
  {
    assert row * n - col * n == (row - col) * n;
    assert (row - col) * n - (row - col) == (row - col) * (n - 1);
    MulGrows(n - 1, row - col);
  }
}
