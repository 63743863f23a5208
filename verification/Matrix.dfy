/** Matrices of the erasure coder (internal/reedsolomon/matrix.go): product, augmentation,
    submatrix, and inversion by in-place Gaussian elimination.  A matrix under elimination
    is an array of rows; the source never shares a row between two matrices. */
module Matrices {
  import opened Fields
  import opened Linear

  datatype Result<+T> = Ok(value: T) | Singular

  // ---------- fresh matrices ----------

  method Multiply<T(!new)>(F: Field<T>, m: Mat<T>, right: Mat<T>) returns (result: Mat<T>)
    requires IsField(F) && |m| > 0 && |right| > 0
    requires Shape(m, |m|, |right|) && Shape(right, |right|, |right[0]|)
    ensures result == MatMul(F, m, right, |right[0]|)
  {
    var w := |right[0]|;
    result := [];
    for r := 0 to |m|
      invariant result == MatMul(F, m, right, w)[..r]
    {
      var row: Vec<T> := [];
      for c := 0 to w
        invariant |row| == c && forall j :: 0 <= j < c ==> row[j] == Dot(F, m[r], Column(right, w, j))
      {
        var value := F.zero;
        ghost var col := Column(right, w, c);
        for i := 0 to |m[0]|
          invariant value == Dot(F, m[r][..i], col[..i])
        {
          assert m[r][..i + 1][..i] == m[r][..i] && col[..i + 1][..i] == col[..i];
          value := F.add(value, F.mul(m[r][i], right[i][c]));
        }
        assert m[r][..|right|] == m[r] && col[..|right|] == col;
        row := row + [value];
      }
      forall j | 0 <= j < w ensures row[j] == Combine(F, m[r], right, w)[j] {
        CombineColumn(F, m[r], right, w, j);
      }
      assert row == Combine(F, m[r], right, w);
      result := result + [row];
    }
  }

  /** The matrix [A | P]. */
  function Beside<T>(A: Mat<T>, P: Mat<T>): (W: Mat<T>)
    requires |A| == |P|
    ensures |W| == |A|
  {
    seq(|A|, i requires 0 <= i < |A| => A[i] + P[i])
  }

  method Augment<T>(m: Mat<T>, right: Mat<T>) returns (result: Mat<T>)
    requires |m| == |right|
    ensures result == Beside(m, right)
  {
    result := [];
    for r := 0 to |m|
      invariant |result| == r && forall i :: 0 <= i < r ==> result[i] == m[i] + right[i]
    {
      var row := [];
      for c := 0 to |m[r]|
        invariant row == m[r][..c]
      {
        row := row + [m[r][c]];
      }
      for c := 0 to |right[r]|
        invariant row == m[r] + right[r][..c]
      {
        row := row + [right[r][c]];
      }
      result := result + [row];
    }
  }

  method SubMatrix<T>(m: Mat<T>, rmin: nat, cmin: nat, rmax: nat, cmax: nat) returns (result: Mat<T>)
    requires rmin <= rmax <= |m| && cmin <= cmax
    requires forall r :: rmin <= r < rmax ==> cmax <= |m[r]|
    ensures |result| == rmax - rmin
    ensures forall i :: 0 <= i < rmax - rmin ==> result[i] == m[rmin + i][cmin..cmax]
  {
    result := [];
    for r := rmin to rmax
      invariant |result| == r - rmin
      invariant forall i :: 0 <= i < r - rmin ==> result[i] == m[rmin + i][cmin..cmax]
    {
      var row := [];
      for c := cmin to cmax
        invariant row == m[r][cmin..c]
      {
        row := row + [m[r][c]];
      }
      result := result + [row];
    }
  }

  // ---------- row operations keep the kernel ----------

  /** W and V, of width w, have the same kernel. */
  ghost predicate SameKernel<T(!new)>(F: Field<T>, W: Mat<T>, V: Mat<T>, w: nat)
    requires Shape(W, |W|, w) && Shape(V, |V|, w)
  {
    forall x: Vec<T> :: SameOn(F, W, V, w, x)
  }

  ghost predicate SameOn<T>(F: Field<T>, W: Mat<T>, V: Mat<T>, w: nat, x: Vec<T>)
    requires Shape(W, |W|, w) && Shape(V, |V|, w)
  {
    |x| == w ==> (InKernel(F, W, x) <==> InKernel(F, V, x))
  }

  lemma SwapKeepsKernel<T(!new)>(F: Field<T>, W: Mat<T>, w: nat, i: nat, j: nat)
    requires Shape(W, |W|, w) && i < |W| && j < |W|
    ensures SameKernel(F, W[i := W[j]][j := W[i]], W, w)
  {
    var V := W[i := W[j]][j := W[i]];
    forall x: Vec<T> | |x| == w ensures InKernel(F, V, x) <==> InKernel(F, W, x) {
      if InKernel(F, V, x) {
        forall k | 0 <= k < |W| ensures Dot(F, W[k], x) == F.zero {
          assert W[k] == V[if k == i then j else if k == j then i else k];
        }
      }
    }
  }

  lemma ScaleKeepsKernel<T(!new)>(F: Field<T>, W: Mat<T>, w: nat, r: nat, k: T)
    requires IsField(F) && Shape(W, |W|, w) && r < |W| && k != F.zero
    ensures SameKernel(F, W[r := Scale(F, k, W[r])], W, w)
  {
    var V := W[r := Scale(F, k, W[r])];
    forall x: Vec<T> | |x| == w ensures InKernel(F, V, x) <==> InKernel(F, W, x) {
      DotScale(F, k, W[r], x);
      MulZero(F, k);
      if InKernel(F, V, x) {
        assert Dot(F, V[r], x) == F.zero;
        NoZeroDivisors(F, k, Dot(F, W[r], x));
        assert forall i :: 0 <= i < |W| && i != r ==> Dot(F, V[i], x) == F.zero && V[i] == W[i];
      }
    }
  }

  lemma AddKeepsKernel<T(!new)>(F: Field<T>, W: Mat<T>, w: nat, dst: nat, k: T, src: nat)
    requires IsField(F) && Shape(W, |W|, w) && dst < |W| && src < |W| && dst != src
    ensures SameKernel(F, W[dst := Axpy(F, W[dst], k, W[src])], W, w)
  {
    var V := W[dst := Axpy(F, W[dst], k, W[src])];
    forall x: Vec<T> | |x| == w ensures InKernel(F, V, x) <==> InKernel(F, W, x) {
      DotAxpy(F, W[dst], k, W[src], x);
      MulZero(F, k);
      AddZero(F, Dot(F, W[dst], x));
      assert forall i :: 0 <= i < |W| && i != dst ==> V[i] == W[i];
      if InKernel(F, V, x) {
        assert Dot(F, V[src], x) == F.zero && Dot(F, V[dst], x) == F.zero;
        assert forall i :: 0 <= i < |W| && i != dst ==> Dot(F, V[i], x) == F.zero;
      }
    }
  }

  lemma SameKernelTrans<T(!new)>(F: Field<T>, U: Mat<T>, V: Mat<T>, W: Mat<T>, w: nat)
    requires Shape(U, |U|, w) && Shape(V, |V|, w) && Shape(W, |W|, w)
    requires SameKernel(F, U, V, w) && SameKernel(F, V, W, w)
    ensures SameKernel(F, U, W, w)
  {
    forall x: Vec<T> | |x| == w ensures InKernel(F, U, x) <==> InKernel(F, W, x) {
      assert SameOn(F, U, V, w, x) && SameOn(F, V, W, w, x);
    }
  }

  // ---------- shapes reached by the elimination ----------

  /** Ones on the first r diagonal entries, zeros below them. */
  ghost predicate UnitUpper<T>(F: Field<T>, W: Mat<T>, w: nat, r: nat)
    requires Shape(W, |W|, w) && r <= |W| <= w
  {
    && (forall j :: 0 <= j < r ==> W[j][j] == F.one)
    && (forall i, j :: 0 <= j < r && j < i < |W| ==> W[i][j] == F.zero)
  }

  /** Zeros above the first d diagonal entries as well. */
  ghost predicate ClearedAbove<T>(F: Field<T>, W: Mat<T>, w: nat, d: nat)
    requires Shape(W, |W|, w) && d <= |W| <= w
  {
    forall i, j :: 0 <= i < j < d ==> W[i][j] == F.zero
  }

  lemma UnitUpperNext<T>(F: Field<T>, W: Mat<T>, w: nat, r: nat)
    requires Shape(W, |W|, w) && r < |W| <= w && UnitUpper(F, W, w, r) && W[r][r] == F.one
    requires forall i :: r < i < |W| ==> W[i][r] == F.zero
    ensures UnitUpper(F, W, w, r + 1)
  {
  }

  lemma SwapUnitUpper<T>(F: Field<T>, W: Mat<T>, w: nat, r: nat, k: nat)
    requires Shape(W, |W|, w) && r < k < |W| <= w && UnitUpper(F, W, w, r)
    ensures UnitUpper(F, W[r := W[k]][k := W[r]], w, r)
  {
  }

  /** Adding the pivot row r to a row i below it clears entry (i, r) and spoils nothing. */
  lemma ClearEntryBelow<T(!new)>(F: Field<T>, W: Mat<T>, w: nat, i: nat, r: nat)
    requires IsField(F) && Shape(W, |W|, w) && r < i < |W| <= w
    requires UnitUpper(F, W, w, r) && W[r][r] == F.one
    ensures var V := W[i := Axpy(F, W[i], W[i][r], W[r])];
      UnitUpper(F, V, w, r) && V[i][r] == F.zero
  {
    var k := W[i][r];
    MulOne(F, k);
    AddSelf(F, k);
    MulZero(F, k);
    AddZero(F, F.zero);
  }

  /** Adding row d to a row i above it clears entry (i, d) and spoils nothing. */
  lemma ClearEntryAbove<T(!new)>(F: Field<T>, W: Mat<T>, w: nat, i: nat, d: nat)
    requires IsField(F) && Shape(W, |W|, w) && i < d < |W| <= w
    requires UnitUpper(F, W, w, |W|) && ClearedAbove(F, W, w, d)
    ensures var V := W[i := Axpy(F, W[i], W[i][d], W[d])];
      UnitUpper(F, V, w, |W|) && ClearedAbove(F, V, w, d) && V[i][d] == F.zero
  {
    var k := W[i][d];
    MulOne(F, k);
    AddSelf(F, k);
    MulZero(F, k);
    AddZero(F, F.zero);
    AddZero(F, F.one);
  }

  /** Back substitution: when column r vanishes from row r down, some vector with a one at r
      and zeros after it is orthogonal to rows j and above of the triangular part. */
  lemma {:induction false} BackSubstitute<T(!new)>(F: Field<T>, W: Mat<T>, w: nat, r: nat, j: nat)
    returns (y: Vec<T>)
    requires IsField(F) && Shape(W, |W|, w) && r < |W| <= w && j <= r
    requires UnitUpper(F, W, w, r)
    requires forall i :: r <= i < |W| ==> W[i][r] == F.zero
    ensures |y| == w && y[r] == F.one
    ensures forall k :: 0 <= k < w && (k < j || k > r) ==> y[k] == F.zero
    ensures forall i :: j <= i < |W| ==> Dot(F, W[i], y) == F.zero
    decreases r - j
  {
    if j == r {
      y := Unit(F, w, r);
      forall i | r <= i < |W| ensures Dot(F, W[i], y) == F.zero {
        DotUnit(F, W[i], r);
      }
    } else {
      var z := BackSubstitute(F, W, w, r, j + 1);
      var v := Dot(F, W[j], z);
      y := z[j := v];
      forall i | j <= i < |W| ensures Dot(F, W[i], y) == F.zero {
        DotUpdate(F, W[i], z, j, v);
        MulOne(F, v);
        MulZero(F, v);
        AddSelf(F, v);
        AddZero(F, Dot(F, W[i], z));
      }
    }
  }

  // ---------- elimination ----------

  method SwapRows<T>(m: array<Vec<T>>, r1: nat, r2: nat)
    requires r1 < m.Length && r2 < m.Length
    modifies m
    ensures m[..] == old(m[..])[r1 := old(m[r2])][r2 := old(m[r1])]
  {
    m[r2], m[r1] := m[r1], m[r2];
  }

  method ScaleRow<T>(F: Field<T>, m: array<Vec<T>>, r: nat, scale: T)
    requires r < m.Length
    modifies m
    ensures m[..] == old(m[..])[r := Scale(F, scale, old(m[r]))]
  {
    ghost var was := m[r];
    for c := 0 to |m[r]|
      invariant |m[r]| == |was|
      invariant forall j :: 0 <= j < |was| ==> m[r][j] == if j < c then F.mul(was[j], scale) else was[j]
      invariant forall i :: 0 <= i < m.Length && i != r ==> m[i] == old(m[i])
    {
      m[r] := m[r][c := F.mul(m[r][c], scale)];
    }
    assert m[r] == Scale(F, scale, was);
  }

  method AddScaledRow<T>(F: Field<T>, m: array<Vec<T>>, dst: nat, scale: T, src: nat)
    requires dst < m.Length && src < m.Length && dst != src && |m[dst]| == |m[src]|
    modifies m
    ensures m[..] == old(m[..])[dst := Axpy(F, old(m[dst]), scale, old(m[src]))]
  {
    ghost var was := m[dst];
    for c := 0 to |m[dst]|
      invariant |m[dst]| == |was| && m[src] == old(m[src])
      invariant forall j :: 0 <= j < |was| ==>
        m[dst][j] == if j < c then F.add(was[j], F.mul(scale, m[src][j])) else was[j]
      invariant forall i :: 0 <= i < m.Length && i != dst ==> m[i] == old(m[i])
    {
      m[dst] := m[dst][c := F.add(m[dst][c], F.mul(scale, m[src][c]))];
    }
    assert m[dst] == Axpy(F, was, scale, m[src]);
  }

  /** Swaps a row with a non-zero entry in column r to row r, if there is one from row r down. */
  method FindPivot<T(!new, ==)>(F: Field<T>, m: array<Vec<T>>, w: nat, r: nat)
    requires IsField(F) && r < m.Length <= w && Shape(m[..], m.Length, w) && UnitUpper(F, m[..], w, r)
    modifies m
    ensures Shape(m[..], m.Length, w) && SameKernel(F, m[..], old(m[..]), w) && UnitUpper(F, m[..], w, r)
    ensures m[r][r] == F.zero ==> forall i :: r <= i < m.Length ==> m[i][r] == F.zero
  {
    if m[r][r] == F.zero {
      var rowBelow := r + 1;
      while rowBelow < m.Length && m[rowBelow][r] == F.zero
        invariant r < rowBelow <= m.Length
        invariant forall i :: r <= i < rowBelow ==> m[i][r] == F.zero
      {
        rowBelow := rowBelow + 1;
      }
      if rowBelow < m.Length {
        SwapKeepsKernel(F, m[..], w, r, rowBelow);
        SwapUnitUpper(F, m[..], w, r, rowBelow);
        SwapRows(m, r, rowBelow);
      }
    }
  }

  /** Scales a row so that its diagonal entry is one. */
  method UnitPivot<T(!new, ==)>(F: Field<T>, m: array<Vec<T>>, w: nat, r: nat)
    requires IsField(F) && r < m.Length <= w && Shape(m[..], m.Length, w) && UnitUpper(F, m[..], w, r) && m[r][r] != F.zero
    modifies m
    ensures Shape(m[..], m.Length, w) && SameKernel(F, m[..], old(m[..]), w) && UnitUpper(F, m[..], w, r)
    ensures m[r][r] == F.one
  {
    if m[r][r] != F.one {
      var scale := F.mul(F.one, F.inv(m[r][r]));
      Inverse(F, m[r][r]);
      MulOne(F, F.inv(m[r][r]));
      MulZero(F, scale);
      ScaleKeepsKernel(F, m[..], w, r, scale);
      ScaleRow(F, m, r, scale);
    }
  }

  /** Brings a non-zero entry to the diagonal and scales it to one; fails when column r is
      zero from row r down. */
  method PivotRow<T(!new, ==)>(F: Field<T>, m: array<Vec<T>>, w: nat, r: nat) returns (ok: bool)
    requires IsField(F) && r < m.Length <= w && Shape(m[..], m.Length, w)
    requires UnitUpper(F, m[..], w, r)
    modifies m
    ensures Shape(m[..], m.Length, w)
    ensures SameKernel(F, m[..], old(m[..]), w)
    ensures UnitUpper(F, m[..], w, r)
    ensures ok ==> m[r][r] == F.one
    ensures !ok ==> forall i :: r <= i < m.Length ==> m[i][r] == F.zero
  {
    ghost var W := m[..];
    FindPivot(F, m, w, r);
    if m[r][r] == F.zero {
      return false;
    }
    ghost var V := m[..];
    UnitPivot(F, m, w, r);
    SameKernelTrans(F, m[..], V, W, w);
    return true;
  }

  /** Clears entry r of one row below the diagonal. */
  method ClearRowBelow<T(!new, ==)>(F: Field<T>, m: array<Vec<T>>, w: nat, row: nat, r: nat)
    requires IsField(F) && r < row < m.Length <= w && Shape(m[..], m.Length, w)
    requires UnitUpper(F, m[..], w, r) && m[r][r] == F.one
    modifies m
    ensures Shape(m[..], m.Length, w) && SameKernel(F, m[..], old(m[..]), w)
    ensures UnitUpper(F, m[..], w, r) && m[row][r] == F.zero
    ensures forall i :: 0 <= i < m.Length && i != row ==> m[i] == old(m[i])
  {
    if m[row][r] != F.zero {
      ghost var V := m[..];
      var scale := m[row][r];
      AddKeepsKernel(F, V, w, row, scale, r);
      ClearEntryBelow(F, V, w, row, r);
      AddScaledRow(F, m, row, scale, r);
    }
  }

  /** Clears column r below the diagonal. */
  method ClearBelow<T(!new, ==)>(F: Field<T>, m: array<Vec<T>>, w: nat, r: nat)
    requires IsField(F) && r < m.Length <= w && Shape(m[..], m.Length, w)
    requires UnitUpper(F, m[..], w, r) && m[r][r] == F.one
    modifies m
    ensures Shape(m[..], m.Length, w)
    ensures SameKernel(F, m[..], old(m[..]), w)
    ensures UnitUpper(F, m[..], w, r + 1)
  {
    ghost var W := m[..];
    for rowBelow := r + 1 to m.Length
      invariant Shape(m[..], m.Length, w)
      invariant SameKernel(F, m[..], W, w)
      invariant UnitUpper(F, m[..], w, r) && m[r][r] == F.one
      invariant forall i :: r < i < rowBelow ==> m[i][r] == F.zero
    {
      ghost var V := m[..];
      ClearRowBelow(F, m, w, rowBelow, r);
      SameKernelTrans(F, m[..], V, W, w);
    }
    UnitUpperNext(F, m[..], w, r);
  }

  /** Clears entry d of one row above the diagonal. */
  method ClearRowAbove<T(!new, ==)>(F: Field<T>, m: array<Vec<T>>, w: nat, row: nat, d: nat)
    requires IsField(F) && row < d < m.Length <= w && Shape(m[..], m.Length, w)
    requires UnitUpper(F, m[..], w, m.Length) && ClearedAbove(F, m[..], w, d)
    modifies m
    ensures Shape(m[..], m.Length, w) && SameKernel(F, m[..], old(m[..]), w)
    ensures UnitUpper(F, m[..], w, m.Length) && ClearedAbove(F, m[..], w, d) && m[row][d] == F.zero
    ensures forall i :: 0 <= i < m.Length && i != row ==> m[i] == old(m[i])
  {
    if m[row][d] != F.zero {
      ghost var V := m[..];
      var scale := m[row][d];
      AddKeepsKernel(F, V, w, row, scale, d);
      ClearEntryAbove(F, V, w, row, d);
      AddScaledRow(F, m, row, scale, d);
    }
  }

  /** Clears column d above the diagonal. */
  method ClearColumnAbove<T(!new, ==)>(F: Field<T>, m: array<Vec<T>>, w: nat, d: nat)
    requires IsField(F) && d < m.Length <= w && Shape(m[..], m.Length, w)
    requires UnitUpper(F, m[..], w, m.Length) && ClearedAbove(F, m[..], w, d)
    modifies m
    ensures Shape(m[..], m.Length, w)
    ensures SameKernel(F, m[..], old(m[..]), w)
    ensures UnitUpper(F, m[..], w, m.Length) && ClearedAbove(F, m[..], w, d + 1)
  {
    ghost var W := m[..];
    for rowAbove := 0 to d
      invariant Shape(m[..], m.Length, w)
      invariant SameKernel(F, m[..], W, w)
      invariant UnitUpper(F, m[..], w, m.Length) && ClearedAbove(F, m[..], w, d)
      invariant forall i :: 0 <= i < rowAbove ==> m[i][d] == F.zero
    {
      ghost var V := m[..];
      ClearRowAbove(F, m, w, rowAbove, d);
      SameKernelTrans(F, m[..], V, W, w);
    }
  }

  /** In-place elimination.  On success the left square is the identity and the kernel is
      unchanged; on failure the left square maps some non-zero vector to zero. */
  method GaussianElimination<T(!new, ==)>(F: Field<T>, m: array<Vec<T>>, w: nat)
    returns (ok: bool, ghost killed: Vec<T>)
    requires IsField(F) && m.Length <= w && Shape(m[..], m.Length, w)
    modifies m
    ensures Shape(m[..], m.Length, w)
    ensures SameKernel(F, m[..], old(m[..]), w)
    ensures ok ==> forall i, j :: 0 <= i < m.Length && 0 <= j < m.Length ==>
      m[i][j] == if i == j then F.one else F.zero
    ensures !ok ==> |killed| == m.Length && killed != Zeros(F, m.Length)
    ensures !ok ==> InKernel(F, old(m[..]), killed + Zeros(F, w - m.Length))
  {
    ghost var W := m[..];
    killed := [];
    for r := 0 to m.Length
      invariant Shape(m[..], m.Length, w)
      invariant SameKernel(F, m[..], W, w)
      invariant UnitUpper(F, m[..], w, r)
    {
      ghost var V := m[..];
      var found := PivotRow(F, m, w, r);
      SameKernelTrans(F, m[..], V, W, w);
      if !found {
        killed := KilledVector(F, m[..], W, w, r);
        return false, killed;
      }
      ghost var U := m[..];
      ClearBelow(F, m, w, r);
      SameKernelTrans(F, m[..], U, W, w);
    }
    for d := 0 to m.Length
      invariant Shape(m[..], m.Length, w)
      invariant SameKernel(F, m[..], W, w)
      invariant UnitUpper(F, m[..], w, m.Length) && ClearedAbove(F, m[..], w, d)
    {
      ghost var V := m[..];
      ClearColumnAbove(F, m, w, d);
      SameKernelTrans(F, m[..], V, W, w);
    }
    return true, killed;
  }

  /** When column r has no pivot, the original rows map some non-zero vector to zero. */
  lemma KilledVector<T(!new)>(F: Field<T>, U: Mat<T>, W: Mat<T>, w: nat, r: nat) returns (killed: Vec<T>)
    requires IsField(F) && Shape(U, |U|, w) && Shape(W, |W|, w) && r < |U| <= w && SameKernel(F, U, W, w)
    requires UnitUpper(F, U, w, r) && forall i :: r <= i < |U| ==> U[i][r] == F.zero
    ensures |killed| == |U| && killed != Zeros(F, |U|) && InKernel(F, W, killed + Zeros(F, w - |U|))
  {
    var y := BackSubstitute(F, U, w, r, 0);
    assert InKernel(F, U, y) && SameOn(F, U, W, w, y);
    OneNotZero(F);
    killed := y[..|U|];
    assert y == killed + Zeros(F, w - |U|);
    assert killed[r] == F.one && Zeros(F, |U|)[r] == F.zero;
  }

  // ---------- inversion ----------

  ghost predicate Inverses<T>(F: Field<T>, M: Mat<T>, N: Mat<T>, n: nat) {
    && Shape(M, n, n) && Shape(N, n, n)
    && MatMul(F, M, N, n) == Identity(F, n)
    && MatMul(F, N, M, n) == Identity(F, n)
  }

  /** M maps x, which is not zero, to zero. */
  ghost predicate Kills<T>(F: Field<T>, M: Mat<T>, x: Vec<T>)
    requires Shape(M, |M|, |x|)
  {
    InKernel(F, M, x) && x != Zeros(F, |x|)
  }

  ghost predicate IsSingular<T(!new)>(F: Field<T>, M: Mat<T>, n: nat)
    requires Shape(M, n, n)
  {
    exists x: Vec<T> :: |x| == n && Kills(F, M, x)
  }

  /** x + y is in the kernel of [A | P] exactly when Ax = Py. */
  lemma AugmentedKernel<T(!new)>(F: Field<T>, A: Mat<T>, P: Mat<T>, n: nat, x: Vec<T>, y: Vec<T>)
    requires IsField(F) && Shape(A, n, n) && Shape(P, n, n) && |x| == n && |y| == n
    ensures Shape(Beside(A, P), n, n + n)
    ensures InKernel(F, Beside(A, P), x + y) <==> Apply(F, A, x) == Apply(F, P, y)
  {
    var W := Beside(A, P);
    forall i | 0 <= i < n
      ensures Dot(F, W[i], x + y) == F.zero <==> Apply(F, A, x)[i] == Apply(F, P, y)[i]
    {
      DotSplit(F, A[i], P[i], x, y);
      AddCancel(F, Dot(F, A[i], x), Dot(F, P[i], y));
    }
    if InKernel(F, W, x + y) {
      assert forall i :: 0 <= i < n ==> Dot(F, W[i], x + y) == F.zero;
    }
  }

  /** When [I | N] and [M | I] have the same kernel, applying M and N in either order
      returns every vector to itself. */
  lemma EliminatedVector<T(!new)>(F: Field<T>, M: Mat<T>, N: Mat<T>, n: nat, x: Vec<T>)
    requires IsField(F) && Shape(M, n, n) && Shape(N, n, n) && |x| == n
    requires Shape(Beside(M, Identity(F, n)), n, n + n) && Shape(Beside(Identity(F, n), N), n, n + n)
    requires SameKernel(F, Beside(Identity(F, n), N), Beside(M, Identity(F, n)), n + n)
    ensures Apply(F, M, Apply(F, N, x)) == x
    ensures Apply(F, N, Apply(F, M, x)) == x
  {
    var I, p, q := Identity(F, n), Apply(F, N, x), Apply(F, M, x);
    ApplyIdentity(F, x);
    ApplyIdentity(F, p);
    ApplyIdentity(F, q);
    EliminatedPair(F, M, N, n, p, x);
    EliminatedPair(F, M, N, n, x, q);
  }

  lemma EliminatedPair<T(!new)>(F: Field<T>, M: Mat<T>, N: Mat<T>, n: nat, x: Vec<T>, y: Vec<T>)
    requires IsField(F) && Shape(M, n, n) && Shape(N, n, n) && |x| == |y| == n
    requires Shape(Beside(M, Identity(F, n)), n, n + n) && Shape(Beside(Identity(F, n), N), n, n + n)
    requires SameKernel(F, Beside(Identity(F, n), N), Beside(M, Identity(F, n)), n + n)
    ensures Apply(F, Identity(F, n), x) == Apply(F, N, y) <==> Apply(F, M, x) == Apply(F, Identity(F, n), y)
  {
    AugmentedKernel(F, Identity(F, n), N, n, x, y);
    AugmentedKernel(F, M, Identity(F, n), n, x, y);
    assert SameOn(F, Beside(Identity(F, n), N), Beside(M, Identity(F, n)), n + n, x + y);
  }

  /** The right half of the eliminated matrix is a two-sided inverse. */
  lemma EliminatedIsInverse<T(!new)>(F: Field<T>, M: Mat<T>, N: Mat<T>, n: nat)
    requires IsField(F) && Shape(M, n, n) && Shape(N, n, n)
    requires Shape(Beside(M, Identity(F, n)), n, n + n) && Shape(Beside(Identity(F, n), N), n, n + n)
    requires SameKernel(F, Beside(Identity(F, n), N), Beside(M, Identity(F, n)), n + n)
    ensures Inverses(F, M, N, n)
  {
    forall j | 0 <= j < n
      ensures Apply(F, M, Column(N, n, j)) == Unit(F, n, j)
      ensures Apply(F, N, Column(M, n, j)) == Unit(F, n, j)
    {
      EliminatedVector(F, M, N, n, Unit(F, n, j));
      ApplyUnit(F, N, n, j);
      ApplyUnit(F, M, n, j);
    }
    IdentityByColumns(F, M, N, n);
    IdentityByColumns(F, N, M, n);
  }

  lemma ApplyUnit<T(!new)>(F: Field<T>, M: Mat<T>, n: nat, j: nat)
    requires IsField(F) && Shape(M, |M|, n) && j < n
    ensures Apply(F, M, Unit(F, n, j)) == Column(M, n, j)
  {
    forall i | 0 <= i < |M| ensures Apply(F, M, Unit(F, n, j))[i] == M[i][j] {
      DotUnit(F, M[i], j);
    }
  }

  /** A matrix with a left inverse has a trivial kernel. */
  lemma InverseHasNoKernel<T(!new)>(F: Field<T>, M: Mat<T>, N: Mat<T>, n: nat)
    requires IsField(F) && Inverses(F, M, N, n)
    ensures !IsSingular(F, M, n)
  {
    forall x: Vec<T> | |x| == n && InKernel(F, M, x) ensures x == Zeros(F, n) {
      ApplyMatMul(F, N, M, x);
      ApplyIdentity(F, x);
      assert Apply(F, M, x) == Zeros(F, n);
      forall i | 0 <= i < n ensures Apply(F, N, Zeros(F, n))[i] == F.zero {
        DotZero(F, N[i], Zeros(F, n));
      }
    }
  }

  /** A kernel vector of [M | I] that vanishes on the right half makes M singular. */
  lemma AugmentedKills<T(!new)>(F: Field<T>, M: Mat<T>, n: nat, x: Vec<T>)
    requires IsField(F) && Shape(M, n, n) && |x| == n && x != Zeros(F, n)
    requires Shape(Beside(M, Identity(F, n)), n, n + n)
    requires InKernel(F, Beside(M, Identity(F, n)), x + Zeros(F, n))
    ensures IsSingular(F, M, n)
  {
    var z := Zeros(F, n);
    AugmentedKernel(F, M, Identity(F, n), n, x, z);
    ApplyIdentity(F, z);
    forall i | 0 <= i < n ensures Dot(F, M[i], x) == F.zero {
      assert Apply(F, M, x)[i] == z[i];
    }
    assert Kills(F, M, x);
  }

  lemma IdentityBeside<T(!new)>(F: Field<T>, V: Mat<T>, N: Mat<T>, n: nat)
    requires Shape(V, n, n + n) && |N| == n && forall i :: 0 <= i < n ==> N[i] == V[i][n..n + n]
    requires forall i, j :: 0 <= i < n && 0 <= j < n ==> V[i][j] == if i == j then F.one else F.zero
    ensures V == Beside(Identity(F, n), N)
  {
    forall i | 0 <= i < n ensures V[i] == Identity(F, n)[i] + N[i] {
      assert V[i] == V[i][..n] + V[i][n..n + n];
      assert V[i][..n] == Unit(F, n, i);
    }
  }

  /** Eliminates a copy of an n by 2n matrix and returns the right half of the result. */
  method Reduce<T(!new, ==)>(F: Field<T>, W: Mat<T>, n: nat) returns (r: Result<Mat<T>>, ghost killed: Vec<T>)
    requires IsField(F) && Shape(W, n, n + n)
    ensures r.Ok? ==> Shape(r.value, n, n) && Shape(Beside(Identity(F, n), r.value), n, n + n)
    ensures r.Ok? ==> SameKernel(F, Beside(Identity(F, n), r.value), W, n + n)
    ensures r.Singular? ==> |killed| == n && killed != Zeros(F, n)
    ensures r.Singular? ==> InKernel(F, W, killed + Zeros(F, n))
  {
    var work := new Vec<T>[n](i requires 0 <= i < n => W[i]);
    assert work[..] == W;
    var ok;
    ok, killed := GaussianElimination(F, work, n + n);
    if !ok {
      return Singular, killed;
    }
    var V := work[..];
    var N := SubMatrix(V, 0, n, n, n + n);
    IdentityBeside(F, V, N, n);
    return Ok(N), killed;
  }

  /** Invert: a two-sided inverse, or Singular exactly when M has a non-zero kernel vector. */
  method Invert<T(!new, ==)>(F: Field<T>, M: Mat<T>) returns (r: Result<Mat<T>>)
    requires IsField(F) && |M| > 0 && Shape(M, |M|, |M|)
    ensures r.Ok? ==> Inverses(F, M, r.value, |M|)
    ensures r.Singular? <==> IsSingular(F, M, |M|)
  {
    var n := |M|;
    var W := Augment(M, Identity(F, n));
    ghost var killed;
    r, killed := Reduce(F, W, n);
    if r.Singular? {
      AugmentedKills(F, M, n, killed);
    } else {
      EliminatedIsInverse(F, M, r.value, n);
      InverseHasNoKernel(F, M, r.value, n);
    }
  }
}
