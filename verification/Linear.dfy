/** Vectors and matrices over a field of characteristic two. */
module Linear {
  import opened Fields

  type Vec<T> = seq<T>
  type Mat<T> = seq<seq<T>>

  /** A matrix of the given shape. */
  ghost predicate Shape<T>(M: Mat<T>, rows: nat, cols: nat) {
    |M| == rows && forall i :: 0 <= i < rows ==> |M[i]| == cols
  }

  /** The dot product, accumulated from the left. */
  function Dot<T>(F: Field<T>, u: Vec<T>, x: Vec<T>): T
    requires |u| == |x|
  {
    if |u| == 0 then F.zero
    else F.add(Dot(F, u[..|u| - 1], x[..|u| - 1]), F.mul(u[|u| - 1], x[|u| - 1]))
  }

  /** u + k*v */
  function Axpy<T>(F: Field<T>, u: Vec<T>, k: T, v: Vec<T>): (w: Vec<T>)
    requires |u| == |v|
    ensures |w| == |u|
  {
    seq(|u|, i requires 0 <= i < |u| => F.add(u[i], F.mul(k, v[i])))
  }

  function Scale<T>(F: Field<T>, k: T, u: Vec<T>): (w: Vec<T>)
    ensures |w| == |u|
  {
    seq(|u|, i requires 0 <= i < |u| => F.mul(u[i], k))
  }

  function Zeros<T>(F: Field<T>, n: nat): (w: Vec<T>)
    ensures |w| == n
  {
    seq(n, _ => F.zero)
  }

  /** The unit vector with a one at position j. */
  function Unit<T>(F: Field<T>, n: nat, j: nat): (w: Vec<T>)
    ensures |w| == n
  {
    seq(n, i => if i == j then F.one else F.zero)
  }

  function Identity<T>(F: Field<T>, n: nat): (I: Mat<T>)
    ensures Shape(I, n, n)
  {
    seq(n, (i: nat) => Unit(F, n, i))
  }

  /** The combination c[0]*M[0] + c[1]*M[1] + ... of the rows of M, each of width w. */
  function Combine<T>(F: Field<T>, c: Vec<T>, M: Mat<T>, w: nat): (v: Vec<T>)
    requires Shape(M, |c|, w)
    ensures |v| == w
  {
    if |c| == 0 then Zeros(F, w)
    else
      var k := |c| - 1;
      Axpy(F, Combine(F, c[..k], M[..k], w), c[k], M[k])
  }

  function Apply<T>(F: Field<T>, M: Mat<T>, x: Vec<T>): (y: Vec<T>)
    requires Shape(M, |M|, |x|)
    ensures |y| == |M|
  {
    seq(|M|, i requires 0 <= i < |M| => Dot(F, M[i], x))
  }

  /** The matrix product: row i of A*B combines the rows of B with the weights A[i]. */
  function MatMul<T>(F: Field<T>, A: Mat<T>, B: Mat<T>, w: nat): (P: Mat<T>)
    requires Shape(A, |A|, |B|) && Shape(B, |B|, w)
    ensures Shape(P, |A|, w)
  {
    seq(|A|, i requires 0 <= i < |A| => Combine(F, A[i], B, w))
  }

  function Column<T>(M: Mat<T>, w: nat, c: nat): (v: Vec<T>)
    requires Shape(M, |M|, w) && c < w
    ensures |v| == |M|
  {
    seq(|M|, i requires 0 <= i < |M| => M[i][c])
  }

  ghost predicate InKernel<T>(F: Field<T>, M: Mat<T>, x: Vec<T>)
    requires Shape(M, |M|, |x|)
  {
    forall i :: 0 <= i < |M| ==> Dot(F, M[i], x) == F.zero
  }

  // ---------- the dot product ----------

  lemma {:induction false} DotAxpy<T(!new)>(F: Field<T>, u: Vec<T>, k: T, v: Vec<T>, x: Vec<T>)
    requires IsField(F) && |u| == |v| == |x|
    ensures Dot(F, Axpy(F, u, k, v), x) == F.add(Dot(F, u, x), F.mul(k, Dot(F, v, x)))
  {
    var n := |u|;
    if n == 0 {
      MulZero(F, k);
      AddZero(F, F.zero);
    } else {
      var u', v', x' := u[..n - 1], v[..n - 1], x[..n - 1];
      var w := Axpy(F, u, k, v);
      assert w[..n - 1] == Axpy(F, u', k, v');
      DotAxpy(F, u', k, v', x');
      var a, b, s, t := u[n - 1], v[n - 1], Dot(F, u', x'), Dot(F, v', x');
      var z := x[n - 1];
      Distribute(F, z, a, F.mul(k, b));
      MulAssoc(F, k, b, z);
      AddShuffle(F, s, F.mul(k, t), F.mul(a, z), F.mul(k, F.mul(b, z)));
      Distribute(F, k, t, F.mul(b, z));
    }
  }

  lemma {:induction false} DotScale<T(!new)>(F: Field<T>, k: T, u: Vec<T>, x: Vec<T>)
    requires IsField(F) && |u| == |x|
    ensures Dot(F, Scale(F, k, u), x) == F.mul(k, Dot(F, u, x))
  {
    var n := |u|;
    if n == 0 {
      MulZero(F, k);
    } else {
      assert Scale(F, k, u)[..n - 1] == Scale(F, k, u[..n - 1]);
      DotScale(F, k, u[..n - 1], x[..n - 1]);
      MulComm(F, u[n - 1], k);
      MulAssoc(F, k, u[n - 1], x[n - 1]);
      Distribute(F, k, Dot(F, u[..n - 1], x[..n - 1]), F.mul(u[n - 1], x[n - 1]));
    }
  }

  lemma {:induction false} DotComm<T(!new)>(F: Field<T>, u: Vec<T>, x: Vec<T>)
    requires IsField(F) && |u| == |x|
    ensures Dot(F, u, x) == Dot(F, x, u)
  {
    if |u| > 0 {
      DotComm(F, u[..|u| - 1], x[..|u| - 1]);
      MulComm(F, u[|u| - 1], x[|u| - 1]);
    }
  }

  lemma {:induction false} DotZero<T(!new)>(F: Field<T>, u: Vec<T>, x: Vec<T>)
    requires IsField(F) && |u| == |x|
    requires forall i :: 0 <= i < |u| ==> u[i] == F.zero || x[i] == F.zero
    ensures Dot(F, u, x) == F.zero
  {
    var n := |u|;
    if n > 0 {
      DotZero(F, u[..n - 1], x[..n - 1]);
      MulZero(F, u[n - 1]);
      MulZero(F, x[n - 1]);
      AddZero(F, F.zero);
    }
  }

  /** Changing an entry that was zero adds one product. */
  lemma {:induction false} DotUpdate<T(!new)>(F: Field<T>, u: Vec<T>, x: Vec<T>, k: nat, v: T)
    requires IsField(F) && |u| == |x| && k < |u| && x[k] == F.zero
    ensures Dot(F, u, x[k := v]) == F.add(Dot(F, u, x), F.mul(u[k], v))
  {
    var n := |u|;
    var y := x[k := v];
    if k == n - 1 {
      assert y[..n - 1] == x[..n - 1];
      MulZero(F, u[k]);
      AddZero(F, Dot(F, u[..n - 1], x[..n - 1]));
    } else {
      assert y[..n - 1] == x[..n - 1][k := v];
      DotUpdate(F, u[..n - 1], x[..n - 1], k, v);
      var s, t, p := Dot(F, u[..n - 1], x[..n - 1]), F.mul(u[k], v), F.mul(u[n - 1], x[n - 1]);
      AddAssoc(F, s, t, p);
      AddComm(F, t, p);
      AddAssoc(F, s, p, t);
    }
  }

  lemma DotUnit<T(!new)>(F: Field<T>, u: Vec<T>, j: nat)
    requires IsField(F) && j < |u|
    ensures Dot(F, u, Unit(F, |u|, j)) == u[j]
    ensures Dot(F, Unit(F, |u|, j), u) == u[j]
  {
    var z := Zeros(F, |u|);
    assert Unit(F, |u|, j) == z[j := F.one];
    DotUpdate(F, u, z, j, F.one);
    DotZero(F, u, z);
    MulOne(F, u[j]);
    AddZero(F, u[j]);
    DotComm(F, u, Unit(F, |u|, j));
  }

  lemma {:induction false} DotSplit<T(!new)>(F: Field<T>, u: Vec<T>, v: Vec<T>, x: Vec<T>, y: Vec<T>)
    requires IsField(F) && |u| == |x| && |v| == |y|
    ensures Dot(F, u + v, x + y) == F.add(Dot(F, u, x), Dot(F, v, y))
  {
    var n := |v|;
    if n == 0 {
      assert u + v == u && x + y == x;
      AddZero(F, Dot(F, u, x));
    } else {
      assert (u + v)[..|u + v| - 1] == u + v[..n - 1];
      assert (x + y)[..|u + v| - 1] == x + y[..n - 1];
      DotSplit(F, u, v[..n - 1], x, y[..n - 1]);
      AddAssoc(F, Dot(F, u, x), Dot(F, v[..n - 1], y[..n - 1]), F.mul(v[n - 1], y[n - 1]));
    }
  }

  // ---------- products ----------

  /** Associativity of row vector, matrix, column vector: (cM)x = c(Mx). */
  lemma {:induction false} CombineDot<T(!new)>(F: Field<T>, c: Vec<T>, M: Mat<T>, x: Vec<T>)
    requires IsField(F) && Shape(M, |c|, |x|)
    ensures Dot(F, Combine(F, c, M, |x|), x) == Dot(F, c, Apply(F, M, x))
  {
    if |c| == 0 {
      DotZero(F, Combine(F, c, M, |x|), x);
    } else {
      var k := |c| - 1;
      var front := Combine(F, c[..k], M[..k], |x|);
      CombineDot(F, c[..k], M[..k], x);
      assert Apply(F, M, x)[..k] == Apply(F, M[..k], x);
      DotAxpy(F, front, c[k], M[k], x);
    }
  }

  /** Entry j of a combination is the dot product with column j. */
  lemma {:induction false} CombineColumn<T(!new)>(F: Field<T>, c: Vec<T>, M: Mat<T>, w: nat, j: nat)
    requires IsField(F) && Shape(M, |c|, w) && j < w
    ensures Combine(F, c, M, w)[j] == Dot(F, c, Column(M, w, j))
  {
    if |c| > 0 {
      var k := |c| - 1;
      CombineColumn(F, c[..k], M[..k], w, j);
      assert Column(M, w, j)[..k] == Column(M[..k], w, j);
    }
  }

  /** (AB)x = A(Bx). */
  lemma ApplyMatMul<T(!new)>(F: Field<T>, A: Mat<T>, B: Mat<T>, x: Vec<T>)
    requires IsField(F) && Shape(A, |A|, |B|) && Shape(B, |B|, |x|)
    ensures Apply(F, MatMul(F, A, B, |x|), x) == Apply(F, A, Apply(F, B, x))
  {
    forall i | 0 <= i < |A|
      ensures Apply(F, MatMul(F, A, B, |x|), x)[i] == Apply(F, A, Apply(F, B, x))[i]
    {
      CombineDot(F, A[i], B, x);
    }
  }

  lemma ApplyIdentity<T(!new)>(F: Field<T>, x: Vec<T>)
    requires IsField(F)
    ensures Apply(F, Identity(F, |x|), x) == x
  {
    forall i | 0 <= i < |x| ensures Apply(F, Identity(F, |x|), x)[i] == x[i] {
      DotUnit(F, x, i);
    }
  }

  /** A product whose every column agrees with the identity's is the identity. */
  lemma IdentityByColumns<T(!new)>(F: Field<T>, A: Mat<T>, B: Mat<T>, n: nat)
    requires IsField(F) && Shape(A, n, n) && Shape(B, n, n)
    requires forall j :: 0 <= j < n ==> Apply(F, A, Column(B, n, j)) == Unit(F, n, j)
    ensures MatMul(F, A, B, n) == Identity(F, n)
  {
    forall i, j | 0 <= i < n && 0 <= j < n
      ensures MatMul(F, A, B, n)[i][j] == Identity(F, n)[i][j]
    {
      CombineColumn(F, A[i], B, n, j);
      assert Apply(F, A, Column(B, n, j))[i] == Unit(F, n, j)[i];
    }
    forall i | 0 <= i < n ensures MatMul(F, A, B, n)[i] == Identity(F, n)[i] {
      assert forall j :: 0 <= j < n ==> MatMul(F, A, B, n)[i][j] == Identity(F, n)[i][j];
    }
  }
}
