/** The systematic encoding matrix (internal/reedsolomon/reedsolomon.go, buildMatrix): a
    Vandermonde matrix times the inverse of its top square.  That any square choice of rows
    is invertible rests on a polynomial having no more roots than coefficients. */
module Vandermonde {
  import opened Fields
  import opened Linear
  import opened Matrices

  ghost predicate Distinct<T>(points: seq<T>) {
    forall i, j :: 0 <= i < j < |points| ==> points[i] != points[j]
  }

  // ---------- polynomials ----------

  /** a multiplied by itself n times; the zeroth power is one, also of zero. */
  function Pow<T>(F: Field<T>, a: T, n: nat): T {
    if n == 0 then F.one else F.mul(Pow(F, a, n - 1), a)
  }

  function Powers<T>(F: Field<T>, a: T, n: nat): (v: Vec<T>)
    ensures |v| == n
  {
    seq(n, (c: nat) => Pow(F, a, c))
  }

  /** The polynomial with coefficients p (constant term first) at s. */
  function Eval<T>(F: Field<T>, p: Vec<T>, s: T): T {
    if |p| == 0 then F.zero else F.add(p[0], F.mul(s, Eval(F, p[1..], s)))
  }

  /** The quotient of p(X) - p(r) by X - r. */
  function Quotient<T>(F: Field<T>, p: Vec<T>, r: T): (q: Vec<T>)
    ensures |q| == if |p| == 0 then 0 else |p| - 1
  {
    if |p| <= 1 then [] else [Eval(F, p[1..], r)] + Quotient(F, p[1..], r)
  }

  lemma {:induction false} EvalSnoc<T(!new)>(F: Field<T>, p: Vec<T>, c: T, s: T)
    requires IsField(F)
    ensures Eval(F, p + [c], s) == F.add(Eval(F, p, s), F.mul(Pow(F, s, |p|), c))
  {
    if |p| == 0 {
      assert (p + [c])[1..] == [];
      MulZero(F, s);
      MulOne(F, c);
      AddZero(F, c);
    } else {
      assert (p + [c])[1..] == p[1..] + [c];
      EvalSnoc(F, p[1..], c, s);
      var e, w := Eval(F, p[1..], s), Pow(F, s, |p| - 1);
      Distribute(F, s, e, F.mul(w, c));
      MulAssoc(F, s, w, c);
      MulComm(F, s, w);
      AddAssoc(F, p[0], F.mul(s, e), F.mul(F.mul(w, s), c));
    }
  }

  /** A Vandermonde row evaluates its argument as a polynomial. */
  lemma {:induction false} PowersEval<T(!new)>(F: Field<T>, s: T, p: Vec<T>)
    requires IsField(F)
    ensures Dot(F, Powers(F, s, |p|), p) == Eval(F, p, s)
  {
    if |p| > 0 {
      var k := |p| - 1;
      assert Powers(F, s, |p|)[..k] == Powers(F, s, k);
      PowersEval(F, s, p[..k]);
      EvalSnoc(F, p[..k], p[k], s);
      assert p == p[..k] + [p[k]];
    }
  }

  /** p(s) - p(r) = (s - r) q(s), with minus written plus. */
  lemma {:induction false} Factor<T(!new)>(F: Field<T>, p: Vec<T>, r: T, s: T)
    requires IsField(F)
    ensures F.add(Eval(F, p, s), Eval(F, p, r)) == F.mul(F.add(s, r), Eval(F, Quotient(F, p, r), s))
  {
    if |p| == 0 {
      MulZero(F, F.add(s, r));
      AddZero(F, F.zero);
    } else {
      var t := p[1..];
      var a, b, q := Eval(F, t, s), Eval(F, t, r), Eval(F, Quotient(F, t, r), s);
      var d := F.add(s, r);
      AddShuffle(F, p[0], F.mul(s, a), p[0], F.mul(r, b));
      AddSelf(F, p[0]);
      AddZero(F, F.add(F.mul(s, a), F.mul(r, b)));
      // s*a + r*b = s*(a + b) + (s + r)*b
      Distribute(F, s, a, b);
      Distribute(F, b, s, r);
      AddShuffle(F, F.mul(s, a), F.mul(s, b), F.mul(s, b), F.mul(r, b));
      AddComm(F, F.mul(s, a), F.mul(s, b));
      AddShuffle(F, F.mul(s, b), F.mul(s, a), F.mul(s, b), F.mul(r, b));
      AddSelf(F, F.mul(s, b));
      AddZero(F, F.add(F.mul(s, a), F.mul(r, b)));
      Factor(F, t, r, s);
      if |p| == 1 {
        MulZero(F, s);
        MulZero(F, r);
        MulZero(F, d);
        AddZero(F, F.zero);
      } else {
        // s*(d*q) + d*b = d*(b + s*q)
        MulAssoc(F, s, d, q);
        MulComm(F, s, d);
        MulAssoc(F, d, s, q);
        Distribute(F, d, b, F.mul(s, q));
        AddComm(F, F.mul(d, b), F.mul(d, F.mul(s, q)));
        assert Quotient(F, p, r) == [b] + Quotient(F, t, r);
        assert Quotient(F, p, r)[1..] == Quotient(F, t, r);
      }
    }
  }

  lemma {:induction false} ZeroQuotient<T(!new)>(F: Field<T>, p: Vec<T>, r: T)
    requires IsField(F) && |p| > 0
    requires Eval(F, p, r) == F.zero && Quotient(F, p, r) == Zeros(F, |p| - 1)
    ensures p == Zeros(F, |p|)
  {
    if |p| == 1 {
      MulZero(F, r);
      AddZero(F, p[0]);
      assert p == [F.zero];
    } else {
      var q := Quotient(F, p, r);
      assert q[0] == F.zero && q[1..] == Zeros(F, |p| - 2);
      ZeroQuotient(F, p[1..], r);
      MulZero(F, r);
      AddZero(F, p[0]);
      assert p == [p[0]] + p[1..];
    }
  }

  /** A polynomial with as many distinct roots as coefficients is zero. */
  lemma {:induction false} TooManyRoots<T(!new)>(F: Field<T>, p: Vec<T>, roots: seq<T>)
    requires IsField(F) && |roots| == |p| && Distinct(roots)
    requires forall i :: 0 <= i < |roots| ==> Eval(F, p, roots[i]) == F.zero
    ensures p == Zeros(F, |p|)
    decreases |p|
  {
    if |p| > 0 {
      var k := |p| - 1;
      var r := roots[k];
      var q := Quotient(F, p, r);
      forall i | 0 <= i < k ensures Eval(F, q, roots[i]) == F.zero {
        Factor(F, p, r, roots[i]);
        AddZero(F, F.zero);
        AddCancel(F, roots[i], r);
        NoZeroDivisors(F, F.add(roots[i], r), Eval(F, q, roots[i]));
      }
      TooManyRoots(F, q, roots[..k]);
      ZeroQuotient(F, p, r);
    }
  }

  // ---------- the encoding matrix ----------

  function VandermondeMatrix<T>(F: Field<T>, points: seq<T>, cols: nat): (V: Mat<T>)
    ensures Shape(V, |points|, cols)
  {
    seq(|points|, r requires 0 <= r < |points| => Powers(F, points[r], cols))
  }

  /** The rows of M named by rows, in that order. */
  function Select<T>(M: Mat<T>, rows: seq<nat>): (S: Mat<T>)
    requires forall i :: 0 <= i < |rows| ==> rows[i] < |M|
    ensures |S| == |rows|
  {
    seq(|rows|, i requires 0 <= i < |rows| => M[rows[i]])
  }

  /** Any m distinct rows of a Vandermonde matrix with m columns are independent. */
  lemma VandermondeRows<T(!new)>(F: Field<T>, points: seq<T>, m: nat, rows: seq<nat>)
    requires IsField(F) && Distinct(points) && |rows| == m && Distinct(rows)
    requires forall i :: 0 <= i < m ==> rows[i] < |points|
    ensures !IsSingular(F, Select(VandermondeMatrix(F, points, m), rows), m)
  {
    var S := Select(VandermondeMatrix(F, points, m), rows);
    var roots := seq(m, i requires 0 <= i < m => points[rows[i]]);
    forall x: Vec<T> | |x| == m && InKernel(F, S, x) ensures x == Zeros(F, m) {
      forall i | 0 <= i < m ensures Eval(F, x, roots[i]) == F.zero {
        PowersEval(F, roots[i], x);
        assert Dot(F, S[i], x) == F.zero;
      }
      assert Distinct(roots) by {
        forall i, j | 0 <= i < j < m ensures roots[i] != roots[j] {
          assert rows[i] != rows[j];
          assert rows[i] < rows[j] || rows[j] < rows[i];
        }
      }
      TooManyRoots(F, x, roots);
    }
  }

  /** What the coder relies on: the top square is the identity, and any m distinct rows
      are independent. */
  ghost predicate IsEncodingMatrix<T(!new)>(F: Field<T>, E: Mat<T>, m: nat, n: nat) {
    && Shape(E, n, m) && 0 < m <= n
    && E[..m] == Identity(F, m)
    && forall rows: seq<nat> | ValidRows(rows, m, n) :: !IsSingular(F, Select(E, rows), m)
  }

  ghost predicate ValidRows(rows: seq<nat>, m: nat, n: nat) {
    |rows| == m && Distinct(rows) && forall i :: 0 <= i < m ==> rows[i] < n
  }

  /** An invertible matrix maps only zero to zero. */
  lemma InvertibleIsInjective<T(!new)>(F: Field<T>, A: Mat<T>, B: Mat<T>, m: nat, x: Vec<T>)
    requires IsField(F) && Inverses(F, A, B, m) && |x| == m && Apply(F, B, x) == Zeros(F, m)
    ensures x == Zeros(F, m)
  {
    ApplyMatMul(F, A, B, x);
    ApplyIdentity(F, x);
    forall i | 0 <= i < m ensures Apply(F, A, Zeros(F, m))[i] == F.zero {
      DotZero(F, A[i], Zeros(F, m));
    }
  }

  /** Independence of rows survives multiplication by an invertible matrix. */
  lemma ProductRows<T(!new)>(F: Field<T>, V: Mat<T>, A: Mat<T>, B: Mat<T>, m: nat, rows: seq<nat>)
    requires IsField(F) && Shape(V, |V|, m) && Inverses(F, A, B, m) && ValidRows(rows, m, |V|)
    requires !IsSingular(F, Select(V, rows), m)
    ensures !IsSingular(F, Select(MatMul(F, V, B, m), rows), m)
  {
    var S, P := Select(V, rows), Select(MatMul(F, V, B, m), rows);
    forall x: Vec<T> | |x| == m && InKernel(F, P, x) ensures x == Zeros(F, m) {
      var y := Apply(F, B, x);
      forall i | 0 <= i < m ensures Dot(F, S[i], y) == F.zero {
        CombineDot(F, V[rows[i]], B, x);
        assert Dot(F, P[i], x) == F.zero;
      }
      assert InKernel(F, S, y) && !Kills(F, S, y);
      InvertibleIsInjective(F, A, B, m, x);
    }
  }

  /** The values of a polynomial at the points. */
  function Values<T>(F: Field<T>, p: Vec<T>, points: seq<T>): (v: Vec<T>)
    ensures |v| == |points|
  {
    seq(|points|, i requires 0 <= i < |points| => Eval(F, p, points[i]))
  }

  /** E takes the values of any polynomial of degree below m at the first m points to its values at all
      of them. */
  ghost predicate Interpolates<T(!new)>(F: Field<T>, E: Mat<T>, m: nat, points: seq<T>) {
    && m <= |points| && Shape(E, |points|, m)
    && forall p: Vec<T>, r: nat | |p| == m && r < |points| :: Dot(F, E[r], Values(F, p, points[..m])) == Eval(F, p, points[r])
  }

  /** The matrix times the inverse of its top square interpolates. */
  lemma ProductInterpolates<T(!new)>(F: Field<T>, points: seq<T>, m: nat, V: Mat<T>, B: Mat<T>)
    requires IsField(F) && 0 < m <= |points| && V == VandermondeMatrix(F, points, m) && Inverses(F, V[..m], B, m)
    ensures Interpolates(F, MatMul(F, V, B, m), m, points)
  {
    var E := MatMul(F, V, B, m);
    forall p: Vec<T>, r: nat | |p| == m && r < |points|
      ensures Dot(F, E[r], Values(F, p, points[..m])) == Eval(F, p, points[r])
    {
      var y := Apply(F, V[..m], p);
      forall i | 0 <= i < m ensures Values(F, p, points[..m])[i] == y[i] {
        PowersEval(F, points[i], p);
      }
      assert Values(F, p, points[..m]) == y;
      ApplyMatMul(F, B, V[..m], p);
      ApplyIdentity(F, p);
      CombineDot(F, V[r], B, y);
      PowersEval(F, points[r], p);
    }
  }

  /** buildMatrix, from vandermonde's matrix at the given points. */
  method BuildMatrix<T(!new, ==)>(F: Field<T>, dataShards: nat, ghost points: seq<T>, vm: Mat<T>) returns (E: Mat<T>)
    requires IsField(F) && 0 < dataShards <= |points| && Distinct(points) && vm == VandermondeMatrix(F, points, dataShards)
    ensures IsEncodingMatrix(F, E, dataShards, |points|) && Interpolates(F, E, dataShards, points)
  {
    var m := dataShards;
    var top := SubMatrix(vm, 0, 0, m, m);
    ghost var first := seq(m, (i: nat) => i);
    assert forall i :: 0 <= i < m ==> vm[i][0..m] == vm[i];
    assert top == Select(vm, first);
    VandermondeRows(F, points, m, first);
    var topInv := Invert(F, top);
    E := Multiply(F, vm, topInv.value);
    assert top == vm[..m];
    ProductInterpolates(F, points, m, vm, topInv.value);
    assert E[..m] == MatMul(F, top, topInv.value, m);
    forall rows: seq<nat> | ValidRows(rows, m, |points|) ensures !IsSingular(F, Select(E, rows), m) {
      VandermondeRows(F, points, m, rows);
      ProductRows(F, vm, top, topInv.value, m, rows);
    }
  }
}
