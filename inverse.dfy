/**
 * `invert<T>()` (SquareMatrix.h) as a two-sided inverse. Every row operation of the elimination
 * is undone by another row operation, so the product `s` of the undoing operations, carried as
 * ghost state beside the companion `r`, keeps s · r == I. When the elimination ends with
 * r · A == I, then A == s and A · r == I as well. A matrix on which the elimination stops has a
 * nonzero x with m · x == 0 for its working copy m, so it has no inverse.
 */
module Inversion {
  import opened Errors
  import opened RowMajor
  import opened Elimination

  // ---------------------------------------------------------------------------------------------
  // Algebra of the working copies

  function Zero(n: nat): (z: Rows)
    ensures Square(z, n)
    ensures forall i, j :: 0 <= i < n && 0 <= j < n ==> z[i][j] == 0.0
  {
    seq(n, i => seq(n, j => 0.0))
  }

  lemma {:induction false} DotToLinear(w: seq<real>, u: seq<real>, v: seq<real>, f: real, c: seq<real>, k: nat)
    requires |w| == |u| == |v| == |c| && k <= |u|
    requires forall j :: 0 <= j < |u| ==> w[j] == u[j] + f * v[j]
    ensures DotTo(w, c, k) == DotTo(u, c, k) + f * DotTo(v, c, k)
  {
    if k > 0 {
      DotToLinear(w, u, v, f, c, k - 1);
      assert w[k - 1] * c[k - 1] == u[k - 1] * c[k - 1] + f * (v[k - 1] * c[k - 1]);
    }
  }

  lemma {:induction false} DotToScale(w: seq<real>, u: seq<real>, d: real, c: seq<real>, k: nat)
    requires |w| == |u| == |c| && k <= |u|
    requires forall j :: 0 <= j < |u| ==> w[j] == u[j] * d
    ensures DotTo(w, c, k) == DotTo(u, c, k) * d
  {
    if k > 0 {
      DotToScale(w, u, d, c, k - 1);
      assert w[k - 1] * c[k - 1] == u[k - 1] * c[k - 1] * d;
    }
  }

  lemma {:induction false} DotToZero(u: seq<real>, v: seq<real>, k: nat)
    requires k <= |u| && k <= |v|
    requires forall j :: 0 <= j < k ==> u[j] == 0.0 || v[j] == 0.0
    ensures DotTo(u, v, k) == 0.0
  {
    if k > 0 {
      DotToZero(u, v, k - 1);
    }
  }

  /** Changing one entry of v changes u · v by that entry's change times u's entry. */
  lemma {:induction false} DotToUpdate(u: seq<real>, v: seq<real>, p: nat, w: real, k: nat)
    requires |u| == |v| && p < |v| && k <= |u|
    ensures DotTo(u, v[p := w], k) == DotTo(u, v, k) + (if p < k then u[p] * (w - v[p]) else 0.0)
  {
    if k > 0 {
      DotToUpdate(u, v, p, w, k - 1);
      if k - 1 == p {
        assert u[p] * w == u[p] * v[p] + u[p] * (w - v[p]);
      }
    }
  }

  /** The first k terms of u · y: entry t is the sum over s < k of u[s] * y[s][t]. */
  function PartialVecMat(u: seq<real>, y: Rows, n: nat, k: nat): (w: seq<real>)
    requires |u| == n && Square(y, n) && k <= n
    ensures |w| == n
  {
    seq(n, t requires 0 <= t < n => DotTo(u, Column(y, n, t), k))
  }

  lemma PartialStep(u: seq<real>, y: Rows, n: nat, k: nat)
    requires |u| == n && Square(y, n) && 0 < k <= n
    ensures forall t :: 0 <= t < n ==>
      PartialVecMat(u, y, n, k)[t] == PartialVecMat(u, y, n, k - 1)[t] + u[k - 1] * y[k - 1][t]
  {
    forall t | 0 <= t < n
      ensures PartialVecMat(u, y, n, k)[t] == PartialVecMat(u, y, n, k - 1)[t] + u[k - 1] * y[k - 1][t]
    {
      assert Column(y, n, t)[k - 1] == y[k - 1][t];
    }
  }

  lemma ColumnOfProduct(y: Rows, z: Rows, n: nat, i: nat, j: nat)
    requires Square(y, n) && Square(z, n) && i < n && j < n
    ensures Column(MatMul(y, z, n), n, j)[i] == DotTo(y[i], Column(z, n, j), n)
  {
    assert MatMul(y, z, n)[i] == VecMat(y[i], z, n);
  }

  /** Adding term k - 1 to both sides of the associativity sum. */
  lemma PartialAssociatesStep(u: seq<real>, y: Rows, z: Rows, n: nat, j: nat, k: nat)
    requires |u| == n && Square(y, n) && Square(z, n) && j < n && 0 < k <= n
    requires DotTo(PartialVecMat(u, y, n, k - 1), Column(z, n, j), n) == DotTo(u, Column(MatMul(y, z, n), n, j), k - 1)
    ensures DotTo(PartialVecMat(u, y, n, k), Column(z, n, j), n) == DotTo(u, Column(MatMul(y, z, n), n, j), k)
  {
    var c := Column(z, n, j);
    PartialStep(u, y, n, k);
    DotToLinear(PartialVecMat(u, y, n, k), PartialVecMat(u, y, n, k - 1), y[k - 1], u[k - 1], c, n);
    ColumnOfProduct(y, z, n, k - 1, j);
  }

  lemma {:induction false} PartialAssociates(u: seq<real>, y: Rows, z: Rows, n: nat, j: nat, k: nat)
    requires |u| == n && Square(y, n) && Square(z, n) && j < n && k <= n
    ensures DotTo(PartialVecMat(u, y, n, k), Column(z, n, j), n) == DotTo(u, Column(MatMul(y, z, n), n, j), k)
  {
    if k == 0 {
      DotToZero(PartialVecMat(u, y, n, 0), Column(z, n, j), n);
    } else {
      PartialAssociates(u, y, z, n, j, k - 1);
      PartialAssociatesStep(u, y, z, n, j, k);
    }
  }

  /** The product of working copies is associative. */
  lemma MatMulAssociates(x: Rows, y: Rows, z: Rows, n: nat)
    requires Square(x, n) && Square(y, n) && Square(z, n)
    ensures MatMul(MatMul(x, y, n), z, n) == MatMul(x, MatMul(y, z, n), n)
  {
    var l, r := MatMul(MatMul(x, y, n), z, n), MatMul(x, MatMul(y, z, n), n);
    forall i | 0 <= i < n
      ensures l[i] == r[i]
    {
      assert PartialVecMat(x[i], y, n, n) == MatMul(x, y, n)[i];
      forall j | 0 <= j < n
        ensures l[i][j] == r[i][j]
      {
        PartialAssociates(x[i], y, z, n, j, n);
      }
    }
  }

  /** The identity is neutral on both sides. */
  lemma MatMulIdentity(x: Rows, n: nat)
    requires Square(x, n)
    ensures MatMul(IdentityRows(n), x, n) == x
    ensures MatMul(x, IdentityRows(n), n) == x
  {
    RowsOfFlatten(x, n);
    MatMulIdentityLeft(Flatten(x, n), n);
    ProductFlatten(x, Identity(n), n);
    RowsOfIdentity(n);
    ProductIdentityRight(Flatten(x, n), n, n);
    RowsOfFlatten(MatMul(x, IdentityRows(n), n), n);
  }

  lemma MatMulZero(x: Rows, n: nat)
    requires Square(x, n)
    ensures MatMul(x, Zero(n), n) == Zero(n)
  {
    forall i | 0 <= i < n
      ensures MatMul(x, Zero(n), n)[i] == Zero(n)[i]
    {
      forall j | 0 <= j < n
        ensures MatMul(x, Zero(n), n)[i][j] == 0.0
      {
        DotToZero(x[i], Column(Zero(n), n, j), n);
      }
    }
  }

  // ---------------------------------------------------------------------------------------------
  // Undoing the row operations

  /** Undoes `Reduce(x, m, n, k, 0)`: adds the multiples of row k back to the rows below it. */
  function Restore(x: Rows, m: Rows, n: nat, k: nat): (y: Rows)
    requires Square(x, n) && Square(m, n) && k < n && m[k][k] != 0.0
    ensures Square(y, n)
  {
    seq(n, i requires 0 <= i < n => if i <= k then x[i] else Combine(x[i], x[k], -(m[i][k] / m[k][k]), 0))
  }

  /** Undoes `ReduceAbove(x, m, n, k)`: adds the multiples of row k back to the rows above it. */
  function RestoreAbove(x: Rows, m: Rows, n: nat, k: nat): (y: Rows)
    requires Square(x, n) && Square(m, n) && k < n && m[k][k] != 0.0
    ensures Square(y, n)
  {
    seq(n, i requires 0 <= i < n => if i < k then Combine(x[i], x[k], -(m[i][k] / m[k][k]), 0) else x[i])
  }

  /** Undoes `Normalize(x, m, n)`: multiplies every row i back by m[i][i]. */
  function Rescale(x: Rows, m: Rows, n: nat): (y: Rows)
    requires Square(x, n) && Square(m, n)
    ensures Square(y, n)
  {
    seq(n, i requires 0 <= i < n => seq(n, j requires 0 <= j < n => x[i][j] * m[i][i]))
  }

  lemma RestoreUndoesReduce(x: Rows, m: Rows, n: nat, k: nat)
    requires Square(x, n) && Square(m, n) && k < n && m[k][k] != 0.0
    ensures Restore(Reduce(x, m, n, k, 0), m, n, k) == x
  {
    var y := Restore(Reduce(x, m, n, k, 0), m, n, k);
    forall i | 0 <= i < n
      ensures y[i] == x[i]
    {
      if i > k {
        CombineUndone(x[i], x[k], m[i][k] / m[k][k], 0);
      }
    }
  }

  lemma RestoreAboveUndoesReduceAbove(x: Rows, m: Rows, n: nat, k: nat)
    requires Square(x, n) && Square(m, n) && k < n && m[k][k] != 0.0
    ensures RestoreAbove(ReduceAbove(x, m, n, k), m, n, k) == x
  {
    var y := RestoreAbove(ReduceAbove(x, m, n, k), m, n, k);
    forall i | 0 <= i < n
      ensures y[i] == x[i]
    {
      if i < k {
        CombineUndone(x[i], x[k], m[i][k] / m[k][k], 0);
      }
    }
  }

  lemma RescaleUndoesNormalize(x: Rows, m: Rows, n: nat)
    requires Square(x, n) && Square(m, n) && NonzeroDiagonal(m, n)
    ensures Rescale(Normalize(x, m, n), m, n) == x
  {
    var y := Rescale(Normalize(x, m, n), m, n);
    forall i | 0 <= i < n
      ensures y[i] == x[i]
    {
      forall j | 0 <= j < n
        ensures y[i][j] == x[i][j]
      {
        assert y[i][j] == x[i][j] / m[i][i] * m[i][i];
      }
    }
  }

  lemma RestoreProduct(x: Rows, m: Rows, a: Rows, n: nat, k: nat)
    requires Square(x, n) && Square(m, n) && Square(a, n) && k < n && m[k][k] != 0.0
    ensures MatMul(Restore(x, m, n, k), a, n) == Restore(MatMul(x, a, n), m, n, k)
  {
    var e := Restore(x, m, n, k);
    forall i | 0 <= i < n
      ensures MatMul(e, a, n)[i] == Restore(MatMul(x, a, n), m, n, k)[i]
    {
      if i > k {
        VecMatCombine(x[i], x[k], -(m[i][k] / m[k][k]), a, n);
      }
    }
  }

  lemma RestoreAboveProduct(x: Rows, m: Rows, a: Rows, n: nat, k: nat)
    requires Square(x, n) && Square(m, n) && Square(a, n) && k < n && m[k][k] != 0.0
    ensures MatMul(RestoreAbove(x, m, n, k), a, n) == RestoreAbove(MatMul(x, a, n), m, n, k)
  {
    var e := RestoreAbove(x, m, n, k);
    forall i | 0 <= i < n
      ensures MatMul(e, a, n)[i] == RestoreAbove(MatMul(x, a, n), m, n, k)[i]
    {
      if i < k {
        VecMatCombine(x[i], x[k], -(m[i][k] / m[k][k]), a, n);
      }
    }
  }

  lemma RescaleProduct(x: Rows, m: Rows, a: Rows, n: nat)
    requires Square(x, n) && Square(m, n) && Square(a, n)
    ensures MatMul(Rescale(x, m, n), a, n) == Rescale(MatMul(x, a, n), m, n)
  {
    var e := Rescale(x, m, n);
    forall i | 0 <= i < n
      ensures MatMul(e, a, n)[i] == Rescale(MatMul(x, a, n), m, n)[i]
    {
      forall j | 0 <= j < n
        ensures MatMul(e, a, n)[i][j] == Rescale(MatMul(x, a, n), m, n)[i][j]
      {
        DotToScale(e[i], x[i], m[i][i], Column(a, n, j), n);
      }
    }
  }

  /** Swapping rows p and k of the identity, times r with those rows swapped, gives r back. */
  lemma UndoExchange(r: Rows, n: nat, p: nat, k: nat)
    requires Square(r, n) && p < n && k < n
    ensures Square(Exchange(r, p, k), n) && Square(Exchange(IdentityRows(n), p, k), n)
    ensures MatMul(Exchange(IdentityRows(n), p, k), Exchange(r, p, k), n) == r
  {
    ExchangeProduct(r, IdentityRows(n), n, p, k);
    ExchangeProduct(IdentityRows(n), Exchange(r, p, k), n, p, k);
    MatMulIdentity(Exchange(r, p, k), n);
    assert Exchange(Exchange(r, p, k), p, k) == r;
  }

  lemma UndoReduce(r: Rows, m: Rows, n: nat, k: nat)
    requires Square(r, n) && Square(m, n) && k < n && m[k][k] != 0.0
    ensures MatMul(Restore(IdentityRows(n), m, n, k), Reduce(r, m, n, k, 0), n) == r
  {
    RestoreProduct(IdentityRows(n), m, Reduce(r, m, n, k, 0), n, k);
    MatMulIdentity(Reduce(r, m, n, k, 0), n);
    RestoreUndoesReduce(r, m, n, k);
  }

  lemma UndoReduceAbove(r: Rows, m: Rows, n: nat, k: nat)
    requires Square(r, n) && Square(m, n) && k < n && m[k][k] != 0.0
    ensures MatMul(RestoreAbove(IdentityRows(n), m, n, k), ReduceAbove(r, m, n, k), n) == r
  {
    RestoreAboveProduct(IdentityRows(n), m, ReduceAbove(r, m, n, k), n, k);
    MatMulIdentity(ReduceAbove(r, m, n, k), n);
    RestoreAboveUndoesReduceAbove(r, m, n, k);
  }

  lemma UndoNormalize(r: Rows, m: Rows, n: nat)
    requires Square(r, n) && Square(m, n) && NonzeroDiagonal(m, n)
    ensures MatMul(Rescale(IdentityRows(n), m, n), Normalize(r, m, n), n) == r
  {
    RescaleProduct(IdentityRows(n), m, Normalize(r, m, n), n);
    MatMulIdentity(Normalize(r, m, n), n);
    RescaleUndoesNormalize(r, m, n);
  }

  /** If s · r == I and g undoes the step from r to r', then (s · g) · r' == I. */
  lemma CompanionStep(s: Rows, g: Rows, r: Rows, r': Rows, n: nat)
    requires Square(s, n) && Square(g, n) && Square(r, n) && Square(r', n)
    requires MatMul(s, r, n) == IdentityRows(n) && MatMul(g, r', n) == r
    ensures MatMul(MatMul(s, g, n), r', n) == IdentityRows(n)
  {
    MatMulAssociates(s, g, r', n);
  }

  /** A left inverse r of a that has a left inverse s of its own is also a right inverse of a. */
  lemma InverseBothSides(s: Rows, r: Rows, a: Rows, n: nat)
    requires Square(s, n) && Square(r, n) && Square(a, n)
    requires MatMul(s, r, n) == IdentityRows(n) && MatMul(r, a, n) == IdentityRows(n)
    ensures MatMul(a, r, n) == IdentityRows(n)
  {
    MatMulAssociates(s, r, a, n);
    MatMulIdentity(a, n);
    MatMulIdentity(s, n);
  }

  // ---------------------------------------------------------------------------------------------
  // A matrix on which the elimination stops has no inverse

  /** No c has c · m == I. */
  ghost predicate NoLeftInverse(m: Rows, n: nat)
    requires Square(m, n)
  {
    forall c :: Square(c, n) ==> MatMul(c, m, n) != IdentityRows(n)
  }

  /** If g · q == m and q has no left inverse, neither has m: c · m == I would make c · g one for q. */
  lemma NoLeftInverseBack(m: Rows, q: Rows, g: Rows, n: nat)
    requires Square(m, n) && Square(q, n) && Square(g, n)
    requires MatMul(g, q, n) == m && NoLeftInverse(q, n)
    ensures NoLeftInverse(m, n)
  {
    forall c | Square(c, n)
      ensures MatMul(c, m, n) != IdentityRows(n)
    {
      MatMulAssociates(c, g, q, n);
    }
  }

  function Unit(n: nat, k: nat): (e: seq<real>)
    ensures |e| == n
  {
    seq(n, j => if j == k then 1.0 else 0.0)
  }

  /**
   * Back substitution for an x with x[k] == 1 and m · x == 0, when m is reduced up to row k and
   * column k is zero from row k down: x[j] == 0 for j > k, and x[i] for i < k makes row i's
   * product zero, given the entries after it.
   */
  function Kernel(m: Rows, n: nat, k: nat, i: nat): (x: seq<real>)
    requires Square(m, n) && k < n && Reduced(m, n, k) && i <= k
    ensures |x| == n
    decreases k - i
  {
    if i == k then Unit(n, k)
    else
      var v := Kernel(m, n, k, i + 1);
      v[i := -Dot(m[i], v) / m[i][i]]
  }

  lemma {:induction false} KernelZero(m: Rows, n: nat, k: nat, i: nat)
    requires Square(m, n) && k < n && Reduced(m, n, k) && i <= k
    requires forall q :: k <= q < n ==> m[q][k] == 0.0
    ensures Kernel(m, n, k, i)[k] == 1.0
    ensures forall j :: 0 <= j < i ==> Kernel(m, n, k, i)[j] == 0.0
    ensures forall q :: i <= q < n ==> Dot(m[q], Kernel(m, n, k, i)) == 0.0
    decreases k - i
  {
    var x := Kernel(m, n, k, i);
    if i == k {
      forall q | k <= q < n
        ensures Dot(m[q], x) == 0.0
      {
        DotToUnit(m[q], x, k, n);
      }
    } else {
      KernelZero(m, n, k, i + 1);
      var v := Kernel(m, n, k, i + 1);
      var w := -Dot(m[i], v) / m[i][i];
      assert x == v[i := w];
      forall q | i <= q < n
        ensures Dot(m[q], x) == 0.0
      {
        DotToUpdate(m[q], v, i, w, n);
        if q == i {
          assert m[i][i] * w == -Dot(m[i], v);
        } else {
          assert m[q][i] == 0.0;
        }
      }
    }
  }

  /** Column k zero from row k down, under a reduced top: some nonzero X has m · X == 0, so m has no inverse. */
  lemma KernelNoLeftInverse(m: Rows, n: nat, k: nat)
    requires Square(m, n) && k < n && Reduced(m, n, k)
    requires forall q :: k <= q < n ==> m[q][k] == 0.0
    ensures NoLeftInverse(m, n)
  {
    var x := Kernel(m, n, k, 0);
    KernelZero(m, n, k, 0);
    var X: Rows := seq(n, t requires 0 <= t < n => seq(n, j => x[t]));
    assert Square(X, n);
    assert MatMul(m, X, n) == Zero(n) by {
      forall i | 0 <= i < n
        ensures MatMul(m, X, n)[i] == Zero(n)[i]
      {
        forall j | 0 <= j < n
          ensures MatMul(m, X, n)[i][j] == 0.0
        {
          assert Column(X, n, j) == x;
        }
      }
    }
    assert X[k][0] == 1.0 && Zero(n)[k][0] == 0.0;
    forall c | Square(c, n)
      ensures MatMul(c, m, n) != IdentityRows(n)
    {
      MatMulAssociates(c, m, X, n);
      MatMulIdentity(X, n);
      MatMulZero(c, n);
    }
  }

  /** A row swap keeps a matrix without a left inverse without one. */
  lemma PivotedNoLeftInverse(m: Rows, n: nat, k: nat, swapped: bool)
    requires Square(m, n) && k < n && Pivoted(m, n, k, swapped).Some?
    requires NoLeftInverse(Pivoted(m, n, k, swapped).value.m, n)
    ensures NoLeftInverse(m, n)
  {
    if m[k][k] == 0.0 {
      var piv := FirstNonzero(m, n, k, k + 1).value;
      UndoExchange(m, n, piv, k);
      NoLeftInverseBack(m, Exchange(m, piv, k), Exchange(IdentityRows(n), piv, k), n);
    }
  }

  /** So does the step below a nonzero pivot. */
  lemma ReduceNoLeftInverse(m: Rows, n: nat, k: nat)
    requires Square(m, n) && k < n && m[k][k] != 0.0
    requires NoLeftInverse(Reduce(m, m, n, k, 0), n)
    ensures NoLeftInverse(m, n)
  {
    UndoReduce(m, m, n, k);
    NoLeftInverseBack(m, Reduce(m, m, n, k, 0), Restore(IdentityRows(n), m, n, k), n);
  }

  /** One step of `invert`'s forward pass from a copy reduced up to row k: the next copy is reduced up to row k + 1. */
  lemma FullStep(m: Rows, n: nat, k: nat, swapped: bool)
    requires Square(m, n) && k < n - 1 && Reduced(m, n, k) && Pivoted(m, n, k, swapped).Some?
    ensures var p := Pivoted(m, n, k, swapped).value;
      Reduced(Reduce(p.m, p.m, n, k, 0), n, k + 1) &&
      Forward(m, n, k, swapped, true) == Forward(Reduce(p.m, p.m, n, k, 0), n, k + 1, p.swapped, true)
  {
    var p := Pivoted(m, n, k, swapped).value;
    PivotedReduced(m, n, k, swapped);
    ReduceReduced(p.m, n, k, 0);
    ForwardStep(m, n, k, swapped, true);
  }

  /** If the copy after one step of `invert`'s forward pass has no left inverse, neither has the copy before it. */
  lemma FullStepNoLeftInverse(m: Rows, n: nat, k: nat, swapped: bool)
    requires Square(m, n) && k < n && Pivoted(m, n, k, swapped).Some?
    requires var p := Pivoted(m, n, k, swapped).value; NoLeftInverse(Reduce(p.m, p.m, n, k, 0), n)
    ensures NoLeftInverse(m, n)
  {
    ReduceNoLeftInverse(Pivoted(m, n, k, swapped).value.m, n, k);
    PivotedNoLeftInverse(m, n, k, swapped);
  }

  /** The forward pass of `invert` stops, or leaves a zero last pivot, only on a matrix with no left inverse. */
  lemma {:induction false} ForwardNoLeftInverse(m: Rows, n: nat, k: nat, swapped: bool)
    requires Square(m, n) && k < n && Reduced(m, n, k)
    requires Forward(m, n, k, swapped, true).None? || Forward(m, n, k, swapped, true).value.m[n - 1][n - 1] == 0.0
    ensures NoLeftInverse(m, n)
    decreases n - k
  {
    if k == n - 1 {
      KernelNoLeftInverse(m, n, k);
    } else if Pivoted(m, n, k, swapped).None? {
      KernelNoLeftInverse(m, n, k);
    } else {
      var p := Pivoted(m, n, k, swapped).value;
      FullStep(m, n, k, swapped);
      ForwardNoLeftInverse(Reduce(p.m, p.m, n, k, 0), n, k + 1, p.swapped);
      FullStepNoLeftInverse(m, n, k, swapped);
    }
  }

  /** No matrix b times a matrix on which `invert` throws "Singular matrix" gives the identity. */
  lemma SingularHasNoInverse(a: seq<real>, n: nat)
    requires |a| == n * n && n >= 2 && Singular(a, n)
    ensures forall b :: |b| == n * n ==> Product(b, n, n, a, n) != Identity(n)
  {
    var A := RowsOf(a, n);
    assert Reduced(A, n, 0);
    ForwardNoLeftInverse(A, n, 0, false);
    FlattenIdentity(n);
    RowsOfFlatten(IdentityRows(n), n);
    forall b | |b| == n * n
      ensures Product(b, n, n, a, n) != Identity(n)
    {
      var B := RowsOf(b, n);
      ProductFlatten(B, a, n);
      FlattenRowsOf(b, n);
      RowsOfFlatten(MatMul(B, A, n), n);
    }
  }

  // ---------------------------------------------------------------------------------------------
  // The loops of `invert<T>()`, with the ghost undoing product s

  /** `invert`'s forward pass, on the working copy `m` and the companion `r` (which starts as the identity). */
  method InvertForward(a: seq<real>, n: nat) returns (ok: bool, m: Rows, r: Rows, ghost s: Rows)
    requires |a| == n * n && n >= 1
    ensures Square(m, n) && Square(r, n) && Square(s, n)
    ensures ok <==> Forward(RowsOf(a, n), n, 0, false, true).Some?
    ensures ok ==> m == Forward(RowsOf(a, n), n, 0, false, true).value.m
    ensures ok ==> MatMul(r, RowsOf(a, n), n) == m && Reduced(m, n, n - 1)
    ensures MatMul(s, r, n) == IdentityRows(n)
  {
    ghost var A := RowsOf(a, n);
    m := RowsOf(a, n);
    r := IdentityRows(n);
    s := IdentityRows(n);
    MatMulIdentityLeft(a, n);
    MatMulIdentity(IdentityRows(n), n);
    ghost var swap := false;
    assert Reduced(m, n, 0);
    for k := 0 to n - 1
      invariant Square(m, n) && Square(r, n) && Square(s, n)
      invariant MatMul(r, A, n) == m && MatMul(s, r, n) == IdentityRows(n)
      invariant Reduced(m, n, k)
      invariant Forward(m, n, k, swap, true) == Forward(A, n, 0, false, true)
    {
      if m[k][k] == 0.0 {
        var p := FindPivot(m, n, k);
        if p.None? {
          return false, m, r, s;
        }
        PivotedReduced(m, n, k, swap);
        ExchangeProduct(r, A, n, p.value, k);
        UndoExchange(r, n, p.value, k);
        CompanionStep(s, Exchange(IdentityRows(n), p.value, k), r, Exchange(r, p.value, k), n);
        s := MatMul(s, Exchange(IdentityRows(n), p.value, k), n);
        m, r, swap := Exchange(m, p.value, k), Exchange(r, p.value, k), !swap;
      }
      ReduceProduct(r, m, A, n, k);
      ReduceReduced(m, n, k, 0);
      UndoReduce(r, m, n, k);
      CompanionStep(s, Restore(IdentityRows(n), m, n, k), r, Reduce(r, m, n, k, 0), n);
      s := MatMul(s, Restore(IdentityRows(n), m, n, k), n);
      m, r := EliminateBelowBoth(m, r, n, k);
    }
    return true, m, r, s;
  }

  /** `invert`'s backward pass `for (k = size - 1; k > 0; k--)`: leaves `m` diagonal. */
  method InvertBackward(m: Rows, r: Rows, A: Rows, n: nat, ghost s: Rows) returns (m': Rows, r': Rows, ghost s': Rows)
    requires n >= 1 && Square(m, n) && Square(r, n) && Square(A, n) && Square(s, n)
    requires MatMul(r, A, n) == m && UpperTriangular(m, n) && NonzeroDiagonal(m, n)
    requires MatMul(s, r, n) == IdentityRows(n)
    ensures Square(m', n) && Square(r', n) && MatMul(r', A, n) == m' && NonzeroDiagonal(m', n)
    ensures forall i, j :: 0 <= i < n && 0 <= j < n && i != j ==> m'[i][j] == 0.0
    ensures Square(s', n) && MatMul(s', r', n) == IdentityRows(n)
  {
    m', r', s' := m, r, s;
    var k := n - 1;
    while k > 0
      invariant k < n
      invariant Square(m', n) && Square(r', n) && Square(s', n)
      invariant MatMul(r', A, n) == m' && MatMul(s', r', n) == IdentityRows(n)
      invariant UpperTriangular(m', n) && NonzeroDiagonal(m', n) && ClearedAfter(m', n, k)
    {
      ReduceAboveProduct(r', m', A, n, k);
      ReduceAboveCleared(m', n, k);
      UndoReduceAbove(r', m', n, k);
      CompanionStep(s', RestoreAbove(IdentityRows(n), m', n, k), r', ReduceAbove(r', m', n, k), n);
      s' := MatMul(s', RestoreAbove(IdentityRows(n), m', n, k), n);
      m', r' := EliminateAboveBoth(m', r', n, k);
      k := k - 1;
    }
    ClearedDiagonal(m', n);
  }

  /**
   * `invert<T>()`: Gauss-Jordan elimination on the working copy `m`, applying every row
   * operation to the companion `r`, which starts as the identity. The result is an inverse of
   * the input on both sides.
   */
  method Invert(a: seq<real>, n: nat) returns (res: Result<seq<real>>)
    requires |a| == n * n
    requires n == 1 ==> a[0] != 0.0
    ensures n == 0 ==> res == Err(OutOfRange("SquareMatrix::operator()"))
    ensures n == 1 ==> res == Ok([1.0 / a[0]])
    ensures n >= 2 ==> (res.Err? <==> Singular(a, n))
    ensures n >= 2 && res.Err? ==> res.error == RuntimeError("Singular matrix")
    ensures res.Ok? ==> |res.value| == n * n && Product(res.value, n, n, a, n) == Identity(n)
    ensures res.Ok? ==> Product(a, n, n, res.value, n) == Identity(n)
  {
    if n == 1 {
      InverseOne(a);
      return Ok([1.0 / a[0]]);
    }
    if n == 0 {
      return Err(OutOfRange("SquareMatrix::operator()"));
    }
    var ok, m, r, s := InvertForward(a, n);
    if !ok {
      return Err(RuntimeError("Singular matrix"));
    }
    if m[n - 1][n - 1] == 0.0 {
      return Err(RuntimeError("Singular matrix"));
    }
    assert NonzeroDiagonal(m, n);
    ghost var A := RowsOf(a, n);
    m, r, s := InvertBackward(m, r, RowsOf(a, n), n, s);
    NormalizeProduct(r, m, A, n);
    NormalizeDiagonal(m, n);
    UndoNormalize(r, m, n);
    CompanionStep(s, Rescale(IdentityRows(n), m, n), r, Normalize(r, m, n), n);
    s := MatMul(s, Rescale(IdentityRows(n), m, n), n);
    r := NormalizeRows(r, m, n);
    InverseBothSides(s, r, A, n);
    ProductFlatten(r, a, n);
    ProductFlatten(A, Flatten(r, n), n);
    FlattenRowsOf(a, n);
    RowsOfFlatten(r, n);
    FlattenIdentity(n);
    return Ok(Flatten(r, n));
  }
}
