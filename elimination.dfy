/**
 * The Gaussian elimination shared by `det<T>()` and `invert<T>()` (SquareMatrix.h) and by
 * `Matrix::det<T>()` (Matrix.h), with T = real. The working copies `m` and `r` are held row by
 * row: m[i][j] is the element the source reads as `m(i, j)`.
 */
module Elimination {
  import opened Errors
  import opened RowMajor

  type Rows = seq<seq<real>>

  predicate Square(m: Rows, n: nat)
  {
    |m| == n && forall i :: 0 <= i < n ==> |m[i]| == n
  }

  /** The working copy `SquareMatrix<T> m(size, v)` of a flat buffer. */
  function RowsOf(d: seq<real>, n: nat): (m: Rows)
    requires |d| == n * n
    ensures Square(m, n)
    ensures forall i, j :: 0 <= i < n && 0 <= j < n ==> m[i][j] == At(d, n, n, i, j)
  {
    seq(n, i requires 0 <= i < n => RowOf(d, n, n, i))
  }

  /** The flat row-major buffer of a working copy. */
  function Flatten(m: Rows, n: nat): (d: seq<real>)
    requires Square(m, n)
    ensures |d| == n * n
  {
    seq(n * n, p requires 0 <= p < n * n => IndexOf(p, n, n); m[p / n][p % n])
  }

  lemma FlattenAt(m: Rows, n: nat)
    requires Square(m, n)
    ensures forall i, j :: 0 <= i < n && 0 <= j < n ==> At(Flatten(m, n), n, n, i, j) == m[i][j]
  {
    forall i, j | 0 <= i < n && 0 <= j < n
      ensures At(Flatten(m, n), n, n, i, j) == m[i][j]
    {
      IndexInRange(i, j, n, n);
      IndexSplit(i, j, n);
    }
  }

  /** Copying a buffer into rows and back gives the buffer again, and the other way round. */
  lemma FlattenRowsOf(d: seq<real>, n: nat)
    requires |d| == n * n
    ensures Flatten(RowsOf(d, n), n) == d
  {
    FlattenAt(RowsOf(d, n), n);
    AtExtensionality(Flatten(RowsOf(d, n), n), d, n, n);
  }

  lemma RowsOfFlatten(m: Rows, n: nat)
    requires Square(m, n)
    ensures RowsOf(Flatten(m, n), n) == m
  {
    FlattenAt(m, n);
    var e := RowsOf(Flatten(m, n), n);
    forall i | 0 <= i < n
      ensures e[i] == m[i]
    {
      assert forall j :: 0 <= j < n ==> e[i][j] == m[i][j];
    }
  }

  // ---------------------------------------------------------------------------------------------
  // One step of elimination

  /** The row `u - f * v`, changed only from column `from` on: the inner `j` loops. */
  function Combine(u: seq<real>, v: seq<real>, f: real, from: nat): (w: seq<real>)
    requires |u| == |v|
    ensures |w| == |u|
    ensures forall j :: 0 <= j < |u| ==> w[j] == if j < from then u[j] else u[j] - f * v[j]
  {
    seq(|u|, j requires 0 <= j < |u| => if j < from then u[j] else u[j] - f * v[j])
  }

  /** Adding back the multiple that `Combine` subtracted restores the row. */
  lemma {:induction false} CombineUndone(u: seq<real>, v: seq<real>, f: real, from: nat)
    requires |u| == |v|
    ensures Combine(Combine(u, v, f, from), v, -f, from) == u
  {
    var w := Combine(Combine(u, v, f, from), v, -f, from);
    forall j | 0 <= j < |u|
      ensures w[j] == u[j]
    {
      if from <= j {
        assert w[j] == (u[j] - f * v[j]) - -f * v[j];
      }
    }
  }

  /** `m.swapRows(a, b)` on a working copy. */
  function Exchange(m: Rows, a: nat, b: nat): (e: Rows)
    requires a < |m| && b < |m|
    ensures |e| == |m|
  {
    m[a := m[b]][b := m[a]]
  }

  /** The pivot search: the first row p >= i with m[p][k] != 0, if there is one. */
  function FirstNonzero(m: Rows, n: nat, k: nat, i: nat): (p: Option<nat>)
    requires Square(m, n) && k < n && i <= n
    ensures p.Some? ==> i <= p.value < n && m[p.value][k] != 0.0
    ensures p.Some? ==> forall q :: i <= q < p.value ==> m[q][k] == 0.0
    ensures p.None? <==> forall q :: i <= q < n ==> m[q][k] == 0.0
    decreases n - i
  {
    if i == n then None
    else if m[i][k] != 0.0 then Some(i)
    else FirstNonzero(m, n, k, i + 1)
  }

  /**
   * Every row i > k of x minus m[i][k] / m[k][k] times row k of x, from column `from` on;
   * rows 0..k unchanged. With x == m this eliminates column k below the pivot; with x the
   * companion `r` it applies the same row operations to it.
   */
  function Reduce(x: Rows, m: Rows, n: nat, k: nat, from: nat): (y: Rows)
    requires Square(x, n) && Square(m, n) && k < n && m[k][k] != 0.0
    ensures Square(y, n)
  {
    seq(n, i requires 0 <= i < n => if i <= k then x[i] else Combine(x[i], x[k], m[i][k] / m[k][k], from))
  }

  lemma ReduceAt(x: Rows, m: Rows, n: nat, k: nat, from: nat, i: nat, j: nat)
    requires Square(x, n) && Square(m, n) && k < n && m[k][k] != 0.0 && i < n && j < n
    ensures Reduce(x, m, n, k, from)[i][j]
         == if i <= k || j < from then x[i][j] else x[i][j] - m[i][k] / m[k][k] * x[k][j]
  {
  }

  /** The working copy and the swap flag after the forward pass, when it completes. */
  datatype Eliminated = Eliminated(m: Rows, swapped: bool)

  /** The zero-pivot branch of step k: keep a nonzero pivot, else swap in the first nonzero row below. */
  function Pivoted(m: Rows, n: nat, k: nat, swapped: bool): (r: Option<Eliminated>)
    requires Square(m, n) && k < n
    ensures r.Some? ==> Square(r.value.m, n) && r.value.m[k][k] != 0.0
  {
    if m[k][k] != 0.0 then Some(Eliminated(m, swapped))
    else match FirstNonzero(m, n, k, k + 1)
      case None => None
      case Some(p) => Some(Eliminated(Exchange(m, p, k), !swapped))
  }

  /**
   * The forward pass from step k: `for (k = ...; k < size - 1; k++)`. With `full` the
   * row operations run over every column (`invert`), otherwise from column k on (`det`).
   * None when a step finds no nonzero pivot.
   */
  function Forward(m: Rows, n: nat, k: nat, swapped: bool, full: bool): (r: Option<Eliminated>)
    requires Square(m, n) && k < n
    ensures r.Some? ==> Square(r.value.m, n)
    decreases n - k
  {
    if k == n - 1 then Some(Eliminated(m, swapped))
    else match Pivoted(m, n, k, swapped)
      case None => None
      case Some(p) => Forward(Reduce(p.m, p.m, n, k, if full then 0 else k), n, k + 1, p.swapped, full)
  }

  /** The product of the first k diagonal elements. */
  function DiagProduct(m: Rows, n: nat, k: nat): real
    requires Square(m, n) && k <= n
  {
    if k == 0 then 1.0 else DiagProduct(m, n, k - 1) * m[k - 1][k - 1]
  }

  /** What `det<T>()` returns for an n × n buffer, n >= 1. */
  function Determinant(a: seq<real>, n: nat): real
    requires |a| == n * n && n >= 1
  {
    if n == 1 then a[0]
    else if n == 2 then a[0] * a[3] - a[1] * a[2]
    else match Forward(RowsOf(a, n), n, 0, false, false)
      case None => 0.0
      case Some(e) => if e.swapped then -DiagProduct(e.m, n, n) else DiagProduct(e.m, n, n)
  }

  /** When `invert<T>()` throws "Singular matrix" (n >= 2): no pivot in some column, or a zero last pivot. */
  predicate Singular(a: seq<real>, n: nat)
    requires |a| == n * n && n >= 2
  {
    match Forward(RowsOf(a, n), n, 0, false, true)
      case None => true
      case Some(e) => e.m[n - 1][n - 1] == 0.0
  }

  // ---------------------------------------------------------------------------------------------
  // What the forward pass establishes

  /** Columns 0..k-1 hold zeros below the diagonal, and the pivots 0..k-1 are nonzero. */
  predicate Reduced(m: Rows, n: nat, k: nat)
    requires Square(m, n) && k <= n
  {
    (forall i, c :: 0 <= c < k && c < i < n ==> m[i][c] == 0.0) &&
    (forall j :: 0 <= j < k ==> m[j][j] != 0.0)
  }

  /** Every element below the diagonal is zero. */
  predicate UpperTriangular(m: Rows, n: nat)
    requires Square(m, n)
  {
    forall i, c :: 0 <= c < i < n ==> m[i][c] == 0.0
  }

  /** The pivot search swaps two rows at or below k, so it keeps the zeros and pivots above k. */
  lemma PivotedReduced(m: Rows, n: nat, k: nat, swapped: bool)
    requires Square(m, n) && k < n && Reduced(m, n, k)
    requires Pivoted(m, n, k, swapped).Some?
    ensures Reduced(Pivoted(m, n, k, swapped).value.m, n, k)
  {
    if m[k][k] == 0.0 {
      var p := FirstNonzero(m, n, k, k + 1).value;
      var e := Exchange(m, p, k);
      assert e == Pivoted(m, n, k, swapped).value.m;
      forall i, c | 0 <= c < k && c < i < n
        ensures e[i][c] == 0.0
      {
        if i == k {
          assert e[i] == m[p];
        } else if i == p {
          assert e[i] == m[k];
        } else {
          assert e[i] == m[i];
        }
      }
      forall j | 0 <= j < k
        ensures e[j][j] != 0.0
      {
        assert e[j] == m[j];
      }
    }
  }

  /** Step k clears column k below a nonzero pivot and keeps the columns before it clear. */
  lemma ReduceReduced(m: Rows, n: nat, k: nat, from: nat)
    requires Square(m, n) && k < n && Reduced(m, n, k) && m[k][k] != 0.0 && from <= k
    ensures Reduced(Reduce(m, m, n, k, from), n, k + 1)
  {
    var e := Reduce(m, m, n, k, from);
    forall i, c | 0 <= c < k + 1 && c < i < n
      ensures e[i][c] == 0.0
    {
      if i > k {
        var f := m[i][k] / m[k][k];
        assert e[i] == Combine(m[i], m[k], f, from);
        if c == k {
          assert e[i][c] == m[i][k] - f * m[k][k];
        } else if c >= from {
          assert e[i][c] == m[i][c] - f * m[k][c];
        }
      }
    }
    forall j | 0 <= j < k + 1
      ensures e[j][j] != 0.0
    {
      assert e[j] == m[j];
    }
  }

  /** Below a pivot whose row and column are clear to its left, starting the row operation at column 0 or at column k is the same. */
  lemma ReduceFullAgrees(m: Rows, n: nat, k: nat)
    requires Square(m, n) && k < n && Reduced(m, n, k) && m[k][k] != 0.0
    ensures Reduce(m, m, n, k, 0) == Reduce(m, m, n, k, k)
  {
    var full, part := Reduce(m, m, n, k, 0), Reduce(m, m, n, k, k);
    forall i | 0 <= i < n
      ensures full[i] == part[i]
    {
      if i > k {
        var f := m[i][k] / m[k][k];
        forall c | 0 <= c < n
          ensures full[i][c] == part[i][c]
        {
          if c < k {
            assert m[i][c] == 0.0 && m[k][c] == 0.0;
          }
        }
      }
    }
  }

  /** From a reduced state, `invert`'s forward pass (all columns) and `det`'s (from column k) agree. */
  lemma {:induction false} ForwardAgrees(m: Rows, n: nat, k: nat, swapped: bool)
    requires Square(m, n) && k < n && Reduced(m, n, k)
    ensures Forward(m, n, k, swapped, true) == Forward(m, n, k, swapped, false)
    decreases n - k
  {
    if k < n - 1 {
      var p := Pivoted(m, n, k, swapped);
      if p.Some? {
        PivotedReduced(m, n, k, swapped);
        ReduceFullAgrees(p.value.m, n, k);
        ReduceReduced(p.value.m, n, k, k);
        ForwardAgrees(Reduce(p.value.m, p.value.m, n, k, k), n, k + 1, p.value.swapped);
      }
    }
  }

  /** A completed forward pass leaves an upper-triangular matrix whose pivots 0..n-2 are nonzero. */
  lemma {:induction false} ForwardReduced(m: Rows, n: nat, k: nat, swapped: bool, full: bool)
    requires Square(m, n) && k < n && Reduced(m, n, k)
    requires Forward(m, n, k, swapped, full).Some?
    ensures Reduced(Forward(m, n, k, swapped, full).value.m, n, n - 1)
    ensures UpperTriangular(Forward(m, n, k, swapped, full).value.m, n)
    decreases n - k
  {
    if k < n - 1 {
      var p := Pivoted(m, n, k, swapped).value;
      var q := Reduce(p.m, p.m, n, k, if full then 0 else k);
      assert Forward(m, n, k, swapped, full) == Forward(q, n, k + 1, p.swapped, full);
      PivotedReduced(m, n, k, swapped);
      ReduceReduced(p.m, n, k, if full then 0 else k);
      ForwardReduced(q, n, k + 1, p.swapped, full);
    } else {
      assert Forward(m, n, k, swapped, full).value.m == m;
    }
  }

  /** A product of diagonal elements is zero exactly when one of them is. */
  lemma {:induction false} DiagProductZero(m: Rows, n: nat, k: nat)
    requires Square(m, n) && k <= n
    ensures DiagProduct(m, n, k) == 0.0 <==> exists j :: 0 <= j < k && m[j][j] == 0.0
  {
    if k > 0 {
      DiagProductZero(m, n, k - 1);
      var x, y := DiagProduct(m, n, k - 1), m[k - 1][k - 1];
      assert x * y == 0.0 <==> x == 0.0 || y == 0.0;
    }
  }

  /** For a 2 × 2 buffer, `invert`'s single forward step fails exactly when the cross-product formula is zero. */
  lemma SingularTwo(a: seq<real>)
    requires |a| == 4
    ensures Singular(a, 2) <==> a[0] * a[3] - a[1] * a[2] == 0.0
  {
    var m := RowsOf(a, 2);
    assert m[0][0] == a[0] && m[0][1] == a[1] && m[1][0] == a[2] && m[1][1] == a[3] by {
      assert At(a, 2, 2, 0, 0) == a[0] && At(a, 2, 2, 0, 1) == a[1];
      assert At(a, 2, 2, 1, 0) == a[2] && At(a, 2, 2, 1, 1) == a[3];
    }
    ForwardTwo(m);
    var f := Forward(m, 2, 0, false, true);
    assert Singular(a, 2) <==> f.None? || f.value.m[1][1] == 0.0;
  }

  lemma ForwardTwo(m: Rows)
    requires Square(m, 2)
    ensures var f := Forward(m, 2, 0, false, true);
      (f.None? || f.value.m[1][1] == 0.0) <==> m[0][0] * m[1][1] - m[0][1] * m[1][0] == 0.0
  {
    if m[0][0] != 0.0 {
      ForwardTwoKeep(m);
    } else if m[1][0] != 0.0 {
      ForwardTwoSwap(m);
    } else {
      ForwardTwoStuck(m);
    }
  }

  /** Column 0 is all zero: elimination gives up and the determinant is 0. */
  lemma ForwardTwoStuck(m: Rows)
    requires Square(m, 2) && m[0][0] == 0.0 && m[1][0] == 0.0
    ensures var f := Forward(m, 2, 0, false, true);
      f.None? && m[0][0] * m[1][1] - m[0][1] * m[1][0] == 0.0
  {
    assert FirstNonzero(m, 2, 0, 1) == None;
  }

  lemma ForwardTwoKeep(m: Rows)
    requires Square(m, 2) && m[0][0] != 0.0
    ensures var f := Forward(m, 2, 0, false, true);
      f.Some? && (f.value.m[1][1] == 0.0 <==> m[0][0] * m[1][1] - m[0][1] * m[1][0] == 0.0)
  {
    var e := Reduce(m, m, 2, 0, 0);
    assert Forward(m, 2, 0, false, true) == Some(Eliminated(e, false));
    ReduceTwo(m);
  }

  lemma ReduceTwo(m: Rows)
    requires Square(m, 2) && m[0][0] != 0.0
    ensures Reduce(m, m, 2, 0, 0)[1][1] == 0.0 <==> m[0][0] * m[1][1] - m[0][1] * m[1][0] == 0.0
  {
    ReduceAt(m, m, 2, 0, 0, 1, 1);
    EliminatedTwo(m[0][0], m[0][1], m[1][0], m[1][1], Reduce(m, m, 2, 0, 0)[1][1]);
  }

  lemma ForwardTwoSwap(m: Rows)
    requires Square(m, 2) && m[0][0] == 0.0 && m[1][0] != 0.0
    ensures var f := Forward(m, 2, 0, false, true);
      f.Some? && (f.value.m[1][1] == 0.0 <==> m[0][0] * m[1][1] - m[0][1] * m[1][0] == 0.0)
  {
    var q := Exchange(m, 1, 0);
    assert FirstNonzero(m, 2, 0, 1) == Some(1);
    var e := Reduce(q, q, 2, 0, 0);
    assert Forward(m, 2, 0, false, true) == Some(Eliminated(e, true));
    ReduceAt(q, q, 2, 0, 0, 1, 1);
    assert q[1][0] == 0.0 && q[1][1] == m[0][1];
    SwappedTwo(m[0][1], m[1][0], m[1][1]);
  }

  /** With a zero pivot and a nonzero element below it, a zero determinant means b == 0. */
  lemma SwappedTwo(b: real, c: real, d: real)
    requires c != 0.0
    ensures b == 0.0 <==> 0.0 * d - b * c == 0.0
  {
  }

  lemma EliminatedTwo(a: real, b: real, c: real, d: real, e: real)
    requires a != 0.0 && e == d - c / a * b
    ensures e == 0.0 <==> a * d - b * c == 0.0
  {
    assert e * a == a * d - b * c;
  }

  /** `det<T>()` returns 0 exactly when `invert<T>()` throws "Singular matrix". */
  lemma DeterminantZeroIffSingular(a: seq<real>, n: nat)
    requires |a| == n * n && n >= 2
    ensures Determinant(a, n) == 0.0 <==> Singular(a, n)
  {
    if n == 2 {
      SingularTwo(a);
    } else {
      var m := RowsOf(a, n);
      assert Reduced(m, n, 0);
      ForwardAgrees(m, n, 0, false);
      var f := Forward(m, n, 0, false, false);
      if f.Some? {
        ForwardReduced(m, n, 0, false, false);
        DiagProductZero(f.value.m, n, n);
      }
    }
  }

  // ---------------------------------------------------------------------------------------------
  // A zero row, or two equal rows, make the determinant 0

  /** One step of the forward pass, when the pivot search succeeds. */
  lemma ForwardStep(m: Rows, n: nat, k: nat, swapped: bool, full: bool)
    requires Square(m, n) && k < n - 1 && Pivoted(m, n, k, swapped).Some?
    ensures var p := Pivoted(m, n, k, swapped).value;
      Forward(m, n, k, swapped, full) == Forward(Reduce(p.m, p.m, n, k, if full then 0 else k), n, k + 1, p.swapped, full)
  {
  }

  /** Row i of m is all zeros. */
  predicate ZeroRow(m: Rows, n: nat, i: nat)
    requires Square(m, n) && i < n
  {
    forall j :: 0 <= j < n ==> m[i][j] == 0.0
  }

  /** Some diagonal element of m is zero. */
  predicate ZeroPivot(m: Rows, n: nat)
    requires Square(m, n)
  {
    exists j :: 0 <= j < n && m[j][j] == 0.0
  }

  /** A row swap moves a zero row to a position other than the pivot's. */
  lemma PivotedZeroRow(m: Rows, n: nat, k: nat, swapped: bool, i: nat) returns (i': nat)
    requires Square(m, n) && k < n && i < n && ZeroRow(m, n, i)
    requires Pivoted(m, n, k, swapped).Some?
    ensures i' < n && i' != k && ZeroRow(Pivoted(m, n, k, swapped).value.m, n, i')
  {
    var p := Pivoted(m, n, k, swapped).value;
    i' := i;
    if m[k][k] == 0.0 {
      var piv := FirstNonzero(m, n, k, k + 1).value;
      // row piv is nonzero in column k, so it is not the zero row
      i' := if i == k then piv else i;
      assert p.m[i'] == m[i];
    }
    assert p.m[k][k] != 0.0;
  }

  /** The step below a nonzero pivot subtracts 0 times the pivot row from a zero row. */
  lemma ReduceZeroRow(m: Rows, n: nat, k: nat, from: nat, i: nat)
    requires Square(m, n) && k < n && m[k][k] != 0.0 && i < n && i != k && ZeroRow(m, n, i)
    ensures ZeroRow(Reduce(m, m, n, k, from), n, i)
  {
    if i > k {
      assert m[i][k] / m[k][k] == 0.0;
    }
  }

  /** A zero row survives the forward pass, so a completed pass has a zero on its diagonal. */
  lemma {:induction false} ForwardZeroRow(m: Rows, n: nat, k: nat, swapped: bool, full: bool, i: nat)
    requires Square(m, n) && k < n && i < n && ZeroRow(m, n, i)
    ensures Forward(m, n, k, swapped, full).Some? ==> ZeroPivot(Forward(m, n, k, swapped, full).value.m, n)
    decreases n - k
  {
    if k == n - 1 {
      assert m[i][i] == 0.0;
    } else if Pivoted(m, n, k, swapped).Some? {
      var p := Pivoted(m, n, k, swapped).value;
      var i' := PivotedZeroRow(m, n, k, swapped, i);
      var from := if full then 0 else k;
      ReduceZeroRow(p.m, n, k, from, i');
      var q := Reduce(p.m, p.m, n, k, from);
      ForwardStep(m, n, k, swapped, full);
      ForwardZeroRow(q, n, k + 1, p.swapped, full, i');
    }
  }

  /** A row swap moves two equal rows to two other positions, j1 < j2. */
  lemma PivotedEqualRows(m: Rows, n: nat, k: nat, swapped: bool, i1: nat, i2: nat) returns (j1: nat, j2: nat)
    requires Square(m, n) && k < n && i1 < i2 < n && m[i1] == m[i2]
    requires Pivoted(m, n, k, swapped).Some?
    ensures j1 < j2 < n && Pivoted(m, n, k, swapped).value.m[j1] == Pivoted(m, n, k, swapped).value.m[j2]
  {
    var p := Pivoted(m, n, k, swapped).value;
    j1, j2 := i1, i2;
    if m[k][k] == 0.0 {
      var piv := FirstNonzero(m, n, k, k + 1).value;
      var s1 := if i1 == piv then k else if i1 == k then piv else i1;
      var s2 := if i2 == piv then k else if i2 == k then piv else i2;
      assert p.m[s1] == m[i1] && p.m[s2] == m[i2] && s1 != s2;
      j1, j2 := if s1 < s2 then s1 else s2, if s1 < s2 then s2 else s1;
    }
  }

  /** In a matrix reduced up to row k, two equal rows both lie at or below row k. */
  lemma EqualRowsBelow(m: Rows, n: nat, k: nat, j1: nat, j2: nat)
    requires Square(m, n) && k < n && Reduced(m, n, k) && j1 < j2 < n && m[j1] == m[j2]
    ensures k <= j1
  {
    // a row above row k has a nonzero pivot where every row below it has a zero
    assert m[j1][j1] == m[j2][j1];
  }

  /**
   * The step below a nonzero pivot keeps two equal rows equal, unless the pivot row is one of
   * them: then it is subtracted once from the other, which becomes a zero row.
   */
  lemma ReduceEqualRows(m: Rows, n: nat, k: nat, from: nat, j1: nat, j2: nat)
    requires Square(m, n) && k < n && Reduced(m, n, k) && m[k][k] != 0.0 && from <= k
    requires j1 < j2 < n && m[j1] == m[j2]
    ensures j1 == k ==> ZeroRow(Reduce(m, m, n, k, from), n, j2)
    ensures j1 != k ==> Reduce(m, m, n, k, from)[j1] == Reduce(m, m, n, k, from)[j2]
  {
    EqualRowsBelow(m, n, k, j1, j2);
    if j1 == k {
      assert m[j2][k] / m[k][k] == 1.0;
    }
  }

  /**
   * Two equal rows i1 < i2 survive the forward pass as a pair of equal rows, until the pivot row
   * is one of them and the other becomes a zero row.
   */
  lemma {:induction false} ForwardEqualRows(m: Rows, n: nat, k: nat, swapped: bool, full: bool, i1: nat, i2: nat)
    requires Square(m, n) && k < n && Reduced(m, n, k) && i1 < i2 < n && m[i1] == m[i2]
    ensures Forward(m, n, k, swapped, full).Some? ==> ZeroPivot(Forward(m, n, k, swapped, full).value.m, n)
    decreases n - k
  {
    // so k < i2 < n: the pass has at least one more step
    EqualRowsBelow(m, n, k, i1, i2);
    if Pivoted(m, n, k, swapped).Some? {
      var p := Pivoted(m, n, k, swapped).value;
      PivotedReduced(m, n, k, swapped);
      var j1, j2 := PivotedEqualRows(m, n, k, swapped, i1, i2);
      var from := if full then 0 else k;
      var q := Reduce(p.m, p.m, n, k, from);
      ReduceReduced(p.m, n, k, from);
      ReduceEqualRows(p.m, n, k, from, j1, j2);
      ForwardStep(m, n, k, swapped, full);
      if j1 == k {
        ForwardZeroRow(q, n, k + 1, p.swapped, full, j2);
      } else {
        ForwardEqualRows(q, n, k + 1, p.swapped, full, j1, j2);
      }
    }
  }

  /** `det<T>()` of a matrix with a row of zeros is 0. */
  lemma DeterminantZeroRow(a: seq<real>, n: nat, i: nat)
    requires |a| == n * n && i < n
    requires forall j :: 0 <= j < n ==> At(a, n, n, i, j) == 0.0
    ensures Determinant(a, n) == 0.0
  {
    if n == 1 {
      assert At(a, 1, 1, 0, 0) == a[0];
    } else if n == 2 {
      assert At(a, 2, 2, i, 0) == a[2 * i] && At(a, 2, 2, i, 1) == a[2 * i + 1];
    } else {
      var m := RowsOf(a, n);
      ForwardZeroRow(m, n, 0, false, false, i);
      var f := Forward(m, n, 0, false, false);
      if f.Some? {
        DiagProductZero(f.value.m, n, n);
      }
    }
  }

  /** `det<T>()` of a matrix with two equal rows is 0. */
  lemma DeterminantEqualRows(a: seq<real>, n: nat, i1: nat, i2: nat)
    requires |a| == n * n && i1 < i2 < n
    requires forall j :: 0 <= j < n ==> At(a, n, n, i1, j) == At(a, n, n, i2, j)
    ensures Determinant(a, n) == 0.0
  {
    if n == 2 {
      assert At(a, 2, 2, 0, 0) == a[0] && At(a, 2, 2, 0, 1) == a[1];
      assert At(a, 2, 2, 1, 0) == a[2] && At(a, 2, 2, 1, 1) == a[3];
    } else {
      var m := RowsOf(a, n);
      assert m[i1] == m[i2];
      assert Reduced(m, n, 0);
      ForwardEqualRows(m, n, 0, false, false, i1, i2);
      var f := Forward(m, n, 0, false, false);
      if f.Some? {
        DiagProductZero(f.value.m, n, n);
      }
    }
  }

  // ---------------------------------------------------------------------------------------------
  // Triangular inputs

  /** On an upper-triangular matrix every step leaves the matrix as it is, until a zero pivot stops the pass. */
  lemma {:induction false} ForwardTriangular(m: Rows, n: nat, k: nat, swapped: bool, full: bool)
    requires Square(m, n) && k < n && UpperTriangular(m, n)
    ensures Forward(m, n, k, swapped, full)
         == if exists j :: k <= j < n - 1 && m[j][j] == 0.0 then None else Some(Eliminated(m, swapped))
    decreases n - k
  {
    if k < n - 1 {
      if m[k][k] == 0.0 {
        assert FirstNonzero(m, n, k, k + 1).None?;
      } else {
        ReduceTriangular(m, n, k, if full then 0 else k);
        ForwardTriangular(m, n, k + 1, swapped, full);
        assert (exists j :: k <= j < n - 1 && m[j][j] == 0.0) <==> (exists j :: k + 1 <= j < n - 1 && m[j][j] == 0.0);
      }
    }
  }

  /** Below the pivot of an upper-triangular matrix every factor is zero, so the step changes nothing. */
  lemma ReduceTriangular(m: Rows, n: nat, k: nat, from: nat)
    requires Square(m, n) && k < n && UpperTriangular(m, n) && m[k][k] != 0.0
    ensures Reduce(m, m, n, k, from) == m
  {
    var e := Reduce(m, m, n, k, from);
    forall i | 0 <= i < n
      ensures e[i] == m[i]
    {
      if i > k {
        assert m[i][k] / m[k][k] == 0.0;
      }
    }
  }

  /** The determinant of an upper-triangular matrix is the product of its diagonal. */
  lemma DeterminantTriangular(a: seq<real>, n: nat)
    requires |a| == n * n && n >= 1 && UpperTriangular(RowsOf(a, n), n)
    ensures Determinant(a, n) == DiagProduct(RowsOf(a, n), n, n)
  {
    var m := RowsOf(a, n);
    if n == 1 {
      assert m[0][0] == a[0];
    } else if n == 2 {
      assert m[0][0] == a[0] && m[0][1] == a[1] && m[1][0] == a[2] && m[1][1] == a[3] by {
        IndexInRange(1, 1, 2, 2);
      }
      assert a[2] == 0.0;
      assert DiagProduct(m, 2, 1) == a[0];
    } else {
      ForwardTriangular(m, n, 0, false, false);
      DiagProductZero(m, n, n);
    }
  }

  /** The n × n identity, row by row. */
  function IdentityRows(n: nat): (m: Rows)
    ensures Square(m, n)
  {
    seq(n, i requires 0 <= i < n => seq(n, j requires 0 <= j < n => if i == j then 1.0 else 0.0))
  }

  lemma RowsOfIdentity(n: nat)
    ensures RowsOf(Identity(n), n) == IdentityRows(n)
  {
    var m, e := RowsOf(Identity(n), n), IdentityRows(n);
    forall i | 0 <= i < n
      ensures m[i] == e[i]
    {
      forall j | 0 <= j < n
        ensures m[i][j] == e[i][j]
      {
        IdentityAt(n, i, j);
      }
    }
  }

  lemma {:induction false} DiagProductOnes(n: nat, k: nat)
    requires k <= n
    ensures DiagProduct(IdentityRows(n), n, k) == 1.0
  {
    if k > 0 {
      DiagProductOnes(n, k - 1);
    }
  }

  /** `det` of the identity is 1. */
  lemma DeterminantIdentity(n: nat)
    requires n >= 1
    ensures Determinant(Identity(n), n) == 1.0
  {
    RowsOfIdentity(n);
    DeterminantTriangular(Identity(n), n);
    DiagProductOnes(n, n);
  }

  // ---------------------------------------------------------------------------------------------
  // The companion `r`: every row operation keeps r · a == m

  function Column(a: Rows, n: nat, j: nat): (c: seq<real>)
    requires Square(a, n) && j < n
    ensures |c| == n
  {
    seq(n, i requires 0 <= i < n => a[i][j])
  }

  /** The row u · a. */
  function VecMat(u: seq<real>, a: Rows, n: nat): (w: seq<real>)
    requires |u| == n && Square(a, n)
    ensures |w| == n
  {
    seq(n, j requires 0 <= j < n => Dot(u, Column(a, n, j)))
  }

  /** The n × n product x · a. */
  function MatMul(x: Rows, a: Rows, n: nat): (p: Rows)
    requires Square(x, n) && Square(a, n)
    ensures Square(p, n)
  {
    seq(n, i requires 0 <= i < n => VecMat(x[i], a, n))
  }

  lemma {:induction false} DotToCombine(u: seq<real>, v: seq<real>, f: real, c: seq<real>, k: nat)
    requires |u| == |v| == |c| && k <= |u|
    ensures DotTo(Combine(u, v, f, 0), c, k) == DotTo(u, c, k) - f * DotTo(v, c, k)
  {
    if k > 0 {
      DotToCombine(u, v, f, c, k - 1);
    }
  }

  lemma {:induction false} DotToDivide(u: seq<real>, d: real, w: seq<real>, c: seq<real>, k: nat)
    requires |u| == |w| == |c| && k <= |u| && d != 0.0
    requires forall j :: 0 <= j < |u| ==> w[j] == u[j] / d
    ensures DotTo(w, c, k) == DotTo(u, c, k) / d
  {
    if k > 0 {
      DotToDivide(u, d, w, c, k - 1);
    }
  }

  /** A row operation on x is the same row operation on x · a. */
  lemma VecMatCombine(u: seq<real>, v: seq<real>, f: real, a: Rows, n: nat)
    requires |u| == |v| == n && Square(a, n)
    ensures VecMat(Combine(u, v, f, 0), a, n) == Combine(VecMat(u, a, n), VecMat(v, a, n), f, 0)
  {
    forall j | 0 <= j < n
      ensures VecMat(Combine(u, v, f, 0), a, n)[j] == Combine(VecMat(u, a, n), VecMat(v, a, n), f, 0)[j]
    {
      VecMatCombineAt(u, v, f, a, n, j);
    }
  }

  lemma VecMatCombineAt(u: seq<real>, v: seq<real>, f: real, a: Rows, n: nat, j: nat)
    requires |u| == |v| == n && Square(a, n) && j < n
    ensures VecMat(Combine(u, v, f, 0), a, n)[j] == VecMat(u, a, n)[j] - f * VecMat(v, a, n)[j]
  {
    var c := Column(a, n, j);
    DotToCombine(u, v, f, c, n);
    assert VecMat(Combine(u, v, f, 0), a, n)[j] == DotTo(Combine(u, v, f, 0), c, n);
    assert VecMat(u, a, n)[j] == DotTo(u, c, n) && VecMat(v, a, n)[j] == DotTo(v, c, n);
  }

  lemma ExchangeProduct(x: Rows, a: Rows, n: nat, p: nat, k: nat)
    requires Square(x, n) && Square(a, n) && p < n && k < n
    ensures Square(Exchange(x, p, k), n)
    ensures MatMul(Exchange(x, p, k), a, n) == Exchange(MatMul(x, a, n), p, k)
  {
    assert Square(Exchange(x, p, k), n);
  }

  lemma ReduceProduct(r: Rows, m: Rows, a: Rows, n: nat, k: nat)
    requires Square(r, n) && Square(m, n) && Square(a, n) && k < n && m[k][k] != 0.0
    requires MatMul(r, a, n) == m
    ensures MatMul(Reduce(r, m, n, k, 0), a, n) == Reduce(m, m, n, k, 0)
  {
    var e := Reduce(r, m, n, k, 0);
    forall i | 0 <= i < n
      ensures MatMul(e, a, n)[i] == Reduce(m, m, n, k, 0)[i]
    {
      if i > k {
        VecMatCombine(r[i], r[k], m[i][k] / m[k][k], a, n);
      }
    }
  }

  /** Every row i < k of x minus m[i][k] / m[k][k] times row k of x: one step of the backward pass. */
  function ReduceAbove(x: Rows, m: Rows, n: nat, k: nat): (y: Rows)
    requires Square(x, n) && Square(m, n) && k < n && m[k][k] != 0.0
    ensures Square(y, n)
  {
    seq(n, i requires 0 <= i < n => if i < k then Combine(x[i], x[k], m[i][k] / m[k][k], 0) else x[i])
  }

  lemma ReduceAboveProduct(r: Rows, m: Rows, a: Rows, n: nat, k: nat)
    requires Square(r, n) && Square(m, n) && Square(a, n) && k < n && m[k][k] != 0.0
    requires MatMul(r, a, n) == m
    ensures MatMul(ReduceAbove(r, m, n, k), a, n) == ReduceAbove(m, m, n, k)
  {
    var e := ReduceAbove(r, m, n, k);
    forall i | 0 <= i < n
      ensures MatMul(e, a, n)[i] == ReduceAbove(m, m, n, k)[i]
    {
      if i < k {
        VecMatCombine(r[i], r[k], m[i][k] / m[k][k], a, n);
      }
    }
  }

  predicate NonzeroDiagonal(m: Rows, n: nat)
    requires Square(m, n)
  {
    forall i :: 0 <= i < n ==> m[i][i] != 0.0
  }

  /** The final loop `r(i, j) /= m(i, i)`. */
  function Normalize(x: Rows, m: Rows, n: nat): (y: Rows)
    requires Square(x, n) && Square(m, n) && NonzeroDiagonal(m, n)
    ensures Square(y, n)
  {
    seq(n, i requires 0 <= i < n => seq(n, j requires 0 <= j < n => x[i][j] / m[i][i]))
  }

  lemma NormalizeProduct(r: Rows, m: Rows, a: Rows, n: nat)
    requires Square(r, n) && Square(m, n) && Square(a, n) && NonzeroDiagonal(m, n)
    requires MatMul(r, a, n) == m
    ensures MatMul(Normalize(r, m, n), a, n) == Normalize(m, m, n)
  {
    var e := Normalize(r, m, n);
    forall i | 0 <= i < n
      ensures MatMul(e, a, n)[i] == Normalize(m, m, n)[i]
    {
      forall j | 0 <= j < n
        ensures MatMul(e, a, n)[i][j] == Normalize(m, m, n)[i][j]
      {
        DotToDivide(r[i], m[i][i], e[i], Column(a, n, j), n);
      }
    }
  }

  /** Dividing a diagonal matrix with a nonzero diagonal by its own diagonal gives the identity. */
  lemma NormalizeDiagonal(m: Rows, n: nat)
    requires Square(m, n) && NonzeroDiagonal(m, n)
    requires forall i, j :: 0 <= i < n && 0 <= j < n && i != j ==> m[i][j] == 0.0
    ensures Normalize(m, m, n) == IdentityRows(n)
  {
    var e := Normalize(m, m, n);
    forall i | 0 <= i < n
      ensures e[i] == IdentityRows(n)[i]
    {
      forall j | 0 <= j < n
        ensures e[i][j] == IdentityRows(n)[i][j]
      {
        Quotient(m[i][j], m[i][i], i == j);
      }
    }
  }

  lemma Quotient(x: real, d: real, same: bool)
    requires d != 0.0 && (same ==> x == d) && (!same ==> x == 0.0)
    ensures x / d == if same then 1.0 else 0.0
  {
    if same {
      assert x / d == d / d;
    }
  }

  /** The flat product of `operator*` on a working copy is the row-by-row product. */
  lemma ProductFlatten(x: Rows, a: seq<real>, n: nat)
    requires Square(x, n) && |a| == n * n
    ensures Product(Flatten(x, n), n, n, a, n) == Flatten(MatMul(x, RowsOf(a, n), n), n)
  {
    var ra := RowsOf(a, n);
    var p, q := Product(Flatten(x, n), n, n, a, n), Flatten(MatMul(x, ra, n), n);
    FlattenAt(x, n);
    FlattenAt(MatMul(x, ra, n), n);
    forall i, k | 0 <= i < n && 0 <= k < n
      ensures At(p, n, n, i, k) == At(q, n, n, i, k)
    {
      ProductAt(Flatten(x, n), n, n, a, n, i, k);
      assert RowOf(Flatten(x, n), n, n, i) == x[i];
      assert ColumnOf(a, n, n, k) == Column(ra, n, k);
    }
    AtExtensionality(p, q, n, n);
  }

  lemma FlattenIdentity(n: nat)
    ensures Flatten(IdentityRows(n), n) == Identity(n)
  {
    FlattenAt(IdentityRows(n), n);
    forall i, j | 0 <= i < n && 0 <= j < n
      ensures At(Flatten(IdentityRows(n), n), n, n, i, j) == At(Identity(n), n, n, i, j)
    {
      IdentityAt(n, i, j);
    }
    AtExtensionality(Flatten(IdentityRows(n), n), Identity(n), n, n);
  }

  /** The companion starts as the identity, and I · a == a. */
  lemma MatMulIdentityLeft(a: seq<real>, n: nat)
    requires |a| == n * n
    ensures MatMul(IdentityRows(n), RowsOf(a, n), n) == RowsOf(a, n)
  {
    ProductFlatten(IdentityRows(n), a, n);
    FlattenIdentity(n);
    ProductIdentityLeft(a, n, n);
    RowsOfFlatten(MatMul(IdentityRows(n), RowsOf(a, n), n), n);
  }

  // ---------------------------------------------------------------------------------------------
  // What the backward pass establishes

  /** Columns k+1..n-1 are zero off the diagonal. */
  predicate ClearedAfter(m: Rows, n: nat, k: nat)
    requires Square(m, n)
  {
    forall i, c :: 0 <= i < n && k < c < n && i != c ==> m[i][c] == 0.0
  }

  /**
   * With row k zero off the diagonal, subtracting multiples of it from the rows above clears
   * column k above the pivot and changes nothing else.
   */
  lemma ReduceAboveCleared(m: Rows, n: nat, k: nat)
    requires Square(m, n) && 0 < k < n && UpperTriangular(m, n) && NonzeroDiagonal(m, n) && ClearedAfter(m, n, k)
    ensures UpperTriangular(ReduceAbove(m, m, n, k), n)
    ensures NonzeroDiagonal(ReduceAbove(m, m, n, k), n)
    ensures ClearedAfter(ReduceAbove(m, m, n, k), n, k - 1)
  {
    var e := ReduceAbove(m, m, n, k);
    forall i, c | 0 <= i < n && 0 <= c < n
      ensures e[i][c] == if i < k && c == k then 0.0 else m[i][c]
    {
      if i < k {
        var f := m[i][k] / m[k][k];
        assert e[i][c] == m[i][c] - f * m[k][c];
        if c != k {
          assert m[k][c] == 0.0;
        } else {
          assert f * m[k][k] == m[i][k];
        }
      }
    }
  }

  /** Upper triangular with every column after 0 cleared: the matrix is diagonal. */
  lemma ClearedDiagonal(m: Rows, n: nat)
    requires Square(m, n) && UpperTriangular(m, n) && ClearedAfter(m, n, 0)
    ensures forall i, j :: 0 <= i < n && 0 <= j < n && i != j ==> m[i][j] == 0.0
  {
    forall i, j | 0 <= i < n && 0 <= j < n && i != j
      ensures m[i][j] == 0.0
    {
      if j == 0 {
        assert j < i;
      }
    }
  }

  /** The 1 × 1 inverse `1 / data[0]` times the original, in either order, is the identity. */
  lemma InverseOne(a: seq<real>)
    requires |a| == 1 && a[0] != 0.0
    ensures Product([1.0 / a[0]], 1, 1, a, 1) == Identity(1)
    ensures Product(a, 1, 1, [1.0 / a[0]], 1) == Identity(1)
  {
    var b := [1.0 / a[0]];
    var p, q := Product(b, 1, 1, a, 1), Product(a, 1, 1, b, 1);
    ProductAt(b, 1, 1, a, 1, 0, 0);
    ProductAt(a, 1, 1, b, 1, 0, 0);
    IdentityAt(1, 0, 0);
    assert RowOf(b, 1, 1, 0) == b && ColumnOf(b, 1, 1, 0) == b;
    assert RowOf(a, 1, 1, 0) == a && ColumnOf(a, 1, 1, 0) == a;
    assert DotTo(b, a, 1) == DotTo(b, a, 0) + 1.0 / a[0] * a[0];
    assert DotTo(a, b, 1) == DotTo(a, b, 0) + a[0] * (1.0 / a[0]);
    assert 1.0 / a[0] * a[0] == 1.0;
    AtExtensionality(p, Identity(1), 1, 1);
    AtExtensionality(q, Identity(1), 1, 1);
  }

  // ---------------------------------------------------------------------------------------------
  // The loops of `det<T>()` and `invert<T>()`

  /** The pivot search `for (i = k + 1; i < size; i++) if (m(i, k) != 0) ... break;`. */
  method FindPivot(m: Rows, n: nat, k: nat) returns (p: Option<nat>)
    requires Square(m, n) && k < n
    ensures p == FirstNonzero(m, n, k, k + 1)
  {
    for i := k + 1 to n
      invariant forall q :: k + 1 <= q < i ==> m[q][k] == 0.0
    {
      if m[i][k] != 0.0 {
        return Some(i);
      }
    }
    return None;
  }

  /** `det`'s inner loop `for (j = k; j < size; j++) m(i, j) = m(i, j) - factor * m(k, j)`. */
  method SubtractMultiple(u: seq<real>, v: seq<real>, f: real, from: nat) returns (w: seq<real>)
    requires |u| == |v| && from <= |u|
    ensures w == Combine(u, v, f, from)
  {
    w := u;
    for j := from to |u|
      invariant |w| == |u|
      invariant forall c :: 0 <= c < |u| ==> w[c] == if from <= c < j then u[c] - f * v[c] else u[c]
    {
      var element := w[j] - f * v[j];
      w := w[j := element];
    }
  }

  /** `invert`'s inner loop: the same row operation on `m` and on `r`, column by column. */
  method SubtractMultipleBoth(mi: seq<real>, mk: seq<real>, ri: seq<real>, rk: seq<real>, f: real)
    returns (mi': seq<real>, ri': seq<real>)
    requires |mi| == |mk| == |ri| == |rk|
    ensures mi' == Combine(mi, mk, f, 0) && ri' == Combine(ri, rk, f, 0)
  {
    mi', ri' := mi, ri;
    for j := 0 to |mi|
      invariant |mi'| == |mi| && |ri'| == |ri|
      invariant forall c :: 0 <= c < |mi| ==> mi'[c] == if c < j then mi[c] - f * mk[c] else mi[c]
      invariant forall c :: 0 <= c < |ri| ==> ri'[c] == if c < j then ri[c] - f * rk[c] else ri[c]
    {
      mi' := mi'[j := mi'[j] - f * mk[j]];
      ri' := ri'[j := ri'[j] - f * rk[j]];
    }
  }

  /** `det`'s step-k elimination below the pivot. */
  method EliminateBelow(m: Rows, n: nat, k: nat) returns (e: Rows)
    requires Square(m, n) && k < n && m[k][k] != 0.0
    ensures e == Reduce(m, m, n, k, k)
  {
    e := m;
    for i := k + 1 to n
      invariant |e| == n
      invariant forall q :: 0 <= q < n ==> e[q] == if k < q < i then Reduce(m, m, n, k, k)[q] else m[q]
    {
      var factor := e[i][k] / e[k][k];
      var row := SubtractMultiple(e[i], e[k], factor, k);
      e := e[i := row];
    }
  }

  /** `invert`'s step-k elimination below the pivot, on `m` and `r` together. */
  method EliminateBelowBoth(m: Rows, r: Rows, n: nat, k: nat) returns (m': Rows, r': Rows)
    requires Square(m, n) && Square(r, n) && k < n && m[k][k] != 0.0
    ensures m' == Reduce(m, m, n, k, 0) && r' == Reduce(r, m, n, k, 0)
  {
    m', r' := m, r;
    for i := k + 1 to n
      invariant |m'| == n && |r'| == n
      invariant forall q :: 0 <= q < n ==> m'[q] == if k < q < i then Combine(m[q], m[k], m[q][k] / m[k][k], 0) else m[q]
      invariant forall q :: 0 <= q < n ==> r'[q] == if k < q < i then Combine(r[q], r[k], m[q][k] / m[k][k], 0) else r[q]
    {
      assert m'[i] == m[i] && m'[k] == m[k] && r'[i] == r[i] && r'[k] == r[k];
      var factor := m'[i][k] / m'[k][k];
      var mi, ri := SubtractMultipleBoth(m'[i], m'[k], r'[i], r'[k], factor);
      m', r' := m'[i := mi], r'[i := ri];
    }
    assert forall q :: 0 <= q < n ==> m'[q] == Reduce(m, m, n, k, 0)[q];
    assert forall q :: 0 <= q < n ==> r'[q] == Reduce(r, m, n, k, 0)[q];
  }

  /** `invert`'s backward step k: clears column k above the pivot, on `m` and `r` together. */
  method EliminateAboveBoth(m: Rows, r: Rows, n: nat, k: nat) returns (m': Rows, r': Rows)
    requires Square(m, n) && Square(r, n) && k < n && m[k][k] != 0.0
    ensures m' == ReduceAbove(m, m, n, k) && r' == ReduceAbove(r, m, n, k)
  {
    m', r' := m, r;
    for i := 0 to k
      invariant |m'| == n && |r'| == n
      invariant forall q :: 0 <= q < n ==> m'[q] == if q < i then Combine(m[q], m[k], m[q][k] / m[k][k], 0) else m[q]
      invariant forall q :: 0 <= q < n ==> r'[q] == if q < i then Combine(r[q], r[k], m[q][k] / m[k][k], 0) else r[q]
    {
      assert m'[i] == m[i] && m'[k] == m[k] && r'[i] == r[i] && r'[k] == r[k];
      var factor := m'[i][k] / m'[k][k];
      var mi, ri := SubtractMultipleBoth(m'[i], m'[k], r'[i], r'[k], factor);
      m', r' := m'[i := mi], r'[i := ri];
    }
    assert forall q :: 0 <= q < n ==> m'[q] == ReduceAbove(m, m, n, k)[q];
    assert forall q :: 0 <= q < n ==> r'[q] == ReduceAbove(r, m, n, k)[q];
  }

  /** The final loops `r(i, j) /= m(i, i)`. */
  method NormalizeRows(r: Rows, m: Rows, n: nat) returns (r': Rows)
    requires Square(r, n) && Square(m, n) && NonzeroDiagonal(m, n)
    ensures r' == Normalize(r, m, n)
  {
    r' := r;
    for i := 0 to n
      invariant |r'| == n
      invariant forall q :: 0 <= q < n ==> r'[q] == if q < i then Normalize(r, m, n)[q] else r[q]
    {
      var row := r'[i];
      for j := 0 to n
        invariant |row| == n
        invariant forall c :: 0 <= c < n ==> row[c] == if c < j then r[i][c] / m[i][i] else r[i][c]
      {
        row := row[j := row[j] / m[i][i]];
      }
      r' := r'[i := row];
    }
  }

  /** `T det = m(0, 0); for (i = 1; i < size; i++) det *= m(i, i);` */
  method DiagonalProduct(m: Rows, n: nat) returns (det: real)
    requires Square(m, n) && n >= 1
    ensures det == DiagProduct(m, n, n)
  {
    det := m[0][0];
    assert det == DiagProduct(m, n, 1);
    for i := 1 to n
      invariant det == DiagProduct(m, n, i)
    {
      det := det * m[i][i];
    }
  }

  /**
   * `det<T>()`. A 0 × 0 buffer throws from `m(0, 0)` in the first step, because the bound
   * `size - 1` wraps around; `where` names the throwing `operator()`.
   */
  method Det(a: seq<real>, n: nat, where: string) returns (res: Result<real>)
    requires |a| == n * n
    ensures n == 0 ==> res == Err(OutOfRange(where))
    ensures n >= 1 ==> res == Ok(Determinant(a, n))
  {
    if n == 1 {
      return Ok(a[0]);
    }
    if n == 2 {
      assert Determinant(a, n) == a[0] * a[3] - a[1] * a[2];
      return Ok(a[0] * a[3] - a[1] * a[2]);
    }
    if n == 0 {
      return Err(OutOfRange(where));
    }
    var m := RowsOf(a, n);
    var swap := false;
    for k := 0 to n - 1
      invariant Square(m, n)
      invariant Forward(m, n, k, swap, false) == Forward(RowsOf(a, n), n, 0, false, false)
    {
      if m[k][k] == 0.0 {
        var p := FindPivot(m, n, k);
        if p.None? {
          return Ok(0.0);
        }
        m, swap := Exchange(m, p.value, k), !swap;
      }
      m := EliminateBelow(m, n, k);
    }
    var det := DiagonalProduct(m, n);
    if swap {
      return Ok(-det);
    }
    return Ok(det);
  }

  // ---------------------------------------------------------------------------------------------
  // The matrix `b` of test.cpp: a zero first pivot, so its determinant goes through one row swap

  lemma DeterminantWithSwap()
    ensures Determinant([0.0, 4.0, 1.0, 5.0, 2.0, 7.0, 0.0, 2.0, 7.0], 3) == -130.0
  {
    var a := [0.0, 4.0, 1.0, 5.0, 2.0, 7.0, 0.0, 2.0, 7.0];
    var m := RowsOf(a, 3);
    RowsOfThree(a);
    assert a[0..3] == [0.0, 4.0, 1.0] && a[3..6] == [5.0, 2.0, 7.0] && a[6..9] == [0.0, 2.0, 7.0];
    assert m == [[0.0, 4.0, 1.0], [5.0, 2.0, 7.0], [0.0, 2.0, 7.0]];
    assert FirstNonzero(m, 3, 0, 1) == Some(1);
    var q := [[5.0, 2.0, 7.0], [0.0, 4.0, 1.0], [0.0, 2.0, 7.0]];
    assert Exchange(m, 1, 0) == q;
    assert Pivoted(m, 3, 0, false) == Some(Eliminated(q, true));
    ReduceSwapped(q);
    var e := [[5.0, 2.0, 7.0], [0.0, 4.0, 1.0], [0.0, 0.0, 6.5]];
    ReduceSecond(q, e);
    assert Forward(m, 3, 0, false, false) == Forward(q, 3, 1, true, false);
    assert Forward(q, 3, 1, true, false) == Forward(e, 3, 2, true, false);
    assert DiagProduct(e, 3, 3) == 130.0;
  }

  lemma RowsOfThree(a: seq<real>)
    requires |a| == 9
    ensures RowsOf(a, 3) == [a[0..3], a[3..6], a[6..9]]
  {
    var m := RowsOf(a, 3);
    forall i, j | 0 <= i < 3 && 0 <= j < 3
      ensures m[i][j] == a[3 * i + j]
    {
      IndexInRange(i, j, 3, 3);
    }
    assert m[0] == a[0..3] && m[1] == a[3..6] && m[2] == a[6..9];
  }

  lemma ReduceSwapped(q: Rows)
    requires q == [[5.0, 2.0, 7.0], [0.0, 4.0, 1.0], [0.0, 2.0, 7.0]]
    ensures Reduce(q, q, 3, 0, 0) == q
  {
    var e := Reduce(q, q, 3, 0, 0);
    assert e[1] == Combine(q[1], q[0], 0.0, 0);
    assert e[2] == Combine(q[2], q[0], 0.0, 0);
    assert e[0] == q[0] && e[1] == q[1] && e[2] == q[2];
  }

  lemma ReduceSecond(q: Rows, e: Rows)
    requires q == [[5.0, 2.0, 7.0], [0.0, 4.0, 1.0], [0.0, 2.0, 7.0]]
    requires e == [[5.0, 2.0, 7.0], [0.0, 4.0, 1.0], [0.0, 0.0, 6.5]]
    ensures Reduce(q, q, 3, 1, 1) == e
  {
    var r := Reduce(q, q, 3, 1, 1);
    assert r[2] == Combine(q[2], q[1], 0.5, 1);
    assert r[2] == e[2];
  }
}
