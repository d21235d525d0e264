/**
 * Flat row-major buffers: element (r, c) of a rows × cols buffer lives at index r * cols + c.
 * This module holds the index arithmetic, the element-level specifications that the three
 * variants share, and the loops that SquareMatrix and Matrix run identically.
 */
module RowMajor {

  // ---------------------------------------------------------------------------------------------
  // Index arithmetic

  lemma IndexInRange(r: nat, c: nat, rows: nat, cols: nat)
    requires r < rows && c < cols
    ensures r * cols + c < rows * cols
  {
    calc {
      r * cols + c;
    <  r * cols + cols;
    == (r + 1) * cols;
    <= { MulMonotone(r + 1, rows, cols); }
      rows * cols;
    }
  }

  lemma MulMonotone(a: nat, b: nat, c: nat)
    requires a <= b
    ensures a * c <= b * c
  {
  }

  /** The index r * cols + c determines r and c. */
  lemma IndexSplit(r: nat, c: nat, cols: nat)
    requires c < cols
    ensures (r * cols + c) / cols == r && (r * cols + c) % cols == c
  {
    var p := r * cols + c;
    var q, m := p / cols, p % cols;
    assert q * cols + m == r * cols + c;
    if q > r {
      MulMonotone(r + 1, q, cols);
      assert false;
    } else if q < r {
      MulMonotone(q + 1, r, cols);
      assert false;
    }
  }

  lemma IndexInjective(r1: nat, c1: nat, r2: nat, c2: nat, cols: nat)
    requires c1 < cols && c2 < cols
    requires r1 * cols + c1 == r2 * cols + c2
    ensures r1 == r2 && c1 == c2
  {
    IndexSplit(r1, c1, cols);
    IndexSplit(r2, c2, cols);
  }

  /** Every index of a rows × cols buffer is the index of some (row, column) pair. */
  lemma IndexOf(p: nat, rows: nat, cols: nat)
    requires p < rows * cols
    ensures cols > 0 && p / cols < rows && p % cols < cols
    ensures p == (p / cols) * cols + p % cols
  {
    var q := p / cols;
    if q >= rows {
      MulMonotone(rows, q, cols);
      assert false;
    }
  }

  // ---------------------------------------------------------------------------------------------
  // Elements

  /** Element (r, c) of a rows × cols buffer: `data[r * cols + c]`. */
  function At(d: seq<real>, rows: nat, cols: nat, r: nat, c: nat): real
    requires |d| == rows * cols && r < rows && c < cols
  {
    IndexInRange(r, c, rows, cols);
    d[r * cols + c]
  }

  /** Two buffers of one shape are equal when they agree at every (row, column). */
  lemma AtExtensionality(a: seq<real>, b: seq<real>, rows: nat, cols: nat)
    requires |a| == rows * cols && |b| == rows * cols
    requires forall r, c :: 0 <= r < rows && 0 <= c < cols ==> At(a, rows, cols, r, c) == At(b, rows, cols, r, c)
    ensures a == b
  {
    forall p | 0 <= p < |a|
      ensures a[p] == b[p]
    {
      IndexOf(p, rows, cols);
      assert At(a, rows, cols, p / cols, p % cols) == At(b, rows, cols, p / cols, p % cols);
    }
  }

  /** Writing index r * cols + c changes element (r, c) and no other. */
  lemma AtUpdate(d: seq<real>, rows: nat, cols: nat, r: nat, c: nat, v: real)
    requires |d| == rows * cols && r < rows && c < cols
    ensures r * cols + c < |d|
    ensures forall i, j :: 0 <= i < rows && 0 <= j < cols ==>
      At(d[r * cols + c := v], rows, cols, i, j) == if i == r && j == c then v else At(d, rows, cols, i, j)
  {
    IndexInRange(r, c, rows, cols);
    forall i, j | 0 <= i < rows && 0 <= j < cols
      ensures At(d[r * cols + c := v], rows, cols, i, j) == if i == r && j == c then v else At(d, rows, cols, i, j)
    {
      AtUpdatePoint(d, rows, cols, r, c, v, i, j);
    }
  }

  /** The same, at one element (i, j). */
  lemma AtUpdatePoint(d: seq<real>, rows: nat, cols: nat, r: nat, c: nat, v: real, i: nat, j: nat)
    requires |d| == rows * cols && r < rows && c < cols && i < rows && j < cols
    ensures r * cols + c < |d|
    ensures At(d[r * cols + c := v], rows, cols, i, j) == if i == r && j == c then v else At(d, rows, cols, i, j)
  {
    IndexInRange(r, c, rows, cols);
    IndexInRange(i, j, rows, cols);
    var p, q := i * cols + j, r * cols + c;
    assert At(d[q := v], rows, cols, i, j) == d[q := v][p];
    assert At(d, rows, cols, i, j) == d[p];
    if i == r && j == c {
      assert p == q;
    } else {
      if p == q {
        IndexInjective(i, j, r, c, cols);
      }
      assert p != q;
    }
  }

  /** Row r of a rows × cols buffer, as a sequence of cols elements. */
  function RowOf(d: seq<real>, rows: nat, cols: nat, r: nat): seq<real>
    requires |d| == rows * cols && r < rows
  {
    seq(cols, c requires 0 <= c < cols => At(d, rows, cols, r, c))
  }

  /** Column c of a rows × cols buffer, as a sequence of rows elements. */
  function ColumnOf(d: seq<real>, rows: nat, cols: nat, c: nat): seq<real>
    requires |d| == rows * cols && c < cols
  {
    seq(rows, r requires 0 <= r < rows => At(d, rows, cols, r, c))
  }

  // ---------------------------------------------------------------------------------------------
  // Specifications of the operations

  /** The sum of u[j] * v[j] over the first m indices, accumulated left to right. */
  function DotTo(u: seq<real>, v: seq<real>, m: nat): real
    requires m <= |u| && m <= |v|
  {
    if m == 0 then 0.0 else DotTo(u, v, m - 1) + u[m - 1] * v[m - 1]
  }

  function Dot(u: seq<real>, v: seq<real>): real
    requires |u| == |v|
  {
    DotTo(u, v, |u|)
  }

  /** The rows × cols product of a rows × inner buffer and an inner × cols buffer. */
  function Product(a: seq<real>, rows: nat, inner: nat, b: seq<real>, cols: nat): seq<real>
    requires |a| == rows * inner && |b| == inner * cols
  {
    seq(rows * cols, p requires 0 <= p < rows * cols =>
      IndexOf(p, rows, cols);
      Dot(RowOf(a, rows, inner, p / cols), ColumnOf(b, inner, cols, p % cols)))
  }

  /** The cols × rows transpose of a rows × cols buffer. */
  function Transposed(d: seq<real>, rows: nat, cols: nat): seq<real>
    requires |d| == rows * cols
  {
    seq(cols * rows, p requires 0 <= p < cols * rows =>
      IndexOf(p, cols, rows);
      At(d, rows, cols, p % rows, p / rows))
  }

  /** The index that ends up at position x when a and b are exchanged. */
  function Swap(x: nat, a: nat, b: nat): nat
  {
    if x == a then b else if x == b then a else x
  }

  /** The buffer with rows a and b exchanged. */
  function SwappedRows(d: seq<real>, rows: nat, cols: nat, a: nat, b: nat): seq<real>
    requires |d| == rows * cols && a < rows && b < rows
  {
    seq(rows * cols, p requires 0 <= p < rows * cols =>
      IndexOf(p, rows, cols);
      At(d, rows, cols, Swap(p / cols, a, b), p % cols))
  }

  /** The buffer with columns a and b exchanged. */
  function SwappedColumns(d: seq<real>, rows: nat, cols: nat, a: nat, b: nat): seq<real>
    requires |d| == rows * cols && a < cols && b < cols
  {
    seq(rows * cols, p requires 0 <= p < rows * cols =>
      IndexOf(p, rows, cols);
      At(d, rows, cols, p / cols, Swap(p % cols, a, b)))
  }

  /** The n × n identity. */
  function Identity(n: nat): seq<real>
  {
    seq(n * n, p requires 0 <= p < n * n =>
      IndexOf(p, n, n);
      if p / n == p % n then 1.0 else 0.0)
  }

  function Sum(a: seq<real>, b: seq<real>): seq<real>
    requires |a| == |b|
  {
    seq(|a|, i requires 0 <= i < |a| => a[i] + b[i])
  }

  function Difference(a: seq<real>, b: seq<real>): seq<real>
    requires |a| == |b|
  {
    seq(|a|, i requires 0 <= i < |a| => a[i] - b[i])
  }

  function Negation(a: seq<real>): seq<real>
  {
    seq(|a|, i requires 0 <= i < |a| => -a[i])
  }

  function Scaled(a: seq<real>, c: real): seq<real>
  {
    seq(|a|, i requires 0 <= i < |a| => a[i] * c)
  }

  /** The sum of the first k diagonal elements of an n × n buffer. */
  function DiagonalSum(d: seq<real>, n: nat, k: nat): real
    requires |d| == n * n && k <= n
  {
    if k == 0 then 0.0 else DiagonalSum(d, n, k - 1) + At(d, n, n, k - 1, k - 1)
  }

  function Trace(d: seq<real>, n: nat): real
    requires |d| == n * n
  {
    DiagonalSum(d, n, n)
  }

  predicate IsDiagonal(d: seq<real>, n: nat)
    requires |d| == n * n
  {
    forall r, c :: 0 <= r < n && 0 <= c < n && r != c ==> At(d, n, n, r, c) == 0.0
  }

  predicate IsIdentity(d: seq<real>, n: nat)
    requires |d| == n * n
  {
    IsDiagonal(d, n) && forall i :: 0 <= i < n ==> At(d, n, n, i, i) == 1.0
  }

  predicate IsZero(d: seq<real>)
  {
    forall i :: 0 <= i < |d| ==> d[i] == 0.0
  }

  // ---------------------------------------------------------------------------------------------
  // What each specification says about a single element

  lemma ProductAt(a: seq<real>, rows: nat, inner: nat, b: seq<real>, cols: nat, i: nat, k: nat)
    requires |a| == rows * inner && |b| == inner * cols && i < rows && k < cols
    ensures |Product(a, rows, inner, b, cols)| == rows * cols
    ensures At(Product(a, rows, inner, b, cols), rows, cols, i, k)
         == Dot(RowOf(a, rows, inner, i), ColumnOf(b, inner, cols, k))
  {
    IndexInRange(i, k, rows, cols);
    IndexSplit(i, k, cols);
  }

  lemma TransposedAt(d: seq<real>, rows: nat, cols: nat, r: nat, c: nat)
    requires |d| == rows * cols && r < rows && c < cols
    ensures |Transposed(d, rows, cols)| == cols * rows
    ensures At(Transposed(d, rows, cols), cols, rows, c, r) == At(d, rows, cols, r, c)
  {
    IndexInRange(c, r, cols, rows);
    IndexSplit(c, r, rows);
  }

  lemma SwappedRowsAt(d: seq<real>, rows: nat, cols: nat, a: nat, b: nat, r: nat, c: nat)
    requires |d| == rows * cols && a < rows && b < rows && r < rows && c < cols
    ensures |SwappedRows(d, rows, cols, a, b)| == rows * cols
    ensures At(SwappedRows(d, rows, cols, a, b), rows, cols, r, c)
         == At(d, rows, cols, Swap(r, a, b), c)
  {
    IndexInRange(r, c, rows, cols);
    IndexSplit(r, c, cols);
  }

  lemma SwappedColumnsAt(d: seq<real>, rows: nat, cols: nat, a: nat, b: nat, r: nat, c: nat)
    requires |d| == rows * cols && a < cols && b < cols && r < rows && c < cols
    ensures |SwappedColumns(d, rows, cols, a, b)| == rows * cols
    ensures At(SwappedColumns(d, rows, cols, a, b), rows, cols, r, c)
         == At(d, rows, cols, r, Swap(c, a, b))
  {
    IndexInRange(r, c, rows, cols);
    IndexSplit(r, c, cols);
  }

  lemma IdentityAt(n: nat, r: nat, c: nat)
    requires r < n && c < n
    ensures |Identity(n)| == n * n
    ensures At(Identity(n), n, n, r, c) == if r == c then 1.0 else 0.0
  {
    IndexInRange(r, c, n, n);
    IndexSplit(r, c, n);
  }

  // ---------------------------------------------------------------------------------------------
  // Properties

  /** Transposing twice gives back the original buffer. */
  lemma TransposeTwice(d: seq<real>, rows: nat, cols: nat)
    requires |d| == rows * cols
    ensures |Transposed(d, rows, cols)| == cols * rows
    ensures Transposed(Transposed(d, rows, cols), cols, rows) == d
  {
    var t := Transposed(d, rows, cols);
    var tt := Transposed(t, cols, rows);
    forall r, c | 0 <= r < rows && 0 <= c < cols
      ensures At(tt, rows, cols, r, c) == At(d, rows, cols, r, c)
    {
      TransposedAt(d, rows, cols, r, c);
      TransposedAt(t, cols, rows, c, r);
    }
    AtExtensionality(tt, d, rows, cols);
  }

  /** Swapping the same two rows twice gives back the original buffer. */
  lemma SwapRowsTwice(d: seq<real>, rows: nat, cols: nat, a: nat, b: nat)
    requires |d| == rows * cols && a < rows && b < rows
    ensures |SwappedRows(d, rows, cols, a, b)| == rows * cols
    ensures SwappedRows(SwappedRows(d, rows, cols, a, b), rows, cols, a, b) == d
  {
    var s := SwappedRows(d, rows, cols, a, b);
    var ss := SwappedRows(s, rows, cols, a, b);
    forall r, c | 0 <= r < rows && 0 <= c < cols
      ensures At(ss, rows, cols, r, c) == At(d, rows, cols, r, c)
    {
      SwappedRowsAt(s, rows, cols, a, b, r, c);
      SwappedRowsAt(d, rows, cols, a, b, Swap(r, a, b), c);
    }
    AtExtensionality(ss, d, rows, cols);
  }

  /** Swapping the same two columns twice gives back the original buffer. */
  lemma SwapColumnsTwice(d: seq<real>, rows: nat, cols: nat, a: nat, b: nat)
    requires |d| == rows * cols && a < cols && b < cols
    ensures |SwappedColumns(d, rows, cols, a, b)| == rows * cols
    ensures SwappedColumns(SwappedColumns(d, rows, cols, a, b), rows, cols, a, b) == d
  {
    var s := SwappedColumns(d, rows, cols, a, b);
    var ss := SwappedColumns(s, rows, cols, a, b);
    forall r, c | 0 <= r < rows && 0 <= c < cols
      ensures At(ss, rows, cols, r, c) == At(d, rows, cols, r, c)
    {
      SwappedColumnsAt(s, rows, cols, a, b, r, c);
      SwappedColumnsAt(d, rows, cols, a, b, r, Swap(c, a, b));
    }
    AtExtensionality(ss, d, rows, cols);
  }

  /** A buffer satisfies IsIdentity exactly when it is the identity. */
  lemma IsIdentityIff(d: seq<real>, n: nat)
    requires |d| == n * n
    ensures IsIdentity(d, n) <==> d == Identity(n)
  {
    forall r, c | 0 <= r < n && 0 <= c < n
      ensures At(Identity(n), n, n, r, c) == if r == c then 1.0 else 0.0
    {
      IdentityAt(n, r, c);
    }
    if IsIdentity(d, n) {
      forall r, c | 0 <= r < n && 0 <= c < n
        ensures At(d, n, n, r, c) == At(Identity(n), n, n, r, c)
      {
      }
      AtExtensionality(d, Identity(n), n, n);
    }
  }

  /** The identity has trace n: the diagonal sum counts one 1 per row. */
  lemma IdentityTrace(n: nat)
    ensures |Identity(n)| == n * n
    ensures Trace(Identity(n), n) == n as real
  {
    IdentityDiagonalSum(n, n);
  }

  lemma {:induction false} IdentityDiagonalSum(n: nat, k: nat)
    requires k <= n
    ensures |Identity(n)| == n * n
    ensures DiagonalSum(Identity(n), n, k) == k as real
  {
    if k > 0 {
      IdentityDiagonalSum(n, k - 1);
      IdentityAt(n, k - 1, k - 1);
    }
  }

  /** Dot with a unit vector picks out one element. */
  lemma {:induction false} DotToUnit(u: seq<real>, v: seq<real>, k: nat, m: nat)
    requires |u| == |v| && k < |v| && m <= |u|
    requires forall j :: 0 <= j < |v| ==> v[j] == if j == k then 1.0 else 0.0
    ensures DotTo(u, v, m) == if k < m then u[k] else 0.0
  {
    if m > 0 {
      DotToUnit(u, v, k, m - 1);
    }
  }

  /** Multiplying by the identity on the right gives back the left operand. */
  lemma ProductIdentityRight(a: seq<real>, rows: nat, cols: nat)
    requires |a| == rows * cols
    ensures |Identity(cols)| == cols * cols
    ensures Product(a, rows, cols, Identity(cols), cols) == a
  {
    var p := Product(a, rows, cols, Identity(cols), cols);
    forall i, k | 0 <= i < rows && 0 <= k < cols
      ensures At(p, rows, cols, i, k) == At(a, rows, cols, i, k)
    {
      ProductAt(a, rows, cols, Identity(cols), cols, i, k);
      var col := ColumnOf(Identity(cols), cols, cols, k);
      forall j | 0 <= j < cols
        ensures col[j] == if j == k then 1.0 else 0.0
      {
        IdentityAt(cols, j, k);
      }
      DotToUnit(RowOf(a, rows, cols, i), col, k, cols);
    }
    AtExtensionality(p, a, rows, cols);
  }

  /** Multiplying by the identity on the left gives back the right operand. */
  lemma ProductIdentityLeft(a: seq<real>, rows: nat, cols: nat)
    requires |a| == rows * cols
    ensures |Identity(rows)| == rows * rows
    ensures Product(Identity(rows), rows, rows, a, cols) == a
  {
    var p := Product(Identity(rows), rows, rows, a, cols);
    forall i, k | 0 <= i < rows && 0 <= k < cols
      ensures At(p, rows, cols, i, k) == At(a, rows, cols, i, k)
    {
      ProductAt(Identity(rows), rows, rows, a, cols, i, k);
      var row := RowOf(Identity(rows), rows, rows, i);
      forall j | 0 <= j < rows
        ensures row[j] == if j == i then 1.0 else 0.0
      {
        IdentityAt(rows, i, j);
      }
      DotCommutes(row, ColumnOf(a, rows, cols, k), rows);
      DotToUnit(ColumnOf(a, rows, cols, k), row, i, rows);
    }
    AtExtensionality(p, a, rows, cols);
  }

  lemma {:induction false} DotCommutes(u: seq<real>, v: seq<real>, m: nat)
    requires m <= |u| && m <= |v|
    ensures DotTo(u, v, m) == DotTo(v, u, m)
  {
    if m > 0 {
      DotCommutes(u, v, m - 1);
    }
  }

  /** Elementwise addition commutes, associates, and a buffer plus its negation is zero. */
  lemma SumCommutes(a: seq<real>, b: seq<real>)
    requires |a| == |b|
    ensures Sum(a, b) == Sum(b, a)
  {
  }

  lemma SumAssociates(a: seq<real>, b: seq<real>, c: seq<real>)
    requires |a| == |b| == |c|
    ensures Sum(Sum(a, b), c) == Sum(a, Sum(b, c))
  {
  }

  lemma SumNegationIsZero(a: seq<real>)
    ensures IsZero(Sum(a, Negation(a)))
  {
  }

  /** A single row or a single column is its own row-major transpose. */
  lemma TransposedRow(d: seq<real>)
    ensures |d| == 1 * |d|
    ensures Transposed(d, 1, |d|) == d
  {
    forall p | 0 <= p < |d|
      ensures Transposed(d, 1, |d|)[p] == d[p]
    {
      assert p % 1 == 0 && p / 1 == p;
      assert At(d, 1, |d|, 0, p) == d[p];
    }
  }

  lemma TransposedColumn(d: seq<real>)
    ensures |d| == |d| * 1
    ensures Transposed(d, |d|, 1) == d
  {
    var n := |d|;
    forall p | 0 <= p < n
      ensures Transposed(d, n, 1)[p] == d[p]
    {
      assert p % n == p && p / n == 0;
      assert At(d, n, 1, p, 0) == d[p];
    }
  }

  /** Subtraction undoes addition, and subtracting is adding the negation. */
  lemma DifferenceUndoesSum(a: seq<real>, b: seq<real>)
    requires |a| == |b|
    ensures Difference(Sum(a, b), b) == a
  {
  }

  lemma DifferenceIsSumOfNegation(a: seq<real>, b: seq<real>)
    requires |a| == |b|
    ensures Difference(a, b) == Sum(a, Negation(b))
  {
  }

  lemma NegationTwice(a: seq<real>)
    ensures Negation(Negation(a)) == a
  {
  }

  /** Scaling by a nonzero c is undone by scaling by 1 / c. */
  lemma ScaledInverse(a: seq<real>, c: real)
    requires c != 0.0
    ensures Scaled(Scaled(a, c), 1.0 / c) == a
  {
    forall i | 0 <= i < |a|
      ensures Scaled(Scaled(a, c), 1.0 / c)[i] == a[i]
    {
      calc {
        Scaled(Scaled(a, c), 1.0 / c)[i];
        (a[i] * c) * (1.0 / c);
        a[i] * (c * (1.0 / c));
        a[i];
      }
    }
  }

  /** The diagonal of a square buffer is the diagonal of its transpose. */
  lemma {:induction false} DiagonalSumTransposed(d: seq<real>, n: nat, k: nat)
    requires |d| == n * n && k <= n
    ensures |Transposed(d, n, n)| == n * n
    ensures DiagonalSum(Transposed(d, n, n), n, k) == DiagonalSum(d, n, k)
  {
    if k > 0 {
      DiagonalSumTransposed(d, n, k - 1);
      TransposedAt(d, n, n, k - 1, k - 1);
    }
  }

  lemma TraceTransposed(d: seq<real>, n: nat)
    requires |d| == n * n
    ensures |Transposed(d, n, n)| == n * n
    ensures Trace(Transposed(d, n, n), n) == Trace(d, n)
  {
    DiagonalSumTransposed(d, n, n);
  }

  /** The trace is additive. */
  lemma {:induction false} DiagonalSumSum(a: seq<real>, b: seq<real>, n: nat, k: nat)
    requires |a| == |b| == n * n && k <= n
    ensures DiagonalSum(Sum(a, b), n, k) == DiagonalSum(a, n, k) + DiagonalSum(b, n, k)
  {
    if k > 0 {
      DiagonalSumSum(a, b, n, k - 1);
      IndexInRange(k - 1, k - 1, n, n);
    }
  }

  lemma TraceSum(a: seq<real>, b: seq<real>, n: nat)
    requires |a| == |b| == n * n
    ensures Trace(Sum(a, b), n) == Trace(a, n) + Trace(b, n)
  {
    DiagonalSumSum(a, b, n, n);
  }

  // ---------------------------------------------------------------------------------------------
  // The loops SquareMatrix and Matrix share

  /** `operator*`: the triple loop accumulating into a zero-filled buffer, one result row at a time. */
  method Multiply(a: seq<real>, rows: nat, inner: nat, b: seq<real>, cols: nat) returns (e: seq<real>)
    requires |a| == rows * inner && |b| == inner * cols
    ensures e == Product(a, rows, inner, b, cols)
  {
    e := seq(rows * cols, _ => 0.0);
    AccumulatedStart(e, a, rows, inner, b, cols);
    for i := 0 to rows
      invariant Accumulated(e, a, rows, inner, b, cols, i, 0, 0)
    {
      e := AccumulateRow(e, a, rows, inner, b, cols, i);
    }
    AccumulatedDone(e, a, rows, inner, b, cols);
  }

  /** One pass of the outer loop: adds every term of result row i. */
  method AccumulateRow(e: seq<real>, a: seq<real>, rows: nat, inner: nat, b: seq<real>, cols: nat, i: nat)
    returns (r: seq<real>)
    requires |a| == rows * inner && |b| == inner * cols && i < rows
    requires Accumulated(e, a, rows, inner, b, cols, i, 0, 0)
    ensures Accumulated(r, a, rows, inner, b, cols, i + 1, 0, 0)
  {
    r := e;
    for j := 0 to inner
      invariant Accumulated(r, a, rows, inner, b, cols, i, j, 0)
    {
      for k := 0 to cols
        invariant Accumulated(r, a, rows, inner, b, cols, i, j, k)
      {
        AccumulateStep(r, a, rows, inner, b, cols, i, j, k);
        r := r[i * cols + k := r[i * cols + k] + At(a, rows, inner, i, j) * At(b, inner, cols, j, k)];
      }
      AccumulatedNextTerm(r, a, rows, inner, b, cols, i, j);
    }
    AccumulatedNextRow(r, a, rows, inner, b, cols, i);
  }

  /** How many terms of entry (r, c) the triple loop has added when it is about to run (i, j, k). */
  function Terms(r: nat, c: nat, i: nat, j: nat, k: nat, inner: nat): nat
  {
    if r < i then inner else if r == i then (if c < k then j + 1 else j) else 0
  }

  /** Every entry of e holds the partial dot product of the terms added so far. */
  ghost predicate Accumulated(e: seq<real>, a: seq<real>, rows: nat, inner: nat, b: seq<real>, cols: nat, i: nat, j: nat, k: nat)
    requires |a| == rows * inner && |b| == inner * cols
  {
    && |e| == rows * cols
    && (k > 0 ==> j < inner)
    && j <= inner
    && forall r, c :: 0 <= r < rows && 0 <= c < cols ==>
         At(e, rows, cols, r, c) == DotTo(RowOf(a, rows, inner, r), ColumnOf(b, inner, cols, c), Terms(r, c, i, j, k, inner))
  }

  lemma AccumulatedStart(e: seq<real>, a: seq<real>, rows: nat, inner: nat, b: seq<real>, cols: nat)
    requires |a| == rows * inner && |b| == inner * cols
    requires e == seq(rows * cols, _ => 0.0)
    ensures Accumulated(e, a, rows, inner, b, cols, 0, 0, 0)
  {
    forall r, c | 0 <= r < rows && 0 <= c < cols
      ensures At(e, rows, cols, r, c) == DotTo(RowOf(a, rows, inner, r), ColumnOf(b, inner, cols, c), Terms(r, c, 0, 0, 0, inner))
    {
      IndexInRange(r, c, rows, cols);
      assert Terms(r, c, 0, 0, 0, inner) == 0;
    }
  }

  lemma AccumulateStep(e: seq<real>, a: seq<real>, rows: nat, inner: nat, b: seq<real>, cols: nat, i: nat, j: nat, k: nat)
    requires |a| == rows * inner && |b| == inner * cols
    requires Accumulated(e, a, rows, inner, b, cols, i, j, k) && i < rows && j < inner && k < cols
    ensures i * cols + k < |e|
    ensures Accumulated(e[i * cols + k := e[i * cols + k] + At(a, rows, inner, i, j) * At(b, inner, cols, j, k)],
                        a, rows, inner, b, cols, i, j, k + 1)
  {
    var v := At(e, rows, cols, i, k) + At(a, rows, inner, i, j) * At(b, inner, cols, j, k);
    IndexInRange(i, k, rows, cols);
    var e' := e[i * cols + k := v];
    forall r, c | 0 <= r < rows && 0 <= c < cols
      ensures At(e', rows, cols, r, c)
           == DotTo(RowOf(a, rows, inner, r), ColumnOf(b, inner, cols, c), Terms(r, c, i, j, k + 1, inner))
    {
      AtUpdatePoint(e, rows, cols, i, k, v, r, c);
      if r == i && c == k {
        assert Terms(r, c, i, j, k + 1, inner) == j + 1;
        assert Terms(r, c, i, j, k, inner) == j;
      }
    }
  }

  lemma AccumulatedNextTerm(e: seq<real>, a: seq<real>, rows: nat, inner: nat, b: seq<real>, cols: nat, i: nat, j: nat)
    requires |a| == rows * inner && |b| == inner * cols
    requires Accumulated(e, a, rows, inner, b, cols, i, j, cols) && j < inner
    ensures Accumulated(e, a, rows, inner, b, cols, i, j + 1, 0)
  {
    forall r, c | 0 <= r < rows && 0 <= c < cols
      ensures Terms(r, c, i, j, cols, inner) == Terms(r, c, i, j + 1, 0, inner)
    {
    }
  }

  lemma AccumulatedNextRow(e: seq<real>, a: seq<real>, rows: nat, inner: nat, b: seq<real>, cols: nat, i: nat)
    requires |a| == rows * inner && |b| == inner * cols
    requires Accumulated(e, a, rows, inner, b, cols, i, inner, 0)
    ensures Accumulated(e, a, rows, inner, b, cols, i + 1, 0, 0)
  {
    forall r, c | 0 <= r < rows && 0 <= c < cols
      ensures Terms(r, c, i, inner, 0, inner) == Terms(r, c, i + 1, 0, 0, inner)
    {
    }
  }

  lemma AccumulatedDone(e: seq<real>, a: seq<real>, rows: nat, inner: nat, b: seq<real>, cols: nat)
    requires |a| == rows * inner && |b| == inner * cols
    requires Accumulated(e, a, rows, inner, b, cols, rows, 0, 0)
    ensures e == Product(a, rows, inner, b, cols)
  {
    forall r, c | 0 <= r < rows && 0 <= c < cols
      ensures At(e, rows, cols, r, c) == At(Product(a, rows, inner, b, cols), rows, cols, r, c)
    {
      ProductAt(a, rows, inner, b, cols, r, c);
      assert Terms(r, c, rows, 0, 0, inner) == inner;
    }
    AtExtensionality(e, Product(a, rows, inner, b, cols), rows, cols);
  }

  /** `transpone`: element (i, j) of the source is written to index j * rows + i of a fresh buffer. */
  method Transpose(d: seq<real>, rows: nat, cols: nat) returns (t: seq<real>)
    requires |d| == rows * cols
    ensures t == Transposed(d, rows, cols)
  {
    t := seq(rows * cols, _ => 0.0);
    TransposeStart(t, d, rows, cols);
    for i := 0 to rows
      invariant TransposedUpTo(t, d, rows, cols, i, 0)
    {
      for j := 0 to cols
        invariant TransposedUpTo(t, d, rows, cols, i, j)
      {
        TransposeStep(t, d, rows, cols, i, j);
        t := t[j * rows + i := d[i * cols + j]];
      }
      assert TransposedUpTo(t, d, rows, cols, i + 1, 0);
    }
    forall r, c | 0 <= r < rows && 0 <= c < cols
      ensures At(t, cols, rows, c, r) == At(Transposed(d, rows, cols), cols, rows, c, r)
    {
      TransposedAt(d, rows, cols, r, c);
    }
    AtExtensionality(t, Transposed(d, rows, cols), cols, rows);
  }

  /** Elements (r, c) with r < i, or r == i and c < j, have been transposed; the rest are still zero. */
  ghost predicate TransposedUpTo(t: seq<real>, d: seq<real>, rows: nat, cols: nat, i: nat, j: nat)
    requires |d| == rows * cols
  {
    && |t| == cols * rows
    && forall r, c :: 0 <= r < rows && 0 <= c < cols ==>
         At(t, cols, rows, c, r) == if r < i || (r == i && c < j) then At(d, rows, cols, r, c) else 0.0
  }

  lemma TransposeStart(t: seq<real>, d: seq<real>, rows: nat, cols: nat)
    requires |d| == rows * cols && t == seq(rows * cols, _ => 0.0)
    ensures TransposedUpTo(t, d, rows, cols, 0, 0)
  {
    forall r, c | 0 <= r < rows && 0 <= c < cols
      ensures At(t, cols, rows, c, r) == 0.0
    {
      IndexInRange(c, r, cols, rows);
    }
  }

  lemma TransposeStep(t: seq<real>, d: seq<real>, rows: nat, cols: nat, i: nat, j: nat)
    requires |d| == rows * cols && TransposedUpTo(t, d, rows, cols, i, j) && i < rows && j < cols
    ensures j * rows + i < |t| && i * cols + j < |d|
    ensures TransposedUpTo(t[j * rows + i := d[i * cols + j]], d, rows, cols, i, j + 1)
  {
    IndexInRange(i, j, rows, cols);
    var v := d[i * cols + j];
    assert v == At(d, rows, cols, i, j);
    AtUpdate(t, cols, rows, j, i, v);
    var t' := t[j * rows + i := v];
    forall r, c | 0 <= r < rows && 0 <= c < cols
      ensures At(t', cols, rows, c, r) == if r < i || (r == i && c < j + 1) then At(d, rows, cols, r, c) else 0.0
    {
      if r != i || c != j {
        assert At(t', cols, rows, c, r) == At(t, cols, rows, c, r);
      }
    }
  }

  /** `swapRows`: `std::swap` of the two rows' elements, column by column. */
  method SwapRows(d: seq<real>, rows: nat, cols: nat, first: nat, second: nat) returns (s: seq<real>)
    requires |d| == rows * cols && first < rows && second < rows
    ensures s == SwappedRows(d, rows, cols, first, second)
  {
    s := d;
    for i := 0 to cols
      invariant RowsSwappedUpTo(s, d, rows, cols, first, second, i)
    {
      RowsSwapStep(s, d, rows, cols, first, second, i);
      s := s[first * cols + i := s[second * cols + i]][second * cols + i := s[first * cols + i]];
    }
    forall r, c | 0 <= r < rows && 0 <= c < cols
      ensures At(s, rows, cols, r, c) == At(SwappedRows(d, rows, cols, first, second), rows, cols, r, c)
    {
      SwappedRowsAt(d, rows, cols, first, second, r, c);
    }
    AtExtensionality(s, SwappedRows(d, rows, cols, first, second), rows, cols);
  }

  /** Columns before i of rows a and b have been exchanged; everything else is as in d. */
  ghost predicate RowsSwappedUpTo(s: seq<real>, d: seq<real>, rows: nat, cols: nat, a: nat, b: nat, i: nat)
    requires |d| == rows * cols && a < rows && b < rows
  {
    && |s| == rows * cols
    && forall r, c :: 0 <= r < rows && 0 <= c < cols ==>
         At(s, rows, cols, r, c) == At(d, rows, cols, if c < i then Swap(r, a, b) else r, c)
  }

  lemma RowsSwapStep(s: seq<real>, d: seq<real>, rows: nat, cols: nat, a: nat, b: nat, i: nat)
    requires |d| == rows * cols && a < rows && b < rows && i < cols
    requires RowsSwappedUpTo(s, d, rows, cols, a, b, i)
    ensures a * cols + i < |s| && b * cols + i < |s|
    ensures RowsSwappedUpTo(s[a * cols + i := s[b * cols + i]][b * cols + i := s[a * cols + i]], d, rows, cols, a, b, i + 1)
  {
    var x, y := At(s, rows, cols, a, i), At(s, rows, cols, b, i);
    AtUpdate(s, rows, cols, a, i, y);
    var s1 := s[a * cols + i := y];
    AtUpdate(s1, rows, cols, b, i, x);
    var s2 := s1[b * cols + i := x];
    assert s[a * cols + i] == x && s[b * cols + i] == y;
    forall r, c | 0 <= r < rows && 0 <= c < cols
      ensures At(s2, rows, cols, r, c) == At(d, rows, cols, if c < i + 1 then Swap(r, a, b) else r, c)
    {
      if c != i {
        assert At(s2, rows, cols, r, c) == At(s, rows, cols, r, c);
      } else if r == b {
        assert At(s2, rows, cols, r, c) == x;
      } else if r == a {
        assert At(s2, rows, cols, r, c) == y;
      } else {
        assert At(s2, rows, cols, r, c) == At(s, rows, cols, r, c);
      }
    }
  }

  /** `swapColumns`: `std::swap` of the two columns' elements, row by row. */
  method SwapColumns(d: seq<real>, rows: nat, cols: nat, first: nat, second: nat) returns (s: seq<real>)
    requires |d| == rows * cols && first < cols && second < cols
    ensures s == SwappedColumns(d, rows, cols, first, second)
  {
    s := d;
    for i := 0 to rows
      invariant ColumnsSwappedUpTo(s, d, rows, cols, first, second, i)
    {
      ColumnsSwapStep(s, d, rows, cols, first, second, i);
      s := s[i * cols + first := s[i * cols + second]][i * cols + second := s[i * cols + first]];
    }
    forall r, c | 0 <= r < rows && 0 <= c < cols
      ensures At(s, rows, cols, r, c) == At(SwappedColumns(d, rows, cols, first, second), rows, cols, r, c)
    {
      SwappedColumnsAt(d, rows, cols, first, second, r, c);
    }
    AtExtensionality(s, SwappedColumns(d, rows, cols, first, second), rows, cols);
  }

  /** Rows before i have columns a and b exchanged; everything else is as in d. */
  ghost predicate ColumnsSwappedUpTo(s: seq<real>, d: seq<real>, rows: nat, cols: nat, a: nat, b: nat, i: nat)
    requires |d| == rows * cols && a < cols && b < cols
  {
    && |s| == rows * cols
    && forall r, c :: 0 <= r < rows && 0 <= c < cols ==>
         At(s, rows, cols, r, c) == At(d, rows, cols, r, if r < i then Swap(c, a, b) else c)
  }

  lemma ColumnsSwapStep(s: seq<real>, d: seq<real>, rows: nat, cols: nat, a: nat, b: nat, i: nat)
    requires |d| == rows * cols && a < cols && b < cols && i < rows
    requires ColumnsSwappedUpTo(s, d, rows, cols, a, b, i)
    ensures i * cols + a < |s| && i * cols + b < |s|
    ensures ColumnsSwappedUpTo(s[i * cols + a := s[i * cols + b]][i * cols + b := s[i * cols + a]], d, rows, cols, a, b, i + 1)
  {
    IndexInRange(i, a, rows, cols);
    IndexInRange(i, b, rows, cols);
    var s2 := s[i * cols + a := s[i * cols + b]][i * cols + b := s[i * cols + a]];
    forall r, c | 0 <= r < rows && 0 <= c < cols
      ensures At(s2, rows, cols, r, c) == At(d, rows, cols, r, if r < i + 1 then Swap(c, a, b) else c)
    {
      AtColumnsSwapped(s, rows, cols, i, a, b, r, c);
    }
  }

  /** Exchanging elements (i, a) and (i, b) moves element (i, Swap(c, a, b)) to (i, c). */
  lemma AtColumnsSwapped(s: seq<real>, rows: nat, cols: nat, i: nat, a: nat, b: nat, r: nat, c: nat)
    requires |s| == rows * cols && i < rows && a < cols && b < cols && r < rows && c < cols
    ensures i * cols + a < |s| && i * cols + b < |s|
    ensures At(s[i * cols + a := s[i * cols + b]][i * cols + b := s[i * cols + a]], rows, cols, r, c)
         == if r == i then At(s, rows, cols, i, Swap(c, a, b)) else At(s, rows, cols, r, c)
  {
    var x, y := At(s, rows, cols, i, a), At(s, rows, cols, i, b);
    IndexInRange(i, a, rows, cols);
    IndexInRange(i, b, rows, cols);
    assert s[i * cols + a] == x && s[i * cols + b] == y;
    var s1 := s[i * cols + a := y];
    AtUpdatePoint(s, rows, cols, i, a, y, r, c);
    AtUpdatePoint(s1, rows, cols, i, b, x, r, c);
    if r == i {
      AtUpdatePoint(s, rows, cols, i, a, y, i, b);
      if c != a && c != b {
        assert Swap(c, a, b) == c;
      }
    }
  }

  /** Stepping by n + 1 through an n × n buffer visits exactly the diagonal: the t-th step is element (t, t). */
  lemma Stride(t: nat, n: nat)
    ensures t * (n + 1) == t * n + t
    ensures t * (n + 1) < n * n <==> t < n
  {
    if t < n {
      IndexInRange(t, t, n, n);
    } else {
      MulMonotone(n, t, n);
    }
  }

  /** `trace`: sums `data[i]` for i = 0, n + 1, 2(n + 1), ... below n * n. */
  method SumDiagonal(d: seq<real>, n: nat) returns (trace: real)
    requires |d| == n * n
    ensures trace == Trace(d, n)
  {
    trace := 0.0;
    var i: nat := 0;
    ghost var t: nat := 0;
    Stride(0, n);
    while i < n * n
      invariant i == t * (n + 1) && t <= n
      invariant (i < n * n) == (t < n)
      invariant trace == DiagonalSum(d, n, t)
      decreases n * n - i
    {
      Stride(t, n);
      assert d[i] == At(d, n, n, t, t);
      trace := trace + d[i];
      i, t := i + n + 1, t + 1;
      Stride(t, n);
    }
  }

  /** `isDiagonal`: scans every (i, j) and stops at the first nonzero element off the diagonal. */
  method CheckDiagonal(d: seq<real>, n: nat) returns (b: bool)
    requires |d| == n * n
    ensures b == IsDiagonal(d, n)
  {
    for i := 0 to n
      invariant forall r, c :: 0 <= r < i && 0 <= c < n && r != c ==> At(d, n, n, r, c) == 0.0
    {
      for j := 0 to n
        invariant forall r, c :: 0 <= r < n && 0 <= c < n && (r < i || (r == i && c < j)) && r != c ==> At(d, n, n, r, c) == 0.0
      {
        if i != j && At(d, n, n, i, j) != 0.0 {
          return false;
        }
      }
    }
    return true;
  }

  /** `isIdentity`: diagonal, and every element on the stride n + 1 is 1. */
  method CheckIdentity(d: seq<real>, n: nat) returns (b: bool)
    requires |d| == n * n
    ensures b == IsIdentity(d, n)
  {
    b := CheckDiagonal(d, n);
    if !b {
      return;
    }
    var i: nat := 0;
    ghost var t: nat := 0;
    Stride(0, n);
    while i < n * n
      invariant i == t * (n + 1) && t <= n
      invariant (i < n * n) == (t < n)
      invariant forall k :: 0 <= k < t ==> At(d, n, n, k, k) == 1.0
      decreases n * n - i
    {
      Stride(t, n);
      assert d[i] == At(d, n, n, t, t);
      if d[i] != 1.0 {
        return false;
      }
      i, t := i + n + 1, t + 1;
      Stride(t, n);
    }
  }

  /** `isZero`: stops at the first nonzero element. */
  method CheckZero(d: seq<real>) returns (b: bool)
    ensures b == IsZero(d)
  {
    for i := 0 to |d|
      invariant forall k :: 0 <= k < i ==> d[k] == 0.0
    {
      if d[i] != 0.0 {
        return false;
      }
    }
    return true;
  }

  /** The element loop of `operator==`: walks both buffers and stops at the first difference. */
  method ElementsEqual(a: seq<real>, b: seq<real>) returns (eq: bool)
    requires |a| == |b|
    ensures eq <==> a == b
  {
    for j := 0 to |b|
      invariant a[..j] == b[..j]
    {
      if a[j] != b[j] {
        return false;
      }
      assert a[..j + 1] == a[..j] + [a[j]] && b[..j + 1] == b[..j] + [b[j]];
    }
    assert a == a[..|a|] && b == b[..|b|];
    return true;
  }

  /** `+=`: `data[i] += m_data[i]` for every index. */
  method AddInPlace(d: seq<real>, o: seq<real>) returns (r: seq<real>)
    requires |d| == |o|
    ensures r == Sum(d, o)
  {
    r := d;
    for i := 0 to |d|
      invariant |r| == |d|
      invariant forall k :: 0 <= k < |d| ==> r[k] == if k < i then d[k] + o[k] else d[k]
    {
      r := r[i := r[i] + o[i]];
    }
  }

  /** `-=`: `data[i] -= m_data[i]` for every index. */
  method SubtractInPlace(d: seq<real>, o: seq<real>) returns (r: seq<real>)
    requires |d| == |o|
    ensures r == Difference(d, o)
  {
    r := d;
    for i := 0 to |d|
      invariant |r| == |d|
      invariant forall k :: 0 <= k < |d| ==> r[k] == if k < i then d[k] - o[k] else d[k]
    {
      r := r[i := r[i] - o[i]];
    }
  }

  /** `*=` by a scalar: `e *= c` for every element. */
  method ScaleInPlace(d: seq<real>, c: real) returns (r: seq<real>)
    ensures r == Scaled(d, c)
  {
    r := d;
    for i := 0 to |d|
      invariant |r| == |d|
      invariant forall k :: 0 <= k < |d| ==> r[k] == if k < i then d[k] * c else d[k]
    {
      r := r[i := r[i] * c];
    }
    assert forall k :: 0 <= k < |d| ==> r[k] == Scaled(d, c)[k];
  }

  /** Unary `-`: pushes the negation of every element onto an empty buffer. */
  method Negate(d: seq<real>) returns (r: seq<real>)
    ensures r == Negation(d)
  {
    r := [];
    for i := 0 to |d|
      invariant r == Negation(d[..i])
    {
      r := r + [-d[i]];
    }
    assert d[..|d|] == d;
  }

  /** `makeIdentity`: writes 0 off the diagonal and 1 on it, element by element, in place. */
  method MakeIdentity(d: seq<real>, n: nat) returns (e: seq<real>)
    requires |d| == n * n
    ensures e == Identity(n)
  {
    e := d;
    for i := 0 to n
      invariant IdentityUpTo(e, d, n, i, 0)
    {
      for j := 0 to n
        invariant IdentityUpTo(e, d, n, i, j)
      {
        IdentityStep(e, d, n, i, j);
        if i != j {
          e := e[i * n + j := 0.0];
        } else {
          e := e[i * n + j := 1.0];
        }
      }
    }
    forall r, c | 0 <= r < n && 0 <= c < n
      ensures At(e, n, n, r, c) == At(Identity(n), n, n, r, c)
    {
      IdentityAt(n, r, c);
    }
    AtExtensionality(e, Identity(n), n, n);
  }

  /** Elements (r, c) with r < i, or r == i and c < j, hold the identity; the rest are as in d. */
  ghost predicate IdentityUpTo(e: seq<real>, d: seq<real>, n: nat, i: nat, j: nat)
    requires |d| == n * n
  {
    && |e| == n * n
    && forall r, c :: 0 <= r < n && 0 <= c < n ==>
         At(e, n, n, r, c) == if r < i || (r == i && c < j) then (if r == c then 1.0 else 0.0) else At(d, n, n, r, c)
  }

  lemma IdentityStep(e: seq<real>, d: seq<real>, n: nat, i: nat, j: nat)
    requires |d| == n * n && IdentityUpTo(e, d, n, i, j) && i < n && j < n
    ensures i * n + j < |e|
    ensures IdentityUpTo(e[i * n + j := if i == j then 1.0 else 0.0], d, n, i, j + 1)
    ensures j + 1 == n ==> IdentityUpTo(e[i * n + j := if i == j then 1.0 else 0.0], d, n, i + 1, 0)
  {
    var v := if i == j then 1.0 else 0.0;
    IndexInRange(i, j, n, n);
    var e' := e[i * n + j := v];
    forall r, c | 0 <= r < n && 0 <= c < n
      ensures At(e', n, n, r, c) == if r < i || (r == i && c < j + 1) then (if r == c then 1.0 else 0.0) else At(d, n, n, r, c)
    {
      AtUpdatePoint(e, n, n, i, j, v, r, c);
    }
  }

  /** `Vector::operator+`: pushes `*i + *j` for each pair of elements onto an empty buffer. */
  method AddElements(a: seq<real>, b: seq<real>) returns (r: seq<real>)
    requires |a| == |b|
    ensures r == Sum(a, b)
  {
    r := [];
    for i := 0 to |a|
      invariant |r| == i
      invariant forall k :: 0 <= k < i ==> r[k] == a[k] + b[k]
    {
      r := r + [a[i] + b[i]];
    }
  }

  /** `Vector::operator-`: pushes `*i - *j` for each pair of elements onto an empty buffer. */
  method SubtractElements(a: seq<real>, b: seq<real>) returns (r: seq<real>)
    requires |a| == |b|
    ensures r == Difference(a, b)
  {
    r := [];
    for i := 0 to |a|
      invariant |r| == i
      invariant forall k :: 0 <= k < i ==> r[k] == a[k] - b[k]
    {
      r := r + [a[i] - b[i]];
    }
  }

  /** `Vector::operator*(c)`: pushes `*it * c` for each element onto an empty buffer. */
  method ScaleElements(a: seq<real>, c: real) returns (r: seq<real>)
    ensures r == Scaled(a, c)
  {
    r := [];
    for i := 0 to |a|
      invariant |r| == i
      invariant forall k :: 0 <= k < i ==> r[k] == a[k] * c
    {
      r := r + [a[i] * c];
    }
    assert forall k :: 0 <= k < |a| ==> r[k] == Scaled(a, c)[k];
  }
}
