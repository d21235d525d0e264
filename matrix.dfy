/**
 * `Matrix<Scalar>` (Matrix.h) with Scalar = real: a rows × columns row-major buffer whose
 * methods update the buffer and the shape in place. A C++ exception becomes an `Err`/`Fail`
 * outcome carrying the exception's kind and message; a method that would throw leaves the
 * receiver as it was.
 */
module Matrices {
  import opened Errors
  import opened RowMajor
  import AbstractMatrix
  import Elimination

  class Matrix {
    var data: seq<real>
    var rows: nat
    var columns: nat

    /** The buffer always holds rows * columns elements. */
    ghost predicate Valid()
      reads this
    {
      |data| == rows * columns
    }

    /** The matrix as any `const AbstractMatrix&` parameter sees it. */
    function View(): AbstractMatrix.Dense
      reads this
    {
      AbstractMatrix.Dense(rows, columns, data)
    }

    /** `Matrix()`: the empty 0 × 0 matrix. */
    constructor Empty()
      ensures Valid() && rows == 0 && columns == 0 && data == []
    {
      data, rows, columns := [], 0, 0;
    }

    /** `Matrix(rows, columns, value)`: every element is `value`. */
    constructor Filled(rows: nat, columns: nat, value: real)
      ensures Valid() && this.rows == rows && this.columns == columns
      ensures forall i :: 0 <= i < |data| ==> data[i] == value
    {
      this.rows, this.columns := rows, columns;
      data := seq(rows * columns, _ => value);
    }

    /** `Matrix(rows, columns, values)` on a buffer of the right length, where it cannot throw. */
    constructor Init(rows: nat, columns: nat, values: seq<real>)
      requires |values| == rows * columns
      ensures Valid() && this.rows == rows && this.columns == columns && data == values
    {
      this.rows, this.columns, data := rows, columns, values;
    }

    /** `Matrix(rows, columns, values)`: "Wrong number of elements" unless there are rows * columns. */
    static method FromValues(rows: nat, columns: nat, values: seq<real>) returns (r: Result<Matrix>)
      ensures r.Ok? <==> |values| == rows * columns
      ensures r.Err? ==> r.error == RuntimeError("Wrong number of elements")
      ensures r.Ok? ==> fresh(r.value) && r.value.Valid() && r.value.View() == AbstractMatrix.Dense(rows, columns, values)
    {
      if rows * columns != |values| {
        return Err(RuntimeError("Wrong number of elements"));
      }
      var m := new Matrix.Init(rows, columns, values);
      return Ok(m);
    }

    /** `Matrix(const AbstractMatrix&)`: copies the shape and the elements in row-major order. */
    constructor FromAbstract(m: AbstractMatrix.Dense)
      requires AbstractMatrix.WellFormed(m)
      ensures Valid() && View() == m
    {
      rows, columns, data := m.rows, m.columns, m.data;
    }

    /** `isSquare`: as the interface defines it on the shape. */
    predicate IsSquare()
      reads this
      ensures IsSquare() <==> AbstractMatrix.IsSquare(View())
    {
      rows == columns
    }

    /** `isVector`: as the interface defines it on the shape. */
    predicate IsVector()
      reads this
      ensures IsVector() <==> AbstractMatrix.IsVector(View())
    {
      rows == 1 || columns == 1
    }

    /** `isDiagonal`: false for a non-square shape, otherwise every off-diagonal element is 0. */
    method IsDiagonal() returns (b: bool)
      requires Valid()
      ensures b == AbstractMatrix.IsDiagonal(View())
      ensures !IsSquare() ==> !b
    {
      if !IsSquare() {
        return false;
      }
      b := CheckDiagonal(data, rows);
    }

    /** `isIdentity`: false for a non-square shape, otherwise diagonal with ones on the stride. */
    method IsIdentity() returns (b: bool)
      requires Valid()
      ensures b == AbstractMatrix.IsIdentity(View())
      ensures !IsSquare() ==> !b
    {
      if !IsSquare() {
        return false;
      }
      b := CheckIdentity(data, rows);
    }

    /** `isZero`: every element is 0. */
    method IsZero() returns (b: bool)
      requires Valid()
      ensures b == AbstractMatrix.IsZero(View())
    {
      b := CheckZero(data);
    }

    /** `operator()(r, c) const`: out_of_range unless r < rows and c < columns. */
    function Get(r: nat, c: nat): (res: Result<real>)
      requires Valid()
      reads this
      ensures res.Ok? <==> r < rows && c < columns
      ensures res.Err? ==> res.error == OutOfRange("Matrix::operator()")
      ensures res.Ok? ==> r * columns + c < |data| && res.value == data[r * columns + c]
    {
      if r >= rows || c >= columns then Err(OutOfRange("Matrix::operator()"))
      else
        IndexInRange(r, c, rows, columns);
        Ok(At(data, rows, columns, r, c))
    }

    /** Assignment through `operator()(r, c)`: writes element (r, c) and no other. */
    method Set(r: nat, c: nat, v: real) returns (o: Outcome)
      requires Valid()
      modifies this
      ensures Valid() && rows == old(rows) && columns == old(columns)
      ensures o == if r < rows && c < columns then Done else Fail(OutOfRange("Matrix::operator()"))
      ensures o.Fail? ==> data == old(data)
      ensures o.Done? ==> forall i, j :: 0 <= i < rows && 0 <= j < columns ==>
        At(data, rows, columns, i, j) == if i == r && j == c then v else At(old(data), rows, columns, i, j)
    {
      if r >= rows || c >= columns {
        return Fail(OutOfRange("Matrix::operator()"));
      }
      AtUpdate(data, rows, columns, r, c, v);
      data := data[r * columns + c := v];
      return Done;
    }

    /** `operator==`: false on any difference of shape, otherwise elementwise. */
    method Equals(m: AbstractMatrix.Dense) returns (b: bool)
      requires Valid() && AbstractMatrix.WellFormed(m)
      ensures b == AbstractMatrix.Equal(View(), m)
    {
      if rows != m.rows || columns != m.columns {
        return false;
      }
      b := ElementsEqual(data, m.data);
    }

    /** The inherited `operator!=`. */
    method NotEquals(m: AbstractMatrix.Dense) returns (b: bool)
      requires Valid() && AbstractMatrix.WellFormed(m)
      ensures b == AbstractMatrix.NotEqual(View(), m)
    {
      var e := Equals(m);
      b := !e;
    }

    /** Unary `-`: the same shape with every element negated. */
    method Negated() returns (n: Matrix)
      requires Valid()
      ensures fresh(n) && n.Valid() && n.rows == rows && n.columns == columns
      ensures n.data == Negation(data)
    {
      var temp := Negate(data);
      n := new Matrix.Init(rows, columns, temp);
    }

    /** `+=`: "Wrong size" unless the shapes agree, otherwise elementwise addition. */
    method AddAssign(m: AbstractMatrix.Dense) returns (o: Outcome)
      requires Valid() && AbstractMatrix.WellFormed(m)
      modifies this
      ensures Valid() && rows == old(rows) && columns == old(columns)
      ensures o == if rows == m.rows && columns == m.columns then Done else Fail(RuntimeError("Wrong size"))
      ensures o.Done? ==> data == Sum(old(data), m.data)
      ensures o.Fail? ==> data == old(data)
    {
      if rows != m.rows || columns != m.columns {
        return Fail(RuntimeError("Wrong size"));
      }
      data := AddInPlace(data, m.data);
      return Done;
    }

    /** `+`: adds into a copy; the receiver is unchanged. */
    method Add(m: AbstractMatrix.Dense) returns (r: Result<Matrix>)
      requires Valid() && AbstractMatrix.WellFormed(m)
      ensures r.Ok? <==> rows == m.rows && columns == m.columns
      ensures r.Err? ==> r.error == RuntimeError("Wrong size")
      ensures r.Ok? ==> fresh(r.value) && r.value.Valid()
      ensures r.Ok? ==> r.value.View() == AbstractMatrix.Dense(rows, columns, Sum(data, m.data))
    {
      var copy := new Matrix.Init(rows, columns, data);
      var o := copy.AddAssign(m);
      if o.Fail? {
        return Err(o.error);
      }
      return Ok(copy);
    }

    /** `-=`: "Wrong size" unless the shapes agree, otherwise elementwise subtraction. */
    method SubtractAssign(m: AbstractMatrix.Dense) returns (o: Outcome)
      requires Valid() && AbstractMatrix.WellFormed(m)
      modifies this
      ensures Valid() && rows == old(rows) && columns == old(columns)
      ensures o == if rows == m.rows && columns == m.columns then Done else Fail(RuntimeError("Wrong size"))
      ensures o.Done? ==> data == Difference(old(data), m.data)
      ensures o.Fail? ==> data == old(data)
    {
      if rows != m.rows || columns != m.columns {
        return Fail(RuntimeError("Wrong size"));
      }
      data := SubtractInPlace(data, m.data);
      return Done;
    }

    /** `-`: subtracts from a copy; the receiver is unchanged. */
    method Subtract(m: AbstractMatrix.Dense) returns (r: Result<Matrix>)
      requires Valid() && AbstractMatrix.WellFormed(m)
      ensures r.Ok? <==> rows == m.rows && columns == m.columns
      ensures r.Err? ==> r.error == RuntimeError("Wrong size")
      ensures r.Ok? ==> fresh(r.value) && r.value.Valid()
      ensures r.Ok? ==> r.value.View() == AbstractMatrix.Dense(rows, columns, Difference(data, m.data))
    {
      var copy := new Matrix.Init(rows, columns, data);
      var o := copy.SubtractAssign(m);
      if o.Fail? {
        return Err(o.error);
      }
      return Ok(copy);
    }

    /**
     * `operator*(const AbstractMatrix&)`: "Wrong size" unless columns == m.rows, otherwise the
     * rows × m.columns product.
     */
    method Multiply(m: AbstractMatrix.Dense) returns (r: Result<Matrix>)
      requires Valid() && AbstractMatrix.WellFormed(m)
      ensures r.Ok? <==> columns == m.rows
      ensures r.Err? ==> r.error == RuntimeError("Wrong size")
      ensures r.Ok? ==> fresh(r.value) && r.value.Valid()
      ensures r.Ok? ==> r.value.View() == AbstractMatrix.Dense(rows, m.columns, Product(data, rows, columns, m.data, m.columns))
    {
      if columns != m.rows {
        return Err(RuntimeError("Wrong size"));
      }
      var elements := RowMajor.Multiply(data, rows, columns, m.data, m.columns);
      var p := new Matrix.Init(rows, m.columns, elements);
      return Ok(p);
    }

    /** `*=` by a matrix: the product is move-assigned to the receiver, which takes its shape. */
    method MultiplyAssign(m: AbstractMatrix.Dense) returns (o: Outcome)
      requires Valid() && AbstractMatrix.WellFormed(m)
      modifies this
      ensures Valid()
      ensures o == if old(columns) == m.rows then Done else Fail(RuntimeError("Wrong size"))
      ensures o.Done? ==> View() == AbstractMatrix.Dense(old(rows), m.columns, Product(old(data), old(rows), old(columns), m.data, m.columns))
      ensures o.Fail? ==> View() == old(View())
    {
      var p := Multiply(m);
      if p.Err? {
        return Fail(p.error);
      }
      rows, columns, data := p.value.rows, p.value.columns, p.value.data;
      return Done;
    }

    /** `*=` by a scalar: every element is multiplied by c. */
    method ScaleAssign(c: real)
      requires Valid()
      modifies this
      ensures Valid() && rows == old(rows) && columns == old(columns)
      ensures data == Scaled(old(data), c)
    {
      data := ScaleInPlace(data, c);
    }

    /** `operator*(const Scalar&)`: scales a copy; the receiver is unchanged. */
    method Scale(c: real) returns (s: Matrix)
      requires Valid()
      ensures fresh(s) && s.Valid() && s.View() == AbstractMatrix.Dense(rows, columns, Scaled(data, c))
    {
      s := new Matrix.Init(rows, columns, data);
      s.ScaleAssign(c);
    }

    /** `trace`: "Not a square matrix" for a rectangular shape, otherwise the diagonal's sum. */
    method Trace() returns (r: Result<real>)
      requires Valid()
      ensures r == if IsSquare() then Ok(RowMajor.Trace(data, rows)) else Err(RuntimeError("Not a square matrix"))
    {
      if !IsSquare() {
        return Err(RuntimeError("Not a square matrix"));
      }
      var t := SumDiagonal(data, rows);
      return Ok(t);
    }

    /**
     * `det<T>()`: "Not a square matrix" for a rectangular shape; otherwise the elimination of
     * `SquareMatrix::det` on a working copy, which for 0 × 0 ends in the out_of_range of
     * `m(0, 0)` after `rows - 1` wraps around. The receiver is not changed.
     */
    method Det() returns (r: Result<real>)
      requires Valid()
      ensures r == if !IsSquare() then Err(RuntimeError("Not a square matrix"))
                   else if rows == 0 then Err(OutOfRange("Matrix::operator()"))
                   else Ok(Elimination.Determinant(data, rows))
    {
      if !IsSquare() {
        return Err(RuntimeError("Not a square matrix"));
      }
      r := Elimination.Det(data, rows, "Matrix::operator()");
    }

    /** `swapRows`: out_of_range unless both indices are below rows; otherwise exchanges them. */
    method SwapRows(first: nat, second: nat) returns (o: Outcome)
      requires Valid()
      modifies this
      ensures Valid() && rows == old(rows) && columns == old(columns)
      ensures o == if first < rows && second < rows then Done else Fail(OutOfRange("Matrix::swapRows"))
      ensures o.Done? ==> data == SwappedRows(old(data), rows, columns, first, second)
      ensures o.Fail? ==> data == old(data)
    {
      if first >= rows || second >= rows {
        return Fail(OutOfRange("Matrix::swapRows"));
      }
      data := RowMajor.SwapRows(data, rows, columns, first, second);
      return Done;
    }

    /**
     * `swapColumns` as written: the guard compares both indices with rows. When the guard lets
     * the call through, the buffer is only addressed within bounds if both indices are below
     * columns, which callers must then ensure; when it throws, nothing is addressed.
     */
    method SwapColumnsAsWritten(first: nat, second: nat) returns (o: Outcome)
      requires Valid() && (SwapColumnsGuard(rows, first, second) ==> first < columns && second < columns)
      modifies this
      ensures Valid() && rows == old(rows) && columns == old(columns)
      ensures o == if SwapColumnsGuard(rows, first, second) then Done else Fail(OutOfRange("Matrix::swapColumns"))
      ensures o.Done? ==> data == SwappedColumns(old(data), rows, columns, first, second)
      ensures o.Fail? ==> data == old(data)
    {
      if !SwapColumnsGuard(rows, first, second) {
        return Fail(OutOfRange("Matrix::swapColumns"));
      }
      data := RowMajor.SwapColumns(data, rows, columns, first, second);
      return Done;
    }

    /** `swapColumns` with the guard it evidently intends: both indices below columns. */
    method SwapColumns(first: nat, second: nat) returns (o: Outcome)
      requires Valid()
      modifies this
      ensures Valid() && rows == old(rows) && columns == old(columns)
      ensures o == if first < columns && second < columns then Done else Fail(OutOfRange("Matrix::swapColumns"))
      ensures o.Done? ==> data == SwappedColumns(old(data), rows, columns, first, second)
      ensures o.Fail? ==> data == old(data)
    {
      if first >= columns || second >= columns {
        return Fail(OutOfRange("Matrix::swapColumns"));
      }
      data := RowMajor.SwapColumns(data, rows, columns, first, second);
      return Done;
    }

    /** `transpone`: a fresh columns × rows matrix with element (j, i) = this(i, j). */
    method Transposed() returns (t: Matrix)
      requires Valid()
      ensures fresh(t) && t.Valid() && t.View() == AbstractMatrix.Dense(columns, rows, RowMajor.Transposed(data, rows, columns))
    {
      var elements := Transpose(data, rows, columns);
      t := new Matrix.Init(columns, rows, elements);
    }

    /** `transponeThis`: `*this = transpone()`. */
    method TransposeThis()
      requires Valid()
      modifies this
      ensures Valid() && rows == old(columns) && columns == old(rows)
      ensures data == RowMajor.Transposed(old(data), old(rows), old(columns))
    {
      var t := Transposed();
      rows, columns, data := t.rows, t.columns, t.data;
    }
  }

  /** The free `c * m`: the same as `m * c`. */
  method ScaleLeft(c: real, m: Matrix) returns (s: Matrix)
    requires m.Valid()
    ensures fresh(s) && s.Valid() && s.View() == AbstractMatrix.Dense(m.rows, m.columns, Scaled(m.data, c))
  {
    s := m.Scale(c);
  }

  /** The condition `swapColumns` accepts as written: neither index reaches rows. */
  predicate SwapColumnsGuard(rows: nat, first: nat, second: nat)
  {
    !(first >= rows || second >= rows)
  }

  /**
   * On a matrix with fewer columns than rows the guard lets a column index c with
   * columns <= c < rows through, and the loop's last swap then addresses
   * `data[(rows - 1) * columns + c]`, past the end of the rows * columns buffer.
   */
  lemma SwapColumnsGuardOverruns(rows: nat, columns: nat, c: nat)
    requires columns <= c < rows
    ensures SwapColumnsGuard(rows, c, c)
    ensures (rows - 1) * columns + c >= rows * columns
  {
    calc {
      (rows - 1) * columns + c;
      rows * columns - columns + c;
    >= rows * columns;
    }
  }

  /** On a matrix with more columns than rows the guard rejects a valid column index. */
  lemma SwapColumnsGuardRejects(rows: nat, columns: nat, c: nat)
    requires rows <= c < columns
    ensures !SwapColumnsGuard(rows, 0, c) && c < columns
  {
  }
}
