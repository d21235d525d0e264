/**
 * `SquareMatrix<Scalar>` (SquareMatrix.h) with Scalar = real: a size × size row-major buffer
 * whose methods update the buffer in place. A C++ exception becomes an `Err`/`Fail` outcome
 * carrying the exception's kind and message; a method that would throw leaves the receiver as
 * it was.
 */
module SquareMatrices {
  import opened Errors
  import opened RowMajor
  import AbstractMatrix
  import Elimination
  import Inversion
  import Matrices

  class SquareMatrix {
    var data: seq<real>
    var size: nat

    /** The buffer always holds size * size elements. */
    ghost predicate Valid()
      reads this
    {
      |data| == size * size
    }

    /** The matrix as any `const AbstractMatrix&` parameter sees it. */
    function View(): AbstractMatrix.Dense
      reads this
    {
      AbstractMatrix.Dense(size, size, data)
    }

    /** `SquareMatrix()`: the empty 0 × 0 matrix. */
    constructor Empty()
      ensures Valid() && size == 0 && data == []
    {
      data, size := [], 0;
    }

    /** `SquareMatrix(size, value)`: every element is `value`. */
    constructor Filled(size: nat, value: real)
      ensures Valid() && this.size == size
      ensures forall i :: 0 <= i < |data| ==> data[i] == value
    {
      this.size := size;
      data := seq(size * size, _ => value);
    }

    /** `SquareMatrix(size, values)` on a buffer of the right length, where it cannot throw. */
    constructor Init(size: nat, values: seq<real>)
      requires |values| == size * size
      ensures Valid() && this.size == size && data == values
    {
      this.size, data := size, values;
    }

    /** `SquareMatrix(size, values)`: "Wrong number of elements" unless there are size * size. */
    static method FromValues(size: nat, values: seq<real>) returns (r: Result<SquareMatrix>)
      ensures r.Ok? <==> |values| == size * size
      ensures r.Err? ==> r.error == RuntimeError("Wrong number of elements")
      ensures r.Ok? ==> fresh(r.value) && r.value.Valid() && r.value.View() == AbstractMatrix.Dense(size, size, values)
    {
      if size * size != |values| {
        return Err(RuntimeError("Wrong number of elements"));
      }
      var m := new SquareMatrix.Init(size, values);
      return Ok(m);
    }

    /**
     * `SquareMatrix(const AbstractMatrix&)`: "Not a square matrix" for a non-square source,
     * otherwise a copy of its elements in row-major order.
     */
    static method FromAbstract(m: AbstractMatrix.Dense) returns (r: Result<SquareMatrix>)
      requires AbstractMatrix.WellFormed(m)
      ensures r.Ok? <==> AbstractMatrix.IsSquare(m)
      ensures r.Err? ==> r.error == RuntimeError("Not a square matrix")
      ensures r.Ok? ==> fresh(r.value) && r.value.Valid() && r.value.View() == m
    {
      if m.rows != m.columns {
        return Err(RuntimeError("Not a square matrix"));
      }
      var s := new SquareMatrix.Init(m.rows, m.data);
      return Ok(s);
    }

    /** `operator=(const AbstractMatrix&)`: the same check and copy into the receiver. */
    method AssignFrom(m: AbstractMatrix.Dense) returns (o: Outcome)
      requires Valid() && AbstractMatrix.WellFormed(m)
      modifies this
      ensures Valid()
      ensures o == if AbstractMatrix.IsSquare(m) then Done else Fail(RuntimeError("Not a square matrix"))
      ensures o.Done? ==> View() == m
      ensures o.Fail? ==> View() == old(View())
    {
      if m.rows != m.columns {
        return Fail(RuntimeError("Not a square matrix"));
      }
      size, data := m.rows, m.data;
      return Done;
    }

    /** `isVector`: a square matrix is a vector only when it is 1 × 1. */
    predicate IsVector()
      reads this
      ensures IsVector() <==> AbstractMatrix.IsVector(View())
    {
      size == 1
    }

    /** `isDiagonal`: every element off the diagonal is 0. */
    method IsDiagonal() returns (b: bool)
      requires Valid()
      ensures b == AbstractMatrix.IsDiagonal(View())
    {
      b := CheckDiagonal(data, size);
    }

    /** `isIdentity`: diagonal, and every element on the stride size + 1 is 1. */
    method IsIdentity() returns (b: bool)
      requires Valid()
      ensures b == AbstractMatrix.IsIdentity(View())
      ensures b <==> forall r, c :: 0 <= r < size && 0 <= c < size ==>
                       At(data, size, size, r, c) == if r == c then 1.0 else 0.0
    {
      b := CheckIdentity(data, size);
      IsIdentityIff(data, size);
    }

    /** `isZero`: every element is 0. */
    method IsZero() returns (b: bool)
      requires Valid()
      ensures b == AbstractMatrix.IsZero(View())
    {
      b := CheckZero(data);
    }

    /** `operator()(r, c) const`: out_of_range unless r < size and c < size. */
    function Get(r: nat, c: nat): (res: Result<real>)
      requires Valid()
      reads this
      ensures res.Ok? <==> r < size && c < size
      ensures res.Err? ==> res.error == OutOfRange("SquareMatrix::operator()")
      ensures res.Ok? ==> r * size + c < |data| && res.value == data[r * size + c]
    {
      if r >= size || c >= size then Err(OutOfRange("SquareMatrix::operator()"))
      else
        IndexInRange(r, c, size, size);
        Ok(At(data, size, size, r, c))
    }

    /** Assignment through `operator()(r, c)`: writes element (r, c) and no other. */
    method Set(r: nat, c: nat, v: real) returns (o: Outcome)
      requires Valid()
      modifies this
      ensures Valid() && size == old(size)
      ensures o == if r < size && c < size then Done else Fail(OutOfRange("SquareMatrix::operator()"))
      ensures o.Fail? ==> data == old(data)
      ensures o.Done? ==> forall i, j :: 0 <= i < size && 0 <= j < size ==>
        At(data, size, size, i, j) == if i == r && j == c then v else At(old(data), size, size, i, j)
    {
      if r >= size || c >= size {
        return Fail(OutOfRange("SquareMatrix::operator()"));
      }
      AtUpdate(data, size, size, r, c, v);
      data := data[r * size + c := v];
      return Done;
    }

    /** `operator==`: false for a source of another shape, otherwise elementwise. */
    method Equals(m: AbstractMatrix.Dense) returns (b: bool)
      requires Valid() && AbstractMatrix.WellFormed(m)
      ensures b == AbstractMatrix.Equal(View(), m)
    {
      if m.rows != m.columns {
        return false;
      }
      if size != m.rows {
        return false;
      }
      b := ElementsEqual(data, m.data);
    }

    /** The inherited `operator!=`. */
    method NotEquals(m: AbstractMatrix.Dense) returns (b: bool)
      requires Valid() && AbstractMatrix.WellFormed(m)
      ensures b == AbstractMatrix.NotEqual(View(), m)
    {
      var e := Equals(m);
      b := !e;
    }

    /** Unary `-`: every element negated. */
    method Negated() returns (n: SquareMatrix)
      requires Valid()
      ensures fresh(n) && n.Valid() && n.size == size && n.data == Negation(data)
    {
      var temp := Negate(data);
      n := new SquareMatrix.Init(size, temp);
    }

    /** `+=`: "Wrong size" unless the source is size × size, otherwise elementwise addition. */
    method AddAssign(m: AbstractMatrix.Dense) returns (o: Outcome)
      requires Valid() && AbstractMatrix.WellFormed(m)
      modifies this
      ensures Valid() && size == old(size)
      ensures o == if size == m.rows && size == m.columns then Done else Fail(RuntimeError("Wrong size"))
      ensures o.Done? ==> data == Sum(old(data), m.data)
      ensures o.Fail? ==> data == old(data)
    {
      if size != m.rows || size != m.columns {
        return Fail(RuntimeError("Wrong size"));
      }
      data := AddInPlace(data, m.data);
      return Done;
    }

    /** `+`: adds into a copy; the receiver is unchanged. */
    method Add(m: AbstractMatrix.Dense) returns (r: Result<SquareMatrix>)
      requires Valid() && AbstractMatrix.WellFormed(m)
      ensures r.Ok? <==> size == m.rows && size == m.columns
      ensures r.Err? ==> r.error == RuntimeError("Wrong size")
      ensures r.Ok? ==> fresh(r.value) && r.value.Valid() && r.value.size == size
      ensures r.Ok? ==> r.value.data == Sum(data, m.data)
    {
      var copy := new SquareMatrix.Init(size, data);
      var o := copy.AddAssign(m);
      if o.Fail? {
        return Err(o.error);
      }
      return Ok(copy);
    }

    /** `-=`: "Wrong size" unless the source is size × size, otherwise elementwise subtraction. */
    method SubtractAssign(m: AbstractMatrix.Dense) returns (o: Outcome)
      requires Valid() && AbstractMatrix.WellFormed(m)
      modifies this
      ensures Valid() && size == old(size)
      ensures o == if size == m.rows && size == m.columns then Done else Fail(RuntimeError("Wrong size"))
      ensures o.Done? ==> data == Difference(old(data), m.data)
      ensures o.Fail? ==> data == old(data)
    {
      if size != m.rows || size != m.columns {
        return Fail(RuntimeError("Wrong size"));
      }
      data := SubtractInPlace(data, m.data);
      return Done;
    }

    /** `-`: subtracts from a copy; the receiver is unchanged. */
    method Subtract(m: AbstractMatrix.Dense) returns (r: Result<SquareMatrix>)
      requires Valid() && AbstractMatrix.WellFormed(m)
      ensures r.Ok? <==> size == m.rows && size == m.columns
      ensures r.Err? ==> r.error == RuntimeError("Wrong size")
      ensures r.Ok? ==> fresh(r.value) && r.value.Valid() && r.value.size == size
      ensures r.Ok? ==> r.value.data == Difference(data, m.data)
    {
      var copy := new SquareMatrix.Init(size, data);
      var o := copy.SubtractAssign(m);
      if o.Fail? {
        return Err(o.error);
      }
      return Ok(copy);
    }

    /**
     * `operator*(const AbstractMatrix&)`: "Wrong size" unless size == m.rows, otherwise the
     * size × m.columns product as a `Matrix`.
     */
    method Multiply(m: AbstractMatrix.Dense) returns (r: Result<Matrices.Matrix>)
      requires Valid() && AbstractMatrix.WellFormed(m)
      ensures r.Ok? <==> size == m.rows
      ensures r.Err? ==> r.error == RuntimeError("Wrong size")
      ensures r.Ok? ==> fresh(r.value) && r.value.Valid()
      ensures r.Ok? ==> r.value.View() == AbstractMatrix.Dense(size, m.columns, Product(data, size, size, m.data, m.columns))
    {
      if size != m.rows {
        return Err(RuntimeError("Wrong size"));
      }
      var elements := RowMajor.Multiply(data, size, size, m.data, m.columns);
      var p := new Matrices.Matrix.Init(size, m.columns, elements);
      return Ok(p);
    }

    /**
     * `*=` by a matrix: `*this = *this * m`, so the product's "Wrong size" comes first and the
     * assignment's "Not a square matrix" second, when m has other than size columns.
     */
    method MultiplyAssign(m: AbstractMatrix.Dense) returns (o: Outcome)
      requires Valid() && AbstractMatrix.WellFormed(m)
      modifies this
      ensures Valid() && size == old(size)
      ensures o == if size != m.rows then Fail(RuntimeError("Wrong size"))
                   else if m.columns != size then Fail(RuntimeError("Not a square matrix"))
                   else Done
      ensures o.Done? ==> data == Product(old(data), size, size, m.data, size)
      ensures o.Fail? ==> data == old(data)
    {
      var p := Multiply(m);
      if p.Err? {
        return Fail(p.error);
      }
      o := AssignFrom(p.value.View());
    }

    /** `*=` by a scalar: every element is multiplied by c. */
    method ScaleAssign(c: real)
      requires Valid()
      modifies this
      ensures Valid() && size == old(size)
      ensures data == Scaled(old(data), c)
    {
      data := ScaleInPlace(data, c);
    }

    /** `operator*(const Scalar&)`: scales a copy; the receiver is unchanged. */
    method Scale(c: real) returns (s: SquareMatrix)
      requires Valid()
      ensures fresh(s) && s.Valid() && s.size == size && s.data == Scaled(data, c)
    {
      s := new SquareMatrix.Init(size, data);
      s.ScaleAssign(c);
    }

    /** `trace`: the sum of the diagonal (the squareness check always passes). */
    method Trace() returns (t: real)
      requires Valid()
      ensures t == RowMajor.Trace(data, size)
    {
      t := SumDiagonal(data, size);
    }

    /**
     * `det<T>()`: the elimination on a working copy; size 0 ends in the out_of_range of
     * `m(0, 0)` after `size - 1` wraps around. The receiver is not changed.
     */
    method Det() returns (r: Result<real>)
      requires Valid()
      ensures r == if size == 0 then Err(OutOfRange("SquareMatrix::operator()"))
                   else Ok(Elimination.Determinant(data, size))
    {
      r := Elimination.Det(data, size, "SquareMatrix::operator()");
    }

    /**
     * `invert<T>()`: for size 1 the 1 × 1 matrix holding 1 / data[0] (whose element must be
     * nonzero); otherwise "Singular matrix" exactly when elimination finds the matrix singular,
     * and on success a fresh matrix r with r · this = I and this · r = I. The receiver is not
     * changed.
     */
    method Invert() returns (r: Result<SquareMatrix>)
      requires Valid()
      requires size == 1 ==> data[0] != 0.0
      ensures size == 0 ==> r == Err(OutOfRange("SquareMatrix::operator()"))
      ensures size == 1 ==> r.Ok? && r.value.data == [1.0 / data[0]]
      ensures size >= 2 ==> (r.Err? <==> Elimination.Singular(data, size))
      ensures size >= 2 && r.Err? ==> r.error == RuntimeError("Singular matrix")
      ensures r.Ok? ==> fresh(r.value) && r.value.Valid() && r.value.size == size
      ensures r.Ok? ==> Product(r.value.data, size, size, data, size) == Identity(size)
      ensures r.Ok? ==> Product(data, size, size, r.value.data, size) == Identity(size)
    {
      var inv := Inversion.Invert(data, size);
      if inv.Err? {
        return Err(inv.error);
      }
      var m := new SquareMatrix.Init(size, inv.value);
      return Ok(m);
    }

    /** `swapRows`: out_of_range unless both indices are below size; otherwise exchanges them. */
    method SwapRows(first: nat, second: nat) returns (o: Outcome)
      requires Valid()
      modifies this
      ensures Valid() && size == old(size)
      ensures o == if first < size && second < size then Done else Fail(OutOfRange("SquareMatrix::swapRows"))
      ensures o.Done? ==> data == SwappedRows(old(data), size, size, first, second)
      ensures o.Fail? ==> data == old(data)
    {
      if first >= size || second >= size {
        return Fail(OutOfRange("SquareMatrix::swapRows"));
      }
      data := RowMajor.SwapRows(data, size, size, first, second);
      return Done;
    }

    /** `swapColumns`: out_of_range unless both indices are below size; otherwise exchanges them. */
    method SwapColumns(first: nat, second: nat) returns (o: Outcome)
      requires Valid()
      modifies this
      ensures Valid() && size == old(size)
      ensures o == if first < size && second < size then Done else Fail(OutOfRange("SquareMatrix::swapColumns"))
      ensures o.Done? ==> data == SwappedColumns(old(data), size, size, first, second)
      ensures o.Fail? ==> data == old(data)
    {
      if first >= size || second >= size {
        return Fail(OutOfRange("SquareMatrix::swapColumns"));
      }
      data := RowMajor.SwapColumns(data, size, size, first, second);
      return Done;
    }

    /** `transpone`: a fresh matrix of the same size with element (j, i) = this(i, j). */
    method Transposed() returns (t: SquareMatrix)
      requires Valid()
      ensures fresh(t) && t.Valid() && t.size == size && t.data == RowMajor.Transposed(data, size, size)
    {
      var elements := Transpose(data, size, size);
      t := new SquareMatrix.Init(size, elements);
    }

    /** `transponeThis`: `*this = transpone()`. */
    method TransposeThis()
      requires Valid()
      modifies this
      ensures Valid() && size == old(size)
      ensures data == RowMajor.Transposed(old(data), size, size)
    {
      var t := Transposed();
      data := t.data;
    }

    /** `makeIdentity`: afterwards the matrix is the identity, so `isIdentity` holds and the trace is size. */
    method MakeIdentity()
      requires Valid()
      modifies this
      ensures Valid() && size == old(size)
      ensures data == Identity(size)
      ensures AbstractMatrix.IsIdentity(View())
      ensures RowMajor.Trace(data, size) == size as real
    {
      data := RowMajor.MakeIdentity(data, size);
      IsIdentityIff(data, size);
      forall r, c | 0 <= r < size && 0 <= c < size
        ensures At(data, size, size, r, c) == if r == c then 1.0 else 0.0
      {
        IdentityAt(size, r, c);
      }
      IdentityTrace(size);
    }
  }

  /** `c * m`: the same as `m * c`. */
  method ScaleLeft(c: real, m: SquareMatrix) returns (s: SquareMatrix)
    requires m.Valid()
    ensures fresh(s) && s.Valid() && s.size == m.size && s.data == Scaled(m.data, c)
  {
    s := m.Scale(c);
  }
}
