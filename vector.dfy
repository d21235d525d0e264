/**
 * `Vector<Scalar>` (Vector.h) with Scalar = real: `size` elements and an orientation flag.
 * `transposed == false` is a horizontal 1 × size vector, `true` a vertical size × 1 one. The
 * operators that build a new vector `push_back` into a fresh buffer; `+=`, `-=` and `*=`
 * overwrite the receiver with such a result. A C++ exception becomes an `Err`/`Fail` outcome
 * carrying the exception's kind and message; a method that would throw leaves the receiver as
 * it was.
 */
module Vectors {
  import opened Errors
  import opened RowMajor
  import AbstractMatrix
  import Matrices

  class Vector {
    var size: nat
    var data: seq<real>
    var transposed: bool

    /** The buffer always holds size elements. */
    ghost predicate Valid()
      reads this
    {
      |data| == size
    }

    /** `getRows`: size when vertical, 1 when horizontal. */
    function Rows(): (r: nat)
      reads this
      ensures r == 1 || r == size
    {
      if transposed then size else 1
    }

    /** `getColumns`: 1 when vertical, size when horizontal. */
    function Columns(): (c: nat)
      reads this
      ensures c == 1 || c == size
      ensures Rows() * c == size
    {
      if transposed then 1 else size
    }

    /** The vector as any `const AbstractMatrix&` parameter sees it. */
    function View(): (m: AbstractMatrix.Dense)
      reads this
      ensures Valid() ==> AbstractMatrix.WellFormed(m)
      ensures AbstractMatrix.IsVector(m)
    {
      AbstractMatrix.Dense(Rows(), Columns(), data)
    }

    /** `Vector(size, transposed, value)`: every element is `value`. */
    constructor Filled(size: nat, transposed: bool, value: real)
      ensures Valid() && this.size == size && this.transposed == transposed
      ensures forall i :: 0 <= i < |data| ==> data[i] == value
    {
      this.size, this.transposed := size, transposed;
      data := seq(size, _ => value);
    }

    /** A vector over a buffer of the right length, where the value-list constructors cannot throw. */
    constructor Init(size: nat, transposed: bool, values: seq<real>)
      requires |values| == size
      ensures Valid() && this.size == size && this.transposed == transposed && data == values
    {
      this.size, this.transposed, data := size, transposed, values;
    }

    /** `Vector(size, transposed, values)`: "Wrong number of elements." unless there are size. */
    static method FromValues(size: nat, transposed: bool, values: seq<real>) returns (r: Result<Vector>)
      ensures r.Ok? <==> |values| == size
      ensures r.Err? ==> r.error == RuntimeError("Wrong number of elements.")
      ensures r.Ok? ==> fresh(r.value) && r.value.Valid() && r.value.size == size
      ensures r.Ok? ==> r.value.transposed == transposed && r.value.data == values
    {
      if size != |values| {
        return Err(RuntimeError("Wrong number of elements."));
      }
      var v := new Vector.Init(size, transposed, values);
      return Ok(v);
    }

    /** `Vector(size, values)`: as above, horizontal because `transposed` keeps its default. */
    static method FromValuesHorizontal(size: nat, values: seq<real>) returns (r: Result<Vector>)
      ensures r.Ok? <==> |values| == size
      ensures r.Err? ==> r.error == RuntimeError("Wrong number of elements.")
      ensures r.Ok? ==> fresh(r.value) && r.value.Valid() && r.value.size == size
      ensures r.Ok? ==> !r.value.transposed && r.value.data == values
    {
      r := FromValues(size, false, values);
    }

    /**
     * `Vector(const AbstractMatrix&)`: "Not a vector." unless the source has one row or one
     * column; a one-row source gives a horizontal vector of its columns, any other a vertical
     * vector of its rows. The elements are copied in row-major order.
     */
    static method FromAbstract(m: AbstractMatrix.Dense) returns (r: Result<Vector>)
      requires AbstractMatrix.WellFormed(m)
      ensures r.Ok? <==> AbstractMatrix.IsVector(m)
      ensures r.Err? ==> r.error == RuntimeError("Not a vector.")
      ensures r.Ok? ==> fresh(r.value) && r.value.Valid() && r.value.data == m.data
      ensures r.Ok? ==> r.value.transposed == (m.rows != 1)
      ensures r.Ok? ==> r.value.size == if m.rows == 1 then m.columns else m.rows
      ensures r.Ok? ==> r.value.View() == m
    {
      if !(m.rows == 1 || m.columns == 1) {
        return Err(RuntimeError("Not a vector."));
      }
      var v;
      if m.rows == 1 {
        v := new Vector.Init(m.columns, false, m.data);
      } else {
        v := new Vector.Init(m.rows, true, m.data);
      }
      return Ok(v);
    }

    /** `operator=(const AbstractMatrix&)`: the same check and choice of orientation, into the receiver. */
    method AssignFrom(m: AbstractMatrix.Dense) returns (o: Outcome)
      requires Valid() && AbstractMatrix.WellFormed(m)
      modifies this
      ensures Valid()
      ensures o == if AbstractMatrix.IsVector(m) then Done else Fail(RuntimeError("Not a vector."))
      ensures o.Done? ==> data == m.data && transposed == (m.rows != 1)
      ensures o.Done? ==> size == if m.rows == 1 then m.columns else m.rows
      ensures o.Done? ==> View() == m
      ensures o.Fail? ==> size == old(size) && data == old(data) && transposed == old(transposed)
    {
      if !(m.rows == 1 || m.columns == 1) {
        return Fail(RuntimeError("Not a vector."));
      }
      if m.rows == 1 {
        size, transposed := m.columns, false;
      } else {
        size, transposed := m.rows, true;
      }
      data := m.data;
      return Done;
    }

    /** `isSquare`: the buffer holds a single element. */
    predicate IsSquare()
      requires Valid()
      reads this
      ensures IsSquare() <==> AbstractMatrix.IsSquare(View())
    {
      |data| == 1
    }

    /** `isDiagonal`: size is 1. */
    predicate IsDiagonal()
      requires Valid()
      reads this
      ensures IsDiagonal() <==> AbstractMatrix.IsDiagonal(View())
    {
      size == 1
    }

    /** `isIdentity`: size is 1 and the element is 1. */
    predicate IsIdentity()
      requires Valid()
      reads this
      ensures IsIdentity() <==> AbstractMatrix.IsIdentity(View())
    {
      assert size == 1 ==> At(data, 1, 1, 0, 0) == data[0];
      IsDiagonal() && data[0] == 1.0
    }

    /** Each of the vector's own shape predicates answers as the interface defines them. */
    lemma ShapeQueriesAgree()
      requires Valid()
      ensures AbstractMatrix.WellFormed(View())
      ensures IsSquare() <==> AbstractMatrix.IsSquare(View())
      ensures IsDiagonal() <==> AbstractMatrix.IsDiagonal(View())
      ensures IsIdentity() <==> AbstractMatrix.IsIdentity(View())
      ensures AbstractMatrix.IsVector(View())
    {
      if size == 1 {
        assert At(data, 1, 1, 0, 0) == data[0];
      }
    }

    /** `isZero`: every element is 0. */
    method IsZero() returns (b: bool)
      requires Valid()
      ensures b == AbstractMatrix.IsZero(View())
    {
      b := CheckZero(data);
    }

    /** `operator()(r, c)`: out_of_range unless (r, c) is inside the shape; then `data[r * getColumns() + c]`. */
    function Get(r: nat, c: nat): (res: Result<real>)
      requires Valid()
      reads this
      ensures res.Ok? <==> r < Rows() && c < Columns()
      ensures res.Err? ==> res.error == OutOfRange("Vector::operator()")
      ensures res.Ok? ==> r + c < size && res.value == data[r + c]
    {
      if r >= Rows() || c >= Columns() then Err(OutOfRange("Vector::operator()"))
      else
        IndexInRange(r, c, Rows(), Columns());
        Ok(data[r * Columns() + c])
    }

    /** `operator()(p)`: out_of_range unless p < size; then `data[p]`. */
    function GetAt(p: nat): (res: Result<real>)
      requires Valid()
      reads this
      ensures res.Ok? <==> p < size
      ensures res.Err? ==> res.error == OutOfRange("Vector::operator()")
      ensures res.Ok? ==> res.value == data[p]
    {
      if p >= size then Err(OutOfRange("Vector::operator()")) else Ok(data[p])
    }

    /** Every valid (r, c) addresses the element that the one-index form reaches with r + c. */
    lemma GetAgreesWithGetAt(r: nat, c: nat)
      requires Valid() && r < Rows() && c < Columns()
      ensures Get(r, c) == GetAt(r + c)
    {
    }

    /** Assignment through `operator()(r, c)`: writes `data[r + c]` and nothing else. */
    method Set(r: nat, c: nat, v: real) returns (o: Outcome)
      requires Valid()
      modifies this
      ensures Valid() && size == old(size) && transposed == old(transposed)
      ensures o == if r < Rows() && c < Columns() then Done else Fail(OutOfRange("Vector::operator()"))
      ensures o.Done? ==> data == old(data)[r + c := v]
      ensures o.Fail? ==> data == old(data)
    {
      if r >= Rows() || c >= Columns() {
        return Fail(OutOfRange("Vector::operator()"));
      }
      if transposed {
        assert r * Columns() + c == r + c;
      }
      data := data[r * Columns() + c := v];
      return Done;
    }

    /** Assignment through `operator()(p)`: writes `data[p]` and nothing else. */
    method SetAt(p: nat, v: real) returns (o: Outcome)
      requires Valid()
      modifies this
      ensures Valid() && size == old(size) && transposed == old(transposed)
      ensures o == if p < size then Done else Fail(OutOfRange("Vector::operator()"))
      ensures o.Done? ==> data == old(data)[p := v]
      ensures o.Fail? ==> data == old(data)
    {
      if p >= size {
        return Fail(OutOfRange("Vector::operator()"));
      }
      data := data[p := v];
      return Done;
    }

    /** `operator==`: false on any difference of shape, otherwise elementwise. */
    method Equals(m: AbstractMatrix.Dense) returns (b: bool)
      requires Valid() && AbstractMatrix.WellFormed(m)
      ensures b == AbstractMatrix.Equal(View(), m)
    {
      if Rows() != m.rows || Columns() != m.columns {
        return false;
      }
      b := ElementsEqual(data, m.data);
    }

    /** Unary `-`: the same size and orientation with every element negated. */
    method Negated() returns (n: Vector)
      requires Valid()
      ensures fresh(n) && n.Valid() && n.size == size && n.transposed == transposed
      ensures n.data == Negation(data)
    {
      var temp := Negate(data);
      n := new Vector.Init(size, transposed, temp);
    }

    /**
     * `+`: "dsf" on any difference of shape, otherwise the pairwise sums in a horizontal vector,
     * since the result is built with `Vector(size, sum)`.
     */
    method Add(m: AbstractMatrix.Dense) returns (r: Result<Vector>)
      requires Valid() && AbstractMatrix.WellFormed(m)
      ensures r.Ok? <==> Rows() == m.rows && Columns() == m.columns
      ensures r.Err? ==> r.error == RuntimeError("dsf")
      ensures r.Ok? ==> fresh(r.value) && r.value.Valid() && r.value.size == size
      ensures r.Ok? ==> !r.value.transposed && r.value.data == Sum(data, m.data)
    {
      if Rows() != m.rows || Columns() != m.columns {
        return Err(RuntimeError("dsf"));
      }
      var sum := AddElements(data, m.data);
      var v := new Vector.Init(size, false, sum);
      return Ok(v);
    }

    /** `+=`: `*this = *this + m`, so on success the receiver is horizontal. */
    method AddAssign(m: AbstractMatrix.Dense) returns (o: Outcome)
      requires Valid() && AbstractMatrix.WellFormed(m)
      modifies this
      ensures Valid() && size == old(size)
      ensures o == if old(Rows()) == m.rows && old(Columns()) == m.columns then Done else Fail(RuntimeError("dsf"))
      ensures o.Done? ==> !transposed && data == Sum(old(data), m.data)
      ensures o.Fail? ==> data == old(data) && transposed == old(transposed)
    {
      var r := Add(m);
      if r.Err? {
        return Fail(r.error);
      }
      size, transposed, data := r.value.size, r.value.transposed, r.value.data;
      return Done;
    }

    /** `-`: "dsf" on any difference of shape, otherwise the pairwise differences, horizontal. */
    method Subtract(m: AbstractMatrix.Dense) returns (r: Result<Vector>)
      requires Valid() && AbstractMatrix.WellFormed(m)
      ensures r.Ok? <==> Rows() == m.rows && Columns() == m.columns
      ensures r.Err? ==> r.error == RuntimeError("dsf")
      ensures r.Ok? ==> fresh(r.value) && r.value.Valid() && r.value.size == size
      ensures r.Ok? ==> !r.value.transposed && r.value.data == Difference(data, m.data)
    {
      if Rows() != m.rows || Columns() != m.columns {
        return Err(RuntimeError("dsf"));
      }
      var difference := SubtractElements(data, m.data);
      var v := new Vector.Init(size, false, difference);
      return Ok(v);
    }

    /** `-=`: `*this = *this - m`, so on success the receiver is horizontal. */
    method SubtractAssign(m: AbstractMatrix.Dense) returns (o: Outcome)
      requires Valid() && AbstractMatrix.WellFormed(m)
      modifies this
      ensures Valid() && size == old(size)
      ensures o == if old(Rows()) == m.rows && old(Columns()) == m.columns then Done else Fail(RuntimeError("dsf"))
      ensures o.Done? ==> !transposed && data == Difference(old(data), m.data)
      ensures o.Fail? ==> data == old(data) && transposed == old(transposed)
    {
      var r := Subtract(m);
      if r.Err? {
        return Fail(r.error);
      }
      size, transposed, data := r.value.size, r.value.transposed, r.value.data;
      return Done;
    }

    /**
     * `operator*(const AbstractMatrix&)`: "Wrong size" unless getColumns() == m.rows, otherwise
     * the getRows() × m.columns product as a `Matrix`.
     */
    method Multiply(m: AbstractMatrix.Dense) returns (r: Result<Matrices.Matrix>)
      requires Valid() && AbstractMatrix.WellFormed(m)
      ensures r.Ok? <==> Columns() == m.rows
      ensures r.Err? ==> r.error == RuntimeError("Wrong size")
      ensures r.Ok? ==> fresh(r.value) && r.value.Valid()
      ensures r.Ok? ==> r.value.View() == AbstractMatrix.Dense(Rows(), m.columns, Product(data, Rows(), Columns(), m.data, m.columns))
    {
      if Columns() != m.rows {
        return Err(RuntimeError("Wrong size"));
      }
      var elements := RowMajor.Multiply(data, Rows(), Columns(), m.data, m.columns);
      var p := new Matrices.Matrix.Init(Rows(), m.columns, elements);
      return Ok(p);
    }

    /**
     * `*=` by a matrix: `*this = *this * m` goes through `operator=(const AbstractMatrix&)`, so
     * after the product's "Wrong size" comes "Not a vector." when the product has neither one
     * row nor one column.
     */
    method MultiplyAssign(m: AbstractMatrix.Dense) returns (o: Outcome)
      requires Valid() && AbstractMatrix.WellFormed(m)
      modifies this
      ensures Valid()
      ensures o == if old(Columns()) != m.rows then Fail(RuntimeError("Wrong size"))
                   else if !(old(Rows()) == 1 || m.columns == 1) then Fail(RuntimeError("Not a vector."))
                   else Done
      ensures o.Done? ==> View() == AbstractMatrix.Dense(old(Rows()), m.columns, Product(old(data), old(Rows()), old(Columns()), m.data, m.columns))
      ensures o.Done? ==> size == old(Rows()) * m.columns && transposed == (old(Rows()) != 1)
      ensures o.Fail? ==> size == old(size) && data == old(data) && transposed == old(transposed)
    {
      var p := Multiply(m);
      if p.Err? {
        return Fail(p.error);
      }
      o := AssignFrom(p.value.View());
    }

    /** `operator*(const Scalar&)`: the same size and orientation with every element times c. */
    method Scale(c: real) returns (s: Vector)
      requires Valid()
      ensures fresh(s) && s.Valid() && s.size == size && s.transposed == transposed
      ensures s.data == Scaled(data, c)
    {
      var elements := ScaleElements(data, c);
      s := new Vector.Init(size, transposed, elements);
    }

    /** `*=` by a scalar: `*this = *this * c`. */
    method ScaleAssign(c: real)
      requires Valid()
      modifies this
      ensures Valid() && size == old(size) && transposed == old(transposed)
      ensures data == Scaled(old(data), c)
    {
      var s := Scale(c);
      data := s.data;
    }

    /** `transpone`: the same size and data in the other orientation. */
    method Transposed() returns (t: Vector)
      requires Valid()
      ensures fresh(t) && t.Valid() && t.size == size && t.data == data
      ensures t.transposed == !transposed
      ensures t.Rows() == Columns() && t.Columns() == Rows()
    {
      t := new Vector.Init(size, !transposed, data);
    }

    /**
     * Flipping the flag is the matrix transpose of the vector's view: the row-major buffer of a
     * 1 × n or n × 1 matrix is unchanged by transposition.
     */
    lemma TransposeIsMatrixTranspose()
      requires Valid()
      ensures RowMajor.Transposed(data, Rows(), Columns()) == data
    {
      if transposed {
        TransposedColumn(data);
      } else {
        TransposedRow(data);
      }
    }
  }

  /** The free `c * v`: the same as `v * c`. */
  method ScaleLeft(c: real, v: Vector) returns (s: Vector)
    requires v.Valid()
    ensures fresh(s) && s.Valid() && s.size == v.size && s.transposed == v.transposed
    ensures s.data == Scaled(v.data, c)
  {
    s := v.Scale(c);
  }

  /** Transposing a vector twice gives back its orientation, size and data. */
  method TransposeTwice(v: Vector) returns (t: Vector)
    requires v.Valid()
    ensures fresh(t) && t.Valid() && t.size == v.size && t.data == v.data && t.transposed == v.transposed
    ensures t.View() == v.View()
  {
    var once := v.Transposed();
    t := once.Transposed();
  }
}
