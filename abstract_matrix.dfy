/**
 * The interface `AbstractMatrix<Scalar>` (AbstractMatrix.h) that SquareMatrix, Matrix and
 * Vector implement, with Scalar = real. An argument `const AbstractMatrix<Scalar>& m` is seen
 * through what the interface exposes: `getRows()`, `getColumns()` and the elements
 * `begin()..end()` in row-major order.
 */
module AbstractMatrix {
  import RowMajor

  datatype Dense = Dense(rows: nat, columns: nat, data: seq<real>)

  /** Every implementation keeps rows * columns elements. */
  predicate WellFormed(m: Dense)
  {
    |m.data| == m.rows * m.columns
  }

  /**
   * The shape queries as every implementation answers them: each class's own definition
   * (`size == 1`, `rows == columns`, `data.size() == 1`, ...) agrees with these, as the lemmas
   * next to each class show.
   */
  predicate IsSquare(m: Dense)
  {
    m.rows == m.columns
  }

  predicate IsVector(m: Dense)
  {
    m.rows == 1 || m.columns == 1
  }

  predicate IsDiagonal(m: Dense)
    requires WellFormed(m)
  {
    IsSquare(m) && RowMajor.IsDiagonal(m.data, m.rows)
  }

  predicate IsIdentity(m: Dense)
    requires WellFormed(m)
  {
    IsSquare(m) && RowMajor.IsIdentity(m.data, m.rows)
  }

  predicate IsZero(m: Dense)
  {
    RowMajor.IsZero(m.data)
  }

  /** What every `operator==` computes: the same shape and the same elements in row-major order. */
  predicate Equal(a: Dense, b: Dense)
  {
    a.rows == b.rows && a.columns == b.columns && a.data == b.data
  }

  /** The base `operator!=`: `!(*this == m)`. */
  predicate NotEqual(a: Dense, b: Dense)
  {
    !Equal(a, b)
  }

  /**
   * `*std::max_element(begin(), end())`: the scan keeps the largest element seen so far and
   * replaces it only when a later one is strictly larger. The buffer must not be empty: the
   * result of `max_element` is dereferenced unchecked.
   */
  function Max(s: seq<real>): (r: real)
    requires |s| > 0
    ensures r in s
    ensures forall i :: 0 <= i < |s| ==> s[i] <= r
  {
    if |s| == 1 then s[0]
    else
      var m := Max(s[..|s| - 1]);
      assert s == s[..|s| - 1] + [s[|s| - 1]];
      if m < s[|s| - 1] then s[|s| - 1] else m
  }

  /** `*std::min_element(begin(), end())`, on a non-empty buffer. */
  function Min(s: seq<real>): (r: real)
    requires |s| > 0
    ensures r in s
    ensures forall i :: 0 <= i < |s| ==> r <= s[i]
  {
    if |s| == 1 then s[0]
    else
      var m := Min(s[..|s| - 1]);
      assert s == s[..|s| - 1] + [s[|s| - 1]];
      if s[|s| - 1] < m then s[|s| - 1] else m
  }

  /** The two scans mirror each other: the largest element of the negated buffer is minus the smallest. */
  lemma {:induction false} MaxNegation(s: seq<real>)
    requires |s| > 0
    ensures Max(RowMajor.Negation(s)) == -Min(s)
  {
    if |s| > 1 {
      var t := s[..|s| - 1];
      assert RowMajor.Negation(s)[..|s| - 1] == RowMajor.Negation(t);
      MaxNegation(t);
    }
  }
}
