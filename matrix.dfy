/**
 * The dense row-major Matrix of ex5: `rows` x `cols` elements in one flat array, element
 * (row, col) at flat index cols * row + col. Every call that the original ends with
 * exit(EXIT_FAILURE) returns a Failure naming the reason instead.
 */
module Matrices {
  import opened Wrappers

  /** The reasons the original reports before exiting. */
  datatype Exit =
    | NegativeDimensions  // Matrix(int, int) with a negative count; it exits without a message
    | InvalidDimensions   // INVALID_DIMENSIONS_ERROR
    | IndexOutOfRange     // INDEX_OUT_OF_RANGE_ERROR
    | DivisionByZero      // DIVISION_BY_ZERO_ERROR

  /** DEFAULT_ROWS and DEFAULT_COLS, the shape of a default-constructed matrix. */
  const DefaultRows: int := 1
  const DefaultCols: int := 1

  // ----- Row-major index arithmetic -----

  lemma {:induction false} MulLe(a: int, b: int, c: int)
    requires 0 <= a && b <= c
    ensures a * b <= a * c
  {
    assert a * c - a * b == a * (c - b);
  }

  /** Every in-range (row, col) has its flat index inside the array. */
  lemma {:induction false} FlatIndexInRange(rows: int, cols: int, r: int, c: int)
    requires 0 <= r < rows && 0 <= c < cols
    ensures 0 <= cols * r + c < rows * cols
  {
    MulLe(cols, 0, r);
    MulLe(cols, r + 1, rows);
    assert cols * (r + 1) == cols * r + cols;
  }

  /** Flat indices follow row order: any element of an earlier row comes first. */
  lemma {:induction false} FlatIndexOrder(cols: int, r1: int, c1: int, r2: int, c2: int)
    requires 0 <= c1 < cols && 0 <= c2 < cols && 0 <= r1 < r2
    ensures cols * r1 + c1 < cols * r2 + c2
  {
    MulLe(cols, r1 + 1, r2);
    assert cols * (r1 + 1) == cols * r1 + cols;
  }

  /** Distinct in-range (row, col) pairs have distinct flat indices. */
  lemma {:induction false} FlatIndexInjective(cols: int, r1: int, c1: int, r2: int, c2: int)
    requires 0 <= c1 < cols && 0 <= c2 < cols && 0 <= r1 && 0 <= r2
    requires cols * r1 + c1 == cols * r2 + c2
    ensures r1 == r2 && c1 == c2
  {
    if r1 < r2 {
      FlatIndexOrder(cols, r1, c1, r2, c2);
    } else if r2 < r1 {
      FlatIndexOrder(cols, r2, c2, r1, c1);
    }
  }

  /** Every flat index is the flat index of exactly the pair (ind / cols, ind % cols). */
  lemma {:induction false} FlatIndexOnto(rows: int, cols: int, ind: int)
    requires 0 <= rows && 0 <= cols && 0 <= ind < rows * cols
    ensures cols > 0 && 0 <= ind / cols < rows && 0 <= ind % cols < cols
    ensures cols * (ind / cols) + ind % cols == ind
  {
    if cols <= 0 {
      MulLe(rows, cols, 0);
    }
    if ind / cols >= rows {
      MulLe(cols, rows, ind / cols);
    }
  }

  // ----- The value a matrix multiplication computes -----

  /**
   * The sum over k < n of a(i, k) * b(k, j), for a row-major `a` with `ac` columns and a
   * row-major `b` of `ac` rows and `bc` columns, added up in the order k = 0, 1, ...
   */
  function Dot(a: seq<real>, ar: int, ac: int, b: seq<real>, bc: int, i: int, j: int, n: int): real
    requires 0 <= i < ar && 0 <= j < bc && 0 <= n <= ac
    requires |a| == ar * ac && |b| == ac * bc
    decreases n
  {
    if n == 0 then 0.0
    else
      FlatIndexInRange(ar, ac, i, n - 1);
      FlatIndexInRange(ac, bc, n - 1, j);
      Dot(a, ar, ac, b, bc, i, j, n - 1) + a[ac * i + n - 1] * b[bc * (n - 1) + j]
  }

  /**
   * The integer a float converts to: truncation toward zero, as when a float is bound to a
   * `const int&` parameter.
   */
  function TruncToInt(c: real): int
  {
    if c >= 0.0 then c.Floor else -((-c).Floor)
  }

  /**
   * _isValidScalarForDivision as it behaves: its parameter is a `const int&`, so the float
   * divisor reaches the `c == 0` test truncated toward zero. True when the division goes on.
   */
  predicate DivisionGuardAsWritten(c: real): (ok: bool)
    ensures ok ==> c != 0.0
    ensures ok ==> c <= -1.0 || 1.0 <= c
  {
    TruncToInt(c) != 0
  }

  /** The guard as written stops every divisor strictly between -1 and 1, zero or not. */
  lemma {:induction false} GuardStopsFractions(c: real)
    ensures !DivisionGuardAsWritten(c) <==> -1.0 < c < 1.0
  {
  }

  /** Dividing by 0.5, a divisor that is not zero, still exits with DIVISION_BY_ZERO_ERROR. */
  lemma {:induction false} HalfIsRejected()
    ensures 0.5 != 0.0 && !DivisionGuardAsWritten(0.5)
  {
    GuardStopsFractions(0.5);
  }

  class Matrix {
    /** _rows, _cols and _matrix. */
    var rows: int
    var cols: int
    var data: array<real>

    ghost predicate Valid()
      reads this
    {
      rows >= 0 && cols >= 0 && data.Length == rows * cols
    }

    /** Whether (row, col) addresses an element. */
    predicate InRange(row: int, col: int)
      reads this
    {
      0 <= row < rows && 0 <= col < cols
    }

    /** Element (row, col), stored at flat index cols * row + col. */
    function At(row: int, col: int): real
      reads this, data
      requires Valid() && InRange(row, col)
    {
      FlatIndexInRange(rows, cols, row, col);
      data[cols * row + col]
    }

    /** The else branch of Matrix(int, int): a rows x cols matrix of zeros. */
    constructor Zero(rows: int, cols: int)
      requires rows >= 0 && cols >= 0
      ensures Valid() && fresh(data)
      ensures this.rows == rows && this.cols == cols
      ensures forall i :: 0 <= i < data.Length ==> data[i] == 0.0
    {
      this.rows := rows;
      this.cols := cols;
      var d := new real[rows * cols];
      for i := 0 to rows * cols
        invariant forall x :: 0 <= x < i ==> d[x] == 0.0
      {
        d[i] := 0.0;
      }
      data := d;
    }

    /** The default constructor, delegating to the DefaultRows x DefaultCols one. */
    constructor ()
      ensures Valid() && fresh(data)
      ensures rows == DefaultRows && cols == DefaultCols && data[..] == [0.0]
    {
      rows := DefaultRows;
      cols := DefaultCols;
      data := new real[1](_ => 0.0);
    }

    /** The copy constructor: rhs's shape and elements in storage of its own. */
    constructor Copy(rhs: Matrix)
      requires rhs.Valid()
      ensures Valid() && fresh(data)
      ensures rows == rhs.rows && cols == rhs.cols && data[..] == rhs.data[..]
    {
      rows := rhs.rows;
      cols := rhs.cols;
      var d := new real[rhs.rows * rhs.cols];
      for i := 0 to rhs.rows * rhs.cols
        invariant forall x :: 0 <= x < i ==> d[x] == rhs.data[x]
      {
        d[i] := rhs.data[i];
      }
      data := d;
    }

    /** operator=: rhs's shape and a copy of its elements; self-assignment does nothing. */
    method Assign(rhs: Matrix)
      requires Valid() && rhs.Valid()
      modifies this
      ensures Valid()
      ensures rhs == this ==> data == old(data)
      ensures rhs != this ==> fresh(data)
      ensures rows == old(rhs.rows) && cols == old(rhs.cols) && data[..] == old(rhs.data[..])
    {
      if this == rhs {
        return;
      }
      var d := new real[rhs.rows * rhs.cols];
      for i := 0 to rhs.rows * rhs.cols
        invariant forall x :: 0 <= x < i ==> d[x] == rhs.data[x]
      {
        d[i] := rhs.data[i];
      }
      rows := rhs.rows;
      cols := rhs.cols;
      data := d;
    }

    /** getRows: the number of rows, each of which holds `cols` of the stored elements. */
    function GetRows(): (r: int)
      reads this
      requires Valid()
      ensures r >= 0 && r * cols == data.Length
    {
      rows
    }

    /** getCols: the number of columns, which times the row count is the element count. */
    function GetCols(): (c: int)
      reads this
      requires Valid()
      ensures c >= 0 && rows * c == data.Length
    {
      cols
    }

    /** vectorize: the same flat elements seen as one column of rows * cols rows. */
    method Vectorize()
      requires Valid()
      modifies this
      ensures Valid() && data == old(data) && data[..] == old(data[..])
      ensures rows == old(rows * cols) && cols == 1
      ensures forall i :: 0 <= i < rows ==> InRange(i, 0) && At(i, 0) == data[i]
    {
      rows := rows * cols;
      cols := 1;
    }

    /** The read-only operator[]: the element at flat index ind, exiting unless 0 <= ind < rows * cols. */
    function Index(ind: int): (r: Result<real, Exit>)
      reads this, data
      requires Valid()
      ensures r.Success? <==> 0 <= ind < rows * cols
      ensures r.Failure? ==> r.error == IndexOutOfRange
      ensures r.Success? ==> InRange(ind / cols, ind % cols) && r.value == At(ind / cols, ind % cols)
    {
      if ind < 0 || ind >= rows * cols then Failure(IndexOutOfRange)
      else
        FlatIndexOnto(rows, cols, ind);
        assert cols * (ind / cols) + ind % cols == ind;
        Success(data[ind])
    }

    /**
     * The read-only operator(): element (row, col), exiting unless 0 <= row < rows and
     * 0 <= col < cols.
     */
    function Entry(row: int, col: int): (r: Result<real, Exit>)
      reads this, data
      requires Valid()
      ensures r.Success? <==> InRange(row, col)
      ensures r.Failure? ==> r.error == IndexOutOfRange
      ensures r.Success? ==> Index(cols * row + col) == r
    {
      if row < 0 || col < 0 || rows <= row || cols <= col then Failure(IndexOutOfRange)
      else
        FlatIndexInRange(rows, cols, row, col);
        FlatIndexOnto(rows, cols, cols * row + col);
        FlatIndexInjective(cols, row, col, (cols * row + col) / cols, (cols * row + col) % cols);
        Success(data[cols * row + col])
    }

    /** Assignment through the reference the writable operator[] returns. */
    method SetIndex(ind: int, v: real) returns (r: Outcome<Exit>)
      requires Valid()
      modifies data
      ensures r.Pass? <==> 0 <= ind < rows * cols
      ensures r.Fail? ==> r.error == IndexOutOfRange && data[..] == old(data[..])
      ensures r.Pass? ==> data[..] == old(data[..])[ind := v]
    {
      if ind < 0 || ind >= rows * cols {
        return Fail(IndexOutOfRange);
      }
      data[ind] := v;
      return Pass;
    }

    /** Assignment through the reference the writable operator() returns: only (row, col) changes. */
    method SetEntry(row: int, col: int, v: real) returns (r: Outcome<Exit>)
      requires Valid()
      modifies data
      ensures r.Pass? <==> InRange(row, col)
      ensures r.Fail? ==> r.error == IndexOutOfRange && data[..] == old(data[..])
      ensures r.Pass? ==> forall x, y :: InRange(x, y) ==> At(x, y) == if x == row && y == col then v else old(At(x, y))
    {
      if row < 0 || col < 0 || rows <= row || cols <= col {
        return Fail(IndexOutOfRange);
      }
      FlatIndexInRange(rows, cols, row, col);
      data[cols * row + col] := v;
      forall x, y | InRange(x, y)
        ensures At(x, y) == if x == row && y == col then v else old(At(x, y))
      {
        FlatIndexInRange(rows, cols, x, y);
        if cols * x + y == cols * row + col {
          FlatIndexInjective(cols, x, y, row, col);
        }
      }
      return Pass;
    }

    /** operator+: a new matrix of elementwise sums; exits unless both shapes are equal. */
    method Plus(rhs: Matrix) returns (r: Result<Matrix, Exit>)
      requires Valid() && rhs.Valid()
      ensures r.Failure? <==> rows != rhs.rows || cols != rhs.cols
      ensures r.Failure? ==> r.error == InvalidDimensions
      ensures r.Success? ==> fresh(r.value) && fresh(r.value.data) && r.value.Valid()
      ensures r.Success? ==> r.value.rows == rows && r.value.cols == cols
      ensures r.Success? ==> forall i :: 0 <= i < rows * cols ==> r.value.data[i] == data[i] + rhs.data[i]
    {
      if rows != rhs.rows || cols != rhs.cols {
        return Failure(InvalidDimensions);
      }
      var m := new Matrix.Zero(rows, cols);
      var d := m.data;
      for i := 0 to rows * cols
        invariant m.data == d && m.rows == rows && m.cols == cols
        invariant forall x :: 0 <= x < i ==> d[x] == data[x] + rhs.data[x]
      {
        d[i] := data[i] + rhs.data[i];
      }
      return Success(m);
    }

    /** operator+=: add rhs elementwise in place (rhs may be this matrix); exits unless shapes are equal. */
    method AddAssign(rhs: Matrix) returns (r: Outcome<Exit>)
      requires Valid() && rhs.Valid()
      modifies data
      ensures r.Fail? <==> rows != rhs.rows || cols != rhs.cols
      ensures r.Fail? ==> r.error == InvalidDimensions && data[..] == old(data[..])
      ensures r.Pass? ==> forall i :: 0 <= i < rows * cols ==> data[i] == old(data[i]) + old(rhs.data[i])
    {
      if rows != rhs.rows || cols != rhs.cols {
        return Fail(InvalidDimensions);
      }
      for i := 0 to rows * cols
        invariant forall x :: 0 <= x < i ==> data[x] == old(data[x]) + old(rhs.data[x])
        invariant forall x :: i <= x < rows * cols ==> data[x] == old(data[x]) && rhs.data[x] == old(rhs.data[x])
      {
        data[i] := data[i] + rhs.data[i];
      }
      return Pass;
    }

    /**
     * operator* of two matrices: a new rows x rhs.cols matrix whose element (i, j) is the dot
     * product of row i with column j; exits unless cols == rhs.rows.
     */
    method Times(rhs: Matrix) returns (r: Result<Matrix, Exit>)
      requires Valid() && rhs.Valid()
      ensures r.Failure? <==> cols != rhs.rows
      ensures r.Failure? ==> r.error == InvalidDimensions
      ensures r.Success? ==> fresh(r.value) && fresh(r.value.data) && r.value.Valid()
      ensures r.Success? ==> r.value.rows == rows && r.value.cols == rhs.cols
      ensures r.Success? ==> forall i, j :: r.value.InRange(i, j) ==>
        r.value.At(i, j) == Dot(data[..], rows, cols, rhs.data[..], rhs.cols, i, j, cols)
    {
      if cols != rhs.rows {
        return Failure(InvalidDimensions);
      }
      var m := new Matrix.Zero(rows, rhs.cols);
      forall x, y | m.InRange(x, y)
        ensures m.At(x, y) == 0.0
      {
        FlatIndexInRange(m.rows, m.cols, x, y);
      }
      for i := 0 to rows
        invariant fresh(m.data) && m.Valid() && m.rows == rows && m.cols == rhs.cols
        invariant forall x, y :: m.InRange(x, y) && x < i ==>
          m.At(x, y) == Dot(data[..], rows, cols, rhs.data[..], rhs.cols, x, y, cols)
        invariant forall x, y :: m.InRange(x, y) && i <= x ==> m.At(x, y) == 0.0
      {
        for j := 0 to rhs.cols
          invariant fresh(m.data) && m.Valid() && m.rows == rows && m.cols == rhs.cols
          invariant forall x, y :: m.InRange(x, y) && (x < i || (x == i && y < j)) ==>
            m.At(x, y) == Dot(data[..], rows, cols, rhs.data[..], rhs.cols, x, y, cols)
          invariant forall x, y :: m.InRange(x, y) && (i < x || (x == i && j <= y)) ==> m.At(x, y) == 0.0
        {
          for k := 0 to cols
            invariant fresh(m.data) && m.Valid() && m.rows == rows && m.cols == rhs.cols
            invariant m.At(i, j) == Dot(data[..], rows, cols, rhs.data[..], rhs.cols, i, j, k)
            invariant forall x, y :: m.InRange(x, y) && (x < i || (x == i && y < j)) ==>
              m.At(x, y) == Dot(data[..], rows, cols, rhs.data[..], rhs.cols, x, y, cols)
            invariant forall x, y :: m.InRange(x, y) && (i < x || (x == i && j < y)) ==> m.At(x, y) == 0.0
          {
            DotStep(rhs, i, j, k);
            var _ := m.SetEntry(i, j, m.At(i, j) + At(i, k) * rhs.At(k, j));
          }
        }
      }
      return Success(m);
    }

    /** One more term of the dot product of row i with column j of rhs. */
    lemma {:induction false} DotStep(rhs: Matrix, i: int, j: int, k: int)
      requires Valid() && rhs.Valid() && cols == rhs.rows
      requires 0 <= i < rows && 0 <= j < rhs.cols && 0 <= k < cols
      ensures Dot(data[..], rows, cols, rhs.data[..], rhs.cols, i, j, k + 1)
        == Dot(data[..], rows, cols, rhs.data[..], rhs.cols, i, j, k) + At(i, k) * rhs.At(k, j)
    {
      var a, b := data[..], rhs.data[..];
      FlatIndexInRange(rows, cols, i, k);
      FlatIndexInRange(cols, rhs.cols, k, j);
      assert (k + 1) - 1 == k;
      assert a[cols * i + k] == At(i, k) && b[rhs.cols * k + j] == rhs.At(k, j);
    }

    /** operator*=: replace this matrix by the product this * rhs; exits unless cols == rhs.rows. */
    method TimesAssign(rhs: Matrix) returns (r: Outcome<Exit>)
      requires Valid() && rhs.Valid()
      modifies this
      ensures Valid()
      ensures r.Fail? <==> old(cols) != old(rhs.rows)
      ensures r.Fail? ==> r.error == InvalidDimensions && data == old(data) && rows == old(rows) && cols == old(cols)
      ensures r.Pass? ==> fresh(data) && rows == old(rows) && cols == old(rhs.cols)
      ensures r.Pass? ==> forall i, j :: InRange(i, j) ==>
        At(i, j) == Dot(old(data[..]), rows, old(cols), old(rhs.data[..]), cols, i, j, old(cols))
    {
      var product := Times(rhs);
      if product.Failure? {
        return Fail(product.error);
      }
      var m := product.value;
      ghost var a, b, ac, bc := data[..], rhs.data[..], cols, rhs.cols;
      rows := m.rows;
      cols := m.cols;
      data := m.data;
      forall i, j | InRange(i, j)
        ensures At(i, j) == Dot(a, rows, ac, b, bc, i, j, ac)
      {
        assert m.InRange(i, j);
      }
      return Pass;
    }

    /** operator==: equal shapes and every flat element equal. */
    method Equals(rhs: Matrix) returns (eq: bool)
      requires Valid() && rhs.Valid()
      ensures eq <==> rows == rhs.rows && cols == rhs.cols && data[..] == rhs.data[..]
    {
      if rows != rhs.rows || cols != rhs.cols {
        return false;
      }
      for i := 0 to cols * rows
        invariant forall x :: 0 <= x < i ==> data[x] == rhs.data[x]
      {
        if data[i] != rhs.data[i] {
          return false;
        }
      }
      assert data[..] == rhs.data[..];
      return true;
    }

    /** Equal flat elements is the same as equal elements at every (row, col), for equal shapes. */
    lemma {:induction false} EqualsIffSameEntries(rhs: Matrix)
      requires Valid() && rhs.Valid() && rows == rhs.rows && cols == rhs.cols
      ensures data[..] == rhs.data[..] <==> forall x, y :: InRange(x, y) ==> At(x, y) == rhs.At(x, y)
    {
      if forall x, y :: InRange(x, y) ==> At(x, y) == rhs.At(x, y) {
        forall i | 0 <= i < data.Length
          ensures data[i] == rhs.data[i]
        {
          FlatIndexOnto(rows, cols, i);
          var q, r := i / cols, i % cols;
          assert InRange(q, r);
          assert data[cols * q + r] == At(q, r) == rhs.At(q, r) == rhs.data[cols * q + r];
        }
        assert data[..] == rhs.data[..];
      }
      if data[..] == rhs.data[..] {
        forall x, y | InRange(x, y)
          ensures At(x, y) == rhs.At(x, y)
        {
          FlatIndexInRange(rows, cols, x, y);
          assert data[..][cols * x + y] == rhs.data[..][cols * x + y];
        }
      }
    }

    /** operator!=: the negation of operator==. */
    method NotEquals(rhs: Matrix) returns (ne: bool)
      requires Valid() && rhs.Valid()
      ensures ne <==> !(rows == rhs.rows && cols == rhs.cols && data[..] == rhs.data[..])
    {
      var eq := Equals(rhs);
      ne := !eq;
    }

    /** The loop body of operator/: a new matrix of the same shape holding every element divided by c. */
    method Quotient(c: real) returns (m: Matrix)
      requires Valid() && c != 0.0
      ensures fresh(m) && fresh(m.data) && m.Valid() && m.rows == rows && m.cols == cols
      ensures forall i :: 0 <= i < rows * cols ==> m.data[i] == data[i] / c && m.data[i] * c == data[i]
    {
      m := new Matrix.Zero(rows, cols);
      var d := m.data;
      for i := 0 to rows * cols
        invariant m.data == d && m.rows == rows && m.cols == cols
        invariant forall x :: 0 <= x < i ==> d[x] == data[x] / c && d[x] * c == data[x]
      {
        d[i] := data[i] / c;
      }
    }

    /** The loop body of operator/=: every element divided by c in place. */
    method DivideInPlace(c: real)
      requires Valid() && c != 0.0
      modifies data
      ensures forall i :: 0 <= i < rows * cols ==> data[i] == old(data[i]) / c && data[i] * c == old(data[i])
    {
      for i := 0 to rows * cols
        invariant forall x :: 0 <= x < i ==> data[x] == old(data[x]) / c && data[x] * c == old(data[x])
        invariant forall x :: i <= x < rows * cols ==> data[x] == old(data[x])
      {
        data[i] := data[i] / c;
      }
    }

    /**
     * operator/ as written: the guard receives c converted to int, so every c with
     * -1 < c < 1 exits with DIVISION_BY_ZERO_ERROR, not just c == 0.
     */
    method DivideAsWritten(c: real) returns (r: Result<Matrix, Exit>)
      requires Valid()
      ensures r.Failure? <==> !DivisionGuardAsWritten(c)
      ensures r.Failure? ==> r.error == DivisionByZero
      ensures r.Success? ==> fresh(r.value) && fresh(r.value.data) && r.value.Valid() && r.value.rows == rows && r.value.cols == cols
      ensures r.Success? ==> forall i :: 0 <= i < rows * cols ==> r.value.data[i] * c == data[i]
    {
      if !DivisionGuardAsWritten(c) {
        return Failure(DivisionByZero);
      }
      var m := Quotient(c);
      return Success(m);
    }

    /** operator/= as written: the same truncating guard, then every element divided in place. */
    method DivideAssignAsWritten(c: real) returns (r: Outcome<Exit>)
      requires Valid()
      modifies data
      ensures r.Fail? <==> !DivisionGuardAsWritten(c)
      ensures r.Fail? ==> r.error == DivisionByZero && data[..] == old(data[..])
      ensures r.Pass? ==> forall i :: 0 <= i < rows * cols ==> data[i] * c == old(data[i])
    {
      if !DivisionGuardAsWritten(c) {
        return Fail(DivisionByZero);
      }
      DivideInPlace(c);
      return Pass;
    }

    /** operator/ as its documentation describes it: exits exactly when c == 0. */
    method Divide(c: real) returns (r: Result<Matrix, Exit>)
      requires Valid()
      ensures r.Failure? <==> c == 0.0
      ensures r.Failure? ==> r.error == DivisionByZero
      ensures r.Success? ==> fresh(r.value) && fresh(r.value.data) && r.value.Valid() && r.value.rows == rows && r.value.cols == cols
      ensures r.Success? ==> forall i :: 0 <= i < rows * cols ==> r.value.data[i] * c == data[i]
    {
      if c == 0.0 {
        return Failure(DivisionByZero);
      }
      var m := Quotient(c);
      return Success(m);
    }

    /** operator/= as its documentation describes it: exits exactly when c == 0. */
    method DivideAssign(c: real) returns (r: Outcome<Exit>)
      requires Valid()
      modifies data
      ensures r.Fail? <==> c == 0.0
      ensures r.Fail? ==> r.error == DivisionByZero && data[..] == old(data[..])
      ensures r.Pass? ==> forall i :: 0 <= i < rows * cols ==> data[i] * c == old(data[i])
    {
      if c == 0.0 {
        return Fail(DivisionByZero);
      }
      DivideInPlace(c);
      return Pass;
    }
  }

  /**
   * Matrix(int, int): exits when either count is negative; otherwise a rows x cols matrix whose
   * every element is 0.
   */
  method Make(rows: int, cols: int) returns (r: Result<Matrix, Exit>)
    ensures r.Failure? <==> rows < 0 || cols < 0
    ensures r.Failure? ==> r.error == NegativeDimensions
    ensures r.Success? ==> fresh(r.value) && fresh(r.value.data) && r.value.Valid()
    ensures r.Success? ==> r.value.rows == rows && r.value.cols == cols
    ensures r.Success? ==> forall x, y :: r.value.InRange(x, y) ==> r.value.At(x, y) == 0.0
  {
    if rows < 0 || cols < 0 {
      return Failure(NegativeDimensions);
    }
    var m := new Matrix.Zero(rows, cols);
    forall x, y | m.InRange(x, y)
      ensures m.At(x, y) == 0.0
    {
      FlatIndexInRange(rows, cols, x, y);
    }
    return Success(m);
  }
}
