/**
  The fixed-size integer matrix `Matrix<R, C, int>` (`Matrix2i`, `Matrix3i`,
  `Matrix4i`), in row-column notation. A matrix value is a sequence of R rows
  of C integers; the object form keeps its entries in a two-dimensional array
  that `add`, `multiply` and `divide` update in place, while the matrix
  product and the transpose fill a fresh matrix.
*/
module Matrices {
  import Vectors

  type Mat = seq<seq<int>>

  ghost predicate IsMatrix(m: Mat, r: nat, c: nat)
  {
    |m| == r && forall i :: 0 <= i < r ==> |m[i]| == c
  }

  // ---------------------------------------------------------------------------
  // Matrix values
  // ---------------------------------------------------------------------------

  /** The default constructor's value: every entry 0. */
  function Zeros(r: nat, c: nat): Mat
  {
    seq(r, _ => seq(c, _ => 0))
  }

  function Sum(a: Mat, b: Mat, r: nat, c: nat): Mat
    requires IsMatrix(a, r, c) && IsMatrix(b, r, c)
  {
    seq(r, i requires 0 <= i < r => seq(c, j requires 0 <= j < c => a[i][j] + b[i][j]))
  }

  function Scaled(a: Mat, r: nat, c: nat, k: int): Mat
    requires IsMatrix(a, r, c)
  {
    seq(r, i requires 0 <= i < r => seq(c, j requires 0 <= j < c => a[i][j] * k))
  }

  function Quotient(a: Mat, r: nat, c: nat, k: int): Mat
    requires IsMatrix(a, r, c) && k != 0
  {
    seq(r, i requires 0 <= i < r => seq(c, j requires 0 <= j < c => Vectors.TruncDiv(a[i][j], k)))
  }

  /** `subtract(a)` is `add(-a)`, and `-a` is `a * (-1)`. */
  function Difference(a: Mat, b: Mat, r: nat, c: nat): Mat
    requires IsMatrix(a, r, c) && IsMatrix(b, r, c)
  {
    Sum(a, Scaled(b, r, c, -1), r, c)
  }

  /** The partial sum `a[i][0] * b[0][j] + ... + a[i][k-1] * b[k-1][j]`, in the
      order the product's innermost loop adds the terms. */
  function RowCol(a: Mat, b: Mat, i: nat, j: nat, k: nat): int
    requires i < |a| && k <= |a[i]| && k <= |b|
    requires forall t :: 0 <= t < k ==> j < |b[t]|
  {
    if k == 0 then 0 else RowCol(a, b, i, j, k - 1) + a[i][k - 1] * b[k - 1][j]
  }

  /** The product of an r×n and an n×m matrix: an r×m matrix. */
  function Product(a: Mat, b: Mat, r: nat, n: nat, m: nat): Mat
    requires IsMatrix(a, r, n) && IsMatrix(b, n, m)
  {
    seq(r, i requires 0 <= i < r => seq(m, j requires 0 <= j < m => RowCol(a, b, i, j, n)))
  }

  /** The transpose of an r×c matrix: a c×r matrix. */
  function Transposed(a: Mat, r: nat, c: nat): Mat
    requires IsMatrix(a, r, c)
  {
    seq(c, j requires 0 <= j < c => seq(r, i requires 0 <= i < r => a[i][j]))
  }

  /** The 2×2 determinant; two equal rows give 0. */
  function Det2(a: Mat): (d: int)
    requires IsMatrix(a, 2, 2)
    ensures a[0] == a[1] ==> d == 0
  {
    a[0][0] * a[1][1] - a[1][0] * a[0][1]
  }

  /** Cofactor expansion along row 0; two equal rows give 0. */
  function Det3(a: Mat): (d: int)
    requires IsMatrix(a, 3, 3)
    ensures a[0] == a[1] || a[0] == a[2] || a[1] == a[2] ==> d == 0
  {
    a[0][0] * (a[1][1] * a[2][2] - a[1][2] * a[2][1])
    - a[0][1] * (a[1][0] * a[2][2] - a[1][2] * a[2][0])
    + a[0][2] * (a[1][0] * a[2][1] - a[1][1] * a[2][0])
  }

  /** `determinant()`: the 2×2 and 3×3 overloads; every other size takes the
      generic overload, which returns 0. */
  function Det(a: Mat, n: nat): (d: int)
    requires IsMatrix(a, n, n)
    ensures n != 2 && n != 3 ==> d == 0
    ensures forall i, j :: 0 <= i < j < n && a[i] == a[j] ==> d == 0
  {
    if n == 2 then Det2(a) else if n == 3 then Det3(a) else 0
  }

  /** `equals(a)`: the entry arrays compare equal. */
  function Equals(a: Mat, b: Mat, r: nat, c: nat): (e: bool)
    requires IsMatrix(a, r, c) && IsMatrix(b, r, c)
    ensures e <==> forall i, j :: 0 <= i < r && 0 <= j < c ==> a[i][j] == b[i][j]
  {
    EqualByEntries(a, b, r, c);
    a == b
  }

  lemma EqualByEntries(a: Mat, b: Mat, r: nat, c: nat)
    requires IsMatrix(a, r, c) && IsMatrix(b, r, c)
    ensures (forall i, j :: 0 <= i < r && 0 <= j < c ==> a[i][j] == b[i][j]) ==> a == b
  {
    if forall i, j :: 0 <= i < r && 0 <= j < c ==> a[i][j] == b[i][j] {
      forall i | 0 <= i < r
        ensures a[i] == b[i]
      {
      }
    }
  }

  // ---------------------------------------------------------------------------
  // Properties of the values
  // ---------------------------------------------------------------------------

  /** Subtraction through `add(-a)` is entrywise subtraction. */
  lemma DifferenceIsEntrywise(a: Mat, b: Mat, r: nat, c: nat)
    requires IsMatrix(a, r, c) && IsMatrix(b, r, c)
    ensures IsMatrix(Difference(a, b, r, c), r, c)
    ensures forall i, j :: 0 <= i < r && 0 <= j < c ==> Difference(a, b, r, c)[i][j] == a[i][j] - b[i][j]
  {
  }

  /** Transposing twice gives the original matrix. */
  lemma TransposeInvolution(a: Mat, r: nat, c: nat)
    requires IsMatrix(a, r, c)
    ensures IsMatrix(Transposed(a, r, c), c, r)
    ensures Transposed(Transposed(a, r, c), c, r) == a
  {
    var t := Transposed(Transposed(a, r, c), c, r);
    assert |t| == |a|;
    forall i | 0 <= i < r
      ensures t[i] == a[i]
    {
    }
  }

  lemma {:induction false} RowColTransposed(a: Mat, b: Mat, r: nat, n: nat, m: nat, i: nat, j: nat, k: nat)
    requires IsMatrix(a, r, n) && IsMatrix(b, n, m)
    requires i < r && j < m && k <= n
    ensures RowCol(a, b, i, j, k) == RowCol(Transposed(b, n, m), Transposed(a, r, n), j, i, k)
  {
    if k > 0 {
      RowColTransposed(a, b, r, n, m, i, j, k - 1);
    }
  }

  /** The transpose of a product is the product of the transposes, reversed. */
  lemma ProductTransposed(a: Mat, b: Mat, r: nat, n: nat, m: nat)
    requires IsMatrix(a, r, n) && IsMatrix(b, n, m)
    ensures IsMatrix(Product(a, b, r, n, m), r, m)
    ensures Transposed(Product(a, b, r, n, m), r, m)
         == Product(Transposed(b, n, m), Transposed(a, r, n), m, n, r)
  {
    var left := Transposed(Product(a, b, r, n, m), r, m);
    var right := Product(Transposed(b, n, m), Transposed(a, r, n), m, n, r);
    forall j | 0 <= j < m
      ensures left[j] == right[j]
    {
      forall i | 0 <= i < r
        ensures left[j][i] == right[j][i]
      {
        RowColTransposed(a, b, r, n, m, i, j, n);
      }
    }
  }

  /** Transposing does not change the determinant. */
  lemma DetTransposed(a: Mat, n: nat)
    requires IsMatrix(a, n, n)
    ensures IsMatrix(Transposed(a, n, n), n, n)
    ensures Det(Transposed(a, n, n), n) == Det(a, n)
  {
  }

  /** The 2×2 determinant is multiplicative. */
  lemma Det2Product(a: Mat, b: Mat)
    requires IsMatrix(a, 2, 2) && IsMatrix(b, 2, 2)
    ensures IsMatrix(Product(a, b, 2, 2, 2), 2, 2)
    ensures Det2(Product(a, b, 2, 2, 2)) == Det2(a) * Det2(b)
  {
    var p := Product(a, b, 2, 2, 2);
    assert p[0][0] == RowCol(a, b, 0, 0, 2) && p[0][1] == RowCol(a, b, 0, 1, 2);
    assert p[1][0] == RowCol(a, b, 1, 0, 2) && p[1][1] == RowCol(a, b, 1, 1, 2);
    RowCol2(a, b, 0, 0);
    RowCol2(a, b, 0, 1);
    RowCol2(a, b, 1, 0);
    RowCol2(a, b, 1, 1);
    Binet2(a[0][0], a[0][1], a[1][0], a[1][1], b[0][0], b[0][1], b[1][0], b[1][1]);
  }

  lemma RowCol2(a: Mat, b: Mat, i: nat, j: nat)
    requires IsMatrix(a, 2, 2) && IsMatrix(b, 2, 2) && i < 2 && j < 2
    ensures RowCol(a, b, i, j, 2) == a[i][0] * b[0][j] + a[i][1] * b[1][j]
  {
    assert RowCol(a, b, i, j, 1) == a[i][0] * b[0][j];
  }

  lemma Binet2(a00: int, a01: int, a10: int, a11: int, b00: int, b01: int, b10: int, b11: int)
    ensures (a00 * b00 + a01 * b10) * (a10 * b01 + a11 * b11) - (a10 * b00 + a11 * b10) * (a00 * b01 + a01 * b11)
         == (a00 * a11 - a10 * a01) * (b00 * b11 - b10 * b01)
  {
  }

  // ---------------------------------------------------------------------------
  // The matrix object
  // ---------------------------------------------------------------------------

  class Matrix {
    /** `_elem[R][C]`; R and C are its two lengths. */
    const elems: array2<int>

    function Rows(): nat { elems.Length0 }

    function Cols(): nat { elems.Length1 }

    /** The entries as a value, row by row. */
    function Value(): (m: Mat)
      reads elems
      ensures IsMatrix(m, elems.Length0, elems.Length1)
    {
      seq(elems.Length0, i requires 0 <= i < elems.Length0 reads elems =>
        seq(elems.Length1, j requires 0 <= j < elems.Length1 reads elems => elems[i, j]))
    }

    lemma ValueIs(m: Mat)
      requires IsMatrix(m, elems.Length0, elems.Length1)
      requires forall i, j :: 0 <= i < elems.Length0 && 0 <= j < elems.Length1 ==> elems[i, j] == m[i][j]
      ensures Value() == m
    {
      var v := Value();
      forall i | 0 <= i < elems.Length0
        ensures v[i] == m[i]
      {
      }
    }

    /** `Matrix()`: every entry 0. */
    constructor (r: nat, c: nat)
      ensures fresh(elems) && Rows() == r && Cols() == c
      ensures forall i, j :: 0 <= i < r && 0 <= j < c ==> elems[i, j] == 0
      ensures Value() == Zeros(r, c)
    {
      elems := new int[r, c]((i, j) => 0);
      new;
      ValueIs(Zeros(r, c));
    }

    /** `Matrix(const T matrix[R][C])`: a copy of the given entries. */
    constructor FromRows(r: nat, c: nat, m: Mat)
      requires IsMatrix(m, r, c)
      ensures fresh(elems) && Rows() == r && Cols() == c
      ensures Value() == m
    {
      elems := new int[r, c]((i, j) requires 0 <= i < r && 0 <= j < c => m[i][j]);
      new;
      ValueIs(m);
    }

    /** The implicit copy constructor: an independent matrix with equal entries. */
    constructor Clone(a: Matrix)
      ensures fresh(elems) && Rows() == a.Rows() && Cols() == a.Cols()
      ensures Value() == a.Value()
    {
      elems := new int[a.elems.Length0, a.elems.Length1]((i, j) requires 0 <= i < a.elems.Length0 && 0 <= j < a.elems.Length1 reads a.elems => a.elems[i, j]);
      new;
      ValueIs(a.Value());
    }

    /** `Matrix(const Vector<R, T> &v)` for C == 1: entry (i, 0) is `v[i]`. */
    constructor FromColumn(v: seq<int>)
      ensures fresh(elems) && Rows() == |v| && Cols() == 1
      ensures forall i :: 0 <= i < |v| ==> elems[i, 0] == v[i]
    {
      var e := new int[|v|, 1];
      var i := 0;
      while i < |v|
        invariant 0 <= i <= |v|
        invariant forall k :: 0 <= k < i ==> e[k, 0] == v[k]
      {
        e[i, 0] := v[i];
        i := i + 1;
      }
      elems := e;
    }

    /** `Matrix(initializer_list<Vector<R, T>>)`: row `i` takes the first C
        entries of the i-th vector; once the list runs out the remaining rows
        are left as they were allocated. */
    constructor FromList(r: nat, c: nat, vs: seq<seq<int>>)
      requires forall k :: 0 <= k < |vs| ==> |vs[k]| == r
      requires 0 < r ==> 0 < |vs| && c <= r
      ensures fresh(elems) && Rows() == r && Cols() == c
      ensures forall i, j :: 0 <= i < r && i < |vs| && 0 <= j < c ==> elems[i, j] == vs[i][j]
    {
      var e := new int[r, c];
      var i := 0;
      while i < r
        invariant 0 <= i <= r && i <= |vs| && (i < r ==> i < |vs|)
        invariant forall p, q :: 0 <= p < i && 0 <= q < c ==> e[p, q] == vs[p][q]
      {
        var j := 0;
        while j < c
          invariant 0 <= j <= c
          invariant forall p, q :: 0 <= p < i && 0 <= q < c ==> e[p, q] == vs[p][q]
          invariant forall q :: 0 <= q < j ==> e[i, q] == vs[i][q]
        {
          e[i, j] := vs[i][j];
          j := j + 1;
        }
        i := i + 1;
        if i == |vs| {
          break;
        }
      }
      elems := e;
    }

    /** `add(a)`: every entry `this[i][j] += a[i][j]`; returns the updated value. */
    method Add(a: Matrix) returns (m: Mat)
      requires a.Rows() == Rows() && a.Cols() == Cols()
      modifies elems
      ensures Value() == Sum(old(Value()), old(a.Value()), Rows(), Cols())
      ensures m == Value()
    {
      ghost var before := Value();
      ghost var other := a.Value();
      var i := 0;
      while i < elems.Length0
        invariant 0 <= i <= elems.Length0
        invariant forall p, q :: 0 <= p < i && 0 <= q < elems.Length1 ==> elems[p, q] == before[p][q] + other[p][q]
        invariant forall p, q :: i <= p < elems.Length0 && 0 <= q < elems.Length1 ==> elems[p, q] == before[p][q] && a.elems[p, q] == other[p][q]
      {
        var j := 0;
        while j < elems.Length1
          invariant 0 <= j <= elems.Length1
          invariant forall p, q :: 0 <= p < i && 0 <= q < elems.Length1 ==> elems[p, q] == before[p][q] + other[p][q]
          invariant forall q :: 0 <= q < j ==> elems[i, q] == before[i][q] + other[i][q]
          invariant forall q :: j <= q < elems.Length1 ==> elems[i, q] == before[i][q] && a.elems[i, q] == other[i][q]
          invariant forall p, q :: i < p < elems.Length0 && 0 <= q < elems.Length1 ==> elems[p, q] == before[p][q] && a.elems[p, q] == other[p][q]
        {
          elems[i, j] := elems[i, j] + a.elems[i, j];
          j := j + 1;
        }
        i := i + 1;
      }
      ValueIs(Sum(before, other, Rows(), Cols()));
      m := Value();
    }

    /** `multiply(c)`: every entry `this[i][j] *= c`; returns the updated value. */
    method Multiply(c: int) returns (m: Mat)
      modifies elems
      ensures Value() == Scaled(old(Value()), Rows(), Cols(), c)
      ensures m == Value()
    {
      ghost var before := Value();
      var i := 0;
      while i < elems.Length0
        invariant 0 <= i <= elems.Length0
        invariant forall p, q :: 0 <= p < i && 0 <= q < elems.Length1 ==> elems[p, q] == before[p][q] * c
        invariant forall p, q :: i <= p < elems.Length0 && 0 <= q < elems.Length1 ==> elems[p, q] == before[p][q]
      {
        var j := 0;
        while j < elems.Length1
          invariant 0 <= j <= elems.Length1
          invariant forall p, q :: 0 <= p < i && 0 <= q < elems.Length1 ==> elems[p, q] == before[p][q] * c
          invariant forall q :: 0 <= q < j ==> elems[i, q] == before[i][q] * c
          invariant forall q :: j <= q < elems.Length1 ==> elems[i, q] == before[i][q]
          invariant forall p, q :: i < p < elems.Length0 && 0 <= q < elems.Length1 ==> elems[p, q] == before[p][q]
        {
          elems[i, j] := elems[i, j] * c;
          j := j + 1;
        }
        i := i + 1;
      }
      ValueIs(Scaled(before, Rows(), Cols(), c));
      m := Value();
    }

    /** `divide(c)`: every entry `this[i][j] /= c` (C++ truncating division). */
    method Divide(c: int) returns (m: Mat)
      requires c != 0
      modifies elems
      ensures Value() == Quotient(old(Value()), Rows(), Cols(), c)
      ensures m == Value()
    {
      ghost var before := Value();
      var i := 0;
      while i < elems.Length0
        invariant 0 <= i <= elems.Length0
        invariant forall p, q :: 0 <= p < i && 0 <= q < elems.Length1 ==> elems[p, q] == Vectors.TruncDiv(before[p][q], c)
        invariant forall p, q :: i <= p < elems.Length0 && 0 <= q < elems.Length1 ==> elems[p, q] == before[p][q]
      {
        var j := 0;
        while j < elems.Length1
          invariant 0 <= j <= elems.Length1
          invariant forall p, q :: 0 <= p < i && 0 <= q < elems.Length1 ==> elems[p, q] == Vectors.TruncDiv(before[p][q], c)
          invariant forall q :: 0 <= q < j ==> elems[i, q] == Vectors.TruncDiv(before[i][q], c)
          invariant forall q :: j <= q < elems.Length1 ==> elems[i, q] == before[i][q]
          invariant forall p, q :: i < p < elems.Length0 && 0 <= q < elems.Length1 ==> elems[p, q] == before[p][q]
        {
          elems[i, j] := Vectors.TruncDiv(elems[i, j], c);
          j := j + 1;
        }
        i := i + 1;
      }
      ValueIs(Quotient(before, Rows(), Cols(), c));
      m := Value();
    }

    /** `subtract(a)`: `add(-a)`, where `-a` is a copy of `a` multiplied by -1. */
    method Subtract(a: Matrix) returns (m: Mat)
      requires a.Rows() == Rows() && a.Cols() == Cols()
      modifies elems
      ensures Value() == Difference(old(Value()), old(a.Value()), Rows(), Cols())
      ensures m == Value()
    {
      var negated := new Matrix.Clone(a);
      var _ := negated.Multiply(-1);
      m := Add(negated);
    }

    /** The matrix `multiply(a)`: a fresh R×M matrix with entry (i, j) the sum
        over k of `this[i][k] * a[k][j]`; the receiver is unchanged. */
    method MultiplyMatrix(a: Matrix) returns (b: Matrix)
      requires Cols() == a.Rows()
      ensures fresh(b) && fresh(b.elems) && b.Rows() == Rows() && b.Cols() == a.Cols()
      ensures b.Value() == Product(Value(), a.Value(), Rows(), Cols(), a.Cols())
    {
      ghost var x := Value();
      ghost var y := a.Value();
      var r, n, m := elems.Length0, elems.Length1, a.elems.Length1;
      b := new Matrix(r, m);
      var i := 0;
      while i < r
        invariant 0 <= i <= r
        invariant fresh(b) && fresh(b.elems) && b.elems.Length0 == r && b.elems.Length1 == m
        invariant forall p, q :: 0 <= p < r && 0 <= q < m ==> b.elems[p, q] == if p < i then RowCol(x, y, p, q, n) else 0
      {
        var j := 0;
        while j < m
          invariant 0 <= j <= m
          invariant forall p, q :: 0 <= p < r && 0 <= q < m ==>
            b.elems[p, q] == if p < i || (p == i && q < j) then RowCol(x, y, p, q, n) else 0
        {
          AccumulateEntry(a, b, i, j);
          j := j + 1;
        }
        i := i + 1;
      }
      b.ValueIs(Product(x, y, r, n, m));
    }

    /** The innermost loop of the matrix product: adds `this[i][k] * a[k][j]`
        for k = 0, 1, ... to entry (i, j) of `b`, and touches no other entry. */
    method AccumulateEntry(a: Matrix, b: Matrix, i: nat, j: nat)
      requires Cols() == a.Rows() && i < Rows() && j < a.Cols()
      requires b.elems != elems && b.elems != a.elems
      requires i < b.Rows() && j < b.Cols()
      modifies b.elems
      ensures b.elems[i, j] == old(b.elems[i, j]) + RowCol(Value(), a.Value(), i, j, Cols())
      ensures forall p, q :: 0 <= p < b.Rows() && 0 <= q < b.Cols() && (p != i || q != j) ==>
        b.elems[p, q] == old(b.elems[p, q])
    {
      ghost var x := Value();
      ghost var y := a.Value();
      var k := 0;
      while k < elems.Length1
        invariant 0 <= k <= elems.Length1
        invariant b.elems[i, j] == old(b.elems[i, j]) + RowCol(x, y, i, j, k)
        invariant forall p, q :: 0 <= p < b.Rows() && 0 <= q < b.Cols() && (p != i || q != j) ==>
          b.elems[p, q] == old(b.elems[p, q])
      {
        b.elems[i, j] := b.elems[i, j] + elems[i, k] * a.elems[k, j];
        k := k + 1;
      }
    }

    /** `transpose()`: a fresh C×R matrix with entry (j, i) equal to this entry (i, j). */
    method Transpose() returns (t: Matrix)
      ensures fresh(t) && fresh(t.elems) && t.Rows() == Cols() && t.Cols() == Rows()
      ensures t.Value() == Transposed(Value(), Rows(), Cols())
    {
      var r, c := elems.Length0, elems.Length1;
      t := new Matrix(c, r);
      var i := 0;
      while i < r
        invariant 0 <= i <= r
        invariant fresh(t) && fresh(t.elems) && t.elems.Length0 == c && t.elems.Length1 == r
        invariant forall p, q :: 0 <= p < c && 0 <= q < r ==> t.elems[p, q] == if q < i then elems[q, p] else 0
      {
        var j := 0;
        while j < c
          invariant 0 <= j <= c
          invariant forall p, q :: 0 <= p < c && 0 <= q < r ==>
            t.elems[p, q] == if q < i || (q == i && p < j) then elems[q, p] else 0
        {
          t.elems[j, i] := elems[i, j];
          j := j + 1;
        }
        i := i + 1;
      }
      t.ValueIs(Transposed(Value(), r, c));
    }

    /** `determinant()` of a square matrix: the 2×2 or 3×3 closed form, else 0. */
    method Determinant() returns (d: int)
      requires Rows() == Cols()
      ensures d == Det(Value(), Rows())
    {
      if elems.Length0 == 2 {
        d := elems[0, 0] * elems[1, 1] - elems[1, 0] * elems[0, 1];
      } else if elems.Length0 == 3 {
        d := 0;
        d := d + elems[0, 0] * (elems[1, 1] * elems[2, 2] - elems[1, 2] * elems[2, 1]);
        d := d - elems[0, 1] * (elems[1, 0] * elems[2, 2] - elems[1, 2] * elems[2, 0]);
        d := d + elems[0, 2] * (elems[1, 0] * elems[2, 1] - elems[1, 1] * elems[2, 0]);
      } else {
        d := 0;
      }
    }
  }
}
