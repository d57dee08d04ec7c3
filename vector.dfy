/**
  The fixed-size integer vector `Vector<N, int>` (`Vector2i`, `Vector3i`,
  `Vector4i`). A vector value is a `seq<int>` of length N; the object form
  keeps its elements in an array that `add`, `multiply` and `divide` update in
  place. The binary operators copy the receiver and run the in-place member on
  the copy.
*/
module Vectors {

  function Abs(x: int): nat { if x < 0 then -x else x }

  /** C++ integer division: the quotient is truncated toward zero, so the
      remainder has the sign of the dividend. */
  function TruncDiv(a: int, c: int): (q: int)
    requires c != 0
    ensures Abs(a - q * c) < Abs(c)
    ensures a - q * c == 0 || (a - q * c < 0 <==> a < 0)
  {
    var m := Abs(a) / Abs(c);
    var q := if (a < 0) == (c < 0) then m else -m;
    TruncDivRemainder(a, c, m, q);
    q
  }

  lemma TruncDivRemainder(a: int, c: int, m: int, q: int)
    requires c != 0 && m == Abs(a) / Abs(c)
    requires q == if (a < 0) == (c < 0) then m else -m
    ensures a - q * c == if a < 0 then -(Abs(a) % Abs(c)) else Abs(a) % Abs(c)
  {
    var C: int := Abs(c);
    assert Abs(a) == m * C + Abs(a) % C;
    if c > 0 {
      assert c == C;
    } else {
      assert c == -C;
      assert q * c == (-q) * C;
    }
  }

  // ---------------------------------------------------------------------------
  // Vector values
  // ---------------------------------------------------------------------------

  /** The default constructor's value: every element 0. */
  function Zeros(n: nat): seq<int>
  {
    seq(n, _ => 0)
  }

  /** The first `n` items, padded with 0 when there are fewer: the
      initializer-list constructor and the size-changing cast. */
  function Fit(items: seq<int>, n: nat): seq<int>
  {
    seq(n, i requires 0 <= i < n => if i < |items| then items[i] else 0)
  }

  function Sum(a: seq<int>, b: seq<int>): seq<int>
    requires |a| == |b|
  {
    seq(|a|, i requires 0 <= i < |a| => a[i] + b[i])
  }

  function Scaled(a: seq<int>, c: int): seq<int>
  {
    seq(|a|, i requires 0 <= i < |a| => a[i] * c)
  }

  function Quotient(a: seq<int>, c: int): seq<int>
    requires c != 0
  {
    seq(|a|, i requires 0 <= i < |a| => TruncDiv(a[i], c))
  }

  /** Unary minus is multiplication by -1. */
  function Negated(a: seq<int>): seq<int>
  {
    Scaled(a, -1)
  }

  /** `subtract(v)` is `add(-v)`. */
  function Difference(a: seq<int>, b: seq<int>): seq<int>
    requires |a| == |b|
  {
    Sum(a, Negated(b))
  }

  /** The dot product, accumulated from index 0 upward. */
  function InnerProduct(a: seq<int>, b: seq<int>): int
    requires |a| == |b|
  {
    if |a| == 0 then 0
    else InnerProduct(a[..|a| - 1], b[..|a| - 1]) + a[|a| - 1] * b[|a| - 1]
  }

  /** `norm()`: the magnitude squared, `dot(*this)`. */
  function SquaredNorm(a: seq<int>): int
  {
    InnerProduct(a, a)
  }

  /** `cross(v)`: the three component formulas; the result is orthogonal to
      both factors. */
  function CrossProduct(a: seq<int>, b: seq<int>): (r: seq<int>)
    requires |a| == 3 && |b| == 3
    ensures |r| == 3
    ensures InnerProduct(a, r) == 0 && InnerProduct(b, r) == 0
  {
    var r := [a[1] * b[2] - a[2] * b[1],
              a[2] * b[0] - a[0] * b[2],
              a[0] * b[1] - a[1] * b[0]];
    InnerProduct3(a, r);
    InnerProduct3(b, r);
    TripleProductVanishes(a[0], a[1], a[2], b[0], b[1], b[2]);
    r
  }

  /** `equals(v)`: the element arrays compare equal. */
  function Equals(a: seq<int>, b: seq<int>): (r: bool)
    requires |a| == |b|
    ensures r <==> forall i :: 0 <= i < |a| ==> a[i] == b[i]
  {
    a == b
  }

  // ---------------------------------------------------------------------------
  // Properties of the values
  // ---------------------------------------------------------------------------

  /** Subtraction through `add(-v)` is elementwise subtraction. */
  lemma DifferenceIsElementwise(a: seq<int>, b: seq<int>)
    requires |a| == |b|
    ensures |Difference(a, b)| == |a|
    ensures forall i :: 0 <= i < |a| ==> Difference(a, b)[i] == a[i] - b[i]
  {
  }

  /** The dot product is symmetric. */
  lemma {:induction false} InnerProductSymmetric(a: seq<int>, b: seq<int>)
    requires |a| == |b|
    ensures InnerProduct(a, b) == InnerProduct(b, a)
  {
    if |a| > 0 {
      InnerProductSymmetric(a[..|a| - 1], b[..|a| - 1]);
    }
  }

  /** The squared norm is never negative, and is 0 exactly for the zero vector. */
  lemma {:induction false} SquaredNormZero(a: seq<int>)
    ensures SquaredNorm(a) >= 0
    ensures SquaredNorm(a) == 0 <==> a == Zeros(|a|)
  {
    if |a| > 0 {
      var p := a[..|a| - 1];
      var x := a[|a| - 1];
      SquaredNormZero(p);
      assert SquaredNorm(a) == SquaredNorm(p) + x * x;
      assert x * x >= 0;
      assert x != 0 ==> x * x > 0;
      assert a == p + [x];
      assert a == Zeros(|a|) <==> p == Zeros(|p|) && x == 0 by {
        if a == Zeros(|a|) {
          assert p == Zeros(|a|)[..|p|];
        }
        if p == Zeros(|p|) && x == 0 {
          assert Zeros(|a|) == Zeros(|p|) + [0];
        }
      }
    }
  }

  /** The cross product is antisymmetric: a × b == -(b × a). */
  lemma CrossAntisymmetric(a: seq<int>, b: seq<int>)
    requires |a| == 3 && |b| == 3
    ensures CrossProduct(a, b) == Negated(CrossProduct(b, a))
  {
  }

  /** a × a == 0. */
  lemma CrossSelfIsZero(a: seq<int>)
    requires |a| == 3
    ensures CrossProduct(a, a) == Zeros(3)
  {
  }

  /** The dot product of two 3-vectors, written out. */
  lemma InnerProduct3(a: seq<int>, b: seq<int>)
    requires |a| == 3 && |b| == 3
    ensures InnerProduct(a, b) == a[0] * b[0] + a[1] * b[1] + a[2] * b[2]
  {
    assert a[..3] == a && b[..3] == b;
    assert a[..2][..1] == a[..1] && b[..2][..1] == b[..1];
    assert a[..1][..0] == [] && b[..1][..0] == [];
    assert InnerProduct(a[..1], b[..1]) == a[0] * b[0];
    assert InnerProduct(a[..2], b[..2]) == a[0] * b[0] + a[1] * b[1];
  }

  lemma TripleProductVanishes(x0: int, x1: int, x2: int, y0: int, y1: int, y2: int)
    ensures x0 * (x1 * y2 - x2 * y1) + x1 * (x2 * y0 - x0 * y2) + x2 * (x0 * y1 - x1 * y0) == 0
    ensures y0 * (x1 * y2 - x2 * y1) + y1 * (x2 * y0 - x0 * y2) + y2 * (x0 * y1 - x1 * y0) == 0
  {
  }

  /** Casting to a larger size and back gives the original vector. */
  lemma FitGrowShrink(a: seq<int>, m: nat)
    requires |a| <= m
    ensures Fit(Fit(a, m), |a|) == a
  {
  }

  /** Casting to a smaller size keeps a prefix; casting back pads with zeros. */
  lemma FitShrinkGrow(a: seq<int>, m: nat)
    requires m <= |a|
    ensures Fit(a, m) == a[..m]
    ensures Fit(Fit(a, m), |a|) == a[..m] + Zeros(|a| - m)
  {
  }

  // ---------------------------------------------------------------------------
  // The vector object
  // ---------------------------------------------------------------------------

  class Vector {
    /** `_elem[N]`; N is its length. */
    const elems: array<int>

    /** `Vector()`: every element 0. */
    constructor (n: nat)
      ensures fresh(elems) && elems[..] == Zeros(n)
    {
      elems := new int[n](_ => 0);
    }

    /** `Vector(const T v[N])`: the first N items of `v`. */
    constructor FromArray(n: nat, v: seq<int>)
      requires n <= |v|
      ensures fresh(elems) && elems[..] == v[..n]
    {
      elems := new int[n](i requires 0 <= i < n => v[i]);
    }

    /** `Vector(initializer_list)`: item `i` where there is one, 0 after the list ends. */
    constructor FromList(n: nat, items: seq<int>)
      ensures fresh(elems) && elems[..] == Fit(items, n)
    {
      var a := new int[n];
      var i := 0;
      while i < n
        invariant 0 <= i <= n
        invariant forall k :: 0 <= k < i ==> a[k] == if k < |items| then items[k] else 0
      {
        a[i] := if i < |items| then items[i] else 0;
        i := i + 1;
      }
      elems := a;
    }

    /** The implicit copy constructor: an independent vector with equal elements. */
    constructor Clone(v: Vector)
      ensures fresh(elems) && elems[..] == v.elems[..]
    {
      elems := new int[v.elems.Length](i requires 0 <= i < v.elems.Length reads v.elems => v.elems[i]);
    }

    /** `add(v)`: `this[i] += v[i]` for every i; returns the updated value. */
    method Add(v: Vector) returns (r: seq<int>)
      requires v.elems.Length == elems.Length
      modifies elems
      ensures elems[..] == Sum(old(elems[..]), old(v.elems[..]))
      ensures r == elems[..]
    {
      var i := 0;
      while i < elems.Length
        invariant 0 <= i <= elems.Length
        invariant forall k :: 0 <= k < i ==> elems[k] == old(elems[k]) + old(v.elems[k])
        invariant forall k :: i <= k < elems.Length ==> elems[k] == old(elems[k]) && v.elems[k] == old(v.elems[k])
      {
        elems[i] := elems[i] + v.elems[i];
        i := i + 1;
      }
      r := elems[..];
    }

    /** `multiply(c)`: `this[i] *= c` for every i; returns the updated value. */
    method Multiply(c: int) returns (r: seq<int>)
      modifies elems
      ensures elems[..] == Scaled(old(elems[..]), c)
      ensures r == elems[..]
    {
      var i := 0;
      while i < elems.Length
        invariant 0 <= i <= elems.Length
        invariant forall k :: 0 <= k < i ==> elems[k] == old(elems[k]) * c
        invariant forall k :: i <= k < elems.Length ==> elems[k] == old(elems[k])
      {
        elems[i] := elems[i] * c;
        i := i + 1;
      }
      r := elems[..];
    }

    /** `divide(c)`: `this[i] /= c` for every i (C++ truncating division). */
    method Divide(c: int) returns (r: seq<int>)
      requires c != 0
      modifies elems
      ensures elems[..] == Quotient(old(elems[..]), c)
      ensures r == elems[..]
    {
      var i := 0;
      while i < elems.Length
        invariant 0 <= i <= elems.Length
        invariant forall k :: 0 <= k < i ==> elems[k] == TruncDiv(old(elems[k]), c)
        invariant forall k :: i <= k < elems.Length ==> elems[k] == old(elems[k])
      {
        elems[i] := TruncDiv(elems[i], c);
        i := i + 1;
      }
      r := elems[..];
    }

    /** `subtract(v)`: `add(-v)`, where `-v` is a copy of `v` multiplied by -1. */
    method Subtract(v: Vector) returns (r: seq<int>)
      requires v.elems.Length == elems.Length
      modifies elems
      ensures elems[..] == Difference(old(elems[..]), old(v.elems[..]))
      ensures r == elems[..]
    {
      var negated := new Vector.Clone(v);
      var _ := negated.Multiply(-1);
      r := Add(negated);
    }

    /** `dot(v)`: the sum of `this[i] * v[i]`; nothing changes. */
    method Dot(v: Vector) returns (p: int)
      requires v.elems.Length == elems.Length
      ensures p == InnerProduct(elems[..], v.elems[..])
    {
      p := 0;
      var i := 0;
      while i < elems.Length
        invariant 0 <= i <= elems.Length
        invariant p == InnerProduct(elems[..i], v.elems[..i])
      {
        assert elems[..i + 1][..i] == elems[..i];
        assert v.elems[..i + 1][..i] == v.elems[..i];
        p := p + elems[i] * v.elems[i];
        i := i + 1;
      }
      assert elems[..] == elems[..i] && v.elems[..] == v.elems[..i];
    }

    /** `norm()`: `dot(*this)`, never negative, 0 only for the zero vector. */
    method Norm() returns (p: int)
      ensures p == SquaredNorm(elems[..])
      ensures p >= 0 && (p == 0 <==> elems[..] == Zeros(elems.Length))
    {
      p := Dot(this);
      SquaredNormZero(elems[..]);
    }

    /** The cast to `Vector<M, T>`: the first `min(M, N)` elements, then zeros. */
    method Resize(m: nat) returns (w: Vector)
      ensures fresh(w) && fresh(w.elems) && w.elems[..] == Fit(elems[..], m)
    {
      w := new Vector(m);
      var i := 0;
      var bound := if m < elems.Length then m else elems.Length;
      while i < bound
        invariant 0 <= i <= bound
        invariant fresh(w.elems) && w.elems.Length == m
        invariant forall k :: 0 <= k < i ==> w.elems[k] == elems[k]
        invariant forall k :: i <= k < m ==> w.elems[k] == 0
      {
        w.elems[i] := elems[i];
        i := i + 1;
      }
    }

    /** `operator+`: a copy of the receiver with `v` added; both operands unchanged. */
    method Plus(v: Vector) returns (w: Vector)
      requires v.elems.Length == elems.Length
      ensures fresh(w) && fresh(w.elems) && w.elems[..] == Sum(elems[..], v.elems[..])
    {
      w := new Vector.Clone(this);
      var _ := w.Add(v);
    }

    /** `operator-`: a copy of the receiver with `v` subtracted. */
    method Minus(v: Vector) returns (w: Vector)
      requires v.elems.Length == elems.Length
      ensures fresh(w) && fresh(w.elems) && w.elems[..] == Difference(elems[..], v.elems[..])
    {
      w := new Vector.Clone(this);
      var _ := w.Subtract(v);
    }

    /** `operator*`: a copy of the receiver multiplied by `c`. */
    method Times(c: int) returns (w: Vector)
      ensures fresh(w) && fresh(w.elems) && w.elems[..] == Scaled(elems[..], c)
    {
      w := new Vector.Clone(this);
      var _ := w.Multiply(c);
    }

    /** `operator/`: a copy of the receiver divided by `c`. */
    method Over(c: int) returns (w: Vector)
      requires c != 0
      ensures fresh(w) && fresh(w.elems) && w.elems[..] == Quotient(elems[..], c)
    {
      w := new Vector.Clone(this);
      var _ := w.Divide(c);
    }

    /** Unary `operator-`: `(*this) * (-1)`. */
    method Negate() returns (w: Vector)
      ensures fresh(w) && fresh(w.elems) && w.elems[..] == Negated(elems[..])
    {
      w := Times(-1);
    }
  }
}
