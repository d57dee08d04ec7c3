# Bounded stack and integer linear algebra, in Dafny

This project models three small C++ header-only components and proves what
their code does:

- **`Stack<T>`**: a bounded stack of `capacity` slots whose size is the offset of
  the top-of-stack pointer from the base of the buffer. It has:
  - `push` and `pop`, which fail with overflow and underflow errors;
  - the positional primitives `pick(n)`, which copies the element at depth `n`
    onto the top, and `roll(n)`, which moves it to the top with an in-place
    shifting loop;
  - `peek`;
  - the Forth words `dup`, `drop`, `swap`, `over`, `rot`, `nip` and `tuck`;
  - `copy`, `clear` and `allocate`.

  The repository has two near-identical copies of this class: `C++/Stack.hh`
  (`size_t` indices) and `C++/stack.hh` (`unsigned` indices). One Dafny class,
  `Stacks.Stack`, models both. Apart from index widths (including the type of
  the loop counter in `roll`), they differ in one place: the number of bytes
  that `allocate` copies when it shrinks the buffer. `Stack.Allocate`
  models the `Stack.hh` version and `Stack.AllocateShortCopy` models the
  `stack.hh` version (see Findings).
- **`Vector<N, int>`**: fixed-size integer vectors.
  - `add`, `multiply` and `divide` work in place.
  - `subtract` is `add(-v)`.
  - `dot`, `norm`, `cross` and `equals` are provided, along with the
    size-changing cast.
  - The binary operators copy the receiver and then run the in-place member on
    the copy.
- **`Matrix<R, C, int>`**: fixed-size integer matrices in row-column notation.
  - `add`, scalar `multiply` and `divide` work in place.
  - The matrix product and `transpose` fill a fresh matrix.
  - The 2×2 and 3×3 determinants are closed forms; every other size gives 0.
  - `equals` is provided.

Files:

- `stack.dfy` (module `Stacks`):
  - the specification of the stack on its live elements, written bottom first
    (`At`, `Picked`, `Rolled`, `PickStatus`);
  - the `Stack` class over an `array<T>`;
  - the byte-count arithmetic of the `stack.hh` allocate.

  A C++ exception becomes a `Failed(error)` status or an `Err(error)` result,
  and an operation that fails leaves the state as it was.
- `stack_scenarios.dfy` (module `StackScenarios`): client methods that drive the
  class. They show the last-in-first-out law, the independence of a copy, and
  each Forth word applied to a concrete stack.
- `vector.dfy` (module `Vectors`): vector values as `seq<int>` with their
  algebraic laws, and the `Vector` class over an `array<int>`.
- `matrix.dfy` (module `Matrices`): matrix values as `seq<seq<int>>` with
  explicit dimensions and their laws, and the `Matrix` class over an
  `array2<int>`.

The dimensions `N`, `R` and `C` are template parameters in C++. Here they are
the lengths of the arrays. C++ integer division truncates toward zero, which
`Vectors.TruncDiv` models explicitly. Integers are unbounded (see Left out).

## Model

| member | source | states |
|---|---|---|
| Stacks.Stack.constructor | C++/Stack.hh:14-20 | a new stack has size 0, no live elements and capacity exactly `n` |
| Stacks.Stack.Copy | C++/Stack.hh:44-50 | the copy has a fresh buffer, the same capacity, the same size, the same slot contents and the same live elements |
| Stacks.CopySlots | C++/Stack.hh:64-68 | the memcpy of `count` elements: the first `count` destination slots equal the source, and the rest are untouched |
| Stacks.Stack.Allocate | C++/Stack.hh:57-75 | capacity becomes `k`, size is kept, the first `min(old capacity, k)` slots are carried over into a fresh buffer, so the live elements are unchanged |
| Stacks.Stack.AllocateShortCopy | C++/stack.hh:56-74 | capacity becomes `k` and size is kept, but only `ShortCopyCount` whole slots are guaranteed to carry over |
| Stacks.ShortCopyCount | C++/stack.hh:62-67 | the number of whole slots that the byte count of `stack.hh` covers is at most `min(capacity, k)` |
| Stacks.ShortCopyGrowKeepsAll | C++/stack.hh:66 | when growing (`capacity <= k`), every old slot is carried over |
| Stacks.ShortCopyLosesSlots | C++/stack.hh:66 | when shrinking with an element wider than one byte, strictly fewer than `min(capacity, k)` slots are carried over |
| Stacks.ShortCopyExample | C++/stack.hh:66 | 4 slots of 4 bytes shrunk to 2: no slot is carried over |
| Stacks.Stack.Size | C++/Stack.hh:82-85 | `size()`, the offset of the top from the base, is the number of live elements and never exceeds the capacity |
| Stacks.Stack.Capacity | C++/Stack.hh:87-90 | `capacity()` is the number of slots in the buffer |
| Stacks.Stack.Clear | C++/Stack.hh:77-80 | size becomes 0 and the buffer and capacity are unchanged |
| Stacks.Stack.Push | C++/Stack.hh:92-97 | on a full stack: overflow and nothing changes; otherwise `x` is stored at index `size`, size grows by one, every other slot is unchanged, and the live elements gain `x` on top |
| Stacks.Stack.Pop | C++/Stack.hh:99-104 | on an empty stack: underflow and nothing changes; otherwise the top element is returned, size drops by one, and the result put back on top restores the old live elements |
| Stacks.Stack.Pick | C++/Stack.hh:106-111 | underflow exactly when `size <= n`, otherwise overflow exactly when full; on success the depth-`n` element is pushed as a copy and only slot `size` changes |
| Stacks.Stack.Roll | C++/Stack.hh:113-121 | fails exactly when `pick(n)` fails and then changes nothing; on success size is kept, the live elements become `Rolled`, and the duplicate left above the top is the moved element |
| Stacks.RolledShifts | C++/Stack.hh:113-121 | after `roll(n)` the depth-`n` element is on top, the `n` elements above it moved down one place, and the elements below it are in place |
| Stacks.RolledIsPermutation | C++/Stack.hh:113-121 | `roll(n)` only reorders: the live elements are a permutation of the old ones |
| Stacks.RollZeroIsIdentity | C++/Stack.hh:113-121 | `roll(0)` leaves the live elements as they were |
| Stacks.Stack.Peek | C++/Stack.hh:123-128 | underflow on an empty stack; otherwise the top element is returned; in both cases size and all slots are unchanged |
| Stacks.Stack.Dup | C++/Stack.hh:130-135 | `pick(0)`: the top element is duplicated, with the same failure cases as `pick` |
| Stacks.DupEffect | C++/Stack.hh:130-135 | the stack effect ( x -- x x ) |
| Stacks.Stack.Drop | C++/Stack.hh:137-142 | `pop` with the value discarded: the top is removed, or underflow on an empty stack |
| Stacks.Stack.Swap | C++/Stack.hh:144-149 | `roll(1)`: the top two elements are exchanged and size is kept; overflow on a full stack |
| Stacks.SwapEffect | C++/Stack.hh:144-149 | the stack effect ( x y -- y x ) |
| Stacks.Stack.Over | C++/Stack.hh:151-156 | `pick(1)`: the second element is copied to the top |
| Stacks.OverEffect | C++/Stack.hh:151-156 | the stack effect ( x y -- x y x ) |
| Stacks.Stack.Rot | C++/Stack.hh:158-163 | `roll(2)`: the third element moves to the top and size is kept |
| Stacks.RotEffect | C++/Stack.hh:158-163 | the stack effect ( x y z -- y z x ) |
| Stacks.Stack.Nip | C++/Stack.hh:165-171 | `swap` then `drop`: the second element is removed; fails as `swap` does |
| Stacks.NipEffect | C++/Stack.hh:165-171 | the stack effect ( x y -- y ) |
| Stacks.Stack.Tuck | C++/Stack.hh:173-179 | `swap` then `over`: a copy of the top goes beneath the second element; fails as `swap` does |
| Stacks.TuckEffect | C++/Stack.hh:173-179 | the stack effect ( x y -- y x y ) |
| StackScenarios.LastInFirstOut | C++/Stack.hh:92-104 | pushing `xs` and then popping as many times yields `xs` reversed |
| StackScenarios.CopyIsIndependent | C++/Stack.hh:44-50 | pushing onto a copy leaves the original's live elements unchanged |
| StackScenarios.DupScenario | C++/Stack.hh:130-135 | `dup` on 1 2 gives 1 2 2 |
| StackScenarios.SwapScenario | C++/Stack.hh:144-149 | `swap` on 1 2 3 gives 1 3 2 |
| StackScenarios.OverScenario | C++/Stack.hh:151-156 | `over` on 1 2 gives 1 2 1 |
| StackScenarios.RotScenario | C++/Stack.hh:158-163 | `rot` on 1 2 3 gives 2 3 1 |
| StackScenarios.NipScenario | C++/Stack.hh:165-171 | `nip` on 1 2 3 gives 1 3 |
| StackScenarios.TuckScenario | C++/Stack.hh:173-179 | `tuck` on 1 2 gives 2 1 2 |
| StackScenarios.SwapOnFullStack | C++/Stack.hh:106-121 | `swap` on a full stack fails with overflow, because `roll` first pushes through `pick`, and the stack is unchanged |
| Vectors.TruncDiv | C++/vector.hh:60-67 | C++ integer division: the remainder is smaller than the divisor in magnitude and is 0 or has the sign of the dividend |
| Vectors.Vector.constructor | C++/vector.hh:16-19 | every element is 0 |
| Vectors.Vector.FromArray | C++/vector.hh:21-24 | the elements are the first N items of the given array |
| Vectors.Vector.FromList | C++/vector.hh:26-33 | element `i` is list item `i` when there is one and 0 otherwise; extra items are ignored |
| Vectors.Vector.Clone | C++/vector.hh:200-218 | the copy that the operators work on has its own array with equal elements |
| Vectors.Vector.Add | C++/vector.hh:35-42 | each element becomes the old element plus the corresponding element of `v`, and the updated value is returned |
| Vectors.Vector.Subtract | C++/vector.hh:44-47 | `add(-v)`: the elements become the elementwise difference |
| Vectors.DifferenceIsElementwise | C++/vector.hh:44-47 | adding the negation is elementwise subtraction |
| Vectors.Vector.Multiply | C++/vector.hh:51-58 | each element is multiplied by `c` in place, and the updated value is returned |
| Vectors.Vector.Divide | C++/vector.hh:60-67 | each element is divided by `c` with truncation, in place |
| Vectors.Vector.Dot | C++/vector.hh:71-79 | the accumulated sum of `this[i] * v[i]`, with nothing changed |
| Vectors.InnerProductSymmetric | C++/vector.hh:71-79 | `dot` is symmetric |
| Vectors.CrossAntisymmetric | C++/vector.hh:81-90 | a × b is the negation of b × a |
| Vectors.CrossSelfIsZero | C++/vector.hh:81-90 | a × a is the zero vector |
| Vectors.CrossProduct | C++/vector.hh:81-90 | the three component formulas of `cross`; the result is a 3-vector orthogonal to both factors |
| Vectors.Equals | C++/vector.hh:109-112 | true exactly when all elements are equal |
| Vectors.Vector.Norm | C++/vector.hh:121-124 | `dot(*this)`: never negative, and 0 exactly for the zero vector |
| Vectors.SquaredNormZero | C++/vector.hh:121-124 | the squared norm is non-negative and vanishes exactly on the zero vector |
| Vectors.Vector.Resize | C++/vector.hh:128-137 | the cast to size M holds the first `min(M, N)` elements followed by zeros, in a fresh vector |
| Vectors.FitGrowShrink | C++/vector.hh:128-137 | a cast to a larger size and back gives the original vector |
| Vectors.FitShrinkGrow | C++/vector.hh:128-137 | a cast to a smaller size keeps a prefix, and a cast back pads that prefix with zeros |
| Vectors.Vector.Negate | C++/vector.hh:195-198 | unary minus is a copy multiplied by -1; the receiver is unchanged |
| Vectors.Vector.Plus | C++/vector.hh:200-203 | `operator+` gives a fresh vector holding the sum, and both operands are unchanged |
| Vectors.Vector.Minus | C++/vector.hh:205-208 | `operator-` gives a fresh vector holding the difference |
| Vectors.Vector.Times | C++/vector.hh:210-213 | `operator*` gives a fresh scaled vector |
| Vectors.Vector.Over | C++/vector.hh:215-218 | `operator/` gives a fresh truncated quotient |
| Matrices.Matrix.constructor | C++/matrix.hh:17-20 | an R×C matrix with every entry 0 |
| Matrices.Matrix.FromRows | C++/matrix.hh:22-25 | the entries are a copy of the given R×C array |
| Matrices.Matrix.FromColumn | C++/matrix.hh:27-35 | an R×1 matrix whose entry (i, 0) is `v[i]` |
| Matrices.Matrix.FromList | C++/matrix.hh:37-49 | row `i` holds the first C entries of the i-th vector for every row the list reaches |
| Matrices.Matrix.Clone | C++/matrix.hh:206-224 | the copy that the operators work on has its own array with equal entries |
| Matrices.Matrix.Add | C++/matrix.hh:64-74 | each entry becomes the old entry plus the corresponding entry of `a`, and the updated value is returned |
| Matrices.Matrix.Subtract | C++/matrix.hh:76-79 | `add(-a)`: the entries become the entrywise difference |
| Matrices.DifferenceIsEntrywise | C++/matrix.hh:76-79 | adding the negation is entrywise subtraction |
| Matrices.Matrix.Multiply | C++/matrix.hh:81-91 | each entry is multiplied by `c` in place |
| Matrices.Matrix.Divide | C++/matrix.hh:93-103 | each entry is divided by `c` with truncation, in place |
| Matrices.Matrix.MultiplyMatrix | C++/matrix.hh:105-122 | a fresh R×M matrix whose entry (i, j) is the sum over k of `this[i][k] * a[k][j]`, accumulated in loop order, with the receiver unchanged |
| Matrices.Matrix.AccumulateEntry | C++/matrix.hh:115-118 | the innermost product loop adds the row-by-column sum to entry (i, j) of the result and touches no other entry |
| Matrices.ProductTransposed | C++/matrix.hh:105-135 | the transpose of a product is the product of the transposes in reverse order |
| Matrices.RowColTransposed | C++/matrix.hh:115-118 | each partial sum of the product is the matching partial sum of the transposed product |
| Matrices.Matrix.Transpose | C++/matrix.hh:124-135 | a fresh C×R matrix whose entry (j, i) is this entry (i, j) |
| Matrices.TransposeInvolution | C++/matrix.hh:124-135 | transposing twice gives the original matrix |
| Matrices.Equals | C++/matrix.hh:152-155 | true exactly when all entries are equal |
| Matrices.Det2 | C++/matrix.hh:282-285 | the 2×2 overload `a00*a11 - a10*a01`; two equal rows give 0 |
| Matrices.Det3 | C++/matrix.hh:287-294 | the 3×3 overload, cofactor expansion along row 0; any two equal rows give 0 |
| Matrices.Det | C++/matrix.hh:282-300 | the overload that a square matrix selects: the 2×2 or 3×3 closed form, 0 for every other size; at every size two equal rows give 0 |
| Matrices.Matrix.Determinant | C++/matrix.hh:137-142 | the determinant of a square matrix is `Det`: the 2×2 or 3×3 closed form, otherwise 0 |
| Matrices.DetTransposed | C++/matrix.hh:282-300 | transposing does not change the determinant |
| Matrices.Det2Product | C++/matrix.hh:282-285 | the 2×2 determinant is multiplicative: det(a·b) = det(a)·det(b) |

## Left out

- Stacks.Stack.Allocate: requires the new capacity to be at least the current
  size. Without that, the source leaves the size larger than the capacity, and
  no stack invariant survives.
- Stacks.Stack.AllocateShortCopy: has the same precondition as `Allocate`. It
  states only the whole slots that are carried over. A partly copied slot
  (`k mod sizeof(T)` bytes) is byte-level state that the model does not have.
- Stacks.Stack.constructor: builds the buffer directly rather than through
  `allocate`. With no old buffer, `allocate` only allocates.
- The copy constructor, `operator=` and the destructor of `Stack` are left out.
  - They manage the C++ heap: `operator=` frees the old buffer first, the
    adopted buffer is also freed by the local copy, and the copy constructor
    reads an uninitialised pointer.
  - Only the value semantics of `copy()` are modelled.
- Memory allocation, `delete[]`, the contents of uninitialised slots, and the
  byte-level `memcpy`/`memset`/`memcmp` are left out. They become elementwise
  copy, zero-fill and comparison.
- Index widths are not modelled: `size_t` versus `unsigned`, the `(int)(n+1)`
  and `long long` casts in `pick` and `roll`, and every 32-bit `int`. Integers
  are unbounded, so no overflow or wrap-around is modelled.
- Vectors.Vector.FromArray: requires the array to have at least N items. The
  source reads past a shorter one.
- Vectors.Vector.Divide, Vectors.Vector.Over and Matrices.Matrix.Divide:
  require a non-zero divisor. Division by zero is undefined in C++.
- Matrices.Matrix.FromList: requires a non-empty list when R > 0, and C ≤ R.
  The source dereferences the end of an empty list and reads past each
  R-element vector when C > R. Rows after the list ends are left uninitialised
  by the source, so the model says nothing about them.
- The floating-point members of `Vector` are left out: `magnitude`,
  `normalize`, `angle` and `project`. They need `sqrt`, `acos` and real
  division.
- The scalar-type casts of both classes are left out, and so is the combined
  cast to a different size and scalar type.
- The accessors `elem`, `operator[]` and `x`/`y`/`z`/`w` are left out. The
  model indexes the array directly.
- Unary `operator+` returns a plain copy and is left out.
- `operator==` and `operator!=` are `equals` and its negation (`Vectors.Equals`,
  `Matrices.Equals`).
- The compound assignments `+=`, `-=`, `*=` and `/=` are the in-place members
  themselves.
- The `Matrix` operators `+`, `-`, `*` and `/` are not modelled separately. They
  copy and then call the in-place member, exactly as the `Vector` operators do,
  and those are modelled.
- Matrix by matrix `operator*`, matrix by vector `operator*` and
  `operator*=` are not modelled separately. They go through
  `MultiplyMatrix` and `FromColumn`.
- `Matrix::reciprocal` and `operator~` are left out, because the source does
  not implement them: they return the matrix itself.
- The `Matrix` constructor from an array of column vectors and the cast from
  `Matrix` to `Vector` are left out. The first indexes a const vector through a
  non-const operator, so the compiler would reject it if it were instantiated.
- `C++/Complex.hh`, `C++/complex.hh` and `C++/const.h` are not part of this
  model. They are floating-point and transcendental arithmetic only.

## Findings

| source | as written | input that shows it | evidently intended | confidence | as-written member | corrected member |
|---|---|---|---|---|---|---|
| C++/stack.hh:66 | When `allocate` shrinks the buffer, the length passed to the copy is the new capacity counted in bytes, not in elements. The multiplication by the element size applies only to the growing branch. | A stack of 4-byte `int`, capacity 4, holding 2 values, then `allocate(2)`: 2 bytes are copied and no whole element survives (`Stacks.ShortCopyExample`). | Copy `min(capacity, k)` elements, as `C++/Stack.hh:67` does, so the live elements survive any resize that keeps them. | not executed | Stacks.Stack.AllocateShortCopy, Stacks.ShortCopyLosesSlots | Stacks.Stack.Allocate |
