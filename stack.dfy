/**
  The bounded stack `Stack<T>`: a buffer of `capacity` slots, a top-of-stack
  offset (`size`), push/pop with overflow and underflow errors, the positional
  primitives `pick` and `roll`, and the Forth words built on them.

  Live elements are written bottom first, so the top is the LAST element of a
  sequence, and "depth n" counts down from the top (depth 0 is the top).
*/
module Stacks {

  datatype StackError = Overflow | Underflow

  /** Outcome of an operation the source declares `void` but which may throw. */
  datatype Status = Done | Failed(error: StackError)

  /** Outcome of an operation that returns a value or throws. */
  datatype Result<T> = Ok(value: T) | Err(error: StackError)

  function Min(a: nat, b: nat): nat { if a < b then a else b }

  // ---------------------------------------------------------------------------
  // Specification on the live elements
  // ---------------------------------------------------------------------------

  /** The element at depth `n`. */
  function At<T>(s: seq<T>, n: nat): T
    requires n < |s|
  {
    s[|s| - 1 - n]
  }

  /** The live elements after `pick(n)`: a copy of the depth-`n` element is the new top. */
  function Picked<T>(s: seq<T>, n: nat): seq<T>
    requires n < |s|
  {
    s + [At(s, n)]
  }

  /** The live elements after `roll(n)`: the depth-`n` element is taken out and put on top. */
  function Rolled<T>(s: seq<T>, n: nat): seq<T>
    requires n < |s|
  {
    s[..|s| - 1 - n] + s[|s| - n..] + [At(s, n)]
  }

  /** What `pick(n)` and `roll(n)` report on a stack of `size` live elements and `cap` slots. */
  function PickStatus(size: nat, cap: nat, n: nat): Status
  {
    if size <= n then Failed(Underflow)
    else if size >= cap then Failed(Overflow)
    else Done
  }

  /** `roll(n)` keeps the size, puts the depth-`n` element on top, shifts the
      `n` elements above it down by one and leaves the ones below it in place. */
  lemma RolledShifts<T>(s: seq<T>, n: nat)
    requires n < |s|
    ensures |Rolled(s, n)| == |s|
    ensures Rolled(s, n)[|s| - 1] == At(s, n)
    ensures forall i :: 0 <= i < |s| - 1 - n ==> Rolled(s, n)[i] == s[i]
    ensures forall i :: |s| - 1 - n <= i < |s| - 1 ==> Rolled(s, n)[i] == s[i + 1]
  {
  }

  /** The buffer after the shifting loop of `roll(n)`: the slots from the
      depth-`n` one up to just below the new top each took the value above
      them, so the live part is `Rolled` and the moved element is left above it. */
  lemma ShiftedIsRolled<T>(b: seq<T>, mid: seq<T>, live: seq<T>, rest: seq<T>, n: nat)
    requires n < |live| && mid == live + [At(live, n)] + rest && |b| == |mid|
    requires forall k :: 0 <= k < |live| - 1 - n ==> b[k] == mid[k]
    requires forall k :: |live| - 1 - n <= k < |live| ==> b[k] == mid[k + 1]
    requires forall k :: |live| <= k < |b| ==> b[k] == mid[k]
    ensures b[..|live|] == Rolled(live, n)
    ensures b == Rolled(live, n) + [At(live, n)] + rest
  {
    RolledShifts(live, n);
    assert b[..|live|] == Rolled(live, n);
  }

  /** `roll(n)` only reorders: the live elements are a permutation of the old ones. */
  lemma RolledIsPermutation<T>(s: seq<T>, n: nat)
    requires n < |s|
    ensures multiset(Rolled(s, n)) == multiset(s)
  {
    var k := |s| - 1 - n;
    assert s == s[..k] + [s[k]] + s[k + 1..];
    assert Rolled(s, n) == s[..k] + s[k + 1..] + [s[k]];
  }

  /** `roll(0)` changes nothing. */
  lemma RollZeroIsIdentity<T>(s: seq<T>)
    requires 0 < |s|
    ensures Rolled(s, 0) == s
  {
  }

  /** `dup`: ( x -- x x ). */
  lemma DupEffect<T>(p: seq<T>, x: T)
    ensures Picked(p + [x], 0) == p + [x, x]
  {
  }

  /** `over`: ( x y -- x y x ). */
  lemma OverEffect<T>(p: seq<T>, x: T, y: T)
    ensures Picked(p + [x, y], 1) == p + [x, y, x]
  {
  }

  /** `swap`: ( x y -- y x ). */
  lemma SwapEffect<T>(p: seq<T>, x: T, y: T)
    ensures Rolled(p + [x, y], 1) == p + [y, x]
  {
    var s := p + [x, y];
    assert s[..|s| - 2] == p;
    assert s[|s| - 1..] == [y];
  }

  /** `rot`: ( x y z -- y z x ). */
  lemma RotEffect<T>(p: seq<T>, x: T, y: T, z: T)
    ensures Rolled(p + [x, y, z], 2) == p + [y, z, x]
  {
    var s := p + [x, y, z];
    assert s[..|s| - 3] == p;
    assert s[|s| - 2..] == [y, z];
  }

  /** `nip` is `swap` then `drop`: ( x y -- y ). */
  lemma NipEffect<T>(p: seq<T>, x: T, y: T)
    ensures Rolled(p + [x, y], 1)[..|p| + 1] == p + [y]
  {
    SwapEffect(p, x, y);
  }

  /** `tuck` is `swap` then `over`: ( x y -- y x y ). */
  lemma TuckEffect<T>(p: seq<T>, x: T, y: T)
    ensures Picked(Rolled(p + [x, y], 1), 1) == p + [y, x, y]
  {
    SwapEffect(p, x, y);
    OverEffect(p, y, x);
  }

  // ---------------------------------------------------------------------------
  // memcpy on slots
  // ---------------------------------------------------------------------------

  /** Copies the first `count` slots of `src` into `dst`, as `std::memcpy` does
      for `count * sizeof(T)` bytes. */
  method CopySlots<T>(dst: array<T>, src: array<T>, count: nat)
    requires dst != src
    requires count <= dst.Length && count <= src.Length
    modifies dst
    ensures dst[..count] == src[..count]
    ensures dst[count..] == old(dst[count..])
  {
    var i := 0;
    while i < count
      invariant 0 <= i <= count
      invariant forall k :: 0 <= k < i ==> dst[k] == src[k]
      invariant forall k :: i <= k < dst.Length ==> dst[k] == old(dst[k])
    {
      dst[i] := src[i];
      i := i + 1;
    }
  }

  /** Whole slots that the `allocate` of C++/stack.hh carries over: its copy
      length `cap > k ? k : cap * sizeof(T)` is a count of BYTES, so on the
      shrinking branch only `k` bytes, that is `k / elemSize` whole slots, move. */
  function ShortCopyCount(cap: nat, k: nat, elemSize: nat): (r: nat)
    requires 1 <= elemSize
    ensures r <= Min(cap, k)
  {
    var bytes := if cap > k then k else cap * elemSize;
    ShortCopyBound(cap, k, elemSize, bytes);
    bytes / elemSize
  }

  lemma ShortCopyBound(cap: nat, k: nat, elemSize: nat, bytes: nat)
    requires 1 <= elemSize && bytes == if cap > k then k else cap * elemSize
    ensures bytes / elemSize <= Min(cap, k)
  {
    if cap > k {
      DivAtMost(k, elemSize);
    } else {
      MulDivCancels(cap, elemSize);
    }
  }

  lemma DivAtMost(k: nat, d: nat)
    requires 1 <= d
    ensures k / d <= k
  {
    var q, r := k / d, k % d;
    assert k == q * d + r && 0 <= q && 0 <= r;
    assert q * d == q * (d - 1) + q;
    assert q * (d - 1) >= 0;
  }

  lemma MulDivCancels(a: nat, b: nat)
    requires 1 <= b
    ensures (a * b) / b == a
  {
    var q, r := (a * b) / b, (a * b) % b;
    assert a * b == q * b + r && 0 <= r < b;
    assert (a - q) * b == r;
    OnlyZeroFitsBelow(a - q, b);
  }

  /** A multiple of `b` that lies in `[0, b)` is `0 * b`. */
  lemma OnlyZeroFitsBelow(x: int, b: nat)
    requires 1 <= b && 0 <= x * b < b
    ensures x == 0
  {
    if x >= 1 {
      MulAtLeast(x, b);
    } else if x <= -1 {
      MulAtMost(x, b);
    }
  }

  lemma MulAtLeast(x: int, b: nat)
    requires 1 <= x
    ensures x * b >= b
  {
    assert x * b == (x - 1) * b + b;
    assert (x - 1) * b >= 0;
  }

  lemma MulAtMost(x: int, b: nat)
    requires x <= -1
    ensures x * b + b <= 0
  {
    assert x * b == (x + 1) * b - b;
    assert (x + 1) * b <= 0;
  }

  /** When growing, the byte count of C++/stack.hh is right: every old slot moves. */
  lemma ShortCopyGrowKeepsAll(cap: nat, k: nat, elemSize: nat)
    requires 1 <= elemSize && cap <= k
    ensures ShortCopyCount(cap, k, elemSize) == cap
  {
    MulDivCancels(cap, elemSize);
  }

  /** When shrinking an element type wider than one byte, slots that should be
      kept are lost: fewer than `min(cap, k)` slots move. */
  lemma ShortCopyLosesSlots(cap: nat, k: nat, elemSize: nat)
    requires 2 <= elemSize && 1 <= k < cap
    ensures ShortCopyCount(cap, k, elemSize) < Min(cap, k)
  {
    assert k / elemSize < k by {
      DivShrinks(k, elemSize);
    }
  }

  lemma DivShrinks(k: nat, d: nat)
    requires 2 <= d && 1 <= k
    ensures k / d < k
  {
    var q, r := k / d, k % d;
    assert k == q * d + r && 0 <= q && 0 <= r;
    assert q * d == q * (d - 2) + 2 * q;
    assert q * (d - 2) >= 0;
  }

  /** The concrete case: a stack of four 4-byte slots holding two live values,
      shrunk to capacity 2, keeps none of them. */
  lemma ShortCopyExample()
    ensures ShortCopyCount(4, 2, 4) == 0
  {
  }

  // ---------------------------------------------------------------------------
  // The stack object
  // ---------------------------------------------------------------------------

  class Stack<T(0)> {
    /** The buffer `_base`. */
    var base: array<T>
    /** The top-of-stack offset `_pointer - _base`. */
    var pointer: nat
    /** `_capacity`. */
    var cap: nat

    ghost predicate Valid()
      reads this
    {
      cap == base.Length && pointer <= cap
    }

    /** The live elements, bottom first. */
    function Live(): seq<T>
      reads this, base
      requires Valid()
    {
      base[..pointer]
    }

    /** `size()`: the offset of the top from the base, which is the number
        of live elements and never exceeds the capacity. */
    function Size(): (s: nat)
      reads this, base
      ensures Valid() ==> s == |Live()| && s <= Capacity()
    {
      pointer
    }

    /** `capacity()`: the number of slots in the buffer. */
    function Capacity(): (c: nat)
      reads this
      ensures Valid() ==> c == base.Length
    {
      cap
    }

    /** `Stack(size)`: an empty stack of exactly `n` slots. */
    constructor (n: nat)
      ensures Valid() && fresh(base)
      ensures Size() == 0 && Capacity() == n && Live() == []
    {
      base := new T[n];
      pointer := 0;
      cap := n;
    }

    /** `copy()`: a new stack with its own buffer, the same capacity, the same
        size and the same slot contents. */
    method Copy() returns (c: Stack<T>)
      requires Valid()
      ensures fresh(c) && fresh(c.base) && c.Valid()
      ensures c.Capacity() == Capacity() && c.Size() == Size()
      ensures c.base[..] == base[..] && c.Live() == Live()
    {
      c := new Stack(cap);
      CopySlots(c.base, base, cap);
      c.pointer := c.pointer + pointer;
    }

    /** `allocate(k)` of C++/Stack.hh: a fresh buffer of `k` slots that starts
        with the first `min(capacity, k)` old slots; the size is kept. */
    method Allocate(k: nat)
      requires Valid()
      requires pointer <= k
      modifies this
      ensures Valid() && fresh(base)
      ensures Capacity() == k && Size() == old(Size())
      ensures base[..Min(old(cap), k)] == old(base[..Min(cap, k)])
      ensures Live() == old(Live())
    {
      var memory := new T[k];
      var offset := pointer;
      CopySlots(memory, base, if cap > k then k else cap);
      base := memory;
      pointer := offset;
      cap := k;
    }

    /** `allocate(k)` of C++/stack.hh as written, with `elemSize` standing for
        `sizeof(T)`: only `ShortCopyCount` whole slots reach the new buffer. */
    method AllocateShortCopy(k: nat, elemSize: nat)
      requires Valid()
      requires pointer <= k && 1 <= elemSize
      modifies this
      ensures Valid() && fresh(base)
      ensures Capacity() == k && Size() == old(Size())
      ensures base[..ShortCopyCount(old(cap), k, elemSize)]
           == old(base[..ShortCopyCount(cap, k, elemSize)])
    {
      var memory := new T[k];
      var offset := pointer;
      var bytes := if cap > k then k else cap * elemSize;
      assert bytes / elemSize == ShortCopyCount(cap, k, elemSize);
      CopySlots(memory, base, bytes / elemSize);
      base := memory;
      pointer := offset;
      cap := k;
    }

    /** `clear()`: no live elements; buffer and capacity untouched. */
    method Clear()
      requires Valid()
      modifies this`pointer
      ensures Valid() && Size() == 0 && Live() == []
      ensures Capacity() == old(Capacity()) && base == old(base)
    {
      pointer := 0;
    }

    /** `push(x)`: overflow on a full stack, otherwise `x` is stored at the top offset. */
    method Push(x: T) returns (st: Status)
      requires Valid()
      modifies this`pointer, base
      ensures Valid() && base == old(base) && cap == old(cap)
      ensures st == if old(pointer) >= cap then Failed(Overflow) else Done
      ensures st.Failed? ==> pointer == old(pointer) && base[..] == old(base[..])
      ensures st.Done? ==> pointer == old(pointer) + 1 && base[..] == old(base[..])[old(pointer) := x]
      ensures st.Done? ==> Live() == old(Live()) + [x]
    {
      if pointer >= cap {
        return Failed(Overflow);
      }
      base[pointer] := x;
      pointer := pointer + 1;
      st := Done;
    }

    /** `pop()`: underflow on an empty stack, otherwise the top is removed and returned. */
    method Pop() returns (r: Result<T>)
      requires Valid()
      modifies this`pointer
      ensures Valid() && base == old(base) && cap == old(cap)
      ensures r == if old(pointer) == 0 then Err(Underflow) else Ok(old(base[pointer - 1]))
      ensures pointer == if old(pointer) == 0 then 0 else old(pointer) - 1
      ensures r.Ok? ==> Live() + [r.value] == old(Live())
    {
      if pointer <= 0 {
        return Err(Underflow);
      }
      pointer := pointer - 1;
      r := Ok(base[pointer]);
    }

    /** `pick(n)`: underflow if `size <= n`, otherwise the depth-`n` element is
        pushed (so overflow on a full stack). */
    method Pick(n: nat) returns (st: Status)
      requires Valid()
      modifies this`pointer, base
      ensures Valid() && base == old(base) && cap == old(cap)
      ensures st == PickStatus(old(pointer), cap, n)
      ensures st.Failed? ==> pointer == old(pointer) && base[..] == old(base[..])
      ensures st.Done? ==> Live() == Picked(old(Live()), n)
      ensures st.Done? ==> base[..] == old(base[..])[old(pointer) := At(old(Live()), n)]
    {
      if pointer <= n {
        return Failed(Underflow);
      }
      st := Push(base[pointer - 1 - n]);
    }

    /** `roll(n)`: `pick(n)`, then every slot from the old depth-`n` slot up to
        below the new top takes the value of the slot above it, then `drop`. */
    method Roll(n: nat) returns (st: Status)
      requires Valid()
      modifies this`pointer, base
      ensures Valid() && base == old(base) && cap == old(cap)
      ensures st == PickStatus(old(pointer), cap, n)
      ensures st.Failed? ==> pointer == old(pointer) && base[..] == old(base[..])
      ensures st.Done? ==> Live() == Rolled(old(Live()), n)
      ensures st.Done? ==> base[..] == Rolled(old(Live()), n) + [At(old(Live()), n)] + old(base[..])[old(pointer) + 1..]
    {
      ghost var live := Live();
      ghost var s := pointer;
      st := Pick(n);
      if st.Failed? {
        return;
      }
      ghost var mid := base[..];
      ghost var lo := s - 1 - n;
      assert mid == live + [At(live, n)] + old(base[..])[s + 1..];
      var i: int := -(n + 2);
      while i <= -2
        invariant -(n + 2) <= i <= -1
        invariant pointer == s + 1 && base == old(base) && Valid()
        invariant forall k :: 0 <= k < lo ==> base[k] == mid[k]
        invariant forall k :: lo <= k < pointer + i ==> base[k] == mid[k + 1]
        invariant forall k :: pointer + i <= k < base.Length ==> base[k] == mid[k]
      {
        base[pointer + i] := base[pointer + i + 1];
        i := i + 1;
      }
      st := Drop();
      ShiftedIsRolled(base[..], mid, live, old(base[..])[s + 1..], n);
    }

    /** `peek()`: `pop()` then `push()` of the same value; the state is as before. */
    method Peek() returns (r: Result<T>)
      requires Valid()
      modifies this`pointer, base
      ensures Valid() && base == old(base) && cap == old(cap)
      ensures r == if old(pointer) == 0 then Err(Underflow) else Ok(At(old(Live()), 0))
      ensures pointer == old(pointer) && base[..] == old(base[..])
    {
      r := Pop();
      if r.Err? {
        return;
      }
      var st := Push(r.value);
    }

    /** `dup`: ( x -- x x ), i.e. `pick(0)`. */
    method Dup() returns (st: Status)
      requires Valid()
      modifies this`pointer, base
      ensures Valid() && base == old(base) && cap == old(cap)
      ensures st == PickStatus(old(pointer), cap, 0)
      ensures st.Failed? ==> pointer == old(pointer) && base[..] == old(base[..])
      ensures st.Done? ==> Live() == old(Live()) + [old(Live())[old(pointer) - 1]]
      ensures st.Done? ==> base[..] == old(base[..])[old(pointer) := old(Live())[old(pointer) - 1]]
    {
      st := Pick(0);
    }

    /** `drop`: ( x -- ), i.e. `pop()` with the value discarded. */
    method Drop() returns (st: Status)
      requires Valid()
      modifies this`pointer
      ensures Valid() && base == old(base) && cap == old(cap)
      ensures st == if old(pointer) == 0 then Failed(Underflow) else Done
      ensures pointer == if old(pointer) == 0 then 0 else old(pointer) - 1
      ensures st.Done? ==> Live() == old(Live())[..old(pointer) - 1]
    {
      var r := Pop();
      st := if r.Ok? then Done else Failed(r.error);
    }

    /** `swap`: ( x y -- y x ), i.e. `roll(1)`. */
    method Swap() returns (st: Status)
      requires Valid()
      modifies this`pointer, base
      ensures Valid() && base == old(base) && cap == old(cap)
      ensures st == PickStatus(old(pointer), cap, 1)
      ensures st.Failed? ==> pointer == old(pointer) && base[..] == old(base[..])
      ensures st.Done? ==> pointer == old(pointer)
      ensures st.Done? ==> Live() == old(Live())[..pointer - 2] + [old(Live())[pointer - 1], old(Live())[pointer - 2]]
      ensures st.Done? ==> base[..] == Live() + [old(Live())[pointer - 2]] + old(base[..])[pointer + 1..]
    {
      ghost var live := Live();
      st := Roll(1);
      if st.Done? {
        SwapEffect(live[..|live| - 2], live[|live| - 2], live[|live| - 1]);
        assert live == live[..|live| - 2] + [live[|live| - 2], live[|live| - 1]];
      }
    }

    /** `over`: ( x y -- x y x ), i.e. `pick(1)`. */
    method Over() returns (st: Status)
      requires Valid()
      modifies this`pointer, base
      ensures Valid() && base == old(base) && cap == old(cap)
      ensures st == PickStatus(old(pointer), cap, 1)
      ensures st.Failed? ==> pointer == old(pointer) && base[..] == old(base[..])
      ensures st.Done? ==> Live() == old(Live()) + [old(Live())[old(pointer) - 2]]
      ensures st.Done? ==> base[..] == old(base[..])[old(pointer) := old(Live())[old(pointer) - 2]]
    {
      st := Pick(1);
    }

    /** `rot`: ( x y z -- y z x ), i.e. `roll(2)`. */
    method Rot() returns (st: Status)
      requires Valid()
      modifies this`pointer, base
      ensures Valid() && base == old(base) && cap == old(cap)
      ensures st == PickStatus(old(pointer), cap, 2)
      ensures st.Failed? ==> pointer == old(pointer) && base[..] == old(base[..])
      ensures st.Done? ==> pointer == old(pointer)
      ensures st.Done? ==> Live() == old(Live())[..pointer - 3] + [old(Live())[pointer - 2], old(Live())[pointer - 1], old(Live())[pointer - 3]]
      ensures st.Done? ==> base[..] == Live() + [old(Live())[pointer - 3]] + old(base[..])[pointer + 1..]
    {
      ghost var live := Live();
      st := Roll(2);
      if st.Done? {
        var k := |live|;
        RotEffect(live[..k - 3], live[k - 3], live[k - 2], live[k - 1]);
        assert live == live[..k - 3] + [live[k - 3], live[k - 2], live[k - 1]];
      }
    }

    /** `nip`: ( x y -- y ), i.e. `swap` then `drop`. */
    method Nip() returns (st: Status)
      requires Valid()
      modifies this`pointer, base
      ensures Valid() && base == old(base) && cap == old(cap)
      ensures st == PickStatus(old(pointer), cap, 1)
      ensures st.Failed? ==> pointer == old(pointer) && base[..] == old(base[..])
      ensures st.Done? ==> pointer == old(pointer) - 1
      ensures st.Done? ==> Live() == old(Live())[..old(pointer) - 2] + [old(Live())[old(pointer) - 1]]
      ensures st.Done? ==> base[..] == Live() + [old(Live())[old(pointer) - 2], old(Live())[old(pointer) - 2]] + old(base[..])[old(pointer) + 1..]
    {
      st := Swap();
      if st.Done? {
        st := Drop();
      }
    }

    /** `tuck`: ( x y -- y x y ), i.e. `swap` then `over`. */
    method Tuck() returns (st: Status)
      requires Valid()
      modifies this`pointer, base
      ensures Valid() && base == old(base) && cap == old(cap)
      ensures st == PickStatus(old(pointer), cap, 1)
      ensures st.Failed? ==> pointer == old(pointer) && base[..] == old(base[..])
      ensures st.Done? ==> pointer == old(pointer) + 1
      ensures st.Done? ==> Live() == old(Live())[..old(pointer) - 2] + [old(Live())[old(pointer) - 1], old(Live())[old(pointer) - 2], old(Live())[old(pointer) - 1]]
      ensures st.Done? ==> base[..] == Live() + old(base[..])[old(pointer) + 1..]
    {
      st := Swap();
      if st.Done? {
        st := Over();
      }
    }
  }
}
