/**
  What a caller of `Stack<T>` can rely on, shown with the stack's own
  operations: the last-in-first-out law, the independence of a copy, and the
  effect of each Forth word on a small concrete stack.
*/
module StackScenarios {
  import opened Stacks

  function Reversed<T>(s: seq<T>): seq<T>
  {
    if s == [] then [] else Reversed(s[1..]) + [s[0]]
  }

  /** Pushing `xs` onto a stack with room for them, then popping as many times,
      yields `xs` in reverse order. */
  method LastInFirstOut<T(0)>(xs: seq<T>) returns (ys: seq<T>)
    ensures ys == Reversed(xs)
  {
    var s := new Stack<T>(|xs|);
    var i := 0;
    while i < |xs|
      invariant 0 <= i <= |xs|
      invariant s.Valid() && s.Capacity() == |xs| && s.Live() == xs[..i]
      invariant fresh(s) && fresh(s.base)
    {
      var st := s.Push(xs[i]);
      assert xs[..i + 1] == xs[..i] + [xs[i]];
      i := i + 1;
    }
    ys := [];
    while i > 0
      invariant 0 <= i <= |xs|
      invariant s.Valid() && s.Live() == xs[..i]
      invariant ys == Reversed(xs[i..])
    {
      var r := s.Pop();
      assert xs[i - 1..] == [xs[i - 1]] + xs[i..];
      ys := ys + [r.value];
      i := i - 1;
    }
  }

  /** Pushing onto a copy leaves the original stack as it was. */
  method CopyIsIndependent<T(0)>(xs: seq<T>, x: T) returns (original: seq<T>, copied: seq<T>)
    ensures original == xs && copied == xs + [x]
  {
    var s := new Stack<T>(|xs| + 1);
    var i := 0;
    while i < |xs|
      invariant 0 <= i <= |xs|
      invariant s.Valid() && s.Capacity() == |xs| + 1 && s.Live() == xs[..i]
      invariant fresh(s) && fresh(s.base)
    {
      var st := s.Push(xs[i]);
      assert xs[..i + 1] == xs[..i] + [xs[i]];
      i := i + 1;
    }
    var c := s.Copy();
    var st := c.Push(x);
    original, copied := s.Live(), c.Live();
  }

  /** A stack of capacity 4 holding `xs`. */
  method Holding(xs: seq<int>) returns (s: Stack<int>)
    requires |xs| <= 4
    ensures fresh(s) && fresh(s.base) && s.Valid() && s.Capacity() == 4 && s.Live() == xs
  {
    s := new Stack<int>(4);
    var i := 0;
    while i < |xs|
      invariant 0 <= i <= |xs|
      invariant s.Valid() && s.Capacity() == 4 && s.Live() == xs[..i]
      invariant fresh(s) && fresh(s.base)
    {
      var st := s.Push(xs[i]);
      assert xs[..i + 1] == xs[..i] + [xs[i]];
      i := i + 1;
    }
  }

  /** `dup` on 1 2 gives 1 2 2. */
  method DupScenario() returns (after: seq<int>)
    ensures after == [1, 2, 2]
  {
    var s := Holding([1, 2]);
    var st := s.Dup();
    after := s.Live();
  }

  /** `swap` on 1 2 3 gives 1 3 2. */
  method SwapScenario() returns (after: seq<int>)
    ensures after == [1, 3, 2]
  {
    var s := Holding([1, 2, 3]);
    var st := s.Swap();
    after := s.Live();
  }

  /** `over` on 1 2 gives 1 2 1. */
  method OverScenario() returns (after: seq<int>)
    ensures after == [1, 2, 1]
  {
    var s := Holding([1, 2]);
    var st := s.Over();
    after := s.Live();
  }

  /** `rot` on 1 2 3 gives 2 3 1. */
  method RotScenario() returns (after: seq<int>)
    ensures after == [2, 3, 1]
  {
    var s := Holding([1, 2, 3]);
    var st := s.Rot();
    after := s.Live();
  }

  /** `nip` on 1 2 3 gives 1 3. */
  method NipScenario() returns (after: seq<int>)
    ensures after == [1, 3]
  {
    var s := Holding([1, 2, 3]);
    var st := s.Nip();
    after := s.Live();
  }

  /** `tuck` on 1 2 gives 2 1 2. */
  method TuckScenario() returns (after: seq<int>)
    ensures after == [2, 1, 2]
  {
    var s := Holding([1, 2]);
    var st := s.Tuck();
    after := s.Live();
  }

  /** On a full stack even `swap` fails: `roll` goes through `pick`, which pushes. */
  method SwapOnFullStack() returns (st: Status, after: seq<int>)
    ensures st == Failed(Overflow) && after == [1, 2, 3, 4]
  {
    var s := Holding([1, 2, 3, 4]);
    st := s.Swap();
    after := s.Live();
  }
}
