/**
 * Laboratory 3: three ways of computing Fibonacci numbers and the decorator
 * that collects func(n), func(n - 1), ..., func(0). The recursive `fib` is
 * the specification; the iterative loop and the memoised recursion are
 * proved against it.
 */
module Fibonacci {

  /** fib: n itself for n <= 1, otherwise the sum of the two before. A
      negative argument is returned unchanged. From 1 on every value is
      positive. */
  function Fib(n: int): (r: int)
    ensures n >= 0 ==> r >= 0
    ensures n >= 1 ==> r >= 1
    decreases if n < 0 then 0 else n
  {
    if n <= 1 then n else Fib(n - 1) + Fib(n - 2)
  }

  /** From 2 on, each value is at least the one before, and from 4 on it is
      strictly larger. */
  lemma {:induction false} FibGrows(n: int)
    requires n >= 2
    ensures Fib(n - 1) <= Fib(n)
    ensures n >= 4 ==> Fib(n - 1) < Fib(n)
  {
    if n >= 3 {
      FibGrows(n - 1);
    }
  }

  /** fib(n) is at least n - 1 for n >= 1. */
  lemma {:induction false} FibAtLeast(n: int)
    requires n >= 1
    ensures Fib(n) >= n - 1
    decreases n
  {
    if n >= 3 {
      FibAtLeast(n - 1);
      FibGrows(n - 1);
    }
  }

  /** fibonacci_iterative, undecorated: 0 and 1 are returned as they are;
      otherwise the pair (old, new) starts at (0, 1) and is advanced n - 1
      times. A negative argument skips the loop and gives 1. */
  method FibonacciIterative(n: int) returns (r: int, ghost iterations: nat)
    ensures n >= 0 ==> r == Fib(n)
    ensures n < 0 ==> r == 1
    ensures iterations == if n >= 2 then n - 1 else 0
  {
    var oldValue, newValue := 0, 1;
    iterations := 0;
    if n == 0 || n == 1 {
      return n, iterations;
    }
    var i := 0;
    while i < n - 1
      invariant n >= 2 ==> i <= n - 1
      invariant n < 0 ==> i == 0
      invariant oldValue == Fib(i) && newValue == Fib(i + 1)
      invariant iterations == i
    {
      oldValue, newValue := newValue, oldValue + newValue;
      i := i + 1;
      iterations := iterations + 1;
    }
    return newValue, iterations;
  }

  /** measurements_decorator's wrapper around a function without side
      effects: f applied to n, n - 1, ..., 0, in that order. A negative n
      gives the empty list. */
  method Measure(n: int, f: int -> int) returns (result: seq<int>)
    ensures |result| == if n >= 0 then n + 1 else 0
    ensures forall i :: 0 <= i < |result| ==> result[i] == f(n - i)
  {
    result := [];
    var k := n;
    while k >= 0
      invariant if n >= 0 then -1 <= k <= n else k == n
      invariant |result| == n - k
      invariant forall i :: 0 <= i < |result| ==> result[i] == f(n - i)
      decreases k
    {
      result := result + [f(k)];
      k := k - 1;
    }
  }

  /** The decorated fibonacci_iterative: the wrapper's loop around the
      iterative method. Each entry is fib of its index counted down from n. */
  method MeasureIterative(n: int) returns (result: seq<int>)
    ensures |result| == if n >= 0 then n + 1 else 0
    ensures forall i :: 0 <= i < |result| ==> result[i] == Fib(n - i)
  {
    result := [];
    var k := n;
    while k >= 0
      invariant if n >= 0 then -1 <= k <= n else k == n
      invariant |result| == n - k
      invariant forall i :: 0 <= i < |result| ==> result[i] == Fib(n - i)
      decreases k
    {
      var value, _ := FibonacciIterative(k);
      result := result + [value];
      k := k - 1;
    }
  }

  /** A memory whose keys are exactly 0..top, each mapped to its Fibonacci
      number. */
  ghost predicate Memoised(memory: map<int, int>, top: int)
  {
    && top >= 1
    && (forall k :: k in memory <==> 0 <= k <= top)
    && forall k :: k in memory ==> memory[k] == Fib(k)
  }

  /** Storing fib(top + 1) under top + 1 extends such a memory by one key. */
  lemma StoreNext(memory: map<int, int>, top: int, value: int)
    requires Memoised(memory, top) && value == Fib(top + 1)
    ensures Memoised(memory[top + 1 := value], top + 1)
    ensures forall k :: k in memory ==> memory[top + 1 := value][k] == memory[k]
  {
  }

  /** A memory that grows from top t0 to top t1 keeps every entry it had. */
  lemma MemoisedGrows(m0: map<int, int>, t0: int, m1: map<int, int>, t1: int)
    requires Memoised(m0, t0) && Memoised(m1, t1) && t0 <= t1
    ensures forall k :: k in m0 ==> k in m1 && m1[k] == m0[k]
  {
  }

  /** The module-level `memory` dictionary of fibonacci_memory. Its keys are
      always 0 up to some top, each mapped to its Fibonacci number. */
  class Memory {
    var memory: map<int, int>
    ghost var top: int

    ghost predicate Valid()
      reads this
    {
      Memoised(memory, top)
    }

    /** memory = {0: 0, 1: 1} */
    constructor ()
      ensures Valid()
      ensures memory == map[0 := 0, 1 := 1]
    {
      memory := map[0 := 0, 1 := 1];
      top := 1;
    }

    /** fib_memory: a stored value is returned; otherwise n - 1 and n - 2
        are computed first and their sum is stored under n. The result is
        fib(n); every older entry is kept unchanged, and afterwards every
        k in 0..n is a key. */
    method FibMemory(n: int) returns (r: int)
      requires Valid() && n >= 0
      modifies this
      ensures Valid()
      ensures r == Fib(n)
      ensures forall k :: k in old(memory) ==> k in memory && memory[k] == old(memory)[k]
      ensures top == if n > old(top) then n else old(top)
      ensures forall k :: 0 <= k <= n ==> k in memory
      decreases n
    {
      if n in memory {
        return memory[n];
      }
      assert n > top >= 1;
      var a := FibMemory(n - 1);
      assert top == n - 1;
      var b := FibMemory(n - 2);
      assert top == n - 1;
      StoreNext(memory, top, a + b);
      memory := memory[n := a + b];
      top := n;
      MemoisedGrows(old(memory), old(top), memory, top);
      return a + b;
    }

    /** The decorated fibonacci_memory: the wrapper's loop around fib_memory,
        sharing one memory across all calls. */
    method MeasureMemory(n: int) returns (result: seq<int>)
      requires Valid()
      modifies this
      ensures Valid()
      ensures |result| == if n >= 0 then n + 1 else 0
      ensures forall i :: 0 <= i < |result| ==> result[i] == Fib(n - i)
      ensures forall k :: k in old(memory) ==> k in memory && memory[k] == old(memory)[k]
      ensures top == if n > old(top) then n else old(top)
      ensures forall k :: 0 <= k <= n ==> k in memory
    {
      result := [];
      var k := n;
      while k >= 0
        invariant Valid()
        invariant if n >= 0 then -1 <= k <= n else k == n
        invariant |result| == n - k
        invariant forall i :: 0 <= i < |result| ==> result[i] == Fib(n - i)
        invariant forall j :: j in old(memory) ==> j in memory && memory[j] == old(memory)[j]
        invariant top == if k < n && n > old(top) then n else old(top)
        decreases k
      {
        var value := FibMemory(k);
        result := result + [value];
        k := k - 1;
      }
    }
  }
}
