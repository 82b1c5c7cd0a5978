/** The sequence generator of main.py: the first n Fibonacci numbers. */
module Fibonacci {

  /** The domain error `fibonacci` raises (a ValueError in the program). */
  datatype Error = InvalidArgument(message: string)

  /** A list of numbers, or the error that was raised instead. */
  datatype Result<T> = Ok(value: T) | Err(error: Error)

  const NegativeMessage: string := "n must be non-negative"

  /** The k-th Fibonacci number, counting from Fib(0) == 0 and Fib(1) == 1. */
  function Fib(k: nat): nat
  {
    if k == 0 then 0 else if k == 1 then 1 else Fib(k - 1) + Fib(k - 2)
  }

  /** The first n Fibonacci numbers: the reference the generator is proved against. */
  function FirstFibs(n: nat): seq<int>
  {
    seq(n, k requires 0 <= k => Fib(k))
  }

  /** The shape the program promises: it starts 0, 1 and every later element
      is the sum of the two before it. */
  predicate FibonacciShaped(s: seq<int>)
  {
    && (|s| >= 1 ==> s[0] == 0)
    && (|s| >= 2 ==> s[1] == 1)
    && (forall k :: 2 <= k < |s| ==> s[k] == s[k - 1] + s[k - 2])
  }

  /** A list has the Fibonacci shape exactly when it lists the first Fibonacci
      numbers: the recurrence determines the list from its length alone. */
  lemma {:induction false} ShapedIffFirstFibs(s: seq<int>)
    ensures FibonacciShaped(s) <==> s == FirstFibs(|s|)
  {
    if FibonacciShaped(s) {
      ShapedElementsAreFib(s, |s|);
    }
  }

  /** Every element of a Fibonacci-shaped list below bound i is a Fibonacci number. */
  lemma {:induction false} ShapedElementsAreFib(s: seq<int>, i: nat)
    requires FibonacciShaped(s)
    requires i <= |s|
    ensures forall k :: 0 <= k < i ==> s[k] == Fib(k)
  {
    if i > 0 {
      ShapedElementsAreFib(s, i - 1);
      var k := i - 1;
      if k >= 2 {
        assert s[k] == s[k - 1] + s[k - 2];
      }
    }
  }

  /** Appending the sum of the last two of the first i Fibonacci numbers
      gives the first i + 1. */
  lemma AppendNextFib(i: nat)
    requires i >= 2
    ensures var s := FirstFibs(i); s + [s[i - 1] + s[i - 2]] == FirstFibs(i + 1)
  {
  }

  /** Models `fibonacci(n)`: rejects a negative n, answers [] for 0 and [0]
      for 1, and otherwise extends [0, 1] by the sum of its last two elements
      until it holds n numbers. */
  method FibonacciList(n: int) returns (r: Result<seq<int>>)
    ensures r.Err? <==> n < 0
    ensures r.Err? ==> r.error == InvalidArgument(NegativeMessage)
    ensures r.Ok? ==> |r.value| == n && FibonacciShaped(r.value)
    ensures r.Ok? ==> r.value == FirstFibs(n)
  {
    if n < 0 {
      return Err(InvalidArgument(NegativeMessage));
    }
    if n == 0 {
      return Ok([]);
    }
    if n == 1 {
      return Ok([0]);
    }
    var s: seq<int> := [0, 1];
    for i := 2 to n
      invariant s == FirstFibs(i)
    {
      AppendNextFib(i);
      s := s + [s[|s| - 1] + s[|s| - 2]];
    }
    ShapedIffFirstFibs(s);
    return Ok(s);
  }

  /** The examples of the docstring of `fibonacci`, and the empty list for 0. */
  lemma DocumentedExamples()
    ensures FirstFibs(0) == []
    ensures FirstFibs(1) == [0]
    ensures FirstFibs(5) == [0, 1, 1, 2, 3]
  {
    var s := FirstFibs(5);
    assert s[2] == Fib(2) == 1;
    assert s[3] == Fib(3) == 2;
    assert s[4] == Fib(4) == 3;
  }
}
