# Fibonacci and primes, verified

A Dafny model of the numeric core of `main.py`, a small command-line utility
used as a placeholder workload for a CI pipeline. The core is three
functions:

- `fibonacci(n)`: the first `n` Fibonacci numbers. A negative `n` raises a
  `ValueError` with the message "n must be non-negative"; 0 gives `[]`, 1
  gives `[0]`; otherwise the list `[0, 1]` is extended with the sum of its
  last two elements until it holds `n` numbers.
- `is_prime(x)`: trial division with a 6k±1 wheel. It rejects `x <= 1`,
  accepts 2 and 3, rejects multiples of 2 and 3, and then tests `i` and
  `i + 2` for `i = 5, 11, 17, ...` while `i * i <= x`.
- `primes_up_to(n)`: `[]` for `n < 2`, otherwise the integers `2..n` that
  pass `is_prime`, in ascending order.

Module `Fibonacci` (fibonacci.dfy) models the sequence generator as the
method `FibonacciList`. It keeps the source's loop over a local list and
returns a `Result`: either the list or `InvalidArgument` with the source's
message. The method is proved equal to the reference `FirstFibs(n)`, which
lists `Fib(0) .. Fib(n - 1)`. A lemma shows that the Fibonacci recurrence
pins a list down completely, so the recurrence the source relies on says the
same thing as the reference.

Module `Primes` (primes.dfy) models the prime checker as the method `IsPrime`,
which keeps the wheel loop. Its result is proved equal to the predicate
`Prime` (naive trial division: `x > 1` and no `d` with `2 <= d < x` divides
`x`). The proof rests on two facts. First, a composite number has a divisor no
larger than its square root. Second, with `i = 6k + 5`, the skipped candidates
`i + 1`, `i + 3`, `i + 4` and `i + 5` are multiples of 2 or 3. The enumerator
is the function `PrimesUpTo`, the list comprehension as a value: it filters
`Range(2, n + 1)` by `Prime`. The method `PrimesUpToList` runs the
comprehension as the program does, calling `IsPrime` on each of 2..n in turn,
and is proved to return `PrimesUpTo(n)`. The lemmas show that the result
is strictly increasing and holds exactly the primes in `[2, n]`, and that it is
the only list with these properties.

Python integers are unbounded, so every number is a Dafny `int`, with no
wrap-around to model. Python's `%` floors, while Dafny's is Euclidean. The two
agree here because every `%` in the core has a positive divisor.

## Model

| member | source | states |
|---|---|---|
| `Fibonacci.FibonacciList` | main.py:30-47 | fails with `InvalidArgument("n must be non-negative")` exactly when `n < 0`; otherwise returns a list of length exactly `n` that starts 0, 1, in which each later element is the sum of the two before it, and which equals the first `n` Fibonacci numbers (`[]` for 0, `[0]` for 1) |
| `Fibonacci.AppendNextFib` | main.py:45-46 | appending the sum of the last two of the first `i` Fibonacci numbers (`seq[-1] + seq[-2]`) gives the first `i + 1` |
| `Fibonacci.ShapedIffFirstFibs` | main.py:44-46 | a list starts 0, 1 and obeys the recurrence exactly when it is the list of the first `|s|` Fibonacci numbers (both directions) |
| `Fibonacci.DocumentedExamples` | main.py:33-35 | the first 0, 1 and 5 Fibonacci numbers are `[]`, `[0]` and `[0, 1, 1, 2, 3]` |
| `Primes.IsPrime` | main.py:50-66 | the 6k±1 wheel answers true exactly when naive trial division over `[2, x)` finds no divisor; false for every `x <= 1` |
| `Primes.WheelStart` | main.py:59-61 | once 2 and 3 are ruled out, nothing in `[2, 5)` divides `x`, so the loop starts at 5 |
| `Primes.WheelGaps` | main.py:61-65 | for `i = 6k + 5`, an `x` divisible by neither 2 nor 3 is divisible by none of `i + 1`, `i + 3`, `i + 4`, `i + 5` |
| `Primes.WheelStep` | main.py:63-65 | one turn of the loop (`i` and `i + 2` tested, then `i += 6`) extends "no divisor below `i`" to "no divisor below `i + 6`" |
| `Primes.CandidatesBelow` | main.py:62-64 | while `i * i <= x` both candidates `i` and `i + 2` are below `x`, so a hit proves `x` composite |
| `Primes.NoDivisorBelowRootMeansPrime` | main.py:62-66 | when the loop stops (`i * i > x`) with no divisor below `i`, `x` is prime |
| `Primes.PrimeIffNoDivisorUpToRoot` | main.py:62 | `x` is prime exactly when `x > 1` and no `d >= 2` with `d * d <= x` divides it, which is why stopping at the square root is enough |
| `Primes.Range` | main.py:75 | `range(lo, hi)` holds an integer exactly when `lo <= x < hi`, and lists them in strictly ascending order (so `range(2, n + 1)` is 2..n, empty when `n < 2`) |
| `Primes.FilterAppend` | main.py:75 | the comprehension over a range extended by one number `x` is the old result, plus `x` when it passes the test |
| `Primes.PrimesUpToList` | main.py:69-75 | returns `[]` for `n < 2`, otherwise runs `IsPrime` on 2..n in turn and keeps what it accepts; the result equals `PrimesUpTo(n)` (`[]` below 2, otherwise `Range(2, n + 1)` filtered by `Prime`), is strictly increasing, and holds exactly the primes in `[2, n]` |
| `Primes.FilterMembers` | main.py:75 | the comprehension keeps exactly the elements that pass the test |
| `Primes.FilterKeepsOrder` | main.py:75 | the comprehension keeps the ascending order of the range |
| `Primes.PrimesUpToCorrect` | main.py:69-75 | the enumerator is `[]` for `n < 2`, is strictly increasing, and holds `x` exactly when `2 <= x <= n` and `x` is prime |
| `Primes.PrimesUpToUnique` | main.py:75 | every strictly increasing list of exactly the primes in `[2, n]` equals the enumerator's result |
| `Primes.SmallBounds` | main.py:73-75 | `primes_up_to(10)` is `[2, 3, 5, 7]` and `primes_up_to(1)` is `[]` |

## Left out

- `parse_args` (main.py:79-99): argument parsing is delegated to Python's `argparse`, whose behaviour is not modelled.
- `main` (main.py:102-133): the dispatch on the task name, the `print` of each list and the exit statuses are process I/O. The `"Unknown task"` branch is also unreachable, because the subparser is declared `required=True`.
- The `env` task (main.py:117-130): it only reads six environment variables and prints them.
- The logging setup from `LOG_LEVEL` (main.py:21-26) and the top-level exception handler with `sys.exit(1)` (main.py:136-141): ambient process state and exit plumbing.
