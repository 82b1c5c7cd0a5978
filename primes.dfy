/** The prime checker and the prime enumerator of main.py. */
module Primes {

  /** Naive trial division, the standard definition: x > 1 and no d with
      2 <= d < x divides x. */
  predicate Prime(x: int)
  {
    x > 1 && forall d :: 2 <= d < x ==> x % d != 0
  }

  /** Multiplying by a non-negative factor keeps the order. */
  lemma MulLe(a: int, b: int, c: int)
    requires a <= b && c >= 0
    ensures a * c <= b * c
  {
  }

  /** a divides every multiple of a. */
  lemma ProductMod(a: int, k: int)
    requires a > 0
    ensures (a * k) % a == 0
  {
    var x := a * k;
    var q, r := x / a, x % a;
    assert x == a * q + r;
    assert a * (k - q) == r;
    if k - q >= 1 {
      MulLe(1, k - q, a);
    } else if k - q <= -1 {
      MulLe(1, q - k, a);
    }
  }

  /** If m divides x and a divides m, then a divides x. */
  lemma DividesTransitive(x: int, m: int, a: int)
    requires a > 0 && m > 0
    requires x % m == 0 && m % a == 0
    ensures x % a == 0
  {
    var q := x / m;
    var p := m / a;
    assert x == m * q;
    assert m == a * p;
    assert x == a * (p * q) by {
      assert m * q == (a * p) * q;
    }
    ProductMod(a, p * q);
  }

  /** If d divides x with 2 <= d < x, then so does x / d, and 2 <= x / d < x. */
  lemma CofactorDivides(x: int, d: int)
    requires 2 <= d < x && x % d == 0
    ensures var q := x / d; 2 <= q < x && x % q == 0 && q * d == x
  {
    var q := x / d;
    assert x == d * q;
    assert q >= 2 by {
      if q <= 1 {
        MulLe(q, 1, d);
      }
    }
    assert q < x by {
      MulLe(2, d, q);
    }
    ProductMod(q, d);
  }

  /** A composite x has a divisor e >= 2 with e * e <= x. */
  lemma SmallDivisor(x: int, d: int)
    requires 2 <= d < x && x % d == 0
    ensures exists e :: 2 <= e && e * e <= x && x % e == 0
  {
    CofactorDivides(x, d);
    var q := x / d;
    if d <= q {
      MulLe(d, q, d);
      assert 2 <= d && d * d <= x && x % d == 0;
    } else {
      MulLe(q, d, q);
      assert 2 <= q && q * q <= x && x % q == 0;
    }
  }

  /** With no divisor below i and i * i > x, x is prime. */
  lemma NoDivisorBelowRootMeansPrime(x: int, i: int)
    requires x > 1 && i >= 2 && i * i > x
    requires NoDivisorBelow(x, i)
    ensures Prime(x)
  {
    forall d | 2 <= d < x
      ensures x % d != 0
    {
      if x % d == 0 {
        SmallDivisor(x, d);
        var e :| 2 <= e && e * e <= x && x % e == 0;
        if e >= i {
          MulLe(i, e, e);
          MulLe(i, e, i);
        }
      }
    }
  }

  /** The criterion the 6k±1 wheel relies on: x is prime exactly when x > 1 and
      no d >= 2 with d * d <= x divides it. */
  lemma PrimeIffNoDivisorUpToRoot(x: int)
    ensures Prime(x) <==>
            x > 1 && forall d :: 2 <= d && d * d <= x ==> x % d != 0
  {
    if x > 1 && forall d :: 2 <= d && d * d <= x ==> x % d != 0 {
      forall d | 2 <= d < x
        ensures x % d != 0
      {
        if x % d == 0 {
          SmallDivisor(x, d);
        }
      }
    }
    if Prime(x) {
      forall d | 2 <= d && d * d <= x
        ensures x % d != 0
      {
        MulLe(2, d, d);
      }
    }
  }

  /** With i == 6k + 5, none of i + 1, i + 3, i + 4, i + 5 divides an x that
      neither 2 nor 3 divides. */
  lemma WheelGaps(x: int, i: int)
    requires i >= 5 && i % 6 == 5
    requires x % 2 != 0 && x % 3 != 0
    ensures x % (i + 1) != 0 && x % (i + 3) != 0
    ensures x % (i + 4) != 0 && x % (i + 5) != 0
  {
    var k := i / 6;
    assert i == 6 * k + 5;
    ProductMod(2, 3 * k + 3);
    ProductMod(2, 3 * k + 4);
    ProductMod(3, 2 * k + 3);
    ProductMod(2, 3 * k + 5);
    if x % (i + 1) == 0 { DividesTransitive(x, i + 1, 2); }
    if x % (i + 3) == 0 { DividesTransitive(x, i + 3, 2); }
    if x % (i + 4) == 0 { DividesTransitive(x, i + 4, 3); }
    if x % (i + 5) == 0 { DividesTransitive(x, i + 5, 2); }
  }

  /** No d with 2 <= d < i divides x. */
  predicate NoDivisorBelow(x: int, i: int)
  {
    forall d :: 2 <= d < i ==> x % d != 0
  }

  /** Past the checks for 2 and 3, no divisor lies below 5. */
  lemma WheelStart(x: int)
    requires x % 2 != 0 && x % 3 != 0
    ensures NoDivisorBelow(x, 5)
  {
    forall d | 2 <= d < 5 ensures x % d != 0 {
      if d == 4 && x % 4 == 0 {
        DividesTransitive(x, 4, 2);
      }
    }
  }

  /** One turn of the wheel: when neither i nor i + 2 divides x, no divisor
      below i means no divisor below i + 6. */
  lemma WheelStep(x: int, i: int)
    requires i >= 5 && i % 6 == 5
    requires x % 2 != 0 && x % 3 != 0
    requires NoDivisorBelow(x, i)
    requires x % i != 0 && x % (i + 2) != 0
    ensures NoDivisorBelow(x, i + 6)
  {
    WheelGaps(x, i);
    forall d | 2 <= d < i + 6 ensures x % d != 0 {
      if d >= i {
        assert d == i || d == i + 1 || d == i + 2 || d == i + 3 || d == i + 4 || d == i + 5;
      }
    }
  }

  /** While i * i <= x, both candidates i and i + 2 lie below x, so a hit on
      either proves x composite. */
  lemma CandidatesBelow(x: int, i: int)
    requires i >= 5 && i * i <= x
    ensures i + 2 < x
  {
  }

  /** Models `is_prime(x)`: rejects x <= 1, accepts 2 and 3, rejects the
      multiples of 2 and 3, then tries i and i + 2 for i = 5, 11, 17, ...
      while i * i <= x. Agrees with naive trial division on every integer. */
  method IsPrime(x: int) returns (b: bool)
    ensures b <==> Prime(x)
    ensures x <= 1 ==> !b
  {
    if x <= 1 {
      return false;
    }
    if x <= 3 {
      return true;
    }
    if x % 2 == 0 || x % 3 == 0 {
      return false;
    }
    WheelStart(x);
    var i := 5;
    while i * i <= x
      invariant i >= 5 && i % 6 == 5
      invariant NoDivisorBelow(x, i)
      decreases x - i
    {
      CandidatesBelow(x, i);
      if x % i == 0 || x % (i + 2) == 0 {
        return false;
      }
      WheelStep(x, i);
      i := i + 6;
    }
    NoDivisorBelowRootMeansPrime(x, i);
    return true;
  }

  /** The integers lo, lo + 1, ..., hi - 1 (Python's `range(lo, hi)`): each
      integer in [lo, hi) once, in ascending order. */
  function Range(lo: int, hi: int): (s: seq<int>)
    ensures forall x :: x in s <==> lo <= x < hi
    ensures StrictlyIncreasing(s)
  {
    var r := seq(if lo < hi then hi - lo else 0, k requires 0 <= k => lo + k);
    assert forall x :: lo <= x < hi ==> x in r by {
      forall x | lo <= x < hi ensures x in r {
        assert r[x - lo] == x;
      }
    }
    r
  }

  /** The elements of s that satisfy p, in their order in s. */
  function Filter(s: seq<int>, p: int -> bool): seq<int>
  {
    if s == [] then [] else (if p(s[0]) then [s[0]] else []) + Filter(s[1..], p)
  }

  predicate StrictlyIncreasing(s: seq<int>)
  {
    forall j, k :: 0 <= j < k < |s| ==> s[j] < s[k]
  }

  /** Filtering keeps exactly the elements that satisfy the predicate. */
  lemma {:induction false} FilterMembers(s: seq<int>, p: int -> bool)
    ensures forall x :: x in Filter(s, p) <==> x in s && p(x)
  {
    if s != [] {
      FilterMembers(s[1..], p);
      assert s == [s[0]] + s[1..];
    }
  }

  /** Putting a number below every element in front of an increasing list
      keeps it increasing. */
  lemma ConsIncreasing(h: int, rest: seq<int>)
    requires StrictlyIncreasing(rest)
    requires forall y :: y in rest ==> h < y
    ensures StrictlyIncreasing([h] + rest)
  {
    var r := [h] + rest;
    forall j, k | 0 <= j < k < |r| ensures r[j] < r[k] {
      assert r[k] == rest[k - 1] && rest[k - 1] in rest;
      if j > 0 {
        assert r[j] == rest[j - 1];
      }
    }
  }

  /** Filtering an increasing list leaves it increasing. */
  lemma {:induction false} FilterKeepsOrder(s: seq<int>, p: int -> bool)
    requires StrictlyIncreasing(s)
    ensures StrictlyIncreasing(Filter(s, p))
  {
    if s != [] {
      FilterKeepsOrder(s[1..], p);
      FilterMembers(s[1..], p);
      var rest := Filter(s[1..], p);
      forall y | y in rest ensures s[0] < y {
        var k :| 0 <= k < |s[1..]| && s[1..][k] == y;
        assert s[k + 1] == y;
      }
      if p(s[0]) {
        ConsIncreasing(s[0], rest);
      }
    }
  }

  /** Models `primes_up_to(n)` as a value: [] when n < 2, otherwise the
      integers 2..n filtered by `Prime`, in ascending order. */
  function PrimesUpTo(n: int): seq<int>
  {
    if n < 2 then [] else Filter(Range(2, n + 1), Prime)
  }

  /** Filtering one more element appends it exactly when it passes. */
  lemma {:induction false} FilterAppend(a: seq<int>, x: int, p: int -> bool)
    ensures Filter(a + [x], p) == Filter(a, p) + (if p(x) then [x] else [])
  {
    if a != [] {
      assert (a + [x])[1..] == a[1..] + [x];
      FilterAppend(a[1..], x, p);
    }
  }

  /** Models `primes_up_to(n)` as the program runs it: [] when n < 2,
      otherwise `is_prime` applied to 2..n in turn, keeping the numbers it
      accepts. The result is the filter `PrimesUpTo(n)`. */
  method PrimesUpToList(n: int) returns (r: seq<int>)
    ensures r == PrimesUpTo(n)
    ensures forall x :: x in r <==> 2 <= x <= n && Prime(x)
    ensures StrictlyIncreasing(r)
  {
    PrimesUpToCorrect(n);
    if n < 2 {
      return [];
    }
    var s := Range(2, n + 1);
    r := [];
    for j := 0 to |s|
      invariant r == Filter(s[..j], Prime)
    {
      var b := IsPrime(s[j]);
      FilterAppend(s[..j], s[j], Prime);
      assert s[..j + 1] == s[..j] + [s[j]];
      if b {
        r := r + [s[j]];
      }
    }
    assert s[..|s|] == s;
  }

  /** The enumerator is empty below 2, strictly increasing, and holds exactly
      the primes in [2, n]. */
  lemma PrimesUpToCorrect(n: int)
    ensures n < 2 ==> PrimesUpTo(n) == []
    ensures StrictlyIncreasing(PrimesUpTo(n))
    ensures forall x :: x in PrimesUpTo(n) <==> 2 <= x <= n && Prime(x)
  {
    if n >= 2 {
      var s := Range(2, n + 1);
      FilterMembers(s, Prime);
      FilterKeepsOrder(s, Prime);
    }
  }

  /** The tail of an increasing list holds its elements other than the head,
      all of them above the head. */
  lemma IncreasingTail(a: seq<int>)
    requires StrictlyIncreasing(a) && a != []
    ensures forall x :: x in a[1..] <==> x in a && x != a[0]
    ensures forall x :: x in a ==> a[0] <= x
  {
  }

  /** Two lists with the same elements are empty together. */
  lemma SameElementsEmptyTogether(a: seq<int>, b: seq<int>)
    requires forall x :: x in a <==> x in b
    ensures |a| == 0 <==> |b| == 0
  {
    if |a| > 0 {
      var y := a[0];
      assert y in a;
    }
    if |b| > 0 {
      var y := b[0];
      assert y in b;
    }
  }

  /** Two increasing lists with the same elements are equal. */
  lemma {:induction false} IncreasingDeterminedByElements(a: seq<int>, b: seq<int>)
    requires StrictlyIncreasing(a) && StrictlyIncreasing(b)
    requires forall x :: x in a <==> x in b
    ensures a == b
  {
    SameElementsEmptyTogether(a, b);
    if a != [] {
      IncreasingTail(a);
      IncreasingTail(b);
      assert a[0] in b && b[0] in a;
      assert a[0] == b[0];
      IncreasingDeterminedByElements(a[1..], b[1..]);
      assert a == [a[0]] + a[1..] && b == [b[0]] + b[1..];
    }
  }

  /** The enumerator is the only ascending list of exactly the primes in [2, n]. */
  lemma PrimesUpToUnique(n: int, s: seq<int>)
    requires StrictlyIncreasing(s)
    requires forall x :: x in s <==> 2 <= x <= n && Prime(x)
    ensures s == PrimesUpTo(n)
  {
    PrimesUpToCorrect(n);
    IncreasingDeterminedByElements(s, PrimesUpTo(n));
  }

  /** Which of 2..10 are prime. */
  lemma PrimesToTen()
    ensures Prime(2) && Prime(3) && Prime(5) && Prime(7)
    ensures !Prime(4) && !Prime(6) && !Prime(8)
    ensures !Prime(9) && !Prime(10)
  {
    assert 4 % 2 == 0 && 6 % 2 == 0 && 8 % 2 == 0 && 9 % 3 == 0 && 10 % 2 == 0;
  }

  /** `primes --n 10` lists [2, 3, 5, 7] and `primes --n 1` lists nothing. */
  lemma SmallBounds()
    ensures PrimesUpTo(10) == [2, 3, 5, 7]
    ensures PrimesUpTo(1) == []
  {
    PrimesToTen();
    var ps := [2, 3, 5, 7];
    forall x ensures x in ps <==> 2 <= x <= 10 && Prime(x) {
      if 2 <= x <= 10 && x !in ps {
        assert x == 4 || x == 6 || x == 8 || x == 9 || x == 10;
      }
    }
    PrimesUpToUnique(10, ps);
  }
}
