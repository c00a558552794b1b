/** The example job the demo program submits to the pool: primality by trial
    division. */
module Primes {

  /** No number in [2, n) divides `n`. */
  ghost predicate NoDivisorBelow(n: int)
  {
    forall d :: 2 <= d < n ==> n % d != 0
  }

  /** The smallest divisor of `n` in [i, n), or `n` itself when there is none. */
  function SmallestDivisorFrom(n: int, i: int): (d: int)
    requires 2 <= i
    decreases n - i
    ensures i < n ==> i <= d <= n
    ensures i >= n ==> d == n
    ensures d < n ==> n % d == 0
    ensures forall e :: i <= e < d && e < n ==> n % e != 0
  {
    if i >= n then n
    else if n % i == 0 then i
    else SmallestDivisorFrom(n, i + 1)
  }

  /** The smallest divisor of `n` in [2, n), or `n` itself when there is none. */
  function SmallestDivisor(n: int): int
  {
    SmallestDivisorFrom(n, 2)
  }

  /** Trial division: returns the first divisor of `n` found in [2, n) paired
      with false, or `n` paired with true when there is none. Every `n` up to 2,
      negatives included, is reported prime with itself. */
  method IsPrime(n: int) returns (r: int, prime: bool)
    ensures r == SmallestDivisor(n)
    ensures prime <==> NoDivisorBelow(n)
    ensures prime ==> r == n
    ensures !prime ==> 2 <= r < n && n % r == 0 && forall e :: 2 <= e < r ==> n % e != 0
    ensures n <= 2 ==> r == n && prime
  {
    var i := 2;
    while i < n
      invariant 2 <= i
      invariant forall d :: 2 <= d < i ==> n % d != 0
      invariant SmallestDivisor(n) == SmallestDivisorFrom(n, i)
    {
      if n % i == 0 {
        return i, false;
      }
      i := i + 1;
    }
    return n, true;
  }

  /** The result of trial division is determined by the smallest divisor
      alone: `n` is reported prime exactly when that divisor is `n` itself. */
  lemma {:induction false} SmallestDivisorDecidesPrimality(n: int)
    ensures NoDivisorBelow(n) <==> SmallestDivisor(n) == n
  {
    var d := SmallestDivisor(n);
    if d != n {
      assert 2 <= d < n && n % d == 0;
    }
  }
}
