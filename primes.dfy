/** The number theory the prime cache relies on: primality by trial
    division, and the fact that a composite number has a prime factor no
    larger than its square root. */
module Primes {

  /** n is prime: at least 2, and no d with 2 <= d < n divides it. */
  predicate IsPrime(n: int) {
    n >= 2 && forall d :: 2 <= d < n ==> n % d != 0
  }

  /** b * k >= b for a positive b and k >= 1. */
  lemma MulAtLeast(b: int, k: int)
    requires b > 0 && k >= 1
    ensures b * k >= b
  {
    assert b * k == b * (k - 1) + b;
    assert b * (k - 1) >= 0;
  }

  /** b * k <= -b for a positive b and k <= -1. */
  lemma MulAtMost(b: int, k: int)
    requires b > 0 && k <= -1
    ensures b * k <= -b
  {
    assert b * k == b * (k + 1) - b;
    assert b * (k + 1) <= 0;
  }

  /** Multiplying by a non-negative number preserves order. */
  lemma MulMonotone(a: int, b: int, c: int)
    requires a >= 0 && b <= c
    ensures a * b <= a * c
  {
    assert a * c - a * b == a * (c - b);
    assert a * (c - b) >= 0;
  }

  /** A multiple of b leaves no remainder. */
  lemma MultipleMod(q: int, b: int)
    requires b > 0
    ensures (q * b) % b == 0
  {
    var a := q * b;
    var k := q - a / b;
    assert b * k == a % b by {
      assert a == b * (a / b) + a % b;
    }
    if k >= 1 {
      MulAtLeast(b, k);
    } else if k <= -1 {
      MulAtMost(b, k);
    }
  }

  /** Divisibility is transitive. */
  lemma DividesTransitive(a: int, b: int, c: int)
    requires b > 0 && c > 0 && a % b == 0 && b % c == 0
    ensures a % c == 0
  {
    var q := a / b;
    var r := b / c;
    assert a == q * b;
    assert b == r * c;
    assert a == (q * r) * c;
    MultipleMod(q * r, c);
  }

  /** 0 <= a <= b implies a * a <= b * b. */
  lemma SquareMonotone(a: int, b: int)
    requires 0 <= a <= b
    ensures a * a <= b * b
  {
    MulMonotone(a, a, b);
    MulMonotone(b, a, b);
  }

  /** The least divisor of n that is at least k (there is one: n itself). */
  function LeastDivisorFrom(n: int, k: int): (d: int)
    requires 2 <= k <= n
    ensures k <= d <= n && n % d == 0
    ensures forall e :: k <= e < d ==> n % e != 0
    decreases n - k
  {
    if n % k == 0 then k else LeastDivisorFrom(n, k + 1)
  }

  /** The least divisor of n above 1 is prime. */
  lemma LeastDivisorIsPrime(n: int)
    requires n >= 2
    ensures IsPrime(LeastDivisorFrom(n, 2))
  {
    var p := LeastDivisorFrom(n, 2);
    forall e | 2 <= e < p
      ensures p % e != 0
    {
      if p % e == 0 {
        DividesTransitive(n, p, e);
      }
    }
  }

  /** The cofactor of a divisor p with 2 <= p < n is a divisor of n above 1. */
  lemma Cofactor(n: int, p: int) returns (e: int)
    requires 2 <= p < n && n % p == 0
    ensures n == p * e && 2 <= e <= n && n % e == 0
  {
    e := n / p;
    assert n == p * e by {
      assert n == p * (n / p) + n % p;
    }
    if e <= -1 {
      MulAtMost(p, e);
    }
    MultipleMod(p, e);
    MulAtLeast(e, p);
  }

  /** A number n >= 2 that is not prime has a prime factor p with p * p <= n
      (and hence p < n): the least divisor p of n above 1 is prime, and its
      cofactor is a divisor above 1 too, so p is at most the cofactor. */
  lemma SmallPrimeFactor(n: int) returns (p: int)
    requires n >= 2 && !IsPrime(n)
    ensures IsPrime(p) && p * p <= n && n % p == 0 && p < n
  {
    p := LeastDivisorFrom(n, 2);
    LeastDivisorIsPrime(n);
    var w :| 2 <= w < n && n % w == 0;
    assert p < n;
    var e := Cofactor(n, p);
    assert p <= e;
    MulMonotone(p, p, e);
  }
}
