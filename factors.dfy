/** `_factors` and its prime cache: the global array `_primes[100000]` with
    its fill counter `_num`.  The functions below give the meaning of one
    call on the cache contents; the class `PrimeCache` is the mutable table
    and its method `Factors` is proved to behave as they say. */
module Factors {

  /** Number of entries of `_primes`. */
  const CAPACITY := 100000

  /** Returned when a new prime is found and the table is full. */
  const OVERFLOW := 999

  /** Every cache entry is above 1 (only values above 1 are appended), so
      trial division never divides by zero. */
  predicate AboveOne(c: seq<int>) {
    forall j :: 0 <= j < |c| ==> c[j] >= 2
  }

  /** The prefix of the cache that the trial-division loop visits: it stops
      before the first entry p with p * p > n.  The contract says exactly
      that: a prefix whose entries all have square at most n, followed by
      nothing or by an entry whose square exceeds n. */
  function Scanned(c: seq<int>, n: int): (s: seq<int>)
    ensures s <= c
    ensures forall j :: 0 <= j < |s| ==> s[j] * s[j] <= n
    ensures |s| < |c| ==> c[|s|] * c[|s|] > n
  {
    if c == [] || c[0] * c[0] > n then [] else [c[0]] + Scanned(c[1..], n)
  }

  /** The number of entries of s that divide n. */
  function CountDivisors(s: seq<int>, n: int): (k: nat)
    requires AboveOne(s)
    ensures k <= |s|
  {
    if s == [] then 0
    else CountDivisors(s[..|s| - 1], n) + (if n % s[|s| - 1] == 0 then 1 else 0)
  }

  /** The trial-division loop as a recursion over the cache: stop at the
      end of the cache or at the first entry whose square exceeds n, and
      count the entries before it that divide n.  `ScanCountIsCount` shows
      that this is the number of divisors in the scanned prefix. */
  function ScanCount(c: seq<int>, n: int): (k: nat)
    requires AboveOne(c)
    ensures k <= |c|
  {
    if c == [] || c[0] * c[0] > n then 0
    else (if n % c[0] == 0 then 1 else 0) + ScanCount(c[1..], n)
  }

  /** Counting the first entry of a sequence on its own. */
  lemma {:induction false} CountFront(x: int, s: seq<int>, n: int)
    requires x >= 2 && AboveOne(s)
    ensures CountDivisors([x] + s, n) == (if n % x == 0 then 1 else 0) + CountDivisors(s, n)
    decreases |s|
  {
    if s != [] {
      var t := [x] + s;
      var init := s[..|s| - 1];
      assert t[..|t| - 1] == [x] + init;
      assert AboveOne(init);
      CountFront(x, init, n);
    }
  }

  /** The loop's count is the number of entries of the scanned prefix that
      divide n. */
  lemma {:induction false} ScanCountIsCount(c: seq<int>, n: int)
    requires AboveOne(c)
    ensures ScanCount(c, n) == CountDivisors(Scanned(c, n), n)
    decreases |c|
  {
    if c != [] && c[0] * c[0] <= n {
      var rest := c[1..];
      assert AboveOne(rest);
      ScanCountIsCount(rest, n);
      var s := Scanned(rest, n);
      assert AboveOne(s) by {
        forall j | 0 <= j < |s|
          ensures s[j] >= 2
        {
          assert s[j] == rest[j];
        }
      }
      CountFront(c[0], s, n);
    }
  }

  /** What one call leaves behind: the value returned and the cache contents. */
  datatype Outcome = Outcome(factors: int, cache: seq<int>)

  /** One call of `_factors(n)` on cache contents c.  The cache only ever
      grows by one entry at its end, keeps its entries above 1, and never
      grows past the capacity. */
  function FactorsStep(c: seq<int>, n: int): (r: Outcome)
    requires AboveOne(c)
    ensures c <= r.cache && |r.cache| <= |c| + 1 && AboveOne(r.cache)
    ensures |c| <= CAPACITY ==> |r.cache| <= CAPACITY
  {
    var factors := ScanCount(c, n);
    if factors == 0 && n > 1 then
      if |c| < CAPACITY then Outcome(0, c + [n]) else Outcome(OVERFLOW, c)
    else
      Outcome(factors, c)
  }

  /** The count is zero exactly when no entry divides n. */
  lemma {:induction false} CountZeroIff(s: seq<int>, n: int)
    requires AboveOne(s)
    ensures CountDivisors(s, n) == 0 <==> forall j :: 0 <= j < |s| ==> n % s[j] != 0
  {
    if s != [] {
      var init := s[..|s| - 1];
      CountZeroIff(init, n);
      assert forall j :: 0 <= j < |init| ==> init[j] == s[j];
    }
  }

  /** The scan stops only at an entry whose square exceeds n: any prefix of
      the cache whose entries all have square at most n and that ends at the
      end of the cache or before an entry whose square exceeds n is the
      scanned prefix. */
  lemma ScannedUnique(c: seq<int>, n: int, i: int)
    requires 0 <= i <= |c|
    requires forall j :: 0 <= j < i ==> c[j] * c[j] <= n
    requires i < |c| ==> c[i] * c[i] > n
    ensures Scanned(c, n) == c[..i]
  {
  }

  /** Where the loop stops fixes its count: if it stops at i, the count is
      the number of divisors among the first i entries. */
  lemma ScanStopsAt(c: seq<int>, n: int, i: int)
    requires AboveOne(c) && 0 <= i <= |c|
    requires forall j :: 0 <= j < i ==> c[j] * c[j] <= n
    requires i < |c| ==> c[i] * c[i] > n
    ensures ScanCount(c, n) == CountDivisors(c[..i], n)
  {
    ScannedUnique(c, n, i);
    ScanCountIsCount(c, n);
  }

  /** A new prime: n > 1, no scanned entry divides it and there is room.
      Then the call returns 0 and appends n. */
  lemma AppendsNewPrime(c: seq<int>, n: int)
    requires AboveOne(c) && n > 1 && |c| < CAPACITY
    requires forall j :: 0 <= j < |Scanned(c, n)| ==> n % Scanned(c, n)[j] != 0
    ensures FactorsStep(c, n) == Outcome(0, c + [n])
  {
    ScanCountIsCount(c, n);
    CountZeroIff(Scanned(c, n), n);
  }

  /** The same with the table full: the call returns 999 and changes nothing. */
  lemma OverflowWhenFull(c: seq<int>, n: int)
    requires AboveOne(c) && n > 1 && |c| >= CAPACITY
    requires forall j :: 0 <= j < |Scanned(c, n)| ==> n % Scanned(c, n)[j] != 0
    ensures FactorsStep(c, n) == Outcome(OVERFLOW, c)
  {
    ScanCountIsCount(c, n);
    CountZeroIff(Scanned(c, n), n);
  }

  /** Every other case (n <= 1, or some scanned entry divides n): the cache is
      unchanged and the result is the number of scanned entries dividing n,
      which is at least 1 when one of them does. */
  lemma CountsDivisors(c: seq<int>, n: int)
    requires AboveOne(c)
    requires n <= 1 || exists j :: 0 <= j < |Scanned(c, n)| && n % Scanned(c, n)[j] == 0
    ensures FactorsStep(c, n) == Outcome(CountDivisors(Scanned(c, n), n), c)
    ensures n > 1 ==> FactorsStep(c, n).factors >= 1
  {
    ScanCountIsCount(c, n);
    CountZeroIff(Scanned(c, n), n);
  }

  /** `num <= 1` returns 0 and leaves the cache as it is. */
  lemma SmallNum(c: seq<int>, n: int)
    requires AboveOne(c) && n <= 1
    ensures FactorsStep(c, n) == Outcome(0, c)
  {
    if c != [] {
      var p := c[0];
      assert p * p >= 2 * p by {
        assert p >= 2;
      }
    }
    assert ScanCount(c, n) == 0;
  }

  /** `_factors(12) == 2` once 2 and 3 are cached: it scans 2 and 3 and stops
      at 5 (25 > 12). */
  lemma Twelve()
    ensures FactorsStep([2, 3], 12) == Outcome(2, [2, 3])
    ensures FactorsStep([2, 3, 5, 7, 11], 12) == Outcome(2, [2, 3, 5, 7, 11])
  {
    ScannedUnique([2, 3, 5, 7, 11], 12, 2);
    assert [2, 3, 5, 7, 11][..2] == [2, 3];
    assert [2, 3][..1] == [2];
  }

  /** The table is not kept sorted: a call for 9 on the empty table appends
      9, and a later call for 3 appends 3 after it. */
  lemma OutOfOrder()
    ensures FactorsStep(FactorsStep([], 9).cache, 3).cache == [9, 3]
  {
    assert FactorsStep([], 9).cache == [9];
  }

  /** The table `_primes` with its fill counter `_num`. */
  class PrimeCache {
    var primes: array<int>
    var num: int

    /** `_num` stays within 0 .. 100000 and the filled entries are above 1. */
    ghost predicate Valid()
      reads this, primes
    {
      primes.Length == CAPACITY && 0 <= num <= CAPACITY && AboveOne(primes[..num])
    }

    /** The filled part of the table. */
    ghost function Cache(): seq<int>
      reads this, primes
      requires Valid()
    {
      primes[..num]
    }

    /** The zero-initialised static table, empty. */
    constructor ()
      ensures Valid() && fresh(primes) && Cache() == []
      ensures forall j :: 0 <= j < CAPACITY ==> primes[j] == 0
    {
      primes := new int[CAPACITY](_ => 0);
      num := 0;
    }

    /** `_factors(n)`: trial division by the cached primes, stopping at the
        first p with p * p > n; if nothing divides n and n > 1, append n or, if
        the table is full, return 999.  Only the entry at the old `_num` may
        change. */
    method Factors(n: int) returns (factors: int)
      requires Valid()
      modifies this`num, primes
      ensures Valid()
      ensures Outcome(factors, Cache()) == FactorsStep(old(Cache()), n)
      ensures forall j :: 0 <= j < CAPACITY && j != old(num) ==> primes[j] == old(primes[j])
    {
      ghost var c := Cache();
      factors := 0;
      var i := 0;
      while i < num
        invariant 0 <= i <= num
        invariant forall j :: 0 <= j < i ==> primes[j] * primes[j] <= n
        invariant factors == CountDivisors(c[..i], n)
      {
        if primes[i] * primes[i] > n {
          break;
        }
        if n % primes[i] == 0 {
          factors := factors + 1;
        }
        assert c[..i + 1][..i] == c[..i];
        i := i + 1;
      }
      ScanStopsAt(c, n, i);
      if factors == 0 && n > 1 {
        if num < CAPACITY {
          primes[num] := n;
          num := num + 1;
          assert Cache() == c + [n];
        } else {
          factors := OVERFLOW;
        }
      }
    }
  }
}
