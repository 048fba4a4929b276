/** The prime cache under the call order of the frame loop: `_factors(1)`,
    `_factors(2)`, `_factors(3)`, ... from an empty table, as the loop would
    issue them through `_process` if its switch were live. */
module PrimeRun {
  import opened Primes
  import opened Factors
  import opened Colouring

  /** The cache contents after the calls for 1 .. n, from the empty table.
      Each call appends at most one entry, so at most n entries are held. */
  function Run(n: nat): (c: seq<int>)
    ensures AboveOne(c) && |c| <= n
  {
    if n == 0 then [] else FactorsStep(Run(n - 1), n).cache
  }

  /** The call for n finds the table with room (never the case of `999`). */
  predicate NeverFull(n: nat) {
    n == 0 || |Run(n - 1)| < CAPACITY
  }

  /** Room is never an issue for the first 100000 numbers. */
  lemma SmallRunsNeverFull(n: nat)
    requires n <= CAPACITY
    ensures NeverFull(n)
  {
  }

  /** One call of the run appends at most one entry. */
  lemma RunStep(n: nat)
    requires n > 0
    ensures Run(n - 1) <= Run(n) && |Run(n)| <= |Run(n - 1)| + 1
  {
    var c := Run(n - 1);
    var r := FactorsStep(c, n);
    assert Run(n) == r.cache;
  }

  /** The cache only grows along the run. */
  lemma {:induction false} RunGrows(m: nat, n: nat)
    requires m <= n
    ensures |Run(m)| <= |Run(n)|
    decreases n - m
  {
    if m < n {
      RunGrows(m, n - 1);
      RunStep(n);
    }
  }

  /** Once the table has room for the call for n, it had room for every
      earlier call too. */
  lemma NeverFullBefore(n: nat, m: nat)
    requires NeverFull(n) && m <= n
    ensures NeverFull(m)
  {
    if m > 0 {
      RunGrows(m - 1, n - 1);
    }
  }

  predicate StrictlyAscending(c: seq<int>) {
    forall i, j :: 0 <= i < j < |c| ==> c[i] < c[j]
  }

  /** c holds exactly the primes up to n, in strictly ascending order (so
      each of them exactly once). */
  ghost predicate HoldsPrimesUpTo(c: seq<int>, n: int) {
    StrictlyAscending(c) &&
    (forall j :: 0 <= j < |c| ==> IsPrime(c[j]) && c[j] <= n) &&
    (forall p :: IsPrime(p) && p <= n ==> p in c)
  }

  /** The call for a prime n, on a cache holding the primes below n: every
      scanned entry is a prime below n, so none divides n. */
  lemma PrimeIsAppended(c: seq<int>, n: int)
    requires AboveOne(c) && HoldsPrimesUpTo(c, n - 1) && IsPrime(n) && |c| < CAPACITY
    ensures FactorsStep(c, n) == Outcome(0, c + [n])
  {
    var s := Scanned(c, n);
    forall j | 0 <= j < |s|
      ensures n % s[j] != 0
    {
      assert s[j] == c[j];
    }
    AppendsNewPrime(c, n);
  }

  /** The call for a composite n, on a cache holding the primes below n: its
      prime factor p with p * p <= n is cached, and the ascending order puts
      it in the scanned prefix. */
  lemma CompositeIsCounted(c: seq<int>, n: int)
    requires AboveOne(c) && HoldsPrimesUpTo(c, n - 1) && n >= 2 && !IsPrime(n)
    ensures FactorsStep(c, n).cache == c && FactorsStep(c, n).factors >= 1
  {
    var p := SmallPrimeFactor(n);
    assert p <= n - 1;
    assert p in c;
    var j :| 0 <= j < |c| && c[j] == p;
    var s := Scanned(c, n);
    assert j < |s| by {
      if |s| <= j {
        var k := |s|;
        assert c[k] <= c[j];
        SquareMonotone(c[k], c[j]);
      }
    }
    assert s[j] == p && n % s[j] == 0;
    assert exists i :: 0 <= i < |Scanned(c, n)| && n % Scanned(c, n)[i] == 0;
    CountsDivisors(c, n);
  }

  /** Appending the prime n to the primes below n gives the primes up to n. */
  lemma AppendPrime(c: seq<int>, n: int)
    requires HoldsPrimesUpTo(c, n - 1) && IsPrime(n)
    ensures HoldsPrimesUpTo(c + [n], n)
  {
    var c' := c + [n];
    assert StrictlyAscending(c') by {
      forall i, j | 0 <= i < j < |c'|
        ensures c'[i] < c'[j]
      {
        if j == |c| {
          assert c'[i] == c[i] <= n - 1;
        }
      }
    }
    forall p | IsPrime(p) && p <= n
      ensures p in c'
    {
      if p < n {
        assert p in c;
      } else {
        assert c'[|c|] == p;
      }
    }
  }

  /** The primes below a number that is not prime are the primes up to it. */
  lemma SkipNonPrime(c: seq<int>, n: int)
    requires HoldsPrimesUpTo(c, n - 1) && !IsPrime(n)
    ensures HoldsPrimesUpTo(c, n)
  {
    forall p | IsPrime(p) && p <= n
      ensures p in c
    {
      assert p <= n - 1;
    }
  }

  /** One call in ascending order keeps the cache equal to the primes so far,
      and returns 0 for 1 and for a prime (which is appended), at least 1 for
      a composite (the cache is unchanged). */
  lemma StepKeepsPrimes(c: seq<int>, n: int)
    requires AboveOne(c) && HoldsPrimesUpTo(c, n - 1) && n >= 1 && |c| < CAPACITY
    ensures HoldsPrimesUpTo(FactorsStep(c, n).cache, n)
    ensures IsPrime(n) ==> FactorsStep(c, n) == Outcome(0, c + [n])
    ensures !IsPrime(n) ==> FactorsStep(c, n).cache == c
    ensures !IsPrime(n) ==> (FactorsStep(c, n).factors == 0 <==> n == 1)
  {
    if n == 1 {
      SkipNonPrime(c, n);
    } else if IsPrime(n) {
      PrimeIsAppended(c, n);
      AppendPrime(c, n);
    } else {
      CompositeIsCounted(c, n);
      SkipNonPrime(c, n);
    }
  }

  /** After the calls for 1 .. n (the table never full), the cache holds
      exactly the primes up to n, in strictly ascending order. */
  lemma {:induction false} RunHoldsPrimes(n: nat)
    requires NeverFull(n)
    ensures HoldsPrimesUpTo(Run(n), n)
  {
    if n > 0 {
      NeverFullBefore(n, n - 1);
      RunHoldsPrimes(n - 1);
      StepKeepsPrimes(Run(n - 1), n);
    }
  }

  /** What the call for n returns in ascending order: 0 for a prime, which
      is appended; at least 1 for a composite, and 0 for 1, neither of which
      changes the cache. */
  lemma CallInRun(n: nat)
    requires n >= 1 && NeverFull(n)
    ensures IsPrime(n) ==> FactorsStep(Run(n - 1), n).factors == 0 && Run(n) == Run(n - 1) + [n]
    ensures !IsPrime(n) ==> Run(n) == Run(n - 1)
    ensures !IsPrime(n) && n > 1 ==> FactorsStep(Run(n - 1), n).factors >= 1
    ensures n == 1 ==> FactorsStep(Run(n - 1), n).factors == 0
  {
    NeverFullBefore(n, n - 1);
    RunHoldsPrimes(n - 1);
    StepKeepsPrimes(Run(n - 1), n);
    assert Run(n) == FactorsStep(Run(n - 1), n).cache;
  }

  /** The entries of a strictly ascending cache of numbers above 1 grow at
      least as fast as their positions: entry j is at least j + 2. */
  lemma {:induction false} AscendingLowerBound(c: seq<int>, j: int)
    requires AboveOne(c) && StrictlyAscending(c) && 0 <= j < |c|
    ensures c[j] >= j + 2
  {
    if j > 0 {
      AscendingLowerBound(c, j - 1);
    }
  }

  /** Below 1000000 the scan visits at most 998 primes (their squares are
      at most n), so a composite never yields the count 999 that the switch
      reserves for the full table. */
  lemma CompositeCountBelowSentinel(n: nat)
    requires n > 1 && n < 1000000 && NeverFull(n) && !IsPrime(n)
    ensures 1 <= FactorsStep(Run(n - 1), n).factors < OVERFLOW
  {
    CallInRun(n);
    NeverFullBefore(n, n - 1);
    RunHoldsPrimes(n - 1);
    var c := Run(n - 1);
    var s := Scanned(c, n);
    ScanCountIsCount(c, n);
    if |s| >= OVERFLOW {
      AscendingLowerBound(c, OVERFLOW - 1);
      assert s[OVERFLOW - 1] == c[OVERFLOW - 1];
      SquareMonotone(1000, c[OVERFLOW - 1]);
      assert false;
    }
  }

  /** With the switch of `_process` live, a number below 1000000 gets an
      opaque colour exactly when it is 1 or a prime. */
  lemma SwitchMarksPrimes(n: nat)
    requires n >= 1 && n < 1000000 && NeverFull(n)
    ensures SwitchColour(FactorsStep(Run(n - 1), n).factors).a > 0 <==> n == 1 || IsPrime(n)
  {
    CallInRun(n);
    if n > 1 && !IsPrime(n) {
      CompositeCountBelowSentinel(n);
    }
  }
}
