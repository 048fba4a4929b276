/** The Collatz step count computed by `_collatz` in the game manager. */
module Collatz {

  /** One step of the trajectory: halve an even value, otherwise map n to 3n+1.
      Dafny's `%` and `/` agree with C's here for every sign of n: `n % 2 == 0`
      holds exactly for even n, and `n / 2` is exact when n is even.  C's
      32-bit overflow of `3 * n + 1` is not modelled (integers are unbounded). */
  function Next(n: int): (r: int)
    ensures n % 2 == 0 ==> 2 * r == n
    ensures n % 2 == 1 ==> r == 3 * n + 1 && r % 2 == 0
    ensures n >= 1 ==> r >= 1
    ensures n <= 0 ==> r <= 0
  {
    if n % 2 == 0 then n / 2 else 3 * n + 1
  }

  /** The value reached from n after k steps. */
  function Iterate(n: int, k: nat): int {
    if k == 0 then n else Next(Iterate(n, k - 1))
  }

  /** The trajectory from n reaches 1 within `fuel` steps.  The C loop
      terminates exactly on the inputs for which this holds for some fuel. */
  predicate ReachesOneWithin(n: int, fuel: nat)
    decreases fuel
  {
    n == 1 || (fuel > 0 && ReachesOneWithin(Next(n), fuel - 1))
  }

  /** The number of steps from n to 1, given enough fuel to get there. */
  function Steps(n: int, fuel: nat): (r: nat)
    requires ReachesOneWithin(n, fuel)
    ensures r <= fuel
    decreases fuel
  {
    if n == 1 then 0 else 1 + Steps(Next(n), fuel - 1)
  }

  /** `_collatz(num)`: apply the step until the value is 1, counting steps.
      The ghost fuel only witnesses that the loop terminates. */
  method Collatz(num: int, ghost fuel: nat) returns (count: nat)
    requires ReachesOneWithin(num, fuel)
    ensures count == Steps(num, fuel)
  {
    var n := num;
    count := 0;
    while n != 1
      invariant count <= fuel
      invariant ReachesOneWithin(n, fuel - count)
      invariant Steps(num, fuel) == count + Steps(n, fuel - count)
      decreases fuel - count
    {
      n := Next(n);
      count := count + 1;
    }
  }

  /** More fuel never hurts. */
  lemma {:induction false} ReachesOneMonotone(n: int, fuel: nat, more: nat)
    requires ReachesOneWithin(n, fuel) && fuel <= more
    ensures ReachesOneWithin(n, more)
    decreases fuel
  {
    if n != 1 {
      ReachesOneMonotone(Next(n), fuel - 1, more - 1);
    }
  }

  /** The count does not depend on the fuel: `_collatz` is a function of num alone. */
  lemma {:induction false} StepsFuelIndependent(n: int, fuel: nat, other: nat)
    requires ReachesOneWithin(n, fuel) && ReachesOneWithin(n, other)
    ensures Steps(n, fuel) == Steps(n, other)
    decreases fuel
  {
    if n != 1 {
      StepsFuelIndependent(Next(n), fuel - 1, other - 1);
    }
  }

  /** The recurrence of the source loop: a value other than 1 takes one step
      more than its successor, whatever fuel is used to measure either. */
  lemma StepsRecurrence(n: int, fuel: nat, other: nat)
    requires n != 1 && ReachesOneWithin(n, fuel) && ReachesOneWithin(Next(n), other)
    ensures Steps(n, fuel) == 1 + Steps(Next(n), other)
  {
    StepsFuelIndependent(Next(n), fuel - 1, other);
  }

  /** Taking one step first and then k is the same as k steps and then one. */
  lemma {:induction false} IterateShift(n: int, k: nat)
    ensures Iterate(n, k + 1) == Iterate(Next(n), k)
  {
    if k > 0 {
      IterateShift(n, k - 1);
    }
  }

  /** The count is the first time the trajectory is at 1. */
  lemma {:induction false} StepsIsFirstHit(n: int, fuel: nat)
    requires ReachesOneWithin(n, fuel)
    ensures Iterate(n, Steps(n, fuel)) == 1
    ensures forall j :: 0 <= j < Steps(n, fuel) ==> Iterate(n, j) != 1
    decreases fuel
  {
    if n != 1 {
      var k := Steps(Next(n), fuel - 1);
      StepsIsFirstHit(Next(n), fuel - 1);
      IterateShift(n, k);
      forall j | 0 <= j < k + 1
        ensures Iterate(n, j) != 1
      {
        if j > 0 {
          IterateShift(n, j - 1);
        }
      }
    }
  }

  /** Conversely, the first time the trajectory is at 1 is the count. */
  lemma {:induction false} FirstHitIsSteps(n: int, k: nat)
    requires Iterate(n, k) == 1
    requires forall j :: 0 <= j < k ==> Iterate(n, j) != 1
    ensures ReachesOneWithin(n, k) && Steps(n, k) == k
    decreases k
  {
    if k > 0 {
      assert Iterate(n, 0) == n;
      IterateShift(n, k - 1);
      forall j | 0 <= j < k - 1
        ensures Iterate(Next(n), j) != 1
      {
        IterateShift(n, j);
      }
      FirstHitIsSteps(Next(n), k - 1);
    }
  }

  /** Powers of two. */
  function Pow2(k: nat): (p: int)
    ensures p >= 1
  {
    if k == 0 then 1 else 2 * Pow2(k - 1)
  }

  /** `_collatz(2^k) == k`: the trajectory only halves. */
  lemma {:induction false} PowerOfTwoSteps(k: nat)
    ensures ReachesOneWithin(Pow2(k), k) && Steps(Pow2(k), k) == k
  {
    if k > 0 {
      PowerOfTwoSteps(k - 1);
      assert Next(Pow2(k)) == Pow2(k - 1);
    }
  }

  /** A value other than 1 whose successor reaches 1 reaches it one step later. */
  lemma StepBack(n: int, fuel: nat)
    requires n != 1 && ReachesOneWithin(Next(n), fuel)
    ensures ReachesOneWithin(n, fuel + 1) && Steps(n, fuel + 1) == 1 + Steps(Next(n), fuel)
  {
  }

  /** The last 27 steps of the trajectory of 27, from 433. */
  lemma TrajectoryFrom433()
    ensures ReachesOneWithin(433, 27) && Steps(433, 27) == 27
  {
    StepBack(2, 0); StepBack(4, 1); StepBack(8, 2); StepBack(16, 3); StepBack(5, 4); StepBack(10, 5);
    StepBack(20, 6); StepBack(40, 7); StepBack(80, 8); StepBack(160, 9); StepBack(53, 10); StepBack(106, 11);
    StepBack(35, 12); StepBack(70, 13); StepBack(23, 14); StepBack(46, 15); StepBack(92, 16); StepBack(184, 17);
    StepBack(61, 18); StepBack(122, 19); StepBack(244, 20); StepBack(488, 21); StepBack(976, 22); StepBack(325, 23);
    StepBack(650, 24); StepBack(1300, 25); StepBack(433, 26);
  }

  /** The last 55 steps of the trajectory of 27, from 319. */
  lemma TrajectoryFrom319()
    ensures ReachesOneWithin(319, 55) && Steps(319, 55) == 55
  {
    TrajectoryFrom433();
    StepBack(866, 27); StepBack(1732, 28); StepBack(577, 29); StepBack(1154, 30); StepBack(2308, 31); StepBack(4616, 32);
    StepBack(9232, 33); StepBack(3077, 34); StepBack(6154, 35); StepBack(2051, 36); StepBack(4102, 37); StepBack(1367, 38);
    StepBack(2734, 39); StepBack(911, 40); StepBack(1822, 41); StepBack(3644, 42); StepBack(7288, 43); StepBack(2429, 44);
    StepBack(4858, 45); StepBack(1619, 46); StepBack(3238, 47); StepBack(1079, 48); StepBack(2158, 49); StepBack(719, 50);
    StepBack(1438, 51); StepBack(479, 52); StepBack(958, 53); StepBack(319, 54);
  }

  /** The last 83 steps of the trajectory of 27, from 233. */
  lemma TrajectoryFrom233()
    ensures ReachesOneWithin(233, 83) && Steps(233, 83) == 83
  {
    TrajectoryFrom319();
    StepBack(638, 55); StepBack(1276, 56); StepBack(425, 57); StepBack(850, 58); StepBack(283, 59); StepBack(566, 60);
    StepBack(1132, 61); StepBack(377, 62); StepBack(754, 63); StepBack(251, 64); StepBack(502, 65); StepBack(167, 66);
    StepBack(334, 67); StepBack(668, 68); StepBack(1336, 69); StepBack(445, 70); StepBack(890, 71); StepBack(1780, 72);
    StepBack(593, 73); StepBack(1186, 74); StepBack(395, 75); StepBack(790, 76); StepBack(263, 77); StepBack(526, 78);
    StepBack(175, 79); StepBack(350, 80); StepBack(700, 81); StepBack(233, 82);
  }

  /** `_collatz(27) == 111`, the well-known trajectory length; the proof walks
      the trajectory back from 1 to 27 (its largest value is 9232). */
  lemma TwentySeven()
    ensures ReachesOneWithin(27, 111) && Steps(27, 111) == 111
  {
    TrajectoryFrom233();
    StepBack(466, 83); StepBack(155, 84); StepBack(310, 85); StepBack(103, 86); StepBack(206, 87); StepBack(412, 88);
    StepBack(137, 89); StepBack(274, 90); StepBack(91, 91); StepBack(182, 92); StepBack(364, 93); StepBack(121, 94);
    StepBack(242, 95); StepBack(484, 96); StepBack(161, 97); StepBack(322, 98); StepBack(107, 99); StepBack(214, 100);
    StepBack(71, 101); StepBack(142, 102); StepBack(47, 103); StepBack(94, 104); StepBack(31, 105); StepBack(62, 106);
    StepBack(124, 107); StepBack(41, 108); StepBack(82, 109); StepBack(27, 110);
  }

  /** `_collatz(1) == 0`. */
  lemma One(fuel: nat)
    ensures ReachesOneWithin(1, fuel) && Steps(1, fuel) == 0
  {
  }

  /** A value of at most 0 never reaches 1 (0 stays 0, negative values stay
      negative), so on such inputs the C loop never terminates. */
  lemma {:induction false} NonPositiveNeverReachesOne(n: int, fuel: nat)
    requires n <= 0
    ensures !ReachesOneWithin(n, fuel)
    decreases fuel
  {
    if fuel > 0 {
      NonPositiveNeverReachesOne(Next(n), fuel - 1);
    }
  }
}
