# Collatz: the integer core of the game manager

This project models the integer number theory of `src/managers/game.c`, the
game manager of a raylib program that draws numbers along a spiral. It covers
four pieces:

- `_collatz(num)` counts the Collatz steps from `num` down to 1. Each step
  halves an even value and maps an odd value n to 3n+1.
- `_factors(num)` does trial division over a global table of cached primes,
  `_primes[100000]`, whose fill counter is `_num`. The scan stops at the first
  cached `p` with `p * p > num`. `SQR` is defined in a header that is not
  part of this model, and is taken to be `x * x`. The result
  is the number of scanned primes that divide `num`. When none divides and
  `num > 1`, `num` is appended to the table. If the table is full, the result
  is the sentinel 999 instead.
- `_process(num)` picks the colour for a number. As written it returns `WHITE`
  before its switch, so the switch on `_factors(num)` never runs.
- `game_manager_loop` keeps an integer counter `num`. It starts at 1 and goes
  up by one per sub-step, with 1000 sub-steps per frame. A sub-step draws a
  pixel only when its colour has nonzero alpha.

Modules:

- `Collatz` (collatz.dfy) holds the step function, a fuelled specification
  `Steps`, and the loop as a method.
- `Factors` (factors.dfy) holds the meaning of one `_factors` call on the
  cache contents (`FactorsStep`). It also holds the class `PrimeCache`: an
  `array<int>` of 100000 entries plus the counter field. Its method `Factors`
  is proved to agree with `FactorsStep`.
- `Colours` (colours.dfy) holds raylib's `Color` with 8-bit channels, and
  `Colouring` (colouring.dfy) holds `_process` as written plus its
  unreachable switch.
- `PrimeRun` (prime_run.dfy) covers the calls `_factors(1)`, `_factors(2)`,
  ... on an empty table, which is the frame loop's call order if the switch
  were live. It proves that the cache is exactly the ascending list of primes
  so far. `Primes` (primes.dfy) holds the number theory this needs.
- `FrameLoop` (frame_loop.dfy) holds the loop's counter and the alpha-gated
  draw decision. It records each drawn pixel as the number it was drawn for,
  plus its colour.

Behaviour of the code worth noting:

- The loop has no index ceiling. It stops only when the window asks to close.
- `_collatz` uses the full `n/2`, `3n+1` rule with no shortcut or early exit.
- The cache is guaranteed to be strictly ascending only when the calls come
  in increasing order. Out of order it need not be: a call for 9 made before
  a call for 3 appends 9 and then 3 (`Factors.OutOfOrder`). So ascending
  order is proved for the run (`PrimeRun`) and is not a class invariant.
- `_factors(num)` with `num <= 1` returns 0 and changes nothing
  (`Factors.SmallNum`).
- C's `%` and `/` truncate toward zero, while Dafny's are Euclidean. The
  source only tests `% == 0` and halves even values, and both agree on
  these for negative operands too.

## Model

| member | source | states |
|---|---|---|
| `Collatz.Next` | src/managers/game.c:117 | an even value is halved exactly; an odd value maps to 3n+1, which is even; positive values stay positive and non-positive ones stay non-positive |
| `Collatz.Collatz` | src/managers/game.c:113-119 | the loop returns `Steps(num, fuel)` for every `num` whose trajectory reaches 1 within the fuel; the fuel is ghost and only witnesses termination |
| `Collatz.Steps` | src/managers/game.c:116-117 | the count never exceeds the number of steps any terminating trajectory is given |
| `Collatz.StepsFuelIndependent` | src/managers/game.c:113-119 | the count depends only on `num`, not on the fuel used to measure it |
| `Collatz.ReachesOneMonotone` | src/managers/game.c:116 | a trajectory that reaches 1 within some steps also does so within more |
| `Collatz.StepsRecurrence` | src/managers/game.c:116-117 | for `num != 1`, `_collatz(num) == 1 + _collatz(next(num))` |
| `Collatz.StepsIsFirstHit` | src/managers/game.c:116-117 | the count is the first k at which the k-th iterate of the step is 1: it is 1 there and at no earlier k |
| `Collatz.FirstHitIsSteps` | src/managers/game.c:116-117 | conversely, the first k at which the iterate is 1 is the count |
| `Collatz.IterateShift` | src/managers/game.c:116-117 | one step first and then k, or k steps and then one, give the same value |
| `Collatz.One` | src/managers/game.c:115-116 | `_collatz(1) == 0` |
| `Collatz.PowerOfTwoSteps` | src/managers/game.c:113-119 | `_collatz(2^k) == k` for every k |
| `Collatz.StepBack` | src/managers/game.c:116-117 | a value other than 1 takes one step more than its successor |
| `Collatz.TwentySeven` | src/managers/game.c:113-119 | `_collatz(27) == 111` |
| `Collatz.NonPositiveNeverReachesOne` | src/managers/game.c:116-117 | for `num <= 0` the value never becomes 1, so the C loop does not terminate |
| `Factors.Scanned` | src/managers/game.c:126-129 | the scanned part is the longest prefix of the cache whose entries all have square at most `num`: a prefix, all squares at most `num`, and the next entry (if any) has square above `num` |
| `Factors.ScannedUnique` | src/managers/game.c:126-129 | any prefix with those three properties is the scanned one |
| `Factors.CountDivisors` | src/managers/game.c:130-131 | the divisor count is at most the number of scanned entries |
| `Factors.ScanCount` | src/managers/game.c:126-132 | the loop's count, as a recursion over the cache, never exceeds the number of cached entries |
| `Factors.CountFront` | src/managers/game.c:130-131 | counting the first entry on its own and then the rest gives the same count |
| `Factors.ScanCountIsCount` | src/managers/game.c:126-132 | the loop's count is the number of entries of the scanned prefix that divide `num` |
| `Factors.ScanStopsAt` | src/managers/game.c:126-132 | if the loop stops at index i (all squares before it at most `num`, the one at i above it or the end of the cache), the count is the number of divisors among the first i entries |
| `Factors.CountZeroIff` | src/managers/game.c:130-133 | the count is 0 exactly when no scanned entry divides `num`, in both directions |
| `Factors.FactorsStep` | src/managers/game.c:123-141 | a call only appends, by at most one entry and at the end; keeps every entry above 1; and never grows the table past 100000 |
| `Factors.SmallNum` | src/managers/game.c:126-133 | `num <= 1` returns 0 and leaves the cache unchanged |
| `Factors.AppendsNewPrime` | src/managers/game.c:133-136 | `num > 1`, no scanned entry divides it and `_num < 100000`: returns 0 and the cache becomes the old one plus `num` |
| `Factors.OverflowWhenFull` | src/managers/game.c:133-138 | the same with the table full: returns 999 and the cache is unchanged |
| `Factors.CountsDivisors` | src/managers/game.c:126-133 | `num <= 1` or some scanned entry divides `num`: cache unchanged, result is the number of scanned entries that divide `num`, at least 1 when `num > 1` |
| `Factors.Twelve` | src/managers/game.c:126-133 | `_factors(12) == 2` with 2 and 3 cached, and with 2, 3, 5, 7, 11 cached (the scan stops at 5) |
| `Factors.OutOfOrder` | src/managers/game.c:133-136 | calls for 9 and then 3 on an empty table leave `[9, 3]`: the table is not kept sorted when calls come out of order |
| `Factors.PrimeCache.constructor` | src/managers/game.c:21-22 | the table starts zero-filled with `_num == 0` and an empty cache |
| `Factors.PrimeCache.Factors` | src/managers/game.c:123-141 | the returned value and the new cache are those of `FactorsStep` on the old cache; `_num` stays within 0..100000; every entry other than the one at the old `_num` is unchanged |
| `Colouring.Process` | src/managers/game.c:145-147 | every number gets a fully opaque colour (`WHITE`) and no cache state is read or written |
| `Colouring.SwitchColour` | src/managers/game.c:148-156 | the dead switch gives an opaque colour exactly for the results 0 (white) and 999 (red), and alpha 0 otherwise |
| `Colouring.ProcessSwitched` | src/managers/game.c:148-156 | the switch run live: the colour is `SwitchColour` of the `_factors` result, and the cache is updated as `_factors` updates it |
| `PrimeRun.Run` | src/managers/game.c:123-141 | after the calls for 1..n from an empty table, every entry is above 1 and there are at most n entries |
| `PrimeRun.RunStep` | src/managers/game.c:133-139 | each call of the run keeps the old cache as a prefix and adds at most one entry |
| `PrimeRun.RunGrows` | src/managers/game.c:135-136 | the cache never shrinks along the run |
| `PrimeRun.SmallRunsNeverFull` | src/managers/game.c:135-138 | the 999 sentinel cannot occur during the calls for 1..100000 |
| `PrimeRun.NeverFullBefore` | src/managers/game.c:135-136 | if the table has room at the call for n, it had room at every earlier call |
| `PrimeRun.PrimeIsAppended` | src/managers/game.c:126-136 | given the primes below a prime n, the call for n returns 0 and appends n |
| `PrimeRun.CompositeIsCounted` | src/managers/game.c:126-133 | given the primes below a composite n, the call for n finds a prime factor: it returns at least 1 and leaves the cache unchanged |
| `PrimeRun.AppendPrime` | src/managers/game.c:136 | appending a prime n to the ascending primes below n gives the ascending primes up to n |
| `PrimeRun.SkipNonPrime` | src/managers/game.c:133 | a number that is not prime adds no entry: the primes below it are the primes up to it |
| `PrimeRun.StepKeepsPrimes` | src/managers/game.c:123-141 | one call in increasing order keeps the cache equal to the ascending primes so far; a prime returns 0 and is appended; a non-prime leaves the cache unchanged and returns 0 exactly when it is 1 |
| `PrimeRun.RunHoldsPrimes` | src/managers/game.c:123-141 | after the calls for 1..n (table never full), the cache is strictly ascending and holds exactly the primes up to n, so each exactly once |
| `PrimeRun.CallInRun` | src/managers/game.c:123-141 | in that run the call for n returns 0 and appends n when n is prime, returns at least 1 when n is composite, returns 0 for 1, and appends nothing for a non-prime |
| `PrimeRun.AscendingLowerBound` | src/managers/game.c:126-129 | in a strictly ascending cache of entries above 1, the entry at position j is at least j + 2 |
| `PrimeRun.CompositeCountBelowSentinel` | src/managers/game.c:126-138 | below 1000000, a composite's count is between 1 and 998, so it never collides with the 999 sentinel |
| `PrimeRun.SwitchMarksPrimes` | src/managers/game.c:148-156 | with the switch live and the numbers processed in increasing order, a number below 1000000 is drawn exactly when it is 1 or a prime |
| `FrameLoop.Drawn` | src/managers/game.c:199-209 | the pixels drawn for lo..hi-1: at most one per number, each for a number in range with its own colour and nonzero alpha, in strictly increasing order of number |
| `FrameLoop.AlphaGate` | src/managers/game.c:206-208 | a pixel is drawn exactly for the numbers in range whose colour has nonzero alpha, in that colour (both directions) |
| `FrameLoop.DrawnSplit` | src/managers/game.c:199-209 | drawing two consecutive ranges of numbers draws their union, in order |
| `FrameLoop.ProcessDrawsEveryNumber` | src/managers/game.c:145-147 | with `_process` as written, the pixels for lo..hi-1 are exactly one white pixel per number, in order |
| `FrameLoop.DrawFrame` | src/managers/game.c:199-216 | one frame advances `num` by exactly 1000 and draws the gated pixels of the 1000 numbers it passes |
| `FrameLoop.FirstTrue` | src/managers/game.c:180 | the first frame at which the window asks to close, and the answers before it are all "keep running" |
| `FrameLoop.GameLoop` | src/managers/game.c:163-224 | `num` starts at 1; after the loop has run k frames (one more than the "keep running" answers before the first "close"), `num == 1 + 1000k` and the pixels drawn are the gated pixels of 1..num-1 |

## Left out

- Window, audio, logging and ECS setup and teardown (`_fini`, `_init_flecs`, `_init_raylib`, `_show_loading_screen`, `_init_managers`, `game_manager_init`, `game_manager_fini`): these are calls into raylib and flecs with no logic of their own.
- The floating-point spiral (`angle`, `length`, `asinf`, `Vector2Rotate`, the `while (angle > 360)` wrap): this is floating-point numerics, and `STEP` is defined in a header that is not part of this model. A drawn pixel is recorded with its number, not its position.
- The viewport scale and destination rectangle, `DrawTexturePro`, `BeginTextureMode`, `ClearBackground`, and the actual `DrawPixelV` call: these are rendering. Only the decision to draw is modelled.
- `WindowShouldClose()` becomes a sequence of answers passed in as a parameter. The loop model needs a `true` somewhere in it, because without one the C loop never ends.
- C `int` overflow of `3 * num + 1`, of `SQR(_primes[i])`, and of the frame counter `num += 1` (src/managers/game.c:209), which overflows on its 2147483647th increment, so `FrameLoop.GameLoop`'s `num == 1 + 1000k` matches C only for `k <= 2147483`: integers here are unbounded. This is the same as C's behaviour wherever C does not overflow.
- `src/defines.h` (window and raster sizes, the `MIN` macro): these feed only the viewport code that is left out.
- `Collatz.Collatz`: it takes a ghost fuel under which `num` reaches 1, so every call terminates. Inputs on which the C loop runs forever are outside the model. `Collatz.NonPositiveNeverReachesOne` shows that every `num <= 0` is such an input.
- `PrimeRun.RunHoldsPrimes`: it assumes the table never fills during the run (`NeverFull`). `PrimeRun.SmallRunsNeverFull` shows that this holds up to 100000. The run past the fill point, where primes get 999, is covered only by the per-call lemmas in `Factors`.
- `PrimeRun.SwitchMarksPrimes`: this is stated only below 1000000. It rules out a composite with 999 scanned prime divisors, which would collide with the sentinel. No C `int` has that many distinct prime factors, but that bound is not proved.
- No lemma evaluates the calls for 1..13 one by one; `PrimeRun.RunHoldsPrimes` gives the result for every n.
