# Verified model of the n-th prime sieve

The library answers `NthPrime(n)`, the zero-based n-th prime. It works in three steps:

- It estimates an upper bound: 15 below n = 6, and the floating-point formula `(int)(n * (ln n + ln ln n))` from 6 on.
- It runs a segmented sieve of Eratosthenes up to that bound. A plain sieve finds the base primes up to `(int)Math.Sqrt(limit) + 1`. Fixed-width windows `[low, high]` then cover the rest of the range. Each window is sieved by every base prime, starting at the prime's first multiple at or above `low`.
- It indexes the resulting ascending list at n.

A benchmark class repeats the algorithms over two fields, `limit` and `segmentSize`:

- a plain sieve;
- a sequential segmented sieve, which first clamps the `segmentSize` field to `limit`;
- a parallel segmented sieve, which sieves each window into its own slot of an array and then concatenates the base primes with the slots in index order.

The model proves each variant against one reference meaning. `IsPrime(k)` is the textbook definition. `PrimesBetween(lo, hi)` is the ascending list of primes in `[lo, hi]`. Each sieve is shown to return exactly such a list:

- the plain sieve returns `PrimesBetween(2, limit)` from limit 1 on;
- one window `[low, high]` returns `PrimesBetween(low, high)`;
- the sequential and the parallel segmented sieves return `PrimesBetween(2, limit)` from limit 2 on.

Below limit 2 the sequential segmented sieves still sieve the base range up to `FloorSqrt(limit) + 1`. These are `SieveImplementation.SegmentedSieve` and the benchmark's `SegmentedSieve()`. At limit 1 they return [2], where the plain sieve returns []. The parallel sieve is modelled from limit 2 on only. At limit 1 it throws for every segment size from 2 on; see "## Left out".

The modules follow the program's parts:

- `Primes`: the reference meaning, integer square root, divisibility facts, and Euclid's theorem.
- `BaseSieve`: the plain sieve on a `bool` array, its crossing-off loop and its collecting loop.
- `Segments`: the window arithmetic, one window's sieve, the sequential window loop, and the flattening of the independently filled windows.
- `SieveImplementation`: `csharp/Sieve/Sieve.cs`, covering the bound, `SegmentedSieve(limit)` and `NthPrime`.
- `Benchmarks`: the class `SieveBenchmarks` with its two fields.

Every call that can throw in the source is modelled as follows:

- `NthPrime` returns an `Outcome`, named after where the source throws. It is either the prime, `NegativeArgument` when the argument check rejects a negative n, or `IndexPastEnd` when `primes[(int)n]` is at or past the end of the list. In C# both failures are an `ArgumentOutOfRangeException`: the first carries the parameter name "n", the second the indexer's "index".
- Some inputs make the source throw or loop forever. For these the model has a precondition instead, each listed under "## Left out":
  - a sieve limit below 1 makes the sieve throw: limit 0 or -1 in `Array.Fill`, and a lower limit already at `new bool[limit + 1]`;
  - a segment size of 0 or less can make the window loop never end or `new bool[...]` throw.

A caller would expect the bound always to hold the 0-indexed n-th prime, or a length check to catch the case where it does not. The code has no length check. The model follows the code. `NthPrime` is therefore proved correct only when the sieved list is long enough, which is always the case below n = 6. The corrected variant with the check and a retry is `NthPrimeWithRetry`; see "## Findings".

## Model

| member | source | states |
|---|---|---|
| Primes.FloorSqrt | csharp/Sieve/Sieve.cs:35 | the integer square root that replaces `(int)Math.Sqrt(limit)`: `r * r <= n < (r + 1) * (r + 1)` |
| Primes.BaseLimitWithin | csharp/Sieve/Sieve.cs:35-36 | for limit >= 2 the base range end `FloorSqrt(limit) + 1` lies in [2, limit] and its successor's square exceeds limit, so every window lies where the base primes decide primality |
| Primes.RoundUpIsMultiple | csharp/Sieve/Sieve.cs:49-50 | `low + (prime - low % prime)` is a multiple of prime when low is not |
| Primes.PrimesBetweenMembers | csharp/Sieve/Sieve.cs:78-83 | the reference list holds a number exactly when it is a prime of the range |
| Primes.PrimesBetweenAscending | csharp/Sieve/Sieve.cs:78-83 | the reference list is strictly ascending, so it has no duplicates |
| Primes.PrimesBetweenSplit | csharp/Sieve/Sieve.cs:56-58 | the primes of [lo, mid] followed by those of [mid + 1, hi] are the primes of [lo, hi]: appending the next window's survivors extends the list without gap or duplicate |
| Primes.CountMonotone | csharp/Sieve/Sieve.cs:17-18 | a larger bound never holds fewer primes |
| Primes.IndexIsCount | csharp/Sieve/Sieve.cs:20 | entry n of an ascending prime list is a prime of the range with exactly n primes of the range below it: indexing at n selects the n-th prime |
| Primes.PrimeAbove | csharp/Sieve/Sieve.cs:17-18 | above every m there is a prime not above m! + 1, so no bound is too small to be outgrown |
| Primes.EuclidBoundCount | csharp/Sieve/Sieve.cs:17-18 | some explicit bound holds at least k + 1 primes, for every k |
| BaseSieve.CrossOffFromSquare | csharp/Sieve/Sieve.cs:69-74 | crossing off the multiples of i from i * i on yields exactly the marks "no proper divisor in [2, i]": the multiples below i * i were already crossed off |
| BaseSieve.CompositeAddsNothing | csharp/Sieve/Sieve.cs:71 | skipping an i that is already crossed off loses nothing |
| BaseSieve.NoDivisorBelowIsPrime | csharp/Sieve/Sieve.cs:69 | once i * i exceeds k, having no divisor below i is primality: stopping the outer loop at `i * i > limit` leaves no composite marked |
| BaseSieve.CrossOff | csharp/Sieve/Sieve.cs:73-74 | the inner loop clears exactly the marks of the multiples of step from start on and leaves every other mark as it was |
| BaseSieve.CollectSurvivors | csharp/Sieve/Sieve.cs:78-83 | over marks that agree with primality, the collecting loop returns the primes of the range in ascending order |
| BaseSieve.Sieve | csharp/Sieve/Sieve.cs:64-84 | for limit >= 1, exactly the ascending primes in [2, limit] |
| Segments.FirstMultipleAtLeast | csharp/Sieve/Sieve.cs:49-50 | the start index is a multiple of prime in [low, low + prime) |
| Segments.FirstMultipleIsLeast | csharp/Sieve/Sieve.cs:49-50 | no multiple of prime lies in [low, start): start is the least multiple at or above low |
| Segments.CrossedOffAreComposite | csharp/Sieve/Sieve.cs:52-53 | inside a window above the base range, every crossed-off number is a composite above the prime, so no base prime is crossed off |
| Segments.WindowLow | csharp/Sieve.Benchmarks/SieveBenchmarks.cs:87 | the start `basePrimeLimit + 1 + i * segmentSize` of window i. `WindowLowStep` proves that successive starts lie segmentSize apart, so it is also `low` after i steps of the sequential loop. `WindowLowAbove` proves that every start lies above the base range |
| Segments.WindowHigh | csharp/Sieve/Sieve.cs:43 | the end `Math.Min(low + segmentSize - 1, limit)` of window i. `WindowsConsecutive` bounds the window's length by segmentSize, and `WindowsEndAtLimit` puts the end of the last window at limit |
| Segments.NumSegments | csharp/Sieve.Benchmarks/SieveBenchmarks.cs:81 | the window count `(limit - basePrimeLimit) / segmentSize + 1`. The dividend is never negative there, so truncating and Euclidean division agree. `NumSegmentsPositive`, `WindowsCover` and `WindowsEndAtLimit` prove that the count is at least 1 and that these windows exactly cover [basePrimeLimit + 1, limit] |
| Segments.NumSegmentsPositive | csharp/Sieve.Benchmarks/SieveBenchmarks.cs:81 | `(limit - basePrimeLimit) / segmentSize + 1` is at least 1 once the base range fits inside limit |
| Segments.WindowsConsecutive | csharp/Sieve/Sieve.cs:41-43 | every window is at most segmentSize long, and until limit is reached the next window starts right after it |
| Segments.WindowsCover | csharp/Sieve.Benchmarks/SieveBenchmarks.cs:81-88 | every number in [basePrimeLimit + 1, limit] lies in one of the numSegments windows |
| Segments.WindowsDisjoint | csharp/Sieve.Benchmarks/SieveBenchmarks.cs:87-88 | no number lies in two windows |
| Segments.WindowsEndAtLimit | csharp/Sieve.Benchmarks/SieveBenchmarks.cs:81-89 | the numSegments windows start inside [basePrimeLimit + 1, limit + 1]; the last ends at limit and is empty exactly when the range length is a multiple of segmentSize; the next would start beyond limit + 1 |
| Segments.WindowFitsSegment | csharp/Sieve.Benchmarks/SieveBenchmarks.cs:87-89 | each of the numSegments windows lies above the base range and below the square of its successor, where one window's sieve is exact |
| Segments.SurvivorIsPrime | csharp/Sieve/Sieve.cs:47-54 | above the base range and below the square of its successor, surviving every base prime is primality |
| Segments.SieveSegment | csharp/Sieve/Sieve.cs:43-58 | one window `[low, high]` sieved by the base primes yields exactly the ascending primes of `[low, high]` |
| Segments.SegmentedPrimes | csharp/Sieve/Sieve.cs:35-61 | the base primes followed by every window's survivors are the primes up to `max(limit, FloorSqrt(limit) + 1)`; for limit >= 2, exactly the primes in [2, limit] |
| Segments.Flatten | csharp/Sieve.Benchmarks/SieveBenchmarks.cs:108 | `SelectMany(x => x)`: the lists one after another, in index order. `FlattenWindows` and `BaseThenWindows` prove that the flattened windows are the primes of [basePrimeLimit + 1, limit] |
| Segments.FlattenWindows | csharp/Sieve.Benchmarks/SieveBenchmarks.cs:108 | the first n windows' lists flattened in index order are the primes from basePrimeLimit + 1 to the end of window n - 1 |
| Segments.BaseThenWindows | csharp/Sieve.Benchmarks/SieveBenchmarks.cs:108 | the base primes followed by all numSegments windows flattened in index order are exactly the primes in [2, limit] |
| Segments.FillSlots | csharp/Sieve.Benchmarks/SieveBenchmarks.cs:85-106 | performing the slot writes in a given order never changes the number of slots |
| Segments.FillSlotsAt | csharp/Sieve.Benchmarks/SieveBenchmarks.cs:105 | after the writes in any order, a slot holds its own window's primes if it was written and its old value otherwise: iterations do not interfere |
| Segments.AnyOrderSameSlots | csharp/Sieve.Benchmarks/SieveBenchmarks.cs:85-106 | whatever order the iterations run in, once each has run the array holds window i's primes in slot i |
| SieveImplementation.EstimateUpperBound | csharp/Sieve/Sieve.cs:25-26 | below n = 6 the bound is one whose segmented sieve yields exactly the first six primes 2, 3, 5, 7, 11, 13 |
| SieveImplementation.SievedTop | csharp/Sieve/Sieve.cs:35-41 | the largest number the segmented sieve of limit covers, `max(limit, FloorSqrt(limit) + 1)`. The base range reaches `FloorSqrt(limit) + 1` and the windows reach limit. `SegmentedSieve` returns exactly the primes up to it, and `SievedBelowTwo` evaluates it at limits 0 and 1 |
| SieveImplementation.SievedBelowTwo | csharp/Sieve/Sieve.cs:35-41 | below limit 2 only the base range is sieved: limit 0 yields nothing, limit 1 yields [2] |
| SieveImplementation.SegmentedSieve | csharp/Sieve/Sieve.cs:33-62 | with windows `Math.Min(SEGMENT_SIZE, limit)` wide, exactly the primes in [2, limit] for limit >= 2, [2] for limit 1 and nothing for limit 0 |
| SieveImplementation.FirstSixPrimes | csharp/Sieve/Sieve.cs:25-26 | the primes up to 14 and up to 15 are both 2, 3, 5, 7, 11, 13 |
| SieveImplementation.NthPrimeOutcome | csharp/Sieve/Sieve.cs:12-21 | `NthPrime` as a value: the argument check, then the sieve up to the estimated bound, then the index into the list. `NthPrimeOutcomeCorrect` and `BoundForSixIsTooSmall` state what it means, and the method `NthPrime` is proved equal to it |
| SieveImplementation.NthPrimeOutcomeCorrect | csharp/Sieve/Sieve.cs:12-21 | `NthPrime` fails at the argument check exactly when n < 0, and whenever it yields a number, that number is prime with exactly n primes below it |
| SieveImplementation.BoundForSixIsTooSmall | csharp/Sieve/Sieve.cs:28-30 | with the bound 14 that the formula yields at n = 6, `NthPrime(6)` indexes past the end of the list |
| SieveImplementation.NthPrime | csharp/Sieve/Sieve.cs:12-21 | fails at the argument check exactly when n < 0; any prime result is the n-th prime; below n = 6 the result is always the n-th of 2, 3, 5, 7, 11, 13 |
| SieveImplementation.NthPrimeWithRetry | csharp/Sieve/Sieve.cs:17-20 | with a length check and a bound that doubles until the sieve holds more than n primes, every n >= 0 yields the n-th prime |
| SieveImplementation.NthPrimeMonotone | csharp/Sieve/Sieve.cs:20 | primes with more primes below them are larger: the selected prime grows with n |
| Benchmarks.SieveSlot | csharp/Sieve.Benchmarks/SieveBenchmarks.cs:86-105 | iteration i of the parallel loop writes window i's primes into slot i and changes no other slot |
| Benchmarks.SieveAllSlots | csharp/Sieve.Benchmarks/SieveBenchmarks.cs:85-106 | after the loop over the window index, slot i holds window i's primes for every i |
| Benchmarks.SieveBenchmarks.constructor | csharp/Sieve.Benchmarks/SieveBenchmarks.cs:13-19 | the benchmark starts with the given limit and segmentSize |
| Benchmarks.SieveBenchmarks.Sieve | csharp/Sieve.Benchmarks/SieveBenchmarks.cs:21-42 | for limit >= 1, exactly the ascending primes in [2, limit] |
| Benchmarks.SieveBenchmarks.SegmentedSieve | csharp/Sieve.Benchmarks/SieveBenchmarks.cs:44-74 | the segmentSize field becomes `min(segmentSize, limit)` and no other field changes; the result is the primes in [2, limit] for limit >= 2, the same list as `Sieve()` |
| Benchmarks.SieveBenchmarks.ParallelSegmentedSieve | csharp/Sieve.Benchmarks/SieveBenchmarks.cs:76-109 | the result is the base primes followed by the windows' primes flattened in index order, which is the primes in [2, limit], the same list as `SegmentedSieve()` and `Sieve()` |

The benchmark's private `Sieve(int)` (csharp/Sieve.Benchmarks/SieveBenchmarks.cs:111-131) has the same text as `Sieve(int)` in csharp/Sieve/Sieve.cs:64-84. Both are modelled by `BaseSieve.Sieve`, which the benchmark class calls.

## Left out

- EstimateUpperBound: the floating-point formula `(int)(n * (ln n + ln ln n))` for n >= 6 is not computed. Its value is the parameter `asymptoticBound`, because the model has no real logarithms. The contract states only the n < 6 branch, and `BoundForSixIsTooSmall` takes the value 14 that the formula gives at n = 6, worked out by hand.
- FloorSqrt: `Math.Sqrt` is replaced by the exact integer square root. Double rounding of large non-square limits is not modelled.
- 32-bit arithmetic is not modelled. This covers overflow of `i * i`, `j += i` and `low += segmentSize`; the `(int)` casts of n, of the bound and of `prime`; and the `long` versus `int` widths of the lists. All integers are unbounded.
- BaseSieve.Sieve: requires limit >= 1. For limit 0 or -1 `Array.Fill(isPrime, true, 2, limit - 1)` throws, and for a lower limit `new bool[limit + 1]` throws first. No caller passes a limit below 1.
- Segments.SegmentedPrimes: requires segmentSize >= 1 once limit >= 3. Up to limit 2 no window is sieved, so any segment size is allowed there. From limit 3 on, a segment size of 0 makes the window loop of the benchmark's `SegmentedSieve()` never end, and a negative one makes `new bool[...]` throw. These paths are not modelled. The library itself always passes `Math.Min(100000, limit)`.
- Benchmarks.SieveBenchmarks.ParallelSegmentedSieve: requires limit >= 2 and segmentSize >= 1.
  - For limit 0 or 1 most segment sizes make the source allocate a negative-length array and throw.
  - A segment size of 0 divides by zero.
  - These error paths are not modelled.
- Benchmarks.SieveBenchmarks.SegmentedSieve: the field write happens before the base sieve rather than just after it. The base sieve does not read the field, so the result and the final state are the same.
- `Parallel.For` scheduling and thread safety are not modelled. The loop runs in index order. `AnyOrderSameSlots` shows that any other order of the same writes gives the same array.
- The lists are modelled as sequences. The `ToList` copies, the `List<long>` growth and the laziness of `Concat`/`SelectMany` are allocation details with no effect on the result.
- The `ISieve` interface is a signature only.
- The BenchmarkDotNet attributes and parameter sets, `Program.Main` and `BenchmarkRunner.Run` are not modelled. The benchmark's parameters are constructor arguments instead.

## Findings

| source | as written | input that shows it | evidently intended | confidence | as-written member | corrected member |
|---|---|---|---|---|---|---|
| csharp/Sieve/Sieve.cs:28-30 | the bound `(int)(n * (ln n + ln ln n))` bounds the n-th prime counted from 1, but `NthPrime` indexes from 0, and nothing checks the list's length before `primes[(int)n]` | n = 6: the bound is `(int)14.25 = 14`, the sieve up to 14 yields six primes, and `primes[6]` is out of range (n = 7, 8, 9, 11 and 12, with bounds 18, 22, 26, 35 and 40, fail the same way: up to each bound there are exactly n primes; these bounds are the formula worked out in double precision) | `NthPrime(6) = 17` and `NthPrime(9) = 29`: a bound that holds at least n + 1 primes, or a length check that raises the bound and sieves again | high by hand evaluation of the formula; not executed | SieveImplementation.BoundForSixIsTooSmall | SieveImplementation.NthPrimeWithRetry |
