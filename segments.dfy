/** The segmented sieve: base primes up to `FloorSqrt(limit) + 1`, then windows
    [low, high] of at most `segmentSize` numbers over the rest of [2, limit], each
    sieved with its own mark array by the base primes. */
module Segments {
  import opened Primes
  import opened BaseSieve

  // ---------------------------------------------------------------------------
  // Where a base prime starts crossing off inside a window

  /** `low % prime == 0 ? low : low + (prime - low % prime)`: the first multiple
      of prime that is at least low. */
  function FirstMultipleAtLeast(low: int, prime: int): (start: int)
    requires prime >= 1
    ensures start % prime == 0 && low <= start < low + prime
  {
    var remainder := low % prime;
    if remainder == 0 then low
    else
      RoundUpIsMultiple(low, prime);
      low + (prime - remainder)
  }

  /** No multiple of prime lies in [low, start): start is the least one. */
  lemma FirstMultipleIsLeast(low: int, prime: int, m: int)
    requires prime >= 1 && low <= m && m % prime == 0
    ensures FirstMultipleAtLeast(low, prime) <= m
  {
    var start := FirstMultipleAtLeast(low, prime);
    if m < start {
      MultiplesApart(prime, m, start);
    }
  }

  /** Inside a window above the base range, a base prime crosses off only
      composites strictly above itself, so no base prime is crossed off. */
  lemma CrossedOffAreComposite(basePrimeLimit: int, low: int, prime: int, k: int)
    requires 2 <= prime <= basePrimeLimit < low
    requires FirstMultipleAtLeast(low, prime) <= k && k % prime == 0
    ensures prime < k && !IsPrime(k)
  {
  }

  // ---------------------------------------------------------------------------
  // The windows of the range [basePrimeLimit + 1, limit]

  function WindowLow(basePrimeLimit: int, segmentSize: int, i: int): int {
    basePrimeLimit + 1 + i * segmentSize
  }

  function WindowHigh(basePrimeLimit: int, segmentSize: int, limit: int, i: int): int {
    Min(WindowLow(basePrimeLimit, segmentSize, i) + segmentSize - 1, limit)
  }

  /** `(limit - basePrimeLimit) / segmentSize + 1`; the dividend is never negative
      here, so C#'s truncating division and Dafny's agree. */
  function NumSegments(basePrimeLimit: int, segmentSize: int, limit: int): int
    requires segmentSize >= 1 && basePrimeLimit <= limit
  {
    (limit - basePrimeLimit) / segmentSize + 1
  }

  lemma NumSegmentsPositive(basePrimeLimit: int, segmentSize: int, limit: int)
    requires segmentSize >= 1 && basePrimeLimit <= limit
    ensures NumSegments(basePrimeLimit, segmentSize, limit) >= 1
  {
    DivMonotone(0, limit - basePrimeLimit, segmentSize);
  }

  /** Every window is at most segmentSize long and, until limit is reached, the
      next one starts right after it. */
  lemma WindowsConsecutive(basePrimeLimit: int, segmentSize: int, limit: int, i: int)
    requires segmentSize >= 1
    ensures WindowHigh(basePrimeLimit, segmentSize, limit, i) - WindowLow(basePrimeLimit, segmentSize, i) + 1 <= segmentSize
    ensures WindowHigh(basePrimeLimit, segmentSize, limit, i) < limit ==>
      WindowHigh(basePrimeLimit, segmentSize, limit, i) + 1 == WindowLow(basePrimeLimit, segmentSize, i + 1)
  {
    assert (i + 1) * segmentSize == i * segmentSize + segmentSize;
  }

  lemma WindowLowStep(basePrimeLimit: int, segmentSize: int, i: int)
    ensures WindowLow(basePrimeLimit, segmentSize, i + 1) == WindowLow(basePrimeLimit, segmentSize, i) + segmentSize
  {
    assert (i + 1) * segmentSize == i * segmentSize + segmentSize;
  }

  lemma WindowLowAbove(basePrimeLimit: int, segmentSize: int, i: int)
    requires segmentSize >= 1 && i >= 0
    ensures WindowLow(basePrimeLimit, segmentSize, i) >= basePrimeLimit + 1
  {
    MulSign(segmentSize, i);
  }

  lemma DivMonotone(x: int, y: int, s: int)
    requires 0 <= x <= y && s >= 1
    ensures x / s <= y / s
  {
    MulSign(s, x / s - y / s);
  }

  /** Every number above the base range and up to limit lies in one of the
      NumSegments windows. */
  lemma WindowsCover(basePrimeLimit: int, segmentSize: int, limit: int, k: int) returns (i: int)
    requires segmentSize >= 1 && basePrimeLimit + 1 <= k <= limit
    ensures 0 <= i < NumSegments(basePrimeLimit, segmentSize, limit)
    ensures WindowLow(basePrimeLimit, segmentSize, i) <= k <= WindowHigh(basePrimeLimit, segmentSize, limit, i)
  {
    i := (k - basePrimeLimit - 1) / segmentSize;
    DivMonotone(k - basePrimeLimit - 1, limit - basePrimeLimit, segmentSize);
  }

  /** No number lies in two windows. */
  lemma WindowsDisjoint(basePrimeLimit: int, segmentSize: int, limit: int, i: int, j: int, k: int)
    requires segmentSize >= 1
    requires WindowLow(basePrimeLimit, segmentSize, i) <= k <= WindowHigh(basePrimeLimit, segmentSize, limit, i)
    requires WindowLow(basePrimeLimit, segmentSize, j) <= k <= WindowHigh(basePrimeLimit, segmentSize, limit, j)
    ensures i == j
  {
    MulSign(segmentSize, i - j);
  }

  /** The windows numbered below NumSegments start inside [basePrimeLimit + 1,
      limit + 1]; the last one ends at limit and is empty exactly when the range
      length is a multiple of segmentSize; the next one would start beyond
      limit + 1. */
  lemma WindowsEndAtLimit(basePrimeLimit: int, segmentSize: int, limit: int, i: int)
    requires segmentSize >= 1 && basePrimeLimit <= limit
    requires 0 <= i < NumSegments(basePrimeLimit, segmentSize, limit)
    ensures basePrimeLimit + 1 <= WindowLow(basePrimeLimit, segmentSize, i) <= limit + 1
    ensures i == NumSegments(basePrimeLimit, segmentSize, limit) - 1 ==>
      WindowHigh(basePrimeLimit, segmentSize, limit, i) == limit &&
      (WindowLow(basePrimeLimit, segmentSize, i) == limit + 1 <==> (limit - basePrimeLimit) % segmentSize == 0) &&
      WindowLow(basePrimeLimit, segmentSize, i + 1) > limit + 1
  {
    var q := (limit - basePrimeLimit) / segmentSize;
    MulSign(segmentSize, q - i);
    MulSign(segmentSize, i);
    assert (i + 1) * segmentSize == i * segmentSize + segmentSize;
  }

  /** For limit >= 2 each of the NumSegments windows lies where SieveSegment can
      sieve it: above the base range and below the square of its successor. */
  lemma WindowFitsSegment(basePrimeLimit: int, segmentSize: int, limit: int, i: int)
    requires segmentSize >= 1 && 1 <= basePrimeLimit <= limit
    requires limit < (basePrimeLimit + 1) * (basePrimeLimit + 1)
    requires 0 <= i < NumSegments(basePrimeLimit, segmentSize, limit)
    ensures basePrimeLimit < WindowLow(basePrimeLimit, segmentSize, i)
    ensures WindowLow(basePrimeLimit, segmentSize, i) <= WindowHigh(basePrimeLimit, segmentSize, limit, i) + 1
    ensures WindowHigh(basePrimeLimit, segmentSize, limit, i) < (basePrimeLimit + 1) * (basePrimeLimit + 1)
  {
    WindowsEndAtLimit(basePrimeLimit, segmentSize, limit, i);
  }

  // ---------------------------------------------------------------------------
  // Sieving one window

  /** No entry of ps from 2 on divides k. */
  ghost predicate NoneDivides(ps: seq<int>, k: int) {
    forall p :: p in ps && p >= 2 ==> k % p != 0
  }

  lemma NoneDividesAppend(ps: seq<int>, p: int, k: int)
    requires p >= 2
    ensures NoneDivides(ps + [p], k) <==> NoneDivides(ps, k) && k % p != 0
  {
    if NoneDivides(ps + [p], k) {
      assert p in ps + [p];
      forall q | q in ps && q >= 2
        ensures k % q != 0
      {
        assert q in ps + [p];
      }
    }
    if NoneDivides(ps, k) && k % p != 0 {
      forall q | q in ps + [p] && q >= 2
        ensures k % q != 0
      {
        if q != p {
          assert q in ps;
        }
      }
    }
  }

  /** Above the base range and below the square of its successor, surviving
      every base prime is primality. */
  lemma SurvivorIsPrime(basePrimeLimit: int, k: int)
    requires 1 <= basePrimeLimit < k < (basePrimeLimit + 1) * (basePrimeLimit + 1)
    ensures NoneDivides(PrimesBetween(2, basePrimeLimit), k) <==> IsPrime(k)
  {
    PrimesBetweenMembers(2, basePrimeLimit);
    if !IsPrime(k) {
      var d :| 2 <= d < k && k % d == 0;
      var e := SmallDivisor(k, d);
      SquareBelow(e, basePrimeLimit + 1);
      var p := PrimeDivisor(e);
      DivisorTransitive(k, e, p);
      assert p in PrimesBetween(2, basePrimeLimit);
    }
  }

  /** The body of one window: a fresh mark array for [low, high], every base
      prime crossing off its multiples from the first one at or above low, and
      the survivors collected in ascending order. */
  method SieveSegment(basePrimes: seq<int>, basePrimeLimit: int, low: int, high: int)
    returns (segmentPrimes: seq<int>)
    requires 1 <= basePrimeLimit < low <= high + 1
    requires high < (basePrimeLimit + 1) * (basePrimeLimit + 1)
    requires basePrimes == PrimesBetween(2, basePrimeLimit)
    ensures segmentPrimes == PrimesBetween(low, high)
  {
    var isPrime := new bool[high - low + 1];
    forall idx | 0 <= idx < isPrime.Length {
      isPrime[idx] := true;
    }
    PrimesBetweenMembers(2, basePrimeLimit);

    for t := 0 to |basePrimes|
      invariant forall k :: low <= k <= high ==> (isPrime[k - low] <==> NoneDivides(basePrimes[..t], k))
    {
      var prime := basePrimes[t];
      assert prime in basePrimes;
      var remainder := low % prime;
      var start := if remainder == 0 then low else low + (prime - remainder);
      assert start == FirstMultipleAtLeast(low, prime);
      CrossOff(isPrime, low, start, prime);
      ghost var done := basePrimes[..t + 1];
      assert done == basePrimes[..t] + [prime];
      forall k | low <= k <= high
        ensures isPrime[k - low] <==> NoneDivides(done, k)
      {
        if k % prime == 0 {
          FirstMultipleIsLeast(low, prime, k);
        }
        NoneDividesAppend(basePrimes[..t], prime, k);
      }
    }
    assert basePrimes[..|basePrimes|] == basePrimes;

    forall idx | 0 <= idx < isPrime.Length
      ensures isPrime[idx] <==> IsPrime(low + idx)
    {
      SurvivorIsPrime(basePrimeLimit, low + idx);
    }
    segmentPrimes := CollectSurvivors(isPrime, low, low);
  }

  // ---------------------------------------------------------------------------
  // The sequential orchestrator

  /** Base primes up to `FloorSqrt(limit) + 1`, followed by the survivors of each
      window in ascending order. For limit >= 2 that is every prime up to limit;
      for limit = 1 the base range alone already yields [2]. Up to limit 2 no
      window is sieved, so any segment size will do. */
  method SegmentedPrimes(limit: int, segmentSize: int) returns (primes: seq<int>)
    requires limit >= 0
    requires segmentSize >= 1 || limit <= 2
    ensures primes == PrimesBetween(2, Max(limit, FloorSqrt(limit) + 1))
    ensures limit >= 2 ==> primes == PrimesBetween(2, limit)
  {
    var basePrimeLimit := FloorSqrt(limit) + 1;
    var basePrimes := BaseSieve.Sieve(basePrimeLimit);
    primes := basePrimes;

    assert limit < (basePrimeLimit + 1) * (basePrimeLimit + 1) by {
      if limit >= 2 {
        BaseLimitWithin(limit);
      } else {
        MulSign(basePrimeLimit + 1, basePrimeLimit + 1);
      }
    }
    var low := basePrimeLimit + 1;
    assert segmentSize >= 1 || limit < low by {
      if limit == 2 {
        assert FloorSqrt(2) >= 1;
      }
    }
    ghost var top := basePrimeLimit;
    ghost var index := 0;
    while low <= limit
      invariant segmentSize >= 1 || limit < low
      invariant basePrimeLimit + 1 <= low && 0 <= index
      invariant low == WindowLow(basePrimeLimit, segmentSize, index)
      invariant primes == PrimesBetween(2, top)
      invariant basePrimeLimit <= top
      invariant top == low - 1 || (top == limit && limit < low)
      invariant top == basePrimeLimit || top <= limit
      decreases limit - low
    {
      var high := Min(low + segmentSize - 1, limit);
      assert high == WindowHigh(basePrimeLimit, segmentSize, limit, index);
      var segmentPrimes := SieveSegment(basePrimes, basePrimeLimit, low, high);
      PrimesBetweenSplit(2, low - 1, high);
      primes := primes + segmentPrimes;
      top := high;
      assert (index + 1) * segmentSize == index * segmentSize + segmentSize;
      low := low + segmentSize;
      index := index + 1;
    }
    if limit >= 2 {
      BaseLimitWithin(limit);
    }
  }

  // ---------------------------------------------------------------------------
  // Windows sieved independently and concatenated in window order

  /** What window i contributes: its primes in ascending order. */
  ghost function WindowPrimes(basePrimeLimit: int, segmentSize: int, limit: int, i: int): seq<int> {
    PrimesBetween(WindowLow(basePrimeLimit, segmentSize, i), WindowHigh(basePrimeLimit, segmentSize, limit, i))
  }

  /** The lists of windows 0 .. n - 1, in index order. */
  ghost function Windows(basePrimeLimit: int, segmentSize: int, limit: int, n: int): seq<seq<int>>
    requires n >= 0
  {
    seq(n, i => WindowPrimes(basePrimeLimit, segmentSize, limit, i))
  }

  /** `SelectMany(x => x)`: the lists one after another, in index order. */
  function Flatten(ss: seq<seq<int>>): seq<int> {
    if ss == [] then [] else Flatten(ss[..|ss| - 1]) + ss[|ss| - 1]
  }

  /** The first n windows, flattened in index order, are the primes from
      basePrimeLimit + 1 up to the end of window n - 1. */
  lemma {:induction false} FlattenWindows(basePrimeLimit: int, segmentSize: int, limit: int, n: int)
    requires segmentSize >= 1 && 0 <= n
    requires WindowLow(basePrimeLimit, segmentSize, n - 1) <= limit + 1
    ensures Flatten(Windows(basePrimeLimit, segmentSize, limit, n))
         == PrimesBetween(basePrimeLimit + 1, Min(WindowLow(basePrimeLimit, segmentSize, n) - 1, limit))
  {
    if n > 0 {
      var f := Windows(basePrimeLimit, segmentSize, limit, n);
      assert f[..n - 1] == Windows(basePrimeLimit, segmentSize, limit, n - 1);
      var lo := WindowLow(basePrimeLimit, segmentSize, n - 1);
      WindowLowStep(basePrimeLimit, segmentSize, n - 2);
      WindowLowStep(basePrimeLimit, segmentSize, n - 1);
      WindowLowAbove(basePrimeLimit, segmentSize, n - 1);
      FlattenWindows(basePrimeLimit, segmentSize, limit, n - 1);
      var hi := Min(lo + segmentSize - 1, limit);
      assert f[n - 1] == PrimesBetween(lo, hi);
      assert Flatten(f) == Flatten(f[..n - 1]) + f[n - 1];
      PrimesBetweenSplit(basePrimeLimit + 1, lo - 1, hi);
    }
  }

  /** The base primes followed by all NumSegments windows flattened in index
      order are exactly the primes in [2, limit]. */
  lemma BaseThenWindows(basePrimeLimit: int, segmentSize: int, limit: int)
    requires 1 <= basePrimeLimit <= limit && segmentSize >= 1
    ensures PrimesBetween(2, basePrimeLimit)
          + Flatten(Windows(basePrimeLimit, segmentSize, limit, NumSegments(basePrimeLimit, segmentSize, limit)))
         == PrimesBetween(2, limit)
  {
    var n := NumSegments(basePrimeLimit, segmentSize, limit);
    WindowsEndAtLimit(basePrimeLimit, segmentSize, limit, n - 1);
    FlattenWindows(basePrimeLimit, segmentSize, limit, n);
    PrimesBetweenSplit(2, basePrimeLimit, limit);
  }

  /** The slots after the writes `slots[order[0]] := WindowPrimes(order[0])`,
      `slots[order[1]] := ...`, performed in the order listed. */
  ghost function FillSlots(basePrimeLimit: int, segmentSize: int, limit: int,
                           slots: seq<seq<int>>, order: seq<int>): (filled: seq<seq<int>>)
    requires forall s :: 0 <= s < |order| ==> 0 <= order[s] < |slots|
    ensures |filled| == |slots|
    decreases |order|
  {
    if order == [] then slots
    else FillSlots(basePrimeLimit, segmentSize, limit,
                   slots[order[0] := WindowPrimes(basePrimeLimit, segmentSize, limit, order[0])], order[1..])
  }

  /** Each slot ends up holding its own window's primes if written at all, and
      otherwise what it held: the writes do not interfere. */
  lemma {:induction false} FillSlotsAt(basePrimeLimit: int, segmentSize: int, limit: int,
                                       slots: seq<seq<int>>, order: seq<int>, k: int)
    requires forall s :: 0 <= s < |order| ==> 0 <= order[s] < |slots|
    requires 0 <= k < |slots|
    ensures FillSlots(basePrimeLimit, segmentSize, limit, slots, order)[k]
         == if k in order then WindowPrimes(basePrimeLimit, segmentSize, limit, k) else slots[k]
    decreases |order|
  {
    if order != [] {
      var next := slots[order[0] := WindowPrimes(basePrimeLimit, segmentSize, limit, order[0])];
      FillSlotsAt(basePrimeLimit, segmentSize, limit, next, order[1..], k);
      assert k in order <==> k == order[0] || k in order[1..];
    }
  }

  /** Whatever order the slots are processed in, once every slot has been
      processed the array is the same: slot i holds window i's primes. */
  lemma AnyOrderSameSlots(basePrimeLimit: int, segmentSize: int, limit: int,
                          slots: seq<seq<int>>, order: seq<int>)
    requires forall s :: 0 <= s < |order| ==> 0 <= order[s] < |slots|
    requires forall k :: 0 <= k < |slots| ==> k in order
    ensures FillSlots(basePrimeLimit, segmentSize, limit, slots, order)
         == Windows(basePrimeLimit, segmentSize, limit, |slots|)
  {
    forall k | 0 <= k < |slots|
      ensures FillSlots(basePrimeLimit, segmentSize, limit, slots, order)[k]
           == WindowPrimes(basePrimeLimit, segmentSize, limit, k)
    {
      FillSlotsAt(basePrimeLimit, segmentSize, limit, slots, order, k);
    }
  }
}
