/** The benchmark class: the three sieve variants over its `limit` and
    `segmentSize` fields. Its private `Sieve(int)` is the base sieve of
    `BaseSieve`, which every variant here calls. */
module Benchmarks {
  import opened Primes
  import BaseSieve
  import Segments

  /** One iteration i of the parallel loop: window i sieved on its own mark
      array, reading only basePrimes, its primes stored in slot i and nowhere
      else. */
  method SieveSlot(localPrimes: array<seq<int>>, basePrimes: seq<int>,
                   basePrimeLimit: int, limit: int, segmentSize: int, i: int)
    requires segmentSize >= 1 && 1 <= basePrimeLimit <= limit
    requires limit < (basePrimeLimit + 1) * (basePrimeLimit + 1)
    requires basePrimes == PrimesBetween(2, basePrimeLimit)
    requires 0 <= i < localPrimes.Length
    requires i < Segments.NumSegments(basePrimeLimit, segmentSize, limit)
    modifies localPrimes
    ensures localPrimes[..] == old(localPrimes[..])[i := Segments.WindowPrimes(basePrimeLimit, segmentSize, limit, i)]
  {
    Segments.WindowFitsSegment(basePrimeLimit, segmentSize, limit, i);
    var low := basePrimeLimit + 1 + i * segmentSize;
    var high := Min(low + segmentSize - 1, limit);
    var segmentPrimes := Segments.SieveSegment(basePrimes, basePrimeLimit, low, high);
    localPrimes[i] := segmentPrimes;
  }

  /** `Parallel.For(0, numSegments, ...)`, run in index order: afterwards slot i
      holds window i's primes for every i. */
  method SieveAllSlots(localPrimes: array<seq<int>>, basePrimes: seq<int>,
                       basePrimeLimit: int, limit: int, segmentSize: int)
    requires segmentSize >= 1 && 1 <= basePrimeLimit <= limit
    requires limit < (basePrimeLimit + 1) * (basePrimeLimit + 1)
    requires basePrimes == PrimesBetween(2, basePrimeLimit)
    requires localPrimes.Length == Segments.NumSegments(basePrimeLimit, segmentSize, limit)
    modifies localPrimes
    ensures localPrimes[..] == Segments.Windows(basePrimeLimit, segmentSize, limit, localPrimes.Length)
  {
    for i := 0 to localPrimes.Length
      invariant forall s :: 0 <= s < i ==>
        localPrimes[s] == Segments.WindowPrimes(basePrimeLimit, segmentSize, limit, s)
    {
      SieveSlot(localPrimes, basePrimes, basePrimeLimit, limit, segmentSize, i);
    }
  }

  class SieveBenchmarks {
    var limit: int
    var segmentSize: int

    /** The benchmark parameters, as the benchmark runner sets them. */
    constructor (limit: int, segmentSize: int)
      ensures this.limit == limit && this.segmentSize == segmentSize
    {
      this.limit := limit;
      this.segmentSize := segmentSize;
    }

    /** The baseline: the plain sieve of Eratosthenes up to limit. */
    method Sieve() returns (primes: seq<int>)
      requires limit >= 1
      ensures primes == PrimesBetween(2, limit)
    {
      primes := BaseSieve.Sieve(limit);
    }

    /** The sequential segmented sieve; it first clamps the segmentSize field to
      limit, a write that outlives the call. */
    method SegmentedSieve() returns (primes: seq<int>)
      requires limit >= 0
      requires segmentSize >= 1 || limit <= 2
      modifies this`segmentSize
      ensures segmentSize == Min(old(segmentSize), limit)
      ensures primes == PrimesBetween(2, Max(limit, FloorSqrt(limit) + 1))
      ensures limit >= 2 ==> primes == PrimesBetween(2, limit)
    {
      segmentSize := Min(segmentSize, limit);
      primes := Segments.SegmentedPrimes(limit, segmentSize);
    }

    /** The parallel segmented sieve, its loop over the window index run in
      index order: every window fills its own slot (`SieveAllSlots`); the
      result is the base primes followed by the windows' primes flattened in
      index order, which is every prime up to limit. */
    method ParallelSegmentedSieve() returns (primes: seq<int>)
      requires limit >= 2 && segmentSize >= 1
      ensures var b := FloorSqrt(limit) + 1;
        b <= limit && primes == PrimesBetween(2, b) + Segments.Flatten(
          Segments.Windows(b, segmentSize, limit, Segments.NumSegments(b, segmentSize, limit)))
      ensures primes == PrimesBetween(2, limit)
    {
      var basePrimeLimit := FloorSqrt(limit) + 1;
      var basePrimes := BaseSieve.Sieve(basePrimeLimit);
      BaseLimitWithin(limit);
      var numSegments := (limit - basePrimeLimit) / segmentSize + 1;

      assert numSegments == Segments.NumSegments(basePrimeLimit, segmentSize, limit);
      Segments.NumSegmentsPositive(basePrimeLimit, segmentSize, limit);

      var localPrimes := new seq<int>[numSegments];
      SieveAllSlots(localPrimes, basePrimes, basePrimeLimit, limit, segmentSize);
      ghost var windows := Segments.Windows(basePrimeLimit, segmentSize, limit, numSegments);
      assert localPrimes[..] == windows;

      primes := basePrimes + Segments.Flatten(localPrimes[..]);
      Segments.BaseThenWindows(basePrimeLimit, segmentSize, limit);
    }
  }
}
