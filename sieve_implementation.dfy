/** `SieveImplementation` of the library: the bound estimate, the segmented
    sieve with a fixed segment width, and the n-th prime selector. */
module SieveImplementation {
  import opened Primes
  import Segments

  const SEGMENT_SIZE := 100_000

  /** What `NthPrime` produces: the prime, or where it throws. Both failures
      are an `ArgumentOutOfRangeException` in C#: the first is thrown by the
      argument check on n, the second by the list indexer on "index". */
  datatype Outcome =
    | Prime(value: int)
    | NegativeArgument  // n < 0, thrown by the argument check before any sieving
    | IndexPastEnd      // primes[(int)n] at or past the end of the sieved list

  /** 15 below n = 6; from n = 6 on, the value the floating-point formula
      `(int)(n * (ln n + ln ln n))` computes, supplied as asymptoticBound. */
  function EstimateUpperBound(n: int, asymptoticBound: int): (bound: int)
    ensures n < 6 ==> bound >= 0 && PrimesBetween(2, SievedTop(bound)) == [2, 3, 5, 7, 11, 13]
  {
    if n < 6 then
      FirstSixPrimes();
      15
    else asymptoticBound
  }

  /** The largest number the segmented sieve of limit covers. */
  function SievedTop(limit: int): int
    requires limit >= 0
  {
    Max(limit, FloorSqrt(limit) + 1)
  }

  /** Below limit 2 the base range alone decides the result: nothing for
      limit 0 (base range [2, 1]) and [2] for limit 1 (base range [2, 2]). */
  lemma SievedBelowTwo()
    ensures PrimesBetween(2, SievedTop(0)) == []
    ensures PrimesBetween(2, SievedTop(1)) == [2]
  {
    assert FloorSqrt(1) == 1;
    assert PrimesBetween(2, 1) == [];
    assert IsPrime(2);
  }

  /** `SegmentedSieve(limit)`: the windows are `Math.Min(SEGMENT_SIZE, limit)` wide. */
  method SegmentedSieve(limit: int) returns (primes: seq<int>)
    requires limit >= 0
    ensures primes == PrimesBetween(2, SievedTop(limit))
    ensures limit >= 2 ==> primes == PrimesBetween(2, limit)
    ensures limit == 1 ==> primes == [2]
    ensures limit == 0 ==> primes == []
  {
    var segmentSize := Min(SEGMENT_SIZE, limit);
    primes := Segments.SegmentedPrimes(limit, segmentSize);
    SievedBelowTwo();
  }

  /** What `NthPrime(n)` does, as a value. */
  ghost function NthPrimeOutcome(n: int, asymptoticBound: int): Outcome
    requires n >= 6 ==> asymptoticBound >= 0
  {
    if n < 0 then NegativeArgument
    else
      var primes := PrimesBetween(2, SievedTop(EstimateUpperBound(n, asymptoticBound)));
      if n < |primes| then Prime(primes[n]) else IndexPastEnd
  }

  /** Primality of 2 .. 15: 2, 3, 5, 7, 11 and 13 are prime, the rest are not. */
  lemma SmallPrimality()
    ensures IsPrime(2) && IsPrime(3) && IsPrime(5) && IsPrime(7) && IsPrime(11) && IsPrime(13)
    ensures !IsPrime(4) && !IsPrime(6) && !IsPrime(8) && !IsPrime(9) && !IsPrime(10)
    ensures !IsPrime(12) && !IsPrime(14) && !IsPrime(15)
  {
    assert IsPrime(3) by {
      forall d | 2 <= d < 3 ensures 3 % d != 0 { assert d == 2; }
    }
    assert IsPrime(5) by {
      forall d | 2 <= d < 5 ensures 5 % d != 0 { assert d == 2 || d == 3 || d == 4; }
    }
    assert IsPrime(7) by {
      forall d | 2 <= d < 7 ensures 7 % d != 0 { assert d == 2 || d == 3 || d == 4 || d == 5 || d == 6; }
    }
    assert IsPrime(11) by {
      forall d | 2 <= d < 11 ensures 11 % d != 0 {
        assert d == 2 || d == 3 || d == 4 || d == 5 || d == 6 || d == 7 || d == 8 || d == 9 || d == 10;
      }
    }
    assert IsPrime(13) by {
      forall d | 2 <= d < 13 ensures 13 % d != 0 {
        assert d == 2 || d == 3 || d == 4 || d == 5 || d == 6 || d == 7 || d == 8 || d == 9 || d == 10 || d == 11 || d == 12;
      }
    }
    assert 4 % 2 == 0 && 6 % 2 == 0 && 8 % 2 == 0 && 9 % 3 == 0 && 10 % 2 == 0;
    assert 12 % 2 == 0 && 14 % 2 == 0 && 15 % 3 == 0;
  }

  /** The first six primes, and why the bound 15 suffices below n = 6 while the
      bound 14 that the formula gives at n = 6 does not. */
  lemma FirstSixPrimes()
    ensures PrimesBetween(2, 14) == [2, 3, 5, 7, 11, 13]
    ensures PrimesBetween(2, 15) == [2, 3, 5, 7, 11, 13]
    ensures SievedTop(14) == 14 && SievedTop(15) == 15
  {
    SquareBelow(FloorSqrt(14), 4);
    SquareBelow(FloorSqrt(15), 4);
    SmallPrimality();
    assert PrimesBetween(2, 3) == [2, 3];
    assert PrimesBetween(2, 5) == [2, 3, 5];
    assert PrimesBetween(2, 7) == [2, 3, 5, 7];
    assert PrimesBetween(2, 9) == [2, 3, 5, 7];
    assert PrimesBetween(2, 11) == [2, 3, 5, 7, 11];
    assert PrimesBetween(2, 13) == [2, 3, 5, 7, 11, 13];
  }

  /** A prime outcome is always right: it is prime and exactly n primes lie
      below it. */
  lemma NthPrimeOutcomeCorrect(n: int, asymptoticBound: int)
    requires n >= 6 ==> asymptoticBound >= 0
    ensures NthPrimeOutcome(n, asymptoticBound) == NegativeArgument <==> n < 0
    ensures NthPrimeOutcome(n, asymptoticBound).Prime? ==>
      IsPrime(NthPrimeOutcome(n, asymptoticBound).value) &&
      |PrimesBetween(2, NthPrimeOutcome(n, asymptoticBound).value - 1)| == n
  {
    if n >= 0 {
      var top := SievedTop(EstimateUpperBound(n, asymptoticBound));
      if n < |PrimesBetween(2, top)| {
        IndexIsCount(2, top, n);
      }
    }
  }

  /** With the bound 14 that the formula yields at n = 6 the sieve finds only six
      primes, so `primes[6]` is out of range. */
  lemma BoundForSixIsTooSmall()
    ensures NthPrimeOutcome(6, 14) == IndexPastEnd
  {
    FirstSixPrimes();
  }

  /** `NthPrime(n)`: reject a negative n, sieve up to the estimated bound, index
      the list. Correct whenever the bound holds more than n primes, which it
      does below n = 6. */
  method NthPrime(n: int, asymptoticBound: int) returns (r: Outcome)
    requires n >= 6 ==> asymptoticBound >= 0
    ensures r == NthPrimeOutcome(n, asymptoticBound)
    ensures r == NegativeArgument <==> n < 0
    ensures r.Prime? ==> IsPrime(r.value) && |PrimesBetween(2, r.value - 1)| == n
    ensures 0 <= n < 6 ==> r == Prime([2, 3, 5, 7, 11, 13][n])
  {
    if n < 0 {
      r := NegativeArgument;
    } else {
      var upperBound := EstimateUpperBound(n, asymptoticBound);
      var primes := SegmentedSieve(upperBound);
      if n < |primes| {
        r := Prime(primes[n]);
      } else {
        r := IndexPastEnd;
      }
    }
    NthPrimeOutcomeCorrect(n, asymptoticBound);
  }

  /** `NthPrime` with the length check and retry it lacks: while the sieve holds
      no more than n primes, double the bound and sieve again. It always yields
      the n-th prime for n >= 0. */
  method NthPrimeWithRetry(n: int, asymptoticBound: int) returns (r: Outcome)
    requires n >= 6 ==> asymptoticBound >= 1
    ensures r == NegativeArgument <==> n < 0
    ensures n >= 0 ==> r.Prime? && IsPrime(r.value) && |PrimesBetween(2, r.value - 1)| == n
  {
    if n < 0 {
      return NegativeArgument;
    }
    var upperBound := EstimateUpperBound(n, asymptoticBound);
    var primes := SegmentedSieve(upperBound);
    EuclidBoundCount(n);
    while |primes| <= n
      invariant upperBound >= 1 && primes == PrimesBetween(2, SievedTop(upperBound))
      decreases EuclidBound(n) - upperBound
    {
      if upperBound >= EuclidBound(n) {
        CountMonotone(2, EuclidBound(n), SievedTop(upperBound));
      }
      upperBound := 2 * upperBound;
      primes := SegmentedSieve(upperBound);
    }
    IndexIsCount(2, SievedTop(upperBound), n);
    r := Prime(primes[n]);
  }

  /** The n-th prime grows with n: distinct counts of smaller primes mean
      distinct, equally ordered primes. */
  lemma NthPrimeMonotone(p1: int, p2: int)
    requires IsPrime(p1) && IsPrime(p2)
    requires |PrimesBetween(2, p1 - 1)| < |PrimesBetween(2, p2 - 1)|
    ensures p1 < p2
  {
    if p2 <= p1 {
      CountMonotone(2, p2 - 1, p1 - 1);
    }
  }
}
