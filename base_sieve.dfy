/** The sieve of Eratosthenes over [0, limit] on a `bool` array: every surviving
    `i` with `i * i <= limit` crosses off its multiples from `i * i` on, and the
    survivors are collected in ascending order. */
module BaseSieve {
  import opened Primes

  /** No divisor d with 2 <= d < bound is a proper divisor of k: what the mark of
      k says once every i below bound has been processed. */
  ghost predicate NoDivisorBelow(k: int, bound: int) {
    forall d :: 2 <= d < bound && d < k ==> k % d != 0
  }

  /** Processing i only ever clears inside [i * i, limit]: a proper multiple of i
      below i * i already has a smaller proper divisor, so crossing off from
      i * i onward yields exactly the marks for bound i + 1. */
  lemma CrossOffFromSquare(i: int, k: int)
    requires 2 <= i && 2 <= k
    ensures NoDivisorBelow(k, i + 1) <==> NoDivisorBelow(k, i) && !(i * i <= k && k % i == 0)
  {
    if NoDivisorBelow(k, i) && i < k && k % i == 0 && k < i * i {
      var q := CofactorBelow(i, k);
      assert false;
    }
    if i * i <= k && k % i == 0 {
      BelowSquare(i);
    }
  }

  /** A crossed-off i (one with a proper divisor) adds nothing to the marks. */
  lemma CompositeAddsNothing(i: int, k: int)
    requires 2 <= i && !NoDivisorBelow(i, i)
    ensures NoDivisorBelow(k, i + 1) <==> NoDivisorBelow(k, i)
  {
    if NoDivisorBelow(k, i) && i < k && k % i == 0 {
      var d :| 2 <= d < i && d < i && i % d == 0;
      DivisorTransitive(k, i, d);
      assert false;
    }
  }

  /** Once i * i exceeds k, having no divisor below i is primality. */
  lemma NoDivisorBelowIsPrime(k: int, i: int)
    requires 2 <= k && 2 <= i && k < i * i
    ensures NoDivisorBelow(k, i) <==> IsPrime(k)
  {
    if !IsPrime(k) {
      var d :| 2 <= d < k && k % d == 0;
      var e := SmallDivisor(k, d);
      SquareBelow(e, i);
      assert e < i && e < k && k % e == 0;
    }
  }

  /** `for (j = start; j <= high; j += step) marks[j - base] = false;` where the
      array holds the marks of base .. base + marks.Length - 1: clears exactly the
      multiples of step from start on. */
  method CrossOff(marks: array<bool>, base: int, start: int, step: int)
    requires step >= 1 && base <= start && start % step == 0
    modifies marks
    ensures forall idx :: 0 <= idx < marks.Length ==>
      marks[idx] == (old(marks[idx]) && !(start <= base + idx && (base + idx) % step == 0))
  {
    var j := start;
    while j < base + marks.Length
      invariant start <= j && j % step == 0
      invariant forall idx :: 0 <= idx < marks.Length ==>
        marks[idx] == (old(marks[idx]) && !(start <= base + idx < j && (base + idx) % step == 0))
    {
      marks[j - base] := false;
      forall k | j < k < j + step
        ensures k % step != 0
      {
        if k % step == 0 {
          MultiplesApart(step, j, k);
        }
      }
      MultipleStep(step, j);
      j := j + step;
    }
  }

  /** `for (i = lo; i <= high; i++) if (marks[i - base]) primes.Add(i);` over marks
      that agree with primality: the ascending primes in [lo, high]. */
  method CollectSurvivors(marks: array<bool>, base: int, lo: int) returns (primes: seq<int>)
    requires base <= lo <= base + marks.Length
    requires forall idx :: lo - base <= idx < marks.Length ==> (marks[idx] <==> IsPrime(base + idx))
    ensures primes == PrimesBetween(lo, base + marks.Length - 1)
  {
    primes := [];
    for k := lo to base + marks.Length
      invariant primes == PrimesBetween(lo, k - 1)
    {
      if marks[k - base] {
        primes := primes + [k];
      }
    }
  }

  /** `Sieve(limit)`: the ascending primes in [2, limit]. */
  method Sieve(limit: int) returns (primes: seq<int>)
    requires limit >= 1
    ensures primes == PrimesBetween(2, limit)
  {
    var isPrime := new bool[limit + 1];
    forall k | 2 <= k <= limit {
      isPrime[k] := true;
    }

    var i := 2;
    while i * i <= limit
      invariant 2 <= i
      invariant forall k :: 2 <= k <= limit ==> (isPrime[k] <==> NoDivisorBelow(k, i))
    {
      BelowSquare(i);
      if isPrime[i] {
        MultipleOfProduct(i, i);
        CrossOff(isPrime, 0, i * i, i);
        forall k | 2 <= k <= limit
          ensures isPrime[k] <==> NoDivisorBelow(k, i + 1)
        {
          CrossOffFromSquare(i, k);
        }
      } else {
        forall k | 2 <= k <= limit
          ensures isPrime[k] <==> NoDivisorBelow(k, i + 1)
        {
          CompositeAddsNothing(i, k);
        }
      }
      i := i + 1;
    }

    forall k | 2 <= k <= limit
      ensures isPrime[k] <==> IsPrime(k)
    {
      NoDivisorBelowIsPrime(k, i);
    }
    primes := CollectSurvivors(isPrime, 0, 2);
  }
}
