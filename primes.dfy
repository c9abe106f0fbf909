/** The reference meaning every sieve is proved against: primality, the ascending
    list of primes in a closed range, integer square root, and the small facts of
    divisibility the sieve proofs rest on. */
module Primes {

  ghost predicate IsPrime(k: int) {
    k >= 2 && forall d :: 2 <= d < k ==> k % d != 0
  }

  /** All primes in [lo, hi], in ascending order (empty when hi < lo). */
  ghost function PrimesBetween(lo: int, hi: int): seq<int>
    decreases hi - lo
  {
    if hi < lo then [] else PrimesBetween(lo, hi - 1) + (if IsPrime(hi) then [hi] else [])
  }

  ghost predicate StrictlyAscending(s: seq<int>) {
    forall i, j :: 0 <= i < j < |s| ==> s[i] < s[j]
  }

  function Min(a: int, b: int): int { if a <= b then a else b }

  function Max(a: int, b: int): int { if a >= b then a else b }

  /** The integer square root that stands for `(int)Math.Sqrt(n)`. */
  function FloorSqrt(n: int): (r: int)
    requires n >= 0
    ensures r >= 0 && r * r <= n < (r + 1) * (r + 1)
    decreases n
  {
    if n == 0 then 0
    else
      var s := FloorSqrt(n - 1);
      if (s + 1) * (s + 1) <= n then
        assert (s + 2) * (s + 2) == (s + 1) * (s + 1) + 2 * s + 3;
        s + 1
      else s
  }

  /** The base range `FloorSqrt(limit) + 1` fits inside [2, limit] once limit >= 2. */
  lemma BaseLimitWithin(limit: int)
    requires limit >= 2
    ensures var b := FloorSqrt(limit) + 1; 2 <= b <= limit && limit < (b + 1) * (b + 1)
  {
    var r := FloorSqrt(limit);
    if r >= 2 {
      BelowSquare(r);
    }
    assert (r + 2) * (r + 2) == (r + 1) * (r + 1) + 2 * r + 3;
  }

  // ---------------------------------------------------------------------------
  // Divisibility

  /** Multiplying by a non-negative factor keeps the order. */
  lemma MulMonotone(a: int, b: int, m: int)
    requires a <= b && 0 <= m
    ensures a * m <= b * m
  {
    if a < b && 0 < m {
      assert b * m - a * m == m * (b - a);
      MulSign(m, b - a);
    }
  }

  lemma SquareBelow(e: int, c: int)
    requires 0 <= e && 0 <= c && e * e < c * c
    ensures e < c
  {
    if c <= e {
      MulMonotone(c, e, e);
      MulMonotone(c, e, c);
    }
  }

  /** A number from 2 on is below its square. */
  lemma BelowSquare(i: int)
    requires i >= 2
    ensures i < i * i
  {
    MulSign(i, i - 1);
  }

  /** A proper multiple k of i below i * i has a cofactor that divides it and
      lies in [2, i). */
  lemma CofactorBelow(i: int, k: int) returns (q: int)
    requires 2 <= i < k < i * i && k % i == 0
    ensures 2 <= q < i && k % q == 0
  {
    MultipleAsProduct(i, k);
    q := k / i;
    assert k == q * i;
    MulSign(i, q - 1);
    MulSign(i, i - q);
    MultipleOfProduct(q, i);
  }

  /** Rounding low up to the next multiple of p. */
  lemma RoundUpIsMultiple(low: int, p: int)
    requires p >= 1 && low % p != 0
    ensures (low + (p - low % p)) % p == 0
  {
    var q := low / p;
    assert low + (p - low % p) == p * (q + 1) by {
      assert p * (q + 1) == p * q + p;
    }
    MultipleOfProduct(p, q + 1);
  }

  /** Where a multiple p * t of a positive p lies, by the sign of t. */
  lemma MulSign(p: int, t: int)
    requires p >= 1
    ensures t >= 1 ==> p * t >= p
    ensures t <= -1 ==> p * t <= -p
    ensures t == 0 ==> p * t == 0
  {
    if t >= 1 {
      assert p * t == p + p * (t - 1);
    } else if t <= -1 {
      assert p * t == -p + p * (t + 1);
    }
  }

  lemma MultipleOfProduct(p: int, q: int)
    requires p >= 1
    ensures (p * q) % p == 0
  {
    var m := p * q;
    var qq, rr := m / p, m % p;
    assert m == p * qq + rr && 0 <= rr < p;
    assert p * (q - qq) == rr;
    MulSign(p, q - qq);
  }

  /** A value is a multiple of p exactly when it is p times its quotient. */
  lemma MultipleAsProduct(p: int, a: int)
    requires p >= 1 && a % p == 0
    ensures a == p * (a / p)
  {
  }

  /** Two distinct multiples of p lie at least p apart. */
  lemma MultiplesApart(p: int, a: int, b: int)
    requires p >= 1 && a % p == 0 && b % p == 0 && a < b
    ensures a + p <= b
  {
    MultipleAsProduct(p, a);
    MultipleAsProduct(p, b);
    var qa, qb := a / p, b / p;
    assert b - a == p * (qb - qa);
    MulSign(p, qb - qa);
  }

  lemma MultipleStep(p: int, a: int)
    requires p >= 1 && a % p == 0
    ensures (a + p) % p == 0
  {
    MultipleAsProduct(p, a);
    assert a + p == p * (a / p + 1);
    MultipleOfProduct(p, a / p + 1);
  }

  lemma DivisorTransitive(n: int, d: int, p: int)
    requires d >= 1 && p >= 1 && n % d == 0 && d % p == 0
    ensures n % p == 0
  {
    MultipleAsProduct(d, n);
    MultipleAsProduct(p, d);
    assert n == p * ((d / p) * (n / d));
    MultipleOfProduct(p, (d / p) * (n / d));
  }

  /** A number with a proper divisor has one whose square does not exceed it. */
  lemma SmallDivisor(k: int, d: int) returns (e: int)
    requires 2 <= d < k && k % d == 0
    ensures 2 <= e <= d && e * e <= k && k % e == 0
  {
    if d * d <= k {
      e := d;
    } else {
      MultipleAsProduct(d, k);
      var q := k / d;
      assert k == d * q;
      assert k == q * d;
      MultipleOfProduct(q, d);
      assert q * q <= q * d;
      e := q;
    }
  }

  /** Every number from 2 on has a prime divisor not above it. */
  lemma {:induction false} PrimeDivisor(n: int) returns (p: int)
    requires n >= 2
    ensures IsPrime(p) && p <= n && n % p == 0
    decreases n
  {
    if IsPrime(n) {
      p := n;
    } else {
      var d :| 2 <= d < n && n % d == 0;
      p := PrimeDivisor(d);
      DivisorTransitive(n, d, p);
    }
  }

  // ---------------------------------------------------------------------------
  // The reference list of primes

  lemma {:induction false} PrimesBetweenMembers(lo: int, hi: int)
    ensures forall x :: x in PrimesBetween(lo, hi) <==> lo <= x <= hi && IsPrime(x)
    decreases hi - lo
  {
    if hi >= lo {
      PrimesBetweenMembers(lo, hi - 1);
    }
  }

  lemma {:induction false} PrimesBetweenAscending(lo: int, hi: int)
    ensures StrictlyAscending(PrimesBetween(lo, hi))
    decreases hi - lo
  {
    if hi >= lo {
      PrimesBetweenAscending(lo, hi - 1);
      PrimesBetweenMembers(lo, hi - 1);
      var s := PrimesBetween(lo, hi - 1);
      assert forall i :: 0 <= i < |s| ==> s[i] in s;
    }
  }

  /** Adjacent ranges concatenate: the list for [lo, mid] followed by the list for
      [mid + 1, hi] is the list for [lo, hi]. */
  lemma {:induction false} PrimesBetweenSplit(lo: int, mid: int, hi: int)
    requires lo <= mid + 1 <= hi + 1
    ensures PrimesBetween(lo, mid) + PrimesBetween(mid + 1, hi) == PrimesBetween(lo, hi)
    decreases hi - mid
  {
    if hi > mid {
      PrimesBetweenSplit(lo, mid, hi - 1);
      var tail := if IsPrime(hi) then [hi] else [];
      assert PrimesBetween(mid + 1, hi) == PrimesBetween(mid + 1, hi - 1) + tail;
      assert PrimesBetween(lo, mid) + (PrimesBetween(mid + 1, hi - 1) + tail)
          == (PrimesBetween(lo, mid) + PrimesBetween(mid + 1, hi - 1)) + tail;
    }
  }

  /** Counting primes is monotone in the upper end of the range. */
  lemma CountMonotone(lo: int, x: int, y: int)
    requires lo <= x + 1 && x <= y
    ensures |PrimesBetween(lo, x)| <= |PrimesBetween(lo, y)|
  {
    PrimesBetweenSplit(lo, x, y);
  }

  /** The n-th entry of an ascending prime list has exactly n primes of the
      range below it. */
  lemma IndexIsCount(lo: int, hi: int, n: int)
    requires 0 <= n < |PrimesBetween(lo, hi)|
    ensures lo <= PrimesBetween(lo, hi)[n] <= hi && IsPrime(PrimesBetween(lo, hi)[n])
    ensures |PrimesBetween(lo, PrimesBetween(lo, hi)[n] - 1)| == n
  {
    var s := PrimesBetween(lo, hi);
    var p := s[n];
    PrimesBetweenMembers(lo, hi);
    assert p in s;
    PrimesBetweenSplit(lo, p - 1, hi);
    var a, b := PrimesBetween(lo, p - 1), PrimesBetween(p, hi);
    assert s == a + b;
    PrimesBetweenMembers(lo, p - 1);
    PrimesBetweenMembers(p, hi);
    PrimesBetweenAscending(p, hi);
    PrimesBetweenSplit(p, p, hi);
    assert PrimesBetween(p, p) == [p];
    assert b[0] == p;
    if n < |a| {
      assert false;
    } else if n > |a| {
      assert false;
    }
  }

  // ---------------------------------------------------------------------------
  // There is always a larger prime (Euclid)

  function Factorial(m: nat): (f: nat)
    ensures f >= 1
  {
    if m == 0 then 1 else m * Factorial(m - 1)
  }

  lemma {:induction false} FactorialDivisible(m: nat, k: int)
    requires 1 <= k <= m
    ensures Factorial(m) % k == 0
  {
    if k == m {
      MultipleOfProduct(m, Factorial(m - 1));
    } else {
      FactorialDivisible(m - 1, k);
      assert Factorial(m) == Factorial(m - 1) * m;
      MultipleOfProduct(Factorial(m - 1), m);
      DivisorTransitive(Factorial(m), Factorial(m - 1), k);
    }
  }

  lemma PrimeAbove(m: nat) returns (p: int)
    ensures m < p <= Factorial(m) + 1 && IsPrime(p)
  {
    p := PrimeDivisor(Factorial(m) + 1);
    if p <= m {
      FactorialDivisible(m, p);
      MultiplesApart(p, Factorial(m), Factorial(m) + 1);
      assert false;
    }
  }

  /** A bound that provably holds k + 1 primes: 2, then m! + 1 after m. */
  function EuclidBound(k: nat): (b: nat)
    ensures b >= 2
  {
    if k == 0 then 2 else Factorial(EuclidBound(k - 1)) + 1
  }

  lemma {:induction false} EuclidBoundCount(k: nat)
    ensures |PrimesBetween(2, EuclidBound(k))| >= k + 1
  {
    if k == 0 {
      assert PrimesBetween(2, 1) == [];
      assert IsPrime(2);
    } else {
      var m := EuclidBound(k - 1);
      EuclidBoundCount(k - 1);
      var p := PrimeAbove(m);
      PrimesBetweenSplit(2, m, EuclidBound(k));
      PrimesBetweenMembers(m + 1, EuclidBound(k));
      assert p in PrimesBetween(m + 1, EuclidBound(k));
    }
  }
}
