/** Which numbers below 23 * 23 are prime, and the place of each prime among all primes. */
module Primes {
  predicate Prime(p: nat) {
    p >= 2 && forall d :: 2 <= d < p ==> p % d != 0
  }

  /** How many primes there are below n. */
  ghost function PrimesBelow(n: nat): nat {
    if n == 0 then 0 else PrimesBelow(n - 1) + if Prime(n - 1) then 1 else 0
  }

  /** p is the prime with t primes before it. */
  ghost predicate IsNthPrime(t: nat, p: nat) {
    Prime(p) && PrimesBelow(p) == t
  }

  /** Not a multiple of a prime up to 19, other than that prime itself. */
  predicate Sieved(n: nat) {
    && n >= 2 && (n == 2 || n % 2 != 0) && (n == 3 || n % 3 != 0) && (n == 5 || n % 5 != 0) && (n == 7 || n % 7 != 0)
    && (n == 11 || n % 11 != 0) && (n == 13 || n % 13 != 0) && (n == 17 || n % 17 != 0) && (n == 19 || n % 19 != 0)
  }

  lemma Multiples(d: int, x: int)
    requires d >= 1
    ensures (x >= 1 ==> d * x >= d) && (x <= -1 ==> d * x <= -d)
  {
  }

  lemma Quotient(n: nat, d: nat, q: nat)
    requires d >= 1 && n == d * q
    ensures n % d == 0 && n / d == q
  {
    assert n == d * (n / d) + n % d;
    assert d * (q - n / d) == n % d;
    Multiples(d, q - n / d);
  }

  lemma BothLarge(d: nat, q: nat)
    ensures d >= 23 && q >= 23 ==> d * q >= 529
  {
  }

  lemma FactorDivides(n: nat, d: nat, f: nat)
    requires f >= 1 && d >= 1 && n % d == 0 && d % f == 0
    ensures n % f == 0
  {
    var a, b := n / d, d / f;
    assert n == d * a && d == f * b;
    assert n == f * (b * a);
    Quotient(n, f, b * a);
  }

  /** A number with a divisor up to 22 is a multiple of a prime up to 19. */
  lemma SmallDivisor(n: nat, d: nat)
    requires 2 <= d <= 22 && d < n && n % d == 0
    ensures !Sieved(n)
  {
    if d % 2 == 0 {
      FactorDivides(n, d, 2);
    } else if d % 3 == 0 {
      FactorDivides(n, d, 3);
    }
  }

  lemma CompositeIsNotSieved(n: nat, d: nat)
    requires 2 <= d < n < 529 && n % d == 0
    ensures !Sieved(n)
  {
    hide Sieved;
    var q := n / d;
    assert n == d * q;
    if d <= 22 {
      SmallDivisor(n, d);
    } else {
      BothLarge(d, q);
      Multiples(d, q - 1);
      Quotient(n, q, d);
      SmallDivisor(n, q);
    }
  }

  /** Below 23 * 23 the sieve leaves exactly the primes. */
  lemma SievedArePrimes(n: nat)
    requires n < 529
    ensures Sieved(n) <==> Prime(n)
  {
    if n >= 2 && !Prime(n) {
      var d :| 2 <= d < n && n % d == 0;
      CompositeIsNotSieved(n, d);
    }
  }

  /** The number k after p is not a prime before q. */
  predicate Skipped(p: nat, q: nat, k: nat) {
    p + k >= q || !Sieved(p + k)
  }

  /** q is the next prime after p, at most 14 away. */
  predicate FollowedBy(p: nat, q: nat) {
    && p < q < 529 && q <= p + 14 && Sieved(q)
    && Skipped(p, q, 1) && Skipped(p, q, 2) && Skipped(p, q, 3) && Skipped(p, q, 4) && Skipped(p, q, 5)
    && Skipped(p, q, 6) && Skipped(p, q, 7) && Skipped(p, q, 8) && Skipped(p, q, 9) && Skipped(p, q, 10)
    && Skipped(p, q, 11) && Skipped(p, q, 12) && Skipped(p, q, 13)
  }

  lemma NoneBetween(p: nat, q: nat, m: nat)
    requires FollowedBy(p, q) && p < m < q
    ensures !Prime(m)
  {
    hide Sieved;
    hide Prime;
    SievedArePrimes(m);
    assert Skipped(p, q, m - p);
  }

  lemma {:induction false} CountAcross(p: nat, q: nat, m: nat)
    requires FollowedBy(p, q) && p < m <= q
    ensures PrimesBelow(m) == PrimesBelow(p + 1)
    decreases m
  {
    hide FollowedBy;
    if p + 1 < m {
      NoneBetween(p, q, m - 1);
      CountAcross(p, q, m - 1);
    }
  }

  lemma NextPrime(t: nat, p: nat, q: nat)
    requires IsNthPrime(t, p) && FollowedBy(p, q)
    ensures IsNthPrime(t + 1, q)
  {
    SievedArePrimes(q);
    CountAcross(p, q, q);
  }

  lemma FirstPrime()
    ensures IsNthPrime(0, 2)
  {
    assert !Prime(1) && !Prime(0);
  }

  lemma {:induction false} CountGrows(p: nat, q: nat)
    requires p < q && Prime(p)
    ensures PrimesBelow(p) < PrimesBelow(q)
    decreases q
  {
    if p < q - 1 {
      CountGrows(p, q - 1);
    }
  }

  lemma OnePlaceOnePrime(t: nat, p: nat, q: nat)
    requires IsNthPrime(t, p) && IsNthPrime(t, q)
    ensures p == q
  {
    if p < q {
      CountGrows(p, q);
    } else if q < p {
      CountGrows(q, p);
    }
  }
}
