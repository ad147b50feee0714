/** Primes, divisibility and the sum of the primes up to a bound: the
    reference that the prime-sum sieve is proved against. Divisibility is
    stated with `%`, the way the sieve itself computes. */
module Primes {

  /** `n` is prime: at least 2 and no divisor strictly between 1 and `n`. */
  ghost predicate IsPrime(n: int)
  {
    n >= 2 && forall d :: 2 <= d < n ==> n % d != 0
  }

  /** The sum of the primes from 2 up to `v`. */
  ghost function SumPrimes(v: int): (s: int)
    ensures s >= 0
    decreases v
  {
    if v < 2 then 0 else SumPrimes(v - 1) + (if IsPrime(v) then v else 0)
  }

  /** Quotient and remainder are determined by `a == d * q + r`,
      `0 <= r < d`. */
  lemma DivModUnique(a: int, d: int, q: int, r: int)
    requires d > 0 && 0 <= r < d && a == d * q + r
    ensures a / d == q && a % d == r
  {
    var q', r' := a / d, a % d;
    assert a == d * q' + r';
    assert d * (q - q') == r' - r;
    if q - q' >= 1 {
      assert d * (q - q') >= d * 1 by { MulLeft(d, 1, q - q'); }
    } else if q - q' <= -1 {
      assert d * (q' - q) >= d * 1 by { MulLeft(d, 1, q' - q); }
    }
  }

  /** Multiplying on the left by a non-negative number keeps the order. */
  lemma MulLeft(d: int, x: int, y: int)
    requires d >= 0 && x <= y
    ensures d * x <= d * y
  {
    assert d * y - d * x == d * (y - x);
  }

  /** A multiple of `d` leaves remainder 0, with its factor as quotient. */
  lemma MultipleMod(d: int, k: int)
    requires d > 0
    ensures (d * k) % d == 0 && (d * k) / d == k
  {
    DivModUnique(d * k, d, k, 0);
  }

  /** Remainder 0 means a multiple of the quotient. */
  lemma ModZero(n: int, d: int)
    requires d > 0 && n % d == 0
    ensures n == d * (n / d)
  {
  }

  /** A divisor of `m` divides every multiple of `m`. */
  lemma DividesMultiple(d: int, m: int, k: int)
    requires d > 0 && m % d == 0
    ensures (k * m) % d == 0
  {
    ModZero(m, d);
    assert k * m == d * (k * (m / d));
    MultipleMod(d, k * (m / d));
  }

  /** Divisibility is transitive. */
  lemma DividesTrans(q: int, e: int, n: int)
    requires q > 0 && e > 0 && e % q == 0 && n % e == 0
    ensures n % q == 0
  {
    ModZero(n, e);
    DividesMultiple(q, e, n / e);
    assert n == (n / e) * e;
  }

  /** Euclid's lemma for a factor below the prime: if prime `p` divides
      `a * b` with `0 < a < p`, it divides `b`. By induction on `a`, through
      the remainder of `p` by `a`. */
  lemma {:induction false} EuclidBelow(p: int, a: int, b: int)
    requires IsPrime(p) && 0 < a < p && (a * b) % p == 0
    ensures b % p == 0
    decreases a
  {
    if a == 1 {
      assert a * b == b;
    } else {
      var k, r := p / a, p % a;
      assert p == a * k + r;
      assert r != 0;
      ModZero(a * b, p);
      var j := (a * b) / p;
      assert r * b == p * (b - k * j) by {
        assert r * b == (p - a * k) * b;
        assert (p - a * k) * b == p * b - k * (a * b);
        assert a * b == p * j;
      }
      MultipleMod(p, b - k * j);
      EuclidBelow(p, r, b);
    }
  }

  /** Euclid's lemma: a prime that divides a product divides a factor. */
  lemma Euclid(p: int, a: int, b: int)
    requires IsPrime(p) && (a * b) % p == 0
    ensures a % p == 0 || b % p == 0
  {
    var r := a % p;
    if r != 0 {
      var q := a / p;
      assert a == p * q + r;
      ModZero(a * b, p);
      var j := (a * b) / p;
      assert r * b == p * (j - q * b) by {
        assert r * b == (a - p * q) * b;
        assert (a - p * q) * b == a * b - p * (q * b);
      }
      MultipleMod(p, j - q * b);
      EuclidBelow(p, r, b);
    }
  }

  /** Every number from 2 up has a prime divisor no larger than itself. */
  lemma {:induction false} PrimeFactor(n: int) returns (q: int)
    requires n >= 2
    ensures IsPrime(q) && q <= n && n % q == 0
    decreases n
  {
    if IsPrime(n) {
      q := n;
      MultipleMod(n, 1);
    } else {
      var e :| 2 <= e < n && n % e == 0;
      q := PrimeFactor(e);
      DividesTrans(q, e, n);
    }
  }

  /** The primes up to 10 add up to 17. */
  lemma SumPrimesTen()
    ensures SumPrimes(10) == 17
  {
    assert !IsPrime(4) by { assert 4 % 2 == 0; }
    assert !IsPrime(6) by { assert 6 % 2 == 0; }
    assert !IsPrime(8) by { assert 8 % 2 == 0; }
    assert !IsPrime(9) by { assert 9 % 3 == 0; }
    assert !IsPrime(10) by { assert 10 % 2 == 0; }
    assert IsPrime(2) && IsPrime(3) && IsPrime(5) && IsPrime(7);
  }
}
