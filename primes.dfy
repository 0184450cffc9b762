/** Prime sizing shared by both maps: hash_map_oa.py and hash_map_sc.py carry identical
    copies of `_is_prime` (trial division by odd factors) and `_next_prime` (odd search). */
module Primes {
  import opened Arith

  ghost predicate Prime(n: int) {
    n >= 2 && forall d :: 2 <= d < n ==> n % d != 0
  }

  /** `p` is what `_next_prime(n)` returns: the least odd prime at or above `n`. */
  ghost predicate IsNextPrime(n: int, p: int) {
    Prime(p) && p % 2 == 1 && n <= p && NoOddPrime(n, p)
  }

  /** No odd number in `[lo, hi)` is prime. */
  ghost predicate NoOddPrime(lo: int, hi: int) {
    forall q :: lo <= q < hi && q % 2 == 1 ==> !Prime(q)
  }

  lemma NoOddPrimeStep(lo: int, p: int)
    requires NoOddPrime(lo, p) && p % 2 == 1 && !Prime(p)
    ensures NoOddPrime(lo, p + 2)
  {
  }

  /** An odd number has no even divisor. */
  lemma OddHasNoEvenDivisor(n: int, e: int)
    requires n % 2 == 1 && e >= 2 && e % 2 == 0
    ensures n % e != 0
  {
    var h := e / 2;
    assert e == 2 * h;
    if n % e == 0 {
      assert n == 2 * (h * (n / e)) + 0;
      ModUnique(n, 2, h * (n / e), 0);
    }
  }

  /** A divisor at or above `f` of a number below `f * f` has a cofactor below `f`. */
  lemma CofactorBelow(n: int, d: int, f: int)
    requires 2 <= f <= d < n && n < f * f
    ensures n % d == 0 ==> 2 <= n / d < f && n % (n / d) == 0
  {
    var e := n / d;
    if n % d == 0 {
      assert n == d * e;
      MulLe(f, d, f);
      MulLe(f, e, d);
      ModUnique(n, e, d, 0);
    }
  }

  /** A number below `f * f` with no divisor in `[2, f)` is prime. */
  lemma PrimeBySmallFactors(n: int, f: int)
    requires 2 <= f && 2 <= n < f * f
    requires forall d :: 2 <= d < f ==> n % d != 0
    ensures Prime(n)
  {
    forall d | f <= d < n
      ensures n % d != 0
    {
      CofactorBelow(n, d, f);
    }
  }

  /** `_is_prime`: 2 and 3 directly, then 1 and the even numbers, then trial division by
      odd factors while `factor * factor <= n`. Python's `%` agrees with Dafny's for the
      positive divisors used here, so a negative odd `n` passes every test and is reported
      prime. */
  method IsPrime(n: int) returns (b: bool)
    ensures b == (Prime(n) || (n < 0 && n % 2 == 1))
  {
    if n == 2 || n == 3 {
      return true;
    }
    if n == 1 || n % 2 == 0 {
      if n > 2 {
        Composite(n, 2);
      }
      return false;
    }
    var factor := 3;
    while factor * factor <= n
      invariant factor >= 3 && factor % 2 == 1
      invariant forall d :: 2 <= d < factor ==> n % d != 0
      decreases n - factor
    {
      SquareAbove(factor);
      if n % factor == 0 {
        Composite(n, factor);
        return false;
      }
      OddHasNoEvenDivisor(n, factor + 1);
      factor := factor + 2;
    }
    if n >= 2 {
      PrimeBySmallFactors(n, factor);
    }
    return true;
  }

  /** A proper divisor rules a number out. */
  lemma Composite(n: int, d: int)
    requires 2 <= d < n && n % d == 0
    ensures !Prime(n)
  {
  }

  lemma SquareAbove(f: int)
    requires f >= 2
    ensures f * f > f
  {
    MulBound(f, f - 1);
    assert f * f == f * (f - 1) + f;
  }

  function Fact(n: nat): (r: nat)
    ensures r >= 1
  {
    if n == 0 then 1 else n * Fact(n - 1)
  }

  lemma {:induction false} FactDivisible(k: nat, d: int)
    requires 1 <= d <= k
    ensures Fact(k) % d == 0
  {
    if d == k {
      ModUnique(Fact(k), k, Fact(k - 1), 0);
    } else {
      FactDivisible(k - 1, d);
      var a := Fact(k - 1) / d;
      assert Fact(k - 1) == d * a;
      assert Fact(k) == d * (k * a);
      ModUnique(Fact(k), d, k * a, 0);
    }
  }

  /** Every number from 2 up has a prime divisor. */
  lemma {:induction false} PrimeDivisor(n: int) returns (q: int)
    requires n >= 2
    ensures Prime(q) && n % q == 0
    decreases n
  {
    if Prime(n) {
      ModUnique(n, n, 1, 0);
      q := n;
    } else {
      var d :| 2 <= d < n && n % d == 0;
      q := PrimeDivisor(d);
      DividesTrans(n, d, q);
    }
  }

  /** There is an odd prime at or above any bound (Euclid's argument on `k! + 1`). */
  lemma OddPrimeAtLeast(m: int) returns (q: int)
    ensures Prime(q) && q % 2 == 1 && q >= m
  {
    var k: nat := if m < 2 then 2 else m;
    q := PrimeDivisor(Fact(k) + 1);
    if q <= k {
      FactDivisible(k, q);
      ModUnique(Fact(k) + 1, q, Fact(k) / q, 1);
    }
    assert q % 2 != 0;
  }

  /** `_next_prime`: bump an even input to odd, then step by 2 until `_is_prime` holds. */
  method NextPrime(n: int) returns (p: int)
    requires n >= 0
    ensures IsNextPrime(n, p) && p == NextPrimeOf(n)
  {
    p := n;
    if p % 2 == 0 {
      p := p + 1;
    }
    ghost var bound := OddPrimeAtLeast(p);
    var prime := IsPrime(p);
    while !prime
      invariant Searching(n, p, bound) && prime == Prime(p)
      decreases bound - p
    {
      SearchStep(n, p, bound);
      p := p + 2;
      prime := IsPrime(p);
    }
    NextPrimeUnique(n, p, NextPrimeOf(n));
  }

  /** The state of `_next_prime`'s loop: `p` is an odd candidate at or above `n`, no odd
      number before it is prime, and the odd prime `bound` is still ahead. */
  ghost predicate Searching(n: int, p: int, bound: int) {
    0 <= n <= p <= bound && p % 2 == 1 && NoOddPrime(n, p) && Prime(bound) && bound % 2 == 1
  }

  lemma SearchStep(n: int, p: int, bound: int)
    requires Searching(n, p, bound) && !Prime(p)
    ensures Searching(n, p + 2, bound) && 0 <= bound - (p + 2) < bound - p
  {
    NoOddPrimeStep(n, p);
  }

  lemma NextPrimeUnique(n: int, p: int, p': int)
    requires IsNextPrime(n, p) && IsNextPrime(n, p')
    ensures p == p'
  {
  }

  lemma {:induction false} NextPrimeFrom(n: int, c: int, bound: int) returns (p: int)
    requires n <= c <= bound && c % 2 == 1 && bound % 2 == 1 && Prime(bound)
    requires NoOddPrime(n, c)
    ensures IsNextPrime(n, p)
    decreases bound - c
  {
    if Prime(c) {
      p := c;
    } else {
      p := NextPrimeFrom(n, c + 2, bound);
    }
  }

  lemma NextPrimeExists(n: int)
    ensures exists p :: IsNextPrime(n, p)
  {
    var c := if n % 2 == 0 then n + 1 else n;
    var bound := OddPrimeAtLeast(c);
    var p := NextPrimeFrom(n, c, bound);
  }

  /** The value of `_next_prime(n)`, for use in specifications. */
  ghost function NextPrimeOf(n: int): (p: int)
    ensures IsNextPrime(n, p)
  {
    NextPrimeExists(n);
    var p :| IsNextPrime(n, p);
    p
  }

  lemma NextPrimeOfTwo()
    ensures NextPrimeOf(2) == 3
  {
    NextPrimeUnique(2, 3, NextPrimeOf(2));
  }

  lemma NextPrimeOfThirty()
    ensures NextPrimeOf(30) == 31
  {
    PrimeBySmallFactors(31, 6);
    NextPrimeUnique(30, 31, NextPrimeOf(30));
  }

  lemma NextPrimeOfOddPrime(p: int)
    requires Prime(p) && p % 2 == 1
    ensures NextPrimeOf(p) == p
  {
    NextPrimeUnique(p, p, NextPrimeOf(p));
  }

  /** On a prime, `_next_prime` is the identity except at 2, which it bumps to 3. */
  lemma NextPrimeOfPrime(p: int)
    requires Prime(p)
    ensures NextPrimeOf(p) == if p == 2 then 3 else p
  {
    if p == 2 {
      NextPrimeOfTwo();
    } else {
      assert p % 2 != 0;
      NextPrimeOfOddPrime(p);
    }
  }

  /** If `p` divides `x * y` then it divides `(p % x) * y`. */
  lemma RemainderStep(p: int, x: int, y: int)
    requires 0 < x && 0 < p
    ensures (x * y) % p == 0 ==> ((p % x) * y) % p == 0
  {
    if (x * y) % p == 0 {
      var q, r, a := p / x, p % x, (x * y) / p;
      assert p == x * q + r;
      assert x * y == p * a;
      assert r * y == p * y - q * (x * y);
      assert r * y == p * (y - q * a) + 0;
      ModUnique(r * y, p, y - q * a, 0);
    }
  }

  /** Euclid's lemma in the form needed here: a prime divides no product of two numbers
      strictly between 0 and itself. */
  lemma {:induction false} NoZeroDivisors(p: int, x: int, y: int)
    requires Prime(p) && 0 < x < p && 0 < y < p
    ensures (x * y) % p != 0
    decreases x
  {
    if x == 1 {
      ModUnique(x * y, p, 0, y);
    } else {
      assert p % x != 0;
      NoZeroDivisors(p, p % x, y);
      RemainderStep(p, x, y);
    }
  }

  /** The capacity both maps' `resize_table(n)` starts from: `n` when it is prime,
      otherwise `_next_prime(n)`. */
  ghost function ResizeTarget(n: nat): (c: nat)
    ensures Prime(c) && n <= c && (Prime(n) ==> c == n)
  {
    if Prime(n) then n else NextPrimeOf(n)
  }

  /** Twice a prime is not prime, so `put`'s resize to twice the capacity lands on the next
      prime, which is odd and so above it. */
  lemma DoubledTarget(c: nat)
    requires Prime(c)
    ensures ResizeTarget(2 * c) > 2 * c
  {
    assert (2 * c) % 2 == 0;
  }

  /** The capacity step of both `resize_table`s: `n` when `_is_prime(n)`, otherwise
      `_next_prime(n)`. */
  method PrimeCapacity(n: nat) returns (c: nat)
    ensures c == ResizeTarget(n)
  {
    var prime := IsPrime(n);
    if prime {
      c := n;
    } else {
      c := NextPrime(n);
    }
  }
}
