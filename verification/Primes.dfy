/** Prime search in c/src/ngram.c: the head sizes of the n-gram tables. */
module Primes {
  import opened Arithmetic

  predicate Divides(d: nat, v: nat)
    requires d > 0
  {
    v % d == 0
  }

  ghost predicate Prime(v: int) {
    v >= 2 && forall d :: 2 <= d < v ==> !Divides(d, v)
  }

  // ----- divisors

  lemma DividesIs(d: nat, v: nat)
    requires d > 0
    ensures Divides(d, v) <==> v == d * (v / d)
  {
  }

  lemma MultipleDivides(d: nat, k: nat)
    requires d > 0
    ensures Divides(d, d * k) && (d * k) / d == k
  {
    var v := d * k;
    var q := v / d;
    assert v == d * q + v % d;
    assert d * (k - q) == v % d;
    SmallMultiple(d, k - q);
  }

  lemma DividesTransitive(a: nat, b: nat, c: nat)
    requires a > 0 && b > 0 && Divides(a, b) && Divides(b, c)
    ensures Divides(a, c)
  {
    DividesIs(a, b);
    DividesIs(b, c);
    assert c == a * ((b / a) * (c / b));
    MultipleDivides(a, (b / a) * (c / b));
  }

  lemma DividesDifference(d: nat, a: nat, b: nat)
    requires d > 0 && Divides(d, a) && Divides(d, b) && a <= b
    ensures Divides(d, b - a)
  {
    DividesIs(d, a);
    DividesIs(d, b);
    var k := b / d - a / d;
    assert b - a == d * k;
    if k < 0 {
      MulAtLeast(d, -k);
    }
    MultipleDivides(d, k);
  }

  lemma NotDividesOne(d: nat)
    requires d >= 2
    ensures !Divides(d, 1)
  {
  }

  /** The cofactor of a divisor is a divisor, and one of the two is at most the square root. */
  lemma Cofactor(d: nat, v: nat) returns (e: nat)
    requires 2 <= d < v && Divides(d, v)
    ensures 2 <= e < v && Divides(e, v) && v == d * e
  {
    e := v / d;
    DividesIs(d, v);
    assert v == e * d;
    MultipleDivides(e, d);
  }

  // ----- is_prime

  /** No odd number from 3 up to, not including, d divides v. */
  ghost predicate NoOddDivisor(v: nat, d: nat) {
    forall e :: 3 <= e < d && e % 2 == 1 ==> !Divides(e, v)
  }

  lemma OddDivisorsAreOdd(v: nat, d: nat)
    requires v % 2 == 1 && d > 0 && Divides(d, v)
    ensures d % 2 == 1
  {
    if d % 2 == 0 {
      DividesTransitive(2, d, v);
    }
  }

  /** Testing odd divisors up to the square root is enough. */
  lemma SquareRootSuffices(v: nat, d: nat)
    requires v >= 3 && v % 2 == 1 && d * d > v && NoOddDivisor(v, d)
    ensures Prime(v)
  {
    forall a | 2 <= a < v ensures !Divides(a, v) {
      if Divides(a, v) {
        var b := Cofactor(a, v);
        OddDivisorsAreOdd(v, a);
        OddDivisorsAreOdd(v, b);
        SmallFactor(a, b, v, d);
      }
    }
  }

  lemma SquareAtMost(a: nat, b: nat, d: nat)
    requires a >= d && b >= d
    ensures a * b >= d * d
  {
    assert a * b == d * d + (a - d) * b + d * (b - d);
  }

  lemma SmallFactor(a: nat, b: nat, v: nat, d: nat)
    requires v == a * b && d * d > v
    ensures a < d || b < d
  {
    if a >= d && b >= d {
      SquareAtMost(a, b, d);
    }
  }

  lemma SquareAtLeast(d: nat)
    requires d >= 3
    ensures d * d >= 3 * d
  {
    MulAtLeast(d, d - 2);
    assert d * d == d * (d - 2) + 2 * d;
  }

  /** `is_prime`, in exact integers. */
  method IsPrime(v: int) returns (r: bool)
    ensures r <==> Prime(v)
  {
    if v < 2 {
      return false;
    }
    if v % 2 == 0 {
      if v != 2 {
        assert Divides(2, v);
      }
      return v == 2;
    }
    var d := 3;
    while d * d <= v
      invariant d >= 3 && d % 2 == 1 && NoOddDivisor(v, d)
      decreases v - d
    {
      if v % d == 0 {
        assert Divides(d, v);
        SquareAtLeast(d);
        return false;
      }
      SquareAtLeast(d);
      d := d + 2;
    }
    SquareRootSuffices(v, d);
    return true;
  }

  // ----- there is always a larger prime

  function Factorial(n: nat): (f: nat)
    ensures f >= 1
  {
    if n == 0 then 1 else n * Factorial(n - 1)
  }

  lemma {:induction false} DividesFactorial(d: nat, n: nat)
    requires 1 <= d <= n
    ensures Divides(d, Factorial(n))
  {
    if d == n {
      MultipleDivides(d, Factorial(n - 1));
    } else {
      DividesFactorial(d, n - 1);
      MultipleDivides(Factorial(n - 1), n);
      assert n * Factorial(n - 1) == Factorial(n - 1) * n;
      DividesTransitive(d, Factorial(n - 1), Factorial(n));
    }
  }

  lemma {:induction false} PrimeDivisor(v: nat) returns (p: nat)
    requires v >= 2
    ensures Prime(p) && Divides(p, v)
    decreases v
  {
    if Prime(v) {
      p := v;
      MultipleDivides(v, 1);
    } else {
      var d :| 2 <= d < v && Divides(d, v);
      p := PrimeDivisor(d);
      DividesTransitive(p, d, v);
    }
  }

  /** Euclid: the smallest factors of n! + 1 are larger than n. */
  lemma LargerPrime(n: nat) returns (p: nat)
    ensures Prime(p) && p > n
  {
    p := PrimeDivisor(Factorial(n) + 1);
    if p <= n {
      DividesFactorial(p, n);
      DividesDifference(p, Factorial(n), Factorial(n) + 1);
      NotDividesOne(p);
    }
  }

  // ----- nth_prime_after

  /** How many primes there are above lo and up to hi. */
  ghost function PrimesIn(lo: int, hi: int): nat
    requires lo <= hi
    decreases hi - lo
  {
    if lo == hi then 0 else PrimesIn(lo, hi - 1) + if Prime(hi) then 1 else 0
  }

  /** p is the count-th prime above start. */
  ghost predicate IsNthPrime(start: int, count: nat, p: int) {
    start <= p && PrimesIn(start, p) == count && if count == 0 then p == start else Prime(p)
  }

  lemma {:induction false} PrimesGrow(start: int, a: int, b: int)
    requires start <= a <= b
    ensures PrimesIn(start, a) <= PrimesIn(start, b) && (a < b && Prime(b) ==> PrimesIn(start, a) < PrimesIn(start, b))
    decreases b - a
  {
    if a == b {
    } else {
      PrimesGrow(start, a, b - 1);
    }
  }

  /** Larger counts give larger primes; so there is one count-th prime only. */
  lemma NthPrimesOrdered(start: int, c: nat, d: nat, p: int, q: int)
    requires IsNthPrime(start, c, p) && IsNthPrime(start, d, q)
    ensures c < d <==> p < q
  {
    if p < q {
      PrimesGrow(start, p, q);
    } else {
      PrimesGrow(start, q, p);
    }
  }

  /** `nth_prime_after`; the search ends at the latest at the prime Euclid promises. */
  method NthPrimeAfter(start: int, count: nat) returns (p: int)
    ensures IsNthPrime(start, count, p)
  {
    p := start;
    for i := 0 to count
      invariant IsNthPrime(start, i, p)
    {
      ghost var bound := LargerPrime(if p < 0 then 0 else p);
      ghost var before := p;
      p := p + 1;
      var found := IsPrime(p);
      while !found
        invariant found <==> Prime(p)
        invariant before < p <= bound && PrimesIn(start, p) == i + if found then 1 else 0
        decreases bound - p
      {
        p := p + 1;
        found := IsPrime(p);
      }
    }
  }
}
