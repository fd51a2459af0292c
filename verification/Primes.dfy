/** The number theory behind prime table sizes. */
module Primes {
  import opened Words

  predicate Divides(d: int, n: int) {
    d > 0 && n % d == 0
  }

  ghost predicate IsPrime(p: int) {
    p >= 2 && forall d | 2 <= d < p :: !Divides(d, p)
  }

  lemma MultipleDivides(d: int, n: int, m: int)
    requires d > 0 && n == d * m
    ensures Divides(d, n)
  {
    DivModUnique(n, d, m, 0);
  }

  /** Euclid's lemma, by descent on a. */
  lemma {:induction false} PrimeDividesFactor(p: int, a: int, b: int)
    requires IsPrime(p) && 0 < a < p && Divides(p, a * b)
    ensures Divides(p, b)
    decreases a
  {
    if a > 1 {
      assert !Divides(a, p);
      var q, r, m := p / a, p % a, a * b / p;
      assert r * b == p * (b - q * m) by {
        assert p == q * a + r && a * b == p * m;
        assert p * b == q * (a * b) + r * b;
        assert q * (p * m) == p * (q * m);
      }
      MultipleDivides(p, r * b, b - q * m);
      PrimeDividesFactor(p, r, b);
    }
  }

  // ----- there is always a larger prime

  function Factorial(n: nat): (f: nat)
    ensures f >= 1
  {
    if n == 0 then 1 else n * Factorial(n - 1)
  }

  lemma {:induction false} DividesFactorial(d: nat, n: nat)
    requires 1 <= d <= n
    ensures Divides(d, Factorial(n))
  {
    if d == n {
      MultipleDivides(d, Factorial(n), Factorial(n - 1));
    } else {
      DividesFactorial(d, n - 1);
      var m := Factorial(n - 1) / d;
      assert Factorial(n) == d * (n * m) by {
        assert Factorial(n - 1) == d * m;
        assert n * (d * m) == d * (n * m);
      }
      MultipleDivides(d, Factorial(n), n * m);
    }
  }

  lemma DividesTrans(c: int, d: int, n: int)
    requires Divides(c, d) && Divides(d, n)
    ensures Divides(c, n)
  {
    var i, j := d / c, n / d;
    assert n == c * (i * j) by {
      assert d == c * i && n == d * j;
      assert (c * i) * j == c * (i * j);
    }
    MultipleDivides(c, n, i * j);
  }

  /** The least divisor above 1 is prime. */
  lemma LeastDivisor(n: nat) returns (p: nat)
    requires n >= 2
    ensures IsPrime(p) && Divides(p, n) && p <= n
  {
    p := 2;
    while !Divides(p, n)
      invariant 2 <= p <= n && forall d | 2 <= d < p :: !Divides(d, n)
      decreases n - p
    {
      p := p + 1;
    }
    forall d | 2 <= d < p ensures !Divides(d, p) {
      if Divides(d, p) { DividesTrans(d, p, n); }
    }
  }

  lemma PrimeAbove(n: nat) returns (p: nat)
    ensures IsPrime(p) && p > n
  {
    var f := Factorial(n);
    p := LeastDivisor(f + 1);
    if p <= n {
      DividesFactorial(p, n);
      var i, j := f / p, (f + 1) / p;
      assert p * (j - i) == 1;
      MulBound(p, j - i);
    }
  }

  lemma OddDivisor(d: int, e: int)
    requires (d * e) % 2 == 1
    ensures d % 2 == 1
  {
    if d % 2 == 0 {
      assert d * e == 2 * ((d / 2) * e);
      DivModUnique(d * e, 2, (d / 2) * e, 0);
    }
  }

  ghost predicate NoOddDivisor(n: nat, i: nat) {
    forall d | 3 <= d < i && d % 2 == 1 :: !Divides(d, n)
  }

  lemma DivisorFound(d: nat, n: nat)
    requires 2 <= d < n && n % d == 0
    ensures !IsPrime(n)
  {
    assert Divides(d, n);
  }

  lemma NextDivisor(i: nat, n: nat)
    requires i >= 3 && i % 2 == 1 && n % i != 0 && NoOddDivisor(n, i)
    ensures NoOddDivisor(n, i + 2)
  {
  }

  /** Trial division by odd numbers up to the root decides primality of odd numbers. */
  lemma TrialDivision(n: nat, i: nat)
    requires n >= 3 && n % 2 == 1 && i >= 3 && i * i > n
    requires NoOddDivisor(n, i)
    ensures IsPrime(n)
  {
    forall d | 2 <= d < n ensures !Divides(d, n) {
      if Divides(d, n) {
        var e := n / d;
        assert d * e == n;
        MultipleDivides(e, n, d) by { PositiveFactor(d, e, n); }
        OddDivisor(d, e);
        OddDivisor(e, d);
        RootBound(d, e, i);
      }
    }
  }

  lemma PositiveFactor(d: int, e: int, n: int)
    requires d > 0 && n > d && d * e == n
    ensures e >= 2
  {
    if e < 2 { MulBound(d, e); }
  }

  lemma RootBound(d: nat, e: nat, i: nat)
    requires d * e < i * i
    ensures d < i || e < i
  {
    MulLe(i, d, e);
    MulLe(i, e, i);
  }

  /** The inner loop of NextPrime, for odd p. */
  method HasOddDivisor(p: nat) returns (composite: bool)
    requires p >= 3 && p % 2 == 1
    ensures composite == !IsPrime(p)
  {
    var i := 3;
    while i * i <= p
      invariant i >= 3 && i % 2 == 1 && NoOddDivisor(p, i)
      decreases p - i
    {
      SquareAbove(i);
      if p % i == 0 {
        DivisorFound(i, p);
        return true;
      }
      NextDivisor(i, p);
      i := i + 2;
    }
    TrialDivision(p, i);
    composite := false;
  }

  /** NextPrime: the least prime from n on. */
  method NextPrime(n: nat) returns (p: nat)
    requires n >= 10
    ensures IsPrime(p) && n <= p && p % 2 == 1
    ensures forall q | n <= q < p :: !IsPrime(q)
  {
    ghost var bound := PrimeAbove(n);
    PrimeIsOdd(bound);
    p := n;
    if p % 2 == 0 {
      EvenIsNotPrime(p);
      p := p + 1;
    }
    var composite := HasOddDivisor(p);
    while composite
      invariant n <= p <= bound && p % 2 == 1
      invariant forall q | n <= q < p :: !IsPrime(q)
      invariant composite == !IsPrime(p)
      decreases bound - p
    {
      EvenIsNotPrime(p + 1);
      p := p + 2;
      composite := HasOddDivisor(p);
    }
  }

  lemma SquareAbove(i: nat)
    requires i >= 2
    ensures i < i * i
  {
  }

  lemma EvenIsNotPrime(n: nat)
    requires n > 2 && n % 2 == 0
    ensures !IsPrime(n)
  {
    assert Divides(2, n);
  }

  lemma PrimeIsOdd(p: nat)
    requires IsPrime(p) && p > 2
    ensures p % 2 == 1
  {
    assert !Divides(2, p);
  }
}
