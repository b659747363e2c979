/** Prime factors and divisors, as the generator asks them of the library it calls, defined by
    what they contain; and the number of prime factors counted with multiplicity. */
module Primes {
  import opened Arith

  predicate IsPrime(p: int) {
    p >= 2 && forall d :: 2 <= d < p ==> p % d != 0
  }

  /** A positive divisor of a positive number is at most that number. */
  lemma DivisorAtMost(d: int, m: int)
    requires d >= 1 && m >= 1 && m % d == 0
    ensures d <= m
  {
    var q := m / d;
    assert m == d * q;
    MulSign(d, q);
  }

  /** The primes in `[p, m]` that divide `m`, in increasing order. */
  function PrimeFactorsFrom(m: nat, p: nat): (r: seq<nat>)
    requires p >= 2
    ensures forall x :: x in r <==> p <= x <= m && IsPrime(x) && m % x == 0
    ensures forall a :: 0 <= a < |r| ==> p <= r[a]
    ensures forall a, b :: 0 <= a < b < |r| ==> r[a] < r[b]
    decreases m + 1 - p
  {
    if p > m then []
    else
      var rest := PrimeFactorsFrom(m, p + 1);
      if IsPrime(p) && m % p == 0 then [p] + rest else rest
  }

  /** The distinct primes dividing `n`, in increasing order: those of `|n|`, and none for 0. */
  function PrimeFactors(n: int): (r: seq<nat>)
    ensures forall x :: x in r <==> n != 0 && IsPrime(x) && Abs(n) % x == 0
    ensures forall a, b :: 0 <= a < b < |r| ==> r[a] < r[b]
  {
    if n == 0 then []
    else
      var r := PrimeFactorsFrom(Abs(n), 2);
      assert forall x :: IsPrime(x) && Abs(n) % x == 0 ==> x <= Abs(n) by {
        forall x | IsPrime(x) && Abs(n) % x == 0 ensures x <= Abs(n) {
          DivisorAtMost(x, Abs(n));
        }
      }
      r
  }

  /** The divisors of `m` in `[d, m]`, in increasing order. */
  function DivisorsFrom(m: nat, d: nat): (r: seq<nat>)
    requires d >= 1
    ensures forall x :: x in r <==> d <= x <= m && m % x == 0
    ensures forall a :: 0 <= a < |r| ==> d <= r[a]
    ensures forall a, b :: 0 <= a < b < |r| ==> r[a] < r[b]
    decreases m + 1 - d
  {
    if d > m then []
    else
      var rest := DivisorsFrom(m, d + 1);
      if m % d == 0 then [d] + rest else rest
  }

  /** The positive divisors of `|n|`, in increasing order; none for 0. */
  function Divisors(n: int): (r: seq<nat>)
    ensures forall x :: x in r <==> n != 0 && x >= 1 && Abs(n) % x == 0
    ensures forall a, b :: 0 <= a < b < |r| ==> r[a] < r[b]
  {
    if n == 0 then []
    else
      assert forall x :: x >= 1 && Abs(n) % x == 0 ==> x <= Abs(n) by {
        forall x | x >= 1 && Abs(n) % x == 0 ensures x <= Abs(n) {
          DivisorAtMost(x, Abs(n));
        }
      }
      DivisorsFrom(Abs(n), 1)
  }

  function Reverse<T>(s: seq<T>): (r: seq<T>)
    ensures |r| == |s| && forall i :: 0 <= i < |s| ==> r[i] == s[|s| - 1 - i]
  {
    if s == [] then [] else Reverse(s[1..]) + [s[0]]
  }

  lemma ReverseSameElements<T>(s: seq<T>)
    ensures forall x :: x in Reverse(s) <==> x in s
  {
    var r := Reverse(s);
    forall x | x in s ensures x in r {
      var i :| 0 <= i < |s| && s[i] == x;
      assert r[|s| - 1 - i] == x;
    }
  }

  /** `list(reversed(divisors(n)))`. */
  function DescendingDivisors(n: int): seq<nat> {
    Reverse(Divisors(n))
  }

  /** The divisor list holds exactly the positive divisors of `n`, each once, largest first. */
  lemma DescendingDivisorsAreDivisors(n: int)
    ensures forall x :: x in DescendingDivisors(n) <==> n != 0 && x >= 1 && Abs(n) % x == 0
    ensures var r := DescendingDivisors(n); forall a, b :: 0 <= a < b < |r| ==> r[a] > r[b]
    ensures n != 0 ==> |DescendingDivisors(n)| >= 1 && DescendingDivisors(n)[0] == Abs(n)
  {
    var s, r := Divisors(n), DescendingDivisors(n);
    ReverseSameElements(s);
    if n != 0 {
      assert Abs(n) in s;
      var i :| 0 <= i < |s| && s[i] == Abs(n);
      assert s[|s| - 1] in s;
    }
  }

  // ---- the number of prime factors, with multiplicity ----

  function SmallestFactorFrom(m: nat, d: nat): (r: nat)
    requires 2 <= d <= m
    requires forall e :: 2 <= e < d ==> m % e != 0
    ensures d <= r <= m && m % r == 0
    ensures forall e :: 2 <= e < r ==> m % e != 0
    decreases m - d
  {
    if m % d == 0 then d
    else
      assert d < m by {
        assert m % m == 0;
      }
      SmallestFactorFrom(m, d + 1)
  }

  /** The smallest factor of `m` above 1. */
  function SmallestFactor(m: nat): (r: nat)
    requires m >= 2
    ensures 2 <= r <= m && m % r == 0
    ensures forall e :: 2 <= e < r ==> m % e != 0
  {
    SmallestFactorFrom(m, 2)
  }

  lemma SmallestFactorIsPrime(m: nat)
    requires m >= 2
    ensures IsPrime(SmallestFactor(m))
  {
    var r := SmallestFactor(m);
    forall d | 2 <= d < r ensures r % d != 0 {
      if r % d == 0 {
        DividesTrans(d, r, m);
      }
    }
  }

  /** Dividing out a factor `d >= 2` of `m >= 1` leaves a smaller positive cofactor. */
  lemma CofactorSmaller(m: int, d: int)
    requires m >= 1 && d >= 2 && m % d == 0
    ensures 1 <= m / d < m && m == d * (m / d)
  {
    var q := m / d;
    assert m == d * q;
    MulSign(d, q);
    MulSign(q, d - 1);
    assert d * q == q + q * (d - 1);
  }

  /** Ω(m): the number of prime factors of `m`, counted with multiplicity. */
  function Omega(m: nat): nat
    requires m >= 1
    decreases m
  {
    if m == 1 then 0
    else
      CofactorSmaller(m, SmallestFactor(m));
      1 + Omega(m / SmallestFactor(m))
  }

  /** For `0 < a < p`: if a prime `p` divides `a * b` then it divides `b`. */
  lemma {:induction false} EuclidBelow(p: int, a: int, b: int)
    requires IsPrime(p) && 0 < a < p && (a * b) % p == 0
    ensures b % p == 0
    decreases a
  {
    if a > 1 {
      var q, r := p / a, p % a;
      assert p == a * q + r;
      assert r != 0 by {
        assert p % a != 0;
      }
      MultipleMod(p, b);
      ModLinear(p, p * b, a * b, q);
      assert r * b == p * b - (a * b) * q by {
        assert r * b == (p - a * q) * b;
      }
      EuclidBelow(p, r, b);
    }
  }

  /** Euclid's lemma: a prime dividing a product divides one of its factors. */
  lemma Euclid(p: int, a: int, b: int)
    requires IsPrime(p) && (a * b) % p == 0
    ensures a % p == 0 || b % p == 0
  {
    if a % p != 0 {
      var q, r := a / p, a % p;
      assert a == p * q + r;
      MultipleMod(p, q * b);
      ModLinear(p, a * b, p * (q * b), 1);
      assert r * b == a * b - p * (q * b) by {
        assert r * b == (a - p * q) * b;
      }
      EuclidBelow(p, r, b);
    }
  }

  /** Two distinct primes do not divide each other. */
  lemma DistinctPrimes(p: int, q: int)
    requires IsPrime(p) && IsPrime(q) && p != q
    ensures q % p != 0
  {
    if p < q {
      assert q % p != 0;
    }
  }

  /** Dividing `m` by `q` and then by `p` is dividing it by `p` and then by `q`. */
  lemma QuotientSwap(m: int, q: int, p: int)
    requires m >= 1 && q >= 2 && p >= 2 && m % q == 0 && (m / q) % p == 0
    ensures m % p == 0 && (m / p) % q == 0 && (m / p) / q == (m / q) / p
  {
    var k := (m / q) / p;
    CofactorSmaller(m, q);
    CofactorSmaller(m / q, p);
    assert m == q * (p * k);
    assert m == p * (q * k);
    MultipleMod(p, q * k);
    MultipleMod(q, k);
  }

  /** Dividing out any prime factor, not only the smallest, lowers Ω by one: whichever prime
      is removed first, the count of prime factors comes out the same. */
  lemma {:induction false} OmegaStep(m: nat, p: int)
    requires m >= 1 && IsPrime(p) && m % p == 0
    ensures 1 <= m / p < m && Omega(m) == 1 + Omega(m / p)
    decreases m
  {
    CofactorSmaller(m, p);
    var q := SmallestFactor(m);
    if q != p {
      SmallestFactorIsPrime(m);
      CofactorSmaller(m, q);
      var m1 := m / q;
      assert Omega(m) == 1 + Omega(m1);
      assert (q * m1) % p == 0;
      Euclid(p, q, m1);
      DistinctPrimes(p, q);
      OmegaStep(m1, p);
      QuotientSwap(m, q, p);
      OmegaStep(m / p, q);
    }
  }
}
