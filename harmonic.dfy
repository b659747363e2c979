/** The harmonic period supersequences of an integer: starting from `[n]`, the sequence is
    extended by `current // p` for each prime factor `p` of its last element, in increasing
    order of `p`, and the sequences whose last element is 1 are collected. */
module Harmonic {
  import opened Arith
  import opened Primes

  function Last(s: seq<int>): int
    requires |s| >= 1
  {
    s[|s| - 1]
  }

  /** Dividing a non-zero number by one of its prime factors gives a number of smaller
      absolute value, of the same sign, that the factor times it gives back. */
  lemma StepShrinks(c: int, p: int)
    requires c != 0 && IsPrime(p) && Abs(c) % p == 0
    ensures Abs(FloorDiv(c, p)) < Abs(c)
    ensures (c > 0 ==> FloorDiv(c, p) >= 1) && (c < 0 ==> FloorDiv(c, p) <= -1)
    ensures FloorDiv(c, p) * p == c
  {
    var k := Abs(c) / p;
    CofactorSmaller(Abs(c), p);
    if c > 0 {
      MultipleMod(p, k);
    } else {
      assert c == p * -k;
      MultipleMod(p, -k);
    }
  }

  /** The prime factors the generator iterates over, all of them dividing `c`. */
  predicate FactorsOf(c: int, ps: seq<nat>) {
    forall i :: 0 <= i < |ps| ==> c != 0 && IsPrime(ps[i]) && Abs(c) % ps[i] == 0
  }

  /** The sequences one call collects, in the order it appends them. */
  function Generated(cur: seq<int>): seq<seq<int>>
    requires |cur| >= 1
    decreases Abs(Last(cur)), 1
  {
    if Last(cur) == 1 then [cur]
    else
      var ps := PrimeFactors(Last(cur));
      assert FactorsOf(Last(cur), ps) by {
        assert forall i :: 0 <= i < |ps| ==> ps[i] in ps;
      }
      GeneratedEach(cur, ps)
  }

  /** What the loop over the prime factors `ps` collects: for each, the sequences of
      `cur + [current // p]`. */
  function GeneratedEach(cur: seq<int>, ps: seq<nat>): seq<seq<int>>
    requires |cur| >= 1 && FactorsOf(Last(cur), ps)
    decreases Abs(Last(cur)), 0, |ps|
  {
    if ps == [] then []
    else
      var c, p := Last(cur), ps[|ps| - 1];
      StepShrinks(c, p);
      GeneratedEach(cur, ps[..|ps| - 1]) + Generated(cur + [FloorDiv(c, p)])
  }

  /** The seed call: the supersequences of `n`. */
  function Supersequences(n: int): seq<seq<int>> {
    Generated([n])
  }

  /** A call whose last element is not 1 collects what its loop over the prime factors does. */
  lemma GeneratedUnfold(cur: seq<int>)
    requires |cur| >= 1 && Last(cur) != 1
    ensures FactorsOf(Last(cur), PrimeFactors(Last(cur)))
    ensures Generated(cur) == GeneratedEach(cur, PrimeFactors(Last(cur)))
  {
    var ps := PrimeFactors(Last(cur));
    assert forall i :: 0 <= i < |ps| ==> ps[i] in ps;
  }

  /** One more turn of the loop appends the sequences of the next prime factor. */
  lemma GeneratedEachStep(cur: seq<int>, ps: seq<nat>, i: nat)
    requires |cur| >= 1 && FactorsOf(Last(cur), ps) && i < |ps|
    ensures FactorsOf(Last(cur), ps[..i]) && FactorsOf(Last(cur), ps[..i + 1])
    ensures Abs(FloorDiv(Last(cur), ps[i])) < Abs(Last(cur))
    ensures GeneratedEach(cur, ps[..i + 1]) == GeneratedEach(cur, ps[..i]) + Generated(cur + [FloorDiv(Last(cur), ps[i])])
  {
    StepShrinks(Last(cur), ps[i]);
    assert ps[..i + 1][..i] == ps[..i];
  }

  lemma AppendAssoc<T>(a: seq<T>, b: seq<T>, c: seq<T>)
    ensures (a + b) + c == a + (b + c)
  {
  }

  /** The module-level list the generator appends to. */
  class Collector {
    var found: seq<seq<int>>

    constructor ()
      ensures found == []
    {
      found := [];
    }

    /** The recursive generator: appends exactly `Generated(cur)` to `found`. */
    method Generate(cur: seq<int>)
      requires |cur| >= 1
      modifies this
      ensures found == old(found) + Generated(cur)
      decreases Abs(Last(cur))
    {
      var c := cur[|cur| - 1];
      if c == 1 {
        found := found + [cur];
      } else {
        var ps := PrimeFactors(c);
        GeneratedUnfold(cur);
        var i := 0;
        while i < |ps|
          invariant 0 <= i <= |ps| && FactorsOf(c, ps[..i])
          invariant found == old(found) + GeneratedEach(cur, ps[..i])
        {
          GeneratedEachStep(cur, ps, i);
          var next := cur + [FloorDiv(c, ps[i])];
          Generate(next);
          AppendAssoc(old(found), GeneratedEach(cur, ps[..i]), Generated(next));
          i := i + 1;
        }
        assert ps[..|ps|] == ps;
      }
    }
  }

  /** Collects the supersequences of `n` and lists the divisors of `n`, largest first. */
  method Run(n: int) returns (sequences: seq<seq<int>>, divisors: seq<nat>)
    ensures sequences == Supersequences(n)
    ensures forall x :: x in divisors <==> n != 0 && x >= 1 && Abs(n) % x == 0
    ensures forall a, b :: 0 <= a < b < |divisors| ==> divisors[a] > divisors[b]
  {
    var collector := new Collector();
    collector.Generate([n]);
    sequences := collector.found;
    divisors := DescendingDivisors(n);
    DescendingDivisorsAreDivisors(n);
  }

  // ---- what is collected ----

  /** `b` is `a` divided by one of its prime factors. */
  predicate Step(a: int, b: int) {
    b >= 1 && a % b == 0 && IsPrime(a / b)
  }

  /** From position `from` on, every element is the previous one divided by a prime. */
  predicate Chain(s: seq<int>, from: int) {
    forall i :: 0 <= from <= i < |s| - 1 ==> Step(s[i], s[i + 1])
  }

  /** Nothing is collected below a last element that is zero or negative: zero has no prime
      factor, and dividing a negative number by a prime keeps it negative, so 1 is never
      reached. */
  lemma {:induction false} NothingBelowNonPositive(cur: seq<int>)
    requires |cur| >= 1 && Last(cur) <= 0
    ensures Generated(cur) == []
    decreases Abs(Last(cur)), 1
  {
    var ps := PrimeFactors(Last(cur));
    assert FactorsOf(Last(cur), ps) by {
      assert forall i :: 0 <= i < |ps| ==> ps[i] in ps;
    }
    NothingBelowNonPositiveEach(cur, ps);
  }

  lemma {:induction false} NothingBelowNonPositiveEach(cur: seq<int>, ps: seq<nat>)
    requires |cur| >= 1 && Last(cur) <= 0 && FactorsOf(Last(cur), ps)
    ensures GeneratedEach(cur, ps) == []
    decreases Abs(Last(cur)), 0, |ps|
  {
    if ps != [] {
      var c, p := Last(cur), ps[|ps| - 1];
      StepShrinks(c, p);
      NothingBelowNonPositiveEach(cur, ps[..|ps| - 1]);
      NothingBelowNonPositive(cur + [FloorDiv(c, p)]);
    }
  }

  /** Every collected sequence extends `cur`, ends with 1, and from the end of `cur` on
      divides by a prime at each step. */
  lemma {:induction false} GeneratedShape(cur: seq<int>)
    requires |cur| >= 1
    ensures forall s :: s in Generated(cur) ==>
      |s| >= |cur| && s[..|cur|] == cur && Last(s) == 1 && Chain(s, |cur| - 1)
    decreases Abs(Last(cur)), 1
  {
    if Last(cur) != 1 {
      var ps := PrimeFactors(Last(cur));
      assert FactorsOf(Last(cur), ps) by {
        assert forall i :: 0 <= i < |ps| ==> ps[i] in ps;
      }
      GeneratedEachShape(cur, ps);
    }
  }

  lemma {:induction false} GeneratedEachShape(cur: seq<int>, ps: seq<nat>)
    requires |cur| >= 1 && FactorsOf(Last(cur), ps)
    ensures forall s :: s in GeneratedEach(cur, ps) ==>
      |s| > |cur| && s[..|cur|] == cur && Last(s) == 1 && Chain(s, |cur| - 1)
    decreases Abs(Last(cur)), 0, |ps|
  {
    if ps != [] {
      var c, p := Last(cur), ps[|ps| - 1];
      StepShrinks(c, p);
      var next := cur + [FloorDiv(c, p)];
      GeneratedEachShape(cur, ps[..|ps| - 1]);
      if c <= 0 {
        NothingBelowNonPositive(next);
      } else {
        GeneratedShape(next);
        MultipleMod(FloorDiv(c, p), p);
        assert Step(c, FloorDiv(c, p));
        forall s | s in Generated(next)
          ensures |s| > |cur| && s[..|cur|] == cur && Last(s) == 1 && Chain(s, |cur| - 1)
        {
          assert s[..|next|] == next;
          assert s[..|cur|] == next[..|cur|] == cur;
          assert s[|cur| - 1] == c && s[|cur|] == FloorDiv(c, p);
        }
      }
    }
  }

  /** Each step of a chain goes strictly down. */
  lemma StepDecreases(a: int, b: int)
    requires Step(a, b)
    ensures 1 <= b < a && a % b == 0
  {
    var p := a / b;
    assert a == b * p;
    MulSign(b, p - 1);
    assert b * p == b + b * (p - 1);
  }

  /** The shape of every supersequence: it starts with `n`, ends with 1, each element is the
      previous one divided by a prime, and so it strictly decreases. */
  lemma SupersequenceShape(n: int, s: seq<int>)
    requires s in Supersequences(n)
    ensures |s| >= 1 && s[0] == n && Last(s) == 1 && Chain(s, 0)
    ensures forall i :: 0 <= i < |s| - 1 ==> s[i] > s[i + 1]
  {
    GeneratedShape([n]);
    assert s[..1] == [n];
    forall i | 0 <= i < |s| - 1 ensures s[i] > s[i + 1] {
      StepDecreases(s[i], s[i + 1]);
    }
  }

  /** Along a chain every element divides the first. */
  lemma {:induction false} ChainDividesFirst(s: seq<int>, i: nat)
    requires Chain(s, 0) && 0 < i < |s|
    ensures s[i] >= 1 && s[0] % s[i] == 0
  {
    StepDecreases(s[i - 1], s[i]);
    if i > 1 {
      ChainDividesFirst(s, i - 1);
      DividesTrans(s[i], s[i - 1], s[0]);
    }
  }

  /** Every element of every supersequence of `n` is in the divisor list of `n`. */
  lemma SupersequenceElementsAreDivisors(n: int, s: seq<int>)
    requires s in Supersequences(n)
    ensures forall x :: x in s ==> x >= 1 && x in DescendingDivisors(n)
  {
    SupersequenceShape(n, s);
    DescendingDivisorsAreDivisors(n);
    if n <= 0 {
      NothingBelowNonPositive([n]);
    }
    forall x | x in s ensures x >= 1 && x in DescendingDivisors(n) {
      var i :| 0 <= i < |s| && s[i] == x;
      if i > 0 {
        ChainDividesFirst(s, i);
      }
      assert x >= 1 && Abs(n) % x == 0;
    }
  }

  /** A sequence ending in `c >= 1` grows by exactly Ω(c) elements before reaching 1. */
  lemma {:induction false} GeneratedLength(cur: seq<int>)
    requires |cur| >= 1 && Last(cur) >= 1
    ensures forall s :: s in Generated(cur) ==> |s| == |cur| + Omega(Last(cur))
    decreases Abs(Last(cur)), 1
  {
    if Last(cur) != 1 {
      var ps := PrimeFactors(Last(cur));
      assert FactorsOf(Last(cur), ps) by {
        assert forall i :: 0 <= i < |ps| ==> ps[i] in ps;
      }
      GeneratedEachLength(cur, ps);
    }
  }

  lemma {:induction false} GeneratedEachLength(cur: seq<int>, ps: seq<nat>)
    requires |cur| >= 1 && Last(cur) >= 1 && FactorsOf(Last(cur), ps)
    ensures forall s :: s in GeneratedEach(cur, ps) ==> |s| == |cur| + Omega(Last(cur))
    decreases Abs(Last(cur)), 0, |ps|
  {
    if ps != [] {
      var c, p := Last(cur), ps[|ps| - 1];
      StepShrinks(c, p);
      var next := cur + [FloorDiv(c, p)];
      GeneratedEachLength(cur, ps[..|ps| - 1]);
      GeneratedLength(next);
      OmegaStep(c, p);
      assert FloorDiv(c, p) == c / p;
    }
  }

  /** Every supersequence of a positive `n` has `1 + Ω(n)` elements. */
  lemma SupersequenceLength(n: int, s: seq<int>)
    requires n >= 1 && s in Supersequences(n)
    ensures |s| == 1 + Omega(n)
  {
    GeneratedLength([n]);
  }

  /** Only positive integers have supersequences. */
  lemma NoSupersequencesForNonPositive(n: int)
    requires n <= 0
    ensures Supersequences(n) == []
  {
    NothingBelowNonPositive([n]);
  }

  // ---- order and distinctness ----

  /** `s` comes before `t` in decreasing lexicographic order: after a common prefix, `s` has
      the larger element. */
  predicate Before(s: seq<int>, t: seq<int>) {
    exists k :: 0 <= k < |s| && k < |t| && s[..k] == t[..k] && s[k] > t[k]
  }

  predicate Descending(out: seq<seq<int>>) {
    forall i, j :: 0 <= i < j < |out| ==> Before(out[i], out[j])
  }

  lemma DescendingConcat(a: seq<seq<int>>, b: seq<seq<int>>)
    requires Descending(a) && Descending(b)
    requires forall s, t :: s in a && t in b ==> Before(s, t)
    ensures Descending(a + b)
  {
    var ab := a + b;
    forall i, j | 0 <= i < j < |ab| ensures Before(ab[i], ab[j]) {
      if j < |a| {
        assert Before(a[i], a[j]);
      } else if i >= |a| {
        assert Before(b[i - |a|], b[j - |a|]);
      } else {
        assert ab[i] in a && ab[j] in b;
      }
    }
  }

  /** Dividing a positive number by a larger prime factor gives a smaller quotient. */
  lemma LargerPrimeSmallerQuotient(c: int, p: int, q: int)
    requires c >= 1 && IsPrime(p) && IsPrime(q) && p < q && c % p == 0 && c % q == 0
    ensures FloorDiv(c, q) < FloorDiv(c, p)
  {
    CofactorSmaller(c, p);
    CofactorSmaller(c, q);
    ProductOrder(p, q, c / p, c / q);
  }

  /** Every sequence the loop collects has, right after `cur`, a quotient above `bound` when
      every prime in `ps` gives one. */
  lemma {:induction false} GeneratedEachNextAbove(cur: seq<int>, ps: seq<nat>, bound: int)
    requires |cur| >= 1 && FactorsOf(Last(cur), ps)
    requires forall m :: 0 <= m < |ps| ==> FloorDiv(Last(cur), ps[m]) > bound
    ensures forall s :: s in GeneratedEach(cur, ps) ==> |s| > |cur| && s[..|cur|] == cur && s[|cur|] > bound
    decreases |ps|
  {
    if ps != [] {
      var c, p := Last(cur), ps[|ps| - 1];
      StepShrinks(c, p);
      var next := cur + [FloorDiv(c, p)];
      GeneratedEachNextAbove(cur, ps[..|ps| - 1], bound);
      GeneratedShape(next);
      forall s | s in Generated(next) ensures |s| > |cur| && s[..|cur|] == cur && s[|cur|] > bound {
        assert s[..|next|] == next;
        assert s[..|cur|] == next[..|cur|];
      }
    }
  }

  /** The collected sequences come out in strictly decreasing lexicographic order: at each
      branch point the smaller prime, hence the larger quotient, goes first. */
  lemma {:induction false} GeneratedDescending(cur: seq<int>)
    requires |cur| >= 1
    ensures Descending(Generated(cur))
    decreases Abs(Last(cur)), 1
  {
    if Last(cur) != 1 {
      var ps := PrimeFactors(Last(cur));
      assert FactorsOf(Last(cur), ps) by {
        assert forall i :: 0 <= i < |ps| ==> ps[i] in ps;
      }
      GeneratedEachDescending(cur, ps);
    }
  }

  lemma {:induction false} GeneratedEachDescending(cur: seq<int>, ps: seq<nat>)
    requires |cur| >= 1 && FactorsOf(Last(cur), ps)
    requires forall a, b :: 0 <= a < b < |ps| ==> ps[a] < ps[b]
    ensures Descending(GeneratedEach(cur, ps))
    decreases Abs(Last(cur)), 0, |ps|
  {
    if ps != [] {
      var c, p := Last(cur), ps[|ps| - 1];
      StepShrinks(c, p);
      var next := cur + [FloorDiv(c, p)];
      var init := ps[..|ps| - 1];
      GeneratedEachDescending(cur, init);
      GeneratedDescending(next);
      if c <= 0 {
        NothingBelowNonPositive(next);
      } else {
        forall m | 0 <= m < |init| ensures FloorDiv(c, init[m]) > FloorDiv(c, p) {
          LargerPrimeSmallerQuotient(c, init[m], p);
        }
        GeneratedEachNextAbove(cur, init, FloorDiv(c, p));
        GeneratedShape(next);
        forall s, t | s in GeneratedEach(cur, init) && t in Generated(next) ensures Before(s, t) {
          assert t[..|next|] == next;
          assert t[..|cur|] == next[..|cur|] == cur;
          assert s[..|cur|] == t[..|cur|] && s[|cur|] > t[|cur|];
        }
      }
      DescendingConcat(GeneratedEach(cur, init), Generated(next));
    }
  }

  /** No two supersequences are equal, and they come out in strictly decreasing
      lexicographic order. */
  lemma SupersequencesDistinct(n: int)
    ensures Descending(Supersequences(n))
    ensures forall i, j :: 0 <= i < j < |Supersequences(n)| ==> Supersequences(n)[i] != Supersequences(n)[j]
  {
    var out := Supersequences(n);
    GeneratedDescending([n]);
    forall i, j | 0 <= i < j < |out| ensures out[i] != out[j] {
      assert Before(out[i], out[j]);
    }
  }

  // ---- the two cases the usage text names ----

  lemma SupersequencesOfOne()
    ensures Supersequences(1) == [[1]]
  {
  }

  /** The usage text's example: the only supersequence of 4 is `[4, 2, 1]`. */
  lemma SupersequencesOfFour()
    ensures Supersequences(4) == [[4, 2, 1]]
  {
    assert IsPrime(2);
    assert !IsPrime(4) by {
      assert 4 % 2 == 0;
    }
    assert PrimeFactors(4) == [2];
    assert PrimeFactors(2) == [2];
    assert FloorDiv(4, 2) == 2 && FloorDiv(2, 2) == 1;
    assert Generated([4, 2, 1]) == [[4, 2, 1]];
    assert [2][..0] == [] && [4, 2] + [1] == [4, 2, 1] && [4] + [2] == [4, 2];
    assert GeneratedEach([4, 2], [2]) == Generated([4, 2, 1]);
    assert Generated([4, 2]) == GeneratedEach([4, 2], [2]);
    assert GeneratedEach([4], [2]) == Generated([4, 2]);
    assert Generated([4]) == GeneratedEach([4], [2]);
  }
}
