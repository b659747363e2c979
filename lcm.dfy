/** Least common multiples, as Python's `math.lcm` computes them. */
module Lcm {
  import opened Arith

  /** `m` is a multiple of both `a` and `b`. */
  predicate BothDivide(a: nat, b: nat, m: int)
    requires a >= 1 && b >= 1
  {
    m % a == 0 && m % b == 0
  }

  /** The first common multiple of `a` and `b` from `m` upwards, when none lies below `m`. */
  function LcmSearch(a: nat, b: nat, m: nat): (r: nat)
    requires a >= 1 && b >= 1 && 1 <= m <= a * b
    requires forall x :: 1 <= x < m ==> !BothDivide(a, b, x)
    ensures m <= r <= a * b && BothDivide(a, b, r)
    ensures forall x :: 1 <= x < r ==> !BothDivide(a, b, x)
    decreases a * b - m
  {
    if BothDivide(a, b, m) then m
    else
      MultipleMod(a, b);
      MultipleMod(b, a);
      LcmSearch(a, b, m + 1)
  }

  /** The least positive common multiple of two positive integers. */
  function LcmPos(a: nat, b: nat): (r: nat)
    requires a >= 1 && b >= 1
    ensures 1 <= r && BothDivide(a, b, r)
    ensures forall x :: 1 <= x < r ==> !BothDivide(a, b, x)
  {
    LcmSearch(a, b, 1)
  }

  /** Every positive common multiple of `a` and `b` is a multiple of `LcmPos(a, b)`. */
  lemma LcmPosDividesCommonMultiple(a: nat, b: nat, m: int)
    requires a >= 1 && b >= 1 && m >= 1 && BothDivide(a, b, m)
    ensures m % LcmPos(a, b) == 0
  {
    var l := LcmPos(a, b);
    var q, r := m / l, m % l;
    assert m == l * q + r;
    ModLinear(a, m, l, q);
    ModLinear(b, m, l, q);
    assert r == m - l * q;
    assert !(1 <= r < l && BothDivide(a, b, r));
  }

  /** Hence `LcmPos(a, b)` is at most every positive common multiple. */
  lemma LcmPosLeast(a: nat, b: nat, m: int)
    requires a >= 1 && b >= 1 && m >= 1 && BothDivide(a, b, m)
    ensures m % LcmPos(a, b) == 0 && LcmPos(a, b) <= m
  {
    var l := LcmPos(a, b);
    LcmPosDividesCommonMultiple(a, b, m);
    var k := m / l;
    assert m == l * k;
    MulSign(l, k);
  }

  /** `math.lcm(*ps)`: 1 for no argument, 0 as soon as one argument is 0, and otherwise the
      least common multiple of the absolute values, folding from the left. */
  function LcmOf(ps: seq<int>): (r: nat)
    ensures r == 0 <==> exists i :: 0 <= i < |ps| && ps[i] == 0
  {
    if ps == [] then 1
    else
      var h, p := LcmOf(ps[..|ps| - 1]), ps[|ps| - 1];
      assert forall i :: 0 <= i < |ps| - 1 ==> ps[..|ps| - 1][i] == ps[i];
      if h == 0 || p == 0 then 0 else LcmPos(h, Abs(p))
  }

  /** Every element of `ps` is non-zero and divides `m`. */
  predicate CommonMultiple(ps: seq<int>, m: int) {
    forall i :: 0 <= i < |ps| ==> ps[i] != 0 && m % Abs(ps[i]) == 0
  }

  /** With no zero argument, `LcmOf(ps)` is a positive common multiple of `ps` that divides
      every positive common multiple; hence it is the least one. */
  lemma {:induction false} LcmOfIsLeastCommonMultiple(ps: seq<int>)
    requires forall i :: 0 <= i < |ps| ==> ps[i] != 0
    ensures LcmOf(ps) >= 1 && CommonMultiple(ps, LcmOf(ps))
    ensures forall m :: m >= 1 && CommonMultiple(ps, m) ==> m % LcmOf(ps) == 0 && LcmOf(ps) <= m
  {
    if ps != [] {
      var init, p := ps[..|ps| - 1], ps[|ps| - 1];
      assert forall i :: 0 <= i < |init| ==> init[i] == ps[i];
      LcmOfIsLeastCommonMultiple(init);
      var h := LcmOf(init);
      var l := LcmPos(h, Abs(p));
      assert LcmOf(ps) == l;
      forall i | 0 <= i < |ps|
        ensures l % Abs(ps[i]) == 0
      {
        if i < |init| {
          DividesTrans(Abs(ps[i]), h, l);
        }
      }
      forall m | m >= 1 && CommonMultiple(ps, m)
        ensures m % l == 0 && l <= m
      {
        assert CommonMultiple(init, m);
        LcmPosLeast(h, Abs(p), m);
      }
    }
  }
}
