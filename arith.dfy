/** Integer helpers: Python's floor division and facts about multiples. */
module Arith {

  function Abs(x: int): nat {
    if x < 0 then -x else x
  }

  /** Python's `a // b`: the quotient rounded towards negative infinity.
      Dafny's `/` is Euclidean, which agrees with it only for a positive divisor. */
  function FloorDiv(a: int, b: int): (q: int)
    requires b != 0
    ensures b > 0 ==> b * q <= a < b * q + b
    ensures b < 0 ==> b * q + b < a <= b * q
  {
    if b > 0 then a / b else (-a) / (-b)
  }

  /** `d * k` is a multiple of `d`, and dividing it by `d` gives `k` back. */
  lemma MultipleMod(d: int, k: int)
    requires d > 0
    ensures (d * k) % d == 0 && (d * k) / d == k
  {
    var q, r := (d * k) / d, (d * k) % d;
    assert d * k == d * q + r && 0 <= r < d;
    assert r == d * (k - q);
    MulSign(d, k - q);
  }

  /** The sign of a product with a positive factor. */
  lemma MulSign(d: int, x: int)
    requires d > 0
    ensures x >= 1 ==> d * x >= d
    ensures x <= -1 ==> d * x <= -d
    ensures x == 0 ==> d * x == 0
  {
  }

  /** Differences of multiples of `d` are multiples of `d`. */
  lemma ModLinear(d: int, x: int, y: int, c: int)
    requires d > 0 && x % d == 0 && y % d == 0
    ensures (x - y * c) % d == 0
  {
    var s, t := x / d, y / d;
    assert x == d * s && y == d * t;
    assert x - y * c == d * (s - t * c);
    MultipleMod(d, s - t * c);
  }

  /** Divisibility is transitive. */
  lemma DividesTrans(a: int, b: int, c: int)
    requires a > 0 && b > 0 && b % a == 0 && c % b == 0
    ensures c % a == 0
  {
    var s, t := b / a, c / b;
    assert b == a * s && c == b * t;
    assert c == a * (s * t);
    MultipleMod(a, s * t);
  }

  lemma MulLeMono(a: int, b: int, c: int)
    requires a <= b && c >= 0
    ensures a * c <= b * c
  {
  }

  /** Of two equal products of positive factors, the one with the larger first factor has the
      smaller second factor. */
  lemma ProductOrder(p: int, q: int, a: int, b: int)
    requires 1 <= p < q && a >= 1 && b >= 1 && p * a == q * b
    ensures b < a
  {
    MulSign(a, q - p);
    assert a * (q - p) == q * a - p * a;
    MulSign(q, a - b);
    assert q * (a - b) == q * a - q * b;
  }
}
