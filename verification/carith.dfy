/** Integer helpers that reproduce C semantics on Dafny's unbounded `int`.

    C's `/` truncates toward zero and `%` takes the sign of the dividend;
    Dafny's `/` and `%` are Euclidean. The firmware divides a possibly
    negative score, so the difference is observable on the display.
 */
module CArith {

  function Abs(x: int): (r: nat)
    ensures r == x || r == -x
  {
    if x < 0 then -x else x
  }

  function Min(a: int, b: int): (r: int)
    ensures r <= a && r <= b
    ensures r == a || r == b
  {
    if a <= b then a else b
  }

  /** 2 to the power k; `1 << k` in C for the small k used here. */
  function Pow2(k: nat): (r: nat)
    ensures r >= 1
  {
    if k == 0 then 1 else 2 * Pow2(k - 1)
  }

  /** C integer division `a / b`: the quotient truncated toward zero. */
  function CDiv(a: int, b: int): (q: int)
    requires b != 0
    ensures Abs(q) == Abs(a) / Abs(b)
    ensures q < 0 ==> (a < 0) != (b < 0)
    ensures q > 0 ==> (a < 0) == (b < 0)
  {
    var x: nat := Abs(a);
    var y: nat := Abs(b);
    assert y > 0;
    var m: int := x / y;
    assert m >= 0;
    if (a < 0) == (b < 0) then m else -m
  }

  /** C remainder `a % b`: what is left after truncating division. */
  function CMod(a: int, b: int): (r: int)
    requires b != 0
    ensures b * CDiv(a, b) + r == a
    ensures Abs(r) < Abs(b)
    ensures r > 0 ==> a > 0
    ensures r < 0 ==> a < 0
  {
    var k := Abs(a) % Abs(b);
    TruncatedDivision(a, b);
    if a < 0 then -k else k
  }

  /** Truncating division leaves a remainder with the dividend's sign. */
  lemma TruncatedDivision(a: int, b: int)
    requires b != 0
    ensures b * CDiv(a, b) + (if a < 0 then -(Abs(a) % Abs(b)) else Abs(a) % Abs(b)) == a
  {
    var x: nat := Abs(a);
    var y: nat := Abs(b);
    var m := x / y;
    var k := x % y;
    assert x == y * m + k;
    MulNegate(y, m);
    if b > 0 {
      assert CDiv(a, b) == (if a < 0 then -m else m);
    } else {
      assert CDiv(a, b) == (if a < 0 then m else -m);
    }
  }

  /** Negating either factor negates the product. */
  lemma MulNegate(u: int, v: int)
    ensures (-u) * v == -(u * v) && u * (-v) == -(u * v) && (-u) * (-v) == u * v
  {
  }

  /** On a non-negative dividend and positive divisor C and Euclidean division agree. */
  lemma CDivModNonNegative(a: int, b: int)
    requires a >= 0 && b > 0
    ensures CDiv(a, b) == a / b
    ensures CMod(a, b) == a % b
  {
  }

  /** C division is symmetric under negating the dividend; Euclidean division is not. */
  lemma CDivModNegate(a: int, b: int)
    requires b != 0
    ensures CDiv(-a, b) == -CDiv(a, b)
    ensures CMod(-a, b) == -CMod(a, b)
  {
  }

  /** A non-zero multiple of d is at least d away from zero. */
  lemma MulMagnitude(k: int, d: int)
    requires k != 0 && d > 0
    ensures k * d >= d || k * d <= -d
  {
  }

  /** Division with remainder is unique: the Euclidean pair is pinned down by its bounds. */
  lemma DivModUnique(c: int, d: int, q: int, r: int)
    requires d > 0 && 0 <= r < d && c == q * d + r
    ensures c / d == q && c % d == r
  {
    var q0, r0 := c / d, c % d;
    assert c == q0 * d + r0;
    if q0 != q {
      var k := q0 - q;
      assert k * d == q0 * d - q * d;
      assert k * d == r - r0;
      MulMagnitude(k, d);
    }
  }
}
