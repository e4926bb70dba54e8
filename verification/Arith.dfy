/** Division and products, one nonlinear fact at a time. */
module Arith {

  lemma Quotient(x: nat, d: nat) returns (q: nat, r: nat)
    requires d > 0
    ensures x == d * q + r && r < d && r == x % d && q == x / d
  {
    q, r := x / d, x % d;
  }

  /** A remainder is recognised by its quotient. */
  lemma ModIs(x: nat, d: nat, q: nat, r: nat)
    requires d > 0 && x == d * q + r && r < d
    ensures x % d == r
  {
    var k := q - x / d;
    assert d * k == d * q - d * (x / d) == x % d - r;
    MultipleBelow(d, k);
  }

  /** So is a quotient by its remainder. */
  lemma DivIs(x: nat, d: nat, q: nat, r: nat)
    requires d > 0 && x == d * q + r && r < d
    ensures x / d == q
  {
    var k := q - x / d;
    assert d * k == d * q - d * (x / d) == x % d - r;
    MultipleBelow(d, k);
  }

  lemma Positive(a: nat, b: nat)
    requires a > 0 && b > 0
    ensures a * b > 0
  {
  }

  lemma MultipleBelow(d: int, k: int)
    requires -d < d * k < d
    ensures k == 0
  {
  }

  lemma SmallerProduct(a: nat, b: nat, p: nat)
    requires a < b && p > 0
    ensures a * p < b * p
  {
  }

  lemma Assoc(a: int, b: int, c: int)
    ensures (a * b) * c == a * (b * c)
  {
  }

  lemma Distribute(a: int, b: int, c: int)
    ensures (a + b) * c == a * c + b * c
  {
  }

  /** Division as the processor does it, toward zero. */
  function TruncDiv(a: int, b: nat): (q: int)
    requires b > 0
    ensures a >= 0 ==> q == a / b
    ensures a < 0 ==> q == -(-a / b)
  {
    if a >= 0 then a / b else -(-a / b)
  }

  /** The remainder that goes with it has the sign of the dividend. */
  function TruncMod(a: int, b: nat): (r: int)
    requires b > 0
    ensures a == b * TruncDiv(a, b) + r && 0 - b < r < b
    ensures (a >= 0 ==> r >= 0) && (a <= 0 ==> r <= 0)
  {
    if a >= 0 then a % b else -(-a % b)
  }
}
