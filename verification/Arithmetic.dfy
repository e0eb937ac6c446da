/** Division facts that the solver does not find by itself. */
module Arithmetic {

  lemma Multiples(x: int, b: int)
    requires b > 0
    ensures x >= 1 ==> x * b >= b
    ensures x <= -1 ==> x * b <= -b
  {
  }

  /** A quotient is known by its remainder. */
  lemma DivUnique(a: nat, b: nat, q: nat, r: nat)
    requires b > 0 && r < b && a == q * b + r
    ensures a / b == q && a % b == r
  {
    var k, m := a / b, a % b;
    assert a == k * b + m;
    assert (k - q) * b == r - m;
    Multiples(k - q, b);
  }

  lemma TwoDigits(s: nat, u: nat, r: nat, b: nat, c: nat)
    requires b > 0 && u < c && r < b
    ensures u * b + r < b * c
    ensures (s * c + u) * b + r == s * (b * c) + (u * b + r)
  {
    assert (s * c + u) * b == s * c * b + u * b;
    assert s * c * b == s * (b * c);
    Multiples(c - u, b);
    assert (c - u) * b == c * b - u * b;
  }

  /** Digits: dividing by `b * c` is dividing twice. */
  lemma Digits(a: nat, b: nat, c: nat)
    requires b > 0 && c > 0
    ensures b * c > 0
    ensures a / (b * c) == a / b / c
    ensures a % (b * c) == a / b % c * b + a % b
    ensures a % (b * c) / b == a / b % c && a % (b * c) % b == a % b
  {
    Multiples(c, b);
    DigitsOf(a, b, c, b * c, a / b, a % b, a / b / c, a / b % c);
  }

  lemma DigitsOf(a: nat, b: nat, c: nat, bc: nat, q: nat, r: nat, s: nat, u: nat)
    requires b > 0 && bc == b * c && r < b && u < c
    requires a == q * b + r && q == s * c + u
    ensures bc > 0
    ensures a / bc == s && a % bc == u * b + r
    ensures (u * b + r) / b == u && (u * b + r) % b == r
  {
    TwoDigits(s, u, r, b, c);
    DivUnique(a, bc, s, u * b + r);
    DivUnique(u * b + r, b, u, r);
  }
}
