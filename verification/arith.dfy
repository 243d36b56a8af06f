/** Facts about multiplication and division of natural numbers that the
    solver does not find on its own. */
module Arith {

  lemma MulMonotone(s: nat, a: nat, b: nat)
    ensures a <= b ==> s * a <= s * b
  {
  }

  /** Quotient and remainder put the number back together. */
  lemma DivMod(x: nat, s: nat)
    requires s >= 1
    ensures x == s * (x / s) + x % s && 0 <= x % s < s
  {
  }

  lemma QuotientBelow(x: nat, s: nat, m: nat)
    requires s >= 1 && x < s * m
    ensures x / s < m
  {
    MulMonotone(s, m, x / s);
  }

  /** Division by a positive number has one quotient and remainder. */
  lemma DivUnique(x: nat, s: nat, q: nat, r: nat)
    requires s >= 1 && x == s * q + r && r < s
    ensures x / s == q && x % s == r
  {
    var q', r' := x / s, x % s;
    assert x == s * q' + r';
    MulMonotone(s, q + 1, q');
    MulMonotone(s, q' + 1, q);
    assert s * (q + 1) == s * q + s;
    assert s * (q' + 1) == s * q' + s;
  }
}
