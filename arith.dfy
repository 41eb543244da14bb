/** Facts about multiplication and division of naturals that the address
    and chunk arithmetic relies on. */
module Arith {

  lemma {:induction false} MulMonotone(a: nat, b: nat, c: nat)
    requires a <= b
    ensures a * c <= b * c
  {
    assert b * c == a * c + (b - a) * c;
  }

  /** The quotient is below `n` exactly when the dividend is below `n` divisors. */
  lemma {:induction false} DivBelow(d: nat, cs: nat, n: nat)
    requires cs > 0
    ensures d / cs < n <==> d < n * cs
  {
    var q, r := d / cs, d % cs;
    assert d == q * cs + r;
    if q < n {
      MulMonotone(q + 1, n, cs);
      assert (q + 1) * cs == q * cs + cs;
    } else {
      MulMonotone(n, q, cs);
    }
  }

  lemma {:induction false} DivOfMultiple(s: nat, cs: nat)
    requires cs > 0
    ensures (s * cs) / cs == s
  {
    DivBelow(s * cs, cs, s + 1);
    assert (s + 1) * cs == s * cs + cs;
    DivBelow(s * cs, cs, s);
  }

  lemma {:induction false} MulSucc(a: nat, b: nat)
    ensures (a + 1) * b == a * b + b
  {
  }
}
