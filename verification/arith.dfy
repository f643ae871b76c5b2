/** Facts about multiplication and division by a variable, each stated
    apart so that the solver meets them one at a time. */
module Arith {

  lemma MulLe(a: nat, b: nat, c: nat)
    requires a <= b
    ensures a * c <= b * c
  {
  }

  /** `a / b == q` whenever `q * b <= a < (q + 1) * b`. */
  lemma DivIs(a: nat, b: nat, q: nat)
    requires b > 0 && q * b <= a < (q + 1) * b
    ensures a / b == q
  {
    var d := a / b;
    assert d * b <= a < d * b + b;
    if d < q {
      MulLe(d + 1, q, b);
      assert false;
    }
    if d > q {
      MulLe(q + 1, d, b);
      assert false;
    }
  }

  lemma MulSucc(a: nat, k: nat)
    ensures a * (k + 1) == a * k + a
  {
  }

  lemma OddForm(e: nat, k: nat)
    ensures e + 2 * e * k == e * (2 * k + 1)
  {
  }

  lemma OddStep(e: nat, k: nat)
    ensures e * (2 * k + 1) + 2 * e == e * (2 * (k + 1) + 1)
  {
  }
}
