/** The facts about division that the id counter and the integer fields rest on. */
module Arithmetic {

  lemma MulMonotone(d: nat, x: nat, y: nat)
    requires x <= y
    ensures d * x <= d * y
  {
  }

  lemma Distribute(n: nat, a: nat, b: nat)
    ensures n * (a + b) == n * a + n * b
  {
  }

  lemma DivModUnique(a: nat, n: nat, q: nat, r: nat)
    requires n > 0 && a == n * q + r && r < n
    ensures a / n == q && a % n == r
  {
    var e, m := a / n, a % n;
    assert n * (e - q) == r - m;
    if e > q {
      MulMonotone(n, 1, e - q);
      assert false;
    } else if e < q {
      MulMonotone(n, 1, q - e);
      assert false;
    }
  }
}
