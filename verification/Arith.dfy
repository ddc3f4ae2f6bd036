/** The few facts about products and quotients the proofs lean on. */
module Arith {
  lemma MulMono(a: nat, b: nat, c: nat)
    requires a <= b
    ensures a * c <= b * c
  {
  }

  lemma ProductZero(a: nat, b: nat)
    ensures a * b == 0 <==> a == 0 || b == 0
  {
    if a > 0 && b > 0 {
      MulMono(1, a, b);
    }
  }

  lemma DivUnique(x: nat, b: nat, q: nat)
    requires b > 0 && q * b <= x < q * b + b
    ensures x / b == q
  {
    var r := x / b;
    assert r * b <= x < r * b + b;
    if r < q {
      MulMono(r + 1, q, b);
    } else if q < r {
      MulMono(q + 1, r, b);
    }
  }

  lemma ModUnique(x: nat, b: nat, q: nat, r: nat)
    requires r < b && x == q * b + r
    ensures x % b == r
  {
    DivUnique(x, b, q);
  }
}
