/** Facts about Euclidean division that the solver does not find unaided. */
module Arith {

  lemma MulMono(k: int, m: int)
    requires k >= 1 && m >= 0
    ensures k * m >= m
  {
    assert k * m == (k - 1) * m + m;
  }

  /** Euclidean division is determined by its quotient and remainder. */
  lemma DivModUnique(a: int, q: int, m: int, r: int)
    requires m > 0 && a == q * m + r && 0 <= r < m
    ensures a / m == q && a % m == r
  {
    var q2 := a / m;
    var r2 := a % m;
    assert a == q2 * m + r2;
    if q > q2 {
      MulMono(q - q2, m);
      assert false;
    } else if q < q2 {
      MulMono(q2 - q, m);
      assert false;
    }
  }

  lemma ModAddMultiple(x: nat, j: nat, m: nat)
    requires m > 0
    ensures (x + j * m) % m == x % m
  {
    var q := x / m;
    var r := x % m;
    assert x + j * m == (q + j) * m + r;
    DivModUnique(x + j * m, q + j, m, r);
  }

  lemma MulMod(a: nat, k: nat, m: nat)
    requires m > 0
    ensures ((a % m) * k) % m == (a * k) % m
  {
    var q := a / m;
    assert a == q * m + a % m;
    assert a * k == (a % m) * k + (q * k) * m;
    ModAddMultiple((a % m) * k, q * k, m);
  }

  lemma DivLe(x: nat, d: nat)
    requires d >= 1
    ensures x / d <= x
  {
    var q := x / d;
    assert x == q * d + x % d;
    MulMono(d, q);
    assert q * d == d * q;
  }

  lemma ModLe(x: nat, m: nat)
    requires m > 0
    ensures x % m <= x
  {
    if x >= m {
      assert x % m < m;
    } else {
      DivModUnique(x, 0, m, x);
    }
  }

  /** A multiple of m plus a remainder leaves that remainder and that quotient. */
  lemma MultipleOf(m: int, k: int)
    requires m > 0
    ensures (k * m) % m == 0 && (k * m) / m == k
  {
    DivModUnique(k * m, k, m, 0);
  }
}
