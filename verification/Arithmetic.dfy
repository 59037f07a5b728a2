/** Division facts that the solver is not left to find. */
module Arithmetic {
  lemma {:induction false} MulGrows(m: int, k: nat)
    requires m > 0
    ensures m * k >= k
    decreases k
  {
    if k > 0 {
      MulGrows(m, k - 1);
      assert m * k == m * (k - 1) + m;
    }
  }

  lemma DivMod(x: int, m: int, q: int, r: int)
    requires m > 0 && x == m * q + r && 0 <= r < m
    ensures x / m == q && x % m == r
  {
    var d := x / m;
    assert x == m * d + x % m;
    assert m * (d - q) == m * d - m * q;
    if d > q {
      assert m * (d - q) == m * (d - q - 1) + m;
      MulGrows(m, d - q - 1);
    } else if d < q {
      assert m * (q - d) == m * (q - d - 1) + m;
      MulGrows(m, q - d - 1);
    }
  }
}
