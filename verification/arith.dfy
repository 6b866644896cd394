/** Facts about multiplication and division by a variable, which the solver
    does not find on its own. */
module Arith {

  lemma {:induction false} MulLeq(x: nat, y: nat, a: nat)
    requires x <= y
    ensures x * a <= y * a
    decreases y - x
  {
    if x < y {
      MulLeq(x + 1, y, a);
      assert (x + 1) * a == x * a + a;
    }
  }

  /** The only multiple of `d` strictly between -d and d is zero. */
  lemma MulSmall(e: int, d: nat)
    requires -(d as int) < e * d < d
    ensures e == 0
  {
    if e >= 1 {
      MulLeq(1, e, d);
    } else if e <= -1 {
      assert (-e) * d == -(e * d);
      MulLeq(1, -e, d);
    }
  }

  /** Quotient and remainder are determined: q * d + r with r < d divides as (q, r). */
  lemma DivModUnique(q: nat, r: nat, d: nat)
    requires r < d
    ensures (q * d + r) / d == q && (q * d + r) % d == r
  {
    var x := q * d + r;
    var q', r' := x / d, x % d;
    assert x == q' * d + r';
    assert (q - q') * d == q * d - q' * d;
    MulSmall(q - q', d);
  }

  /** With m of n blocks of `a` bytes filled, one more block fills the buffer
      exactly when it is the n-th. */
  lemma NextBlockFills(m: nat, n: nat, a: nat)
    requires m < n && a > 0
    ensures m * a + a <= a * n
    ensures m * a + a == a * n <==> m + 1 == n
    ensures (m + 1) * a == m * a + a
  {
    assert (m + 1) * a == m * a + a;
    MulLeq(m + 1, n, a);
    if m + 1 < n {
      assert (m + 2) * a == m * a + a + a;
      MulLeq(m + 2, n, a);
    }
  }
}
