/** Remainders by a divisor that is not a constant, as the payload rotation
    needs them: the solver does not reason about `%` by a variable on its
    own, so the facts are derived here from the defining equation
    `m == (m / n) * n + m % n`. */
module Arith {

  lemma {:induction false} MulAtLeast(a: int, n: int)
    requires a >= 1 && n > 0
    ensures a * n >= n
    decreases a
  {
    if a > 1 {
      MulAtLeast(a - 1, n);
      assert a * n == (a - 1) * n + n;
    }
  }

  /** Quotient and remainder are the only pair with `0 <= r < n`. */
  lemma ModUnique(m: int, n: int, q: int, r: int)
    requires n > 0 && m == q * n + r && 0 <= r < n
    ensures m % n == r && m / n == q
  {
    var q' := m / n;
    assert m == q' * n + m % n;
    if q > q' {
      MulAtLeast(q - q', n);
    } else if q < q' {
      MulAtLeast(q' - q, n);
    }
  }

  /** One step of a wrapping index: adding 1 wraps to 0 at `n`. */
  lemma ModSucc(a: nat, n: nat)
    requires n > 0
    ensures (a + 1) % n == if a % n + 1 == n then 0 else a % n + 1
  {
    var q := a / n;
    assert a == q * n + a % n;
    if a % n + 1 == n {
      assert a + 1 == (q + 1) * n + 0;
      ModUnique(a + 1, n, q + 1, 0);
    } else {
      ModUnique(a + 1, n, q, a % n + 1);
    }
  }

  /** Only the remainder of the left operand matters. */
  lemma ModShift(a: nat, x: nat, n: nat)
    requires n > 0
    ensures (a % n + x) % n == (a + x) % n
  {
    var q := a / n;
    assert a == q * n + a % n;
    var y := a % n + x;
    var q2 := y / n;
    assert y == q2 * n + y % n;
    assert a + x == (q + q2) * n + y % n;
    ModUnique(a + x, n, q + q2, y % n);
  }
}
