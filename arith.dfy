/** Facts about integer division that the solver does not find on its own. */
module Arith {

  lemma {:induction false} MulAtLeast(a: nat, c: nat)
    requires a >= 1
    ensures a * c >= c
  {
    if a > 1 {
      MulAtLeast(a - 1, c);
      assert a * c == (a - 1) * c + c;
    }
  }

  /** Quotient and remainder are the only ones that rebuild `m`. */
  lemma ModUnique(m: int, c: int, q: int, r: int)
    requires c > 0 && m == q * c + r && 0 <= r < c
    ensures m % c == r && m / c == q
  {
    var q', r' := m / c, m % c;
    assert m == q' * c + r';
    assert (q - q') * c == r' - r;
    if q > q' {
      MulAtLeast(q - q', c);
    } else if q < q' {
      assert (q' - q) * c == r - r';
      MulAtLeast(q' - q, c);
    }
  }

  /** Adding one after wrapping round `count` is adding one before wrapping. */
  lemma ModSucc(n: nat, count: nat)
    requires count > 0
    ensures (n % count + 1) % count == (n + 1) % count
  {
    var q, r := n / count, n % count;
    assert n == q * count + r;
    if r + 1 == count {
      ModUnique(n + 1, count, q + 1, 0);
      ModUnique(r + 1, count, 1, 0);
    } else {
      ModUnique(n + 1, count, q, r + 1);
      ModUnique(r + 1, count, 0, r + 1);
    }
  }
}
