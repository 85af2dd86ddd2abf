/** Division with remainder, as far as block and node indexes need it. */
module Arithmetic {

  lemma {:induction false} ModStep(a: nat, n: nat)
    requires 0 < n
    ensures (a + 1) % n == if a % n + 1 == n then 0 else a % n + 1
    ensures (a + 1) / n == if a % n + 1 == n then a / n + 1 else a / n
  {
    var q, r := a / n, a % n;
    assert a == q * n + r;
    if r + 1 == n {
      assert a + 1 == (q + 1) * n;
      DivOf(q + 1, n, 0);
    } else {
      assert a + 1 == q * n + (r + 1);
      DivOf(q, n, r + 1);
    }
  }

  lemma {:induction false} DivOf(q: nat, n: nat, r: nat)
    requires r < n
    ensures (q * n + r) / n == q && (q * n + r) % n == r
  {
    var x := q * n + r;
    var d := x / n - q;
    assert d * n == x / n * n - q * n == r - x % n;
    MultipleBounds(d, n);
  }

  lemma {:induction false} MultipleBounds(d: int, n: nat)
    ensures d >= 1 ==> d * n >= n
    ensures d <= -1 ==> d * n <= 0 - n
  {
  }

  lemma {:induction false} MulSucc(x: int, n: int)
    ensures (x + 1) * n == x * n + n
  {
  }
}
