/** Division by a positive number, one subtraction at a time. */
module Arithmetic {

  lemma MultipleBounds(n: nat, k: int)
    ensures k > 0 ==> n * k >= n
    ensures k < 0 ==> n * k + n <= 0
  {
    if k > 0 {
      assert n * (k - 1) >= 0;
      assert n * k == n * (k - 1) + n;
    } else if k < 0 {
      assert n * (-k - 1) >= 0;
      assert n * k == -(n * (-k - 1)) - n;
    }
  }

  lemma QuotientStep(a: nat, n: nat)
    requires 0 < n
    ensures (a + n) / n == a / n + 1
    ensures a < n ==> a / n == 0
  {
    var q, d := a / n, (a + n) / n;
    var k := d - q - 1;
    assert n * d == n * q + n + n * k;
    MultipleBounds(n, k);
  }

  lemma RemainderStep(a: nat, n: nat)
    requires 0 < n
    ensures (a + n) % n == a % n
    ensures a < n ==> a % n == a
  {
    QuotientStep(a, n);
    assert n * (a / n + 1) == n * (a / n) + n;
    assert n * 0 == 0;
  }
}
