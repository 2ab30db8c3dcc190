/** Remainders by a divisor that is not a constant. */
module Modulo {
  lemma MultipleIsFar(d: int, k: int)
    requires k > 0
    ensures d > 0 ==> d * k >= k
    ensures d < 0 ==> d * k <= -k
  {
  }

  /** Any way of writing n as a multiple of k plus something below k is the division of n by k. */
  lemma ModUnique(n: int, k: nat, q: int, r: nat)
    requires k > 0 && n == q * k + r && r < k
    ensures n % k == r && n / k == q
  {
    var d := n / k - q;
    assert n == (n / k) * k + n % k;
    assert d * k == r - n % k;
    MultipleIsFar(d, k);
  }

  lemma ModBounds(n: nat, k: nat)
    requires k > 0
    ensures n % k <= n && n % k < k
  {
  }

  lemma ModNext(n: nat, k: nat)
    requires k > 0
    ensures (n + 1) % k == if n % k + 1 == k then 0 else n % k + 1
  {
    var q := n / k;
    assert n == q * k + n % k;
    if n % k + 1 == k {
      assert n + 1 == (q + 1) * k + 0;
      ModUnique(n + 1, k, q + 1, 0);
    } else {
      ModUnique(n + 1, k, q, n % k + 1);
    }
  }

  lemma ModSame(a: nat, b: nat, k: nat)
    requires k > 0 && a <= b
    ensures a % k == b % k <==> (b - a) % k == 0
  {
    var c := b - a;
    var p, q, r := a / k, b / k, c / k;
    assert a == p * k + a % k && b == q * k + b % k && c == r * k + c % k;
    if a % k == b % k {
      assert c == (q - p) * k + 0;
      ModUnique(c, k, q - p, 0);
    }
    if c % k == 0 {
      assert b == (p + r) * k + a % k;
      ModUnique(b, k, p + r, a % k);
    }
  }

  lemma ModCancel(u: nat, d: nat, e: nat, k: nat)
    requires k > 0
    ensures (u + d) % k == (u + e) % k <==> d % k == e % k
  {
    if d <= e {
      ModSame(d, e, k);
      ModSame(u + d, u + e, k);
    } else {
      ModSame(e, d, k);
      ModSame(u + e, u + d, k);
    }
  }

  /** What completes a multiple. */
  lemma ModComplement(d: nat, e: nat, k: nat)
    requires 0 < e < k
    ensures (d + e) % k == 0 <==> d % k == k - e
  {
    ModUnique(k - e, k, 0, k - e);
    ModUnique(k, k, 1, 0);
    ModCancel(e, d, k - e, k);
  }
}
