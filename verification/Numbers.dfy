/** Division with remainder. */
module Numbers {

  lemma {:induction false} Successor(n: nat, d: nat)
    requires n > 0 && d > 0
    ensures n / d == (n - 1) / d + (if n % d == 0 then 1 else 0)
  {
    var q, r := (n - 1) / d, (n - 1) % d;
    if r + 1 == d {
      assert n == (q + 1) * d + 0 by { Distribute(q, 1, d); }
      Unique(n, d, q + 1, 0, n / d, n % d);
    } else {
      Unique(n, d, q, r + 1, n / d, n % d);
    }
  }

  lemma Distribute(a: int, b: int, d: int)
    ensures (a + b) * d == a * d + b * d
  {
  }

  lemma {:induction false} Unique(n: nat, d: nat, q: int, r: nat, q': int, r': nat)
    requires d > 0 && n == q * d + r == q' * d + r' && r < d && r' < d
    ensures q == q' && r == r'
  {
    Distribute(q, -q', d);
    if q - q' >= 1 { AtLeastOnce(q - q', d); }
    if q' - q >= 1 { Distribute(q', -q, d); AtLeastOnce(q' - q, d); }
  }

  lemma {:induction false} AtLeastOnce(a: int, d: nat)
    requires a >= 1
    ensures a * d >= d
  {
    Distribute(a - 1, 1, d);
  }

  lemma Regrouped(q: int, p: int)
    ensures 256 * (q * p) == q * (256 * p)
  {
  }
}
