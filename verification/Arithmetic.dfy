/** Multiplication and division by a variable. */
module Arithmetic {
  lemma {:induction false} MulStep(n: nat, p: nat, q: nat)
    requires p < q
    ensures p * n + n <= q * n
  {
    assert (q - 1) * n + n == q * n;
    if p + 1 < q { MulStep(n, p, q - 1); }
  }

  lemma DivUnique(n: nat, q: nat, r: nat, m: nat)
    requires 0 < n && r < n && m == q * n + r
    ensures m / n == q && m % n == r
  {
    var p, s := m / n, m % n;
    assert p * n + s == q * n + r;
    if p < q { MulStep(n, p, q); }
    if q < p { MulStep(n, q, p); }
  }

  /** Multiplying by a positive number keeps the order. */
  lemma IntScale(a: int, b: int, n: nat)
    requires a <= b && n > 0
    ensures a * n <= b * n
  {
    assert (b - a) * n == b * n - a * n;
    assert (b - a) * n >= 0;
  }

  /** Quotient and remainder are determined, for negative numbers as well. */
  lemma IntDivUnique(n: nat, q: int, r: nat, m: int)
    requires 0 < n && r < n && m == q * n + r
    ensures m / n == q && m % n == r
  {
    var p, s := m / n, m % n;
    assert m == p * n + s && 0 <= s < n;
    assert (p + 1) * n == p * n + n && (q + 1) * n == q * n + n;
    if p < q {
      IntScale(p + 1, q, n);
    } else if q < p {
      IntScale(q + 1, p, n);
    }
  }

  lemma ModShift(n: nat, m: nat)
    requires n > 0
    ensures (m + n) % n == m % n
  {
    var q := m / n;
    assert m == q * n + m % n;
    assert m + n == (q + 1) * n + m % n;
    DivUnique(n, q + 1, m % n, m + n);
  }

  /** Division rounding up. */
  function CeilDiv(x: nat, k: nat): nat
    requires k > 0
  {
    (x + k - 1) / k
  }

  lemma CeilBounds(x: nat, k: nat)
    requires k > 0
    ensures x <= CeilDiv(x, k) * k < x + k
  {
    var c, r := (x + k - 1) / k, (x + k - 1) % k;
    assert x + k - 1 == c * k + r;
  }

  lemma CeilUnique(x: nat, k: nat, c: nat)
    requires k > 0 && x <= c * k < x + k
    ensures CeilDiv(x, k) == c
  {
    CeilBounds(x, k);
    var d := CeilDiv(x, k);
    if c < d { MulStep(k, c, d); }
    if d < c { MulStep(k, d, c); }
  }

  /** The multiples of `k` below `x` are those of the numbers below the rounded quotient. */
  lemma CeilMeans(p: nat, x: nat, k: nat)
    requires k > 0
    ensures p * k < x <==> p < CeilDiv(x, k)
  {
    CeilBounds(x, k);
    var c := CeilDiv(x, k);
    if p < c { MulStep(k, p, c); }
    if c < p { MulStep(k, c, p); }
  }

  /** Adding `n` adds its quotient, or one more. */
  lemma CeilStep(x: nat, n: nat, k: nat)
    requires k > 0
    ensures n / k <= CeilDiv(x + n, k) - CeilDiv(x, k) <= n / k + 1
  {
    hide CeilDiv;
    var c, q, r := CeilDiv(x, k), n / k, n % k;
    CeilBounds(x, k);
    DivParts(n, k);
    Distribute(c, q, k);
    Distribute(c + q, 1, k);
    if x + n <= (c + q) * k {
      CeilUnique(x + n, k, c + q);
    } else {
      CeilUnique(x + n, k, c + q + 1);
    }
  }

  lemma Distribute(a: nat, b: nat, k: nat)
    ensures (a + b) * k == a * k + b * k
  {
  }

  lemma DivParts(n: nat, k: nat)
    requires k > 0
    ensures n == n / k * k + n % k && n % k < k
  {
  }

  lemma {:induction false} ScaleUp(a: nat, b: nat, s: nat)
    requires a < b && s > 0
    ensures a * s < b * s
  {
    if s > 1 {
      ScaleUp(a, b, s - 1);
      assert a * s == a * (s - 1) + a && b * s == b * (s - 1) + b;
    }
  }
}
