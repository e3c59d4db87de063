/** NTILE against the standard, where the larger buckets come first. */
module Tiles {
  import opened Arithmetic
  import opened Windows

  /** The first row of bucket `b`, counted from 0, if the first `rest` of the buckets have one row more. */
  function StandardStart(size: nat, rest: nat, b: nat): nat { b * size + if b <= rest then b else rest }

  /** Row `i` is in bucket `b` of the standard's division. */
  predicate InStandard(total: nat, buckets: nat, i: nat, b: nat)
    requires buckets > 0
  {
    var size, rest := total / buckets, total % buckets;
    b < buckets && StandardStart(size, rest, b) <= i < StandardStart(size, rest, b + 1)
  }

  /** Every row is in the bucket where the standard has it. */
  ghost predicate AsStandard(total: nat, buckets: nat)
    requires total > 0 && buckets > 0
  {
    forall i: nat, b: nat {:trigger InStandard(total, buckets, i, b)} ::
      i < total && InStandard(total, buckets, i, b) ==> NtileAt(total, buckets, i) == b + 1
  }

  /** The bucket of a row, by products. */
  lemma TileBetween(total: nat, buckets: nat, i: nat, b: nat)
    requires total > 0
    ensures NtileAt(total, buckets, i) == b + 1 <==> b * total <= i * buckets < (b + 1) * total
  {
    var x := i * buckets;
    TileIs(total, buckets, i, x);
    hide NtileAt;
    QuotientBetween(x, total, b);
  }

  lemma QuotientBetween(x: nat, n: nat, b: nat)
    requires n > 0
    ensures x / n == b <==> b * n <= x < (b + 1) * n
  {
    DivParts(x, n);
    assert (b + 1) * n == b * n + n;
    if b * n <= x < (b + 1) * n { IntDivUnique(n, b, x - b * n, x); }
  }

  /** What the sizes of the buckets come to. */
  predicate Kept(buckets: int, rest: int) { rest == 0 || rest * rest > buckets * (rest - 1) }

  lemma UpperStep(k: int, r: int, c: int)
    requires 0 <= r < k && 0 < c <= k && Kept(k, r)
    ensures k * ((if c <= r then c else r) - 1) < c * r
  {
    if r == 0 {
    } else if c <= r {
      assert (r - c) * (k - r) >= 0;
      assert (r - c) * (k - r) == r * k - r * r - c * k + c * r;
      assert k * (r - 1) == k * r - k && k * (c - 1) == k * c - k;
    } else {
      assert (c - r) * r >= 0;
      assert (c - r) * r == c * r - r * r;
    }
  }

  lemma LowerStep(k: int, r: int, b: int)
    requires 0 <= r < k && 0 <= b < k
    ensures k * (if b <= r then b else r) >= b * r
  {
    if b <= r {
      assert (k - r) * b >= 0 && (k - r) * b == k * b - r * b;
    } else {
      assert (k - b) * r >= 0 && (k - b) * r == k * r - b * r;
    }
  }

  /** Within a standard bucket the products are where they should be. */
  lemma StandardTile(k: int, q: int, r: int, i: int, b: int)
    requires 0 <= q && 0 <= r < k && 0 <= b < k && Kept(k, r)
    requires b * q + (if b <= r then b else r) <= i < (b + 1) * q + if b + 1 <= r then b + 1 else r
    ensures b * (q * k + r) <= i * k < (b + 1) * (q * k + r)
  {
    var low, high := if b <= r then b else r, if b + 1 <= r then b + 1 else r;
    LowerStep(k, r, b);
    UpperStep(k, r, b + 1);
    Times(b * q + low, i, k);
    Times(i, (b + 1) * q + (high - 1), k);
    Expanded(b, q, low, k);
    Expanded(b + 1, q, high - 1, k);
    Spread(b, q * k, r);
    Spread(b + 1, q * k, r);
  }

  lemma Expanded(x: int, q: int, c: int, k: int)
    ensures (x * q + c) * k == x * (q * k) + k * c
  {
  }

  lemma Spread(x: int, m: int, r: int)
    ensures x * (m + r) == x * m + x * r
  {
  }

  lemma Times(a: int, b: int, k: int)
    requires a <= b && k > 0
    ensures a * k <= b * k
  {
    assert (b - a) * k >= 0;
    assert (b - a) * k == b * k - a * k;
  }

  lemma Parts(total: nat, buckets: nat)
    requires buckets > 0
    ensures total == total / buckets * buckets + total % buckets && 0 <= total % buckets < buckets
  {
    DivParts(total, buckets);
  }

  /** The last row of the standard's larger buckets lies too far for the formula. */
  lemma LateRow(k: int, q: int, r: int)
    requires 0 <= q && 0 < r < k && r * r <= k * (r - 1)
    ensures r * (q * k + r) <= (r * q + (r - 1)) * k
  {
    Expanded(r, q, r - 1, k);
    Spread(r, q * k, r);
  }

  /**
   * NTILE divides as the standard does if and only if the rows divide evenly or the remainder is large or small
   * enough: its square exceeds the number of buckets times one less than it.
   */
  lemma StandardExact(total: nat, buckets: nat)
    requires total > 0 && buckets > 0
    ensures AsStandard(total, buckets) <==> Kept(buckets, total % buckets)
  {
    var q, r := total / buckets, total % buckets;
    Parts(total, buckets);
    hide NtileAt;
    if Kept(buckets, r) {
      forall i: nat, b: nat | i < total && InStandard(total, buckets, i, b)
        ensures NtileAt(total, buckets, i) == b + 1 {
        StandardTile(buckets, q, r, i, b);
        TileBetween(total, buckets, i, b);
      }
    } else {
      var i, b := r * q + (r - 1), r - 1;
      LateRow(buckets, q, r);
      Spread(q, r - 1, 1);
      assert StandardStart(q, r, r - 1) == q * (r - 1) + (r - 1) && StandardStart(q, r, r) == r * q + r;
      Times(r, buckets, q + 1);
      Spread(r, q, 1);
      Spread(buckets, q, 1);
      InTotal(buckets, q, r);
      assert InStandard(total, buckets, i, b);
      TileBetween(total, buckets, i, b);
    }
  }

  lemma InTotal(k: int, q: int, r: int)
    requires 0 <= q && 0 < r < k
    ensures r * q + (r - 1) < q * k + r
  {
    assert (k - r) * q >= 0 && (k - r) * q == k * q - r * q;
  }

  /** Six rows in four buckets: sizes 2, 1, 2 and 1, where the standard has 2, 2, 1 and 1. */
  lemma SixInFour()
    ensures !AsStandard(6, 4)
    ensures NtileAt(6, 4, 0) == NtileAt(6, 4, 1) == 1 && NtileAt(6, 4, 2) == 2
    ensures NtileAt(6, 4, 3) == NtileAt(6, 4, 4) == 3 && NtileAt(6, 4, 5) == 4
  {
    StandardExact(6, 4);
  }
}
