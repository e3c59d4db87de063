/** Byte strings: lexicographic order and fixed-width integer encodings. */
module Bytes {
  import Arithmetic

  type byte = b: int | 0 <= b < 256

  type Key = seq<byte>

  // ---------------------------------------------------------------- order

  /** The order of Rust's `[u8]`: the first differing byte decides, a proper prefix is smaller. */
  predicate Lt(a: Key, b: Key) {
    if b == [] then false
    else if a == [] then true
    else a[0] < b[0] || (a[0] == b[0] && Lt(a[1..], b[1..]))
  }

  predicate Le(a: Key, b: Key) {
    a == b || Lt(a, b)
  }

  lemma {:induction false} LtIrreflexive(a: Key)
    ensures !Lt(a, a)
  {
    if a != [] { LtIrreflexive(a[1..]); }
  }

  lemma {:induction false} LtTransitive(a: Key, b: Key, c: Key)
    requires Lt(a, b) && Lt(b, c)
    ensures Lt(a, c)
  {
    if a != [] && a[0] == b[0] == c[0] { LtTransitive(a[1..], b[1..], c[1..]); }
  }

  lemma {:induction false} LtTotal(a: Key, b: Key)
    ensures Lt(a, b) || a == b || Lt(b, a)
  {
    if a != [] && b != [] && a[0] == b[0] {
      LtTotal(a[1..], b[1..]);
      assert a == [a[0]] + a[1..] && b == [b[0]] + b[1..];
    }
  }

  /** `Lt` is a strict total order with `[]` as least element. */
  lemma LtOrder()
    ensures forall a: Key :: !Lt(a, a)
    ensures forall a: Key, b: Key, c: Key {:trigger Lt(a, b), Lt(b, c)} :: Lt(a, b) && Lt(b, c) ==> Lt(a, c)
    ensures forall a: Key, b: Key {:trigger Lt(a, b)} {:trigger Lt(b, a)} :: Lt(a, b) || a == b || Lt(b, a)
    ensures forall a: Key {:trigger Lt([], a)} :: a == [] || Lt([], a)
  {
    forall a: Key ensures !Lt(a, a) { LtIrreflexive(a); }
    forall a: Key, b: Key, c: Key | Lt(a, b) && Lt(b, c) ensures Lt(a, c) { LtTransitive(a, b, c); }
    forall a: Key, b: Key ensures Lt(a, b) || a == b || Lt(b, a) { LtTotal(a, b); }
  }

  /** A common prefix does not affect the order. */
  lemma {:induction false} LtPrefix(p: Key, a: Key, b: Key)
    ensures Lt(p + a, p + b) <==> Lt(a, b)
  {
    if p == [] {
      assert p + a == a && p + b == b;
    } else {
      assert (p + a)[1..] == p[1..] + a && (p + b)[1..] == p[1..] + b;
      LtPrefix(p[1..], a, b);
    }
  }

  /** With first blocks of one length, the first blocks decide unless they are equal. */
  lemma {:induction false} LtBlocks(a: Key, b: Key, x: Key, y: Key)
    requires |a| == |b|
    ensures Lt(a + x, b + y) <==> Lt(a, b) || (a == b && Lt(x, y))
  {
    if a == [] {
      assert a + x == x && b + y == y;
    } else {
      assert (a + x)[1..] == a[1..] + x && (b + y)[1..] == b[1..] + y;
      LtBlocks(a[1..], b[1..], x, y);
      if a[0] == b[0] {
        assert a == b <==> a[1..] == b[1..] by {
          assert a == [a[0]] + a[1..] && b == [b[0]] + b[1..];
        }
      }
    }
  }

  // ---------------------------------------------------------------- integers

  /** 256 to the power `w`. */
  function Pow256(w: nat): (r: nat)
    ensures r > 0
  {
    if w == 0 then 1 else 256 * Pow256(w - 1)
  }

  /** The low `w` bytes of `n`, least significant first (`to_le_bytes` after truncation to `w` bytes). */
  function LE(n: nat, w: nat): (r: Key)
    ensures |r| == w
  {
    if w == 0 then [] else [n % 256] + LE(n / 256, w - 1)
  }

  function FromLE(s: Key): (n: nat)
    ensures n < Pow256(|s|)
  {
    if s == [] then 0 else s[0] + 256 * FromLE(s[1..])
  }

  lemma {:induction false} LERoundTrip(n: nat, w: nat)
    requires n < Pow256(w)
    ensures FromLE(LE(n, w)) == n
  {
    if w > 0 {
      LERoundTrip(n / 256, w - 1);
      assert LE(n, w)[1..] == LE(n / 256, w - 1);
    }
  }

  /** Every string of bytes is the encoding of the number it stands for. */
  lemma {:induction false} FromLERoundTrip(s: Key)
    ensures LE(FromLE(s), |s|) == s
  {
    if s != [] { FromLERoundTrip(s[1..]); }
  }

  /** Byte `i` counts 256 to the power of `i`. */
  lemma {:induction false} LEDigit(n: nat, w: nat, i: nat)
    requires i < w
    ensures LE(n, w)[i] == n / Pow256(i) % 256
  {
    if i > 0 {
      LEDigit(n / 256, w - 1, i - 1);
      DivTwice(n, Pow256(i - 1));
    }
  }

  lemma DivTwice(n: nat, p: nat)
    requires p > 0
    ensures n / 256 / p == n / (256 * p)
  {
    var m := n / 256;
    var q, a, b := m / p, m % p, n % 256;
    Arithmetic.DivParts(m, p);
    Regrouped(q, p, a);
    Arithmetic.IntDivUnique(256 * p, q, 256 * a + b, n);
  }

  lemma Regrouped(q: nat, p: nat, a: nat)
    ensures 256 * (q * p + a) == q * (256 * p) + 256 * a
  {
  }

  /** `w` bytes of `n`, most significant first (`to_be_bytes`). */
  function BE(n: nat, w: nat): (r: Key)
    ensures |r| == w
  {
    if w == 0 then [] else BE(n / 256, w - 1) + [n % 256]
  }

  /** Big-endian encodings compare as the numbers do. */
  lemma {:induction false} BEOrder(a: nat, b: nat, w: nat)
    requires a < Pow256(w) && b < Pow256(w)
    ensures Lt(BE(a, w), BE(b, w)) <==> a < b
    ensures BE(a, w) == BE(b, w) <==> a == b
  {
    if w > 0 {
      var p, q := BE(a / 256, w - 1), BE(b / 256, w - 1);
      BEOrder(a / 256, b / 256, w - 1);
      LtBlocks(p, q, [a % 256], [b % 256]);
      assert p + [a % 256] == q + [b % 256] ==> p == q && a % 256 == b % 256 by {
        assert (p + [a % 256])[..w - 1] == p && (q + [b % 256])[..w - 1] == q;
        assert (p + [a % 256])[w - 1] == a % 256 && (q + [b % 256])[w - 1] == b % 256;
      }
    }
  }

  /** The powers used by the fixed widths of the source. */
  lemma Widths()
    ensures Pow256(2) == 0x1_0000 && Pow256(4) == 0x1_0000_0000 && Pow256(8) == 0x1_0000_0000_0000_0000
  {
    assert Pow256(1) == 256;
    assert Pow256(2) == 0x1_0000;
    assert Pow256(3) == 0x100_0000;
    assert Pow256(4) == 0x1_0000_0000;
    assert Pow256(5) == 0x100_0000_0000;
    assert Pow256(6) == 0x1_0000_0000_0000;
    assert Pow256(7) == 0x100_0000_0000_0000;
  }
}
