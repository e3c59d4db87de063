/** The total order of section 5.10 of IEEE 754-2019 on binary64 patterns, and the integer order it amounts to. */
module Floats {
  import opened Arithmetic
  import opened Values

  const TWO52: nat := 0x10_0000_0000_0000
  const TWO51: nat := 0x8_0000_0000_0000
  const INFINITE_EXPONENT: nat := 2047

  predicate Negative(bits: nat) { bits >= TWO63 }

  /** The pattern without its sign. */
  function Low(bits: nat): nat { if Negative(bits) then bits - TWO63 else bits }

  function Exponent(bits: nat): nat { Low(bits) / TWO52 }
  function Fraction(bits: nat): nat { Low(bits) % TWO52 }

  predicate IsNaN(bits: nat) { Exponent(bits) >= INFINITE_EXPONENT && Fraction(bits) != 0 }

  function Pow2(k: nat): (r: nat)
    ensures r > 0
  {
    if k == 0 then 1 else 2 * Pow2(k - 1)
  }

  /** The magnitude of a number, in units of the smallest subnormal; infinity lies one binade up. */
  function Magnitude(exponent: nat, fraction: nat): nat {
    if exponent == 0 then fraction else (TWO52 + fraction) * Pow2(exponent - 1)
  }

  /** The number a pattern that is no NaN stands for. */
  function Number(bits: nat): int {
    var m: int := Magnitude(Exponent(bits), Fraction(bits));
    if Negative(bits) then -m else m
  }

  /** A NaN is quiet if the first bit of its fraction is set; the rest is its payload. */
  predicate Quiet(bits: nat) { Fraction(bits) >= TWO51 }
  function Payload(bits: nat): nat { if Quiet(bits) then Fraction(bits) - TWO51 else Fraction(bits) }

  /** Among NaNs of one sign: signaling below quiet, then by payload. */
  predicate NaNBelow(a: nat, b: nat) {
    (!Quiet(a) && Quiet(b)) || (Quiet(a) == Quiet(b) && Payload(a) < Payload(b))
  }

  /** totalOrder(a, b) holds and totalOrder(b, a) does not. */
  predicate TotallyBelow(a: nat, b: nat) {
    if IsNaN(a) && IsNaN(b) then
      if Negative(a) != Negative(b) then Negative(a)
      else if Negative(a) then NaNBelow(b, a) else NaNBelow(a, b)
    else if IsNaN(a) then Negative(a)
    else if IsNaN(b) then !Negative(b)
    else if Number(a) != Number(b) then Number(a) < Number(b)
    else Negative(a) && !Negative(b)
  }

  // -------------------------------------------------- the order of the patterns

  lemma {:induction false} Pow2Grows(i: nat, j: nat)
    requires i < j
    ensures 2 * Pow2(i) <= Pow2(j)
    decreases j
  {
    if i + 1 < j { Pow2Grows(i, j - 1); }
  }

  lemma Scale(a: nat, b: nat, s: nat)
    requires s > 0
    ensures a < b <==> a * s < b * s
  {
    if a < b { ScaleUp(a, b, s); } else if b < a { ScaleUp(b, a, s); }
  }

  lemma MagnitudeBounds(e: nat, f: nat)
    requires f < TWO52
    ensures e == 0 ==> Magnitude(e, f) < TWO52
    ensures e > 0 ==> TWO52 * Pow2(e - 1) <= Magnitude(e, f) < 2 * TWO52 * Pow2(e - 1)
  {
    if e > 0 {
      Scale(TWO52 + f, 2 * TWO52, Pow2(e - 1));
      assert (TWO52 + f) * Pow2(e - 1) == TWO52 * Pow2(e - 1) + f * Pow2(e - 1);
    }
  }

  /** A higher exponent beats every fraction. */
  lemma ExponentFirst(e: nat, f: nat, x: nat, g: nat)
    requires e < x && f < TWO52 && g < TWO52
    ensures Magnitude(e, f) < Magnitude(x, g)
  {
    MagnitudeBounds(e, f);
    MagnitudeBounds(x, g);
    if e > 0 {
      Pow2Grows(e - 1, x - 1);
      Scale(2 * Pow2(e - 1), Pow2(x - 1) + 1, TWO52);
    } else {
      Scale(1, Pow2(x - 1) + 1, TWO52);
    }
  }

  lemma MagnitudeOrder(e: nat, f: nat, x: nat, g: nat)
    requires f < TWO52 && g < TWO52
    ensures Magnitude(e, f) < Magnitude(x, g) <==> e * TWO52 + f < x * TWO52 + g
    ensures Magnitude(e, f) == Magnitude(x, g) <==> e * TWO52 + f == x * TWO52 + g
  {
    if e < x {
      ExponentFirst(e, f, x, g);
    } else if x < e {
      ExponentFirst(x, g, e, f);
    } else if e > 0 {
      Scale(TWO52 + f, TWO52 + g, Pow2(e - 1));
      Scale(TWO52 + g, TWO52 + f, Pow2(e - 1));
    }
  }

  lemma LowParts(bits: nat)
    ensures Low(bits) == Exponent(bits) * TWO52 + Fraction(bits) && Fraction(bits) < TWO52
  {
  }

  /** Magnitudes are ordered as the patterns without sign. */
  lemma LowOrder(a: nat, b: nat)
    ensures Magnitude(Exponent(a), Fraction(a)) < Magnitude(Exponent(b), Fraction(b)) <==> Low(a) < Low(b)
    ensures Magnitude(Exponent(a), Fraction(a)) == Magnitude(Exponent(b), Fraction(b)) <==> Low(a) == Low(b)
  {
    LowParts(a);
    LowParts(b);
    MagnitudeOrder(Exponent(a), Fraction(a), Exponent(b), Fraction(b));
  }

  lemma NaNsAbove(a: nat, b: nat)
    requires a < TWO64 && b < TWO64 && IsNaN(a)
    ensures !IsNaN(b) ==> Low(b) < Low(a)
    ensures IsNaN(b) ==> (NaNBelow(a, b) <==> Low(a) < Low(b))
  {
    LowParts(a);
    LowParts(b);
  }

  /** Patterns in the total order: negative ones downwards, then positive ones upwards. */
  predicate SignOrder(a: nat, b: nat) {
    if Negative(a) != Negative(b) then Negative(a)
    else if Negative(a) then Low(b) < Low(a) else Low(a) < Low(b)
  }

  lemma NumbersOrder(a: nat, b: nat)
    requires !IsNaN(a) && !IsNaN(b)
    ensures TotallyBelow(a, b) <==> SignOrder(a, b)
  {
    hide Exponent, Fraction, Low, Magnitude;
    LowOrder(a, b);
    LowOrder(b, a);
  }

  lemma TotalOrderIs(a: nat, b: nat)
    requires a < TWO64 && b < TWO64
    ensures TotallyBelow(a, b) <==> SignOrder(a, b)
  {
    if !IsNaN(a) && !IsNaN(b) {
      NumbersOrder(a, b);
    } else {
      hide Exponent, Fraction, Low, Number, IsNaN;
      if IsNaN(a) { NaNsAbove(a, b); }
      if IsNaN(b) { NaNsAbove(b, a); }
    }
  }
}
