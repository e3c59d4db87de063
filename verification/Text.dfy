/** Decimal numbers and the string operations the date and time parsers use. */
module Text {
  import opened Wrappers

  predicate IsDigit(c: char) { '0' <= c <= '9' }

  predicate AllDigits(s: string) { forall i :: 0 <= i < |s| ==> IsDigit(s[i]) }

  function DigitOf(k: nat): (c: char)
    requires k < 10
    ensures IsDigit(c) && c as int - '0' as int == k
  {
    '0' + k as char
  }

  /** The number a string of digits stands for. */
  function Value(s: string): nat
    requires AllDigits(s)
  {
    if s == "" then 0 else 10 * Value(s[..|s| - 1]) + (s[|s| - 1] as int - '0' as int)
  }

  function Decimal(n: nat): (s: string)
    ensures s != "" && AllDigits(s) && Value(s) == n
  {
    if n < 10 then
      assert [DigitOf(n)][..0] == "";
      [DigitOf(n)]
    else
      var s := Decimal(n / 10);
      assert (s + [DigitOf(n % 10)])[..|s|] == s;
      s + [DigitOf(n % 10)]
  }

  function Zeros(k: nat): (s: string)
    ensures |s| == k && forall i :: 0 <= i < k ==> s[i] == '0'
  {
    seq(k, i => '0')
  }

  /** At least `w` digits, filled with zeros on the left. */
  function Pad(n: nat, w: nat): (s: string)
    ensures s != "" && AllDigits(s) && Value(s) == n && |s| >= w
  {
    var s := Decimal(n);
    if |s| >= w then s else ValueZeros(w - |s|, s); Zeros(w - |s|) + s
  }

  /** The same for a signed number, the sign counting towards the width. */
  function PadInt(n: int, w: nat): string {
    if n >= 0 then Pad(n, w) else "-" + Pad(-n, if w > 0 then w - 1 else 0)
  }

  lemma {:induction false} ValueZeros(k: nat, s: string)
    requires AllDigits(s)
    ensures AllDigits(Zeros(k) + s) && Value(Zeros(k) + s) == Value(s)
    decreases |s|, k
  {
    if s == "" {
      assert Zeros(k) + s == Zeros(k);
      if k > 0 {
        ValueZeros(k - 1, s);
        assert Zeros(k)[..k - 1] == Zeros(k - 1) == Zeros(k - 1) + s;
      }
    } else {
      var t := s[..|s| - 1];
      ValueZeros(k, t);
      assert (Zeros(k) + s)[..k + |s| - 1] == Zeros(k) + t;
    }
  }

  function Power(k: nat): nat { if k == 0 then 1 else 10 * Power(k - 1) }

  lemma {:induction false} DecimalLength(n: nat, k: nat)
    requires k > 0 && n < Power(k)
    ensures |Decimal(n)| <= k
  {
    if n >= 10 {
      DecimalLength(n / 10, k - 1);
    }
  }

  lemma PadLength(n: nat, k: nat)
    requires k > 0 && n < Power(k)
    ensures |Pad(n, k)| == k
  {
    DecimalLength(n, k);
  }

  // ------------------------------------------------------------ reading back

  /** An integer with an optional sign, within the given width. */
  function ParseInt(s: string, low: int, high: int): Option<int> {
    var signed := s != "" && (s[0] == '-' || s[0] == '+');
    var digits := if signed then s[1..] else s;
    if digits == "" || !AllDigits(digits) then None
    else
      var v := if signed && s[0] == '-' then -(Value(digits) as int) else Value(digits);
      if low <= v <= high then Some(v) else None
  }

  lemma ParseDigits(s: string, low: int, high: int)
    requires s != "" && AllDigits(s) && low <= Value(s) <= high
    ensures ParseInt(s, low, high) == Some(Value(s) as int)
  {
    assert IsDigit(s[0]);
  }

  /** A sign before the digits: a number is read exactly if it is in range. */
  lemma SignsMean(d: string, low: int, high: int)
    requires d != "" && AllDigits(d)
    ensures var v: int := Value(d);
      && ParseInt(['-'] + d, low, high) == (if low <= -v <= high then Some(-v) else None)
      && ParseInt(['+'] + d, low, high) == if low <= v <= high then Some(v) else None
  {
    assert (['-'] + d)[1..] == d && (['+'] + d)[1..] == d;
  }

  /** White space as Unicode has it. */
  predicate IsSpace(c: char) {
    var k := c as int;
    (9 <= k <= 13) || k == 32 || k == 0x85 || k == 0xA0 || k == 0x1680 || (0x2000 <= k <= 0x200A)
    || k == 0x2028 || k == 0x2029 || k == 0x202F || k == 0x205F || k == 0x3000
  }

  function Trim(s: string): string
    decreases |s|
  {
    if s == "" then s
    else if IsSpace(s[0]) then Trim(s[1..])
    else if IsSpace(s[|s| - 1]) then Trim(s[..|s| - 1])
    else s
  }

  /** The first place of a character, or the length. */
  function Find(s: string, c: char): (p: nat)
    ensures p <= |s| && c !in s[..p]
    ensures p < |s| ==> s[p] == c
  {
    if s == "" || s[0] == c then 0
    else
      var q := Find(s[1..], c);
      assert s[..q + 1] == [s[0]] + s[1..][..q];
      q + 1
  }

  /** Splits at the first `n - 1` places of `c`. */
  function SplitN(s: string, n: nat, c: char): seq<string>
    requires n > 0
    decreases n
  {
    var p := Find(s, c);
    if n == 1 || p == |s| then [s] else [s[..p]] + SplitN(s[p + 1..], n - 1, c)
  }

  lemma {:induction false} FindAt(a: string, c: char, b: string)
    requires c !in a
    ensures Find(a + [c] + b, c) == |a|
  {
    var s := a + [c] + b;
    assert s[|a|] == c;
    assert forall i :: 0 <= i < |a| ==> s[i] == a[i];
    assert forall p :: |a| < p <= |s| ==> s[..p][|a|] == c;
  }

  lemma FindNone(s: string, c: char)
    requires c !in s
    ensures Find(s, c) == |s|
  {
  }

  lemma SplitStep(a: string, c: char, b: string, n: nat)
    requires c !in a && n > 1
    ensures SplitN(a + [c] + b, n, c) == [a] + SplitN(b, n - 1, c)
  {
    var s := a + [c] + b;
    FindAt(a, c, b);
    assert s[..|a|] == a && s[|a| + 1..] == b;
  }

  lemma SplitThree(x: string, y: string, z: string, c: char)
    requires c !in x && c !in y
    ensures SplitN(x + [c] + (y + [c] + z), 3, c) == [x, y, z]
  {
    SplitStep(x, c, y + [c] + z, 3);
    SplitStep(y, c, z, 2);
  }

  lemma NotAmongDigits(s: string, c: char)
    requires AllDigits(s) && !IsDigit(c)
    ensures c !in s
  {
  }

  lemma TrimNothing(s: string)
    requires s != "" && !IsSpace(s[0]) && !IsSpace(s[|s| - 1])
    ensures Trim(s) == s
  {
  }
}
