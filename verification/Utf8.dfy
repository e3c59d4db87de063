/** UTF-8: the byte strings the row codec accepts as text are exactly the encodings of Unicode texts. */
module Utf8 {
  import opened Bytes
  import opened Values

  /** Unicode scalar values: code points but for the surrogates. */
  predicate Scalar(c: int) { 0 <= c < 0xD800 || 0xE000 <= c < 0x11_0000 }

  /** One character, six bits to a byte after the first. */
  function Encoding(c: int): seq<byte>
    requires Scalar(c)
  {
    if c < 0x80 then [c]
    else if c < 0x800 then [0xC0 + c / 64, 0x80 + c % 64]
    else if c < 0x1_0000 then [0xE0 + c / 4096, 0x80 + c / 64 % 64, 0x80 + c % 64]
    else [0xF0 + c / 262_144, 0x80 + c / 4096 % 64, 0x80 + c / 64 % 64, 0x80 + c % 64]
  }

  predicate AllScalar(cs: seq<int>) { forall i :: 0 <= i < |cs| ==> Scalar(cs[i]) }

  function EncodingAll(cs: seq<int>): seq<byte>
    requires AllScalar(cs)
  {
    if cs == [] then [] else Encoding(cs[0]) + EncodingAll(cs[1..])
  }

  /** A string that begins with a character is measured as that. */
  lemma CharMeasured(c: int, rest: seq<byte>)
    requires Scalar(c)
    ensures CharLength(Encoding(c) + rest) == |Encoding(c)| > 0
  {
  }

  /** The last six bits. */
  function Six(b: byte): int { b as int - 0x80 }

  /** The character that a measured string begins with. */
  function CharOf(s: seq<byte>): int
    requires CharLength(s) > 0
  {
    var n, first: int := CharLength(s), s[0];
    if n == 1 then first
    else if n == 2 then (first - 0xC0) * 64 + Six(s[1])
    else if n == 3 then (first - 0xE0) * 4096 + Six(s[1]) * 64 + Six(s[2])
    else (first - 0xF0) * 262_144 + Six(s[1]) * 4096 + Six(s[2]) * 64 + Six(s[3])
  }

  lemma SixBits(x: int, y: int)
    requires 0 <= y < 64
    ensures (x * 64 + y) / 64 == x && (x * 64 + y) % 64 == y
  {
  }

  lemma Sixties(x: int, y: int, z: int)
    requires 0 <= y < 64 && 0 <= z < 64
    ensures var c := x * 4096 + y * 64 + z; c / 4096 == x && c / 64 % 64 == y && c % 64 == z
  {
    SixBits(x * 64 + y, z);
    SixBits(x, y);
  }

  lemma Sixty(w: int, x: int, y: int, z: int)
    requires 0 <= x < 64 && 0 <= y < 64 && 0 <= z < 64
    ensures var c := w * 262_144 + x * 4096 + y * 64 + z;
      c / 262_144 == w && c / 4096 % 64 == x && c / 64 % 64 == y && c % 64 == z
  {
    SixBits(w * 4096 + x * 64 + y, z);
    Sixties(w, x, y);
  }

  lemma TwoFound(s: seq<byte>)
    requires CharLength(s) == 2
    ensures Scalar(CharOf(s)) && Encoding(CharOf(s)) == s[..2]
  {
    var x, y: int := s[0] as int - 0xC0, Six(s[1]);
    SixBits(x, y);
    assert s[..2] == [s[0], s[1]];
  }

  lemma ThreeFound(s: seq<byte>)
    requires CharLength(s) == 3
    ensures Scalar(CharOf(s)) && Encoding(CharOf(s)) == s[..3]
  {
    var x, y, z: int := s[0] as int - 0xE0, Six(s[1]), Six(s[2]);
    Sixties(x, y, z);
    assert s[..3] == [s[0], s[1], s[2]];
  }

  lemma FourFound(s: seq<byte>)
    requires CharLength(s) == 4
    ensures Scalar(CharOf(s)) && Encoding(CharOf(s)) == s[..4]
  {
    var w, x, y, z: int := s[0] as int - 0xF0, Six(s[1]), Six(s[2]), Six(s[3]);
    Sixty(w, x, y, z);
    assert s[..4] == [s[0], s[1], s[2], s[3]];
  }

  lemma CharFound(s: seq<byte>)
    requires CharLength(s) > 0
    ensures Scalar(CharOf(s)) && Encoding(CharOf(s)) == s[..CharLength(s)]
  {
    if CharLength(s) == 1 {
      assert s[..1] == [s[0]];
    } else {
      assert CharLength(s) <= 4;
      hide CharLength, CharOf, Encoding, Scalar;
      if CharLength(s) == 2 { TwoFound(s); } else if CharLength(s) == 3 { ThreeFound(s); } else { FourFound(s); }
    }
  }

  /** Text is what some sequence of characters encodes to. */
  lemma {:induction false} Utf8Exact(s: seq<byte>)
    ensures IsUtf8(s) <==> exists cs :: AllScalar(cs) && EncodingAll(cs) == s
    decreases |s|
  {
    if IsUtf8(s) { var cs := CharsOf(s); }
    if cs :| AllScalar(cs) && EncodingAll(cs) == s { TextOf(cs); }
  }

  lemma {:induction false} CharsOf(s: seq<byte>) returns (cs: seq<int>)
    requires IsUtf8(s)
    ensures AllScalar(cs) && EncodingAll(cs) == s
    decreases |s|
  {
    hide CharLength, CharOf, Encoding, Scalar;
    cs := [];
    if s != [] {
      var n := CharLength(s);
      var c := CharOf(s);
      CharFound(s);
      var rest := CharsOf(s[n..]);
      cs := [c] + rest;
      assert cs[1..] == rest && s == s[..n] + s[n..];
    }
  }

  lemma {:induction false} TextOf(cs: seq<int>)
    requires AllScalar(cs)
    ensures IsUtf8(EncodingAll(cs))
  {
    hide CharLength, Encoding, Scalar;
    if cs != [] {
      var s := EncodingAll(cs);
      CharMeasured(cs[0], EncodingAll(cs[1..]));
      TextOf(cs[1..]);
      assert s[|Encoding(cs[0])|..] == EncodingAll(cs[1..]);
    }
  }
}
