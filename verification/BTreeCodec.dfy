/** Page images of B+ tree nodes and of the meta record. */
module BTreeCodec {
  import opened Wrappers
  import opened Bytes
  import opened BTreeNodes

  datatype BTreeError = InvalidPage | KeyNotFound | DuplicateKey | CorruptMeta

  datatype Result<+T> = Ok(value: T) | Err(error: BTreeError)


  const META_MAGIC: nat := 0xBEE7_1CEE

  function Zeros(n: nat): (z: Key)
    ensures |z| == n && forall i :: 0 <= i < n ==> z[i] == 0
  {
    seq(n, _ => 0)
  }

  /** An entry as it is laid out: a length-prefixed key and a payload of fixed width. */
  datatype Raw = Raw(key: Key, payload: Key)

  function EncodeRaw(r: Raw): Key {
    LE(|r.key|, 2) + r.key + r.payload
  }

  function EncodeRaws(rs: seq<Raw>): Key {
    if rs == [] then [] else EncodeRaw(rs[0]) + EncodeRaws(rs[1..])
  }

  /** One entry at the start of `s`, or None when `s` is too short. */
  function DecodeRaw(s: Key, width: nat): (r: Option<Raw>)
    ensures r.Some? ==> 2 + |r.value.key| + width <= |s| && |r.value.payload| == width
  {
    if 2 > |s| then None
    else
      var len := FromLE(s[..2]);
      if 2 + len + width > |s| then None
      else Some(Raw(s[2..2 + len], s[2 + len..2 + len + width]))
  }

  function DecodeRaws(s: Key, width: nat, count: nat): (r: Option<seq<Raw>>)
    ensures r.Some? ==> |r.value| == count && forall i :: 0 <= i < count ==> |r.value[i].payload| == width
  {
    if count == 0 then Some([])
    else
      var first := DecodeRaw(s, width);
      if first.None? then None
      else
        var rest := DecodeRaws(s[2 + |first.value.key| + width..], width, count - 1);
        if rest.None? then None else Some([first.value] + rest.value)
  }

  lemma DecodeRawEncoded(r: Raw, tail: Key, width: nat)
    requires |r.key| < 0x1_0000 && |r.payload| == width
    ensures DecodeRaw(EncodeRaw(r) + tail, width) == Some(r)
    ensures (EncodeRaw(r) + tail)[2 + |r.key| + width..] == tail
  {
    var s := EncodeRaw(r) + tail;
    Widths();
    LERoundTrip(|r.key|, 2);
    assert s[..2] == LE(|r.key|, 2);
    assert s[2..2 + |r.key|] == r.key;
    assert s[2 + |r.key|..2 + |r.key| + width] == r.payload;
  }

  predicate RawsOk(rs: seq<Raw>, width: nat) {
    forall i :: 0 <= i < |rs| ==> |rs[i].key| < 0x1_0000 && |rs[i].payload| == width
  }

  lemma {:induction false} DecodeRawsEncoded(rs: seq<Raw>, tail: Key, width: nat)
    requires RawsOk(rs, width)
    ensures DecodeRaws(EncodeRaws(rs) + tail, width, |rs|) == Some(rs)
  {
    if rs != [] {
      var rest := EncodeRaws(rs[1..]) + tail;
      assert EncodeRaws(rs) + tail == EncodeRaw(rs[0]) + rest;
      DecodeRawEncoded(rs[0], rest, width);
      DecodeRawsEncoded(rs[1..], tail, width);
      assert rs == [rs[0]] + rs[1..];
    }
  }

  // ---------------------------------------------------------------- nodes

  function LeafRaw(e: LeafEntry): Raw {
    Raw(e.key, LE(e.tid.page, 4) + LE(e.tid.slot, 2))
  }

  function SepRaw(e: InternalEntry): Raw {
    Raw(e.key, LE(e.child, 4))
  }

  function LeafOfRaw(r: Raw): LeafEntry
    requires |r.payload| == 6
  {
    LeafEntry(r.key, Tid(FromLE(r.payload[..4]), FromLE(r.payload[4..])))
  }

  function SepOfRaw(r: Raw): InternalEntry {
    InternalEntry(r.key, FromLE(r.payload))
  }

  function Raws(n: Node): seq<Raw> {
    match n
    case Leaf(_, _, es) => seq(|es|, i requires 0 <= i < |es| => LeafRaw(es[i]))
    case Internal(_, _, es) => seq(|es|, i requires 0 <= i < |es| => SepRaw(es[i]))
  }

  function Header(n: Node): (h: Key)
    ensures |h| == 11
  {
    [if n.Leaf? then 1 else 0] + LE(Count(n), 2) + LE(n.right, 4) + LE(n.left, 4)
  }

  function EncodeNode(n: Node): (r: Result<Key>)
    ensures r.Ok? <==> EncodedSize(n) <= PAGE_SIZE
    ensures r.Ok? ==> |r.value| == PAGE_SIZE
  {
    BodySize(n);
    if EncodedSize(n) > PAGE_SIZE then Err(InvalidPage)
    else Ok(Header(n) + EncodeRaws(Raws(n)) + Zeros(PAGE_SIZE - EncodedSize(n)))
  }

  lemma BodySize(n: Node)
    ensures |Header(n) + EncodeRaws(Raws(n))| == EncodedSize(n)
  {
    match n
    case Leaf(_, _, es) => LeafBodySize(n.right, n.left, es);
    case Internal(_, _, es) => SepBodySize(n.right, n.left, es);
  }

  lemma {:induction false} LeafBodySize(r: nat, l: nat, es: seq<LeafEntry>)
    ensures |EncodeRaws(Raws(Leaf(r, l, es)))| == LeafBytes(es)
  {
    if es != [] {
      assert Raws(Leaf(r, l, es))[1..] == Raws(Leaf(r, l, es[1..]));
      LeafBodySize(r, l, es[1..]);
    }
  }

  lemma {:induction false} SepBodySize(r: nat, l: nat, es: seq<InternalEntry>)
    ensures |EncodeRaws(Raws(Internal(r, l, es)))| == SepBytes(es)
  {
    if es != [] {
      assert Raws(Internal(r, l, es))[1..] == Raws(Internal(r, l, es[1..]));
      SepBodySize(r, l, es[1..]);
    }
  }

  function DecodeNode(s: Key): Result<Node> {
    if |s| < NODE_HEADER_SIZE then Err(InvalidPage)
    else if s[0] != 0 && s[0] != 1 then Err(InvalidPage)
    else
      var count, right, left := FromLE(s[1..3]), FromLE(s[3..7]), FromLE(s[7..11]);
      if s[0] == 1 then
        var rs := DecodeRaws(s[11..], 6, count);
        if rs.None? then Err(InvalidPage)
        else Ok(Leaf(right, left, seq(count, i requires 0 <= i < count => LeafOfRaw(rs.value[i]))))
      else
        var rs := DecodeRaws(s[11..], 4, count);
        if rs.None? then Err(InvalidPage)
        else Ok(Internal(right, left, seq(count, i requires 0 <= i < count => SepOfRaw(rs.value[i]))))
  }

  predicate U32(n: nat) { n < 0x1_0000_0000 }
  predicate U16(n: nat) { n < 0x1_0000 }

  /** Every field lies in the integer width it is stored with. */
  predicate Encodable(n: Node) {
    && U32(n.right) && U32(n.left) && EncodedSize(n) <= PAGE_SIZE
    && (match n
        case Leaf(_, _, es) => forall i :: 0 <= i < |es| ==> U32(es[i].tid.page) && U16(es[i].tid.slot)
        case Internal(_, _, es) => forall i :: 0 <= i < |es| ==> U32(es[i].child))
  }

  lemma LeafRawRoundTrip(e: LeafEntry)
    requires U32(e.tid.page) && U16(e.tid.slot)
    ensures LeafOfRaw(LeafRaw(e)) == e
  {
    Widths();
    LERoundTrip(e.tid.page, 4);
    LERoundTrip(e.tid.slot, 2);
    var p := LeafRaw(e).payload;
    assert p[..4] == LE(e.tid.page, 4) && p[4..] == LE(e.tid.slot, 2);
  }

  lemma SepRawRoundTrip(e: InternalEntry)
    requires U32(e.child)
    ensures SepOfRaw(SepRaw(e)) == e
  {
    Widths();
    LERoundTrip(e.child, 4);
  }

  /** A node that fits its page has few entries and short keys, so the 16-bit counts do not wrap. */
  lemma SmallNode(n: Node)
    requires EncodedSize(n) <= PAGE_SIZE
    ensures Count(n) < 0x1_0000
    ensures RawsOk(Raws(n), if n.Leaf? then 6 else 4)
  {
    match n
    case Leaf(_, _, es) => SmallLeaf(es);
    case Internal(_, _, es) => SmallInternal(es);
  }

  lemma {:induction false} SmallLeaf(es: seq<LeafEntry>)
    ensures |es| <= LeafBytes(es)
    ensures forall i :: 0 <= i < |es| ==> |es[i].key| <= LeafBytes(es)
  {
    if es != [] {
      SmallLeaf(es[1..]);
      assert forall i :: 1 <= i < |es| ==> es[i] == es[1..][i - 1];
    }
  }

  lemma {:induction false} SmallInternal(es: seq<InternalEntry>)
    ensures |es| <= SepBytes(es)
    ensures forall i :: 0 <= i < |es| ==> |es[i].key| <= SepBytes(es)
  {
    if es != [] {
      SmallInternal(es[1..]);
      assert forall i :: 1 <= i < |es| ==> es[i] == es[1..][i - 1];
    }
  }

  /** Reading back a written page gives the node that was written. */
  lemma NodeRoundTrip(n: Node)
    requires Encodable(n)
    ensures EncodeNode(n).Ok? && DecodeNode(EncodeNode(n).value) == Ok(n)
  {
    var s := EncodeNode(n).value;
    SmallNode(n);
    var tail := Zeros(PAGE_SIZE - EncodedSize(n));
    assert s[..11] == Header(n) && s[11..] == EncodeRaws(Raws(n)) + tail;
    HeaderFields(n, s);
    DecodeRawsEncoded(Raws(n), tail, if n.Leaf? then 6 else 4);
    RawsRoundTrip(n);
  }

  lemma RawsRoundTrip(n: Node)
    requires Encodable(n)
    ensures n.Leaf? ==> n.entries == seq(|n.entries|, i requires 0 <= i < |n.entries| => LeafOfRaw(Raws(n)[i]))
    ensures n.Internal? ==> n.seps == seq(|n.seps|, i requires 0 <= i < |n.seps| => SepOfRaw(Raws(n)[i]))
  {
    match n
    case Leaf(_, _, es) =>
      forall i | 0 <= i < |es| ensures LeafOfRaw(Raws(n)[i]) == es[i] { LeafRawRoundTrip(es[i]); }
    case Internal(_, _, es) =>
      forall i | 0 <= i < |es| ensures SepOfRaw(Raws(n)[i]) == es[i] { SepRawRoundTrip(es[i]); }
  }

  lemma HeaderFields(n: Node, s: Key)
    requires |s| >= 11 && s[..11] == Header(n) && U32(n.right) && U32(n.left) && U16(Count(n))
    ensures s[0] == if n.Leaf? then 1 else 0
    ensures FromLE(s[1..3]) == Count(n) && FromLE(s[3..7]) == n.right && FromLE(s[7..11]) == n.left
  {
    Widths();
    LERoundTrip(Count(n), 2);
    LERoundTrip(n.right, 4);
    LERoundTrip(n.left, 4);
    var h := s[..11];
    assert s[1..3] == h[1..3] == LE(Count(n), 2);
    assert s[3..7] == h[3..7] == LE(n.right, 4);
    assert s[7..11] == h[7..11] == LE(n.left, 4);
  }

  // ------------------------------------------------- which pages are nodes

  /** What a page begins with if it holds the node. */
  function Image(n: Node): Key { Header(n) + EncodeRaws(Raws(n)) }

  /** Every field lies in the integer width it is stored with, whatever the size. */
  predicate Within(n: Node) {
    && U32(n.right) && U32(n.left) && U16(Count(n))
    && (match n
        case Leaf(_, _, es) =>
          forall i :: 0 <= i < |es| ==> U16(|es[i].key|) && U32(es[i].tid.page) && U16(es[i].tid.slot)
        case Internal(_, _, es) => forall i :: 0 <= i < |es| ==> U16(|es[i].key|) && U32(es[i].child))
  }

  lemma RawExact(s: Key, width: nat, r: Raw)
    ensures DecodeRaw(s, width) == Some(r) <==> |r.key| < 0x1_0000 && |r.payload| == width && EncodeRaw(r) <= s
  {
    Widths();
    if EncodeRaw(r) <= s && |r.key| < 0x1_0000 && |r.payload| == width {
      var tail := s[|EncodeRaw(r)|..];
      assert s == EncodeRaw(r) + tail;
      DecodeRawEncoded(r, tail, width);
    }
    if DecodeRaw(s, width) == Some(r) {
      FromLERoundTrip(s[..2]);
      assert s[..2] + s[2..2 + |r.key|] + s[2 + |r.key|..2 + |r.key| + width] == s[..2 + |r.key| + width];
    }
  }

  lemma {:induction false} RawsExact(s: Key, width: nat, rs: seq<Raw>)
    ensures DecodeRaws(s, width, |rs|) == Some(rs) <==> RawsOk(rs, width) && EncodeRaws(rs) <= s
  {
    if RawsOk(rs, width) && EncodeRaws(rs) <= s {
      assert s == EncodeRaws(rs) + s[|EncodeRaws(rs)|..];
      DecodeRawsEncoded(rs, s[|EncodeRaws(rs)|..], width);
    }
    if rs != [] && DecodeRaws(s, width, |rs|) == Some(rs) {
      hide DecodeRaw;
      var first := DecodeRaw(s, width).value;
      var k := 2 + |first.key| + width;
      assert rs[0] == first && rs[1..] == DecodeRaws(s[k..], width, |rs| - 1).value;
      RawExact(s, width, first);
      RawsExact(s[k..], width, rs[1..]);
      assert |EncodeRaw(first)| == k && s == EncodeRaw(first) + s[k..];
    }
  }

  lemma HeaderExact(s: Key, n: Node)
    requires |s| >= 11
    ensures Header(n) <= s && U32(n.right) && U32(n.left) && U16(Count(n)) <==>
      && s[0] == (if n.Leaf? then 1 else 0)
      && FromLE(s[1..3]) == Count(n) && FromLE(s[3..7]) == n.right && FromLE(s[7..11]) == n.left
  {
    Widths();
    if Header(n) <= s && U32(n.right) && U32(n.left) && U16(Count(n)) { HeaderFields(n, s); }
    FromLERoundTrip(s[1..3]);
    FromLERoundTrip(s[3..7]);
    FromLERoundTrip(s[7..11]);
    assert s[..11] == [s[0]] + s[1..3] + s[3..7] + s[7..11];
  }

  lemma LeafRawExact(r: Raw, e: LeafEntry)
    requires |r.payload| == 6
    ensures LeafOfRaw(r) == e <==> U32(e.tid.page) && U16(e.tid.slot) && LeafRaw(e) == r
  {
    Widths();
    if U32(e.tid.page) && U16(e.tid.slot) && LeafRaw(e) == r { LeafRawRoundTrip(e); }
    FromLERoundTrip(r.payload[..4]);
    FromLERoundTrip(r.payload[4..]);
    assert r.payload == r.payload[..4] + r.payload[4..];
  }

  lemma SepRawExact(r: Raw, e: InternalEntry)
    requires |r.payload| == 4
    ensures SepOfRaw(r) == e <==> U32(e.child) && SepRaw(e) == r
  {
    Widths();
    if U32(e.child) && SepRaw(e) == r { SepRawRoundTrip(e); }
    FromLERoundTrip(r.payload);
  }

  lemma PrefixParts(a: Key, b: Key, s: Key)
    requires |a| <= |s|
    ensures a + b <= s <==> a <= s && b <= s[|a|..]
  {
    if a + b <= s {
      assert (a + b)[..|a|] == a && (a + b)[|a|..] == b;
      assert s[..|a + b|] == a + b;
      assert s[..|a|] == s[..|a + b|][..|a|] && s[|a|..][..|b|] == s[..|a + b|][|a|..];
    }
  }

  /** Decoding gives a node exactly if the page begins with its image; every other page is an error. */
  lemma NodeDecodesExact(s: Key, n: Node)
    ensures DecodeNode(s) == Ok(n) <==> Within(n) && Image(n) <= s
    ensures DecodeNode(s).Err? ==> DecodeNode(s) == Err(InvalidPage)
  {
    if |s| >= 11 {
      HeaderExact(s, n);
      PrefixParts(Header(n), EncodeRaws(Raws(n)), s);
      RawsExact(s[11..], if n.Leaf? then 6 else 4, Raws(n));
      hide DecodeRaws, EncodeRaws, FromLE, LE, Header;
      match n
      case Leaf(_, _, es) => LeafDecodes(s, n);
      case Internal(_, _, es) => SepsDecode(s, n);
    }
  }

  lemma LeafDecodes(s: Key, n: Node)
    requires n.Leaf? && |s| >= 11
    ensures DecodeNode(s) == Ok(n) <==>
      && s[0] == 1 && FromLE(s[1..3]) == Count(n) && FromLE(s[3..7]) == n.right && FromLE(s[7..11]) == n.left
      && Within(n) && DecodeRaws(s[11..], 6, Count(n)) == Some(Raws(n))
  {
    hide DecodeRaws, FromLE, LE;
    Narrow(s);
    var es, rs := n.entries, DecodeRaws(s[11..], 6, Count(n));
    if rs.Some? {
      forall i | 0 <= i < |es| ensures LeafOfRaw(rs.value[i]) == es[i] <==>
          U32(es[i].tid.page) && U16(es[i].tid.slot) && LeafRaw(es[i]) == rs.value[i] {
        LeafRawExact(rs.value[i], es[i]);
      }
      RawsExact(s[11..], 6, rs.value);
      if DecodeNode(s) == Ok(n) {
        forall i | 0 <= i < |es| ensures LeafOfRaw(rs.value[i]) == es[i] { }
        assert Raws(n) == rs.value;
        forall i | 0 <= i < |es| ensures U16(|es[i].key|) { assert |rs.value[i].key| < 0x1_0000; }
      }
      if rs.value == Raws(n) && Within(n) {
        forall i | 0 <= i < |es| ensures LeafOfRaw(rs.value[i]) == es[i] { assert Raws(n)[i] == LeafRaw(es[i]); }
        assert seq(|es|, i requires 0 <= i < |es| => LeafOfRaw(rs.value[i])) == es;
      }
    }
  }

  lemma SepsDecode(s: Key, n: Node)
    requires n.Internal? && |s| >= 11
    ensures DecodeNode(s) == Ok(n) <==>
      && s[0] == 0 && FromLE(s[1..3]) == Count(n) && FromLE(s[3..7]) == n.right && FromLE(s[7..11]) == n.left
      && Within(n) && DecodeRaws(s[11..], 4, Count(n)) == Some(Raws(n))
  {
    hide DecodeRaws, FromLE, LE;
    Narrow(s);
    var es, rs := n.seps, DecodeRaws(s[11..], 4, Count(n));
    if rs.Some? {
      forall i | 0 <= i < |es| ensures SepOfRaw(rs.value[i]) == es[i] <==>
          U32(es[i].child) && SepRaw(es[i]) == rs.value[i] {
        SepRawExact(rs.value[i], es[i]);
      }
      RawsExact(s[11..], 4, rs.value);
      if DecodeNode(s) == Ok(n) {
        forall i | 0 <= i < |es| ensures SepOfRaw(rs.value[i]) == es[i] { }
        assert Raws(n) == rs.value;
        forall i | 0 <= i < |es| ensures U16(|es[i].key|) { assert |rs.value[i].key| < 0x1_0000; }
      }
      if rs.value == Raws(n) && Within(n) {
        forall i | 0 <= i < |es| ensures SepOfRaw(rs.value[i]) == es[i] { assert Raws(n)[i] == SepRaw(es[i]); }
        assert seq(|es|, i requires 0 <= i < |es| => SepOfRaw(rs.value[i])) == es;
      }
    }
  }

  /** What is read from a header has the width of its field. */
  lemma Narrow(s: Key)
    requires |s| >= 11
    ensures U16(FromLE(s[1..3])) && U32(FromLE(s[3..7])) && U32(FromLE(s[7..11]))
  {
    Widths();
  }

  // ---------------------------------------------------------------- meta record

  datatype Meta = Meta(root: nat, height: nat, entries: nat, nextPage: nat)

  function EncodeMeta(m: Meta): (r: Key)
    ensures |r| == 32
  {
    LE(META_MAGIC, 4) + LE(m.root, 4) + LE(m.height, 4) + LE(m.entries, 8) + LE(m.nextPage, 4) + Zeros(8)
  }

  function DecodeMeta(s: Key): Result<Meta> {
    if |s| < 32 then Err(CorruptMeta)
    else if FromLE(s[..4]) != META_MAGIC then Err(CorruptMeta)
    else Ok(Meta(FromLE(s[4..8]), FromLE(s[8..12]), FromLE(s[12..20]), FromLE(s[20..24])))
  }

  predicate MetaEncodable(m: Meta) {
    U32(m.root) && U32(m.height) && m.entries < 0x1_0000_0000_0000_0000 && U32(m.nextPage)
  }

  /** Decoding ignores whatever follows the 32 bytes of the record. */
  lemma MetaRoundTrip(m: Meta, tail: Key)
    requires MetaEncodable(m)
    ensures DecodeMeta(EncodeMeta(m) + tail) == Ok(m)
  {
    Widths();
    var a := LE(META_MAGIC, 4);
    var b := a + LE(m.root, 4);
    var c := b + LE(m.height, 4);
    var d := c + LE(m.entries, 8);
    var e := d + LE(m.nextPage, 4);
    var s := EncodeMeta(m) + tail;
    Field(s, [], META_MAGIC, 4);
    assert s[..4] == s[0..4];
    Field(s, a, m.root, 4);
    Field(s, b, m.height, 4);
    Field(s, c, m.entries, 8);
    Field(s, d, m.nextPage, 4);
  }

  /** A fixed-width field is read back from its offset. */
  lemma Field(s: Key, before: Key, n: nat, w: nat)
    requires n < Pow256(w) && before + LE(n, w) <= s
    ensures FromLE(s[|before|..|before| + w]) == n
  {
    LERoundTrip(n, w);
    assert s[|before|..|before| + w] == (before + LE(n, w))[|before|..] == LE(n, w);
  }

  /** The fields of a record, without the bytes in reserve. */
  function MetaImage(m: Meta): Key {
    LE(0xBEE7_1CEE, 4) + LE(m.root, 4) + LE(m.height, 4) + LE(m.entries, 8) + LE(m.nextPage, 4)
  }

  /** A page is a meta record exactly if it has 32 bytes and begins with its magic number and fields. */
  lemma MetaDecodesExact(s: Key, m: Meta)
    ensures DecodeMeta(s) == Ok(m) <==> |s| >= 32 && MetaEncodable(m) && MetaImage(m) <= s
    ensures DecodeMeta(s).Err? ==> DecodeMeta(s) == Err(CorruptMeta)
  {
    hide FromLE, LE, MetaImage;
    if |s| >= 32 && MetaEncodable(m) && MetaImage(m) <= s { MetaReads(s, m); }
    if DecodeMeta(s) == Ok(m) { MetaWritten(s, m); }
  }

  lemma MetaReads(s: Key, m: Meta)
    requires |s| >= 32 && MetaEncodable(m) && MetaImage(m) <= s
    ensures DecodeMeta(s) == Ok(m)
  {
    Widths();
    var a := LE(META_MAGIC, 4);
    var b := a + LE(m.root, 4);
    var c := b + LE(m.height, 4);
    var d := c + LE(m.entries, 8);
    hide FromLE, LE;
    Field(s, [], META_MAGIC, 4);
    assert s[..4] == s[0..4];
    Field(s, a, m.root, 4);
    Field(s, b, m.height, 4);
    Field(s, c, m.entries, 8);
    Field(s, d, m.nextPage, 4);
  }

  lemma MetaWritten(s: Key, m: Meta)
    requires DecodeMeta(s) == Ok(m)
    ensures |s| >= 32 && MetaEncodable(m) && MetaImage(m) <= s
  {
    Widths();
    hide FromLE, LE;
    FromLERoundTrip(s[..4]);
    FromLERoundTrip(s[4..8]);
    FromLERoundTrip(s[8..12]);
    FromLERoundTrip(s[12..20]);
    FromLERoundTrip(s[20..24]);
    assert s[..4] + s[4..8] + s[8..12] + s[12..20] + s[20..24] == s[..24];
  }
}
