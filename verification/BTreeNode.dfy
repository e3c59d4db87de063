/** The node object: entry vectors changed in place, and the page buffer it is written through. */
module BTreeNodeObject {
  import opened Bytes
  import opened BTreeNodes
  import opened BTreeCodec
  import opened Wrappers

  lemma {:induction false} EncodeRawsSnoc(rs: seq<Raw>, i: nat)
    requires i < |rs|
    ensures EncodeRaws(rs[..i + 1]) == EncodeRaws(rs[..i]) + EncodeRaw(rs[i])
  {
    if i == 0 {
      assert rs[..1] == [rs[0]] && [rs[0]][1..] == [];
    } else {
      assert rs[..i + 1][1..] == rs[1..][..i] && rs[..i][1..] == rs[1..][..i - 1];
      EncodeRawsSnoc(rs[1..], i - 1);
    }
  }

  lemma {:induction false} EncodeRawsPrefix(rs: seq<Raw>, i: nat)
    requires i <= |rs|
    ensures |EncodeRaws(rs[..i])| <= |EncodeRaws(rs)|
    decreases |rs| - i
  {
    if i == |rs| {
      assert rs[..i] == rs;
    } else {
      EncodeRawsSnoc(rs, i);
      EncodeRawsPrefix(rs, i + 1);
    }
  }

  /** The buffer holds what has been written so far, then zeros. */
  ghost predicate Holds(buf: array<byte>, written: Key)
    reads buf
  {
    |written| <= buf.Length && buf[..] == written + Zeros(buf.Length - |written|)
  }

  /** Copies `bytes` into the buffer at `pos`. */
  method Put(buf: array<byte>, ghost written: Key, pos: nat, bytes: Key) returns (pos': nat)
    requires Holds(buf, written) && pos == |written| && pos + |bytes| <= buf.Length
    modifies buf
    ensures Holds(buf, written + bytes) && pos' == |written + bytes|
  {
    forall i | 0 <= i < |bytes| {
      buf[pos + i] := bytes[i];
    }
    pos' := pos + |bytes|;
    assert buf[..] == old(buf[..pos]) + bytes + old(buf[pos + |bytes|..]);
  }

  class BTreeNode {
    var isLeaf: bool
    var rightSibling: nat
    var leftSibling: nat
    var internalEntries: seq<InternalEntry>
    var leafEntries: seq<LeafEntry>

    ghost function View(): Node
      reads this
    {
      if isLeaf then Leaf(rightSibling, leftSibling, leafEntries)
      else Internal(rightSibling, leftSibling, internalEntries)
    }

    constructor (leaf: bool, right: nat, left: nat, seps: seq<InternalEntry>, entries: seq<LeafEntry>)
      ensures View() == if leaf then Leaf(right, left, entries) else Internal(right, left, seps)
    {
      isLeaf, rightSibling, leftSibling, internalEntries, leafEntries := leaf, right, left, seps, entries;
    }

    static function EntrySize(keyLen: nat, leaf: bool): nat {
      if leaf then 2 + keyLen + 4 + 2 else 2 + keyLen + 4
    }

    method Size() returns (size: nat)
      ensures size == EncodedSize(View())
    {
      size := NODE_HEADER_SIZE;
      if isLeaf {
        for i := 0 to |leafEntries|
          invariant size + LeafBytes(leafEntries[i..]) == EncodedSize(View())
        {
          size := size + EntrySize(|leafEntries[i].key|, true);
          assert leafEntries[i..][1..] == leafEntries[i + 1..];
        }
      } else {
        for i := 0 to |internalEntries|
          invariant size + SepBytes(internalEntries[i..]) == EncodedSize(View())
        {
          size := size + EntrySize(|internalEntries[i].key|, false);
          assert internalEntries[i..][1..] == internalEntries[i + 1..];
        }
      }
    }

    /** The subtraction is unsigned: a node larger than a page must not be asked. */
    method Full() returns (full: bool)
      requires EncodedSize(View()) <= PAGE_SIZE
      ensures full <==> IsFull(View())
    {
      var size := Size();
      full := PAGE_SIZE - size < FULL_THRESHOLD;
    }

    method Encode() returns (r: Result<Key>)
      ensures r == EncodeNode(View())
    {
      var size := Size();
      if size > PAGE_SIZE {
        return Err(InvalidPage);
      }
      var buf := new byte[PAGE_SIZE](_ => 0);
      assert Holds(buf, []) by { assert buf[..] == Zeros(PAGE_SIZE); assert [] + Zeros(PAGE_SIZE) == Zeros(PAGE_SIZE); }
      BodySize(View());
      var pos := PutHeader(buf);
      PutEntries(buf, pos);
      return Ok(buf[..]);
    }

    method PutHeader(buf: array<byte>) returns (pos: nat)
      requires Holds(buf, []) && buf.Length >= 11
      modifies buf
      ensures Holds(buf, Header(View())) && pos == 11
      ensures View() == old(View())
    {
      var count := if isLeaf then |leafEntries| else |internalEntries|;
      ghost var kind: Key := [if isLeaf then 1 else 0];
      pos := Put(buf, [], 0, [if isLeaf then 1 else 0]);
      assert [] + kind == kind;
      pos := Put(buf, kind, pos, LE(count, 2));
      pos := Put(buf, kind + LE(count, 2), pos, LE(rightSibling, 4));
      pos := Put(buf, kind + LE(count, 2) + LE(rightSibling, 4), pos, LE(leftSibling, 4));
    }

    method PutEntries(buf: array<byte>, start: nat)
      requires Holds(buf, Header(View())) && start == 11 && buf.Length == PAGE_SIZE
      requires EncodedSize(View()) <= PAGE_SIZE && |Header(View()) + EncodeRaws(Raws(View()))| == EncodedSize(View())
      modifies buf
      ensures Holds(buf, Header(View()) + EncodeRaws(Raws(View())))
      ensures View() == old(View())
    {
      ghost var rs := Raws(View());
      ghost var head := Header(View());
      var pos := start;
      assert rs[..0] == [] && head + [] == head && EncodeRaws(rs[..0]) == [];
      hide EncodeRaw, EncodeRaws, Header, EncodedSize;
      var count := if isLeaf then |leafEntries| else |internalEntries|;
      for i := 0 to count
        invariant Holds(buf, head + EncodeRaws(rs[..i])) && pos == |head + EncodeRaws(rs[..i])|
        invariant View() == old(View())
      {
        hide EncodeRaw, EncodeRaws, Header, EncodedSize;
        EncodeRawsSnoc(rs, i);
        EncodeRawsPrefix(rs, i + 1);
        ghost var written := head + EncodeRaws(rs[..i]);
        assert written + EncodeRaw(rs[i]) == head + EncodeRaws(rs[..i + 1]);
        if isLeaf {
          pos := PutLeafEntry(buf, written, pos, leafEntries[i]);
        } else {
          pos := PutInternalEntry(buf, written, pos, internalEntries[i]);
        }
      }
      assert rs[..count] == rs;
    }

    static method PutLeafEntry(buf: array<byte>, ghost written: Key, at: nat, e: LeafEntry) returns (pos: nat)
      requires Holds(buf, written) && at == |written| && at + |EncodeRaw(LeafRaw(e))| <= buf.Length
      modifies buf
      ensures Holds(buf, written + EncodeRaw(LeafRaw(e))) && pos == |written + EncodeRaw(LeafRaw(e))|
    {
      var a, b, c, d := LE(|e.key|, 2), e.key, LE(e.tid.page, 4), LE(e.tid.slot, 2);
      pos := Put(buf, written, at, a);
      pos := Put(buf, written + a, pos, b);
      pos := Put(buf, written + a + b, pos, c);
      pos := Put(buf, written + a + b + c, pos, d);
      assert written + a + b + c + d == written + EncodeRaw(LeafRaw(e));
    }

    static method PutInternalEntry(buf: array<byte>, ghost written: Key, at: nat, e: InternalEntry) returns (pos: nat)
      requires Holds(buf, written) && at == |written| && at + |EncodeRaw(SepRaw(e))| <= buf.Length
      modifies buf
      ensures Holds(buf, written + EncodeRaw(SepRaw(e))) && pos == |written + EncodeRaw(SepRaw(e))|
    {
      var a, b, c := LE(|e.key|, 2), e.key, LE(e.child, 4);
      pos := Put(buf, written, at, a);
      pos := Put(buf, written + a, pos, b);
      pos := Put(buf, written + a + b, pos, c);
      assert written + a + b + c == written + EncodeRaw(SepRaw(e));
    }

    /** Entries read from offset `start` on; None when the page ends too early. */
    static method ReadRaws(bytes: Key, start: nat, width: nat, count: nat) returns (r: Option<seq<Raw>>)
      requires start <= |bytes|
      ensures r == DecodeRaws(bytes[start..], width, count)
    {
      var pos := start;
      var done: seq<Raw> := [];
      NothingAhead(DecodeRaws(bytes[start..], width, count));
      for i := 0 to count
        invariant start <= pos <= |bytes|
        invariant DecodeRaws(bytes[start..], width, count) == Ahead(done, DecodeRaws(bytes[pos..], width, count - i))
      {
        var raw := ReadRaw(bytes, pos, width);
        if raw.None? {
          return None;
        }
        StepRaws(bytes, pos, width, count - i, done, raw.value);
        pos := pos + 2 + |raw.value.key| + width;
        done := done + [raw.value];
      }
      assert done + [] == done;
      return Some(done);
    }

    static method ReadRaw(bytes: Key, pos: nat, width: nat) returns (r: Option<Raw>)
      requires pos <= |bytes|
      ensures r == DecodeRaw(bytes[pos..], width)
    {
      RawAt(bytes, pos, width);
      if pos + 2 > |bytes| {
        return None;
      }
      var len := FromLE(bytes[pos..pos + 2]);
      if pos + 2 + len + width > |bytes| {
        return None;
      }
      return Some(Raw(bytes[pos + 2..pos + 2 + len], bytes[pos + 2 + len..pos + 2 + len + width]));
    }

    static function Ahead(done: seq<Raw>, rest: Option<seq<Raw>>): Option<seq<Raw>> {
      if rest.None? then None else Some(done + rest.value)
    }

    static lemma NothingAhead(rest: Option<seq<Raw>>)
      ensures Ahead([], rest) == rest
    {
      if rest.Some? { assert [] + rest.value == rest.value; }
    }

    /** An entry read at an offset of the page is an entry read at the start of the rest. */
    static lemma RawAt(bytes: Key, pos: nat, width: nat)
      requires pos <= |bytes|
      ensures DecodeRaw(bytes[pos..], width) ==
              if pos + 2 > |bytes| then None
              else
                var len := FromLE(bytes[pos..pos + 2]);
                if pos + 2 + len + width > |bytes| then None
                else Some(Raw(bytes[pos + 2..pos + 2 + len], bytes[pos + 2 + len..pos + 2 + len + width]))
    {
      if pos + 2 <= |bytes| {
        assert bytes[pos..][..2] == bytes[pos..pos + 2];
        var len := FromLE(bytes[pos..pos + 2]);
        if pos + 2 + len + width <= |bytes| {
          assert bytes[pos..][2..2 + len] == bytes[pos + 2..pos + 2 + len];
          assert bytes[pos..][2 + len..2 + len + width] == bytes[pos + 2 + len..pos + 2 + len + width];
        }
      }
    }

    static lemma StepRaws(bytes: Key, pos: nat, width: nat, count: nat, done: seq<Raw>, raw: Raw)
      requires pos <= |bytes| && count > 0 && DecodeRaw(bytes[pos..], width) == Some(raw)
      ensures var pos' := pos + 2 + |raw.key| + width;
              && pos' <= |bytes|
              && Ahead(done, DecodeRaws(bytes[pos..], width, count))
                  == Ahead(done + [raw], DecodeRaws(bytes[pos'..], width, count - 1))
    {
      var pos' := pos + 2 + |raw.key| + width;
      assert bytes[pos..][2 + |raw.key| + width..] == bytes[pos'..];
      var rest := DecodeRaws(bytes[pos'..], width, count - 1);
      if rest.Some? { assert done + ([raw] + rest.value) == done + [raw] + rest.value; }
    }

    static method Decode(bytes: Key) returns (r: Result<BTreeNode>)
      ensures match DecodeNode(bytes)
              case Ok(n) => r.Ok? && fresh(r.value) && r.value.View() == n
              case Err(e) => r == Err(e)
    {
      if |bytes| < NODE_HEADER_SIZE {
        return Err(InvalidPage);
      }
      if bytes[0] != 0 && bytes[0] != 1 {
        return Err(InvalidPage);
      }
      var count, right, left := FromLE(bytes[1..3]), FromLE(bytes[3..7]), FromLE(bytes[7..11]);
      if bytes[0] == 1 {
        var rs := ReadRaws(bytes, 11, 6, count);
        if rs.None? {
          return Err(InvalidPage);
        }
        var n := new BTreeNode(true, right, left, [], seq(count, i requires 0 <= i < count => LeafOfRaw(rs.value[i])));
        return Ok(n);
      } else {
        var rs := ReadRaws(bytes, 11, 4, count);
        if rs.None? {
          return Err(InvalidPage);
        }
        var n := new BTreeNode(false, right, left, seq(count, i requires 0 <= i < count => SepOfRaw(rs.value[i])), []);
        return Ok(n);
      }
    }

    /** Binary search; in a sorted leaf, None means that the key is not there. */
    method FindKey(key: Key) returns (r: Option<nat>)
      ensures r.Some? ==> r.value < |leafEntries| && leafEntries[r.value].key == key
      ensures r.None? && Sorted(Keys(leafEntries)) ==> forall i :: 0 <= i < |leafEntries| ==> leafEntries[i].key != key
    {
      var lo, hi := 0, |leafEntries|;
      ghost var ks := Keys(leafEntries);
      while lo < hi
        invariant 0 <= lo <= hi <= |leafEntries|
        invariant Sorted(ks) ==> forall i :: 0 <= i < lo ==> Lt(leafEntries[i].key, key)
        invariant Sorted(ks) ==> forall i :: hi <= i < |leafEntries| ==> Lt(key, leafEntries[i].key)
      {
        var mid := lo + (hi - lo) / 2;
        if leafEntries[mid].key == key {
          return Some(mid);
        }
        BesideMiddle(leafEntries, mid, key);
        if Lt(leafEntries[mid].key, key) {
          lo := mid + 1;
        } else {
          hi := mid;
        }
      }
      LtOrder();
      return None;
    }

    static lemma BesideMiddle(es: seq<LeafEntry>, mid: nat, key: Key)
      requires mid < |es| && es[mid].key != key
      ensures Sorted(Keys(es)) && Lt(es[mid].key, key) ==> forall i :: 0 <= i <= mid ==> Lt(es[i].key, key)
      ensures Sorted(Keys(es)) && !Lt(es[mid].key, key) ==> forall i :: mid <= i < |es| ==> Lt(key, es[i].key)
    {
      LtOrder();
      if Sorted(Keys(es)) {
        forall i | 0 <= i < mid ensures Lt(es[i].key, es[mid].key) { assert Lt(Keys(es)[i], Keys(es)[mid]); }
        forall i | mid < i < |es| ensures Lt(es[mid].key, es[i].key) { assert Lt(Keys(es)[mid], Keys(es)[i]); }
      }
    }

    method InsertLeaf(e: LeafEntry)
      requires isLeaf
      modifies this
      ensures View() == Leaf(old(rightSibling), old(leftSibling), InsertLeafEntry(old(leafEntries), e))
    {
      var pos := LowerBound(Keys(leafEntries), e.key);
      leafEntries := leafEntries[..pos] + [e] + leafEntries[pos..];
    }

    method InsertInternal(e: InternalEntry)
      requires !isLeaf
      modifies this
      ensures View() == Internal(old(rightSibling), old(leftSibling), InsertInternalEntry(old(internalEntries), e))
    {
      var pos := 0;
      if e.key != [] {
        var start := if internalEntries != [] && internalEntries[0].key == [] then 1 else 0;
        pos := start + LowerBound(SepKeys(internalEntries[start..]), e.key);
      }
      internalEntries := internalEntries[..pos] + [e] + internalEntries[pos..];
    }

    method SplitLeaf() returns (right: BTreeNode, median: Key)
      requires isLeaf && leafEntries != []
      modifies this
      ensures fresh(right) && right.View() == LeafRightHalf(old(View())) && View() == LeafLeftHalf(old(View()))
      ensures median == old(leafEntries)[|old(leafEntries)| / 2].key
    {
      var mid := |leafEntries| / 2;
      var rightEntries := leafEntries[mid..];
      leafEntries := leafEntries[..mid];
      median := rightEntries[0].key;
      right := new BTreeNode(true, rightSibling, 0, [], rightEntries);
    }

    method SplitInternal() returns (right: BTreeNode, promoted: Key, firstChild: nat)
      requires !isLeaf && internalEntries != []
      modifies this
      ensures fresh(right) && right.View() == InternalRightHalf(old(View())) && View() == InternalLeftHalf(old(View()))
      ensures var e := old(internalEntries)[|old(internalEntries)| / 2]; promoted == e.key && firstChild == e.child
    {
      var mid := |internalEntries| / 2;
      var rightEntries := internalEntries[mid..];
      internalEntries := internalEntries[..mid];
      promoted, firstChild := rightEntries[0].key, rightEntries[0].child;
      right := new BTreeNode(false, 0, 0, [InternalEntry([], firstChild)] + rightEntries[1..], []);
    }
  }
}
