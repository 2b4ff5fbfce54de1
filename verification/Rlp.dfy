/**
 Recursive length prefix encoding (Yellow Paper, Appendix B), as `rlp.encode` computes it:
 what every trie node and account is hashed as. The main results are that a decoder that goes by
 the first byte reads every item back, and that encodings of distinct items differ, even when more
 bytes follow.
 */
module Rlp {
  import opened ByteStrings
  import opened Options

  datatype Item = Str(bytes: Bytes) | List(items: seq<Item>)

  function Encode(i: Item): (r: Bytes)
    ensures r != []
    decreases i, 1
  {
    match i
    case Str(b) => if |b| == 1 && b[0] < 0x80 then b else Header(0x80, |b|) + b
    case List(items) => var payload := EncodeAll(items); Header(0xC0, |payload|) + payload
  }

  function EncodeAll(items: seq<Item>): Bytes
    decreases items, 0
  {
    if items == [] then [] else Encode(items[0]) + EncodeAll(items[1..])
  }

  /** Length prefix: `base` is 0x80 for strings and 0xC0 for lists. */
  function Header(base: Byte, n: nat): (r: Bytes)
    requires base == 0x80 || base == 0xC0
    ensures r != []
  {
    if n < 56 then [base + n] else [(base + 55 + |ToBE(n)|) % 256] + ToBE(n)
  }

  /** The Yellow Paper defines the encoding for payloads below 2^64 bytes only. */
  ghost predicate Encodable(i: Item)
    decreases i, 1
  {
    match i
    case Str(b) => |b| < 0x1_0000_0000_0000_0000
    case List(items) => |EncodeAll(items)| < 0x1_0000_0000_0000_0000 && AllEncodable(items)
  }

  ghost predicate AllEncodable(items: seq<Item>)
    decreases items, 0
  {
    forall k :: 0 <= k < |items| ==> Encodable(items[k])
  }

  lemma HeaderLength(n: nat)
    requires n < 0x1_0000_0000_0000_0000
    ensures |ToBE(n)| <= 8
  {
    assert Pow256(8) == 0x1_0000_0000_0000_0000;
    ToBELength(n, 8);
  }

  /** A length prefix says where it ends and how long the payload is. */
  lemma HeaderInjective(base: Byte, m: nat, n: nat, s: Bytes, t: Bytes)
    requires base == 0x80 || base == 0xC0
    requires m < 0x1_0000_0000_0000_0000 && n < 0x1_0000_0000_0000_0000
    requires Header(base, m) + s == Header(base, n) + t
    ensures m == n && s == t
  {
    HeaderLength(m);
    HeaderLength(n);
    var h, g := Header(base, m), Header(base, n);
    assert h[0] == (h + s)[0] == (g + t)[0] == g[0];
    assert |h| == |g|;
    assert h == (h + s)[..|h|] == (g + t)[..|g|] == g;
    assert s == (h + s)[|h|..] == (g + t)[|g|..] == t;
    if m >= 56 {
      assert ToBE(m) == h[1..] == g[1..] == ToBE(n);
      ToBEInjective(m, n);
    }
  }

  /** Which of the two constructors made an item shows in the first byte. */
  lemma FirstByte(i: Item)
    requires Encodable(i)
    ensures Encode(i)[0] >= 0xC0 <==> i.List?
    ensures i.Str? ==> (Encode(i)[0] < 0x80 <==> |i.bytes| == 1 && i.bytes[0] < 0x80)
  {
    match i
    case Str(b) => HeaderLength(|b|);
    case List(items) => HeaderLength(|EncodeAll(items)|);
  }

  lemma StrPrefixFree(x: Bytes, y: Bytes, s: Bytes, t: Bytes)
    requires Encodable(Str(x)) && Encodable(Str(y))
    requires Encode(Str(x)) + s == Encode(Str(y)) + t
    ensures x == y && s == t
  {
    var a, b := Str(x), Str(y);
    FirstByte(a);
    FirstByte(b);
    assert Encode(a)[0] == (Encode(a) + s)[0] == (Encode(b) + t)[0] == Encode(b)[0];
    if Encode(a)[0] < 0x80 {
      SplitAt(x, y, s, t);
    } else {
      assert Encode(a) + s == Header(0x80, |x|) + (x + s);
      assert Encode(b) + t == Header(0x80, |y|) + (y + t);
      HeaderInjective(0x80, |x|, |y|, x + s, y + t);
      SplitAt(x, y, s, t);
    }
  }

  lemma ListPrefixFree(xs: seq<Item>, ys: seq<Item>, s: Bytes, t: Bytes)
    requires Encodable(List(xs)) && Encodable(List(ys))
    requires Encode(List(xs)) + s == Encode(List(ys)) + t
    ensures EncodeAll(xs) == EncodeAll(ys) && s == t
  {
    var p, q := EncodeAll(xs), EncodeAll(ys);
    assert Encode(List(xs)) + s == Header(0xC0, |p|) + (p + s);
    assert Encode(List(ys)) + t == Header(0xC0, |q|) + (q + t);
    HeaderInjective(0xC0, |p|, |q|, p + s, q + t);
    SplitAt(p, q, s, t);
  }

  /** No encoding is a proper prefix of another, and distinct items have distinct encodings. */
  lemma {:induction false} EncodePrefixFree(a: Item, b: Item, s: Bytes, t: Bytes)
    requires Encodable(a) && Encodable(b)
    requires Encode(a) + s == Encode(b) + t
    ensures a == b && s == t
    decreases a, 1
  {
    FirstByte(a);
    FirstByte(b);
    assert Encode(a)[0] == (Encode(a) + s)[0] == (Encode(b) + t)[0] == Encode(b)[0];
    match a
    case Str(x) => StrPrefixFree(x, b.bytes, s, t);
    case List(xs) =>
      ListPrefixFree(xs, b.items, s, t);
      EncodeAllInjective(xs, b.items);
  }

  lemma SplitAt(x: Bytes, y: Bytes, s: Bytes, t: Bytes)
    requires |x| == |y| && x + s == y + t
    ensures x == y && s == t
  {
    assert x == (x + s)[..|x|] == (y + t)[..|y|] == y;
    assert s == (x + s)[|x|..] == (y + t)[|y|..] == t;
  }

  lemma {:induction false} EncodeAllInjective(xs: seq<Item>, ys: seq<Item>)
    requires AllEncodable(xs) && AllEncodable(ys)
    requires EncodeAll(xs) == EncodeAll(ys)
    ensures xs == ys
    decreases xs, 0
  {
    if xs != [] && ys != [] {
      EncodePrefixFree(xs[0], ys[0], EncodeAll(xs[1..]), EncodeAll(ys[1..]));
      EncodeAllInjective(xs[1..], ys[1..]);
      assert xs == [xs[0]] + xs[1..] && ys == [ys[0]] + ys[1..];
    }
  }

  lemma EncodeInjective(a: Item, b: Item)
    requires Encodable(a) && Encodable(b)
    requires Encode(a) == Encode(b)
    ensures a == b
  {
    assert Encode(a) + [] == Encode(b) + [];
    EncodePrefixFree(a, b, [], []);
  }

  lemma StrLength(b: Bytes)
    requires |b| < 0x1_0000_0000_0000_0000
    ensures |Encode(Str(b))| <= |b| + 9
  {
    HeaderLength(|b|);
  }

  /** A 32-byte hash takes exactly 33 bytes. */
  lemma HashLength(h: Bytes32)
    ensures |Encode(Str(h))| == 33
  {}

  /** A list of references, each at most as long as an encoded hash. */
  lemma {:induction false} EncodeAllLength(items: seq<Item>)
    requires forall k :: 0 <= k < |items| ==> |Encode(items[k])| <= 33
    ensures |EncodeAll(items)| <= 33 * |items|
  {
    if items != [] {
      EncodeAllLength(items[1..]);
    }
  }

  lemma {:induction false} EncodeAllAppend(items: seq<Item>, last: Item)
    ensures EncodeAll(items + [last]) == EncodeAll(items) + Encode(last)
  {
    if items == [] {
      assert [last][1..] == [];
    } else {
      assert (items + [last])[1..] == items[1..] + [last];
      EncodeAllAppend(items[1..], last);
    }
  }

  lemma EncodeAllOfTwo(a: Item, b: Item)
    ensures EncodeAll([a, b]) == Encode(a) + Encode(b)
  {
    EncodeAllAppend([a], b);
    assert [a] + [b] == [a, b];
    assert EncodeAll([a]) == Encode(a) + EncodeAll([]);
  }

  // ---- Decoding ----

  /** The front of a byte string: whether it is a list, its payload, and what follows. */
  datatype Frame = Frame(list: bool, payload: Bytes, rest: Bytes)

  /** `n` bytes from `start` on are the payload. */
  function FrameAt(list: bool, s: Bytes, start: nat, n: nat): Option<Frame> {
    if start + n <= |s| then Some(Frame(list, s[start..start + n], s[start + n..])) else None
  }

  /** What the first byte says of the item at the front. */
  function ReadFrame(s: Bytes): (r: Option<Frame>)
    ensures r.Some? ==> |r.value.rest| < |s| && (r.value.list ==> |r.value.payload| < |s|)
  {
    if s == [] then None
    else if s[0] < 0x80 then FrameAt(false, s, 0, 1)
    else if s[0] <= 0xB7 then FrameAt(false, s, 1, s[0] - 0x80)
    else if s[0] <= 0xBF then ReadLongFrame(false, s, s[0] - 0xB7)
    else if s[0] <= 0xF7 then FrameAt(true, s, 1, s[0] - 0xC0)
    else ReadLongFrame(true, s, s[0] - 0xF7)
  }

  /** The length takes `w` bytes of its own. */
  function ReadLongFrame(list: bool, s: Bytes, w: nat): Option<Frame> {
    if 1 + w <= |s| then FrameAt(list, s, 1 + w, FromBE(s[1..1 + w])) else None
  }

  /** The item at the front of a byte string, and what follows it. */
  function DecodeFirst(s: Bytes): (r: Option<(Item, Bytes)>)
    ensures r.Some? ==> |r.value.1| < |s|
    decreases |s|, 1
  {
    var frame := ReadFrame(s);
    if frame.None? then None
    else if !frame.value.list then Some((Str(frame.value.payload), frame.value.rest))
    else
      var items := DecodeAll(frame.value.payload);
      if items.None? then None else Some((List(items.value), frame.value.rest))
  }

  /** All items of a byte string. */
  function DecodeAll(s: Bytes): Option<seq<Item>>
    decreases |s|, 2
  {
    if s == [] then Some([])
    else
      var first := DecodeFirst(s);
      if first.None? then None
      else
        var rest := DecodeAll(first.value.1);
        if rest.None? then None else Some([first.value.0] + rest.value)
  }

  /** The one item that a byte string encodes. */
  function Decode(s: Bytes): Option<Item> {
    var r := DecodeFirst(s);
    if r.Some? && r.value.1 == [] then Some(r.value.0) else None
  }

  lemma FrameAtIs(list: bool, h: Bytes, payload: Bytes, tail: Bytes)
    ensures FrameAt(list, h + payload + tail, |h|, |payload|) == Some(Frame(list, payload, tail))
  {
    var s := h + payload + tail;
    assert s[|h|..|h| + |payload|] == payload && s[|h| + |payload|..] == tail;
  }

  /** A payload of up to 55 bytes. */
  lemma FrameOfShort(list: bool, first: Byte, payload: Bytes, tail: Bytes)
    requires |payload| < 56 && first == (if list then 0xC0 else 0x80) + |payload|
    ensures ReadFrame([first] + payload + tail) == Some(Frame(list, payload, tail))
  {
    FrameAtIs(list, [first], payload, tail);
    assert ([first] + payload + tail)[0] == first;
  }

  lemma FrameOfLong(list: bool, first: Byte, length: Bytes, payload: Bytes, tail: Bytes)
    requires 1 <= |length| <= 8 && FromBE(length) == |payload| && first == (if list then 0xF7 else 0xB7) + |length|
    ensures ReadFrame([first] + length + payload + tail) == Some(Frame(list, payload, tail))
  {
    var s := [first] + length + payload + tail;
    FrameAtIs(list, [first] + length, payload, tail);
    assert s[0] == first && s[1..1 + |length|] == length;
    assert ReadFrame(s) == ReadLongFrame(list, s, |length|);
  }

  lemma LongHeader(base: Byte, n: nat) returns (first: Byte, length: Bytes)
    requires (base == 0x80 || base == 0xC0) && 56 <= n < 0x1_0000_0000_0000_0000
    ensures 1 <= |length| <= 8 && FromBE(length) == n
    ensures first == base + 55 + |length| && Header(base, n) == [first] + length
  {
    HeaderLength(n);
    FromToBE(n);
    length := ToBE(n);
    first := base + 55 + |length|;
  }

  lemma FrameOfHeader(base: Byte, payload: Bytes, tail: Bytes)
    requires (base == 0x80 || base == 0xC0) && |payload| < 0x1_0000_0000_0000_0000
    ensures ReadFrame(Header(base, |payload|) + payload + tail) == Some(Frame(base == 0xC0, payload, tail))
  {
    if |payload| < 56 {
      FrameOfShort(base == 0xC0, base + |payload|, payload, tail);
    } else {
      var first, length := LongHeader(base, |payload|);
      FrameOfLong(base == 0xC0, first, length, payload, tail);
    }
  }

  lemma FrameOfByte(b: Byte, tail: Bytes)
    requires b < 0x80
    ensures ReadFrame([b] + tail) == Some(Frame(false, [b], tail))
  {
    assert ([b] + tail)[0..1] == [b] && ([b] + tail)[1..] == tail;
  }

  lemma FrameOfStr(b: Bytes, tail: Bytes)
    requires Encodable(Str(b))
    ensures ReadFrame(Encode(Str(b)) + tail) == Some(Frame(false, b, tail))
  {
    if |b| == 1 && b[0] < 0x80 {
      FrameOfByte(b[0], tail);
      assert b == [b[0]];
    } else {
      FrameOfHeader(0x80, b, tail);
    }
  }

  /** Every item is read back from its encoding, whatever follows it. */
  lemma {:induction false} DecodeEncoded(i: Item, tail: Bytes)
    requires Encodable(i)
    ensures DecodeFirst(Encode(i) + tail) == Some((i, tail))
    decreases i, 1
  {
    match i
    case Str(b) => FrameOfStr(b, tail);
    case List(items) =>
      FrameOfHeader(0xC0, EncodeAll(items), tail);
      DecodeAllEncoded(items);
  }

  lemma DecodeOneMore(s: Bytes, first: Item, rest: Bytes, items: seq<Item>)
    requires s != [] && DecodeFirst(s) == Some((first, rest)) && DecodeAll(rest) == Some(items)
    ensures DecodeAll(s) == Some([first] + items)
  {}

  lemma FirstEncoded(items: seq<Item>) returns (first: Item, rest: seq<Item>)
    requires items != [] && AllEncodable(items)
    ensures items == [first] + rest && first == items[0] && rest == items[1..]
    ensures Encodable(first) && AllEncodable(rest) && EncodeAll(items) == Encode(first) + EncodeAll(rest)
  {
    first, rest := items[0], items[1..];
    forall k | 0 <= k < |rest| ensures Encodable(rest[k]) {
      assert rest[k] == items[k + 1];
    }
  }

  lemma {:induction false} DecodeAllEncoded(items: seq<Item>)
    requires AllEncodable(items)
    ensures DecodeAll(EncodeAll(items)) == Some(items)
    decreases items, 0
  {
    if items != [] {
      var first, rest := FirstEncoded(items);
      var tail := EncodeAll(rest);
      DecodeEncoded(first, tail);
      DecodeAllEncoded(rest);
      DecodeOneMore(Encode(first) + tail, first, tail, rest);
    }
  }

  lemma DecodeOfEncode(i: Item)
    requires Encodable(i)
    ensures Decode(Encode(i)) == Some(i)
  {
    DecodeEncoded(i, []);
    assert Encode(i) + [] == Encode(i);
  }
}
