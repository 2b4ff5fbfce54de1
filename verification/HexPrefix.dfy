/**
 Hex-prefix encoding (Yellow Paper, Appendix C): `nibble_list_to_compact` and
 `bytes_to_nibble_list`. Both are loops filling a buffer; each is proved against a function
 that has an inverse, so no two (nibbles, flag) pairs share a compact form.
 */
module HexPrefix {
  import opened ByteStrings
  import opened Options

  function Join(hi: Nibble, lo: Nibble): (b: Byte)
    ensures b / 16 == hi && b % 16 == lo
  {
    var h: int := hi;
    16 * h + lo
  }

  /** Two nibbles to a byte. */
  function Pack(x: Nibbles): (r: Bytes)
    requires |x| % 2 == 0
  {
    if x == [] then [] else [Join(x[0], x[1])] + Pack(x[2..])
  }

  function Unpack(b: Bytes): (r: Nibbles)
    ensures |r| == 2 * |b|
  {
    if b == [] then [] else [b[0] / 16, b[0] % 16] + Unpack(b[1..])
  }

  function Flag(x: Nibbles, isLeaf: bool): (f: nat)
    ensures f < 4 && f % 2 == |x| % 2 && (f >= 2 <==> isLeaf)
  {
    (if isLeaf then 2 else 0) + |x| % 2
  }

  /** The compact form of a nibble list: flag nibble first, and a zero nibble when the length is even. */
  function Compact(x: Nibbles, isLeaf: bool): (r: Bytes)
    ensures |r| == |x| / 2 + 1
  {
    var r := if |x| % 2 == 0 then [16 * Flag(x, isLeaf)] + Pack(x) else [16 * Flag(x, isLeaf) + x[0]] + Pack(x[1..]);
    PackLength(if |x| % 2 == 0 then x else x[1..]);
    r
  }

  /** Reads a compact form back: a flag of 0 to 3, and for an even length a zero nibble behind it. */
  function Expand(r: Bytes): Option<(Nibbles, bool)> {
    if r == [] || r[0] >= 0x40 then None
    else if (r[0] / 16) % 2 == 1 then Some(([r[0] % 16] + Unpack(r[1..]), r[0] >= 0x20))
    else if r[0] % 16 == 0 then Some((Unpack(r[1..]), r[0] >= 0x20))
    else None
  }

  lemma {:induction false} PackLength(x: Nibbles)
    requires |x| % 2 == 0
    ensures |Pack(x)| == |x| / 2
  {
    if x != [] {
      PackLength(x[2..]);
    }
  }

  lemma {:induction false} UnpackOfPack(x: Nibbles)
    requires |x| % 2 == 0
    ensures Unpack(Pack(x)) == x
  {
    if x != [] {
      UnpackOfPack(x[2..]);
      assert Pack(x)[1..] == Pack(x[2..]);
      assert x == [x[0], x[1]] + x[2..];
    }
  }

  lemma {:induction false} PackOfUnpack(b: Bytes)
    ensures Pack(Unpack(b)) == b
  {
    if b != [] {
      PackOfUnpack(b[1..]);
      assert Unpack(b)[2..] == Unpack(b[1..]);
      assert b == [b[0]] + b[1..];
    }
  }

  /** Nothing of the nibbles, their parity or the flag is lost. */
  lemma ExpandOfCompact(x: Nibbles, isLeaf: bool)
    ensures Expand(Compact(x, isLeaf)) == Some((x, isLeaf))
  {
    var r := Compact(x, isLeaf);
    if |x| % 2 == 0 {
      assert r[1..] == Pack(x);
      UnpackOfPack(x);
    } else {
      assert r[1..] == Pack(x[1..]);
      UnpackOfPack(x[1..]);
      assert x == [x[0]] + x[1..];
    }
  }

  lemma CompactInjective(x: Nibbles, y: Nibbles, f: bool, g: bool)
    requires Compact(x, f) == Compact(y, g)
    ensures x == y && f == g
  {
    ExpandOfCompact(x, f);
    ExpandOfCompact(y, g);
  }

  lemma UnpackInjective(a: Bytes, b: Bytes)
    requires Unpack(a) == Unpack(b)
    ensures a == b
  {
    PackOfUnpack(a);
    PackOfUnpack(b);
  }

  lemma {:induction false} PackSnoc(x: Nibbles, hi: Nibble, lo: Nibble)
    requires |x| % 2 == 0
    ensures Pack(x + [hi, lo]) == Pack(x) + [Join(hi, lo)]
  {
    if x != [] {
      PackSnoc(x[2..], hi, lo);
      assert (x + [hi, lo])[2..] == x[2..] + [hi, lo];
    } else {
      assert x + [hi, lo] == [hi, lo];
      assert [hi, lo][2..] == [];
    }
  }

  lemma {:induction false} UnpackSnoc(b: Bytes, c: Byte)
    ensures Unpack(b + [c]) == Unpack(b) + [c / 16, c % 16]
  {
    if b != [] {
      UnpackSnoc(b[1..], c);
      assert (b + [c])[1..] == b[1..] + [c];
    } else {
      assert b + [c] == [c];
    }
  }

  /** One iteration of the packing loop. */
  lemma PackStep(first: Bytes, x: Nibbles, from: nat, i: nat)
    requires from <= i && i + 1 < |x| && (i - from) % 2 == 0
    ensures first + Pack(x[from..i + 2]) == first + Pack(x[from..i]) + [Join(x[i], x[i + 1])]
  {
    PackSnoc(x[from..i], x[i], x[i + 1]);
    assert x[from..i + 2] == x[from..i] + [x[i], x[i + 1]];
  }

  /** The loop over the nibbles from `from` on, two at a time. */
  method PackFrom(x: Nibbles, from: nat, first: Byte) returns (compact: Bytes)
    requires from <= |x| && (|x| - from) % 2 == 0
    ensures compact == [first] + Pack(x[from..])
  {
    compact := [first];
    var i := from;
    while i < |x|
      invariant from <= i <= |x| && (i - from) % 2 == 0
      invariant compact == [first] + Pack(x[from..i])
    {
      PackStep([first], x, from, i);
      compact := compact + [Join(x[i], x[i + 1])];
      i := i + 2;
    }
    assert x[from..i] == x[from..];
  }

  method NibbleListToCompact(x: Nibbles, isLeaf: bool) returns (compact: Bytes)
    ensures compact == Compact(x, isLeaf)
  {
    var two: int := if isLeaf then 2 else 0;
    if |x| % 2 == 0 {
      compact := PackFrom(x, 0, 16 * two);
      assert x[0..] == x;
    } else {
      var nibble: int := x[0];
      compact := PackFrom(x, 1, 16 * (two + 1) + nibble);
    }
  }

  /** Each byte gives its high nibble and then its low one. */
  lemma {:induction false} UnpackAt(b: Bytes, i: nat)
    requires i < |b|
    ensures Unpack(b)[2 * i] == b[i] / 16 && Unpack(b)[2 * i + 1] == b[i] % 16
  {
    if i > 0 {
      UnpackAt(b[1..], i - 1);
    }
  }

  method BytesToNibbleList(bytes: Bytes) returns (nibbles: Nibbles)
    ensures nibbles == Unpack(bytes)
    ensures |nibbles| == 2 * |bytes|
    ensures forall i :: 0 <= i < |bytes| ==> nibbles[2 * i] == bytes[i] / 16 && nibbles[2 * i + 1] == bytes[i] % 16
  {
    var buffer := new Nibble[2 * |bytes|];
    for i := 0 to |bytes|
      invariant buffer[..2 * i] == Unpack(bytes[..i])
    {
      UnpackSnoc(bytes[..i], bytes[i]);
      assert bytes[..i + 1] == bytes[..i] + [bytes[i]];
      buffer[2 * i] := bytes[i] / 16;
      buffer[2 * i + 1] := bytes[i] % 16;
      assert buffer[..2 * (i + 1)] == buffer[..2 * i] + [bytes[i] / 16, bytes[i] % 16];
    }
    assert bytes[..|bytes|] == bytes;
    assert buffer[..2 * |bytes|] == buffer[..];
    nibbles := buffer[..];
    forall i | 0 <= i < |bytes| ensures nibbles[2 * i] == bytes[i] / 16 && nibbles[2 * i + 1] == bytes[i] % 16 {
      UnpackAt(bytes, i);
    }
  }
}
