/**
 Block headers and the bytes they are hashed as. The list that is encoded leaves out every field that is
 absent, so a header is not determined by its bytes alone, but by its bytes and which fields it has.
 */
module Headers {
  import opened ByteStrings
  import opened Options
  import opened States
  import Rlp

  type Hash = Bytes32

  /** `FixtureHeader`, with its fields in their order. The last seven need not be there. */
  datatype Header = Header(
    parentHash: Hash,
    ommersHash: Hash,
    feeRecipient: Address,
    stateRoot: Hash,
    transactionsTrie: Hash,
    receiptsRoot: Hash,
    logsBloom: Bytes,
    difficulty: nat,
    number: nat,
    gasLimit: nat,
    gasUsed: nat,
    timestamp: nat,
    extraData: Bytes,
    prevRandao: Hash,
    nonce: Bytes,
    baseFee: Option<nat>,
    withdrawalsRoot: Option<Hash>,
    blobGasUsed: Option<nat>,
    excessBlobGas: Option<nat>,
    beaconRoot: Option<Hash>,
    requestsHash: Option<Hash>,
    accessListHash: Option<Hash>
  )

  /** A number is encoded as its shortest big-endian form. */
  function Number(n: Option<nat>): Option<Bytes> {
    if n.None? then None else Some(ToBE(n.value))
  }

  /** All fields as byte strings. */
  function Fields(h: Header): (fields: seq<Option<Bytes>>)
    ensures |fields| == 22 && forall k :: 0 <= k < 15 ==> fields[k].Some?
  {
    [
      Some(h.parentHash), Some(h.ommersHash), Some(h.feeRecipient), Some(h.stateRoot), Some(h.transactionsTrie),
      Some(h.receiptsRoot), Some(h.logsBloom), Some(ToBE(h.difficulty)), Some(ToBE(h.number)), Some(ToBE(h.gasLimit)),
      Some(ToBE(h.gasUsed)), Some(ToBE(h.timestamp)), Some(h.extraData), Some(h.prevRandao), Some(h.nonce),
      Number(h.baseFee), h.withdrawalsRoot, Number(h.blobGasUsed), Number(h.excessBlobGas), h.beaconRoot,
      h.requestsHash, h.accessListHash
    ]
  }

  /** The fields that are there. */
  function Present(fields: seq<Option<Bytes>>): (items: seq<Rlp.Item>) {
    if fields == [] then []
    else (if fields[0].None? then [] else [Rlp.Str(fields[0].value)]) + Present(fields[1..])
  }

  /** `rlp_encode_list`. */
  method RlpEncodeList(h: Header) returns (items: seq<Rlp.Item>)
    ensures items == Present(Fields(h)) && ReadHeader(items, HasOf(h)) == h
  {
    FieldsAreRead(h);
    var fields := Fields(h);
    items := [];
    for k := 0 to |fields|
      invariant items + Present(fields[k..]) == Present(fields)
    {
      PresentStep(items, fields[k..]);
      assert fields[k..][1..] == fields[k + 1..];
      if fields[k].Some? {
        items := items + [Rlp.Str(fields[k].value)];
      }
    }
    assert fields[22..] == [];
  }

  lemma PresentStep(items: seq<Rlp.Item>, fields: seq<Option<Bytes>>)
    requires fields != []
    ensures items + Present(fields) ==
            (if fields[0].None? then items else items + [Rlp.Str(fields[0].value)]) + Present(fields[1..])
  {}

  /** The bytes a header is hashed as. */
  function HeaderBytes(h: Header): Bytes {
    Rlp.Encode(Rlp.List(Present(Fields(h))))
  }

  /** Which fields a list has. */
  function Shape(fields: seq<Option<Bytes>>): seq<bool> {
    if fields == [] then [] else [fields[0].Some?] + Shape(fields[1..])
  }

  /** Which fields a header has. */
  function ShapeOf(h: Header): seq<bool> {
    Shape(Fields(h))
  }

  ghost predicate HeaderEncodable(h: Header) {
    Rlp.Encodable(Rlp.List(Present(Fields(h))))
  }

  // ---- Reading a header ----

  /** Which of the last seven fields a header has. */
  datatype Has = Has(baseFee: bool, withdrawalsRoot: bool, blobGasUsed: bool, excessBlobGas: bool, beaconRoot: bool,
                     requestsHash: bool, accessListHash: bool)

  function HasOf(h: Header): Has {
    Has(h.baseFee.Some?, h.withdrawalsRoot.Some?, h.blobGasUsed.Some?, h.excessBlobGas.Some?, h.beaconRoot.Some?,
        h.requestsHash.Some?, h.accessListHash.Some?)
  }

  function HashIn(field: Option<Bytes>): Hash {
    if field.Some? && |field.value| == 32 then field.value else seq(32, _ => 0)
  }

  function AddressIn(field: Option<Bytes>): Address {
    if field.Some? && |field.value| == 20 then field.value else seq(20, _ => 0)
  }

  function BytesIn(field: Option<Bytes>): Bytes {
    if field.Some? then field.value else []
  }

  function NumberIn(field: Option<Bytes>): nat {
    FromBE(BytesIn(field))
  }

  function IfThere<T>(field: Option<Bytes>, value: T): Option<T> {
    if field.Some? then Some(value) else None
  }

  /** The items, each at the place of its field: the first fifteen fields are there, the others if `there` says so. */
  function Spread(items: seq<Rlp.Item>, there: seq<bool>): (fields: seq<Option<Bytes>>)
    ensures |fields| == |there|
    decreases |there|
  {
    if there == [] then []
    else if !there[0] then [None] + Spread(items, there[1..])
    else if items == [] || items[0].List? then [None] + Spread([], there[1..])
    else [Some(items[0].bytes)] + Spread(items[1..], there[1..])
  }

  function Places(has: Has): (there: seq<bool>)
    ensures |there| == 22
  {
    seq(15, _ => true) +
    [has.baseFee, has.withdrawalsRoot, has.blobGasUsed, has.excessBlobGas, has.beaconRoot, has.requestsHash,
     has.accessListHash]
  }

  /**
   A header read from its list: every field at the place the protocol gives it (Yellow Paper, section 4.4.3, and
   EIPs 1559, 4895, 4844, 4788, 7685 and 7928).
   */
  function ReadHeader(items: seq<Rlp.Item>, has: Has): Header {
    var f := Spread(items, Places(has));
    Header(
      parentHash := HashIn(f[0]),
      ommersHash := HashIn(f[1]),
      feeRecipient := AddressIn(f[2]),
      stateRoot := HashIn(f[3]),
      transactionsTrie := HashIn(f[4]),
      receiptsRoot := HashIn(f[5]),
      logsBloom := BytesIn(f[6]),
      difficulty := NumberIn(f[7]),
      number := NumberIn(f[8]),
      gasLimit := NumberIn(f[9]),
      gasUsed := NumberIn(f[10]),
      timestamp := NumberIn(f[11]),
      extraData := BytesIn(f[12]),
      prevRandao := HashIn(f[13]),
      nonce := BytesIn(f[14]),
      baseFee := IfThere(f[15], NumberIn(f[15])),
      withdrawalsRoot := IfThere(f[16], HashIn(f[16])),
      blobGasUsed := IfThere(f[17], NumberIn(f[17])),
      excessBlobGas := IfThere(f[18], NumberIn(f[18])),
      beaconRoot := IfThere(f[19], HashIn(f[19])),
      requestsHash := IfThere(f[20], HashIn(f[20])),
      accessListHash := IfThere(f[21], HashIn(f[21])))
  }

  lemma {:induction false} SpreadPresent(fields: seq<Option<Bytes>>)
    ensures Spread(Present(fields), Shape(fields)) == fields
    decreases |fields|
  {
    if fields != [] {
      SpreadPresent(fields[1..]);
      PresentFirst(fields);
      assert Shape(fields)[0] == fields[0].Some? && Shape(fields)[1..] == Shape(fields[1..]);
      assert fields[0].Some? ==> Present(fields)[1..] == Present(fields[1..]);
      assert fields == [fields[0]] + fields[1..];
    }
  }

  ghost predicate FixedFields(f: seq<Option<Bytes>>, h: Header) {
    FirstFields(f, h) && LaterFields(f, h)
  }

  ghost predicate FirstFields(f: seq<Option<Bytes>>, h: Header) {
    && |f| == 22
    && f[0] == Some(h.parentHash) && f[1] == Some(h.ommersHash) && f[2] == Some(h.feeRecipient)
    && f[3] == Some(h.stateRoot) && f[4] == Some(h.transactionsTrie) && f[5] == Some(h.receiptsRoot)
    && f[6] == Some(h.logsBloom)
  }

  ghost predicate LaterFields(f: seq<Option<Bytes>>, h: Header) {
    && |f| == 22
    && f[7] == Some(ToBE(h.difficulty)) && f[8] == Some(ToBE(h.number)) && f[9] == Some(ToBE(h.gasLimit))
    && f[10] == Some(ToBE(h.gasUsed)) && f[11] == Some(ToBE(h.timestamp)) && f[12] == Some(h.extraData)
    && f[13] == Some(h.prevRandao) && f[14] == Some(h.nonce)
  }

  ghost predicate OptionalFields(f: seq<Option<Bytes>>, h: Header) {
    && |f| == 22 && (forall k :: 0 <= k < 15 ==> f[k].Some?)
    && f[15] == Number(h.baseFee) && f[16] == h.withdrawalsRoot && f[17] == Number(h.blobGasUsed)
    && f[18] == Number(h.excessBlobGas) && f[19] == h.beaconRoot && f[20] == h.requestsHash
    && f[21] == h.accessListHash
  }

  lemma FirstFieldsAre(h: Header)
    ensures FirstFields(Fields(h), h)
  {}

  lemma LaterFieldsAre(h: Header)
    ensures LaterFields(Fields(h), h)
  {}

  lemma OptionalFieldsAre(h: Header)
    ensures OptionalFields(Fields(h), h)
  {}

  lemma {:induction false} ShapeAt(fields: seq<Option<Bytes>>, k: nat)
    requires k < |fields|
    ensures |Shape(fields)| == |fields| && Shape(fields)[k] == fields[k].Some?
    decreases |fields|
  {
    if |fields| > 1 {
      ShapeAt(fields[1..], if k > 0 then k - 1 else 0);
    }
  }

  lemma ShapeIsPlaces(f: seq<Option<Bytes>>, h: Header)
    requires OptionalFields(f, h)
    ensures Shape(f) == Places(HasOf(h))
  {
    ShapeAt(f, 0);
    forall k | 0 <= k < 22 ensures Shape(f)[k] == Places(HasOf(h))[k] {
      ShapeAt(f, k);
    }
  }

  lemma NumberIsRead(n: nat, field: Option<Bytes>)
    requires field == Some(ToBE(n))
    ensures NumberIn(field) == n
  {
    FromToBE(n);
  }

  lemma OptionIsRead(n: Option<nat>, field: Option<Bytes>)
    requires field == Number(n)
    ensures IfThere(field, NumberIn(field)) == n
  {
    if n.Some? {
      NumberIsRead(n.value, field);
    }
  }

  lemma FieldsReadBack(h: Header, f: seq<Option<Bytes>>, read: Header)
    requires FixedFields(f, h) && OptionalFields(f, h)
    requires Spread(Present(f), Places(HasOf(h))) == f && read == ReadHeader(Present(f), HasOf(h))
    ensures read == h
  {
    NumberIsRead(h.difficulty, f[7]);
    NumberIsRead(h.number, f[8]);
    NumberIsRead(h.gasLimit, f[9]);
    NumberIsRead(h.gasUsed, f[10]);
    NumberIsRead(h.timestamp, f[11]);
    OptionIsRead(h.baseFee, f[15]);
    OptionIsRead(h.blobGasUsed, f[17]);
    OptionIsRead(h.excessBlobGas, f[18]);
  }

  /** Every header is read back from the list of its fields. */
  lemma FieldsAreRead(h: Header)
    ensures ReadHeader(Present(Fields(h)), HasOf(h)) == h
  {
    var f := Fields(h);
    FirstFieldsAre(h);
    LaterFieldsAre(h);
    OptionalFieldsAre(h);
    ShapeIsPlaces(f, h);
    SpreadPresent(f);
    FieldsReadBack(h, f, ReadHeader(Present(f), HasOf(h)));
  }

  /** And from the bytes it is hashed as. */
  lemma BytesAreRead(h: Header)
    requires HeaderEncodable(h)
    ensures var item := Rlp.Decode(HeaderBytes(h));
            item.Some? && item.value.List? && ReadHeader(item.value.items, HasOf(h)) == h
  {
    Rlp.DecodeOfEncode(Rlp.List(Present(Fields(h))));
    FieldsAreRead(h);
  }

  // ---- When two headers are hashed as the same bytes ----

  lemma SameBytesSameItems(h: Header, g: Header)
    requires HeaderEncodable(h) && HeaderEncodable(g)
    ensures HeaderBytes(h) == HeaderBytes(g) <==> Present(Fields(h)) == Present(Fields(g))
  {
    if HeaderBytes(h) == HeaderBytes(g) {
      Rlp.EncodeInjective(Rlp.List(Present(Fields(h))), Rlp.List(Present(Fields(g))));
    }
  }

  /** A field with only fields that are there before it has its place in the list. */
  lemma {:induction false} PresentAt(fields: seq<Option<Bytes>>, k: nat)
    requires k < |fields| && forall i :: 0 <= i <= k ==> fields[i].Some?
    ensures k < |Present(fields)| && Present(fields)[k] == Rlp.Str(fields[k].value)
  {
    if k > 0 {
      PresentAt(fields[1..], k - 1);
    }
  }

  lemma PresentFirst(fields: seq<Option<Bytes>>)
    requires fields != []
    ensures Present(fields) ==
            (if fields[0].None? then Present(fields[1..]) else [Rlp.Str(fields[0].value)] + Present(fields[1..]))
  {}

  lemma ShapeFirst(f: seq<Option<Bytes>>, g: seq<Option<Bytes>>)
    requires Shape(f) == Shape(g) && f != []
    ensures g != [] && f[0].Some? == g[0].Some? && Shape(f[1..]) == Shape(g[1..])
  {
    assert g != [] && Shape(g) == [g[0].Some?] + Shape(g[1..]);
    assert Shape(f)[0] == f[0].Some? && Shape(g)[0] == g[0].Some?;
    assert Shape(f[1..]) == Shape(f)[1..] == Shape(g)[1..] == Shape(g[1..]);
  }

  lemma FirstOfSame(f: seq<Option<Bytes>>, g: seq<Option<Bytes>>)
    requires f != [] && g != [] && f[0].Some? == g[0].Some? && Present(f) == Present(g)
    ensures f[0] == g[0] && Present(f[1..]) == Present(g[1..])
  {
    PresentFirst(f);
    PresentFirst(g);
    if f[0].Some? {
      assert Present(f)[0] == Rlp.Str(f[0].value) && Present(g)[0] == Rlp.Str(g[0].value);
      assert Present(f[1..]) == Present(f)[1..] == Present(g)[1..] == Present(g[1..]);
    }
  }

  lemma {:induction false} SameShapeSameFields(f: seq<Option<Bytes>>, g: seq<Option<Bytes>>)
    requires Present(f) == Present(g) && Shape(f) == Shape(g)
    ensures f == g
    decreases |f|
  {
    if f != [] {
      ShapeFirst(f, g);
      FirstOfSame(f, g);
      SameShapeSameFields(f[1..], g[1..]);
      assert f == [f[0]] + f[1..] && g == [g[0]] + g[1..];
    }
  }

  lemma NumberInjective(m: Option<nat>, n: Option<nat>)
    requires Number(m) == Number(n)
    ensures m == n
  {
    if m.Some? {
      ToBEInjective(m.value, n.value);
    }
  }

  lemma FieldsInjective(h: Header, g: Header)
    requires Fields(h) == Fields(g)
    ensures h == g
  {
    var f, e := Fields(h), Fields(g);
    assert forall k :: 0 <= k < 22 ==> f[k] == e[k];
    assert f[7] == e[7] && f[8] == e[8] && f[9] == e[9] && f[10] == e[10] && f[11] == e[11];
    ToBEInjective(h.difficulty, g.difficulty);
    ToBEInjective(h.number, g.number);
    ToBEInjective(h.gasLimit, g.gasLimit);
    ToBEInjective(h.gasUsed, g.gasUsed);
    ToBEInjective(h.timestamp, g.timestamp);
    assert f[15] == e[15] && f[17] == e[17] && f[18] == e[18];
    NumberInjective(h.baseFee, g.baseFee);
    NumberInjective(h.blobGasUsed, g.blobGasUsed);
    NumberInjective(h.excessBlobGas, g.excessBlobGas);
    assert f[0] == e[0] && f[1] == e[1] && f[2] == e[2] && f[3] == e[3] && f[4] == e[4] && f[5] == e[5] && f[6] == e[6];
    assert f[12] == e[12] && f[13] == e[13] && f[14] == e[14];
    assert f[16] == e[16] && f[19] == e[19] && f[20] == e[20] && f[21] == e[21];
  }

  /** The bytes of a header and which fields it has are all of it. */
  lemma BytesAndShape(h: Header, g: Header)
    requires HeaderEncodable(h) && HeaderEncodable(g)
    ensures HeaderBytes(h) == HeaderBytes(g) && ShapeOf(h) == ShapeOf(g) <==> h == g
  {
    if HeaderBytes(h) == HeaderBytes(g) && ShapeOf(h) == ShapeOf(g) {
      SameBytesSameItems(h, g);
      SameShapeSameFields(Fields(h), Fields(g));
      FieldsInjective(h, g);
    }
  }

  /** The fields that every header has can be read from its bytes. */
  lemma SameBytesSameFixed(h: Header, g: Header, k: nat)
    requires HeaderEncodable(h) && HeaderEncodable(g) && HeaderBytes(h) == HeaderBytes(g) && k < 15
    ensures Fields(h)[k] == Fields(g)[k]
  {
    SameBytesSameItems(h, g);
    PresentAt(Fields(h), k);
    PresentAt(Fields(g), k);
  }

  /** In particular the links of the chain. */
  lemma SameBytesSameLinks(h: Header, g: Header)
    requires HeaderEncodable(h) && HeaderEncodable(g) && HeaderBytes(h) == HeaderBytes(g)
    ensures h.parentHash == g.parentHash && h.number == g.number && h.timestamp == g.timestamp
  {
    SameBytesSameFixed(h, g, 0);
    SameBytesSameFixed(h, g, 8);
    SameBytesSameFixed(h, g, 11);
    ToBEInjective(h.number, g.number);
    ToBEInjective(h.timestamp, g.timestamp);
  }

  /** Without roots and blob gas, nothing tells a base fee from an excess of blob gas with the same value. */
  lemma BaseFeeOrExcess(h: Header, n: nat)
    requires h.baseFee == None && h.withdrawalsRoot == None && h.blobGasUsed == None && h.excessBlobGas == None
    ensures HeaderBytes(h.(baseFee := Some(n))) == HeaderBytes(h.(excessBlobGas := Some(n)))
    ensures h.(baseFee := Some(n)) != h.(excessBlobGas := Some(n))
  {
    var fields, x := Fields(h), Some(ToBE(n));
    assert Fields(h.(baseFee := Some(n))) == fields[..15] + [x, None, None, None] + fields[19..];
    assert Fields(h.(excessBlobGas := Some(n))) == fields[..15] + [None, None, None, x] + fields[19..];
    FourInTheMiddle(fields[..15], x, fields[19..]);
  }

  lemma FourInTheMiddle(front: seq<Option<Bytes>>, x: Option<Bytes>, behind: seq<Option<Bytes>>)
    requires x.Some?
    ensures Present(front + [x, None, None, None] + behind) == Present(front + [None, None, None, x] + behind)
  {
    PresentOfThree(front, [x, None, None, None], behind);
    PresentOfThree(front, [None, None, None, x], behind);
    OneOfFour(x);
  }

  lemma OneOfFour(x: Option<Bytes>)
    requires x.Some?
    ensures Present([x, None, None, None]) == Present([None, None, None, x])
  {
    var n: Option<Bytes> := None;
    PresentFirst([x, n, n, n]);
    PresentFirst([n, n, n]);
    PresentFirst([n, n]);
    PresentFirst([n]);
    PresentFirst([n, n, n, x]);
    PresentFirst([n, n, x]);
    PresentFirst([n, x]);
    PresentFirst([x]);
  }

  lemma PresentOfThree(a: seq<Option<Bytes>>, b: seq<Option<Bytes>>, c: seq<Option<Bytes>>)
    ensures Present(a + b + c) == Present(a) + Present(b) + Present(c)
  {
    PresentOfTwo(a + b, c);
    PresentOfTwo(a, b);
  }

  lemma {:induction false} PresentOfTwo(a: seq<Option<Bytes>>, b: seq<Option<Bytes>>)
    ensures Present(a + b) == Present(a) + Present(b)
  {
    if a == [] {
      assert a + b == b;
    } else {
      PresentOfTwo(a[1..], b);
      assert (a + b)[0] == a[0] && (a + b)[1..] == a[1..] + b;
      PresentFirst(a + b);
      PresentFirst(a);
    }
  }

  // ---- Headers of ordinary size can be encoded ----

  predicate SmallNumber(n: Option<nat>) {
    n.Some? ==> n.value < TWO_TO_THE_256
  }

  /** Numbers of 256 bits, and byte strings that are not huge. */
  predicate Small(h: Header) {
    && |h.logsBloom| < 0x1_0000_0000 && |h.extraData| < 0x1_0000_0000 && |h.nonce| < 0x1_0000_0000
    && h.difficulty < TWO_TO_THE_256 && h.number < TWO_TO_THE_256 && h.gasLimit < TWO_TO_THE_256
    && h.gasUsed < TWO_TO_THE_256 && h.timestamp < TWO_TO_THE_256
    && SmallNumber(h.baseFee) && SmallNumber(h.blobGasUsed) && SmallNumber(h.excessBlobGas)
  }

  ghost predicate ShortFields(fields: seq<Option<Bytes>>) {
    forall k :: 0 <= k < |fields| && fields[k].Some? ==> |fields[k].value| < 0x1_0000_0000
  }

  lemma ShortNumber(n: nat)
    requires n < TWO_TO_THE_256
    ensures |ToBE(n)| <= 32
  {
    Pow256Of32();
    ToBELength(n, 32);
  }

  lemma ShortOption(n: Option<nat>)
    requires SmallNumber(n)
    ensures n.Some? ==> |Number(n).value| <= 32
  {
    if n.Some? {
      ShortNumber(n.value);
    }
  }

  lemma SmallIsShort(h: Header)
    requires Small(h)
    ensures ShortFields(Fields(h))
  {
    ShortNumber(h.difficulty);
    ShortNumber(h.number);
    ShortNumber(h.gasLimit);
    ShortNumber(h.gasUsed);
    ShortNumber(h.timestamp);
    ShortOption(h.baseFee);
    ShortOption(h.blobGasUsed);
    ShortOption(h.excessBlobGas);
  }

  lemma {:induction false} ShortIsEncodable(fields: seq<Option<Bytes>>)
    requires ShortFields(fields)
    ensures Rlp.AllEncodable(Present(fields))
    ensures |Rlp.EncodeAll(Present(fields))| <= |fields| * 0x2_0000_0000
  {
    if fields != [] {
      ShortIsEncodable(fields[1..]);
      PresentFirst(fields);
      if fields[0].Some? {
        var item := Rlp.Str(fields[0].value);
        Rlp.StrLength(fields[0].value);
        assert ([item] + Present(fields[1..]))[1..] == Present(fields[1..]);
      }
    }
  }

  lemma SmallIsEncodable(h: Header)
    requires Small(h)
    ensures HeaderEncodable(h)
  {
    SmallIsShort(h);
    ShortIsEncodable(Fields(h));
  }
}
