/**
 What the last block hash says of the chain: it commits to all accepted headers, as long as each of them is
 a child of the one before. That is so exactly if their numbers do not fall.
 */
module ChainHeads {
  import opened ByteStrings
  import opened Options
  import opened States
  import opened Headers
  import opened Environments
  import opened Chains
  import opened ChainLinks

  predicate AllKeepParent(blocks: seq<Block>) {
    forall k :: 0 <= k < |blocks| ==> KeepsParent(blocks[k])
  }

  /** Every accepted header is a child of the one accepted before it. */
  predicate Follows(w: World, history: seq<Header>) {
    forall i :: 0 < i < |history| ==> history[i].parentHash == w.hash(history[i - 1])
  }

  predicate NeverFalls(history: seq<Header>) {
    forall i, j :: 0 <= i < j < |history| ==> history[i].number <= history[j].number
  }

  /** Each header of the history but the genesis is that of an accepted block. */
  lemma {:induction false} AcceptedAt(genesis: Header, built: seq<BuiltBlock>, i: nat) returns (k: nat)
    requires 0 < i < |History(genesis, built)|
    ensures k < |built| && built[k].header == History(genesis, built)[i]
    ensures History(genesis, built[..k]) == History(genesis, built)[..i]
    decreases |built|
  {
    var n := |built| - 1;
    var rest := History(genesis, built[..n]);
    if i < |rest| {
      k := AcceptedAt(genesis, built[..n], i);
      assert built[..n][..k] == built[..k];
      assert rest[..i] == History(genesis, built)[..i];
    } else {
      k := n;
      assert History(genesis, built)[..i] == rest;
    }
  }

  /** Each accepted header is a child of the one before it exactly if no number is lower than an earlier one. */
  lemma FollowsIffNeverFalls(w: World, pre: Alloc, genesis: Header, blocks: seq<Block>, end: Chain)
    requires Produces(w, pre, genesis, blocks, end) && AllKeepParent(blocks)
    requires NumbersTold(w, History(genesis, end.built))
    ensures var history := History(genesis, end.built);
            Follows(w, history) <==> NeverFalls(history[..|history| - 1])
  {
    var history := AllChildren(w, pre, genesis, blocks, end);
    HighestIffNeverFalls(w, history);
  }

  ghost predicate ChildrenIfHighest(w: World, history: seq<Header>) {
    forall i :: 0 < i < |history| ==> ChildIfHighest(w, history, i)
  }

  lemma AllChildren(w: World, pre: Alloc, genesis: Header, blocks: seq<Block>, end: Chain)
    returns (history: seq<Header>)
    requires Produces(w, pre, genesis, blocks, end) && AllKeepParent(blocks)
    requires NumbersTold(w, History(genesis, end.built))
    ensures history == History(genesis, end.built) && ChildrenIfHighest(w, history)
  {
    history := History(genesis, end.built);
    forall i | 0 < i < |history| ensures ChildIfHighest(w, history, i) {
      ChildIff(w, pre, genesis, blocks, end, i);
    }
  }

  lemma HighestIffNeverFalls(w: World, history: seq<Header>)
    requires history != []
    requires ChildrenIfHighest(w, history)
    ensures Follows(w, history) <==> NeverFalls(history[..|history| - 1])
  {
    var n := |history| - 1;
    if Follows(w, history) {
      forall a, b | 0 <= a < b < n ensures history[..n][a].number <= history[..n][b].number {
        var i := b + 1;
        assert ChildIfHighest(w, history, i) && history[i].parentHash == w.hash(history[i - 1]);
        assert LastIsHighest(history[..i]);
        assert history[..i][a] == history[a] && Last(history[..i]) == history[b];
      }
    }
    if NeverFalls(history[..n]) {
      forall i | 0 < i < |history| ensures history[i].parentHash == w.hash(history[i - 1]) {
        assert ChildIfHighest(w, history, i);
        HighestOfPrefix(history, n, i);
      }
    }
  }

  lemma HighestOfPrefix(history: seq<Header>, n: nat, i: nat)
    requires 0 < i <= n <= |history| && NeverFalls(history[..n])
    ensures LastIsHighest(history[..i])
  {
    forall a | 0 <= a < i ensures history[..i][a].number <= Last(history[..i]).number {
      assert history[..i][a] == history[..n][a] && Last(history[..i]) == history[..n][i - 1];
    }
  }

  ghost predicate ChildIfHighest(w: World, history: seq<Header>, i: nat)
    requires 0 < i < |history|
  {
    history[i].parentHash == w.hash(history[i - 1]) <==> LastIsHighest(history[..i])
  }

  lemma ChildIff(w: World, pre: Alloc, genesis: Header, blocks: seq<Block>, end: Chain, i: nat)
    requires Produces(w, pre, genesis, blocks, end) && AllKeepParent(blocks)
    requires NumbersTold(w, History(genesis, end.built)) && 0 < i < |History(genesis, end.built)|
    ensures ChildIfHighest(w, History(genesis, end.built), i)
  {
    var k := AcceptedAt(genesis, end.built, i);
    assert forall h :: h in History(genesis, end.built)[..i] ==> h in History(genesis, end.built);
    ParentIsHead(w, pre, genesis, blocks, end, k);
  }

  // ---- The head commits to the chain ----

  /** The headers are hashed as the same bytes. */
  predicate SameBytes(a: seq<Header>, b: seq<Header>) {
    |a| == |b| && forall i :: 0 <= i < |a| ==> HeaderBytes(a[i]) == HeaderBytes(b[i])
  }

  /** The headers have the same fields. */
  predicate SameShapes(a: seq<Header>, b: seq<Header>) {
    |a| == |b| && forall i :: 0 <= i < |a| ==> ShapeOf(a[i]) == ShapeOf(b[i])
  }

  /** Headers have one hash exactly if they have the same bytes, and the links of the chain can be read from these. */
  ghost predicate BytesTold(w: World, all: seq<Header>) {
    && (forall h, g :: h in all && g in all ==> (w.hash(h) == w.hash(g) <==> HeaderBytes(h) == HeaderBytes(g)))
    && (forall h, g :: h in all && g in all && HeaderBytes(h) == HeaderBytes(g) ==>
          h.parentHash == g.parentHash && h.number == g.number)
  }

  lemma BytesAreTold(w: World, K: Keccak, all: seq<Header>)
    requires NoCollision(w, K, all)
    ensures BytesTold(w, all) && NumbersTold(w, all)
  {
    NumbersAreTold(w, K, all);
    forall h, g | h in all && g in all ensures w.hash(h) == w.hash(g) <==> HeaderBytes(h) == HeaderBytes(g) {
      if w.hash(h) == w.hash(g) {
        SameHashSameBytes(w, K, all, h, g);
      }
    }
    forall h, g | h in all && g in all && HeaderBytes(h) == HeaderBytes(g)
      ensures h.parentHash == g.parentHash && h.number == g.number
    {
      SameBytesSameLinks(h, g);
    }
  }

  function BytesOfEach(history: seq<Header>): (bytes: seq<Bytes>)
    ensures |bytes| == |history| && forall i :: 0 <= i < |history| ==> bytes[i] == HeaderBytes(history[i])
  {
    seq(|history|, i requires 0 <= i < |history| => HeaderBytes(history[i]))
  }

  /** Told of two histories whose headers have these bytes. */
  ghost predicate Told(w: World, a: seq<Header>, b: seq<Header>, x: seq<Bytes>, y: seq<Bytes>) {
    && |x| == |a| && |y| == |b|
    && (forall i, j :: 0 <= i < |a| && 0 <= j < |b| ==> (w.hash(a[i]) == w.hash(b[j]) <==> x[i] == y[j]))
    && (forall i, j :: 0 <= i < |a| && 0 <= j < |b| && x[i] == y[j] ==>
          a[i].parentHash == b[j].parentHash && a[i].number == b[j].number)
  }

  lemma BytesAreToldOfBoth(w: World, a: seq<Header>, b: seq<Header>)
    requires BytesTold(w, a + b)
    ensures Told(w, a, b, BytesOfEach(a), BytesOfEach(b))
  {
    forall i, j | 0 <= i < |a| && 0 <= j < |b|
      ensures w.hash(a[i]) == w.hash(b[j]) <==> BytesOfEach(a)[i] == BytesOfEach(b)[j]
      ensures BytesOfEach(a)[i] == BytesOfEach(b)[j] ==>
                a[i].parentHash == b[j].parentHash && a[i].number == b[j].number
    {
      assert a[i] in a + b && b[j] in a + b;
    }
  }

  /** The genesis has a number below all others. */
  predicate GenesisIsFirst(history: seq<Header>) {
    forall i :: 0 < i < |history| ==> history[0].number < history[i].number
  }

  /** Going back from one head, both histories have the same bytes as long as both last. */
  lemma {:induction false} SameBack(w: World, a: seq<Header>, b: seq<Header>, x: seq<Bytes>, y: seq<Bytes>, i: nat)
    requires a != [] && b != [] && Follows(w, a) && Follows(w, b) && Told(w, a, b, x, y)
    requires i < |a| && i < |b| && w.hash(Last(a)) == w.hash(Last(b))
    ensures x[|a| - 1 - i] == y[|b| - 1 - i]
  {
    if i > 0 {
      SameBack(w, a, b, x, y, i - 1);
      var m, n := |a| - i, |b| - i;
      assert a[m].parentHash == w.hash(a[m - 1]) && b[n].parentHash == w.hash(b[n - 1]);
    }
  }

  /** The histories are equally long: where the shorter one begins, the other has the number of a genesis. */
  lemma SameLength(w: World, a: seq<Header>, b: seq<Header>, x: seq<Bytes>, y: seq<Bytes>)
    requires a != [] && b != [] && Follows(w, a) && Follows(w, b) && Told(w, a, b, x, y)
    requires w.hash(Last(a)) == w.hash(Last(b))
    requires GenesisIsFirst(a) && GenesisIsFirst(b) && a[0].number == b[0].number
    ensures |a| == |b|
  {
    if |a| < |b| {
      SameBack(w, a, b, x, y, |a| - 1);
    } else if |b| < |a| {
      SameBack(w, a, b, x, y, |b| - 1);
    }
  }

  lemma SameHeadSameBytes(w: World, a: seq<Header>, b: seq<Header>, x: seq<Bytes>, y: seq<Bytes>)
    requires a != [] && b != [] && Follows(w, a) && Follows(w, b) && Told(w, a, b, x, y)
    requires w.hash(Last(a)) == w.hash(Last(b))
    requires GenesisIsFirst(a) && GenesisIsFirst(b) && a[0].number == b[0].number
    ensures x == y
  {
    SameLength(w, a, b, x, y);
    forall i | 0 <= i < |a| ensures x[i] == y[i] {
      SameBack(w, a, b, x, y, |a| - 1 - i);
    }
  }

  lemma SameBytesAndShapes(a: seq<Header>, b: seq<Header>)
    requires forall h :: h in a + b ==> HeaderEncodable(h)
    ensures a == b <==> SameBytes(a, b) && SameShapes(a, b)
  {
    if SameBytes(a, b) && SameShapes(a, b) {
      forall i | 0 <= i < |a| ensures a[i] == b[i] {
        assert a[i] in a + b && b[i] in a + b;
        BytesAndShape(a[i], b[i]);
      }
    }
  }

  /** What is asked of a history: no number falls, none is that of the genesis. */
  predicate InOrder(history: seq<Header>) {
    history != [] && NeverFalls(history[..|history| - 1]) && GenesisIsFirst(history)
  }

  /**
   Two tests have one last block hash exactly if their accepted headers, and the genesis, are hashed as the
   same bytes: as long as no accepted number falls, none is that of the genesis, and no two of the byte
   strings collide. The headers themselves are the same exactly if they moreover have the same fields.
   */
  lemma HeadCommits(w: World, K: Keccak, pre: Alloc, pre': Alloc, genesis: Header, genesis': Header,
                    blocks: seq<Block>, blocks': seq<Block>, end: Chain, end': Chain)
    requires Produces(w, pre, genesis, blocks, end) && AllKeepParent(blocks)
    requires Produces(w, pre', genesis', blocks', end') && AllKeepParent(blocks')
    requires InOrder(History(genesis, end.built)) && InOrder(History(genesis', end'.built))
    requires genesis.number == genesis'.number
    requires NoCollision(w, K, History(genesis, end.built) + History(genesis', end'.built))
    ensures var a, b := History(genesis, end.built), History(genesis', end'.built);
            && (end.head == end'.head <==> SameBytes(a, b))
            && (a == b <==> end.head == end'.head && SameShapes(a, b))
  {
    var a, b := History(genesis, end.built), History(genesis', end'.built);
    BytesAreTold(w, K, a + b);
    NumbersOfParts(w, a, b);
    HeadOf(w, pre, genesis, blocks, end);
    HeadOf(w, pre', genesis', blocks', end');
    SameLastHash(w, a, b);
    SameBytesAndShapes(a, b);
  }

  lemma NumbersOfParts(w: World, a: seq<Header>, b: seq<Header>)
    requires NumbersTold(w, a + b)
    ensures NumbersTold(w, a) && NumbersTold(w, b)
  {
    assert (forall h :: h in a ==> h in a + b) && forall h :: h in b ==> h in a + b;
  }

  lemma SameLastHash(w: World, a: seq<Header>, b: seq<Header>)
    requires a != [] && b != [] && Follows(w, a) && Follows(w, b) && BytesTold(w, a + b)
    requires GenesisIsFirst(a) && GenesisIsFirst(b) && a[0].number == b[0].number
    ensures w.hash(Last(a)) == w.hash(Last(b)) <==> SameBytes(a, b)
  {
    var x, y := BytesOfEach(a), BytesOfEach(b);
    BytesAreToldOfBoth(w, a, b);
    assert SameBytes(a, b) ==> x == y;
    if w.hash(Last(a)) == w.hash(Last(b)) {
      SameHeadSameBytes(w, a, b, x, y);
    }
  }

  /** Where the number and the timestamp of a block decide which fields its header has. */
  predicate ShapesDecided(a: seq<Header>, b: seq<Header>) {
    forall i, j :: 0 <= i < |a| && 0 <= j < |b| && a[i].number == b[j].number && a[i].timestamp == b[j].timestamp ==>
      ShapeOf(a[i]) == ShapeOf(b[j])
  }

  lemma SameBytesDecideShapes(a: seq<Header>, b: seq<Header>)
    requires SameBytes(a, b) && ShapesDecided(a, b) && forall h :: h in a + b ==> HeaderEncodable(h)
    ensures SameShapes(a, b)
  {
    forall i | 0 <= i < |a| ensures ShapeOf(a[i]) == ShapeOf(b[i]) {
      assert a[i] in a + b && b[i] in a + b;
      SameBytesSameLinks(a[i], b[i]);
    }
  }

  /** So one last block hash means the same accepted headers wherever the fork decides what fields they have. */
  lemma HeadCommitsToHeaders(w: World, K: Keccak, pre: Alloc, pre': Alloc, genesis: Header, genesis': Header,
                             blocks: seq<Block>, blocks': seq<Block>, end: Chain, end': Chain)
    requires Produces(w, pre, genesis, blocks, end) && AllKeepParent(blocks)
    requires Produces(w, pre', genesis', blocks', end') && AllKeepParent(blocks')
    requires InOrder(History(genesis, end.built)) && InOrder(History(genesis', end'.built))
    requires genesis.number == genesis'.number
    requires NoCollision(w, K, History(genesis, end.built) + History(genesis', end'.built))
    requires ShapesDecided(History(genesis, end.built), History(genesis', end'.built))
    ensures end.head == end'.head <==> History(genesis, end.built) == History(genesis', end'.built)
  {
    HeadCommits(w, K, pre, pre', genesis, genesis', blocks, blocks', end, end');
    if end.head == end'.head {
      SameBytesDecideShapes(History(genesis, end.built), History(genesis', end'.built));
    }
  }

  lemma HeadOf(w: World, pre: Alloc, genesis: Header, blocks: seq<Block>, end: Chain)
    requires Produces(w, pre, genesis, blocks, end) && AllKeepParent(blocks)
    requires InOrder(History(genesis, end.built)) && NumbersTold(w, History(genesis, end.built))
    ensures end.head == w.hash(Last(History(genesis, end.built))) && Follows(w, History(genesis, end.built))
    ensures History(genesis, end.built)[0] == genesis
  {
    HeadIsLast(w, pre, genesis, blocks, end);
    FollowsIffNeverFalls(w, pre, genesis, blocks, end);
    HistoryStarts(genesis, end.built);
  }

  lemma HeadIsLast(w: World, pre: Alloc, genesis: Header, blocks: seq<Block>, end: Chain)
    requires Produces(w, pre, genesis, blocks, end)
    ensures end.head == w.hash(Last(History(genesis, end.built)))
  {
    StartLinked(w, pre, genesis);
    RunLinked(w, genesis, Start(w, pre, genesis), blocks);
  }

  lemma {:induction false} HistoryStarts(genesis: Header, built: seq<BuiltBlock>)
    ensures History(genesis, built)[0] == genesis
  {
    if built != [] {
      HistoryStarts(genesis, built[..|built| - 1]);
    }
  }

  /** Blocks that leave their numbers to the chain are in order. */
  lemma UnnumberedInOrder(w: World, pre: Alloc, genesis: Header, blocks: seq<Block>, end: Chain)
    requires Produces(w, pre, genesis, blocks, end) && AllUnnumbered(blocks)
    ensures AllKeepParent(blocks)
    ensures var history := History(genesis, end.built);
            NeverFalls(history[..|history| - 1]) && GenesisIsFirst(history) && Follows(w, history)
  {
    var history := History(genesis, end.built);
    forall k | 0 <= k < |blocks| ensures KeepsParent(blocks[k]) {
      assert Unnumbered(blocks[k]);
    }
    HistoryIsChain(w, pre, genesis, blocks, end, |blocks|);
    assert end.built[..|blocks|] == end.built;
    forall i | 0 <= i < |history| ensures history[i].number == history[0].number + i {
      ChainNumbers(w, history, i);
    }
  }

  // ---- Runs in which it is otherwise ----

  /** A world in which nothing raises, and a tool that makes empty blocks. */
  function PlainWorld(f: Fork, K: Keccak): World {
    World(
      f,
      (alloc: Alloc, content: Bytes, env: Environment) => Output(alloc, 0, ZERO_HASH, None, None, None, []),
      (content: Bytes, env: Environment) => None,
      (content: Bytes, env: Environment, out: Output) =>
        Rest(ZERO_HASH, ZERO_HASH, ZERO_HASH, [], [], [], None, None, None),
      (content: Bytes, out: Output) => None,
      (h: Header) => K(HeaderBytes(h)),
      (b: Block, env: Environment, out: Output, h: Header) => true,
      (b: Block, alloc: Alloc) => true,
      (alloc: Alloc) => true,
      Unchecked,
      None)
  }

  lemma {:induction false} PlainRuns(f: Fork, K: Keccak, genesis: Header, c: Chain, blocks: seq<Block>)
    requires Linked(PlainWorld(f, K), genesis, c)
    ensures Run(PlainWorld(f, K), c, blocks).Some?
    decreases |blocks|
  {
    if blocks != [] {
      var w, b := PlainWorld(f, K), blocks[0];
      var built := Generate(w, b, c.env, c.alloc);
      assert built.Some?;
      AdvanceLinked(w, genesis, c, b, built.value);
      PlainRuns(f, K, genesis, Advance(w, c, built.value), blocks[1..]);
    }
  }

  lemma PlainEnd(f: Fork, K: Keccak, pre: Alloc, genesis: Header, blocks: seq<Block>) returns (end: Chain)
    ensures Produces(PlainWorld(f, K), pre, genesis, blocks, end)
  {
    var start := Start(PlainWorld(f, K), pre, genesis);
    StartLinked(PlainWorld(f, K), pre, genesis);
    PlainRuns(f, K, genesis, start, blocks);
    end := Run(PlainWorld(f, K), start, blocks).value;
  }

  /** One accepted block, built right on the genesis. */
  lemma OneBlock(w: World, pre: Alloc, genesis: Header, b: Block, end: Chain)
    requires Produces(w, pre, genesis, [b], end) && !b.exception
    ensures var start := Start(w, pre, genesis);
            && Generate(w, b, start.env, start.alloc) == Some(end.built[0])
            && History(genesis, end.built) == [genesis, end.built[0].header]
            && end.head == w.hash(end.built[0].header)
  {
    var start := Start(w, pre, genesis);
    var next := Step(w, start, b).value;
    assert [b][0] == b && [b][1..] == [];
    assert Run(w, start, [b]) == Run(w, next, []) == Some(next);
    assert next.built == [Generate(w, b, start.env, start.alloc).value];
    assert end.built[..0] == [] && History(genesis, []) == [genesis];
    assert [genesis] + [end.built[0].header] == [genesis, end.built[0].header];
  }

  const WITH_BASE_FEE := EMPTY_BLOCK.(baseFee := Given(5))
  const WITH_EXCESS := EMPTY_BLOCK.(excessBlobGas := Given(5))

  /** The two headers differ in which of the two fields they have, and in nothing else. */
  lemma OneFieldEach(f: Fork, K: Keccak, pre: Alloc, genesis: Header, h: Header, g: Header)
    requires var w, start := PlainWorld(f, K), Start(PlainWorld(f, K), pre, genesis);
             && Generate(w, WITH_BASE_FEE, start.env, start.alloc).Some?
             && Generate(w, WITH_EXCESS, start.env, start.alloc).Some?
             && h == Generate(w, WITH_BASE_FEE, start.env, start.alloc).value.header
             && g == Generate(w, WITH_EXCESS, start.env, start.alloc).value.header
    requires var n, t := genesis.number + 1, genesis.timestamp + 12; !f.baseFee(n, t) && !f.excessBlobGas(n, t)
    ensures h.baseFee == Some(5) && h.withdrawalsRoot == None && h.blobGasUsed == None && h.excessBlobGas == None
    ensures g == h.(baseFee := None, excessBlobGas := Some(5))
  {}

  /**
   A run with a base fee of 5 and one with an excess of blob gas of 5, where the fork demands neither, have one
   last block hash, with no collision at all: the headers differ, but not their bytes.
   */
  lemma SameHeadOtherHeaders(f: Fork, K: Keccak, pre: Alloc, genesis: Header) returns (end: Chain, end': Chain)
    requires var n, t := genesis.number + 1, genesis.timestamp + 12; !f.baseFee(n, t) && !f.excessBlobGas(n, t)
    ensures Produces(PlainWorld(f, K), pre, genesis, [WITH_BASE_FEE], end) && AllUnnumbered([WITH_BASE_FEE])
    ensures Produces(PlainWorld(f, K), pre, genesis, [WITH_EXCESS], end') && AllUnnumbered([WITH_EXCESS])
    ensures end.head == end'.head && History(genesis, end.built) != History(genesis, end'.built)
  {
    end := PlainEnd(f, K, pre, genesis, [WITH_BASE_FEE]);
    end' := PlainEnd(f, K, pre, genesis, [WITH_EXCESS]);
    OneBlock(PlainWorld(f, K), pre, genesis, WITH_BASE_FEE, end);
    OneBlock(PlainWorld(f, K), pre, genesis, WITH_EXCESS, end');
    var h, g := end.built[0].header, end'.built[0].header;
    OneFieldEach(f, K, pre, genesis, h, g);
    var without := h.(baseFee := None);
    BaseFeeOrExcess(without, 5);
    assert without.(baseFee := Some(5)) == h && without.(excessBlobGas := Some(5)) == g;
  }

  // ---- A stale parent ----

  function NumberedBlock(n: nat): Block {
    EMPTY_BLOCK.(number := Some(n))
  }

  const STALE_BLOCKS: seq<Block> := [NumberedBlock(5), NumberedBlock(3), EMPTY_BLOCK]

  /** After blocks 5 and 3, both accepted, the next one is a child of block 5, though block 3 is the head. */
  ghost predicate IsStale(w: World, genesis: Header, built: seq<BuiltBlock>) {
    && |built| == 3
    && var five, three, next := built[0].header, built[1].header, built[2].header;
    && History(genesis, built[..2]) == [genesis, five, three] && five.number == 5 && three.number == 3
    && next.parentHash == w.hash(five) && next.number == 6
  }

  lemma StaleRun(w: World, pre: Alloc, genesis: Header, blocks: seq<Block>, end: Chain)
    requires Produces(w, pre, genesis, blocks, end) && blocks == STALE_BLOCKS && genesis.number == 0
    ensures IsStale(w, genesis, end.built)
  {
    var _, _ := StaleHistory(w, pre, genesis, blocks, end);
    BlockLinks(w, pre, genesis, blocks, end, 2, 1);
  }

  /** There is such a run. The hashes of blocks 5 and 3 differ, unless their bytes, which differ, collide. */
  lemma StaleParent(f: Fork, K: Keccak, pre: Alloc, genesis: Header) returns (end: Chain)
    requires genesis.number == 0
    ensures Produces(PlainWorld(f, K), pre, genesis, STALE_BLOCKS, end)
    ensures IsStale(PlainWorld(f, K), genesis, end.built)
    ensures NoCollision(PlainWorld(f, K), K, History(genesis, end.built[..2])) ==>
              end.built[2].header.parentHash != PlainWorld(f, K).hash(end.built[1].header)
  {
    end := PlainEnd(f, K, pre, genesis, STALE_BLOCKS);
    StaleRun(PlainWorld(f, K), pre, genesis, STALE_BLOCKS, end);
    DifferentHash(PlainWorld(f, K), K, genesis, end.built[0].header, end.built[1].header);
  }

  lemma DifferentHash(w: World, K: Keccak, genesis: Header, five: Header, three: Header)
    requires five.number != three.number
    ensures NoCollision(w, K, [genesis, five, three]) ==> w.hash(five) != w.hash(three)
  {
    if NoCollision(w, K, [genesis, five, three]) {
      NumbersAreTold(w, K, [genesis, five, three]);
    }
  }

  lemma StaleHistory(w: World, pre: Alloc, genesis: Header, blocks: seq<Block>, end: Chain)
    returns (five: Header, three: Header)
    requires Produces(w, pre, genesis, blocks, end) && |blocks| == 3 && genesis.number == 0
    requires blocks[0] == NumberedBlock(5) && blocks[1] == NumberedBlock(3)
    ensures |end.built| == 3 && five == end.built[0].header && three == end.built[1].header
    ensures History(genesis, end.built[..2]) == [genesis, five, three] && five.number == 5 && three.number == 3
  {
    five, three := end.built[0].header, end.built[1].header;
    assert end.built[..0] == [] && History(genesis, []) == [genesis];
    AcceptedStep(w, pre, genesis, blocks, end, 0, 0);
    AcceptedStep(w, pre, genesis, blocks, end, 1, 1);
    assert [genesis] + [five] + [three] == [genesis, five, three];
  }

  /** An accepted block with a number of its own is added to the history with this number. */
  lemma AcceptedStep(w: World, pre: Alloc, genesis: Header, blocks: seq<Block>, end: Chain, k: nat, j: nat)
    requires Produces(w, pre, genesis, blocks, end) && k < |blocks| && KeepsLink(blocks[k])
    requires !blocks[k].exception && blocks[k].number.Some? && IsLatest(History(genesis, end.built[..k]), j)
    ensures k < |end.built| && end.built[k].header.number == blocks[k].number.value
    ensures History(genesis, end.built[..k + 1]) == History(genesis, end.built[..k]) + [end.built[k].header]
  {
    var c := BlockInContext(w, pre, genesis, blocks, end, k);
    HistoryStep(genesis, end.built, k);
    BlockLinks(w, pre, genesis, blocks, end, k, j);
  }
}
