/**
 What holds of every chain that is built: how blocks are linked, that rejected blocks leave no trace,
 and that the head commits to all accepted headers.
 */
module ChainLinks {
  import opened ByteStrings
  import opened Options
  import opened States
  import opened Headers
  import opened Environments
  import opened Chains

  // ---- The accepted headers ----

  /** The genesis and then the headers no exception is expected of. */
  function History(genesis: Header, built: seq<BuiltBlock>): (r: seq<Header>)
    ensures r != []
  {
    if built == [] then [genesis]
    else
      var rest := History(genesis, built[..|built| - 1]);
      if built[|built| - 1].block.exception then rest else rest + [built[|built| - 1].header]
  }

  function Last(history: seq<Header>): Header
    requires history != []
  {
    history[|history| - 1]
  }

  function HashesOf(w: World, history: seq<Header>): map<nat, Hash> {
    if history == [] then map[]
    else HashesOf(w, history[..|history| - 1])[Last(history).number := w.hash(Last(history))]
  }

  /** What the loop carries belongs to the last accepted header. */
  ghost predicate Linked(w: World, genesis: Header, c: Chain) {
    var history := History(genesis, c.built);
    && c.head == w.hash(Last(history))
    && HasParent(c.env, Last(history))
    && c.env.blockHashes == HashesOf(w, history)
  }

  lemma StartLinked(w: World, pre: Alloc, genesis: Header)
    ensures Linked(w, genesis, Start(w, pre, genesis))
  {
    assert [genesis][..0] == [];
  }

  lemma HistoryAppend(genesis: Header, built: seq<BuiltBlock>, next: BuiltBlock)
    ensures History(genesis, built + [next]) ==
            if next.block.exception then History(genesis, built) else History(genesis, built) + [next.header]
  {
    assert (built + [next])[..|built|] == built;
  }

  lemma HashesAppend(w: World, history: seq<Header>, next: Header)
    ensures HashesOf(w, history + [next]) == HashesOf(w, history)[next.number := w.hash(next)]
  {
    assert (history + [next])[..|history|] == history;
  }

  lemma AdvanceLinked(w: World, genesis: Header, c: Chain, b: Block, built: BuiltBlock)
    requires Linked(w, genesis, c) && Generate(w, b, c.env, c.alloc) == Some(built)
    ensures Linked(w, genesis, Advance(w, c, built))
  {
    HistoryAppend(genesis, c.built, built);
    HashesAppend(w, History(genesis, c.built), built.header);
    assert built.env.blockHashes == c.env.blockHashes;
  }

  /** A run goes on from what its first part reached. */
  lemma {:induction false} RunSplit(w: World, c: Chain, blocks: seq<Block>, k: nat)
    requires k <= |blocks| && Run(w, c, blocks).Some?
    ensures Run(w, c, blocks[..k]).Some?
    ensures Run(w, Run(w, c, blocks[..k]).value, blocks[k..]) == Run(w, c, blocks)
    decreases k
  {
    if k == 0 {
      assert blocks[..0] == [] && blocks[0..] == blocks;
    } else {
      var next := Step(w, c, blocks[0]).value;
      RunSplit(w, next, blocks[1..], k - 1);
      assert blocks[1..][..k - 1] == blocks[..k][1..] && blocks[1..][k - 1..] == blocks[k..];
    }
  }

  lemma {:induction false} RunLinked(w: World, genesis: Header, c: Chain, blocks: seq<Block>)
    requires Linked(w, genesis, c) && Run(w, c, blocks).Some?
    ensures var end := Run(w, c, blocks).value;
            Linked(w, genesis, end) && c.built <= end.built && |end.built| == |c.built| + |blocks|
    decreases |blocks|
  {
    if blocks != [] {
      AdvanceLinked(w, genesis, c, blocks[0], Generate(w, blocks[0], c.env, c.alloc).value);
      RunLinked(w, genesis, Step(w, c, blocks[0]).value, blocks[1..]);
    }
  }

  /** The blocks are run from the genesis without raising. */
  ghost predicate Produces(w: World, pre: Alloc, genesis: Header, blocks: seq<Block>, end: Chain) {
    |end.built| == |blocks| && Run(w, Start(w, pre, genesis), blocks) == Some(end)
  }

  lemma PrefixLinked(w: World, pre: Alloc, genesis: Header, blocks: seq<Block>, end: Chain, k: nat)
    returns (c: Chain)
    requires Produces(w, pre, genesis, blocks, end) && k <= |blocks|
    ensures Linked(w, genesis, c) && |c.built| == k && Run(w, c, blocks[k..]) == Some(end)
  {
    var start := Start(w, pre, genesis);
    RunSplit(w, start, blocks, k);
    c := Run(w, start, blocks[..k]).value;
    StartLinked(w, pre, genesis);
    RunLinked(w, genesis, start, blocks[..k]);
  }

  /** Block `k` is generated from what the blocks before it left. */
  lemma BlockInContext(w: World, pre: Alloc, genesis: Header, blocks: seq<Block>, end: Chain, k: nat)
    returns (c: Chain)
    requires Produces(w, pre, genesis, blocks, end) && k < |blocks|
    ensures Linked(w, genesis, c)
    ensures k < |end.built| && c.built == end.built[..k]
    ensures Generate(w, blocks[k], c.env, c.alloc) == Some(end.built[k])
  {
    c := PrefixLinked(w, pre, genesis, blocks, end, k);
    RunUnfold(w, c, blocks, k);
    var next := Step(w, c, blocks[k]).value;
    AdvanceLinked(w, genesis, c, blocks[k], Generate(w, blocks[k], c.env, c.alloc).value);
    RunLinked(w, genesis, next, blocks[k + 1..]);
  }

  // ---- Linkage ----

  /** Header `j` has the highest number of all, and is the last one that has it. */
  predicate IsLatest(history: seq<Header>, j: nat) {
    && j < |history|
    && (forall i :: 0 <= i < |history| ==> history[i].number <= history[j].number)
    && (forall i :: j < i < |history| ==> history[i].number < history[j].number)
  }

  lemma {:induction false} LatestHash(w: World, history: seq<Header>, j: nat)
    requires IsLatest(history, j)
    ensures var hashes := HashesOf(w, history);
            && hashes != map[] && MaxKey(hashes) == history[j].number
            && hashes[MaxKey(hashes)] == w.hash(history[j])
  {
    HashesAt(w, history, j);
    NumbersOf(w, history);
  }

  lemma {:induction false} HashesAt(w: World, history: seq<Header>, j: nat)
    requires j < |history| && forall i :: j < i < |history| ==> history[i].number != history[j].number
    ensures history[j].number in HashesOf(w, history)
    ensures HashesOf(w, history)[history[j].number] == w.hash(history[j])
  {
    if j < |history| - 1 {
      HashesAt(w, history[..|history| - 1], j);
    }
  }

  lemma {:induction false} NumbersOf(w: World, history: seq<Header>)
    ensures forall n :: n in HashesOf(w, history) ==> exists i :: 0 <= i < |history| && history[i].number == n
  {
    if history != [] {
      var rest := history[..|history| - 1];
      NumbersOf(w, rest);
      forall n | n in HashesOf(w, history) ensures exists i :: 0 <= i < |history| && history[i].number == n {
        if n == Last(history).number {
          assert history[|history| - 1].number == n;
        } else {
          assert n in HashesOf(w, rest);
          var i :| 0 <= i < |rest| && rest[i].number == n;
          assert history[i].number == n;
        }
      }
    }
  }

  /** The block's header keeps the parent hash, number and timestamp of its environment. */
  predicate KeepsLink(b: Block) {
    b.modifier.None? ||
    (b.modifier.value.parentHash.None? && b.modifier.value.number.None? && b.modifier.value.timestamp.None?)
  }

  predicate KeepsParent(b: Block) {
    b.modifier.None? || b.modifier.value.parentHash.None?
  }

  /** The header of block `b` is linked to header `j` of the history. */
  predicate LinksTo(w: World, history: seq<Header>, j: nat, b: Block, header: Header)
    requires j < |history|
  {
    && header.parentHash == w.hash(history[j])
    && header.number == OrElse(b.number, history[j].number + 1)
    && header.timestamp == OrElse(b.timestamp, Last(history).timestamp + 12)
  }

  lemma GenerateLinks(w: World, genesis: Header, c: Chain, b: Block, built: BuiltBlock, j: nat)
    requires Linked(w, genesis, c) && Generate(w, b, c.env, c.alloc) == Some(built)
    requires KeepsLink(b) && IsLatest(History(genesis, c.built), j)
    ensures LinksTo(w, History(genesis, c.built), j, b, built.header)
  {
    LatestHash(w, History(genesis, c.built), j);
  }

  /**
   For any numbers whatever: the parent is the latest header accepted so far, a block without a number
   of its own comes right after it, and without a timestamp it is 12 seconds after the last accepted one.
   */
  lemma BlockLinks(w: World, pre: Alloc, genesis: Header, blocks: seq<Block>, end: Chain, k: nat, j: nat)
    requires Produces(w, pre, genesis, blocks, end) && k < |blocks| && KeepsLink(blocks[k])
    requires IsLatest(History(genesis, end.built[..k]), j)
    ensures LinksTo(w, History(genesis, end.built[..k]), j, blocks[k], end.built[k].header)
  {
    var c := BlockInContext(w, pre, genesis, blocks, end, k);
    GenerateLinks(w, genesis, c, blocks[k], end.built[k], j);
  }

  ghost function BytesOf(history: seq<Header>): set<Bytes> {
    set h | h in history :: HeaderBytes(h)
  }

  /** Headers are hashed as their bytes, and no two of these are hashed to one hash from different bytes. */
  ghost predicate NoCollision(w: World, K: Keccak, history: seq<Header>) {
    && HashesBytes(w, K) && CollisionFree(K, BytesOf(history))
    && forall h :: h in history ==> HeaderEncodable(h)
  }

  /** Headers with one hash have one number, whatever else. */
  ghost predicate NumbersTold(w: World, history: seq<Header>) {
    forall h, g :: h in history && g in history && w.hash(h) == w.hash(g) ==> h.number == g.number
  }

  lemma SameHashSameBytes(w: World, K: Keccak, history: seq<Header>, h: Header, g: Header)
    requires NoCollision(w, K, history) && h in history && g in history && w.hash(h) == w.hash(g)
    ensures HeaderBytes(h) == HeaderBytes(g) && h.number == g.number
  {
    assert HeaderBytes(h) in BytesOf(history) && HeaderBytes(g) in BytesOf(history);
    SameBytesSameLinks(h, g);
  }

  lemma NumbersAreTold(w: World, K: Keccak, history: seq<Header>)
    requires NoCollision(w, K, history)
    ensures NumbersTold(w, history)
  {
    forall h, g | h in history && g in history && w.hash(h) == w.hash(g) ensures h.number == g.number {
      SameHashSameBytes(w, K, history, h, g);
    }
  }

  lemma GenerateParent(w: World, genesis: Header, c: Chain, b: Block, built: BuiltBlock, j: nat)
    requires Linked(w, genesis, c) && Generate(w, b, c.env, c.alloc) == Some(built)
    requires KeepsParent(b) && IsLatest(History(genesis, c.built), j)
    ensures built.header.parentHash == w.hash(History(genesis, c.built)[j])
  {
    LatestHash(w, History(genesis, c.built), j);
  }

  /** The parent alone, whatever else of the header is modified. */
  lemma BlockParent(w: World, pre: Alloc, genesis: Header, blocks: seq<Block>, end: Chain, k: nat, j: nat)
    requires Produces(w, pre, genesis, blocks, end) && k < |blocks| && KeepsParent(blocks[k])
    requires IsLatest(History(genesis, end.built[..k]), j)
    ensures end.built[k].header.parentHash == w.hash(History(genesis, end.built[..k])[j])
  {
    var c := BlockInContext(w, pre, genesis, blocks, end, k);
    GenerateParent(w, genesis, c, blocks[k], end.built[k], j);
  }

  /** So a block is a child of the head exactly if no earlier accepted header has a higher number. */
  lemma ParentIsHead(w: World, pre: Alloc, genesis: Header, blocks: seq<Block>, end: Chain, k: nat)
    requires Produces(w, pre, genesis, blocks, end) && k < |blocks| && KeepsParent(blocks[k])
    requires NumbersTold(w, History(genesis, end.built[..k]))
    ensures var history := History(genesis, end.built[..k]);
            end.built[k].header.parentHash == w.hash(Last(history)) <==> LastIsHighest(history)
  {
    var history := History(genesis, end.built[..k]);
    var j := LatestExists(history);
    BlockParent(w, pre, genesis, blocks, end, k, j);
    LatestIsLast(w, history, j);
  }

  /** The latest header has the hash of the last one exactly if the last one has the highest number. */
  lemma LatestIsLast(w: World, history: seq<Header>, j: nat)
    requires NumbersTold(w, history) && IsLatest(history, j)
    ensures w.hash(history[j]) == w.hash(Last(history)) <==> LastIsHighest(history)
  {
    assert history[j] in history && Last(history) in history;
    if LastIsHighest(history) {
      assert history[j].number == Last(history).number;
      assert j == |history| - 1;
    }
  }

  predicate LastIsHighest(history: seq<Header>)
    requires history != []
  {
    forall i :: 0 <= i < |history| ==> history[i].number <= Last(history).number
  }

  lemma {:induction false} LatestExists(history: seq<Header>) returns (j: nat)
    requires history != []
    ensures IsLatest(history, j)
  {
    var n := |history| - 1;
    if n == 0 {
      j := 0;
    } else {
      j := LatestExists(history[..n]);
      if history[j].number <= history[n].number {
        j := n;
      }
    }
  }

  /** A block that leaves its number to the chain. */
  predicate Unnumbered(b: Block) {
    b.number.None? && KeepsLink(b)
  }

  predicate AllUnnumbered(blocks: seq<Block>) {
    forall k :: 0 <= k < |blocks| ==> Unnumbered(blocks[k])
  }

  /** Each header names its predecessor and has the next number. */
  predicate IsChain(w: World, history: seq<Header>) {
    forall i :: 0 < i < |history| ==>
      history[i].parentHash == w.hash(history[i - 1]) && history[i].number == history[i - 1].number + 1
  }

  lemma {:induction false} ChainNumbers(w: World, history: seq<Header>, i: nat)
    requires IsChain(w, history) && i < |history|
    ensures history[i].number == history[0].number + i
  {
    if i > 0 {
      ChainNumbers(w, history, i - 1);
    }
  }

  lemma ChainLatest(w: World, history: seq<Header>)
    requires IsChain(w, history) && history != []
    ensures IsLatest(history, |history| - 1)
  {
    forall i | 0 <= i < |history| ensures history[i].number == history[0].number + i {
      ChainNumbers(w, history, i);
    }
  }

  lemma ChainGrows(w: World, history: seq<Header>, b: Block, header: Header)
    requires history != [] && IsChain(w, history) && Unnumbered(b)
    requires LinksTo(w, history, |history| - 1, b, header)
    ensures IsChain(w, history + [header])
  {}

  /** After a chain, the latest header is the last. */
  lemma BlockLinksToLast(w: World, pre: Alloc, genesis: Header, blocks: seq<Block>, end: Chain, k: nat)
    requires Produces(w, pre, genesis, blocks, end) && k < |blocks| && KeepsLink(blocks[k])
    requires IsChain(w, History(genesis, end.built[..k]))
    ensures var history := History(genesis, end.built[..k]);
            LinksTo(w, history, |history| - 1, blocks[k], end.built[k].header)
  {
    var history := History(genesis, end.built[..k]);
    ChainLatest(w, history);
    BlockLinks(w, pre, genesis, blocks, end, k, |history| - 1);
  }

  lemma HistoryIsChain(w: World, pre: Alloc, genesis: Header, blocks: seq<Block>, end: Chain, k: nat)
    requires Produces(w, pre, genesis, blocks, end) && k <= |blocks| && AllUnnumbered(blocks)
    ensures IsChain(w, History(genesis, end.built[..k]))
  {
    for i := 0 to k
      invariant IsChain(w, History(genesis, end.built[..i]))
    {
      HistoryStaysChain(w, pre, genesis, blocks, end, i);
    }
  }

  lemma HistoryStaysChain(w: World, pre: Alloc, genesis: Header, blocks: seq<Block>, end: Chain, k: nat)
    requires Produces(w, pre, genesis, blocks, end) && k < |blocks| && Unnumbered(blocks[k])
    requires IsChain(w, History(genesis, end.built[..k]))
    ensures IsChain(w, History(genesis, end.built[..k + 1]))
  {
    BlockLinksToLast(w, pre, genesis, blocks, end, k);
    HistoryChainStep(w, genesis, end.built, k, blocks[k]);
  }

  lemma HistoryChainStep(w: World, genesis: Header, built: seq<BuiltBlock>, k: nat, b: Block)
    requires k < |built| && IsChain(w, History(genesis, built[..k])) && Unnumbered(b)
    requires var history := History(genesis, built[..k]); LinksTo(w, history, |history| - 1, b, built[k].header)
    ensures IsChain(w, History(genesis, built[..k + 1]))
  {
    ChainGrows(w, History(genesis, built[..k]), b, built[k].header);
    HistoryStep(genesis, built, k);
  }

  lemma HistoryStep(genesis: Header, built: seq<BuiltBlock>, k: nat)
    requires k < |built|
    ensures var history := History(genesis, built[..k]);
            History(genesis, built[..k + 1]) ==
            if built[k].block.exception then history else history + [built[k].header]
  {
    assert built[..k + 1][..k] == built[..k];
  }

  /**
   If no block sets or modifies its number, every block, accepted or not, is a child of the latest
   accepted block before it, has the next number and by default comes 12 seconds later.
   */
  lemma UnnumberedBlocksLink(w: World, pre: Alloc, genesis: Header, blocks: seq<Block>, end: Chain, k: nat)
    requires Produces(w, pre, genesis, blocks, end) && k < |blocks| && AllUnnumbered(blocks)
    ensures var parent, header := Last(History(genesis, end.built[..k])), end.built[k].header;
            && header.parentHash == w.hash(parent)
            && header.number == parent.number + 1
            && header.timestamp == OrElse(blocks[k].timestamp, parent.timestamp + 12)
  {
    HistoryIsChain(w, pre, genesis, blocks, end, k);
    assert Unnumbered(blocks[k]);
    BlockLinksToLast(w, pre, genesis, blocks, end, k);
  }

  // ---- Rejected blocks leave no trace ----

  function Kept(blocks: seq<Block>): seq<Block> {
    if blocks == [] then []
    else if blocks[0].exception then Kept(blocks[1..])
    else [blocks[0]] + Kept(blocks[1..])
  }

  function KeptBuilt(built: seq<BuiltBlock>): seq<BuiltBlock> {
    if built == [] then []
    else if built[0].block.exception then KeptBuilt(built[1..])
    else [built[0]] + KeptBuilt(built[1..])
  }

  ghost predicate SameFront(c: Chain, d: Chain) {
    c.alloc == d.alloc && c.env == d.env && c.head == d.head
  }

  /** The chain after a block, if it is one to be kept. */
  function StepIfKept(w: World, d: Chain, b: Block): Chain {
    if b.exception || Step(w, d, b).None? then d else Step(w, d, b).value
  }

  /** One block more at the front, in both runs. */
  lemma ErasureStep(w: World, c: Chain, d: Chain, b: Block, next: Chain) returns (built: BuiltBlock)
    requires SameFront(c, d) && Step(w, c, b) == Some(next)
    ensures next.built == c.built + [built] && built.block == b && SameFront(next, StepIfKept(w, d, b))
    ensures var next' := StepIfKept(w, d, b);
            if b.exception then next.invalid == c.invalid + 1
            else Step(w, d, b) == Some(next') && next'.built == d.built + [built]
                 && next'.invalid == d.invalid && next.invalid == c.invalid
  {
    built := Generate(w, b, c.env, c.alloc).value;
  }

  lemma KeptRun(w: World, d: Chain, blocks: seq<Block>, next': Chain)
    requires blocks != []
    requires if blocks[0].exception then next' == d else Step(w, d, blocks[0]) == Some(next')
    ensures Run(w, d, Kept(blocks)) == Run(w, next', Kept(blocks[1..]))
  {
    assert !blocks[0].exception ==> Kept(blocks)[1..] == Kept(blocks[1..]);
  }

  lemma KeptBuiltFirst(before: seq<BuiltBlock>, front: seq<BuiltBlock>, built: BuiltBlock, all: seq<BuiltBlock>)
    requires front + [built] <= all
    ensures before + KeptBuilt(all[|front|..]) ==
            (if built.block.exception then before else before + [built]) + KeptBuilt(all[|front| + 1..])
  {
    var rest := all[|front| + 1..];
    assert all[|front|..][0] == built && all[|front|..][1..] == rest;
    assert before + ([built] + KeptBuilt(rest)) == before + [built] + KeptBuilt(rest);
  }

  /** From `d` without the rejected blocks, the run ends like that from `c` with them. */
  ghost predicate Erased(w: World, c: Chain, d: Chain, blocks: seq<Block>, end: Chain, end': Chain) {
    Run(w, d, Kept(blocks)) == Some(end') && SameFront(end, end') && ErasedBuilt(c, d, blocks, end, end')
  }

  /** The other blocks are built, and no others. */
  ghost predicate ErasedBuilt(c: Chain, d: Chain, blocks: seq<Block>, end: Chain, end': Chain) {
    && c.built <= end.built && end'.built == d.built + KeptBuilt(end.built[|c.built|..])
    && end'.invalid == d.invalid && end.invalid == c.invalid + |blocks| - |Kept(blocks)|
  }

  lemma ErasedBuiltStep(w: World, c: Chain, d: Chain, blocks: seq<Block>, next: Chain, end: Chain, end': Chain)
    requires blocks != [] && SameFront(c, d) && Step(w, c, blocks[0]) == Some(next)
    requires ErasedBuilt(next, StepIfKept(w, d, blocks[0]), blocks[1..], end, end')
    ensures ErasedBuilt(c, d, blocks, end, end')
  {
    var built := ErasureStep(w, c, d, blocks[0], next);
    KeptBuiltFirst(d.built, c.built, built, end.built);
  }

  lemma ErasedStep(w: World, c: Chain, d: Chain, blocks: seq<Block>, next: Chain, end: Chain, end': Chain)
    requires blocks != [] && SameFront(c, d) && Step(w, c, blocks[0]) == Some(next)
    requires Erased(w, next, StepIfKept(w, d, blocks[0]), blocks[1..], end, end')
    ensures Erased(w, c, d, blocks, end, end')
  {
    ErasedBuiltStep(w, c, d, blocks, next, end, end');
    var _ := ErasureStep(w, c, d, blocks[0], next);
    KeptRun(w, d, blocks, StepIfKept(w, d, blocks[0]));
  }

  /**
   Without the blocks that are expected to fail, the run ends with the same allocation, environment and
   head, and with the very same other blocks.
   */
  lemma {:induction false} Erasure(w: World, c: Chain, d: Chain, blocks: seq<Block>, end: Chain) returns (end': Chain)
    requires SameFront(c, d) && Run(w, c, blocks) == Some(end)
    ensures Erased(w, c, d, blocks, end, end')
    decreases |blocks|
  {
    if blocks == [] {
      end' := d;
      assert c.built[|c.built|..] == [] && d.built + [] == d.built;
    } else {
      var next := Step(w, c, blocks[0]).value;
      var _ := ErasureStep(w, c, d, blocks[0], next);
      end' := Erasure(w, next, StepIfKept(w, d, blocks[0]), blocks[1..], end);
      ErasedStep(w, c, d, blocks, next, end, end');
    }
  }

  /**
   So a chain that can be built can be built without its rejected blocks, unless it is a benchmark's and the
   last accepted block has not the expected gas. Only the last block's gas was checked, accepted or not.
   */
  lemma BuildErasure(w: World, pre: Alloc, genesis: Header, blocks: seq<Block>, end: Chain)
    requires Build(w, pre, genesis, blocks) == Some(end)
    ensures var kept, end' := KeptBuilt(end.built), Build(w, pre, genesis, Kept(blocks));
            if kept == [] || GasExpected(w, kept[|kept| - 1])
            then end'.Some? && SameFront(end, end'.value) && end'.value.built == kept && end'.value.invalid == 0
            else end'.None?
    ensures end.invalid == |blocks| - |Kept(blocks)|
  {
    var end' := ErasureFromStart(w, Start(w, pre, genesis), blocks, end);
    BuildOfRun(w, pre, genesis, Kept(blocks), end');
  }

  /**
   The whole test without its rejected blocks: it can be made exactly if the last accepted block has the gas
   that a benchmark expects and no exception was announced. Then it has the same head and post state, and
   the very same other blocks.
   */
  lemma FixtureErasure(w: World, pre: Alloc, genesis: Header, blocks: seq<Block>, fixture: Fixture)
    requires FixtureOf(w, pre, genesis, blocks) == Some(fixture)
    ensures var kept, erased := KeptBuilt(fixture.blocks), FixtureOf(w, pre, genesis, Kept(blocks));
            && (erased.Some? <==>
                  (kept == [] || GasExpected(w, kept[|kept| - 1])) && w.exceptionMarker != Some(true))
            && (erased.Some? ==> erased.value == fixture.(blocks := kept))
  {
    var end := Build(w, pre, genesis, blocks).value;
    BuildErasure(w, pre, genesis, blocks, end);
    ErasedChecks(w, pre, genesis, Kept(blocks), KeptBuilt(end.built), end, fixture);
  }

  /** The checks behind the loop, on the chain without rejected blocks. */
  lemma ErasedChecks(w: World, pre: Alloc, genesis: Header, blocks: seq<Block>, kept: seq<BuiltBlock>, end: Chain,
                     fixture: Fixture)
    requires fixture == Fixture(genesis, end.built, end.head, pre, end.alloc) && w.finalVerified(end.alloc)
    requires MarkerFits(w, end.invalid)
    requires var end' := Build(w, pre, genesis, blocks);
             if kept == [] || GasExpected(w, kept[|kept| - 1])
             then end'.Some? && SameFront(end, end'.value) && end'.value.built == kept && end'.value.invalid == 0
             else end'.None?
    ensures var erased := FixtureOf(w, pre, genesis, blocks);
            && (erased.Some? <==>
                  (kept == [] || GasExpected(w, kept[|kept| - 1])) && w.exceptionMarker != Some(true))
            && (erased.Some? ==> erased.value == fixture.(blocks := kept))
  {}

  lemma BuildOfRun(w: World, pre: Alloc, genesis: Header, blocks: seq<Block>, end: Chain)
    requires Run(w, Start(w, pre, genesis), blocks) == Some(end)
    ensures Build(w, pre, genesis, blocks) ==
            if end.built == [] || GasExpected(w, end.built[|end.built| - 1]) then Some(end) else None
  {}

  lemma ErasureFromStart(w: World, start: Chain, blocks: seq<Block>, end: Chain) returns (end': Chain)
    requires Run(w, start, blocks) == Some(end) && start.built == [] && start.invalid == 0
    ensures Run(w, start, Kept(blocks)) == Some(end') && SameFront(end, end')
    ensures end'.built == KeptBuilt(end.built) && end'.invalid == 0
    ensures end.invalid == |blocks| - |Kept(blocks)|
  {
    end' := Erasure(w, start, start, blocks, end);
    assert end.built[0..] == end.built && [] + KeptBuilt(end.built) == KeptBuilt(end.built);
  }

  /** The sync payload comes after the latest accepted header: the head exactly if it has the highest number. */
  lemma SyncPayloadExtends(w: World, pre: Alloc, genesis: Header, blocks: seq<Block>, end: Chain,
                           sync: BuiltBlock, j: nat)
    requires Produces(w, pre, genesis, blocks, end) && Generate(w, EMPTY_BLOCK, end.env, end.alloc) == Some(sync)
    requires var history := History(genesis, end.built); NumbersTold(w, history) && IsLatest(history, j)
    ensures LinksTo(w, History(genesis, end.built), j, EMPTY_BLOCK, sync.header)
    ensures sync.header.parentHash == end.head <==> LastIsHighest(History(genesis, end.built))
  {
    StartLinked(w, pre, genesis);
    RunLinked(w, genesis, Start(w, pre, genesis), blocks);
    GenerateLinks(w, genesis, end, EMPTY_BLOCK, sync, j);
    LatestIsLast(w, History(genesis, end.built), j);
  }

  // ---- What the environment carries along ----

  /**
   The environment of each block is the one made afresh from the last accepted header and the hashes of
   the accepted ones, exactly if no field marked as removed meets a value an accepted block left.
   */
  lemma EnvironmentIsFresh(w: World, pre: Alloc, genesis: Header, blocks: seq<Block>, end: Chain, k: nat)
    returns (c: Chain)
    requires Produces(w, pre, genesis, blocks, end) && k < |blocks|
    ensures Linked(w, genesis, c) && k < |end.built| && c.built == end.built[..k]
    ensures Generate(w, blocks[k], c.env, c.alloc) == Some(end.built[k])
    ensures var history := History(genesis, end.built[..k]);
            var made := FromParentHeader(w.fork, Last(history), c.head).(blockHashes := HashesOf(w, history));
            SetEnvironment(w.fork, blocks[k], c.env) == SetEnvironment(w.fork, blocks[k], made)
            <==> NothingCarried(blocks[k], c.env)
  {
    c := BlockInContext(w, pre, genesis, blocks, end, k);
    CarriedIsFresh(w.fork, blocks[k], c.env, Last(History(genesis, end.built[..k])), c.head);
  }

  /** A header has what its block asked for, and otherwise what follows from the parent and the tool. */
  ghost predicate HeaderAsAsked(w: World, b: Block, parent: Header, built: BuiltBlock) {
    var h := built.header;
    && h.gasUsed == built.gasUsed
    && h.gasLimit == (if b.gasLimit.Some? && b.gasLimit.value != 0 then b.gasLimit.value
                      else if parent.gasLimit != 0 then parent.gasLimit else w.fork.defaultGasLimit)
    && (b.baseFee.Given? ==> h.baseFee == Some(b.baseFee.value))
    && (b.excessBlobGas.Given? ==> h.excessBlobGas == Some(b.excessBlobGas.value))
    && h.blobGasUsed == w.blobGas(b.content, built.env)
    && (b.difficulty.Some? && !w.fork.zeroDifficulty(built.env.number, built.env.timestamp) ==>
          h.difficulty == b.difficulty.value)
    && (w.fork.zeroDifficulty(built.env.number, built.env.timestamp) ==> h.difficulty == 0)
  }

  /** What a block sets arrives in its header, if nothing modifies it. */
  lemma SettingsReachHeader(w: World, pre: Alloc, genesis: Header, blocks: seq<Block>, end: Chain, k: nat)
    requires Produces(w, pre, genesis, blocks, end) && k < |blocks| && blocks[k].modifier.None?
    ensures HeaderAsAsked(w, blocks[k], Last(History(genesis, end.built[..k])), end.built[k])
  {
    var c := BlockInContext(w, pre, genesis, blocks, end, k);
    GeneratedAsAsked(w, blocks[k], c.env, c.alloc, Last(History(genesis, end.built[..k])), end.built[k]);
  }

  lemma GeneratedAsAsked(w: World, b: Block, env: Environment, alloc: Alloc, parent: Header, built: BuiltBlock)
    requires Generate(w, b, env, alloc) == Some(built) && HasParent(env, parent) && b.modifier.None?
    ensures HeaderAsAsked(w, b, parent, built)
  {
    RequirementsAreMet(w.fork, SetEnvironment(w.fork, b, env).value);
  }

  /** What a field of the next environment is, when the accepted block before gave it a value. */
  predicate KeptValue<T(==)>(first: Field<T>, second: Field<T>, value: Option<T>) {
    first.Given? ==>
      (second.Removed? ==> value == Some(first.value)) && (second.Unset? ==> value == None)
  }

  /**
   After an accepted block with values of its own, a block that removes such a field still gets the value,
   and a block that leaves it alone gets none. So it is for all four fields that can be removed.
   */
  lemma RemovedFieldsKeepOldValues(f: Fork, env: Environment, first: Block, header: Header, hash: Hash, second: Block)
    requires env.parentTimestamp.Some?
    ensures SetEnvironment(f, first, env).Some?
    ensures var env1 := SetForkRequirements(f, SetEnvironment(f, first, env).value);
            var env2 := SetEnvironment(f, second, ApplyNewParent(env1, header, hash));
            && env2.Some?
            && KeptValue(first.baseFee, second.baseFee, env2.value.baseFee)
            && KeptValue(first.excessBlobGas, second.excessBlobGas, env2.value.excessBlobGas)
            && KeptValue(first.blobGasUsed, second.blobGasUsed, env2.value.blobGasUsed)
            && KeptValue(first.beaconRoot, second.beaconRoot, env2.value.beaconRoot)
  {
    RequirementsAreMet(f, SetEnvironment(f, first, env).value);
  }
}
