/**
 The chain a blockchain test builds: the loops of `make_fixture` and `make_hive_fixture` carry the
 allocation, the environment and the head. Rejected blocks are emitted but advance nothing.
 */
module Chains {
  import opened ByteStrings
  import opened Options
  import opened States
  import opened Headers
  import opened Environments

  /** What the transition tool returns for a block. */
  datatype Output = Output(
    alloc: Alloc,
    gasUsed: nat,
    ommersHash: Hash,
    difficulty: Option<nat>,
    baseFee: Option<nat>,
    excessBlobGas: Option<nat>,
    more: Bytes
  )

  /** The header fields that are made from the transactions and the tool's output. */
  datatype Rest = Rest(
    stateRoot: Hash,
    transactionsTrie: Hash,
    receiptsRoot: Hash,
    logsBloom: Bytes,
    extraData: Bytes,
    nonce: Bytes,
    withdrawalsRoot: Option<Hash>,
    requestsHash: Option<Hash>,
    accessListHash: Option<Hash>
  )

  /** A benchmark checks the gas of its last block, unless told not to, and needs a value to do so. */
  datatype GasCheck = Unchecked | Missing | Expected(gas: nat)

  /** The surroundings of a test: the deterministic transition tool, header hashing and the checks that raise. */
  datatype World = World(
    fork: Fork,
    transition: (Alloc, Bytes, Environment) -> Output,
    blobGas: (Bytes, Environment) -> Option<nat>,
    rest: (Bytes, Environment, Output) -> Rest,
    newAccessList: (Bytes, Output) -> Option<Hash>,
    hash: Header -> Hash,
    verified: (Block, Environment, Output, Header) -> bool,
    postVerified: (Block, Alloc) -> bool,
    finalVerified: Alloc -> bool,
    gasCheck: GasCheck,
    exceptionMarker: Option<bool>
  )

  datatype BuiltBlock = BuiltBlock(header: Header, env: Environment, alloc: Alloc, gasUsed: nat, block: Block)

  datatype Chain = Chain(alloc: Alloc, env: Environment, head: Hash, built: seq<BuiltBlock>, invalid: nat)

  /** `block_hash`: a header is hashed as its bytes. */
  ghost predicate HashesBytes(w: World, K: Keccak) {
    forall h {:trigger w.hash(h)} :: w.hash(h) == K(HeaderBytes(h))
  }

  /** The header before it is modified. What both the tool and the environment know, the environment decides. */
  function HeaderOf(w: World, b: Block, env: Environment, out: Output): Header {
    var rest := w.rest(b.content, env, out);
    Header(
      OrElse(ParentHash(env), ZERO_HASH),
      out.ommersHash,
      env.feeRecipient,
      rest.stateRoot,
      rest.transactionsTrie,
      rest.receiptsRoot,
      rest.logsBloom,
      OrElse(Or(env.difficulty, out.difficulty), 0),
      env.number,
      env.gasLimit,
      out.gasUsed,
      env.timestamp,
      rest.extraData,
      if env.prevRandao.Some? then ToFixedBE(env.prevRandao.value, 32) else ZERO_HASH,
      rest.nonce,
      Or(env.baseFee, out.baseFee),
      rest.withdrawalsRoot,
      w.blobGas(b.content, env),
      Or(env.excessBlobGas, out.excessBlobGas),
      env.beaconRoot,
      rest.requestsHash,
      rest.accessListHash)
  }

  /** The modifier comes first, and then the hash of an access list that is itself modified. */
  function FinalHeader(w: World, b: Block, out: Output, header: Header): Header {
    var modified := if b.modifier.Some? then ApplyModifier(b.modifier.value, header) else header;
    var list := w.newAccessList(b.content, out);
    if list.Some? then modified.(accessListHash := list) else modified
  }

  /** `generate_block_data`, but for the gas of a benchmark's last block; `None` where it raises. */
  function Generate(w: World, b: Block, previousEnv: Environment, previousAlloc: Alloc): Option<BuiltBlock> {
    var placed := SetEnvironment(w.fork, b, previousEnv);
    if placed.None? then None
    else
      var env := SetForkRequirements(w.fork, placed.value);
      var out := w.transition(previousAlloc, b.content, env);
      var header := FinalHeader(w, b, out, HeaderOf(w, b, env, out));
      if w.verified(b, env, out, header) then Some(BuiltBlock(header, env, out.alloc, out.gasUsed, b)) else None
  }

  predicate GasExpected(w: World, built: BuiltBlock) {
    w.gasCheck.Unchecked? || w.gasCheck == Expected(built.gasUsed)
  }

  function Start(w: World, pre: Alloc, genesis: Header): Chain {
    Chain(pre, FromParentHeader(w.fork, genesis, w.hash(genesis)), w.hash(genesis), [], 0)
  }

  /** A built block becomes part of the chain only if no exception is expected of it. */
  function Advance(w: World, c: Chain, built: BuiltBlock): Chain {
    if built.block.exception then c.(built := c.built + [built], invalid := c.invalid + 1)
    else Chain(built.alloc, ApplyNewParent(built.env, built.header, w.hash(built.header)), w.hash(built.header),
               c.built + [built], c.invalid)
  }

  function Step(w: World, c: Chain, b: Block): Option<Chain> {
    var built := Generate(w, b, c.env, c.alloc);
    if built.None? then None
    else
      var next := Advance(w, c, built.value);
      if w.postVerified(b, next.alloc) then Some(next) else None
  }

  function Run(w: World, c: Chain, blocks: seq<Block>): (r: Option<Chain>)
    ensures r.Some? ==> |r.value.built| == |c.built| + |blocks|
    decreases |blocks|
  {
    if blocks == [] then Some(c)
    else
      var next := Step(w, c, blocks[0]);
      if next.None? then None else Run(w, next.value, blocks[1..])
  }

  /** The whole loop: in a benchmark the last block's gas is checked, accepted or not. */
  function Build(w: World, pre: Alloc, genesis: Header, blocks: seq<Block>): (r: Option<Chain>)
    ensures r.Some? ==> |r.value.built| == |blocks|
  {
    var c := Run(w, Start(w, pre, genesis), blocks);
    if c.Some? && |c.value.built| > 0 && !GasExpected(w, c.value.built[|c.value.built| - 1]) then None else c
  }

  /** `check_exception_test`. */
  predicate MarkerFits(w: World, invalid: nat) {
    w.exceptionMarker.None? || w.exceptionMarker.value == (invalid > 0)
  }

  lemma RunUnfold(w: World, c: Chain, blocks: seq<Block>, i: nat)
    requires i < |blocks|
    ensures var next := Step(w, c, blocks[i]);
            Run(w, c, blocks[i..]) == if next.None? then None else Run(w, next.value, blocks[i + 1..])
  {}

  // ---- The two loops ----

  method GenerateBlockData(w: World, b: Block, previousEnv: Environment, previousAlloc: Alloc, lastBlock: bool)
    returns (r: Option<BuiltBlock>)
    ensures var g := Generate(w, b, previousEnv, previousAlloc);
            r == if g.Some? && lastBlock && !GasExpected(w, g.value) then None else g
  {
    var placed := SetEnvironment(w.fork, b, previousEnv);
    if placed.None? {
      return None;
    }
    var env := SetForkRequirements(w.fork, placed.value);
    var out := w.transition(previousAlloc, b.content, env);
    var header := HeaderOf(w, b, env, out);
    if lastBlock && !w.gasCheck.Unchecked? {
      if w.gasCheck.Missing? || out.gasUsed != w.gasCheck.gas {
        return None;
      }
    }
    if b.modifier.Some? {
      header := ApplyModifier(b.modifier.value, header);
    }
    var list := w.newAccessList(b.content, out);
    if list.Some? {
      header := header.(accessListHash := list);
    }
    if !w.verified(b, env, out, header) {
      return None;
    }
    return Some(BuiltBlock(header, env, out.alloc, out.gasUsed, b));
  }

  datatype Fixture = Fixture(
    genesis: Header,
    blocks: seq<BuiltBlock>,
    lastBlockHash: Hash,
    pre: Alloc,
    postState: Alloc
  )

  /** What the loop knows after `i` blocks. */
  ghost predicate Reached(w: World, pre: Alloc, genesis: Header, blocks: seq<Block>, i: nat, c: Chain) {
    && i <= |blocks| && |c.built| == i
    && Run(w, Start(w, pre, genesis), blocks) == Run(w, c, blocks[i..])
    && (0 < i == |blocks| ==> GasExpected(w, c.built[i - 1]))
  }

  lemma ReachedStart(w: World, pre: Alloc, genesis: Header, blocks: seq<Block>)
    ensures Reached(w, pre, genesis, blocks, 0, Start(w, pre, genesis))
  {
    assert blocks[0..] == blocks;
  }

  lemma ReachedNext(w: World, pre: Alloc, genesis: Header, blocks: seq<Block>, i: nat, c: Chain, built: BuiltBlock)
    requires i < |blocks| && Reached(w, pre, genesis, blocks, i, c)
    requires Generate(w, blocks[i], c.env, c.alloc) == Some(built)
    requires i == |blocks| - 1 ==> GasExpected(w, built)
    ensures w.postVerified(blocks[i], Advance(w, c, built).alloc) ==>
              Reached(w, pre, genesis, blocks, i + 1, Advance(w, c, built))
    ensures !w.postVerified(blocks[i], Advance(w, c, built).alloc) ==> Build(w, pre, genesis, blocks) == None
  {
    RunUnfold(w, c, blocks, i);
  }

  lemma ReachedNoNext(w: World, pre: Alloc, genesis: Header, blocks: seq<Block>, i: nat, c: Chain)
    requires i < |blocks| && Reached(w, pre, genesis, blocks, i, c)
    requires var built := Generate(w, blocks[i], c.env, c.alloc);
             built.None? || (i == |blocks| - 1 && !GasExpected(w, built.value))
    ensures Build(w, pre, genesis, blocks) == None
  {
    RunUnfold(w, c, blocks, i);
    assert blocks[|blocks|..] == [];
  }

  lemma ReachedEnd(w: World, pre: Alloc, genesis: Header, blocks: seq<Block>, c: Chain)
    requires Reached(w, pre, genesis, blocks, |blocks|, c)
    ensures Build(w, pre, genesis, blocks) == Some(c)
  {
    assert blocks[|blocks|..] == [];
  }

  /** What the test comes to: its chain, its exception marker and its post state must all be in order. */
  function FixtureOf(w: World, pre: Alloc, genesis: Header, blocks: seq<Block>): Option<Fixture> {
    var c := Build(w, pre, genesis, blocks);
    if c.None? || !MarkerFits(w, c.value.invalid) || !w.finalVerified(c.value.alloc) then None
    else Some(Fixture(genesis, c.value.built, c.value.head, pre, c.value.alloc))
  }

  /** `make_fixture`; `None` where it raises. */
  method MakeFixture(w: World, pre: Alloc, genesis: Header, blocks: seq<Block>) returns (r: Option<Fixture>)
    ensures r == FixtureOf(w, pre, genesis, blocks)
  {
    var alloc, env, head := pre, FromParentHeader(w.fork, genesis, w.hash(genesis)), w.hash(genesis);
    var fixtureBlocks: seq<BuiltBlock> := [];
    var invalidBlocks: nat := 0;
    ghost var c := Start(w, pre, genesis);
    ReachedStart(w, pre, genesis, blocks);
    for i := 0 to |blocks|
      invariant c == Chain(alloc, env, head, fixtureBlocks, invalidBlocks)
      invariant Reached(w, pre, genesis, blocks, i, c)
    {
      var builtBlock := GenerateBlockData(w, blocks[i], env, alloc, i == |blocks| - 1);
      if builtBlock.None? {
        ReachedNoNext(w, pre, genesis, blocks, i, c);
        return None;
      }
      ReachedNext(w, pre, genesis, blocks, i, c, builtBlock.value);
      fixtureBlocks := fixtureBlocks + [builtBlock.value];
      if !blocks[i].exception {
        alloc := builtBlock.value.alloc;
        env := ApplyNewParent(builtBlock.value.env, builtBlock.value.header, w.hash(builtBlock.value.header));
        head := w.hash(builtBlock.value.header);
      } else {
        invalidBlocks := invalidBlocks + 1;
      }
      c := Advance(w, c, builtBlock.value);
      if !w.postVerified(blocks[i], alloc) {
        return None;
      }
    }
    ReachedEnd(w, pre, genesis, blocks, c);
    if !MarkerFits(w, invalidBlocks) || !w.finalVerified(alloc) {
      return None;
    }
    return Some(Fixture(genesis, fixtureBlocks, head, pre, alloc));
  }

  datatype HiveFixture = HiveFixture(
    genesis: Header,
    payloads: seq<BuiltBlock>,
    lastBlockHash: Hash,
    postState: Alloc,
    forkchoiceVersion: nat,
    syncPayload: Option<BuiltBlock>
  )

  /** `Block()`. */
  const EMPTY_BLOCK := Block(None, None, None, None, None, None, Unset, Unset, Unset, Unset, None, None, false, [])

  /**
   The chain, marker and post state are in order, the last block has a forkchoice update, and a sync test
   has a head other than the genesis.
   */
  predicate HiveSucceeds(w: World, pre: Alloc, genesis: Header, blocks: seq<Block>, sync: bool) {
    && blocks != []
    && Build(w, pre, genesis, blocks).Some?
    && var c := Build(w, pre, genesis, blocks).value;
    var last := c.built[|blocks| - 1].header;
    && MarkerFits(w, c.invalid)
    && w.fork.forkchoiceVersion(last.number, last.timestamp).Some?
    && w.finalVerified(c.alloc)
    && (sync ==> w.hash(genesis) != c.head && Generate(w, EMPTY_BLOCK, c.env, c.alloc).Some?)
  }

  /** `make_hive_fixture`; `None` where it raises, as it does for a test without blocks. */
  method MakeHiveFixture(w: World, pre: Alloc, genesis: Header, blocks: seq<Block>, sync: bool)
    returns (r: Option<HiveFixture>)
    ensures r.Some? <==> HiveSucceeds(w, pre, genesis, blocks, sync)
    ensures r.Some? ==>
              var c := Build(w, pre, genesis, blocks).value;
              && r.value.genesis == genesis && r.value.payloads == c.built
              && r.value.lastBlockHash == c.head && r.value.postState == c.alloc
              && r.value.syncPayload == (if sync then Generate(w, EMPTY_BLOCK, c.env, c.alloc) else None)
  {
    var alloc, env, head := pre, FromParentHeader(w.fork, genesis, w.hash(genesis)), w.hash(genesis);
    var payloads: seq<BuiltBlock> := [];
    var invalidBlocks: nat := 0;
    ghost var c := Start(w, pre, genesis);
    ReachedStart(w, pre, genesis, blocks);
    for i := 0 to |blocks|
      invariant c == Chain(alloc, env, head, payloads, invalidBlocks)
      invariant Reached(w, pre, genesis, blocks, i, c)
    {
      var builtBlock := GenerateBlockData(w, blocks[i], env, alloc, i == |blocks| - 1);
      if builtBlock.None? {
        ReachedNoNext(w, pre, genesis, blocks, i, c);
        return None;
      }
      ReachedNext(w, pre, genesis, blocks, i, c, builtBlock.value);
      payloads := payloads + [builtBlock.value];
      if !blocks[i].exception {
        alloc := builtBlock.value.alloc;
        env := ApplyNewParent(builtBlock.value.env, builtBlock.value.header, w.hash(builtBlock.value.header));
        head := w.hash(builtBlock.value.header);
      } else {
        invalidBlocks := invalidBlocks + 1;
      }
      c := Advance(w, c, builtBlock.value);
      if !w.postVerified(blocks[i], alloc) {
        return None;
      }
    }
    ReachedEnd(w, pre, genesis, blocks, c);
    if |blocks| == 0 || !MarkerFits(w, invalidBlocks) {
      return None;
    }
    var last := payloads[|payloads| - 1].header;
    var version := w.fork.forkchoiceVersion(last.number, last.timestamp);
    if version.None? || !w.finalVerified(alloc) {
      return None;
    }
    if !sync {
      return Some(HiveFixture(genesis, payloads, head, alloc, version.value, None));
    }
    if w.hash(genesis) == head {
      return None;
    }
    var syncBuilt := GenerateBlockData(w, EMPTY_BLOCK, env, alloc, false);
    if syncBuilt.None? {
      return None;
    }
    return Some(HiveFixture(genesis, payloads, head, alloc, version.value, syncBuilt));
  }
}
