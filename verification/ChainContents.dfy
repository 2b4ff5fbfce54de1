/**
 What a test that is made consists of, said of its blocks one by one and of nothing that makes them: which
 environment the transition tool saw, where each field of each header comes from, and what must be in order.
 */
module ChainContents {
  import opened ByteStrings
  import opened Options
  import opened States
  import opened Headers
  import opened Environments
  import opened Chains
  import opened ChainLinks

  // ---- What the tool sees ----

  /** A setting that can be removed: given, or what was there before if it is removed, or a default if it is needed. */
  ghost predicate Setting<T>(seen: Option<T>, field: Field<T>, before: Option<T>, needed: bool, default: T) {
    if field.Given? then seen == Some(field.value)
    else if field.Removed? && before.Some? then seen == before
    else if needed then seen == Some(default)
    else seen == None
  }

  function BaseFeeBefore(before: Option<Environment>): Option<nat> {
    if before.Some? then before.value.baseFee else None
  }

  function ExcessBefore(before: Option<Environment>): Option<nat> {
    if before.Some? then before.value.excessBlobGas else None
  }

  function BlobGasBefore(before: Option<Environment>): Option<nat> {
    if before.Some? then before.value.blobGasUsed else None
  }

  function BeaconRootBefore(before: Option<Environment>): Option<Hash> {
    if before.Some? then before.value.beaconRoot else None
  }

  /** The last accepted header, as the tool sees it. */
  ghost predicate SeesParent(parent: Header, hashes: map<nat, Hash>, env: Environment) {
    && env.parentDifficulty == Some(parent.difficulty) && env.parentTimestamp == Some(parent.timestamp)
    && env.parentBaseFee == parent.baseFee && env.parentBlobGasUsed == parent.blobGasUsed
    && env.parentExcessBlobGas == parent.excessBlobGas && env.parentGasUsed == Some(parent.gasUsed)
    && env.parentGasLimit == Some(parent.gasLimit) && env.parentOmmersHash == parent.ommersHash
    && env.blockHashes == hashes
  }

  /** The number and the timestamp: those of the block, or those that come next. */
  ghost predicate SeesPlace(b: Block, parent: Header, hashes: map<nat, Hash>, env: Environment) {
    && (b.number.Some? ==> env.number == b.number.value)
    && (b.number.None? ==> env.number >= 1 && env.number - 1 in hashes && forall n :: n in hashes ==> n < env.number)
    && (b.timestamp.Some? ==> env.timestamp == b.timestamp.value)
    && (b.timestamp.None? ==> env.timestamp == parent.timestamp + 12)
  }

  /** The settings of the block, with the values of the fork where it demands one. */
  ghost predicate SeesSettings(f: Fork, n: nat, t: nat, b: Block, parent: Header, before: Option<Environment>,
                               env: Environment) {
    && env.feeRecipient == (if b.feeRecipient.Some? then b.feeRecipient.value else f.defaultFeeRecipient)
    && env.gasLimit == (if b.gasLimit.Some? && b.gasLimit.value != 0 then b.gasLimit.value
                        else if parent.gasLimit != 0 then parent.gasLimit else f.defaultGasLimit)
    && env.difficulty == (if f.zeroDifficulty(n, t) then Some(0) else b.difficulty)
    && env.prevRandao == (if b.prevRandao.None? && f.prevRandao(n, t) then Some(0) else b.prevRandao)
    && env.withdrawals == (if b.withdrawals.None? && f.withdrawals(n, t) then Some([]) else b.withdrawals)
    && Setting(env.baseFee, b.baseFee, BaseFeeBefore(before), f.baseFee(n, t) && parent.baseFee.None?, 7)
    && Setting(env.excessBlobGas, b.excessBlobGas, ExcessBefore(before),
               f.excessBlobGas(n, t) && parent.excessBlobGas.None?, 0)
    && Setting(env.blobGasUsed, b.blobGasUsed, BlobGasBefore(before),
               f.blobGasUsed(n, t) && parent.blobGasUsed.None?, 0)
    && Setting(env.beaconRoot, b.beaconRoot, BeaconRootBefore(before), f.beaconRoot(n, t), ZERO_HASH)
  }

  ghost predicate Sees(f: Fork, b: Block, parent: Header, hashes: map<nat, Hash>, before: Option<Environment>,
                       env: Environment) {
    && SeesParent(parent, hashes, env) && SeesPlace(b, parent, hashes, env)
    && SeesSettings(f, env.number, env.timestamp, b, parent, before, env)
  }

  // ---- The header ----

  /** A field is that of the modifier, if it has one. */
  ghost predicate Fixed<T>(field: T, given: Option<T>, otherwise: T) {
    field == if given.Some? then given.value else otherwise
  }

  /** A field that need not be there can also be taken away. */
  ghost predicate Optional<T>(field: Option<T>, given: Field<T>, otherwise: Option<T>) {
    if given.Given? then field == Some(given.value) else if given.Removed? then field == None else field == otherwise
  }

  const NO_MODIFIER := Modifier(
    None, None, None, None, None, None, None, None, None, None, None, None, None, None, None,
    Unset, Unset, Unset, Unset, Unset, Unset)

  function ModifierOf(b: Block): Modifier {
    if b.modifier.Some? then b.modifier.value else NO_MODIFIER
  }

  /** The hash of the block with the highest number. */
  ghost predicate IsHighest(hashes: map<nat, Hash>, hash: Hash) {
    exists n :: n in hashes && hashes[n] == hash && forall k :: k in hashes ==> k <= n
  }

  /** The fields that come from the environment alone, or from it before the tool. */
  ghost predicate HeaderOfEnvironment(m: Modifier, env: Environment, out: Output, h: Header) {
    && (if m.parentHash.Some? then h.parentHash == m.parentHash.value else IsHighest(env.blockHashes, h.parentHash))
    && Fixed(h.feeRecipient, m.feeRecipient, env.feeRecipient)
    && Fixed(h.number, m.number, env.number)
    && Fixed(h.gasLimit, m.gasLimit, env.gasLimit)
    && Fixed(h.timestamp, m.timestamp, env.timestamp)
    && (if m.prevRandao.Some? then h.prevRandao == m.prevRandao.value
        else if env.prevRandao.Some? then h.prevRandao == ToFixedBE(env.prevRandao.value, 32)
        else forall k :: 0 <= k < 32 ==> h.prevRandao[k] == 0)
    && Fixed(h.difficulty, m.difficulty,
             if env.difficulty.Some? then env.difficulty.value
             else if out.difficulty.Some? then out.difficulty.value else 0)
    && Optional(h.baseFee, m.baseFee, if env.baseFee.Some? then env.baseFee else out.baseFee)
    && Optional(h.excessBlobGas, m.excessBlobGas,
                if env.excessBlobGas.Some? then env.excessBlobGas else out.excessBlobGas)
    && Optional(h.beaconRoot, m.beaconRoot, env.beaconRoot)
  }

  /** The fields that come from the tool and the transactions. */
  ghost predicate HeaderOfOutput(m: Modifier, out: Output, rest: Rest, blobGas: Option<nat>, list: Option<Hash>,
                                 h: Header) {
    && Fixed(h.ommersHash, m.ommersHash, out.ommersHash)
    && Fixed(h.gasUsed, m.gasUsed, out.gasUsed)
    && Fixed(h.stateRoot, m.stateRoot, rest.stateRoot)
    && Fixed(h.transactionsTrie, m.transactionsTrie, rest.transactionsTrie)
    && Fixed(h.receiptsRoot, m.receiptsRoot, rest.receiptsRoot)
    && Fixed(h.logsBloom, m.logsBloom, rest.logsBloom)
    && Fixed(h.extraData, m.extraData, rest.extraData)
    && Fixed(h.nonce, m.nonce, rest.nonce)
    && Optional(h.withdrawalsRoot, m.withdrawalsRoot, rest.withdrawalsRoot)
    && Optional(h.blobGasUsed, m.blobGasUsed, blobGas)
    && Optional(h.requestsHash, m.requestsHash, rest.requestsHash)
    && h.accessListHash == (if list.Some? then list else rest.accessListHash)
  }

  ghost predicate HeaderSays(w: World, b: Block, env: Environment, out: Output, h: Header) {
    && HeaderOfEnvironment(ModifierOf(b), env, out, h)
    && HeaderOfOutput(ModifierOf(b), out, w.rest(b.content, env, out), w.blobGas(b.content, env),
                      w.newAccessList(b.content, out), h)
  }

  /** A block as it is built after these accepted headers, from this allocation. */
  ghost predicate Built(w: World, b: Block, parent: Header, hashes: map<nat, Hash>, before: Option<Environment>,
                        alloc: Alloc, x: BuiltBlock) {
    Sees(w.fork, b, parent, hashes, before, x.env) && BuiltWith(w, b, w.transition(alloc, b.content, x.env), x)
  }

  ghost predicate BuiltWith(w: World, b: Block, out: Output, x: BuiltBlock) {
    && HeaderSays(w, b, x.env, out, x.header)
    && x.alloc == out.alloc && x.gasUsed == out.gasUsed && x.block == b && w.verified(b, x.env, out, x.header)
  }

  // ---- One block ----

  /** What the loop carries in its environment, beside the parent and the hashes. */
  ghost predicate Carries(env: Environment, before: Option<Environment>) {
    && env.baseFee == BaseFeeBefore(before) && env.excessBlobGas == ExcessBefore(before)
    && env.blobGasUsed == BlobGasBefore(before) && env.beaconRoot == BeaconRootBefore(before)
  }

  lemma PlacedSees(f: Fork, b: Block, env: Environment, parent: Header, before: Option<Environment>)
    returns (next: Environment)
    requires HasParent(env, parent) && Carries(env, before) && env.blockHashes != map[]
    ensures SetEnvironment(f, b, env).Some? && next == SetForkRequirements(f, SetEnvironment(f, b, env).value)
    ensures Sees(f, b, parent, env.blockHashes, before, next)
  {
    next := SetForkRequirements(f, SetEnvironment(f, b, env).value);
    assert forall n :: n in env.blockHashes ==> n <= MaxKey(env.blockHashes);
    assert SeesPlace(b, parent, env.blockHashes, next);
    assert SeesSettings(f, next.number, next.timestamp, b, parent, before, next);
  }

  lemma SeesOne(f: Fork, b: Block, parent: Header, hashes: map<nat, Hash>, before: Option<Environment>,
                x: Environment, y: Environment)
    requires Sees(f, b, parent, hashes, before, x) && Sees(f, b, parent, hashes, before, y)
    ensures x == y
  {
    assert x.number == y.number && x.timestamp == y.timestamp;
  }

  lemma HeaderIs(w: World, b: Block, env: Environment, out: Output)
    requires env.blockHashes != map[]
    ensures HeaderSays(w, b, env, out, FinalHeader(w, b, out, HeaderOf(w, b, env, out)))
  {
    var h := FinalHeader(w, b, out, HeaderOf(w, b, env, out));
    assert HeaderOfOutput(ModifierOf(b), out, w.rest(b.content, env, out), w.blobGas(b.content, env),
                          w.newAccessList(b.content, out), h);
    assert b.modifier.None? || b.modifier.value.parentHash.None? ==> IsHighest(env.blockHashes, h.parentHash);
  }

  lemma HeaderIsOne(w: World, b: Block, env: Environment, out: Output, h: Header, g: Header)
    requires HeaderSays(w, b, env, out, h) && HeaderSays(w, b, env, out, g)
    ensures h == g
  {}

  /** `generate_block_data` makes such a block, and raises exactly if there is none. */
  lemma GenerateExactly(w: World, b: Block, env: Environment, alloc: Alloc, parent: Header,
                        before: Option<Environment>, x: BuiltBlock)
    requires HasParent(env, parent) && Carries(env, before) && env.blockHashes != map[]
    ensures Generate(w, b, env, alloc) == Some(x) <==> Built(w, b, parent, env.blockHashes, before, alloc, x)
  {
    var next := PlacedSees(w.fork, b, env, parent, before);
    var out := w.transition(alloc, b.content, next);
    var h := FinalHeader(w, b, out, HeaderOf(w, b, next, out));
    HeaderIs(w, b, next, out);
    if Built(w, b, parent, env.blockHashes, before, alloc, x) {
      SeesOne(w.fork, b, parent, env.blockHashes, before, next, x.env);
      HeaderIsOne(w, b, next, out, h, x.header);
    }
  }

  // ---- The blocks of a test, one after another ----

  /** The last block that no exception is expected of. */
  function LastAccepted(built: seq<BuiltBlock>): Option<BuiltBlock> {
    if built == [] then None
    else if built[|built| - 1].block.exception then LastAccepted(built[..|built| - 1])
    else Some(built[|built| - 1])
  }

  function AllocAfter(pre: Alloc, built: seq<BuiltBlock>): Alloc {
    if LastAccepted(built).None? then pre else LastAccepted(built).value.alloc
  }

  function EnvironmentBefore(built: seq<BuiltBlock>): Option<Environment> {
    if LastAccepted(built).None? then None else Some(LastAccepted(built).value.env)
  }

  /** Block `x` comes after `before`: it is built on what the accepted ones left, and what is there then is in order. */
  ghost predicate Fits(w: World, pre: Alloc, genesis: Header, before: seq<BuiltBlock>, b: Block, x: BuiltBlock) {
    var history := History(genesis, before);
    && Built(w, b, Last(history), HashesOf(w, history), EnvironmentBefore(before), AllocAfter(pre, before), x)
    && w.postVerified(b, AllocAfter(pre, before + [x]))
  }

  ghost predicate FitsAt(w: World, pre: Alloc, genesis: Header, blocks: seq<Block>, built: seq<BuiltBlock>, k: nat)
    requires k < |blocks| && k < |built|
  {
    Fits(w, pre, genesis, built[..k], blocks[k], built[k])
  }

  // ---- What the loop carries is a function of the blocks built ----

  function EnvironmentAfter(w: World, genesis: Header, built: seq<BuiltBlock>): Environment {
    if built == [] then FromParentHeader(w.fork, genesis, w.hash(genesis))
    else
      var front, last := built[..|built| - 1], built[|built| - 1];
      if last.block.exception then EnvironmentAfter(w, genesis, front)
      else ApplyNewParent(last.env, last.header, w.hash(last.header))
  }

  function Rejected(built: seq<BuiltBlock>): nat {
    if built == [] then 0
    else Rejected(built[..|built| - 1]) + if built[|built| - 1].block.exception then 1 else 0
  }

  function ChainAfter(w: World, pre: Alloc, genesis: Header, built: seq<BuiltBlock>): Chain {
    Chain(AllocAfter(pre, built), EnvironmentAfter(w, genesis, built), w.hash(Last(History(genesis, built))), built,
          Rejected(built))
  }

  lemma ChainAfterMore(w: World, pre: Alloc, genesis: Header, before: seq<BuiltBlock>, x: BuiltBlock)
    ensures ChainAfter(w, pre, genesis, before + [x]) == Advance(w, ChainAfter(w, pre, genesis, before), x)
  {
    assert (before + [x])[..|before|] == before;
    HistoryAppend(genesis, before, x);
  }

  /** The environment that is carried holds the parent, the hashes of the accepted headers and the last settings. */
  ghost predicate CarriedRight(w: World, genesis: Header, before: seq<BuiltBlock>) {
    var env, history := EnvironmentAfter(w, genesis, before), History(genesis, before);
    && HasParent(env, Last(history)) && Carries(env, EnvironmentBefore(before))
    && env.blockHashes == HashesOf(w, history) && env.blockHashes != map[]
  }

  lemma CarriedAtStart(w: World, genesis: Header)
    ensures CarriedRight(w, genesis, [])
  {
    assert [genesis][..0] == [];
    assert genesis.number in HashesOf(w, [genesis]);
  }

  lemma CarriedOn(w: World, pre: Alloc, genesis: Header, before: seq<BuiltBlock>, b: Block, x: BuiltBlock)
    requires CarriedRight(w, genesis, before) && Fits(w, pre, genesis, before, b, x)
    ensures CarriedRight(w, genesis, before + [x])
  {
    var after := before + [x];
    assert after[..|before|] == before && after[|before|] == x;
    HistoryAppend(genesis, before, x);
    if !x.block.exception {
      HashesAppend(w, History(genesis, before), x.header);
      assert x.header.number in HashesOf(w, History(genesis, after));
    }
  }

  /** One round of the loop. */
  lemma StepExactly(w: World, pre: Alloc, genesis: Header, before: seq<BuiltBlock>, b: Block, x: BuiltBlock)
    requires CarriedRight(w, genesis, before)
    ensures Step(w, ChainAfter(w, pre, genesis, before), b) == Some(ChainAfter(w, pre, genesis, before + [x])) <==>
            Fits(w, pre, genesis, before, b, x)
  {
    var c, history := ChainAfter(w, pre, genesis, before), History(genesis, before);
    GenerateExactly(w, b, c.env, c.alloc, Last(history), EnvironmentBefore(before), x);
    ChainAfterMore(w, pre, genesis, before, x);
    StepIs(w, c, b, x, ChainAfter(w, pre, genesis, before + [x]));
  }

  lemma StepIs(w: World, c: Chain, b: Block, x: BuiltBlock, next: Chain)
    requires next == Advance(w, c, x)
    ensures Step(w, c, b) == Some(next) <==> Generate(w, b, c.env, c.alloc) == Some(x) && w.postVerified(b, next.alloc)
  {
    if Step(w, c, b) == Some(next) {
      var y := Generate(w, b, c.env, c.alloc).value;
      assert next.built == c.built + [y] && next.built[|c.built|] == y && (c.built + [x])[|c.built|] == x;
    }
  }

  lemma StepSome(w: World, c: Chain, b: Block) returns (x: BuiltBlock)
    requires Step(w, c, b).Some?
    ensures Step(w, c, b) == Some(Advance(w, c, x))
  {
    x := Generate(w, b, c.env, c.alloc).value;
  }

  /** The blocks built behind the first `n` fit, one after another. */
  ghost predicate FitsRest(w: World, pre: Alloc, genesis: Header, built: seq<BuiltBlock>, n: nat, blocks: seq<Block>) {
    && |built| == n + |blocks|
    && forall k :: 0 <= k < |blocks| ==> Fits(w, pre, genesis, built[..n + k], blocks[k], built[n + k])
  }

  lemma FitsRestMore(w: World, pre: Alloc, genesis: Header, built: seq<BuiltBlock>, n: nat, blocks: seq<Block>)
    requires blocks != [] && n < |built| && FitsRest(w, pre, genesis, built, n + 1, blocks[1..])
    requires Fits(w, pre, genesis, built[..n], blocks[0], built[n])
    ensures FitsRest(w, pre, genesis, built, n, blocks)
  {
    forall k | 0 <= k < |blocks| ensures Fits(w, pre, genesis, built[..n + k], blocks[k], built[n + k]) {
      if k > 0 {
        var i := k - 1;
        assert Fits(w, pre, genesis, built[..n + 1 + i], blocks[1..][i], built[n + 1 + i]);
      }
    }
  }

  /** A run that ends has blocks that fit. */
  lemma {:induction false} RunFits(w: World, pre: Alloc, genesis: Header, before: seq<BuiltBlock>, blocks: seq<Block>,
                                   end: Chain)
    requires CarriedRight(w, genesis, before)
    requires Run(w, ChainAfter(w, pre, genesis, before), blocks) == Some(end)
    ensures before <= end.built && end == ChainAfter(w, pre, genesis, end.built)
    ensures FitsRest(w, pre, genesis, end.built, |before|, blocks)
    decreases |blocks|
  {
    if blocks != [] {
      var x := FirstStep(w, pre, genesis, before, blocks, end);
      var after := before + [x];
      RunFits(w, pre, genesis, after, blocks[1..], end);
      assert end.built[..|before|] == after[..|before|] == before && end.built[|before|] == after[|before|] == x;
      FitsRestMore(w, pre, genesis, end.built, |before|, blocks);
    }
  }

  lemma FirstStep(w: World, pre: Alloc, genesis: Header, before: seq<BuiltBlock>, blocks: seq<Block>, end: Chain)
    returns (x: BuiltBlock)
    requires CarriedRight(w, genesis, before) && blocks != []
    requires Run(w, ChainAfter(w, pre, genesis, before), blocks) == Some(end)
    ensures Fits(w, pre, genesis, before, blocks[0], x) && CarriedRight(w, genesis, before + [x])
    ensures Run(w, ChainAfter(w, pre, genesis, before + [x]), blocks[1..]) == Some(end)
  {
    x := StepSome(w, ChainAfter(w, pre, genesis, before), blocks[0]);
    ChainAfterMore(w, pre, genesis, before, x);
    StepExactly(w, pre, genesis, before, blocks[0], x);
    CarriedOn(w, pre, genesis, before, blocks[0], x);
  }

  /** Blocks that fit are a run. */
  lemma {:induction false} FitsRuns(w: World, pre: Alloc, genesis: Header, blocks: seq<Block>, built: seq<BuiltBlock>,
                                    n: nat)
    requires n <= |blocks| == |built| && CarriedRight(w, genesis, built[..n])
    requires forall k :: n <= k < |blocks| ==> FitsAt(w, pre, genesis, blocks, built, k)
    ensures Run(w, ChainAfter(w, pre, genesis, built[..n]), blocks[n..]) == Some(ChainAfter(w, pre, genesis, built))
    decreases |blocks| - n
  {
    if n == |blocks| {
      assert built[..n] == built;
    } else {
      var before, x := built[..n], built[n];
      assert FitsAt(w, pre, genesis, blocks, built, n);
      assert built[..n + 1] == before + [x];
      StepExactly(w, pre, genesis, before, blocks[n], x);
      CarriedOn(w, pre, genesis, before, blocks[n], x);
      FitsRuns(w, pre, genesis, blocks, built, n + 1);
      RunUnfold(w, ChainAfter(w, pre, genesis, before), blocks, n);
    }
  }

  lemma {:induction false} RejectedSome(built: seq<BuiltBlock>)
    ensures Rejected(built) > 0 <==> exists k :: 0 <= k < |built| && built[k].block.exception
  {
    if built != [] {
      var front := built[..|built| - 1];
      RejectedSome(front);
      if Rejected(front) > 0 {
        var k :| 0 <= k < |front| && front[k].block.exception;
        assert built[k].block.exception;
      }
    }
  }

  // ---- The whole test ----

  /** All that a fixture says, and all that must be in order for it to be made. */
  ghost predicate IsFixture(w: World, pre: Alloc, genesis: Header, blocks: seq<Block>, fixture: Fixture) {
    && fixture.genesis == genesis && fixture.pre == pre && |fixture.blocks| == |blocks|
    && (forall k :: 0 <= k < |blocks| ==> FitsAt(w, pre, genesis, blocks, fixture.blocks, k))
    && fixture.lastBlockHash == w.hash(Last(History(genesis, fixture.blocks)))
    && fixture.postState == AllocAfter(pre, fixture.blocks) && w.finalVerified(fixture.postState)
    && (w.exceptionMarker == Some(true) ==> exists k :: 0 <= k < |blocks| && blocks[k].exception)
    && (w.exceptionMarker == Some(false) ==> forall k :: 0 <= k < |blocks| ==> !blocks[k].exception)
    && (blocks != [] ==>
          w.gasCheck == Unchecked || w.gasCheck == Expected(fixture.blocks[|blocks| - 1].gasUsed))
  }

  lemma BuildExactly(w: World, pre: Alloc, genesis: Header, blocks: seq<Block>, built: seq<BuiltBlock>)
    requires |built| == |blocks|
    ensures Run(w, Start(w, pre, genesis), blocks) == Some(ChainAfter(w, pre, genesis, built)) <==>
            forall k :: 0 <= k < |blocks| ==> FitsAt(w, pre, genesis, blocks, built, k)
  {
    CarriedAtStart(w, genesis);
    assert Start(w, pre, genesis) == ChainAfter(w, pre, genesis, []);
    assert built[..0] == [] && blocks[0..] == blocks;
    if Run(w, Start(w, pre, genesis), blocks) == Some(ChainAfter(w, pre, genesis, built)) {
      RunFits(w, pre, genesis, [], blocks, ChainAfter(w, pre, genesis, built));
      assert FitsRest(w, pre, genesis, built, 0, blocks);
      forall k | 0 <= k < |blocks| ensures FitsAt(w, pre, genesis, blocks, built, k) {
        assert Fits(w, pre, genesis, built[..0 + k], blocks[k], built[0 + k]);
      }
    } else if forall k :: 0 <= k < |blocks| ==> FitsAt(w, pre, genesis, blocks, built, k) {
      FitsRuns(w, pre, genesis, blocks, built, 0);
    }
  }

  lemma BlocksAre(w: World, pre: Alloc, genesis: Header, blocks: seq<Block>, built: seq<BuiltBlock>)
    requires |built| == |blocks| && forall k :: 0 <= k < |blocks| ==> FitsAt(w, pre, genesis, blocks, built, k)
    ensures Rejected(built) > 0 <==> exists k :: 0 <= k < |blocks| && blocks[k].exception
  {
    RejectedSome(built);
    forall k | 0 <= k < |blocks| ensures built[k].block == blocks[k] {
      assert FitsAt(w, pre, genesis, blocks, built, k);
    }
    if k :| 0 <= k < |blocks| && blocks[k].exception {
      assert built[k].block.exception;
    }
  }

  /** What was run from the start is what fits. */
  lemma RunIs(w: World, pre: Alloc, genesis: Header, blocks: seq<Block>, end: Chain)
    requires Run(w, Start(w, pre, genesis), blocks) == Some(end)
    ensures |end.built| == |blocks| && end == ChainAfter(w, pre, genesis, end.built)
    ensures forall k :: 0 <= k < |blocks| ==> FitsAt(w, pre, genesis, blocks, end.built, k)
  {
    CarriedAtStart(w, genesis);
    assert Start(w, pre, genesis) == ChainAfter(w, pre, genesis, []);
    RunFits(w, pre, genesis, [], blocks, end);
    BuildExactly(w, pre, genesis, blocks, end.built);
  }

  /** The checks behind the loop. */
  lemma ChecksExactly(w: World, blocks: seq<Block>, c: Chain)
    requires |c.built| == |blocks|
    requires c.invalid > 0 <==> exists k :: 0 <= k < |blocks| && blocks[k].exception
    ensures MarkerFits(w, c.invalid) <==>
            && (w.exceptionMarker == Some(true) ==> exists k :: 0 <= k < |blocks| && blocks[k].exception)
            && (w.exceptionMarker == Some(false) ==> forall k :: 0 <= k < |blocks| ==> !blocks[k].exception)
    ensures blocks != [] ==>
              (GasExpected(w, c.built[|blocks| - 1]) <==>
               w.gasCheck == Unchecked || w.gasCheck == Expected(c.built[|blocks| - 1].gasUsed))
  {
    if k :| 0 <= k < |blocks| && blocks[k].exception {
      assert c.invalid > 0;
    }
  }

  /**
   `make_fixture` makes exactly the fixtures of which all this holds, so it raises exactly if there is none: every
   header field, every environment the tool saw, the head, the post state and all checks are as they are said to be.
   */
  lemma FixtureExactly(w: World, pre: Alloc, genesis: Header, blocks: seq<Block>, fixture: Fixture)
    ensures FixtureOf(w, pre, genesis, blocks) == Some(fixture) <==> IsFixture(w, pre, genesis, blocks, fixture)
  {
    if FixtureOf(w, pre, genesis, blocks) == Some(fixture) {
      var c := Build(w, pre, genesis, blocks).value;
      RunIs(w, pre, genesis, blocks, c);
      BlocksAre(w, pre, genesis, blocks, c.built);
      ChecksExactly(w, blocks, c);
    } else if IsFixture(w, pre, genesis, blocks, fixture) {
      var c := ChainAfter(w, pre, genesis, fixture.blocks);
      BuildExactly(w, pre, genesis, blocks, fixture.blocks);
      BlocksAre(w, pre, genesis, blocks, fixture.blocks);
      ChecksExactly(w, blocks, c);
    }
  }

  /** A block that follows a fixture, as the sync payload does. */
  ghost predicate Follows(w: World, b: Block, fixture: Fixture, x: BuiltBlock) {
    var history := History(fixture.genesis, fixture.blocks);
    Built(w, b, Last(history), HashesOf(w, history), EnvironmentBefore(fixture.blocks), fixture.postState, x)
  }

  /** `make_hive_fixture` makes the same, for tests that have blocks, a forkchoice version and, to sync, a new head. */
  lemma HiveExactly(w: World, pre: Alloc, genesis: Header, blocks: seq<Block>, sync: bool)
    ensures HiveSucceeds(w, pre, genesis, blocks, sync) <==>
            && blocks != []
            && exists fixture ::
                 && IsFixture(w, pre, genesis, blocks, fixture)
                 && HiveFits(w, fixture, sync)
  {
    if HiveSucceeds(w, pre, genesis, blocks, sync) {
      var fixture := FixtureOf(w, pre, genesis, blocks).value;
      FixtureExactly(w, pre, genesis, blocks, fixture);
      HiveFitsExactly(w, pre, genesis, blocks, fixture, sync);
    }
    if blocks != [] {
      forall fixture | IsFixture(w, pre, genesis, blocks, fixture) && HiveFits(w, fixture, sync)
        ensures HiveSucceeds(w, pre, genesis, blocks, sync)
      {
        FixtureExactly(w, pre, genesis, blocks, fixture);
        HiveFitsExactly(w, pre, genesis, blocks, fixture, sync);
      }
    }
  }

  ghost predicate HiveFits(w: World, fixture: Fixture, sync: bool) {
    && fixture.blocks != []
    && var last := fixture.blocks[|fixture.blocks| - 1].header;
    && w.fork.forkchoiceVersion(last.number, last.timestamp).Some?
    && (sync ==> w.hash(fixture.genesis) != fixture.lastBlockHash && exists x :: Follows(w, EMPTY_BLOCK, fixture, x))
  }

  /** What follows a fixture is what is generated from the end of its chain. */
  lemma FollowsExactly(w: World, pre: Alloc, genesis: Header, blocks: seq<Block>, fixture: Fixture, b: Block,
                       x: BuiltBlock)
    requires FixtureOf(w, pre, genesis, blocks) == Some(fixture)
    ensures var c := Build(w, pre, genesis, blocks).value;
            Generate(w, b, c.env, c.alloc) == Some(x) <==> Follows(w, b, fixture, x)
  {
    var c := Build(w, pre, genesis, blocks).value;
    RunIs(w, pre, genesis, blocks, c);
    CarriedAtEnd(w, pre, genesis, blocks, c.built);
    GenerateExactly(w, b, c.env, c.alloc, Last(History(genesis, c.built)), EnvironmentBefore(c.built), x);
  }

  lemma CarriedAtEnd(w: World, pre: Alloc, genesis: Header, blocks: seq<Block>, built: seq<BuiltBlock>)
    requires |built| == |blocks| && forall k :: 0 <= k < |blocks| ==> FitsAt(w, pre, genesis, blocks, built, k)
    ensures CarriedRight(w, genesis, built)
  {
    CarriedAtStart(w, genesis);
    for n := 0 to |blocks|
      invariant CarriedRight(w, genesis, built[..n])
    {
      assert FitsAt(w, pre, genesis, blocks, built, n);
      CarriedOn(w, pre, genesis, built[..n], blocks[n], built[n]);
      assert built[..n + 1] == built[..n] + [built[n]];
    }
    assert built[..|blocks|] == built;
  }

  lemma HiveFitsExactly(w: World, pre: Alloc, genesis: Header, blocks: seq<Block>, fixture: Fixture, sync: bool)
    requires FixtureOf(w, pre, genesis, blocks) == Some(fixture) && blocks != []
    ensures HiveSucceeds(w, pre, genesis, blocks, sync) <==> HiveFits(w, fixture, sync)
  {
    var c := Build(w, pre, genesis, blocks).value;
    forall x ensures Generate(w, EMPTY_BLOCK, c.env, c.alloc) == Some(x) <==> Follows(w, EMPTY_BLOCK, fixture, x) {
      FollowsExactly(w, pre, genesis, blocks, fixture, EMPTY_BLOCK, x);
    }
    if Generate(w, EMPTY_BLOCK, c.env, c.alloc).Some? {
      assert Follows(w, EMPTY_BLOCK, fixture, Generate(w, EMPTY_BLOCK, c.env, c.alloc).value);
    }
  }
}
