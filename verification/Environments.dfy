/**
 The environment a block is executed in: how it is derived from the parent header, the earlier
 environment and the block's own settings.
 */
module Environments {
  import opened ByteStrings
  import opened Options
  import opened States
  import opened Headers

  const ZERO_HASH: Hash := seq(32, _ => 0)
  const DEFAULT_BASE_FEE: nat := 7

  datatype Environment = Environment(
    feeRecipient: Address,
    gasLimit: nat,
    number: nat,
    timestamp: nat,
    prevRandao: Option<nat>,
    difficulty: Option<nat>,
    baseFee: Option<nat>,
    excessBlobGas: Option<nat>,
    blobGasUsed: Option<nat>,
    beaconRoot: Option<Hash>,
    withdrawals: Option<seq<Bytes>>,
    parentDifficulty: Option<nat>,
    parentTimestamp: Option<nat>,
    parentBaseFee: Option<nat>,
    parentBlobGasUsed: Option<nat>,
    parentExcessBlobGas: Option<nat>,
    parentGasUsed: Option<nat>,
    parentGasLimit: Option<nat>,
    parentOmmersHash: Hash,
    blockHashes: map<nat, Hash>
  )

  /** A header setting of a block: left to its default, marked as removed, or given. */
  datatype Field<+T> = Unset | Removed | Given(value: T)

  /** `rlp_modifier`: header fields to be replaced when the block is built. Only some can be removed. */
  datatype Modifier = Modifier(
    parentHash: Option<Hash>,
    ommersHash: Option<Hash>,
    feeRecipient: Option<Address>,
    stateRoot: Option<Hash>,
    transactionsTrie: Option<Hash>,
    receiptsRoot: Option<Hash>,
    logsBloom: Option<Bytes>,
    difficulty: Option<nat>,
    number: Option<nat>,
    gasLimit: Option<nat>,
    gasUsed: Option<nat>,
    timestamp: Option<nat>,
    extraData: Option<Bytes>,
    prevRandao: Option<Hash>,
    nonce: Option<Bytes>,
    baseFee: Field<nat>,
    withdrawalsRoot: Field<Hash>,
    blobGasUsed: Field<nat>,
    excessBlobGas: Field<nat>,
    beaconRoot: Field<Hash>,
    requestsHash: Field<Hash>
  )

  datatype Block = Block(
    difficulty: Option<nat>,
    number: Option<nat>,
    gasLimit: Option<nat>,
    timestamp: Option<nat>,
    prevRandao: Option<nat>,
    feeRecipient: Option<Address>,
    baseFee: Field<nat>,
    blobGasUsed: Field<nat>,
    excessBlobGas: Field<nat>,
    beaconRoot: Field<Hash>,
    withdrawals: Option<seq<Bytes>>,
    modifier: Option<Modifier>,
    exception: bool,
    content: Bytes
  )

  /** What a fork demands at a block number and a timestamp, and the defaults of `Environment()`. */
  datatype Fork = Fork(
    prevRandao: (nat, nat) -> bool,
    withdrawals: (nat, nat) -> bool,
    baseFee: (nat, nat) -> bool,
    zeroDifficulty: (nat, nat) -> bool,
    excessBlobGas: (nat, nat) -> bool,
    blobGasUsed: (nat, nat) -> bool,
    beaconRoot: (nat, nat) -> bool,
    forkchoiceVersion: (nat, nat) -> Option<nat>,
    defaultFeeRecipient: Address,
    defaultGasLimit: nat
  )

  function Or<T>(a: Option<T>, b: Option<T>): Option<T> {
    if a.Some? then a else b
  }

  function OrElse<T>(a: Option<T>, b: T): T {
    if a.Some? then a.value else b
  }

  // ---- The parent ----

  function MaxKey(hashes: map<nat, Hash>): (n: nat)
    requires hashes != map[]
    ensures n in hashes && forall k :: k in hashes ==> k <= n
  {
    MaxExists(hashes.Keys);
    var n :| n in hashes && forall k :: k in hashes ==> k <= n;
    n
  }

  lemma {:induction false} MaxExists(s: set<nat>)
    requires s != {}
    ensures exists n :: n in s && forall k :: k in s ==> k <= n
    decreases |s|
  {
    var n :| n in s;
    var below := s - {n};
    if below == {} {
      assert forall k :: k in s ==> k == n || k in below;
    } else {
      MaxExists(below);
      var m :| m in below && forall k :: k in below ==> k <= m;
      var max := if m <= n then n else m;
      assert forall k :: k in s ==> k == n || k in below;
      assert max in s && forall k :: k in s ==> k <= max;
    }
  }

  /** `Environment.parent_hash`: the hash with the highest block number. */
  function ParentHash(env: Environment): Option<Hash> {
    if env.blockHashes == map[] then None else Some(env.blockHashes[MaxKey(env.blockHashes)])
  }

  /** The values of the parent header that an environment keeps. */
  ghost predicate HasParent(env: Environment, parent: Header) {
    && env.parentDifficulty == Some(parent.difficulty)
    && env.parentTimestamp == Some(parent.timestamp)
    && env.parentBaseFee == parent.baseFee
    && env.parentBlobGasUsed == parent.blobGasUsed
    && env.parentExcessBlobGas == parent.excessBlobGas
    && env.parentGasUsed == Some(parent.gasUsed)
    && env.parentGasLimit == Some(parent.gasLimit)
    && env.parentOmmersHash == parent.ommersHash
  }

  /** No block with a higher number has a hash. */
  ghost predicate NoneAbove(env: Environment, number: nat) {
    forall n :: n in env.blockHashes ==> n <= number
  }

  lemma NewMaxKey(hashes: map<nat, Hash>, number: nat, hash: Hash)
    ensures hashes[number := hash] != map[]
    ensures (forall n :: n in hashes ==> n <= number) ==> MaxKey(hashes[number := hash]) == number
    ensures !(forall n :: n in hashes ==> n <= number) ==>
              hashes != map[] && MaxKey(hashes[number := hash]) == MaxKey(hashes) && MaxKey(hashes) != number
  {
    assert number in hashes[number := hash];
    var max := MaxKey(hashes[number := hash]);
    assert forall n :: n in hashes ==> n in hashes[number := hash];
    if n :| n in hashes && n > number {
      assert max in hashes;
    }
  }

  /** `environment_from_parent_header`. The parent is the one block that is known. */
  function FromParentHeader(f: Fork, parent: Header, hash: Hash): (env: Environment)
    ensures ParentHash(env) == Some(hash)
  {
    NewMaxKey(map[], parent.number, hash);
    assert map[parent.number := hash] == map[][parent.number := hash];
    Environment(f.defaultFeeRecipient, f.defaultGasLimit, 1, 1000, None, None, None, None, None, None, None,
                Some(parent.difficulty), Some(parent.timestamp), parent.baseFee, parent.blobGasUsed,
                parent.excessBlobGas, Some(parent.gasUsed), Some(parent.gasLimit), parent.ommersHash,
                map[parent.number := hash])
  }

  /** `apply_new_parent`. The new parent is the one of the next block exactly if no higher number is known. */
  function ApplyNewParent(env: Environment, parent: Header, hash: Hash): (r: Environment)
    ensures ParentHash(r) == if NoneAbove(env, parent.number) then Some(hash) else ParentHash(env)
  {
    NewMaxKey(env.blockHashes, parent.number, hash);
    env.(
      parentDifficulty := Some(parent.difficulty),
      parentTimestamp := Some(parent.timestamp),
      parentBaseFee := parent.baseFee,
      parentBlobGasUsed := parent.blobGasUsed,
      parentExcessBlobGas := parent.excessBlobGas,
      parentGasUsed := Some(parent.gasUsed),
      parentGasLimit := Some(parent.gasLimit),
      parentOmmersHash := parent.ommersHash,
      blockHashes := env.blockHashes[parent.number := hash])
  }

  // ---- The block ----

  /** A removed field is not written, so the value of the earlier environment stays. */
  function Carry<T>(field: Field<T>, was: Option<T>): Option<T> {
    match field
    case Unset => None
    case Removed => was
    case Given(value) => Some(value)
  }

  /** `Block.set_environment`; `None` where its assertion on the parent's timestamp fails. */
  function SetEnvironment(f: Fork, b: Block, env: Environment): Option<Environment> {
    if b.timestamp.None? && env.parentTimestamp.None? then None
    else Some(env.(
      difficulty := b.difficulty,
      prevRandao := b.prevRandao,
      feeRecipient := OrElse(b.feeRecipient, f.defaultFeeRecipient),
      gasLimit :=
        if b.gasLimit.Some? && b.gasLimit.value != 0 then b.gasLimit.value
        else if env.parentGasLimit.Some? && env.parentGasLimit.value != 0 then env.parentGasLimit.value
        else f.defaultGasLimit,
      baseFee := Carry(b.baseFee, env.baseFee),
      withdrawals := b.withdrawals,
      excessBlobGas := Carry(b.excessBlobGas, env.excessBlobGas),
      blobGasUsed := Carry(b.blobGasUsed, env.blobGasUsed),
      beaconRoot := Carry(b.beaconRoot, env.beaconRoot),
      number :=
        if b.number.Some? then b.number.value
        else if env.blockHashes == map[] then 0
        else MaxKey(env.blockHashes) + 1,
      timestamp := if b.timestamp.Some? then b.timestamp.value else env.parentTimestamp.value + 12))
  }

  /** A value that is needed and missing gets its default. */
  function Fill<T>(needed: bool, value: Option<T>, default: T): Option<T> {
    if needed && value.None? then Some(default) else value
  }

  /** `Environment.set_fork_requirements`. */
  function SetForkRequirements(f: Fork, env: Environment): Environment {
    var n, t := env.number, env.timestamp;
    var difficulty :=
      if f.zeroDifficulty(n, t) then Some(0) else Fill(env.parentDifficulty.None?, env.difficulty, 0x20000);
    env.(
      prevRandao := Fill(f.prevRandao(n, t), env.prevRandao, 0),
      withdrawals := Fill(f.withdrawals(n, t), env.withdrawals, []),
      baseFee := Fill(f.baseFee(n, t) && env.parentBaseFee.None?, env.baseFee, DEFAULT_BASE_FEE),
      difficulty := difficulty,
      excessBlobGas := Fill(f.excessBlobGas(n, t) && env.parentExcessBlobGas.None?, env.excessBlobGas, 0),
      blobGasUsed := Fill(f.blobGasUsed(n, t) && env.parentBlobGasUsed.None?, env.blobGasUsed, 0),
      beaconRoot := Fill(f.beaconRoot(n, t), env.beaconRoot, ZERO_HASH))
  }

  /** Nothing the fork demands is missing, unless it follows from the parent. */
  ghost predicate MeetsRequirements(f: Fork, env: Environment) {
    var n, t := env.number, env.timestamp;
    && (f.prevRandao(n, t) ==> env.prevRandao.Some?)
    && (f.withdrawals(n, t) ==> env.withdrawals.Some?)
    && (f.baseFee(n, t) ==> env.baseFee.Some? || env.parentBaseFee.Some?)
    && (f.zeroDifficulty(n, t) ==> env.difficulty == Some(0))
    && (env.difficulty.Some? || env.parentDifficulty.Some?)
    && (f.excessBlobGas(n, t) ==> env.excessBlobGas.Some? || env.parentExcessBlobGas.Some?)
    && (f.blobGasUsed(n, t) ==> env.blobGasUsed.Some? || env.parentBlobGasUsed.Some?)
    && (f.beaconRoot(n, t) ==> env.beaconRoot.Some?)
  }

  /** Only what is missing is filled in, but for a difficulty that must be zero. */
  ghost predicate Completes(f: Fork, env: Environment, r: Environment) {
    && r.number == env.number && r.timestamp == env.timestamp && r.blockHashes == env.blockHashes
    && r.feeRecipient == env.feeRecipient && r.gasLimit == env.gasLimit
    && (env.prevRandao.Some? ==> r.prevRandao == env.prevRandao)
    && (env.withdrawals.Some? ==> r.withdrawals == env.withdrawals)
    && (env.baseFee.Some? ==> r.baseFee == env.baseFee)
    && (env.difficulty.Some? && !f.zeroDifficulty(env.number, env.timestamp) ==> r.difficulty == env.difficulty)
    && (env.excessBlobGas.Some? ==> r.excessBlobGas == env.excessBlobGas)
    && (env.blobGasUsed.Some? ==> r.blobGasUsed == env.blobGasUsed)
    && (env.beaconRoot.Some? ==> r.beaconRoot == env.beaconRoot)
  }

  /** What is filled in: a difficulty of 131072 and a base fee of 7, and otherwise nothing but zeros. */
  ghost predicate FillsIn(f: Fork, env: Environment, r: Environment) {
    var n, t := env.number, env.timestamp;
    && (env.difficulty.None? && env.parentDifficulty.None? && !f.zeroDifficulty(n, t) ==> r.difficulty == Some(131072))
    && (env.baseFee.None? && r.baseFee.Some? ==> r.baseFee == Some(7))
    && (env.prevRandao.None? && r.prevRandao.Some? ==> r.prevRandao == Some(0))
    && (env.withdrawals.None? && r.withdrawals.Some? ==> r.withdrawals == Some([]))
    && (env.excessBlobGas.None? && r.excessBlobGas.Some? ==> r.excessBlobGas == Some(0))
    && (env.blobGasUsed.None? && r.blobGasUsed.Some? ==> r.blobGasUsed == Some(0))
    && (env.beaconRoot.None? && r.beaconRoot.Some? ==> forall k :: 0 <= k < 32 ==> r.beaconRoot.value[k] == 0)
  }

  /** The requirements are met without changing what was given, and exactly where they were not met before. */
  lemma RequirementsAreMet(f: Fork, env: Environment)
    ensures MeetsRequirements(f, SetForkRequirements(f, env)) && Completes(f, env, SetForkRequirements(f, env))
    ensures SetForkRequirements(f, env) == env <==> MeetsRequirements(f, env)
  {
  }

  lemma RequirementsFillIn(f: Fork, env: Environment)
    ensures FillsIn(f, env, SetForkRequirements(f, env))
  {}

  // ---- An environment knows nothing but the parent and the hashes ----

  /** No removed field of the block finds an old value. */
  predicate NothingCarried(b: Block, env: Environment) {
    && (b.baseFee.Removed? ==> env.baseFee.None?)
    && (b.excessBlobGas.Removed? ==> env.excessBlobGas.None?)
    && (b.blobGasUsed.Removed? ==> env.blobGasUsed.None?)
    && (b.beaconRoot.Removed? ==> env.beaconRoot.None?)
  }

  /**
   The environment that was carried along gives a block what one made afresh from the parent header
   gives it, exactly if no removed field of the block finds a value that an earlier block left.
   */
  lemma CarriedIsFresh(f: Fork, b: Block, env: Environment, parent: Header, hash: Hash)
    requires HasParent(env, parent)
    ensures SetEnvironment(f, b, env) ==
            SetEnvironment(f, b, FromParentHeader(f, parent, hash).(blockHashes := env.blockHashes))
            <==> NothingCarried(b, env)
  {
  }

  // ---- Building a header ----

  function Replace<T>(field: Field<T>, was: Option<T>): Option<T> {
    match field
    case Unset => was
    case Removed => None
    case Given(value) => Some(value)
  }

  /** `Header.apply`. */
  function ApplyModifier(m: Modifier, h: Header): Header {
    Header(
      OrElse(m.parentHash, h.parentHash),
      OrElse(m.ommersHash, h.ommersHash),
      OrElse(m.feeRecipient, h.feeRecipient),
      OrElse(m.stateRoot, h.stateRoot),
      OrElse(m.transactionsTrie, h.transactionsTrie),
      OrElse(m.receiptsRoot, h.receiptsRoot),
      OrElse(m.logsBloom, h.logsBloom),
      OrElse(m.difficulty, h.difficulty),
      OrElse(m.number, h.number),
      OrElse(m.gasLimit, h.gasLimit),
      OrElse(m.gasUsed, h.gasUsed),
      OrElse(m.timestamp, h.timestamp),
      OrElse(m.extraData, h.extraData),
      OrElse(m.prevRandao, h.prevRandao),
      OrElse(m.nonce, h.nonce),
      Replace(m.baseFee, h.baseFee),
      Replace(m.withdrawalsRoot, h.withdrawalsRoot),
      Replace(m.blobGasUsed, h.blobGasUsed),
      Replace(m.excessBlobGas, h.excessBlobGas),
      Replace(m.beaconRoot, h.beaconRoot),
      Replace(m.requestsHash, h.requestsHash),
      h.accessListHash)
  }
}
