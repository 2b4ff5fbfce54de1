# Verified model of the execution spec tests

This project models the parts of the test framework that decide what a fixture says, and proves what those parts are for.

1. **State roots** (`Rlp`, `HexPrefix`, `PatriciaTree`, `TrieNodes`, `TrieReader`, `Tries`, `Storages`, `States`, `StateRoots`, `StateCommitment`, `StateReader`, `AllocMerges`). The Merkle Patricia trie of `trie.py`, with hex-prefix and RLP encoding from the definitions in appendices B, C and D of the Yellow Paper. The tree built from a map is the only canonical tree with the map's meaning, so dictionary order does not matter. Its root commits to the map, and from the root and what was hashed a reader that knows only the formats finds at every path exactly what the map holds. On top of it, `set_account`, `set_storage` and `Alloc.state_root` maintain flat maps in place. Two storages compare as equal exactly if they have one storage root, two allocations have one state root exactly if they agree on every account and every non-zero slot, and from a state root every account and every slot can be read.
2. **Bytecode** (`Bytecodes`, `LoopGenerators`, `Disassembler`, `LegacyRuns`, `WrapCode`). The stack figures of `+` and `*` are given their meaning by running the opcodes over a stack height. The disassembler and the assembler are inverse to each other exactly on canonical instructions and complete immediates. Two codes run in lockstep on every machine that halts, jumps and goes on only where an EVM can, exactly if they look alike wherever a run can come, and it is proved exactly when `wrap_code` makes such a code.
3. **Chain construction** (`Headers`, `Environments`, `Chains`, `ChainLinks`, `ChainHeads`, `ChainContents`). The block loops of `make_fixture` and `make_hive_fixture` around a deterministic transition tool: the header as it is encoded, hashed and read back, what every header field, environment and check of a test that is made must be, and that just such tests are made, linkage for any block numbers, erasure of rejected blocks, and what the last block hash says of all accepted headers.
4. **Shared files** (`LockedFiles`, `PreAllocGroups`, `Collector`, `SessionFolder`). Workers as a state machine over a shared store with an abstract lock: any interleaving is serial, pre-allocation groups are confluent, the collector loses nothing however often each worker flushes, and the session folder is counted right.
5. **Gas search and traces** (`Traces`, `GasSearch`). Trace lines are objects that a comparison changes in place; whatever lines two traces share, the verdict is given, and where no line is behind GAS in one place and not in another, any sequence of comparisons gives the verdicts of the original values. The binary search finds the least passing limit.
6. **Forks** (`Forks`). The comparisons are a partial order, and the two ways to compute a range of forks agree exactly if every fork on the way is among those given.

The hash function is a parameter. It is assumed free of collisions only in the lemmas about commitment, linkage and reading back, and only on the finite set of byte strings that are hashed there: keys, codes, nodes of 32 bytes or more, root nodes, encoded headers, and the keys that are looked up. The order of Python dictionaries and sets is an arbitrary choice in the methods, which equal a specification without choices.

Where the code does not do what one would expect, the code is modelled as it is, with the condition under which it does:

- The number stored as `_gas_optimization` is that of the last probe. With `m` the least passing limit, it is `m` exactly if `m` is zero or the halving comes to `m - 1` before `m`, and otherwise `m - 1`, a limit that fails (`GasSearch.SearchIsRight`, `GasSearch.StoredCanFail`).
- A block field marked as removed keeps the value the previous accepted block left in the environment (`Environments.CarriedIsFresh`, `ChainLinks.RemovedFieldsKeepOldValues`).
- A block is a child of the head exactly if no earlier accepted block has a higher number (`ChainLinks.ParentIsHead`, and `ChainHeads.StaleParent` for a run in which it is not). Only where numbers do not fall are the accepted headers one chain (`ChainHeads.FollowsIffNeverFalls`).
- Absent fields leave no trace in the encoding of a header, so headers with different fields can have the same bytes, and one hash without any collision (`Headers.BaseFeeOrExcess`). Headers are the same exactly if their bytes and the fields they have are (`Headers.BytesAndShape`). So the last block hash fixes the bytes of all accepted headers (`ChainHeads.HeadCommits`), and the headers themselves wherever the fork decides from number and timestamp what fields they have (`ChainHeads.HeadCommitsToHeaders`); it need not where a block sets a field that the fork does not demand (`ChainHeads.SameHeadOtherHeaders`).
- A test without its rejected blocks can be made exactly if its last accepted block has the expected gas of a benchmark and the test is not marked as expecting an exception (`ChainLinks.FixtureErasure`).
- A worker that has made the session folder but not counted itself in can fail when the last one inside removes the folder (`SessionFolder.WaitingWorkerCanFail`, `SessionFolder.LateWorkerFails`); if that never happens, no worker fails (`SessionFolder.PatientSessionNeverFails`). This holds for a lock that exists apart from the folder. The lock file of the code lies inside it, and what a worker finds that waits for a removed lock file depends on `FileLock`.
- `ExtCallGenerator` bounds the net growth of the repetitions by the stack limit. The deployed code stays within the limit exactly if a closed form over the figures of setup and block does (`LoopGenerators.ExtCallBounds`). It need not: because of the block's own peak (`LoopGenerators.ExtCallOverflows`), or because of a setup that leaves items on the stack (`LoopGenerators.ExtCallSetupOverflows`). Nor is the setup counted in the code size.
- Without a setup, `generate_repeated_code` leaves room for one more repetition exactly if just one byte was missing for it (`LoopGenerators.OneMoreFits`).
- `wrap_code` keeps the behaviour of legacy code exactly if no run comes to a last PUSH that is cut short and whose bytes are not all zero (`WrapCode.WrapIsAlike`). Complete code of any kind keeps it exactly if no run comes to a byte that was dropped, zeros aside (`WrapCode.CompleteKeepsRuns`); it may lose the target of a jump if it has immediates that only EOF knows (`WrapCode.HiddenJumpDest`). The machines over which this is exact halt at STOP, RETURN, REVERT, SELFDESTRUCT and every opcode that no fork without EOF has, jump only at JUMP and JUMPI, and do not go on behind JUMP; what else the opcodes do is left open (`LegacyRuns.LegacyMachine`).
- `Alloc.merge` drops the accounts that come out empty at addresses of its second argument, so a check for empty accounts behind it never sees them. The state root is that of the two allocations laid over each other exactly if there are none (`AllocMerges.EmptyOfMerged`, `AllocMerges.MergeKeepsRoot`).
- After a comparison with post-processing, one without it says of the traces what the former said, and whether they used the same gas, not what it would have said before (`Traces.PlainAfterPost`, `Traces.ModesDoNotMix`).
- A trace line that is one object in two places, behind GAS in only one of them, is erased in both, and traces of equal values are found different (`Traces.SharedLineShows`).
- Two fork ranges agree exactly if every fork on the way is among those given, so up to an ignored fork they differ (`Forks.RangesAgree`, `Forks.IgnoredForkDisagrees`).

## Model

| member | source | states |
|---|---|---|
| Rlp.EncodePrefixFree | src/ethereum_test_types/trie.py:163 | RLP encodings of distinct items differ and none is a prefix of another, so a list can be read back from what follows |
| Rlp.EncodeInjective | src/ethereum_test_types/trie.py:163 | items with one encoding are one item |
| Rlp.DecodeEncoded | src/ethereum_test_types/trie.py:163 | a decoder that goes by the first byte, as Appendix B has it, reads every item back, whatever follows it |
| Rlp.HashLength | src/ethereum_test_types/trie.py:319-323 | an encoded 32-byte hash takes 33 bytes, so a hashed root is never taken for a short one |
| HexPrefix.NibbleListToCompact | src/ethereum_test_types/trie.py:236-267 | the loop over pairs of nibbles, in both branches, gives the hex-prefix form |
| HexPrefix.ExpandOfCompact | src/ethereum_test_types/trie.py:236-267 | a reader that accepts flags 0 to 3, and with an even one only a zero nibble, gets nibbles and leaf flag back |
| HexPrefix.CompactInjective | src/ethereum_test_types/trie.py:236-267 | the compact form is injective in nibbles and leaf flag together |
| HexPrefix.BytesToNibbleList | src/ethereum_test_types/trie.py:270-278 | filling the array in place gives high and low nibble of each byte |
| HexPrefix.UnpackInjective | src/ethereum_test_types/trie.py:270-278 | distinct keys have distinct nibble lists |
| PatriciaTree.BuildLookup | src/ethereum_test_types/trie.py:326-381 | walking the tree of a map along any nibbles finds exactly what the map holds there |
| PatriciaTree.BuildCanonical | src/ethereum_test_types/trie.py:333-381 | every extension has a segment and a branch below it, every branch two occupied slots or more |
| PatriciaTree.CanonicalUnique | src/ethereum_test_types/trie.py:326-381 | canonical trees with one meaning are equal |
| PatriciaTree.BuildIsTheCanonicalTree | src/ethereum_test_types/trie.py:336-381 | whatever key comes first: any canonical tree with the map's meaning is the tree built |
| PatriciaTree.BuildInjective | src/ethereum_test_types/trie.py:326-381 | different maps have different trees |
| TrieNodes.NodeEncodable | src/ethereum_test_types/trie.py:145-163 | every node of a tree of Python byte strings is within the domain of RLP |
| TrieNodes.SameReference | src/ethereum_test_types/trie.py:163-167 | if parents refer to two nodes alike, inline or by hash, the nodes have one encoding |
| TrieNodes.SameTree | src/ethereum_test_types/trie.py:134-167 | canonical trees with one encoding are one tree |
| TrieNodes.RootCommits | src/ethereum_test_types/trie.py:311-323 | without collisions on what was hashed, equal roots mean equal prepared maps |
| TrieReader.ReadFinds | src/ethereum_test_types/trie.py:134-167 | a reader of decoded nodes (seventeen items by nibble, two by expanded path, hashes only for what takes 32 bytes or more) finds in every node what the tree holds |
| TrieReader.RootReads | src/ethereum_test_types/trie.py:311-381 | from the root and what was hashed for it, at every path exactly the value the map has there |
| Tries.Trie.Set | src/ethereum_test_types/trie.py:205-216 | setting the default deletes the key, any other value replaces it, and every other key reads as before |
| Tries.PrepareTrie | src/ethereum_test_types/trie.py:281-308 | raises exactly if some value cannot be encoded, and otherwise maps the nibbles of every key to its encoded value |
| Tries.PreparableExactly | src/ethereum_test_types/trie.py:281-308 | what can be prepared: byte strings that are not empty, words, and accounts at 20-byte addresses where storage roots are known |
| Tries.PreparedUnique | src/ethereum_test_types/trie.py:291-308 | if no two hashed keys fall together, the order of the dictionary does not matter |
| Tries.CommonPrefixLength | src/ethereum_test_types/trie.py:228-233 | the length up to which two sequences agree and at which they part |
| Tries.FindPrefixLength | src/ethereum_test_types/trie.py:343-352 | the loop with its early exit finds the level at which the keys part, from any key and in any order |
| Tries.PrefixFound | src/ethereum_test_types/trie.py:343-352 | the least agreement with one key ends where all keys part |
| Tries.Distribute | src/ethereum_test_types/trie.py:362-373 | each key goes to the dictionary of its next nibble, or gives the value of the branch if it ends here |
| Tries.Patricialize | src/ethereum_test_types/trie.py:326-381 | terminates and returns the node of the one tree of the map |
| Tries.ComposeBranch | src/ethereum_test_types/trie.py:362-381 | the sixteen subnodes and the value are those of the branch of the tree |
| Tries.Root | src/ethereum_test_types/trie.py:311-323 | the hash of the encoded root node in both branches, so the assertion at 322 holds; raises exactly if preparing does |
| Tries.RootsCommit | src/ethereum_test_types/trie.py:281-323 | any two tries, secured or not and with any values, have one root exactly if they were prepared to one map |
| Tries.EqualRootsEqualValues | src/ethereum_test_types/trie.py:281-323 | tries with one root have the same keys and the same encoded values |
| StateReader.TrieReads | src/ethereum_test_types/trie.py:45-133 | from the root of any trie, secured or not: a key is found exactly if it is set, and the bytes found say its value, an account as nonce, balance, storage root and code hash |
| Storages.Storage.SetItem | src/ethereum_test_base_types/composite_types.py:141-149 | one slot is set and its key no longer excused; the other marked keys stay |
| Storages.Storage.SetExpectAny | src/ethereum_test_base_types/composite_types.py:192-196 | one more key may have any value, as long as no slot is set for it; the slots stay |
| Storages.Storage.MustContain | src/ethereum_test_base_types/composite_types.py:232-251 | raises exactly if some key of the other storage has another value, and names such a key |
| Storages.Storage.MustBeEqual | src/ethereum_test_base_types/composite_types.py:253-290 | raises exactly if the storages disagree on a slot that is not excused, and names such a slot |
| Storages.AgreeIsNonZeroEquality | src/ethereum_test_base_types/composite_types.py:253-290 | without excuses, agreeing is being equal once zeros are erased |
| Storages.AgreeWithAny | src/ethereum_test_base_types/composite_types.py:280-283 | keys marked "any" are left out of the other storage where the expected one does not mention them |
| Storages.AgreeIsContainmentBothWays | src/ethereum_test_base_types/composite_types.py:232-290 | storages are equal exactly if each contains the other |
| States.AssignedRepresents | src/ethereum_test_types/account_types.py:59-72 | writing one slot, zero or not, keeps the storage trie a picture of the storage |
| States.State.SetAccount | src/ethereum_test_types/account_types.py:51-56 | sets or deletes one account and leaves all storages as they are |
| States.State.SetStorage | src/ethereum_test_types/account_types.py:59-72 | fails exactly without an account; zero erases the slot, an emptied trie is erased, all other storages stay |
| StateRoots.StorageRoot | src/ethereum_test_types/account_types.py:75-81 | the root of the storage trie, or the constant for an address without one |
| StateRoots.StateRoot | src/ethereum_test_types/account_types.py:84-91 | the root of the account trie, each account with the root of its storage |
| StateRoots.StoreSlots | src/ethereum_test_types/account_types.py:306-313 | storing the slots in any order leaves the non-zero ones |
| StateRoots.BuildState | src/ethereum_test_types/account_types.py:293-313 | the state has exactly the accounts that are present and their non-zero slots |
| StateRoots.AllocStateRoot | src/ethereum_test_types/account_types.py:291-314 | the state root of the allocation's accounts and storages |
| StateCommitment.StorageRootIsTrieRoot | src/ethereum_test_types/account_types.py:75-81 | the constant for an address without storage is the root of the empty trie |
| StateCommitment.StorageRootCommits | src/ethereum_test_types/account_types.py:75-81 | equal storage roots mean equal storage tries |
| StateCommitment.StorageDataInjective | src/ethereum_test_types/account_types.py:59-72 | a storage trie has every non-zero slot and nothing else |
| StateCommitment.StorageEqualityIsRootEquality | src/ethereum_test_base_types/composite_types.py:253-290 | without marked keys, storages compare as equal exactly if they have one storage root; with marked keys, the other storage without those has it |
| StateCommitment.AccountCommits | src/ethereum_test_types/trie.py:45-59 | accounts with one encoding have one nonce, balance, code and non-zero storage |
| StateCommitment.NormalisedDeterminesState | src/ethereum_test_types/account_types.py:293-313 | absent accounts and zero slots leave no trace in the state |
| StateCommitment.StateRootCommits | src/ethereum_test_types/account_types.py:291-314 | allocations have one state root exactly if they agree on every account and every non-zero slot |
| StateReader.StateReads | src/ethereum_test_types/account_types.py:75-91 | from the state root of an allocation and what was hashed one reads at every address whether there is an account, its nonce, balance and code hash, and the value of every slot |
| AllocMerges.MergeAllocs | src/ethereum_test_types/account_types.py:211-245 | raises exactly on overlaps the mode forbids; otherwise each nonce, balance, code and storage is what the second allocation sets, or else the first, or else the default, and at addresses of the second an account without any of them is left out |
| AllocMerges.FindDifferent | src/ethereum_test_types/account_types.py:225-235 | finds an address with different accounts exactly if there is one |
| AllocMerges.EmptyOfMerged | src/ethereum_test_types/account_types.py:238-243 | empty accounts remain only at addresses the second allocation does not have |
| AllocMerges.OverlaidFieldByField | src/ethereum_test_base_types/composite_types.py:456-480 | one allocation laid over the other: an account where either has one, with its fields by the same rule |
| AllocMerges.MergeKeepsNormalForm | src/ethereum_test_types/account_types.py:236-245 | for any two allocations, what a state root sees of the result is what it sees of one laid over the other, exactly if no account comes out empty |
| AllocMerges.OverNothing | src/ethereum_test_types/account_types.py:236-245 | laid over nothing, an allocation stays as it is, so merging it into nothing drops exactly its empty accounts |
| AllocMerges.MergeKeepsRoot | src/ethereum_test_types/account_types.py:211-314 | so, for any two, the merged allocation has the state root of one laid over the other exactly if no account comes out empty |
| Bytecodes.AddWellFormed | src/ethereum_test_vm/bytecode.py:158-208 | figures in order stay so under `+`, and net changes add up |
| Bytecodes.AddAssociative | src/ethereum_test_vm/bytecode.py:158-208 | `+` is associative for any figures |
| Bytecodes.AddUnit | src/ethereum_test_vm/bytecode.py:51-63 | the empty bytecode is a unit exactly for figures in order on that side |
| Bytecodes.SameIsAllButTerminating | src/ethereum_test_vm/bytecode.py:113-142 | equality of bytecodes overlooks the terminating flag and nothing else |
| Bytecodes.AddIsMaxPlus | src/ethereum_test_vm/bytecode.py:171-199 | the case analysis is a composition of maxima |
| Bytecodes.Multiply | src/ethereum_test_vm/bytecode.py:220-231 | the loop gives n repetitions; a negative count raises |
| Bytecodes.RepeatAdd | src/ethereum_test_vm/bytecode.py:220-231 | m and then n repetitions are m + n of them |
| Bytecodes.RepeatFigures | src/ethereum_test_vm/bytecode.py:220-231 | closed forms for all four figures of n repetitions |
| Bytecodes.RepeatBytes | src/ethereum_test_vm/bytecode.py:220-231 | the bytes of n repetitions are those of the code over and over |
| Bytecodes.ConcatFromFront | src/ethereum_test_vm/bytecode.py:144-218 | folding opcodes from the left is folding them from the right |
| Bytecodes.ConcatBytes | src/ethereum_test_vm/bytecode.py:144-218 | the sum of opcodes has their bytes in their order, and terminates exactly if the last of them does |
| Bytecodes.OpcodeIsOpcode | src/ethereum_test_vm/opcodes.py:107-153 | an opcode has the figures it is given; what it pops must be there, and its peak follows |
| Bytecodes.FiguresAreExact | src/ethereum_test_vm/bytecode.py:158-208 | for any list of opcodes: the least height that never underflows, the peak from it, the depth reached and the net change |
| LoopGenerators.Push | src/ethereum_test_vm/opcodes.py:35-69 | the shortest PUSH whose immediate is the number |
| LoopGenerators.GenerateRepeatedCode | src/ethereum_test_specs/benchmark.py:64-99 | raises exactly for an empty block, an oversized target or too much overhead; otherwise the loop fits and the size check never raises |
| LoopGenerators.OneMoreFits | src/ethereum_test_specs/benchmark.py:82-88 | one more repetition fits only without setup and when just one byte was missing |
| LoopGenerators.LoopJumpsToItsStart | src/ethereum_test_specs/benchmark.py:87-88 | a JUMPDEST is at the length of the setup, and the code ends with a PUSH of that offset and a JUMP |
| LoopGenerators.LoopTargetIsValid | src/ethereum_test_specs/benchmark.py:87-88 | the jump back is valid exactly if the setup does not end inside an immediate |
| LoopGenerators.DeployIterations | src/ethereum_test_benchmark/benchmark_code_generator.py:49-56 | the number of repetitions; an empty block divides by zero |
| LoopGenerators.DeployedFigures | src/ethereum_test_benchmark/benchmark_code_generator.py:58-62 | needed height and peak of the setup and n repetitions in closed form, whether a block grows or shrinks the stack |
| LoopGenerators.ExtCallBounds | src/ethereum_test_benchmark/benchmark_code_generator.py:49-62 | net growth and size of the repetitions are within the limits and one more would pass one of them; exactly when the deployed code with its setup is within the code size and the stack limit |
| LoopGenerators.ExtCallOverflows | src/ethereum_test_benchmark/benchmark_code_generator.py:49-62 | a block whose repetitions pass the stack limit |
| LoopGenerators.ExtCallSetupOverflows | src/ethereum_test_benchmark/benchmark_code_generator.py:58-62 | a block whose repetitions stay within it, but pass it behind any setup that only pushes, for any limits |
| Disassembler.ProcessEvmBytes | src/cli/evm_bytes.py:73-115 | the destructive loop gives the parse of the bytes; an unknown opcode raises |
| Disassembler.ReadOffsets | src/cli/evm_bytes.py:102-111 | the loop over an RJUMPV table reads the offsets, however short the table is |
| Disassembler.FirstOfAssembled | src/cli/evm_bytes.py:62-115 | an assembled instruction in front of anything is read back, and nothing more |
| Disassembler.FirstIsComplete | src/cli/evm_bytes.py:89-113 | what is read has operands of a complete immediate, even from too few bytes |
| Disassembler.AssembleThenParse | src/cli/evm_bytes.py:62-115 | assembling and parsing back returns the instructions exactly if they are canonical, signed offsets and tables included |
| Disassembler.ParseThenAssemble | src/cli/evm_bytes.py:62-115 | parsing and assembling back returns the bytes exactly if no immediate is cut short, and otherwise adds what was missing |
| Disassembler.ParseIsStable | src/cli/evm_bytes.py:62-115 | parsing what was parsed and assembled gives the same instructions |
| Disassembler.AssembleComplete | src/ethereum_test_vm/opcodes.py:155-223 | an instruction with complete operands can be assembled and starts with its opcode |
| Disassembler.ExchangeIsRead | src/ethereum_test_vm/opcodes.py:387-405 | EXCHANGE of two places is encoded exactly if they are near enough, and both can be read from the byte |
| WrapCode.WrapCode | src/cli/eofwrap.py:372-392 | raises for no code or an unknown opcode; otherwise the section is the wrapped instructions, assembled |
| WrapCode.EndOnce | src/cli/eofwrap.py:381-385 | adding a STOP or popping from the end keeps everything up to the first opcode of the terminating ones |
| WrapCode.Wrap | src/cli/eofwrap.py:381-385 | the result ends in a terminating opcode that does not follow another, and is a front part of the code or the code and a STOP |
| LegacyRuns.AlikeRun | src/cli/eofwrap.py:372-392 | codes that look alike wherever a run can come run in lockstep on any legacy machine, from any such place |
| LegacyRuns.AlikeIffSameRuns | src/cli/eofwrap.py:372-392 | no legacy machine can tell two codes apart exactly if they are alike; one legacy machine tells all others apart |
| LegacyRuns.FrontIsAlike | src/cli/eofwrap.py:384-385 | a front part of a code is alike exactly if no run of the code sees a byte other than zero behind it |
| WrapCode.OneBodyIsAlike | src/cli/eofwrap.py:381-385 | codes that are the same up to one halting opcode, with no jump destination behind it, are alike |
| WrapCode.SameJumpDests | src/cli/eofwrap.py:372-392 | such codes have the same valid jump destinations |
| WrapCode.WrapIsAlike | src/cli/eofwrap.py:372-392 | legacy code and the wrapped code cannot be told apart by running them exactly if no run comes to a last PUSH that is cut short and not all zero |
| WrapCode.WrapPreservesBehaviour | src/cli/eofwrap.py:372-392 | then every run takes the same steps and halts the same way, on any legacy machine |
| WrapCode.KeptIsWrapped | src/cli/eofwrap.py:378-390 | of complete code, the section is the front part up to the first of the terminating instructions at the end, or all of it and a STOP |
| WrapCode.CompleteKeepsRuns | src/cli/eofwrap.py:372-392 | complete code, legacy or not, keeps its runs exactly if none of them sees a byte other than zero behind that front part |
| WrapCode.WrapKeepsRunsIffAlike | src/cli/eofwrap.py:372-392 | any code, even one that is not legacy and is cut short, keeps its runs exactly if the wrapped code is alike |
| WrapCode.HiddenJumpDest | src/cli/eofwrap.py:384-385 | code that is not legacy, loses a jump destination and can be told from the original |
| WrapCode.CutIsShaped | src/cli/evm_bytes.py:89-101 | in legacy code that is cut short, the last PUSH gets its missing zeros in front instead of behind, and nothing else changes |
| Environments.MaxKey | src/ethereum_test_types/block_types.py:123-134 | the highest block number that has a hash |
| Environments.FromParentHeader | src/ethereum_test_specs/blockchain.py:62-74 | the parent hash of the fresh environment is that of the parent |
| Environments.ApplyNewParent | src/ethereum_test_specs/blockchain.py:77-91 | the parent hash becomes that of the new parent exactly if no higher number is known, and otherwise stays what it was |
| Environments.CarriedIsFresh | src/ethereum_test_specs/blockchain.py:236-291 | the carried environment gives a block what a fresh one gives it exactly if no removed field finds an old value |
| Environments.RequirementsAreMet | src/ethereum_test_types/block_types.py:136-187 | the fork's requirements are met without changing what was given, and nothing changes exactly if they were met before |
| Environments.RequirementsFillIn | src/ethereum_test_types/block_types.py:136-187 | what is filled in: difficulty 131072, base fee 7, and otherwise zeros and no withdrawals |
| Chains.GenerateBlockData | src/ethereum_test_specs/blockchain.py:495-699 | the built block of the block, the environment and the allocation; in a benchmark the last block's gas is checked |
| Chains.MakeFixture | src/ethereum_test_specs/blockchain.py:714-777 | the loop builds the chain of the blocks; raises exactly if that, the exception marker or the post state is not in order |
| Chains.MakeHiveFixture | src/ethereum_test_specs/blockchain.py:779-891 | the other loop builds the same chain; exactly when it raises, and what the sync payload is built on |
| ChainContents.GenerateExactly | src/ethereum_test_specs/blockchain.py:495-699 | a block is built exactly if it is this one: each field of the environment the tool sees and of the header, modified or not, and all that is checked |
| ChainContents.FixtureExactly | src/ethereum_test_specs/blockchain.py:714-777 | a test is made exactly if all its blocks are such blocks on what the accepted ones left, head and post state are those of the last accepted one, and marker, gas and both post-state checks are in order |
| ChainContents.HiveExactly | src/ethereum_test_specs/blockchain.py:779-891 | the other loop makes the same, exactly for tests with blocks, a forkchoice version and, to sync, a head other than the genesis that a block can follow |
| ChainLinks.RunLinked | src/ethereum_test_specs/blockchain.py:724-751 | head, environment and hashes always belong to the accepted headers |
| ChainLinks.LatestHash | src/ethereum_test_types/block_types.py:123-134 | the parent hash is that of the last accepted header among those with the highest number |
| ChainLinks.BlockLinks | src/ethereum_test_specs/blockchain.py:276-291 | for any numbers: which header is a block's parent, and its default number and timestamp |
| ChainLinks.ParentIsHead | src/ethereum_test_types/block_types.py:123-134 | the parent is the head exactly if no accepted header has a higher number |
| ChainLinks.UnnumberedBlocksLink | src/ethereum_test_specs/blockchain.py:724-751 | if no block sets its number, each follows the latest accepted one |
| ChainLinks.Erasure | src/ethereum_test_specs/blockchain.py:743-749 | without the rejected blocks the run ends with the same allocation, environment and head and the very same other blocks |
| ChainLinks.BuildErasure | src/ethereum_test_specs/blockchain.py:575-587 | so can the chain be built, exactly if the last accepted block has the gas a benchmark expects |
| ChainLinks.FixtureErasure | src/ethereum_test_specs/blockchain.py:714-777 | and so can the whole test be made, exactly if moreover it is not marked as expecting an exception; then head, post state and other blocks are the same |
| ChainLinks.SyncPayloadExtends | src/ethereum_test_specs/blockchain.py:859-874 | for any numbers: which header the sync payload comes after, and that it is the head exactly if the head has the highest number |
| ChainHeads.FollowsIffNeverFalls | src/ethereum_test_specs/blockchain.py:724-751 | each accepted header is a child of the one before it exactly if no number, the last aside, is lower than an earlier one |
| Headers.RlpEncodeList | src/ethereum_test_fixtures/blockchain.py:140-223 | the loop gives the fields that are there, and a reader that has each field at its place in the protocol gets every header back from them |
| Headers.BytesAreRead | src/ethereum_test_fixtures/blockchain.py:213-234 | so it does from the bytes that are hashed |
| Headers.BytesAndShape | src/ethereum_test_fixtures/blockchain.py:213-234 | two headers are the same exactly if they have the same bytes and the same fields |
| Headers.SameBytesSameLinks | src/ethereum_test_fixtures/blockchain.py:213-234 | headers with the same bytes have one parent hash, number and timestamp |
| Headers.BaseFeeOrExcess | src/ethereum_test_fixtures/blockchain.py:213-234 | a header with a base fee and no other late field has the bytes of one with that excess of blob gas instead |
| ChainHeads.HeadCommits | src/ethereum_test_fixtures/blockchain.py:213-234 | two such chains have one last block hash exactly if their genesis and accepted headers have the same bytes, and are the same exactly if these moreover have the same fields |
| ChainHeads.HeadCommitsToHeaders | src/ethereum_test_fixtures/blockchain.py:196-234 | where number and timestamp decide which fields a header has, they have one last block hash exactly if they have one genesis and the same accepted headers |
| ChainHeads.SameHeadOtherHeaders | src/ethereum_test_fixtures/blockchain.py:213-234 | for any hash: two tests of one block each that have one last block hash and different headers |
| ChainHeads.UnnumberedInOrder | src/ethereum_test_specs/blockchain.py:276-284 | blocks that leave their numbers to the chain are such a chain |
| ChainHeads.StaleParent | src/ethereum_test_types/block_types.py:123-134 | for any hash, a run in which an accepted block is a child of an earlier one than the head, and not of the head unless the bytes of the two collide |
| ChainLinks.EnvironmentIsFresh | src/ethereum_test_specs/blockchain.py:236-291 | when each block of a run sees nothing but its parent and the hashes |
| ChainLinks.SettingsReachHeader | src/ethereum_test_specs/blockchain.py:495-566 | gas limit, base fee, difficulty and excess blob gas a block sets arrive in its header, through environment, fork and tool; blob gas used is counted |
| ChainLinks.RemovedFieldsKeepOldValues | src/ethereum_test_specs/blockchain.py:255-263 | each of the four fields that can be removed keeps the value of the block before, and is gone if it is only left unset |
| LockedFiles.MoveKeepsInvariant | src/ethereum_test_fixtures/file.py:62-71 | every step keeps: one holder of the lock, what it read is what is there, the file is that of the writers so far in turn |
| LockedFiles.ExecutionIsSerial | src/ethereum_test_fixtures/file.py:62-71 | any interleaving of locked read-modify-write is one worker after another, each once |
| LockedFiles.SomeoneCanMove | src/ethereum_test_fixtures/file.py:62-71 | no deadlock |
| LockedFiles.UnlockedLosesUpdates | src/ethereum_test_fixtures/file.py:62-71 | without the lock an update can be lost |
| PreAllocGroups.PreAllocGroup.ToFile | src/ethereum_test_fixtures/pre_alloc_groups.py:55-85 | the new file and marker, the merged group, and when and with which account a collision is raised |
| PreAllocGroups.SaveExactly | src/ethereum_test_fixtures/pre_alloc_groups.py:55-85 | a collision leaves the file as it was; otherwise it has all accounts and test ids of both |
| PreAllocGroups.SerialHolds | src/ethereum_test_fixtures/pre_alloc_groups.py:55-85 | what the disk holds after any groups in any order |
| PreAllocGroups.WorkersConfluent | src/ethereum_test_fixtures/pre_alloc_groups.py:55-85 | in any interleaving, a marker at the end exactly if two inputs disagree; otherwise the union of accounts and all test ids |
| Collector.Disk.CollectIntoFile | src/ethereum_test_fixtures/file.py:54-71 | the file's entries overridden by the new ones |
| Collector.FixtureCollector.AddFixture | src/ethereum_test_fixtures/collector.py:136-155 | exactly one entry of disk and buffer together changes; when it flushes and when that raises |
| Collector.FixtureCollector.DumpFixtures | src/ethereum_test_fixtures/collector.py:157-172 | disk and buffer together stay the same even if it raises; it raises exactly for mixed formats; otherwise all is on disk |
| Collector.OneFormatExactly | src/ethereum_test_fixtures/collector.py:166-170 | what makes a dump raise: a file without fixtures or with two of different formats |
| Collector.Session | src/ethereum_test_fixtures/collector.py:136-172 | for any additions and flush interval, disk and buffer show the last fixture of each entry, and a last dump puts just that on disk |
| Collector.SerialFlushes | src/ethereum_test_fixtures/file.py:54-71 | an entry of the file is that of its last writer |
| LockedFiles.TurnsAreKept | src/ethereum_test_fixtures/file.py:62-71 | workers that come back, each in its own order, are one after another in an order that keeps to theirs |
| Collector.FlushesLoseNothing | src/ethereum_test_fixtures/file.py:54-71 | workers flushing into one file any number of times, in any interleaving, lose no entry, and an entry is as the last flush of some worker wrote it |
| Collector.OwnEntryStays | src/ethereum_test_fixtures/file.py:54-71 | an entry that only one worker writes is as its last flush wrote it |
| SessionFolder.MoveKeepsInvariant | src/pytest_plugins/concurrency.py:44-71 | every step of any worker keeps the count right and the folder there while someone is inside |
| SessionFolder.ReachableIsSafe | src/pytest_plugins/concurrency.py:44-71 | the stored count is the number of workers inside in every reachable state, and the folder exists while there is one |
| SessionFolder.OnlyTheLastRemoves | src/pytest_plugins/concurrency.py:62-71 | the folder goes exactly when the last one leaves; nobody fails on the way out |
| SessionFolder.PatientSessionNeverFails | src/pytest_plugins/concurrency.py:44-71 | no worker fails if the folder is never removed while another waits to be counted in |
| SessionFolder.WaitingWorkerCanFail | src/pytest_plugins/concurrency.py:45-59 | a worker that waits while the folder is removed can fail |
| SessionFolder.LateWorkerFails | src/pytest_plugins/concurrency.py:44-71 | a run of two workers in which one fails |
| Traces.RemoveGas | src/ethereum_clis/cli_types.py:100-111 | for any list, repeated lines included: the lines after GAS, and no others, lose the top of their stack in place; it stops with an IndexError exactly if such a stack is empty |
| Traces.NormalOfPart | src/ethereum_clis/cli_types.py:100-111 | erasing is idempotent, whichever results are erased already |
| Traces.TransactionTraces.AreEquivalent | src/ethereum_clis/cli_types.py:113-136 | for any two traces, shared lines included: the verdict on the values before, and which lines have changed and how |
| Traces.SharedIsPlain | src/ethereum_clis/cli_types.py:113-136 | this is the verdict on the values alone, if no line is behind GAS in one place and not in another |
| Traces.SharedLineShows | src/ethereum_clis/cli_types.py:100-136 | it need not be otherwise: equal values, but a line that is one object in two places |
| Traces.CompareLines | src/ethereum_clis/cli_types.py:73-81 | lines are equivalent exactly if pc, op, memory size, depth, refund, name, error and stack are the same, whatever the gas counters |
| Traces.Traces.AreEquivalent | src/ethereum_clis/cli_types.py:157-170 | the first pair of transactions that is not equivalent decides; all traces around keep their meaning, those that share lines too |
| Traces.Traces.Append | src/ethereum_clis/cli_types.py:153-155 | one transaction is added at the end |
| Traces.CompareMany | src/ethereum_test_specs/state.py:348-381 | any sequence of comparisons with one baseline gives the verdicts on the original values |
| Traces.ComparingIsEquivalence | src/ethereum_clis/cli_types.py:113-136 | with post-processing, being equivalent is reflexive, symmetric and transitive |
| Traces.PlainImpliesPost | src/ethereum_clis/cli_types.py:113-136 | post-processing only overlooks more |
| Traces.PlainAfterPost | src/ethereum_clis/cli_types.py:125-135 | what a plain comparison says after one with post-processing |
| Traces.VerdictExactly | src/ethereum_clis/cli_types.py:73-136 | what a verdict says of the traces: same length, output and gas, all fields but the gas counters, and stacks but for tops that GAS pushed; when comparing raises |
| Traces.CompareAllExactly | src/ethereum_clis/cli_types.py:157-170 | all transactions are equivalent, or the first that is not decides; other lengths are different |
| Traces.ModesDoNotMix | src/ethereum_clis/cli_types.py:125-135 | two traces for which that is another verdict |
| GasSearch.OptimizeGas | src/ethereum_test_specs/state.py:336-384 | for a probe that passes, fails or raises: refused exactly if the limit just below the original one fails; what each outcome says of the probe; within one probe for each bit of the limit |
| GasSearch.ProbeBound | src/ethereum_test_specs/state.py:348-371 | at most one probe for each bit of the interval |
| GasSearch.BitsIsLog2 | src/ethereum_test_specs/state.py:348-371 | which is floor(log2) + 1 |
| GasSearch.LastProbeIs | src/ethereum_test_specs/state.py:350-363 | the last probe is the later of the two limits around the least passing one, in an order the probe has no say in |
| GasSearch.SearchIsRight | src/ethereum_test_specs/state.py:348-382 | for an upward closed probe: the least passing limit is found, refused exactly above the wanted maximum, and exactly when it is the one that is stored |
| GasSearch.SearchIsSound | src/ethereum_test_specs/state.py:348-382 | for any probe, also one that raises: the limit found passed or is the original one |
| GasSearch.StoredCanFail | src/ethereum_test_specs/state.py:382 | a search that stores a limit that fails |
| Forks.PartialOrder | src/ethereum_test_forks/base_fork.py:194-225 | the four comparisons are one partial order |
| Forks.AncestorsCompare | src/ethereum_test_forks/base_fork.py:194-225 | forks below a common one can be compared |
| Forks.ForksFromUntil | src/ethereum_test_forks/helpers.py:232-253 | the loop along the parents gives the range |
| Forks.RangeIsChain | src/ethereum_test_forks/helpers.py:232-253 | the range has exactly the forks between, each the parent of the next, and is empty exactly if the first is no ancestor |
| Forks.RangeAscends | src/ethereum_test_forks/helpers.py:232-253 | the range is strictly ascending |
| Forks.GetFromUntilForkSet | src/ethereum_test_forks/helpers.py:117-129 | the nested loops give the forks between some first and some last one |
| Forks.RangesAgree | src/ethereum_test_forks/helpers.py:117-253 | the two ranges agree exactly if every fork on the way is among those given |
| Forks.RangesOfAllForksAgree | src/ethereum_test_forks/helpers.py:50 | they do for the forks of the repository that are not ignored |
| Forks.IgnoredForkDisagrees | src/ethereum_test_forks/helpers.py:50 | they do not for an ignored one |
| Forks.NonBpoAncestor | src/ethereum_test_forks/base_fork.py:832-840 | the nearest ancestor that changes more than blob parameters, with only such forks in between |

## Left out

- Keccak and signatures: the hash function is a parameter, and transactions are opaque to the chain.
- RLP payloads of 2^64 bytes and more: the Yellow Paper does not define them, and no Python byte string is that long.
- Snapshots of `State`: nothing modelled here takes one, so the assertions on them always hold.
- StateRoots.StateRoot: storage roots are computed before the account trie is prepared, where the source asks for each when it is needed; the result is the same map.
- `Bytecode.__add__` with raw bytes, zero or `None`, and calling an opcode with stack arguments other than numbers.
- Stack figures of opcodes with immediates (DUPN, SWAPN, EXCHANGE): the disassembler is modelled on bytes, opcodes of a list carry the figures they are given.
- Formatting of disassembled code, and the EOF container that `wrap_code` puts its section into.
- WrapCode.WrapPreservesBehaviour: opcodes that read the code itself (CODESIZE, CODECOPY and their relatives) see the change, so a machine is given the opcode, its immediate and its place only.
- WrapCode.WrapIsAlike: it is exact for the machines of `LegacyRuns.LegacyMachine` together. What a single EVM has on its stack or pays for may keep it from a place that another one comes to.
- WrapCode.WrapKeepsRunsIffAlike: for code that is not legacy and ends within an immediate, the condition compares it with the wrapped code; for all other code the two lemmas before it have it in terms of the code alone.
- Chains.Generate: the checks that raise (transaction errors, header verification, requests, block access lists) are one parameter, and so is what the tool and the transactions put into the header fields that the chain does not carry on.
- Environments.SetEnvironment: `requests_hash`, the block access list and the removal of a required header field are not modelled. Nor is `bal_hash` of a modifier, which names no field of a header.
- Opcode counts, traces and debug output of the transition tool: they are counters and logs, and counts include rejected blocks.
- JSON text, file names and the file system: files are maps, and reading gives what was written. Environment and fork of a pre-allocation group are the same for all workers that share its file, and are not modelled.
- FileLock: a lock is a field with at most one holder. That its file lies inside the session folder is not modelled.
- `PreAllocGroups.to_folder`: after a collision a worker does not save its remaining groups.
- Collector.Session: output to stdout, which prints and never clears the buffer.
- PreAllocGroups.WorkersConfluent: the folder is empty at the start; a file that is there already is one more worker that came first.
- Traces.Traces.AreEquivalent: where a line is behind GAS in one place and not in another, each single comparison has its verdict, but not a sequence of them; parsed traces have no shared lines.
- Traces.CompareMany: as for `Traces.Traces.AreEquivalent`.
- `verify_modified_gas_limit` beyond the comparison of traces: GasSearch takes the whole probe as a function of the limit, which CompareMany justifies for its comparison.
- `Storage.contains`, `store_next`, `canary` and the hints: they only read, or set one slot.
- ChainHeads.HeadCommits: where an accepted number is lower than an earlier one, a header may be nobody's parent, and the head does not commit to it.
- SessionFolder.WaitingWorkerCanFail: the lock stays usable when the folder is removed, though its file lies inside; what `FileLock` does then is not modelled.
- SessionFolder.LateWorkerFails: as above, for a lock apart from the folder.
- Transition forks: for them `>` holds in both directions with the fork they lead to.
- Ignored forks other than ArrowGlacier in the table of forks.
- Command line tools, fixture consumers, transition tool clients and the tests themselves.
