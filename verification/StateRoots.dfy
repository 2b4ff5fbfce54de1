/**
 Storage roots, the state root, and `Alloc.state_root`: building a state from an allocation, in
 any order of accounts and slots, and hashing it.
 */
module StateRoots {
  import opened ByteStrings
  import opened Options
  import opened PatriciaTree
  import opened TrieNodes
  import opened Tries
  import opened Storages
  import opened States

  /** No two hashed keys of one trie fall together. */
  ghost predicate Distinct(K: Keccak, accounts: map<Bytes, Node>, storages: StorageMap) {
    && KeysDistinct(K, true, accounts.Keys)
    && forall a {:trigger a in storages} :: a in storages ==> KeysDistinct(K, true, storages[a].Keys)
  }

  lemma StoragePreparable(K: Keccak, data: map<Bytes, Node>)
    requires ValidStorageData(data)
    ensures Preparable(K, None, data)
  {}

  ghost function StorageRootOf(K: Keccak, data: map<Bytes, Node>): Bytes32
    requires ValidStorageData(data) && KeysDistinct(K, true, data.Keys)
  {
    StoragePreparable(K, data);
    if data == map[] then EMPTY_TRIE_ROOT else RootOf(K, Prepared(K, true, None, data))
  }

  ghost function StorageRootsOf(K: Keccak, accounts: map<Bytes, Node>, storages: StorageMap): map<Bytes, Bytes32>
    requires ValidAccounts(accounts) && ValidStorages(storages) && Distinct(K, accounts, storages)
  {
    map a | a in accounts :: StorageRootOf(K, StorageOf(storages, a))
  }

  /** `get_storage_root`. */
  function RootLookup(roots: map<Bytes, Bytes32>): Bytes -> Bytes32 {
    a => if a in roots then roots[a] else EMPTY_TRIE_ROOT
  }

  lemma AccountsPreparable(K: Keccak, accounts: map<Bytes, Node>, roots: map<Bytes, Bytes32>)
    requires ValidAccounts(accounts)
    ensures Preparable(K, Some(RootLookup(roots)), accounts)
  {}

  ghost function StateRootOf(K: Keccak, accounts: map<Bytes, Node>, storages: StorageMap): Bytes32
    requires ValidAccounts(accounts) && ValidStorages(storages) && Distinct(K, accounts, storages)
  {
    var roots := StorageRootsOf(K, accounts, storages);
    AccountsPreparable(K, accounts, roots);
    RootOf(K, Prepared(K, true, Some(RootLookup(roots)), accounts))
  }

  /** `storage_root`. */
  method StorageRoot(K: Keccak, state: State, address: Address) returns (r: Bytes32)
    requires state.Valid()
    ensures var data := StorageOf(state.Storages(), address);
            KeysDistinct(K, true, data.Keys) ==> r == StorageRootOf(K, data)
  {
    if address in state.storageTries {
      var trie := state.storageTries[address];
      assert state.Storages()[address] == trie.data;
      StoragePreparable(K, trie.data);
      r := SecureRoot(K, trie, None);
    } else {
      r := EMPTY_TRIE_ROOT;
    }
  }

  /** `state_root`. The storage roots are computed first; the source asks for each when it is needed. */
  method StateRoot(K: Keccak, state: State) returns (r: Bytes32)
    requires state.Valid()
    ensures Distinct(K, state.mainTrie.data, state.Storages()) ==>
              r == StateRootOf(K, state.mainTrie.data, state.Storages())
  {
    ghost var storages := state.Storages();
    var roots := CollectStorageRoots(K, state);
    assert state.Storages() == storages;
    r := MainRoot(K, state.mainTrie, roots, storages);
    assert state.Storages() == storages;
  }

  method MainRoot(K: Keccak, mainTrie: Trie, roots: map<Bytes, Bytes32>, ghost storages: StorageMap)
    returns (r: Bytes32)
    requires mainTrie.secured && ValidAccounts(mainTrie.data) && ValidStorages(storages)
    requires Distinct(K, mainTrie.data, storages) ==> roots == StorageRootsOf(K, mainTrie.data, storages)
    ensures Distinct(K, mainTrie.data, storages) ==> r == StateRootOf(K, mainTrie.data, storages)
  {
    AccountsPreparable(K, mainTrie.data, roots);
    r := SecureRoot(K, mainTrie, Some(RootLookup(roots)));
    if Distinct(K, mainTrie.data, storages) {
      StateRootFrom(K, mainTrie.data, storages, roots);
    }
  }

  /** The root of a secured trie that prepares without error. */
  method SecureRoot(K: Keccak, trie: Trie, roots: StorageRoots) returns (r: Bytes32)
    requires trie.secured && Preparable(K, roots, trie.data)
    ensures KeysDistinct(K, true, trie.data.Keys) ==> r == RootOf(K, Prepared(K, true, roots, trie.data))
  {
    var root := Root(K, trie, roots);
    r := root.value;
  }

  lemma StateRootFrom(K: Keccak, accounts: map<Bytes, Node>, storages: StorageMap, roots: map<Bytes, Bytes32>)
    requires ValidAccounts(accounts) && ValidStorages(storages) && Distinct(K, accounts, storages)
    requires roots == StorageRootsOf(K, accounts, storages)
    ensures Preparable(K, Some(RootLookup(roots)), accounts)
    ensures RootOf(K, Prepared(K, true, Some(RootLookup(roots)), accounts)) == StateRootOf(K, accounts, storages)
  {
    AccountsPreparable(K, accounts, roots);
  }

  method CollectStorageRoots(K: Keccak, state: State) returns (roots: map<Bytes, Bytes32>)
    requires state.Valid()
    ensures Distinct(K, state.mainTrie.data, state.Storages()) ==>
              roots == StorageRootsOf(K, state.mainTrie.data, state.Storages())
  {
    ghost var accounts, storages := state.mainTrie.data, state.Storages();
    roots := map[];
    var todo := state.mainTrie.data.Keys;
    while todo != {}
      invariant todo <= accounts.Keys && roots.Keys == accounts.Keys - todo
      invariant state.Storages() == storages
      invariant Distinct(K, accounts, storages) ==>
                  forall a {:trigger a in roots} :: a in roots ==> roots[a] == StorageRootsOf(K, accounts, storages)[a]
    {
      var address :| address in todo;
      var root := StorageRoot(K, state, address);
      assert state.Storages() == storages;
      roots := roots[address := root];
      todo := todo - {address};
    }
  }

  // ---- Building the state of an allocation ----

  ghost function AccountsOf(alloc: Alloc): map<Bytes, Node> {
    map a | a in alloc && alloc[a].Some? :: AccountNode(alloc[a].value)
  }

  /** The storages of an allocation's accounts, empty ones too. */
  ghost function StorageDataOf(alloc: Alloc): StorageMap {
    map a | a in alloc && alloc[a].Some? :: StorageData(alloc[a].value.storage)
  }

  ghost function NonEmpty(storages: StorageMap): StorageMap {
    map a | a in storages && storages[a] != map[] :: storages[a]
  }

  ghost function StoragesOf(alloc: Alloc): StorageMap {
    NonEmpty(StorageDataOf(alloc))
  }

  lemma StoredOnto(storages: StorageMap, address: Address, data: map<Bytes, Node>, key: Bytes32, value: U256)
    requires address !in storages
    ensures Stored(WithStorage(storages, address, data), address, key, value) ==
            WithStorage(storages, address, Assigned(data, Word(0), key, Word(value)))
  {}

  /** Every slot of an account, in any order, through `set_storage`. */
  method StoreSlots(state: State, address: Address, slots: Slots)
    requires state.Valid() && address in state.mainTrie.data && address !in state.storageTries
    modifies state`storageTries, state.storageTries.Values
    ensures state.Valid() && fresh(state.storageTries.Values - old(state.storageTries.Values))
    ensures state.Storages() == WithStorage(old(state.Storages()), address, StorageData(slots))
  {
    ghost var before, data, done: Slots := state.Storages(), map[], map[];
    var todo := slots.Keys;
    while todo != {}
      invariant todo <= slots.Keys && done == slots - todo
      invariant state.Valid() && address in state.mainTrie.data
      invariant fresh(state.storageTries.Values - old(state.storageTries.Values))
      invariant state.Storages() == WithStorage(before, address, data)
      invariant Represents(done, data)
    {
      var key :| key in todo;
      AssignedRepresents(done, data, key, slots[key]);
      StoredOnto(before, address, data, SlotKey(key), slots[key]);
      var _ := state.SetStorage(address, SlotKey(key), slots[key]);
      data := Assigned(data, Word(0), SlotKey(key), Word(slots[key]));
      done := done[key := slots[key]];
      todo := todo - {key};
    }
    assert done == slots;
    StorageDataRepresents(slots);
    RepresentsUnique(slots, data, StorageData(slots));
  }

  lemma AddStorage(storages: StorageMap, address: Address, data: map<Bytes, Node>)
    requires address !in storages
    ensures NonEmpty(storages[address := data]) == WithStorage(NonEmpty(storages), address, data)
    ensures address !in NonEmpty(storages)
  {}

  /** One more account of an allocation. */
  lemma AddAccount(done: Alloc, address: Address, account: Account)
    requires address !in done
    ensures AccountsOf(done[address := Some(account)]) == AccountsOf(done)[address := AccountNode(account)]
    ensures StoragesOf(done[address := Some(account)]) ==
            WithStorage(StoragesOf(done), address, StorageData(account.storage))
    ensures address !in StoragesOf(done)
  {
    var data := StorageData(account.storage);
    assert StorageDataOf(done[address := Some(account)]) == StorageDataOf(done)[address := data];
    AddStorage(StorageDataOf(done), address, data);
  }

  /** One more address without an account. */
  lemma SkipAccount(done: Alloc, address: Address)
    requires address !in done
    ensures AccountsOf(done[address := None]) == AccountsOf(done)
    ensures StoragesOf(done[address := None]) == StoragesOf(done)
  {
    assert StorageDataOf(done[address := None]) == StorageDataOf(done);
  }

  /** The body of the loop over accounts. */
  method AddEntry(state: State, address: Address, entry: Option<Account>, ghost done: Alloc)
    requires state.Valid() && address !in done
    requires state.mainTrie.data == AccountsOf(done) && state.Storages() == StoragesOf(done)
    modifies state`storageTries, state.mainTrie, state.storageTries.Values
    ensures state.Valid() && fresh(state.storageTries.Values - old(state.storageTries.Values))
    ensures state.mainTrie.data == AccountsOf(done[address := entry])
    ensures state.Storages() == StoragesOf(done[address := entry])
  {
    if entry.None? {
      SkipAccount(done, address);
      return;
    }
    var account := entry.value;
    AddAccount(done, address, account);
    assert address !in state.Storages();
    state.SetAccount(address, FrontierAccount(account.nonce, account.balance, account.code));
    assert state.Storages() == StoragesOf(done) && address !in state.storageTries;
    StoreSlots(state, address, account.storage);
  }

  /** The first part of `Alloc.state_root`: a state holding the accounts of the allocation and no others. */
  method BuildState(alloc: Alloc) returns (state: State)
    ensures state.Valid() && fresh(state)
    ensures state.mainTrie.data == AccountsOf(alloc) && state.Storages() == StoragesOf(alloc)
  {
    state := new State();
    ghost var done: Alloc := map[];
    var todo := alloc.Keys;
    while todo != {}
      invariant done.Keys !! todo && done.Keys + todo == alloc.Keys
      invariant forall a {:trigger done[a]} :: a in done ==> done[a] == alloc[a]
      invariant state.Valid() && fresh(state) && fresh(state.mainTrie) && fresh(state.storageTries.Values)
      invariant state.mainTrie.data == AccountsOf(done) && state.Storages() == StoragesOf(done)
    {
      var address :| address in todo;
      AddEntry(state, address, alloc[address], done);
      done := done[address := alloc[address]];
      todo := todo - {address};
    }
    assert done == alloc;
  }

  /** `Alloc.state_root`. */
  method AllocStateRoot(K: Keccak, alloc: Alloc) returns (root: Bytes32)
    ensures ValidAccounts(AccountsOf(alloc)) && ValidStorages(StoragesOf(alloc))
    ensures Distinct(K, AccountsOf(alloc), StoragesOf(alloc)) ==>
              root == StateRootOf(K, AccountsOf(alloc), StoragesOf(alloc))
  {
    var state := BuildState(alloc);
    root := StateRoot(K, state);
    assert state.Storages() == StoragesOf(alloc);
  }
}
