/**
 Reading a trie key by key, and the whole state: from the state root and the byte strings that were hashed
 one can read nonce, balance, code hash and every storage slot of every account, and they are those of the
 allocation.
 */
module StateReader {
  import opened ByteStrings
  import opened Rlp
  import opened HexPrefix
  import opened Options
  import opened PatriciaTree
  import opened TrieNodes
  import opened TrieReader
  import opened Tries
  import opened Storages
  import opened States
  import opened StateRoots
  import opened StateCommitment

  /** An account as it is in the account trie. */
  datatype AccountLeaf = AccountLeaf(nonce: nat, balance: nat, storageRoot: Bytes, codeHash: Bytes)

  /** A number: a byte string, big-endian. */
  function ReadNumber(bytes: Bytes): Option<nat> {
    match Decode(bytes)
    case Some(Str(s)) => Some(FromBE(s))
    case _ => None
  }

  /** An account: a list of nonce, balance, storage root and code hash. */
  function ReadAccountLeaf(bytes: Bytes): Option<AccountLeaf> {
    match Decode(bytes)
    case Some(List(items)) =>
      if |items| == 4 && items[0].Str? && items[1].Str? && items[2].Str? && items[3].Str? then
        Some(AccountLeaf(FromBE(items[0].bytes), FromBE(items[1].bytes), items[2].bytes, items[3].bytes))
      else None
    case _ => None
  }

  /** What is found for a key says this value. */
  ghost predicate Says(K: Keccak, roots: StorageRoots, key: Bytes, found: Bytes, node: Node) {
    match node
    case Raw(bytes) => found == bytes
    case Word(word) => ReadNumber(found) == Some(word)
    case FrontierAccount(nonce, balance, code) =>
      roots.Some? && ReadAccountLeaf(found) == Some(AccountLeaf(nonce, balance, roots.value(key), K(code)))
    case _ => false
  }

  /** The value found in a trie for a key, which is hashed if the trie is secured. */
  ghost function ReadKey(K: Keccak, hashed: set<Bytes>, root: Bytes, secured: bool, key: Bytes): Option<Bytes> {
    ReadRoot(K, hashed, root, Unpack(if secured then K(key) else key))
  }

  ghost predicate ShortNonce(node: Node) {
    node.FrontierAccount? ==> |ToBE(node.nonce)| < MAX_LENGTH / 2
  }

  ghost predicate ShortNonces(data: map<Bytes, Node>) {
    forall k {:trigger k in data} :: k in data ==> ShortNonce(data[k])
  }

  lemma WordSays(word: U256)
    ensures ReadNumber(Encode(Str(ToBE(word)))) == Some(word)
  {
    WordEncoding(word, 0);
    DecodeOfEncode(Str(ToBE(word)));
    FromToBE(word);
  }

  lemma FourStrings(a: Bytes, b: Bytes, c: Bytes32, d: Bytes32)
    requires |a| < MAX_LENGTH / 2 && |b| <= 32
    ensures Encodable(List([Str(a), Str(b), Str(c), Str(d)]))
  {
    StrLength(a);
    StrLength(b);
    HashLength(c);
    HashLength(d);
    EncodeAllOfTwo(Str(a), Str(b));
    EncodeAllAppend([Str(a), Str(b)], Str(c));
    EncodeAllAppend([Str(a), Str(b), Str(c)], Str(d));
    assert [Str(a), Str(b)] + [Str(c)] == [Str(a), Str(b), Str(c)];
    assert [Str(a), Str(b), Str(c)] + [Str(d)] == [Str(a), Str(b), Str(c), Str(d)];
  }

  lemma LeafOfStrings(a: Bytes, b: Bytes, c: Bytes32, d: Bytes32)
    requires |a| < MAX_LENGTH / 2 && |b| <= 32
    ensures ReadAccountLeaf(Encode(List([Str(a), Str(b), Str(c), Str(d)]))) ==
            Some(AccountLeaf(FromBE(a), FromBE(b), c, d))
  {
    FourStrings(a, b, c, d);
    DecodeOfEncode(List([Str(a), Str(b), Str(c), Str(d)]));
  }

  lemma AccountSays(K: Keccak, node: Node, root: Bytes32)
    requires node.FrontierAccount? && ShortNonce(node)
    ensures ReadAccountLeaf(EncodeAccount(K, node, root)) ==
            Some(AccountLeaf(node.nonce, node.balance, root, K(node.code)))
  {
    WordEncoding(node.balance, 0);
    LeafOfStrings(ToBE(node.nonce), ToBE(node.balance), root, K(node.code));
    FromToBE(node.nonce);
    FromToBE(node.balance);
  }

  lemma EncodedSays(K: Keccak, roots: StorageRoots, key: Bytes, node: Node, encoded: Bytes)
    requires EncodedValue(K, roots, key, node) == Some(encoded) && ShortNonce(node)
    ensures Says(K, roots, key, encoded, node)
  {
    match node
    case Word(word) => WordSays(word);
    case FrontierAccount(_, _, _) => AccountSays(K, node, roots.value(key));
    case _ =>
  }

  /** From the root of any trie, secured or not: a key is found exactly if it is there, with the value it has. */
  lemma TrieReads(K: Keccak, secured: bool, roots: StorageRoots, data: map<Bytes, Node>, m: Entries,
                  hashed: set<Bytes>, key: Bytes)
    requires PreparedFrom(K, secured, roots, data, m) && BoundedEntries(m) && ShortNonces(data)
    requires KeysDistinct(K, secured, data.Keys + {key})
    requires Hashed(K, Build(m, 0)) <= hashed && CollisionFree(K, hashed)
    ensures var found := ReadKey(K, hashed, RootOf(K, m), secured, key);
            && (found.Some? <==> key in data)
            && (key in data ==> Says(K, roots, key, found.value, data[key]))
  {
    PreparedNonEmpty(K, secured, roots, data, m);
    RootReads(K, m, hashed, TrieKey(K, secured, key));
    PreparedValue(K, secured, roots, data, m, data.Keys + {key}, key);
    if key in data {
      EncodedSays(K, roots, key, data[key], m[TrieKey(K, secured, key)]);
    }
  }

  // ---- The state ----

  /** What the account trie of a state says of an address. */
  ghost function ReadAccount(K: Keccak, hashed: set<Bytes>, root: Bytes, address: Address): Option<AccountLeaf> {
    var found := ReadKey(K, hashed, root, true, address);
    if found.None? then None else ReadAccountLeaf(found.value)
  }

  /** What a storage trie says of the slot whose number these 32 bytes are; nothing means zero. */
  ghost function ReadSlot(K: Keccak, hashed: set<Bytes>, root: Bytes, slot: Bytes32): Option<nat> {
    var found := ReadKey(K, hashed, root, true, slot);
    if found.None? then Some(0) else ReadNumber(found.value)
  }

  lemma PreparedIsFrom(K: Keccak, secured: bool, roots: StorageRoots, data: map<Bytes, Node>)
    requires Preparable(K, roots, data) && KeysDistinct(K, secured, data.Keys)
    ensures PreparedFrom(K, secured, roots, data, Prepared(K, secured, roots, data))
  {
    var m := Prepared(K, secured, roots, data);
    forall n | n in m
      ensures exists k :: k in data && TrieKey(K, secured, k) == n && EncodedValue(K, roots, k, data[k]) == Some(m[n])
    {
      var k :| k in data && TrieKey(K, secured, k) == n;
      PreparedAt(K, secured, roots, data, k);
    }
  }

  /** The slot with this key. */
  function SlotNumber(slot: Bytes32): U256 {
    SlotOfKey(slot);
    FromBE(slot)
  }

  /** Every slot of a storage, zero or not. */
  lemma StorageReads(K: Keccak, slots: Slots, hashed: set<Bytes>, slot: Bytes32)
    requires HashesEmptyTrie(K) && StorageHashed(K, StorageData(slots)) <= hashed && CollisionFree(K, hashed)
    requires slot in hashed
    ensures KeysDistinct(K, true, StorageData(slots).Keys)
    ensures ReadSlot(K, hashed, StorageRootOf(K, StorageData(slots)), slot) == Some(ValueOf(slots, SlotNumber(slot)))
  {
    var data := StorageData(slots);
    SlotOfKey(slot);
    StorageDataRepresents(slots);
    var m := PreparedStorage(K, data, hashed);
    PreparedIsFrom(K, true, None, data);
    DistinctIfCollisionFree(K, data.Keys + {slot}, hashed);
    TrieReads(K, true, None, data, m, hashed, slot);
    assert WordAt(slots, slot) == ValueOf(slots, SlotNumber(slot));
  }

  ghost function RootsIn(K: Keccak, alloc: Alloc): StorageRoots
    requires Distinct(K, AccountsOf(alloc), StoragesOf(alloc))
  {
    AllocValid(alloc);
    Some(RootLookup(StorageRootsOf(K, AccountsOf(alloc), StoragesOf(alloc))))
  }

  lemma AccountsAreFrom(K: Keccak, alloc: Alloc)
    requires Distinct(K, AccountsOf(alloc), StoragesOf(alloc))
    ensures PreparedFrom(K, true, RootsIn(K, alloc), AccountsOf(alloc), PreparedAccounts(K, alloc))
  {
    AllocValid(alloc);
    AccountsPreparable(K, AccountsOf(alloc), StorageRootsOf(K, AccountsOf(alloc), StoragesOf(alloc)));
    PreparedIsFrom(K, true, RootsIn(K, alloc), AccountsOf(alloc));
  }

  lemma RootIn(K: Keccak, alloc: Alloc, a: Address)
    requires Distinct(K, AccountsOf(alloc), StoragesOf(alloc)) && a in alloc && alloc[a].Some?
    ensures KeysDistinct(K, true, StorageData(alloc[a].value.storage).Keys)
    ensures RootsIn(K, alloc).value(a) == StorageRootOf(K, StorageData(alloc[a].value.storage))
  {
    PreparedAccountAt(K, alloc, a);
    AccountAt(alloc, a);
  }

  /** The accounts of an allocation, by address. */
  lemma AccountReads(K: Keccak, alloc: Alloc, hashed: set<Bytes>, a: Address)
    requires BoundedNonces(alloc) && AllocHashed(K, alloc) <= hashed && CollisionFree(K, hashed) && a in hashed
    ensures Distinct(K, AccountsOf(alloc), StoragesOf(alloc))
    ensures var leaf := ReadAccount(K, hashed, AllocRootOf(K, alloc), a);
            if a in alloc && alloc[a].Some? then
              var account := alloc[a].value;
              && KeysDistinct(K, true, StorageData(account.storage).Keys)
              && leaf == Some(AccountLeaf(account.nonce, account.balance,
                                          StorageRootOf(K, StorageData(account.storage)), K(account.code)))
            else leaf == None
  {
    AllocDistinct(K, alloc, hashed);
    AllocBounded(K, alloc);
    AccountsAreFrom(K, alloc);
    DistinctIfCollisionFree(K, AccountsOf(alloc).Keys + {a}, hashed);
    TrieReads(K, true, RootsIn(K, alloc), AccountsOf(alloc), PreparedAccounts(K, alloc), hashed, a);
    if a in alloc && alloc[a].Some? {
      RootIn(K, alloc, a);
      AccountAt(alloc, a);
    }
  }

  /** Read from this root, address and slot are those of the allocation. */
  ghost predicate ReadsAs(K: Keccak, hashed: set<Bytes>, root: Bytes32, alloc: Alloc, a: Address, slot: Bytes32) {
    var leaf := ReadAccount(K, hashed, root, a);
    && (leaf.Some? <==> a in alloc && alloc[a].Some?)
    && (leaf.Some? ==>
          var account := alloc[a].value;
          && leaf.value.nonce == account.nonce && leaf.value.balance == account.balance
          && leaf.value.codeHash == K(account.code)
          && ReadSlot(K, hashed, leaf.value.storageRoot, slot) == Some(ValueOf(account.storage, SlotNumber(slot))))
  }

  /**
   From the state root of an allocation and what was hashed for it one reads, for every address and every slot
   that is looked up: whether there is an account, its nonce, its balance, the hash of its code, and the value
   of the slot.
   */
  lemma StateReads(K: Keccak, alloc: Alloc, hashed: set<Bytes>, a: Address, slot: Bytes32)
    requires HashesEmptyTrie(K) && BoundedNonces(alloc)
    requires AllocHashed(K, alloc) <= hashed && CollisionFree(K, hashed) && a in hashed && slot in hashed
    ensures Distinct(K, AccountsOf(alloc), StoragesOf(alloc))
    ensures ReadsAs(K, hashed, AllocRootOf(K, alloc), alloc, a, slot)
  {
    AccountReads(K, alloc, hashed, a);
    if a in alloc && alloc[a].Some? {
      AccountHashed(K, alloc, a);
      StorageReads(K, alloc[a].value.storage, hashed, slot);
    }
  }
}
