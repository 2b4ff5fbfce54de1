/**
 What roots commit to. Storages compare equal exactly when their storage roots are equal, and
 allocations have one state root exactly when they are the same up to missing accounts and zero
 slots. Where equality of roots is used, `K` must not collide on the finitely many byte strings
 hashed for the two sides; nothing else is asked of it.
 */
module StateCommitment {
  import opened ByteStrings
  import opened Rlp
  import opened HexPrefix
  import opened Options
  import opened PatriciaTree
  import opened TrieNodes
  import opened Tries
  import opened Storages
  import opened States
  import opened StateRoots

  /** Everything hashed for one storage trie: its keys and its nodes. */
  ghost function StorageHashed(K: Keccak, data: map<Bytes, Node>): set<Bytes>
    requires ValidStorageData(data)
  {
    data.Keys +
    if KeysDistinct(K, true, data.Keys) then
      StoragePreparable(K, data); Hashed(K, Build(Prepared(K, true, None, data), 0))
    else {}
  }

  lemma DistinctIfCollisionFree(K: Keccak, keys: set<Bytes>, hashed: set<Bytes>)
    requires keys <= hashed && CollisionFree(K, hashed)
    ensures KeysDistinct(K, true, keys)
  {
    forall a, b | a in keys && b in keys && TrieKey(K, true, a) == TrieKey(K, true, b) ensures a == b {
      UnpackInjective(K(a), K(b));
    }
  }

  /** A key of one trie that falls on a key of another is that key. */
  lemma SameTrieKey(K: Keccak, a: Bytes, b: Bytes, hashed: set<Bytes>)
    requires a in hashed && b in hashed && CollisionFree(K, hashed)
    requires TrieKey(K, true, a) == TrieKey(K, true, b)
    ensures a == b
  {
    UnpackInjective(K(a), K(b));
  }

  // ---- Storage ----

  lemma WordEncoding(v: U256, w: U256)
    ensures |ToBE(v)| <= 32 && |Encode(Str(ToBE(v)))| <= 41
    ensures Encode(Str(ToBE(v))) == Encode(Str(ToBE(w))) ==> v == w
  {
    Pow256Of32();
    ToBELength(v, 32);
    ToBELength(w, 32);
    StrLength(ToBE(v));
    if Encode(Str(ToBE(v))) == Encode(Str(ToBE(w))) {
      EncodeInjective(Str(ToBE(v)), Str(ToBE(w)));
      ToBEInjective(v, w);
    }
  }

  lemma StorageBounded(K: Keccak, data: map<Bytes, Node>)
    requires ValidStorageData(data) && KeysDistinct(K, true, data.Keys) && Preparable(K, None, data)
    ensures BoundedEntries(Prepared(K, true, None, data)) && NonEmptyValues(Prepared(K, true, None, data))
  {
    var m := Prepared(K, true, None, data);
    forall n | n in m ensures |n| < MAX_LENGTH && |m[n]| < MAX_LENGTH && m[n] != [] {
      var k :| k in data && TrieKey(K, true, k) == n;
      WordEncoding(data[k].word, 0);
    }
  }

  /** The root of a storage without slots is the constant for it. */
  lemma StorageRootIsTrieRoot(K: Keccak, data: map<Bytes, Node>)
    requires HashesEmptyTrie(K) && ValidStorageData(data) && KeysDistinct(K, true, data.Keys)
    requires Preparable(K, None, data)
    ensures StorageRootOf(K, data) == RootOf(K, Prepared(K, true, None, data))
  {
    if data == map[] {
      assert Prepared(K, true, None, data) == map[];
      assert Preimage(K, Empty) == [0x80];
    }
  }

  /** A prepared storage trie still has all of the storage. */
  lemma PreparedStorageCommits(K: Keccak, d: map<Bytes, Node>, e: map<Bytes, Node>, hashed: set<Bytes>)
    requires ValidStorageData(d) && ValidStorageData(e) && Preparable(K, None, d) && Preparable(K, None, e)
    requires KeysDistinct(K, true, d.Keys) && KeysDistinct(K, true, e.Keys)
    requires CollisionFree(K, hashed) && d.Keys <= hashed && e.Keys <= hashed
    requires Prepared(K, true, None, d) == Prepared(K, true, None, e)
    ensures forall k :: k in d ==> k in e && d[k] == e[k]
  {
    var m := Prepared(K, true, None, e);
    forall k | k in d ensures k in e && d[k] == e[k] {
      var n := TrieKey(K, true, k);
      assert n in Prepared(K, true, None, d);
      var l :| l in e && TrieKey(K, true, l) == n;
      SameTrieKey(K, k, l, hashed);
      WordEncoding(d[k].word, e[k].word);
    }
  }

  lemma PreparedStorageEqual(K: Keccak, d: map<Bytes, Node>, e: map<Bytes, Node>, hashed: set<Bytes>)
    requires ValidStorageData(d) && ValidStorageData(e) && Preparable(K, None, d) && Preparable(K, None, e)
    requires KeysDistinct(K, true, d.Keys) && KeysDistinct(K, true, e.Keys)
    requires CollisionFree(K, hashed) && d.Keys <= hashed && e.Keys <= hashed
    requires Prepared(K, true, None, d) == Prepared(K, true, None, e)
    ensures d == e
  {
    PreparedStorageCommits(K, d, e, hashed);
    PreparedStorageCommits(K, e, d, hashed);
  }

  lemma RootCommitsWithin(K: Keccak, m: Entries, n: Entries, hashed: set<Bytes>)
    requires NonEmptyValues(m) && NonEmptyValues(n) && BoundedEntries(m) && BoundedEntries(n)
    requires Hashed(K, Build(m, 0)) <= hashed && Hashed(K, Build(n, 0)) <= hashed && CollisionFree(K, hashed)
    requires RootOf(K, m) == RootOf(K, n)
    ensures m == n
  {
    RootCommits(K, m, n);
  }

  lemma PreparedStorage(K: Keccak, data: map<Bytes, Node>, hashed: set<Bytes>) returns (m: Entries)
    requires HashesEmptyTrie(K) && ValidStorageData(data)
    requires StorageHashed(K, data) <= hashed && CollisionFree(K, hashed)
    ensures KeysDistinct(K, true, data.Keys) && Preparable(K, None, data)
    ensures m == Prepared(K, true, None, data) && StorageRootOf(K, data) == RootOf(K, m)
    ensures BoundedEntries(m) && NonEmptyValues(m) && Hashed(K, Build(m, 0)) <= hashed
  {
    DistinctIfCollisionFree(K, data.Keys, hashed);
    StoragePreparable(K, data);
    m := Prepared(K, true, None, data);
    StorageRootIsTrieRoot(K, data);
    StorageBounded(K, data);
  }

  /** Equal storage roots, equal storage tries. */
  lemma StorageRootCommits(K: Keccak, d: map<Bytes, Node>, e: map<Bytes, Node>, hashed: set<Bytes>)
    requires HashesEmptyTrie(K) && ValidStorageData(d) && ValidStorageData(e)
    requires StorageHashed(K, d) <= hashed && StorageHashed(K, e) <= hashed && CollisionFree(K, hashed)
    ensures KeysDistinct(K, true, d.Keys) && KeysDistinct(K, true, e.Keys)
    ensures StorageRootOf(K, d) == StorageRootOf(K, e) ==> d == e
  {
    var m := PreparedStorage(K, d, hashed);
    var n := PreparedStorage(K, e, hashed);
    if StorageRootOf(K, d) == StorageRootOf(K, e) {
      RootCommitsWithin(K, m, n, hashed);
      PreparedStorageEqual(K, d, e, hashed);
    }
  }

  /** A storage trie has every non-zero slot and nothing else. */
  lemma StorageDataInjective(a: Slots, b: Slots)
    ensures StorageData(a) == StorageData(b) <==> NonZero(a) == NonZero(b)
  {
    StorageDataRepresents(a);
    StorageDataRepresents(b);
    if StorageData(a) == StorageData(b) {
      forall k: U256 ensures ValueOf(a, k) == ValueOf(b, k) {
        WordAtSlot(a, k);
        WordAtSlot(b, k);
        assert SlotKey(k) in StorageData(a) <==> SlotKey(k) in StorageData(b);
      }
      AgreeIsNonZeroEquality(a, b);
    } else if NonZero(a) == NonZero(b) {
      SameNonZeroSameData(a, b);
    }
  }

  lemma WordAtSlot(slots: Slots, k: U256)
    ensures WordAt(slots, SlotKey(k)) == ValueOf(slots, k)
  {
    KeyOfSlot(k);
  }

  lemma SameNonZeroSameData(a: Slots, b: Slots)
    requires NonZero(a) == NonZero(b)
    ensures StorageData(a) == StorageData(b)
  {
    StorageDataRepresents(a);
    StorageDataRepresents(b);
    SameRepresents(a, b, StorageData(b));
    RepresentsUnique(a, StorageData(a), StorageData(b));
  }

  lemma SameWord(a: Slots, b: Slots, x: Bytes)
    requires Agree(a, b, {})
    ensures WordAt(a, x) == WordAt(b, x)
  {
    if |x| == 32 {
      SlotOfKey(x);
      assert ValueOf(a, FromBE(x)) == ValueOf(b, FromBE(x));
    }
  }

  lemma SameRepresents(a: Slots, b: Slots, data: map<Bytes, Node>)
    requires NonZero(a) == NonZero(b) && Represents(b, data)
    ensures Represents(a, data)
  {
    AgreeIsNonZeroEquality(a, b);
    forall x: Bytes ensures WordAt(a, x) == WordAt(b, x) {
      SameWord(a, b, x);
    }
  }

  /**
   `must_be_equal` passes, whatever keys are marked "any", exactly when the storage root of the expected
   storage is that of the other one without the excused slots.
   */
  lemma StorageEqualityIsRootEquality(K: Keccak, expected: Slots, other: Slots, excused: set<U256>)
    requires HashesEmptyTrie(K) && excused !! expected.Keys
    requires CollisionFree(K, StorageHashed(K, StorageData(expected)) +
                              StorageHashed(K, StorageData(Without(other, excused))))
    ensures KeysDistinct(K, true, StorageData(expected).Keys)
    ensures KeysDistinct(K, true, StorageData(Without(other, excused)).Keys)
    ensures Agree(expected, other, excused) <==>
            StorageRootOf(K, StorageData(expected)) == StorageRootOf(K, StorageData(Without(other, excused)))
  {
    var d, e := StorageData(expected), StorageData(Without(other, excused));
    StorageRootCommits(K, d, e, StorageHashed(K, d) + StorageHashed(K, e));
    StorageDataInjective(expected, Without(other, excused));
    AgreeWithAny(expected, other, excused);
  }

  // ---- State ----

  /** An allocation without absent accounts and zero slots: what a state root can see of it. */
  ghost function Normalised(alloc: Alloc): map<Address, Account> {
    map a | a in alloc && alloc[a].Some? :: alloc[a].value.(storage := NonZero(alloc[a].value.storage))
  }

  ghost predicate BoundedNonces(alloc: Alloc) {
    forall a {:trigger alloc[a]} :: a in alloc && alloc[a].Some? ==> |ToBE(alloc[a].value.nonce)| < MAX_LENGTH / 2
  }

  /** Everything hashed for an allocation: addresses, codes, storages and the nodes of the account trie. */
  ghost function AllocHashed(K: Keccak, alloc: Alloc): set<Bytes> {
    var accounts, storages := AccountsOf(alloc), StoragesOf(alloc);
    AllocValid(alloc);
    accounts.Keys
    + (set a | a in accounts :: accounts[a].code)
    + (set a, b | a in alloc && alloc[a].Some? && b in StorageHashed(K, StorageData(alloc[a].value.storage)) :: b)
    + if Distinct(K, accounts, storages) then Hashed(K, Build(PreparedAccounts(K, alloc), 0)) else {}
  }

  lemma AllocValid(alloc: Alloc)
    ensures ValidAccounts(AccountsOf(alloc)) && ValidStorages(StoragesOf(alloc))
  {}

  ghost function PreparedAccounts(K: Keccak, alloc: Alloc): Entries
    requires Distinct(K, AccountsOf(alloc), StoragesOf(alloc))
  {
    AllocValid(alloc);
    var roots := StorageRootsOf(K, AccountsOf(alloc), StoragesOf(alloc));
    AccountsPreparable(K, AccountsOf(alloc), roots);
    Prepared(K, true, Some(RootLookup(roots)), AccountsOf(alloc))
  }

  /** The state root `Alloc.state_root` computes. */
  ghost function AllocRootOf(K: Keccak, alloc: Alloc): Bytes32
    requires Distinct(K, AccountsOf(alloc), StoragesOf(alloc))
  {
    AllocValid(alloc);
    StateRootOf(K, AccountsOf(alloc), StoragesOf(alloc))
  }

  lemma AllocDistinct(K: Keccak, alloc: Alloc, hashed: set<Bytes>)
    requires AllocHashed(K, alloc) <= hashed && CollisionFree(K, hashed)
    ensures Distinct(K, AccountsOf(alloc), StoragesOf(alloc))
    ensures Hashed(K, Build(PreparedAccounts(K, alloc), 0)) <= hashed
    ensures AllocRootOf(K, alloc) == RootOf(K, PreparedAccounts(K, alloc))
  {
    var accounts, storages := AccountsOf(alloc), StoragesOf(alloc);
    DistinctIfCollisionFree(K, accounts.Keys, hashed);
    forall a | a in storages ensures KeysDistinct(K, true, storages[a].Keys) {
      assert StorageHashed(K, storages[a]) <= AllocHashed(K, alloc);
      DistinctIfCollisionFree(K, storages[a].Keys, hashed);
    }
  }

  /** The encoding of one account in the account trie. */
  ghost function AccountEncoding(K: Keccak, account: Account): Bytes
    requires KeysDistinct(K, true, StorageData(account.storage).Keys)
  {
    EncodeAccount(K, AccountNode(account), StorageRootOf(K, StorageData(account.storage)))
  }

  lemma AccountAt(alloc: Alloc, a: Address)
    requires a in alloc && alloc[a].Some?
    ensures a in AccountsOf(alloc) && AccountsOf(alloc)[a] == AccountNode(alloc[a].value)
    ensures StorageOf(StoragesOf(alloc), a) == StorageData(alloc[a].value.storage)
  {}

  lemma EncodedAccount(K: Keccak, roots: map<Bytes, Bytes32>, a: Address, node: Node)
    requires a in roots && node.FrontierAccount?
    ensures EncodedValue(K, Some(RootLookup(roots)), a, node) == Some(EncodeAccount(K, node, roots[a]))
  {}

  /** What the account trie holds at the key of an address. */
  lemma PreparedAccountAt(K: Keccak, alloc: Alloc, a: Address)
    requires Distinct(K, AccountsOf(alloc), StoragesOf(alloc)) && a in alloc && alloc[a].Some?
    ensures KeysDistinct(K, true, StorageData(alloc[a].value.storage).Keys)
    ensures TrieKey(K, true, a) in PreparedAccounts(K, alloc)
    ensures PreparedAccounts(K, alloc)[TrieKey(K, true, a)] == AccountEncoding(K, alloc[a].value)
  {
    var accounts, storages := AccountsOf(alloc), StoragesOf(alloc);
    AllocValid(alloc);
    AccountAt(alloc, a);
    var roots := StorageRootsOf(K, accounts, storages);
    AccountsPreparable(K, accounts, roots);
    PreparedAt(K, true, Some(RootLookup(roots)), accounts, a);
    EncodedAccount(K, roots, a, accounts[a]);
  }

  lemma AccountEncodingShort(K: Keccak, account: Account)
    requires KeysDistinct(K, true, StorageData(account.storage).Keys) && |ToBE(account.nonce)| < MAX_LENGTH / 2
    ensures |AccountEncoding(K, account)| < MAX_LENGTH && Encodable(AccountItem(K, account))
    ensures AccountEncoding(K, account) == Encode(AccountItem(K, account))
  {
    var nonce, balance := Str(ToBE(account.nonce)), Str(ToBE(account.balance));
    var root, hash := Str(StorageRootOf(K, StorageData(account.storage))), Str(K(account.code));
    StrLength(ToBE(account.nonce));
    WordEncoding(account.balance, 0);
    HashLength(root.bytes);
    HashLength(hash.bytes);
    EncodeAllOfTwo(nonce, balance);
    EncodeAllAppend([nonce, balance], root);
    EncodeAllAppend([nonce, balance, root], hash);
    assert [nonce, balance] + [root] == [nonce, balance, root];
    assert [nonce, balance, root] + [hash] == AccountItem(K, account).items;
    HeaderLength(|EncodeAll(AccountItem(K, account).items)|);
  }

  ghost function AccountItem(K: Keccak, account: Account): Item
    requires KeysDistinct(K, true, StorageData(account.storage).Keys)
  {
    List([Str(ToBE(account.nonce)), Str(ToBE(account.balance)),
          Str(StorageRootOf(K, StorageData(account.storage))), Str(K(account.code))])
  }

  /** The encoding of an account has all of it, zero slots aside. */
  lemma AccountCommits(K: Keccak, x: Account, y: Account, hashed: set<Bytes>)
    requires HashesEmptyTrie(K) && CollisionFree(K, hashed)
    requires StorageHashed(K, StorageData(x.storage)) <= hashed && StorageHashed(K, StorageData(y.storage)) <= hashed
    requires x.code in hashed && y.code in hashed
    requires |ToBE(x.nonce)| < MAX_LENGTH / 2 && |ToBE(y.nonce)| < MAX_LENGTH / 2
    requires KeysDistinct(K, true, StorageData(x.storage).Keys) && KeysDistinct(K, true, StorageData(y.storage).Keys)
    requires AccountEncoding(K, x) == AccountEncoding(K, y)
    ensures x.(storage := NonZero(x.storage)) == y.(storage := NonZero(y.storage))
  {
    AccountEncodingShort(K, x);
    AccountEncodingShort(K, y);
    EncodeInjective(AccountItem(K, x), AccountItem(K, y));
    var xs, ys := AccountItem(K, x).items, AccountItem(K, y).items;
    assert xs[0] == ys[0] && xs[1] == ys[1] && xs[2] == ys[2] && xs[3] == ys[3];
    ToBEInjective(x.nonce, y.nonce);
    ToBEInjective(x.balance, y.balance);
    StorageRootCommits(K, StorageData(x.storage), StorageData(y.storage), hashed);
    StorageDataInjective(x.storage, y.storage);
  }

  lemma AllocBounded(K: Keccak, alloc: Alloc)
    requires Distinct(K, AccountsOf(alloc), StoragesOf(alloc)) && BoundedNonces(alloc)
    ensures BoundedEntries(PreparedAccounts(K, alloc)) && NonEmptyValues(PreparedAccounts(K, alloc))
  {
    var m := PreparedAccounts(K, alloc);
    forall n | n in m ensures |n| < MAX_LENGTH && |m[n]| < MAX_LENGTH && m[n] != [] {
      var a := AddressAt(K, alloc, n);
      PreparedAccountAt(K, alloc, a);
      AccountEncodingShort(K, alloc[a].value);
    }
  }

  lemma AddressAt(K: Keccak, alloc: Alloc, n: Nibbles) returns (a: Address)
    requires Distinct(K, AccountsOf(alloc), StoragesOf(alloc)) && n in PreparedAccounts(K, alloc)
    ensures a in alloc && alloc[a].Some? && TrieKey(K, true, a) == n && |n| == 64
  {
    var k :| k in AccountsOf(alloc) && TrieKey(K, true, k) == n;
    a := k;
  }

  /** The hashed bytes of one account are among those of the allocation. */
  lemma AccountHashed(K: Keccak, alloc: Alloc, a: Address)
    requires a in alloc && alloc[a].Some?
    ensures a in AllocHashed(K, alloc) && alloc[a].value.code in AllocHashed(K, alloc)
    ensures StorageHashed(K, StorageData(alloc[a].value.storage)) <= AllocHashed(K, alloc)
  {
    assert a in AccountsOf(alloc);
  }

  /** Half of the equality of two allocations from the equality of their account tries. */
  lemma PreparedAccountsCommit(K: Keccak, x: Alloc, y: Alloc, a: Address, hashed: set<Bytes>)
    requires HashesEmptyTrie(K) && BoundedNonces(x) && BoundedNonces(y)
    requires AllocHashed(K, x) <= hashed && AllocHashed(K, y) <= hashed && CollisionFree(K, hashed)
    requires Distinct(K, AccountsOf(x), StoragesOf(x)) && Distinct(K, AccountsOf(y), StoragesOf(y))
    requires PreparedAccounts(K, x) == PreparedAccounts(K, y)
    requires a in Normalised(x)
    ensures a in Normalised(y) && Normalised(x)[a] == Normalised(y)[a]
  {
    PreparedAccountAt(K, x, a);
    AccountHashed(K, x, a);
    var b := AddressAt(K, y, TrieKey(K, true, a));
    AccountHashed(K, y, b);
    SameTrieKey(K, a, b, hashed);
    PreparedAccountAt(K, y, a);
    AccountCommits(K, x[a].value, y[a].value, hashed);
  }

  /** Equal normal forms build equal states. */
  lemma NormalisedDeterminesState(x: Alloc, y: Alloc)
    requires Normalised(x) == Normalised(y)
    ensures AccountsOf(x) == AccountsOf(y) && StoragesOf(x) == StoragesOf(y)
  {
    forall a: Address
      ensures a in x && x[a].Some? <==> a in y && y[a].Some?
      ensures a in x && x[a].Some? ==>
                && AccountNode(x[a].value) == AccountNode(y[a].value)
                && StorageData(x[a].value.storage) == StorageData(y[a].value.storage)
    {
      assert a in Normalised(x) <==> a in Normalised(y);
      if a in Normalised(x) {
        assert Normalised(x)[a] == Normalised(y)[a];
        SameNonZeroSameData(x[a].value.storage, y[a].value.storage);
      }
    }
    assert StorageDataOf(x) == StorageDataOf(y);
  }

  ghost predicate Within<X, Y>(m: map<X, Y>, n: map<X, Y>) {
    forall a {:trigger a in m} :: a in m ==> a in n && m[a] == n[a]
  }

  lemma WithinBothWays<X, Y>(m: map<X, Y>, n: map<X, Y>)
    requires Within(m, n) && Within(n, m)
    ensures m == n
  {}

  lemma PreparedAccountsAgree(K: Keccak, x: Alloc, y: Alloc, hashed: set<Bytes>)
    requires HashesEmptyTrie(K) && BoundedNonces(x) && BoundedNonces(y)
    requires AllocHashed(K, x) <= hashed && AllocHashed(K, y) <= hashed && CollisionFree(K, hashed)
    requires Distinct(K, AccountsOf(x), StoragesOf(x)) && Distinct(K, AccountsOf(y), StoragesOf(y))
    requires PreparedAccounts(K, x) == PreparedAccounts(K, y)
    ensures Within(Normalised(x), Normalised(y))
  {
    forall a | a in Normalised(x) ensures a in Normalised(y) && Normalised(x)[a] == Normalised(y)[a] {
      PreparedAccountsCommit(K, x, y, a, hashed);
    }
  }

  lemma EqualTriesEqualNormalForms(K: Keccak, x: Alloc, y: Alloc, hashed: set<Bytes>)
    requires HashesEmptyTrie(K) && BoundedNonces(x) && BoundedNonces(y)
    requires AllocHashed(K, x) <= hashed && AllocHashed(K, y) <= hashed && CollisionFree(K, hashed)
    requires Distinct(K, AccountsOf(x), StoragesOf(x)) && Distinct(K, AccountsOf(y), StoragesOf(y))
    requires PreparedAccounts(K, x) == PreparedAccounts(K, y)
    ensures Normalised(x) == Normalised(y)
  {
    PreparedAccountsAgree(K, x, y, hashed);
    PreparedAccountsAgree(K, y, x, hashed);
    WithinBothWays(Normalised(x), Normalised(y));
  }

  lemma EqualRootsEqualTries(K: Keccak, x: Alloc, y: Alloc, hashed: set<Bytes>)
    requires HashesEmptyTrie(K) && BoundedNonces(x) && BoundedNonces(y)
    requires AllocHashed(K, x) <= hashed && AllocHashed(K, y) <= hashed && CollisionFree(K, hashed)
    requires Distinct(K, AccountsOf(x), StoragesOf(x)) && Distinct(K, AccountsOf(y), StoragesOf(y))
    requires AllocRootOf(K, x) == AllocRootOf(K, y)
    ensures PreparedAccounts(K, x) == PreparedAccounts(K, y)
  {
    AllocDistinct(K, x, hashed);
    AllocDistinct(K, y, hashed);
    AllocBounded(K, x);
    AllocBounded(K, y);
    RootCommitsWithin(K, PreparedAccounts(K, x), PreparedAccounts(K, y), hashed);
  }

  /**
   The state root of an allocation is a function of its normal form and commits to it: two allocations
   have the same state root exactly when they agree on every account and every non-zero slot.
   */
  lemma StateRootCommits(K: Keccak, x: Alloc, y: Alloc)
    requires HashesEmptyTrie(K) && BoundedNonces(x) && BoundedNonces(y)
    requires CollisionFree(K, AllocHashed(K, x) + AllocHashed(K, y))
    ensures Distinct(K, AccountsOf(x), StoragesOf(x)) && Distinct(K, AccountsOf(y), StoragesOf(y))
    ensures AllocRootOf(K, x) == AllocRootOf(K, y) <==> Normalised(x) == Normalised(y)
  {
    var hashed := AllocHashed(K, x) + AllocHashed(K, y);
    AllocDistinct(K, x, hashed);
    AllocDistinct(K, y, hashed);
    if Normalised(x) == Normalised(y) {
      NormalisedDeterminesState(x, y);
    } else if AllocRootOf(K, x) == AllocRootOf(K, y) {
      EqualRootsEqualTries(K, x, y, hashed);
      EqualTriesEqualNormalForms(K, x, y, hashed);
    }
  }
}
