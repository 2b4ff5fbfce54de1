/**
 The world state (`State`, `set_account`, `set_storage`, `state_root`) and `Alloc.state_root`.
 A state holds a trie of accounts and, for each account with non-zero slots, a trie of its storage.
 */
module States {
  import opened ByteStrings
  import opened Rlp
  import opened Options
  import opened PatriciaTree
  import opened TrieNodes
  import opened Tries
  import opened Storages

  type Address = s: Bytes | |s| == 20 witness seq(20, _ => 0)

  const EMPTY_TRIE_ROOT: Bytes32 := [
    0x56, 0xe8, 0x1f, 0x17, 0x1b, 0xcc, 0x55, 0xa6, 0xff, 0x83, 0x45, 0xe6, 0x92, 0xc0, 0xf8, 0x6e,
    0x5b, 0x48, 0xe0, 0x1b, 0x99, 0x6c, 0xad, 0xc0, 0x01, 0x62, 0x2f, 0xb5, 0xe3, 0x63, 0xb4, 0x21
  ]

  /** What the source says of its constant: it is the hash of the encoded empty string. */
  ghost predicate HashesEmptyTrie(K: Keccak) {
    K([0x80]) == EMPTY_TRIE_ROOT
  }

  datatype Account = Account(nonce: nat, balance: U256, code: Bytes, storage: Slots)

  type Alloc = map<Address, Option<Account>>

  /** `Bytes32(Hash(key))`. */
  function SlotKey(key: U256): Bytes32 {
    ToFixedBE(key, 32)
  }

  /** A 32-byte string is the key of one slot. */
  lemma SlotOfKey(b: Bytes)
    requires |b| == 32
    ensures FromBE(b) < TWO_TO_THE_256 && SlotKey(FromBE(b)) == b
  {
    Pow256Of32();
    ToFixedFromBE(b);
  }

  lemma KeyOfSlot(key: U256)
    ensures FromBE(SlotKey(key)) == key
  {
    Pow256Of32();
    FromToFixedBE(key, 32);
  }

  lemma SlotKeysInjective()
    ensures forall a: U256, b: U256 :: SlotKey(a) == SlotKey(b) ==> a == b
  {
    forall a: U256, b: U256 | SlotKey(a) == SlotKey(b) ensures a == b {
      KeyOfSlot(a);
      KeyOfSlot(b);
    }
  }

  /** A storage as its trie holds it: zeros left out. */
  ghost function StorageData(slots: Slots): (data: map<Bytes, Node>)
    ensures ValidStorageData(data)
  {
    SlotKeysInjective();
    var data: map<Bytes, Node> := map k | k in NonZero(slots) :: SlotKey(k) := Word(slots[k]);
    assert ValidStorageData(data) by {
      forall b | b in data ensures |b| == 32 && data[b].Word? && data[b] != Word(0) {
        var k :| k in NonZero(slots) && SlotKey(k) == b;
      }
    }
    data
  }

  /** The value a storage has at the slot whose trie key is `b`. */
  function WordAt(slots: Slots, b: Bytes): U256 {
    if |b| == 32 && FromBE(b) in slots then slots[FromBE(b)] else 0
  }

  /** `data` is a storage as its trie holds it, said key by key. */
  ghost predicate Represents(slots: Slots, data: map<Bytes, Node>) {
    && (forall b {:trigger b in data} :: b in data <==> WordAt(slots, b) != 0)
    && (forall b {:trigger data[b]} :: b in data ==> data[b] == Word(WordAt(slots, b)))
  }

  lemma StorageDataRepresents(slots: Slots)
    ensures Represents(slots, StorageData(slots))
  {
    var data := StorageData(slots);
    SlotKeysInjective();
    forall b: Bytes | WordAt(slots, b) != 0 ensures b in data {
      SlotOfKey(b);
      assert FromBE(b) in NonZero(slots);
    }
    forall b | b in data ensures WordAt(slots, b) != 0 && data[b] == Word(WordAt(slots, b)) {
      var k :| k in NonZero(slots) && SlotKey(k) == b;
      KeyOfSlot(k);
    }
  }

  lemma RepresentsUnique(slots: Slots, data: map<Bytes, Node>, other: map<Bytes, Node>)
    requires Represents(slots, data) && Represents(slots, other)
    ensures data == other
  {}

  lemma WordAtSet(slots: Slots, key: U256, value: U256, b: Bytes)
    ensures WordAt(slots[key := value], b) == if b == SlotKey(key) then value else WordAt(slots, b)
  {
    KeyOfSlot(key);
    if |b| == 32 {
      SlotOfKey(b);
    }
  }

  /** Setting one slot of a storage trie, to zero or not. */
  lemma AssignedRepresents(slots: Slots, data: map<Bytes, Node>, key: U256, value: U256)
    requires Represents(slots, data)
    ensures Represents(slots[key := value], Assigned(data, Word(0), SlotKey(key), Word(value)))
  {
    var updated := Assigned(data, Word(0), SlotKey(key), Word(value));
    forall b: Bytes
      ensures b in updated <==> WordAt(slots[key := value], b) != 0
      ensures b in updated ==> updated[b] == Word(WordAt(slots[key := value], b))
    {
      WordAtSet(slots, key, value, b);
      if b != SlotKey(key) {
        assert b in updated <==> b in data;
      }
    }
  }

  ghost function AccountNode(account: Account): Node {
    FrontierAccount(account.nonce, account.balance, account.code)
  }

  /** The storage tries of a state, by address. */
  type StorageMap = map<Address, map<Bytes, Node>>

  function StorageOf(storages: StorageMap, address: Address): map<Bytes, Node> {
    if address in storages then storages[address] else map[]
  }

  /** A storage that may be empty, while it is being written. */
  function Opened(storages: StorageMap, address: Address): StorageMap {
    storages[address := StorageOf(storages, address)]
  }

  /** A storage without slots is erased. */
  function WithStorage(storages: StorageMap, address: Address, data: map<Bytes, Node>): StorageMap {
    if data == map[] then storages - {address} else storages[address := data]
  }

  /** `set_storage` on values: zero erases the slot. */
  function Stored(storages: StorageMap, address: Address, key: Bytes32, value: U256): StorageMap {
    WithStorage(storages, address, Assigned(StorageOf(storages, address), Word(0), key, Word(value)))
  }

  /** Accounts only, at 20-byte addresses. */
  ghost predicate ValidAccounts(data: map<Bytes, Node>) {
    forall a {:trigger a in data} :: a in data ==> |a| == 20 && data[a].FrontierAccount?
  }

  /** Non-zero words only, and no empty storage. */
  ghost predicate ValidStorages(storages: StorageMap) {
    forall a {:trigger a in storages} :: a in storages ==> storages[a] != map[] && ValidStorageData(storages[a])
  }

  ghost predicate ValidStorageData(data: map<Bytes, Node>) {
    forall k {:trigger k in data} :: k in data ==> |k| == 32 && data[k].Word? && data[k] != Word(0)
  }

  lemma StoredValid(storages: StorageMap, address: Address, key: Bytes32, value: U256)
    requires ValidStorages(storages)
    ensures ValidStorages(Stored(storages, address, key, value))
    ensures Stored(Opened(storages, address), address, key, value) == Stored(storages, address, key, value)
  {
    assert ValidStorageData(Assigned(StorageOf(storages, address), Word(0), key, Word(value)));
  }

  class State {
    var mainTrie: Trie
    var storageTries: map<Address, Trie>

    ghost predicate Valid()
      reads this, mainTrie, storageTries.Values
    {
      Separate() && ValidAccounts(mainTrie.data) && ValidStorages(Storages())
    }

    /** The tries are of the right kind and no two of them are the same object. */
    ghost predicate Separate()
      reads this
    {
      && mainTrie.secured && mainTrie.default == Nothing
      && (forall a :: a in storageTries ==>
            storageTries[a] != mainTrie && storageTries[a].secured && storageTries[a].default == Word(0))
      && (forall a, b :: a in storageTries && b in storageTries && a != b ==> storageTries[a] != storageTries[b])
    }

    ghost function Storages(): StorageMap
      reads this, storageTries.Values
    {
      map a | a in storageTries :: storageTries[a].data
    }

    constructor ()
      ensures Valid() && fresh(mainTrie)
      ensures mainTrie.data == map[] && storageTries == map[]
    {
      mainTrie := new Trie(true, Nothing);
      storageTries := map[];
    }

    /** `set_account`; `Nothing` deletes the account but not its storage. */
    method SetAccount(address: Address, account: Node)
      requires Valid() && (account.FrontierAccount? || account == Nothing)
      modifies mainTrie
      ensures Valid()
      ensures mainTrie.data == Assigned(old(mainTrie.data), Nothing, address, account)
      ensures Storages() == old(Storages())
    {
      mainTrie.Set(address, account);
      assert Storages() == old(Storages());
    }

    /** `set_storage`; not `ok` where it fails its assertion. */
    method SetStorage(address: Address, key: Bytes32, value: U256) returns (ok: bool)
      requires Valid()
      modifies this`storageTries, storageTries.Values
      ensures Valid() && fresh(storageTries.Values - old(storageTries.Values))
      ensures ok <==> address in mainTrie.data
      ensures Storages() == if ok then Stored(old(Storages()), address, key, value) else old(Storages())
    {
      if mainTrie.Get(address) == Nothing {
        return false;
      }
      ghost var before := Storages();
      StoredValid(before, address, key, value);
      var trie := StorageTrie(address);
      AssignSlot(address, trie, key, value);
      return true;
    }

    /** The storage trie of an address, new if it had none. */
    method StorageTrie(address: Address) returns (trie: Trie)
      requires Separate()
      modifies this`storageTries
      ensures Separate() && address in storageTries && storageTries[address] == trie
      ensures Storages() == Opened(old(Storages()), address)
      ensures fresh(storageTries.Values - old(storageTries.Values))
    {
      if address in storageTries {
        trie := storageTries[address];
      } else {
        trie := new Trie(true, Word(0));
        storageTries := storageTries[address := trie];
      }
    }

    method AssignSlot(address: Address, trie: Trie, key: Bytes32, value: U256)
      requires Separate() && address in storageTries && storageTries[address] == trie
      modifies this`storageTries, trie
      ensures Separate() && storageTries.Values <= old(storageTries.Values)
      ensures Storages() == Stored(old(Storages()), address, key, value)
    {
      trie.Set(key, Word(value));
      assert Storages() == old(Storages())[address := trie.data];
      if trie.data == map[] {
        Drop(address);
      }
    }

    method Drop(address: Address)
      requires Separate()
      modifies this`storageTries
      ensures Separate() && storageTries == old(storageTries) - {address}
      ensures Storages() == old(Storages()) - {address}
    {
      storageTries := map a | a in storageTries && a != address :: storageTries[a];
    }
  }
}
