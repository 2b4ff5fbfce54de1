/**
 The mutable `Trie` of `trie.py` and the computation of its root. Python visits a dictionary in
 insertion order; here every visit takes the keys in an arbitrary order, and the result is still
 one function of the dictionary's contents.
 */
module Tries {
  import opened ByteStrings
  import opened Rlp
  import opened HexPrefix
  import opened Options
  import opened PatriciaTree
  import opened TrieNodes

  /** Anything a trie can hold. */
  datatype Node =
    | FrontierAccount(nonce: nat, balance: U256, code: Bytes)
    | Raw(bytes: Bytes)
    | Word(word: U256)
    | Number(number: nat)
    | Nothing

  /** `get_storage_root` when it is passed. */
  type StorageRoots = Option<Bytes -> Bytes32>

  function EncodeAccount(K: Keccak, account: Node, storageRoot: Bytes): Bytes
    requires account.FrontierAccount?
  {
    Encode(List([Str(ToBE(account.nonce)), Str(ToBE(account.balance)), Str(storageRoot), Str(K(account.code))]))
  }

  /** `None` where the code raises AssertionError. */
  function EncodeNode(K: Keccak, node: Node, storageRoot: Option<Bytes>): Option<Bytes> {
    match node
    case FrontierAccount(_, _, _) =>
      if storageRoot.None? then None else Some(EncodeAccount(K, node, storageRoot.value))
    case Word(word) => Some(Encode(Str(ToBE(word))))
    case Raw(bytes) => Some(bytes)
    case Number(_) => None
    case Nothing => None
  }

  class Trie {
    const secured: bool
    const default: Node
    var data: map<Bytes, Node>

    constructor (secured: bool, default: Node)
      ensures this.secured == secured && this.default == default && data == map[]
    {
      this.secured := secured;
      this.default := default;
      data := map[];
    }

    /** `trie_set`. */
    method Set(key: Bytes, value: Node)
      modifies this`data
      ensures data == Assigned(old(data), default, key, value)
      ensures Get(key) == value && (key in data <==> value != default)
      ensures forall k :: k != key ==> (k in data <==> k in old(data)) && Get(k) == old(Get(k))
    {
      if value == default {
        if key in data {
          data := map k | k in data && k != key :: data[k];
        }
      } else {
        data := data[key := value];
      }
    }

    /** `trie_get`. */
    function Get(key: Bytes): Node
      reads this`data
    {
      if key in data then data[key] else default
    }
  }

  /** A trie stores a default by leaving it out. */
  function Assigned(data: map<Bytes, Node>, default: Node, key: Bytes, value: Node): map<Bytes, Node> {
    if value == default then data - {key} else data[key := value]
  }

  // ---- Preparing ----

  ghost function TrieKey(K: Keccak, secured: bool, preimage: Bytes): Nibbles {
    Unpack(if secured then K(preimage) else preimage)
  }

  ghost function EncodedValue(K: Keccak, roots: StorageRoots, preimage: Bytes, node: Node): (r: Option<Bytes>)
    ensures r.Some? ==> r.value != []
  {
    var encoded :=
      if node.FrontierAccount? then
        if roots.Some? && |preimage| == 20 then EncodeNode(K, node, Some(roots.value(preimage))) else None
      else EncodeNode(K, node, None);
    if encoded == Some([]) then None else encoded
  }

  ghost predicate Preparable(K: Keccak, roots: StorageRoots, data: map<Bytes, Node>) {
    forall k {:trigger k in data} :: k in data ==> EncodedValue(K, roots, k, data[k]).Some?
  }

  /** Byte strings that are not empty, words, and accounts at 20-byte addresses where storage roots are known. */
  predicate CanBePrepared(roots: StorageRoots, key: Bytes, node: Node) {
    match node
    case Raw(bytes) => bytes != []
    case Word(_) => true
    case FrontierAccount(_, _, _) => roots.Some? && |key| == 20
    case _ => false
  }

  /** Nothing else can be prepared. */
  lemma PreparableExactly(K: Keccak, roots: StorageRoots, data: map<Bytes, Node>)
    ensures Preparable(K, roots, data) <==> forall k :: k in data ==> CanBePrepared(roots, k, data[k])
  {
    forall k | k in data ensures EncodedValue(K, roots, k, data[k]).Some? <==> CanBePrepared(roots, k, data[k]) {
      EncodedExactly(K, roots, k, data[k]);
    }
  }

  lemma EncodedExactly(K: Keccak, roots: StorageRoots, key: Bytes, node: Node)
    ensures EncodedValue(K, roots, key, node).Some? <==> CanBePrepared(roots, key, node)
  {}

  /** No two keys fall together when hashed. */
  ghost predicate KeysDistinct(K: Keccak, secured: bool, keys: set<Bytes>) {
    forall a, b :: a in keys && b in keys && TrieKey(K, secured, a) == TrieKey(K, secured, b) ==> a == b
  }

  /** `m` holds one encoded value for every trie key; where keys fall together, that of one of them. */
  ghost predicate PreparedFrom(K: Keccak, secured: bool, roots: StorageRoots, data: map<Bytes, Node>, m: Entries) {
    && (forall k {:trigger k in data} :: k in data ==> TrieKey(K, secured, k) in m)
    && (forall n {:trigger n in m} :: n in m ==>
          exists k {:trigger k in data} ::
            k in data && TrieKey(K, secured, k) == n && EncodedValue(K, roots, k, data[k]) == Some(m[n]))
  }

  ghost function Prepared(K: Keccak, secured: bool, roots: StorageRoots, data: map<Bytes, Node>): Entries
    requires Preparable(K, roots, data) && KeysDistinct(K, secured, data.Keys)
  {
    map k | k in data :: TrieKey(K, secured, k) := EncodedValue(K, roots, k, data[k]).value
  }

  lemma PreparedUnique(K: Keccak, secured: bool, roots: StorageRoots, data: map<Bytes, Node>, m: Entries)
    requires Preparable(K, roots, data) && KeysDistinct(K, secured, data.Keys)
    requires PreparedFrom(K, secured, roots, data, m)
    ensures m == Prepared(K, secured, roots, data)
  {
    var p := Prepared(K, secured, roots, data);
    forall n | n in m ensures n in p && p[n] == m[n] {
      var k :| k in data && TrieKey(K, secured, k) == n && EncodedValue(K, roots, k, data[k]) == Some(m[n]);
    }
    forall n | n in p ensures n in m {
      var k :| k in data && TrieKey(K, secured, k) == n;
    }
  }

  lemma PreparedAt(K: Keccak, secured: bool, roots: StorageRoots, data: map<Bytes, Node>, k: Bytes)
    requires Preparable(K, roots, data) && KeysDistinct(K, secured, data.Keys) && k in data
    ensures TrieKey(K, secured, k) in Prepared(K, secured, roots, data)
    ensures Prepared(K, secured, roots, data)[TrieKey(K, secured, k)] == EncodedValue(K, roots, k, data[k]).value
  {}

  lemma PreparedNonEmpty(K: Keccak, secured: bool, roots: StorageRoots, data: map<Bytes, Node>, m: Entries)
    requires PreparedFrom(K, secured, roots, data, m)
    ensures NonEmptyValues(m)
  {
    forall n | n in m ensures m[n] != [] {
      var k :| k in data && TrieKey(K, secured, k) == n && EncodedValue(K, roots, k, data[k]) == Some(m[n]);
    }
  }

  /** `_prepare_trie`; `None` where it raises. */
  method PrepareTrie(K: Keccak, trie: Trie, roots: StorageRoots) returns (mapped: Option<Entries>)
    ensures mapped.Some? <==> Preparable(K, roots, trie.data)
    ensures mapped.Some? ==> PreparedFrom(K, trie.secured, roots, trie.data, mapped.value)
  {
    var m: Entries := map[];
    var todo := trie.data.Keys;
    while todo != {}
      invariant todo <= trie.data.Keys
      invariant Preparable(K, roots, trie.data - todo)
      invariant PreparedFrom(K, trie.secured, roots, trie.data - todo, m)
    {
      var preimage :| preimage in todo;
      var value := trie.data[preimage];
      var storageRoot: Option<Bytes> := None;
      if value.FrontierAccount? {
        if roots.None? || |preimage| != 20 {
          return None;
        }
        storageRoot := Some(roots.value(preimage));
      }
      var encoded := EncodeNode(K, value, storageRoot);
      if encoded.None? || encoded.value == [] {
        return None;
      }
      var key := if trie.secured then K(preimage) else preimage;
      var nibbles := BytesToNibbleList(key);
      PreparableStep(K, roots, trie.data, todo, preimage);
      PreparedStep(K, trie.secured, roots, trie.data, todo, m, preimage, encoded.value);
      m := m[nibbles := encoded.value];
      todo := todo - {preimage};
    }
    assert trie.data - todo == trie.data;
    return Some(m);
  }

  lemma PreparableStep(K: Keccak, roots: StorageRoots, data: map<Bytes, Node>, todo: set<Bytes>, preimage: Bytes)
    requires preimage in todo && todo <= data.Keys && Preparable(K, roots, data - todo)
    requires EncodedValue(K, roots, preimage, data[preimage]).Some?
    ensures Preparable(K, roots, data - (todo - {preimage}))
  {
    var before, after := data - todo, data - (todo - {preimage});
    forall k {:trigger k in after} | k in after ensures EncodedValue(K, roots, k, after[k]).Some? {
      assert k == preimage || k in before;
    }
  }

  lemma PreparedStep(K: Keccak, secured: bool, roots: StorageRoots, data: map<Bytes, Node>, todo: set<Bytes>,
                     m: Entries, preimage: Bytes, encoded: Bytes)
    requires preimage in todo && todo <= data.Keys
    requires PreparedFrom(K, secured, roots, data - todo, m)
    requires EncodedValue(K, roots, preimage, data[preimage]) == Some(encoded)
    ensures PreparedFrom(K, secured, roots, data - (todo - {preimage}), m[TrieKey(K, secured, preimage) := encoded])
  {
    var before, after := data - todo, data - (todo - {preimage});
    var m' := m[TrieKey(K, secured, preimage) := encoded];
    assert preimage in after;
    forall k {:trigger k in after} | k in after ensures TrieKey(K, secured, k) in m' {
      assert k == preimage || k in before;
    }
    forall n | n in m'
      ensures exists k ::
                k in after && TrieKey(K, secured, k) == n && EncodedValue(K, roots, k, after[k]) == Some(m'[n])
    {
      if n != TrieKey(K, secured, preimage) {
        var k :| k in before && TrieKey(K, secured, k) == n && EncodedValue(K, roots, k, before[k]) == Some(m[n]);
        assert k in after;
      }
    }
  }

  // ---- Composing ----

  function CommonPrefixLength(a: Nibbles, b: Nibbles): (n: nat)
    ensures n <= |a| && n <= |b| && (forall j :: 0 <= j < n ==> a[j] == b[j])
    ensures n < |a| && n < |b| ==> a[n] != b[n]
  {
    AgreementFrom(a, b, 0)
  }

  /** The loop of `common_prefix_length` from index `i` on. */
  function AgreementFrom(a: Nibbles, b: Nibbles, i: nat): (n: nat)
    requires i <= |a| && i <= |b|
    ensures i <= n <= |a| && n <= |b| && (forall j :: i <= j < n ==> a[j] == b[j])
    ensures n < |a| && n < |b| ==> a[n] != b[n]
    decreases |a| - i
  {
    if i == |a| || i >= |b| || a[i] != b[i] then i else AgreementFrom(a, b, i + 1)
  }

  /** How far two keys agree from `level` on. */
  function Common(key: Nibbles, k: Nibbles, level: nat): nat
    requires level <= |key| && level <= |k|
  {
    CommonPrefixLength(key[level..], k[level..])
  }

  lemma CommonAgrees(key: Nibbles, k: Nibbles, level: nat, n: nat)
    requires level <= |key| && level <= |k| && key[..level] == k[..level]
    requires n <= Common(key, k, level)
    ensures level + n <= |key| && level + n <= |k| && key[..level + n] == k[..level + n]
  {
    forall i | 0 <= i < level + n ensures key[i] == k[i] {
      if i < level {
        assert key[i] == key[..level][i] == k[..level][i] == k[i];
      } else {
        assert key[i] == key[level..][i - level] && k[i] == k[level..][i - level];
      }
    }
  }

  lemma CommonStops(key: Nibbles, k: Nibbles, level: nat)
    requires level <= |key| && level <= |k|
    ensures var f := level + Common(key, k, level);
            f < |key| && f < |k| ==> key[..f + 1] != k[..f + 1]
  {
    var n := Common(key, k, level);
    var f := level + n;
    if f < |key| && f < |k| {
      assert key[level..][n] == key[f] == key[..f + 1][f];
      assert k[level..][n] == k[f] == k[..f + 1][f];
    }
  }

  lemma AllShare(obj: Entries, key: Nibbles, level: nat, n: nat)
    requires SharePrefix(obj, level) && key in obj
    requires AtMostCommon(obj, key, level, n)
    ensures SharePrefix(obj, level + n)
  {
    forall k | k in obj ensures level + n <= |k| && level + n <= |key| && k[..level + n] == key[..level + n] {
      CommonAgrees(key, k, level, n);
    }
  }

  lemma BothShare(obj: Entries, key: Nibbles, other: Nibbles, n: nat)
    requires SharePrefix(obj, n) && key in obj && other in obj
    ensures n <= |key| && n <= |other| && key[..n] == other[..n]
  {}

  /** Where two keys part, the prefix all keys share ends. */
  lemma NotShared(obj: Entries, key: Nibbles, other: Nibbles, level: nat)
    requires level <= |key| && level <= |other| && key in obj && other in obj
    ensures !SharePrefix(obj, level + Common(key, other, level) + 1)
  {
    var f := level + Common(key, other, level);
    CommonStops(key, other, level);
    if SharePrefix(obj, f + 1) {
      BothShare(obj, key, other, f + 1);
    }
  }

  ghost predicate AtMostCommon(obj: Entries, key: Nibbles, level: nat, n: nat)
    requires SharePrefix(obj, level) && key in obj
  {
    forall k {:trigger k in obj} :: k in obj ==> n <= Common(key, k, level)
  }

  /** The least agreement with one key, over all keys, ends where the keys part. */
  lemma PrefixFound(obj: Entries, key: Nibbles, level: nat, least: Nibbles, n: nat)
    requires |obj| >= 2 && SharePrefix(obj, level) && key in obj && least in obj
    requires n == Common(key, least, level)
    requires n == 0 || AtMostCommon(obj, key, level, n)
    ensures level + n == ForkLevel(obj)
  {
    NotShared(obj, key, least, level);
    if n > 0 {
      AllShare(obj, key, level, n);
    }
    ForkUnique(obj, level + n);
  }

  method FindPrefixLength(obj: Entries, key: Nibbles, level: nat) returns (prefixLength: nat)
    requires |obj| >= 2 && SharePrefix(obj, level) && key in obj
    ensures level + prefixLength == ForkLevel(obj)
  {
    var substring := key[level..];
    prefixLength := |substring|;
    var todo := obj.Keys;
    ghost var least := key;
    while todo != {}
      invariant todo <= obj.Keys && prefixLength <= |substring|
      invariant todo != obj.Keys ==> least in obj && prefixLength == Common(key, least, level)
      invariant todo == obj.Keys ==> prefixLength == |substring|
      invariant forall k :: k in obj && k !in todo ==> prefixLength <= Common(key, k, level)
    {
      var k :| k in todo;
      var common := CommonPrefixLength(substring, k[level..]);
      if common <= prefixLength {
        prefixLength := common;
        least := k;
      }
      todo := todo - {k};
      if prefixLength == 0 {
        break;
      }
    }
    PrefixFound(obj, key, level, least, prefixLength);
  }

  /** What the dictionary of slot `i` holds once the keys in `visited` are distributed. */
  ghost function Filed(obj: Entries, level: nat, visited: set<Nibbles>, i: Nibble): Entries {
    map k | k in obj && k in visited && |k| > level && k[level] == i :: obj[k]
  }

  lemma FileKey(obj: Entries, level: nat, visited: set<Nibbles>, key: Nibbles, i: Nibble)
    requires key in obj
    ensures Filed(obj, level, visited + {key}, i) ==
            if |key| > level && key[level] == i then Filed(obj, level, visited, i)[key := obj[key]]
            else Filed(obj, level, visited, i)
  {}

  lemma FiledAll(obj: Entries, level: nat, visited: set<Nibbles>, i: Nibble)
    requires SharePrefix(obj, level) && visited == obj.Keys
    ensures Filed(obj, level, visited, i) == Slot(obj, level, i)
  {}

  /** The value of the branch once the keys in `visited` are distributed. */
  ghost predicate ValueFiled(obj: Entries, level: nat, visited: set<Nibbles>, value: Bytes)
    requires SharePrefix(obj, level)
  {
    if exists k :: k in visited && |k| == level then value == ValueAt(obj, level) else value == []
  }

  /** Fills the sixteen dictionaries of a branch, one key at a time. */
  method Distribute(obj: Entries, level: nat) returns (branches: seq<Entries>, value: Bytes)
    requires SharePrefix(obj, level)
    ensures |branches| == 16
    ensures forall i :: 0 <= i < 16 ==> branches[i] == Slot(obj, level, i)
    ensures value == ValueAt(obj, level)
  {
    branches := seq(16, _ => map[]);
    value := [];
    var todo := obj.Keys;
    ghost var visited := {};
    while todo != {}
      invariant visited + todo == obj.Keys && |branches| == 16
      invariant forall i :: 0 <= i < 16 ==> branches[i] == Filed(obj, level, visited, i)
      invariant ValueFiled(obj, level, visited, value)
    {
      var key :| key in todo;
      forall i | 0 <= i < 16 {
        FileKey(obj, level, visited, key, i);
      }
      if |key| == level {
        value := obj[key];
        ValueAtIs(obj, level, key);
      } else {
        branches := branches[key[level] := branches[key[level]][key := obj[key]]];
      }
      visited, todo := visited + {key}, todo - {key};
    }
    forall i | 0 <= i < 16 {
      FiledAll(obj, level, visited, i);
    }
  }

  /** The recursion of `patricialize`, whichever key comes first, builds the one tree of the map. */
  method Patricialize(K: Keccak, obj: Entries, level: nat) returns (node: Option<InternalNode>, ghost tree: Tree)
    requires SharePrefix(obj, level)
    ensures tree == Build(obj, level)
    ensures node == NodeOf(K, tree) == NodeOf(K, Build(obj, level))
    decreases |obj|, if |obj| >= 2 then ForkLevel(obj) - level else 0, 2
  {
    if |obj| == 0 {
      return None, Empty;
    }
    var arbitraryKey :| arbitraryKey in obj;
    if |obj| == 1 {
      SingletonKeys(obj, arbitraryKey);
      return Some(LeafNode(arbitraryKey[level..], Str(obj[arbitraryKey]))),
             Leaf(arbitraryKey[level..], obj[arbitraryKey]);
    }
    var prefixLength := FindPrefixLength(obj, arbitraryKey, level);
    if prefixLength > 0 {
      var prefix := arbitraryKey[level..level + prefixLength];
      var subnode, subtree := Patricialize(K, obj, level + prefixLength);
      ExtensionBuilt(obj, arbitraryKey, level);
      return Some(ExtensionNode(prefix, EncodeInternalNode(K, subnode))), Extension(prefix, subtree);
    }
    node, tree := ComposeBranch(K, obj, level);
  }

  method ComposeBranch(K: Keccak, obj: Entries, level: nat) returns (node: Option<InternalNode>, ghost tree: Tree)
    requires |obj| >= 2 && level == ForkLevel(obj)
    ensures tree == BuildBranch(obj, level)
    ensures node == NodeOf(K, tree) == NodeOf(K, BuildBranch(obj, level))
    decreases |obj|, 0, 1
  {
    var branches, value := Distribute(obj, level);
    forall i | 0 <= i < 16 ensures SharePrefix(branches[i], level + 1) && |branches[i]| < |obj| {
      assert branches[i] == Slot(obj, level, i);
    }
    var nodes;
    ghost var subtrees;
    nodes, subtrees := PatricializeAll(K, branches, level + 1, |obj|);
    assert subtrees == BuildBranch(obj, level).subtrees;
    var subnodes := seq(16, k requires 0 <= k < 16 => EncodeInternalNode(K, nodes[k]));
    BranchNodeOf(K, subtrees, value, nodes, subnodes);
    return Some(BranchNode(subnodes, Str(value))), Branch(subtrees, value);
  }

  method PatricializeAll(K: Keccak, branches: seq<Entries>, level: nat, ghost size: nat)
    returns (nodes: seq<Option<InternalNode>>, ghost subtrees: seq<Tree>)
    requires |branches| == 16
    requires forall i :: 0 <= i < 16 ==> SharePrefix(branches[i], level) && |branches[i]| < size
    ensures |nodes| == |subtrees| == 16
    ensures forall i :: 0 <= i < 16 ==> subtrees[i] == Build(branches[i], level)
    ensures forall i :: 0 <= i < 16 ==> nodes[i] == NodeOf(K, subtrees[i])
    decreases size, 0, 0
  {
    nodes, subtrees := [], [];
    for k := 0 to 16
      invariant |nodes| == |subtrees| == k
      invariant forall i :: 0 <= i < k ==> subtrees[i] == Build(branches[i], level)
      invariant forall i :: 0 <= i < k ==> nodes[i] == NodeOf(K, subtrees[i])
    {
      var node, subtree := Patricialize(K, branches[k], level);
      nodes := nodes + [node];
      subtrees := subtrees + [subtree];
    }
  }

  lemma BranchNodeOf(K: Keccak, subtrees: seq<Tree>, value: Bytes, nodes: seq<Option<InternalNode>>,
                     subnodes: seq<Item>)
    requires |subnodes| == |nodes| == |subtrees|
    requires forall i :: 0 <= i < |subtrees| ==> nodes[i] == NodeOf(K, subtrees[i])
    requires forall i :: 0 <= i < |subtrees| ==> subnodes[i] == EncodeInternalNode(K, nodes[i])
    ensures NodeOf(K, Branch(subtrees, value)) == Some(BranchNode(subnodes, Str(value)))
  {
    assert subnodes == NodeOf(K, Branch(subtrees, value)).value.subnodes;
  }

  /** The segment of an extension is the same whichever key it is cut from. */
  lemma ExtensionBuilt(obj: Entries, key: Nibbles, level: nat)
    requires |obj| >= 2 && key in obj && SharePrefix(obj, level) && level < ForkLevel(obj)
    ensures Build(obj, level) == Extension(key[level..ForkLevel(obj)], Build(obj, ForkLevel(obj)))
  {
    var f := ForkLevel(obj);
    assert key[level..f] == key[..f][level..] == AnyKey(obj)[..f][level..] == AnyKey(obj)[level..f];
  }

  /** `root`; `None` where preparing raises. The assertion in its last branch always holds. */
  method Root(K: Keccak, trie: Trie, roots: StorageRoots) returns (r: Option<Bytes32>)
    ensures r.Some? <==> Preparable(K, roots, trie.data)
    ensures r.Some? ==> exists m :: PreparedFrom(K, trie.secured, roots, trie.data, m) && r.value == RootOf(K, m)
    ensures r.Some? && KeysDistinct(K, trie.secured, trie.data.Keys) ==>
              r.value == RootOf(K, Prepared(K, trie.secured, roots, trie.data))
  {
    var obj := PrepareTrie(K, trie, roots);
    if obj.None? {
      return None;
    }
    if KeysDistinct(K, trie.secured, trie.data.Keys) {
      PreparedUnique(K, trie.secured, roots, trie.data, obj.value);
    }
    var node, _ := Patricialize(K, obj.value, 0);
    var rootNode := EncodeInternalNode(K, node);
    var encoded := Encode(rootNode);
    var root: Bytes32;
    if |encoded| < 32 {
      root := K(encoded);
    } else {
      assert rootNode.Str?;
      root := rootNode.bytes;
    }
    assert root == RootOf(K, obj.value);
    return Some(root);
  }

  /**
   The root of any trie commits to what was prepared from it, secured or not and with any kind of values:
   tries with one root were prepared to one map, unless the hash function collides on what was hashed for
   their nodes.
   */
  lemma RootsCommit(K: Keccak, secured: bool, roots: StorageRoots, data: map<Bytes, Node>, m: Entries,
                    secured': bool, roots': StorageRoots, data': map<Bytes, Node>, m': Entries)
    requires PreparedFrom(K, secured, roots, data, m) && PreparedFrom(K, secured', roots', data', m')
    requires BoundedEntries(m) && BoundedEntries(m')
    requires CollisionFree(K, Hashed(K, Build(m, 0)) + Hashed(K, Build(m', 0)))
    ensures RootOf(K, m) == RootOf(K, m') <==> m == m'
  {
    PreparedNonEmpty(K, secured, roots, data, m);
    PreparedNonEmpty(K, secured', roots', data', m');
    if RootOf(K, m) == RootOf(K, m') {
      RootCommits(K, m, m');
    }
  }

  /** So two tries with distinct hashed keys and one root hold the same encoded values under the same keys. */
  lemma EqualRootsEqualValues(K: Keccak, secured: bool, roots: StorageRoots, data: map<Bytes, Node>, m: Entries,
                              roots': StorageRoots, data': map<Bytes, Node>, m': Entries)
    requires PreparedFrom(K, secured, roots, data, m) && PreparedFrom(K, secured, roots', data', m')
    requires KeysDistinct(K, secured, data.Keys + data'.Keys) && BoundedEntries(m) && BoundedEntries(m')
    requires CollisionFree(K, Hashed(K, Build(m, 0)) + Hashed(K, Build(m', 0)))
    requires RootOf(K, m) == RootOf(K, m')
    ensures data.Keys == data'.Keys
    ensures forall k {:trigger k in data} :: k in data ==>
              EncodedValue(K, roots, k, data[k]) == EncodedValue(K, roots', k, data'[k])
  {
    RootsCommit(K, secured, roots, data, m, secured, roots', data', m');
    SamePrepared(K, secured, roots, data, roots', data', m);
  }

  lemma SamePrepared(K: Keccak, secured: bool, roots: StorageRoots, data: map<Bytes, Node>,
                     roots': StorageRoots, data': map<Bytes, Node>, m: Entries)
    requires PreparedFrom(K, secured, roots, data, m) && PreparedFrom(K, secured, roots', data', m)
    requires KeysDistinct(K, secured, data.Keys + data'.Keys)
    ensures data.Keys == data'.Keys
    ensures forall k {:trigger k in data} :: k in data ==>
              EncodedValue(K, roots, k, data[k]) == EncodedValue(K, roots', k, data'[k])
  {
    forall k: Bytes {:trigger k in data} {:trigger k in data'}
      ensures k in data <==> k in data'
      ensures k in data ==> EncodedValue(K, roots, k, data[k]) == EncodedValue(K, roots', k, data'[k])
    {
      if k in data || k in data' {
        SameValue(K, secured, roots, data, roots', data', m, k);
      }
    }
  }

  lemma SameValue(K: Keccak, secured: bool, roots: StorageRoots, data: map<Bytes, Node>,
                  roots': StorageRoots, data': map<Bytes, Node>, m: Entries, k: Bytes)
    requires PreparedFrom(K, secured, roots, data, m) && PreparedFrom(K, secured, roots', data', m)
    requires KeysDistinct(K, secured, data.Keys + data'.Keys) && (k in data || k in data')
    ensures k in data && k in data'
    ensures EncodedValue(K, roots, k, data[k]) == EncodedValue(K, roots', k, data'[k])
  {
    PreparedValue(K, secured, roots, data, m, data.Keys + data'.Keys, k);
    PreparedValue(K, secured, roots', data', m, data.Keys + data'.Keys, k);
  }

  lemma PreparedValue(K: Keccak, secured: bool, roots: StorageRoots, data: map<Bytes, Node>, m: Entries,
                      keys: set<Bytes>, k: Bytes)
    requires PreparedFrom(K, secured, roots, data, m)
    requires KeysDistinct(K, secured, keys) && data.Keys <= keys && k in keys
    ensures k in data <==> TrieKey(K, secured, k) in m
    ensures k in data ==> EncodedValue(K, roots, k, data[k]) == Some(m[TrieKey(K, secured, k)])
  {
    var n := TrieKey(K, secured, k);
    if n in m {
      var l :| l in data && TrieKey(K, secured, l) == n && EncodedValue(K, roots, l, data[l]) == Some(m[n]);
      assert l in keys;
    }
  }
}
