/**
 Node composition and the commitment a root hash makes (Yellow Paper, Appendix D):
 `encode_internal_node` puts short nodes inline and hashes the others. Unless the hash
 function collides on bytes that were actually hashed, the root determines the map.
 */
module TrieNodes {
  import opened ByteStrings
  import opened Rlp
  import opened HexPrefix
  import opened Options
  import opened PatriciaTree

  /** The node types of `trie.py`: children are already encoded. */
  datatype InternalNode =
    | LeafNode(restOfKey: Nibbles, value: Item)
    | ExtensionNode(keySegment: Nibbles, subnode: Item)
    | BranchNode(subnodes: seq<Item>, value: Item)

  function Unencoded(node: Option<InternalNode>): Item {
    match node
    case None => Str([])
    case Some(LeafNode(rest, value)) => List([Str(Compact(rest, true)), value])
    case Some(ExtensionNode(segment, subnode)) => List([Str(Compact(segment, false)), subnode])
    case Some(BranchNode(subnodes, value)) => List(subnodes + [value])
  }

  function EncodeInternalNode(K: Keccak, node: Option<InternalNode>): Item {
    var encoded := Encode(Unencoded(node));
    if |encoded| < 32 then Unencoded(node) else Str(K(encoded))
  }

  /** The node a tree is encoded as. */
  ghost function NodeOf(K: Keccak, t: Tree): Option<InternalNode>
    decreases t, 0
  {
    match t
    case Empty => None
    case Leaf(rest, value) => Some(LeafNode(rest, Str(value)))
    case Extension(segment, subtree) => Some(ExtensionNode(segment, Reference(K, subtree)))
    case Branch(subtrees, value) =>
      Some(BranchNode(seq(|subtrees|, i requires 0 <= i < |subtrees| => Reference(K, subtrees[i])), Str(value)))
  }

  /** How a parent refers to a tree: by the node itself or by its hash. */
  ghost function Reference(K: Keccak, t: Tree): Item
    decreases t, 1
  {
    EncodeInternalNode(K, NodeOf(K, t))
  }

  /** The bytes a tree is hashed as. */
  ghost function Preimage(K: Keccak, t: Tree): Bytes {
    Encode(Unencoded(NodeOf(K, t)))
  }

  /** What is hashed to refer to a tree: nothing if the node stays inline. */
  ghost function HashedFor(K: Keccak, t: Tree): set<Bytes> {
    if |Preimage(K, t)| < 32 then {} else {Preimage(K, t)}
  }

  /** Everything hashed for the nodes below the topmost one. */
  ghost function HashedBelow(K: Keccak, t: Tree): set<Bytes>
    decreases t, 0
  {
    match t
    case Empty => {}
    case Leaf(_, _) => {}
    case Extension(_, subtree) => Referenced(K, subtree)
    case Branch(subtrees, _) => set i, b | 0 <= i < |subtrees| && b in Referenced(K, subtrees[i]) :: b
  }

  /** Everything hashed for a tree that a parent refers to. */
  ghost function Referenced(K: Keccak, t: Tree): set<Bytes>
    decreases t, 1
  {
    HashedFor(K, t) + HashedBelow(K, t)
  }

  /** Everything hashed for a tree at the root, which is hashed however short it is. */
  ghost function Hashed(K: Keccak, t: Tree): set<Bytes> {
    {Preimage(K, t)} + HashedBelow(K, t)
  }

  /** The root of a prepared trie. */
  ghost function RootOf(K: Keccak, m: Entries): Bytes32 {
    K(Preimage(K, Build(m, 0)))
  }

  /** All byte strings of a tree are Python objects, so shorter than MAX_LENGTH. */
  ghost predicate Bounded(t: Tree)
    decreases t
  {
    match t
    case Empty => true
    case Leaf(rest, value) => |rest| < MAX_LENGTH && |value| < MAX_LENGTH
    case Extension(segment, subtree) => |segment| < MAX_LENGTH && Bounded(subtree)
    case Branch(subtrees, value) =>
      |value| < MAX_LENGTH && |subtrees| == 16 && forall i :: 0 <= i < 16 ==> Bounded(subtrees[i])
  }

  ghost predicate BoundedEntries(m: Entries) {
    forall k {:trigger k in m} :: k in m ==> |k| < MAX_LENGTH && |m[k]| < MAX_LENGTH
  }

  lemma {:induction false} BuildBounded(m: Entries, level: nat)
    requires SharePrefix(m, level) && BoundedEntries(m)
    ensures Bounded(Build(m, level))
    decreases |m|, 1
  {
    if |m| >= 2 {
      BuildBranchBounded(m, ForkLevel(m));
    }
  }

  lemma {:induction false} BuildBranchBounded(m: Entries, level: nat)
    requires Forks(m, level) && BoundedEntries(m)
    ensures Bounded(BuildBranch(m, level))
    decreases |m|, 0
  {
    forall i | 0 <= i < 16 ensures Bounded(BuildBranch(m, level).subtrees[i]) {
      BuildBounded(Slot(m, level, i), level + 1);
    }
  }

  // ---- Every node has an RLP encoding, and references are short ----

  lemma PairEncodable(path: Nibbles, leaf: bool, value: Item)
    requires |path| < MAX_LENGTH
    requires Encodable(value) && |Encode(value)| <= MAX_LENGTH + 9
    ensures Encodable(List([Str(Compact(path, leaf)), value]))
  {
    var c := Compact(path, leaf);
    StrLength(c);
    EncodeAllOfTwo(Str(c), value);
  }

  lemma BranchEncodable(references: seq<Item>, value: Bytes)
    requires |references| == 16 && |value| < MAX_LENGTH
    requires forall i :: 0 <= i < 16 ==> Encodable(references[i]) && |Encode(references[i])| <= 33
    ensures Encodable(List(references + [Str(value)]))
  {
    StrLength(value);
    EncodeAllLength(references);
    EncodeAllAppend(references, Str(value));
  }

  lemma {:induction false} NodeEncodable(K: Keccak, t: Tree)
    requires Bounded(t)
    ensures Encodable(Unencoded(NodeOf(K, t)))
    decreases t, 0
  {
    match t
    case Empty =>
    case Leaf(rest, value) =>
      StrLength(value);
      PairEncodable(rest, true, Str(value));
    case Extension(segment, subtree) =>
      ReferenceShort(K, subtree);
      PairEncodable(segment, false, Reference(K, subtree));
    case Branch(subtrees, value) =>
      var references := NodeOf(K, t).value.subnodes;
      forall i | 0 <= i < 16 ensures Encodable(references[i]) && |Encode(references[i])| <= 33 {
        ReferenceShort(K, subtrees[i]);
      }
      BranchEncodable(references, value);
  }

  lemma {:induction false} ReferenceShort(K: Keccak, t: Tree)
    requires Bounded(t)
    ensures Encodable(Reference(K, t)) && |Encode(Reference(K, t))| <= 33
    decreases t, 1
  {
    NodeEncodable(K, t);
    HashLength(K(Preimage(K, t)));
  }

  // ---- Equal references, equal trees ----

  /** Whatever a parent sees of two nodes being equal, the nodes are. */
  lemma SameReference(K: Keccak, s: Tree, t: Tree)
    requires Bounded(s) && Bounded(t)
    requires CollisionFree(K, HashedFor(K, s) + HashedFor(K, t))
    requires Reference(K, s) == Reference(K, t)
    ensures Unencoded(NodeOf(K, s)) == Unencoded(NodeOf(K, t))
  {
    NodeEncodable(K, s);
    NodeEncodable(K, t);
    var p, q := Preimage(K, s), Preimage(K, t);
    if |p| >= 32 && |q| >= 32 {
      EncodeInjective(Unencoded(NodeOf(K, s)), Unencoded(NodeOf(K, t)));
    } else if |p| >= 32 {
      InlineIsNoHash(K, s, t);
    } else if |q| >= 32 {
      InlineIsNoHash(K, t, s);
    }
  }

  /** A node small enough to stay inline is never a 32-byte string. */
  lemma InlineIsNoHash(K: Keccak, s: Tree, t: Tree)
    requires |Preimage(K, s)| >= 32 && |Preimage(K, t)| < 32
    ensures Reference(K, s) != Reference(K, t)
  {
    assert Reference(K, s) == Str(K(Preimage(K, s)));
    assert Reference(K, t) == Unencoded(NodeOf(K, t));
    HashLength(K(Preimage(K, s)));
  }

  lemma {:induction false} SameNode(K: Keccak, s: Tree, t: Tree)
    requires Bounded(s) && Bounded(t)
    requires CollisionFree(K, HashedBelow(K, s) + HashedBelow(K, t))
    requires Unencoded(NodeOf(K, s)) == Unencoded(NodeOf(K, t))
    ensures s == t
    decreases s, 0
  {
    SameShape(K, s, t);
    match s
    case Empty =>
    case Leaf(rest, value) =>
      CompactInjective(rest, t.rest, true, true);
    case Extension(segment, subtree) =>
      CompactInjective(segment, t.segment, false, false);
      SameTree(K, subtree, t.subtree);
    case Branch(subtrees, value) =>
      var a, b := NodeOf(K, s).value, NodeOf(K, t).value;
      SplitLast(a.subnodes, b.subnodes, a.value, b.value);
      forall i | 0 <= i < 16 ensures subtrees[i] == t.subtrees[i] {
        assert a.subnodes[i] == b.subnodes[i];
        assert Referenced(K, subtrees[i]) <= HashedBelow(K, s);
        assert Referenced(K, t.subtrees[i]) <= HashedBelow(K, t);
        SameTree(K, subtrees[i], t.subtrees[i]);
      }
  }

  lemma SplitLast(xs: seq<Item>, ys: seq<Item>, x: Item, y: Item)
    requires xs + [x] == ys + [y]
    ensures xs == ys && x == y
  {
    assert xs == (xs + [x])[..|xs|] == (ys + [y])[..|ys|] == ys;
    assert x == (xs + [x])[|xs|] == (ys + [y])[|ys|] == y;
  }

  /** The unencoded node shows what kind of tree it came from. */
  lemma SameShape(K: Keccak, s: Tree, t: Tree)
    requires Bounded(s) && Bounded(t)
    requires Unencoded(NodeOf(K, s)) == Unencoded(NodeOf(K, t))
    ensures s.Empty? == t.Empty? && s.Leaf? == t.Leaf? && s.Extension? == t.Extension?
    ensures s.Leaf? ==> Compact(s.rest, true) == Compact(t.rest, true) && s.value == t.value
    ensures s.Extension? ==> Compact(s.segment, false) == Compact(t.segment, false)
    ensures s.Extension? ==> Reference(K, s.subtree) == Reference(K, t.subtree)
  {
    if !s.Empty? && !t.Empty? {
      var xs, ys := Unencoded(NodeOf(K, s)).items, Unencoded(NodeOf(K, t)).items;
      assert s.Branch? <==> |xs| == 17;
      assert t.Branch? <==> |ys| == 17;
      if !s.Branch? {
        var x, y := PathOf(s), PathOf(t);
        assert xs[0] == Str(Compact(x, s.Leaf?)) && ys[0] == Str(Compact(y, t.Leaf?));
        CompactInjective(x, y, s.Leaf?, t.Leaf?);
        assert xs[1] == ys[1];
      }
    }
  }

  function PathOf(t: Tree): Nibbles
    requires t.Leaf? || t.Extension?
  {
    if t.Leaf? then t.rest else t.segment
  }

  lemma {:induction false} SameTree(K: Keccak, s: Tree, t: Tree)
    requires Bounded(s) && Bounded(t)
    requires CollisionFree(K, Referenced(K, s) + Referenced(K, t))
    requires Reference(K, s) == Reference(K, t)
    ensures s == t
    decreases s, 1
  {
    var all := Referenced(K, s) + Referenced(K, t);
    FewerCollide(K, HashedFor(K, s) + HashedFor(K, t), all);
    FewerCollide(K, HashedBelow(K, s) + HashedBelow(K, t), all);
    SameReference(K, s, t);
    SameNode(K, s, t);
  }

  /** Equal roots, equal maps, unless the hash function collides on what was hashed for them. */
  lemma RootCommits(K: Keccak, m: Entries, n: Entries)
    requires NonEmptyValues(m) && NonEmptyValues(n) && BoundedEntries(m) && BoundedEntries(n)
    requires CollisionFree(K, Hashed(K, Build(m, 0)) + Hashed(K, Build(n, 0)))
    requires RootOf(K, m) == RootOf(K, n)
    ensures m == n
  {
    var s, t := Build(m, 0), Build(n, 0);
    BuildBounded(m, 0);
    BuildBounded(n, 0);
    NodeEncodable(K, s);
    NodeEncodable(K, t);
    EncodeInjective(Unencoded(NodeOf(K, s)), Unencoded(NodeOf(K, t)));
    SameNode(K, s, t);
    BuildInjective(m, n);
  }
}
