/**
 Reading a trie from its root hash and the byte strings that were hashed, as the Yellow Paper describes
 it in Appendix D: bytes are decoded, paths are expanded, hashes are looked up. Nothing here knows how
 nodes are made. What is read at a path is what the map holds there.
 */
module TrieReader {
  import opened ByteStrings
  import opened Rlp
  import opened HexPrefix
  import opened Options
  import opened PatriciaTree
  import opened TrieNodes

  /** The byte string with this hash, among those that were hashed. */
  ghost function Fetch(K: Keccak, hashed: set<Bytes>, hash: Bytes): Option<Bytes> {
    if b: Bytes :| b in hashed && K(b) == hash then Some(b) else None
  }

  /** The node that a parent refers to: one shorter than a hash is in its parent, any other is hashed. */
  ghost function Resolve(K: Keccak, hashed: set<Bytes>, reference: Item): Option<Item> {
    if reference == Str([]) then Some(reference)
    else if reference.List? then (if |Encode(reference)| < 32 then Some(reference) else None)
    else
      var bytes := Fetch(K, hashed, reference.bytes);
      if bytes.None? || |bytes.value| < 32 then None else Decode(bytes.value)
  }

  /** A value is a byte string. */
  function ValueIn(i: Item): Option<Bytes> {
    if i.Str? then Some(i.bytes) else None
  }

  /** The value at a path below a node. */
  ghost function Read(K: Keccak, hashed: set<Bytes>, node: Item, path: Nibbles): Option<Bytes>
    decreases |path|, 0
  {
    if node.Str? then None
    else if |node.items| == 17 then
      if path == [] then (if node.items[16] == Str([]) then None else ValueIn(node.items[16]))
      else Follow(K, hashed, node.items[path[0]], path[1..])
    else if |node.items| == 2 && node.items[0].Str? then
      match Expand(node.items[0].bytes)
      case None => None
      case Some((rest, true)) => if path == rest then ValueIn(node.items[1]) else None
      case Some((segment, false)) =>
        if segment != [] && segment <= path then Follow(K, hashed, node.items[1], path[|segment|..]) else None
    else None
  }

  /** The value at a path below the node that is referred to. */
  ghost function Follow(K: Keccak, hashed: set<Bytes>, reference: Item, path: Nibbles): Option<Bytes>
    decreases |path|, 1
  {
    var node := Resolve(K, hashed, reference);
    if node.None? then None else Read(K, hashed, node.value, path)
  }

  /** The value at a path below a root, which is hashed however short it is. */
  ghost function ReadRoot(K: Keccak, hashed: set<Bytes>, root: Bytes, path: Nibbles): Option<Bytes> {
    var bytes := Fetch(K, hashed, root);
    if bytes.None? then None
    else
      var node := Decode(bytes.value);
      if node.None? then None else Read(K, hashed, node.value, path)
  }

  // ---- The reader finds what the tree holds ----

  lemma FetchHashed(K: Keccak, hashed: set<Bytes>, b: Bytes)
    requires b in hashed && CollisionFree(K, hashed)
    ensures Fetch(K, hashed, K(b)) == Some(b)
  {}

  lemma ResolveReference(K: Keccak, hashed: set<Bytes>, t: Tree)
    requires Bounded(t) && HashedFor(K, t) <= hashed && CollisionFree(K, hashed)
    ensures Resolve(K, hashed, Reference(K, t)) == Some(Unencoded(NodeOf(K, t)))
  {
    var node := Unencoded(NodeOf(K, t));
    NodeEncodable(K, t);
    DecodeOfEncode(node);
    if |Encode(node)| >= 32 {
      FetchHashed(K, hashed, Encode(node));
    }
  }

  lemma {:induction false} ReadFinds(K: Keccak, hashed: set<Bytes>, t: Tree, path: Nibbles)
    requires Bounded(t) && (t.Empty? || Canonical(t))
    requires HashedBelow(K, t) <= hashed && CollisionFree(K, hashed)
    ensures Read(K, hashed, Unencoded(NodeOf(K, t)), path) == Lookup(t, path)
    decreases t, 0
  {
    match t
    case Empty =>
    case Leaf(rest, value) =>
      ExpandOfCompact(rest, true);
    case Extension(segment, subtree) =>
      ExpandOfCompact(segment, false);
      if segment <= path {
        FollowFinds(K, hashed, subtree, path[|segment|..]);
      }
    case Branch(subtrees, value) =>
      var node := Unencoded(NodeOf(K, t));
      assert |node.items| == 17 && node.items[16] == Str(value);
      if path != [] {
        var i := path[0];
        assert node.items[i] == Reference(K, subtrees[i]);
        assert Referenced(K, subtrees[i]) <= HashedBelow(K, t);
        FollowFinds(K, hashed, subtrees[i], path[1..]);
      }
  }

  lemma {:induction false} FollowFinds(K: Keccak, hashed: set<Bytes>, t: Tree, path: Nibbles)
    requires Bounded(t) && (t.Empty? || Canonical(t))
    requires Referenced(K, t) <= hashed && CollisionFree(K, hashed)
    ensures Follow(K, hashed, Reference(K, t), path) == Lookup(t, path)
    decreases t, 1
  {
    ResolveReference(K, hashed, t);
    ReadFinds(K, hashed, t, path);
  }

  lemma TreeReads(K: Keccak, hashed: set<Bytes>, t: Tree, path: Nibbles)
    requires Bounded(t) && (t.Empty? || Canonical(t))
    requires Hashed(K, t) <= hashed && CollisionFree(K, hashed)
    ensures ReadRoot(K, hashed, K(Preimage(K, t)), path) == Lookup(t, path)
  {
    var node := Unencoded(NodeOf(K, t));
    NodeEncodable(K, t);
    DecodeOfEncode(node);
    FetchHashed(K, hashed, Encode(node));
    ReadFinds(K, hashed, t, path);
  }

  /** From the root of a map and what was hashed for it, the reader finds at every path exactly what the map holds. */
  lemma RootReads(K: Keccak, m: Entries, hashed: set<Bytes>, path: Nibbles)
    requires NonEmptyValues(m) && BoundedEntries(m)
    requires Hashed(K, Build(m, 0)) <= hashed && CollisionFree(K, hashed)
    ensures ReadRoot(K, hashed, RootOf(K, m), path) == Get(m, path)
  {
    BuildBounded(m, 0);
    BuildCanonical(m, 0);
    TreeReads(K, hashed, Build(m, 0), path);
    BuildLookup(m, [], path);
    assert [] + path == path;
  }
}
