/**
 The Modified Merkle Patricia tree before hashing (Yellow Paper, Appendix D), as
 `patricialize` builds it. Trees have a meaning of their own (`Lookup`) and a canonical
 form; building from a map preserves the meaning and is canonical, and canonical trees
 with one meaning are equal. So a tree is determined by its map alone.
 */
module PatriciaTree {
  import opened ByteStrings
  import opened Options

  /** A prepared trie: nibble lists to encoded values. */
  type Entries = map<Nibbles, Bytes>

  datatype Tree =
    | Empty
    | Leaf(rest: Nibbles, value: Bytes)
    | Extension(segment: Nibbles, subtree: Tree)
    | Branch(subtrees: seq<Tree>, value: Bytes)

  function Get(m: Entries, k: Nibbles): Option<Bytes> {
    if k in m then Some(m[k]) else None
  }

  /** The value a tree holds at a path. */
  function Lookup(t: Tree, path: Nibbles): Option<Bytes>
    decreases t
  {
    match t
    case Empty => None
    case Leaf(rest, value) => if path == rest then Some(value) else None
    case Extension(segment, subtree) => if segment <= path then Lookup(subtree, path[|segment|..]) else None
    case Branch(subtrees, value) =>
      if path == [] then (if value == [] then None else Some(value))
      else if path[0] < |subtrees| then Lookup(subtrees[path[0]], path[1..])
      else None
  }

  /** Slot 16 of a branch is its own value. */
  predicate Occupied(t: Tree, slot: nat)
    requires t.Branch? && |t.subtrees| == 16
  {
    if slot < 16 then !t.subtrees[slot].Empty? else slot == 16 && t.value != []
  }

  /** No node could be dropped or merged with its parent. */
  ghost predicate Canonical(t: Tree)
    decreases t
  {
    match t
    case Empty => false
    case Leaf(_, value) => value != []
    case Extension(segment, subtree) => segment != [] && subtree.Branch? && Canonical(subtree)
    case Branch(subtrees, value) =>
      && |subtrees| == 16
      && (forall i :: 0 <= i < 16 ==> subtrees[i].Empty? || Canonical(subtrees[i]))
      && exists i, j :: 0 <= i < j <= 16 && Occupied(t, i) && Occupied(t, j)
  }

  ghost function AnyKey(m: Entries): (k: Nibbles)
    requires m != map[]
    ensures k in m
  {
    var k :| k in m; k
  }

  /** Every key starts with the same `level` nibbles. */
  ghost predicate SharePrefix(m: Entries, level: nat) {
    forall k {:trigger k in m} :: k in m ==> level <= |k| && level <= |AnyKey(m)| && k[..level] == AnyKey(m)[..level]
  }

  ghost predicate HasPrefix(m: Entries, prefix: Nibbles) {
    forall k {:trigger k in m} :: k in m ==> prefix <= k
  }

  ghost predicate NonEmptyValues(m: Entries) {
    forall k :: k in m ==> m[k] != []
  }

  lemma TwoKeys(m: Entries) returns (k: Nibbles, l: Nibbles)
    requires |m| >= 2
    ensures k in m && l in m && k != l
  {
    k := AnyKey(m);
    var others := m.Keys - {k};
    assert |others| == |m.Keys| - 1;
    l :| l in others;
  }

  /** All keys agree up to `level` and no further. */
  ghost predicate Forks(m: Entries, level: nat) {
    SharePrefix(m, level) && !SharePrefix(m, level + 1)
  }

  /** The level at which the keys of a map with two or more first differ. */
  ghost function ForkLevel(m: Entries): (f: nat)
    requires |m| >= 2
    ensures Forks(m, f)
  {
    ForkExists(m, 0, AnyKey(m));
    var f: nat :| Forks(m, f); f
  }

  lemma {:induction false} ForkExists(m: Entries, level: nat, k: Nibbles)
    requires k in m && SharePrefix(m, level)
    ensures exists f: nat :: Forks(m, f)
    decreases |k| - level
  {
    if SharePrefix(m, level + 1) {
      ForkExists(m, level + 1, k);
    } else {
      assert Forks(m, level);
    }
  }

  lemma SharedUpTo(m: Entries, low: nat, high: nat)
    requires low <= high && SharePrefix(m, high)
    ensures SharePrefix(m, low)
  {
    forall k, l | k in m && l in m ensures k[..low] == l[..low] {
      assert k[..low] == k[..high][..low] && l[..low] == l[..high][..low];
    }
  }

  /** There is one such level, and it is the end of every shared prefix. */
  lemma ForkIsLast(m: Entries, level: nat, f: nat)
    requires SharePrefix(m, level) && Forks(m, f)
    ensures level <= f
  {
    if f < level {
      SharedUpTo(m, f + 1, level);
    }
  }

  lemma ForkUnique(m: Entries, f: nat)
    requires |m| >= 2 && Forks(m, f)
    ensures f == ForkLevel(m)
  {
    ForkIsLast(m, f, ForkLevel(m));
    ForkIsLast(m, ForkLevel(m), f);
  }

  /** The keys that continue with nibble `n` at `level`. */
  ghost function Slot(m: Entries, level: nat, n: Nibble): (s: Entries)
    requires SharePrefix(m, level)
    ensures SharePrefix(s, level + 1)
    ensures Forks(m, level) ==> |s| < |m|
  {
    var s: Entries := map k | k in m && |k| > level && k[level] == n :: m[k];
    assert forall k :: k in s ==> k[..level + 1] == k[..level] + [n];
    assert s.Keys <= m.Keys;
    assert s.Keys == m.Keys ==> s == m;
    if s.Keys < m.Keys then SubsetSmaller(s.Keys, m.Keys); s else s
  }

  /** The value of the key that ends at `level`, if there is one. */
  ghost function ValueAt(m: Entries, level: nat): Bytes
    requires SharePrefix(m, level)
  {
    if exists k :: k in m && |k| == level then var k :| k in m && |k| == level; m[k] else []
  }

  lemma ValueAtIs(m: Entries, level: nat, k: Nibbles)
    requires SharePrefix(m, level) && k in m && |k| == level
    ensures ValueAt(m, level) == m[k]
  {
    forall l | l in m && |l| == level ensures l == k {
      assert l == l[..level] == k[..level] == k;
    }
  }

  lemma {:induction false} SubsetSmaller<T>(a: set<T>, b: set<T>)
    requires a < b
    ensures |a| < |b|
  {
    var x :| x in b && x !in a;
    assert |b| == |b - {x}| + 1;
    if a != b - {x} {
      SubsetSmaller(a, b - {x});
    }
  }

  /** The tree of a map whose keys share their first `level` nibbles. */
  ghost function Build(m: Entries, level: nat): Tree
    requires SharePrefix(m, level)
    decreases |m|, 1
  {
    if m == map[] then Empty
    else if |m| == 1 then var k := AnyKey(m); Leaf(k[level..], m[k])
    else
      var f := ForkLevel(m);
      if level < f then Extension(AnyKey(m)[level..f], BuildBranch(m, f)) else BuildBranch(m, f)
  }

  /** The branch node at the level where the keys part. */
  ghost function BuildBranch(m: Entries, level: nat): (t: Tree)
    requires Forks(m, level)
    ensures t.Branch?
    decreases |m|, 0
  {
    Branch(seq(16, i requires 0 <= i < 16 => Build(Slot(m, level, i), level + 1)), ValueAt(m, level))
  }

  // ---- Building preserves the map ----

  lemma LeafLookup(m: Entries, prefix: Nibbles, path: Nibbles)
    requires |m| == 1 && HasPrefix(m, prefix) && SharePrefix(m, |prefix|)
    ensures Lookup(Build(m, |prefix|), path) == Get(m, prefix + path)
  {
    var k := AnyKey(m);
    SingletonKeys(m, k);
    assert k == prefix + k[|prefix|..];
    assert (prefix + path)[|prefix|..] == path;
  }

  lemma SingletonKeys(m: Entries, k: Nibbles)
    requires |m| == 1 && k in m
    ensures m.Keys == {k}
  {
    forall l | l in m ensures l == k {
      assert |m.Keys - {k}| == 0;
      assert l !in m.Keys - {k};
    }
  }

  /** The keys below an extension carry its segment. */
  lemma LongerPrefix(m: Entries, prefix: Nibbles, f: nat) returns (segment: Nibbles)
    requires m != map[] && HasPrefix(m, prefix) && |prefix| <= f && SharePrefix(m, f)
    ensures segment == AnyKey(m)[|prefix|..f]
    ensures HasPrefix(m, prefix + segment)
  {
    segment := AnyKey(m)[|prefix|..f];
    assert AnyKey(m)[..f] == prefix + segment;
  }

  /** Walking the tree along any path finds exactly what the map holds there. */
  lemma {:induction false} BuildLookup(m: Entries, prefix: Nibbles, path: Nibbles)
    requires HasPrefix(m, prefix) && SharePrefix(m, |prefix|) && NonEmptyValues(m)
    ensures Lookup(Build(m, |prefix|), path) == Get(m, prefix + path)
    decreases |m|, 2
  {
    if |m| == 1 {
      LeafLookup(m, prefix, path);
    } else if |m| >= 2 {
      ForkIsLast(m, |prefix|, ForkLevel(m));
      if |prefix| == ForkLevel(m) {
        BuildBranchLookup(m, prefix, path);
      } else {
        ExtensionLookup(m, prefix, path, ForkLevel(m));
      }
    }
  }

  lemma {:induction false} ExtensionLookup(m: Entries, prefix: Nibbles, path: Nibbles, f: nat)
    requires HasPrefix(m, prefix) && m != map[] && |prefix| <= f && Forks(m, f) && NonEmptyValues(m)
    ensures Lookup(Extension(AnyKey(m)[|prefix|..f], BuildBranch(m, f)), path) == Get(m, prefix + path)
    decreases |m|, 1
  {
    var segment := LongerPrefix(m, prefix, f);
    if segment <= path {
      BuildBranchLookup(m, prefix + segment, path[|segment|..]);
    }
    BelowSegment(m, prefix, segment, path);
  }

  /** Only paths that go on with the segment lead to a key. */
  lemma BelowSegment(m: Entries, prefix: Nibbles, segment: Nibbles, path: Nibbles)
    requires HasPrefix(m, prefix + segment)
    ensures Get(m, prefix + path) == if segment <= path then Get(m, prefix + segment + path[|segment|..]) else None
  {
    if segment <= path {
      assert prefix + segment + path[|segment|..] == prefix + path;
    } else {
      PrefixCancels(prefix, segment, path);
    }
  }

  lemma PrefixCancels(prefix: Nibbles, segment: Nibbles, path: Nibbles)
    ensures prefix + segment <= prefix + path <==> segment <= path
  {
    assert (prefix + segment)[|prefix|..] == segment;
    assert (prefix + path)[|prefix|..] == path;
    if prefix + segment <= prefix + path {
      assert segment == (prefix + path)[..|prefix + segment|][|prefix|..] == path[..|segment|];
    }
  }

  lemma {:induction false} BuildBranchLookup(m: Entries, prefix: Nibbles, path: Nibbles)
    requires HasPrefix(m, prefix) && Forks(m, |prefix|) && NonEmptyValues(m)
    ensures Lookup(BuildBranch(m, |prefix|), path) == Get(m, prefix + path)
    decreases |m|, 0
  {
    if path == [] {
      BranchEnds(m, prefix);
      assert prefix + path == prefix;
    } else {
      StepAlong(prefix, path);
      SlotLookup(m, prefix, path[0], path[1..]);
    }
  }

  lemma StepAlong(prefix: Nibbles, path: Nibbles)
    requires path != []
    ensures [path[0]] + path[1..] == path
    ensures prefix + [path[0]] + path[1..] == prefix + path
  {}

  lemma {:induction false} SlotLookup(m: Entries, prefix: Nibbles, n: Nibble, rest: Nibbles)
    requires HasPrefix(m, prefix) && Forks(m, |prefix|) && NonEmptyValues(m)
    ensures Lookup(BuildBranch(m, |prefix|), [n] + rest) == Get(m, prefix + [n] + rest)
    decreases |m|, 0, 0
  {
    var slot := Slot(m, |prefix|, n);
    SlotGet(m, prefix, n, rest);
    BuildLookup(slot, prefix + [n], rest);
    BranchPath(BuildBranch(m, |prefix|), n, rest);
  }

  lemma SlotGet(m: Entries, prefix: Nibbles, n: Nibble, rest: Nibbles)
    requires HasPrefix(m, prefix) && SharePrefix(m, |prefix|)
    ensures HasPrefix(Slot(m, |prefix|, n), prefix + [n])
    ensures Get(Slot(m, |prefix|, n), prefix + [n] + rest) == Get(m, prefix + [n] + rest)
  {}

  lemma BranchPath(t: Tree, i: Nibble, p: Nibbles)
    requires t.Branch? && |t.subtrees| == 16
    ensures Lookup(t, [i] + p) == Lookup(t.subtrees[i], p)
  {
    assert ([i] + p)[1..] == p;
  }

  lemma BranchEnds(m: Entries, prefix: Nibbles)
    requires HasPrefix(m, prefix) && Forks(m, |prefix|) && NonEmptyValues(m)
    ensures Lookup(BuildBranch(m, |prefix|), []) == Get(m, prefix)
  {
    if prefix in m {
      ValueAtIs(m, |prefix|, prefix);
    } else {
      assert forall k :: k in m && |k| == |prefix| ==> k == prefix;
    }
  }

  // ---- Building gives the canonical form ----

  lemma {:induction false} BuildCanonical(m: Entries, level: nat)
    requires SharePrefix(m, level) && NonEmptyValues(m)
    ensures if m == map[] then Build(m, level).Empty? else Canonical(Build(m, level))
    decreases |m|, 1
  {
    if |m| >= 2 {
      BuildBranchCanonical(m, ForkLevel(m));
    }
  }

  lemma {:induction false} BuildBranchCanonical(m: Entries, level: nat)
    requires |m| >= 2 && Forks(m, level) && NonEmptyValues(m)
    ensures Canonical(BuildBranch(m, level))
    decreases |m|, 0
  {
    var t := BuildBranch(m, level);
    forall i | 0 <= i < 16 ensures t.subtrees[i].Empty? || Canonical(t.subtrees[i]) {
      BuildCanonical(Slot(m, level, i), level + 1);
    }
    var k, l := DivergingKeys(m, level);
    SlotOccupied(m, level, k);
    SlotOccupied(m, level, l);
  }

  /** The slot of the branch at `level` that a key goes to. */
  function SlotOf(k: Nibbles, level: nat): (i: nat)
    requires level <= |k|
    ensures i <= 16
  {
    if |k| == level then 16 else k[level]
  }

  lemma AnotherKey(m: Entries, level: nat, l: Nibbles)
    requires |m| >= 2 && SharePrefix(m, level) && l in m && |l| == level
    ensures exists k :: k in m && |k| != level
  {
    var k0, l0 := TwoKeys(m);
    var k := if k0 == l then l0 else k0;
    assert k == k[..level] + k[level..] && l == l[..level];
    assert k in m && |k| != level;
  }

  /** When not all keys agree on one more nibble, two of them part here. */
  lemma DivergingKeys(m: Entries, level: nat) returns (k: Nibbles, l: Nibbles)
    requires |m| >= 2 && Forks(m, level)
    ensures k in m && l in m && SlotOf(k, level) < SlotOf(l, level)
  {
    if k0 :| k0 in m && |k0| == level {
      l := k0;
      AnotherKey(m, level, l);
      k :| k in m && |k| != level;
    } else {
      var k0, l0 :| k0 in m && l0 in m && k0[..level + 1] != l0[..level + 1];
      assert k0[..level + 1] == k0[..level] + [k0[level]] && l0[..level + 1] == l0[..level] + [l0[level]];
      k, l := if k0[level] < l0[level] then k0 else l0, if k0[level] < l0[level] then l0 else k0;
    }
  }

  lemma SlotOccupied(m: Entries, level: nat, k: Nibbles)
    requires Forks(m, level) && NonEmptyValues(m) && k in m
    ensures Occupied(BuildBranch(m, level), SlotOf(k, level))
  {
    if |k| == level {
      ValueAtIs(m, level, k);
    } else {
      assert k in Slot(m, level, k[level]);
    }
  }

  // ---- The canonical tree of a meaning is unique ----

  ghost predicate SameMeaning(s: Tree, t: Tree) {
    forall p: Nibbles :: Lookup(s, p) == Lookup(t, p)
  }

  lemma {:induction false} Inhabited(t: Tree) returns (p: Nibbles)
    requires Canonical(t)
    ensures Lookup(t, p).Some?
    decreases t
  {
    match t
    case Leaf(rest, _) => p := rest;
    case Extension(segment, subtree) =>
      var q := Inhabited(subtree);
      p := segment + q;
      assert p[|segment|..] == q;
    case Branch(subtrees, _) =>
      var i, j :| 0 <= i < j <= 16 && Occupied(t, i) && Occupied(t, j);
      p := PathThrough(t, i);
  }

  lemma {:induction false} PathThrough(t: Tree, i: nat) returns (p: Nibbles)
    requires t.Branch? && Canonical(t) && Occupied(t, i)
    ensures Lookup(t, p).Some? && SlotOf(p, 0) == i
    decreases t, 0
  {
    if i < 16 {
      var q := Inhabited(t.subtrees[i]);
      p := [i] + q;
      assert p[1..] == q;
    } else {
      p := [];
    }
  }

  /** A branch has two paths that part at once. */
  lemma Parting(t: Tree) returns (p: Nibbles, q: Nibbles)
    requires t.Branch? && Canonical(t)
    ensures Lookup(t, p).Some? && Lookup(t, q).Some? && SlotOf(p, 0) != SlotOf(q, 0)
  {
    var i, j :| 0 <= i < j <= 16 && Occupied(t, i) && Occupied(t, j);
    p := PathThrough(t, i);
    q := PathThrough(t, j);
  }

  lemma ExtensionPath(t: Tree, p: Nibbles)
    requires t.Extension?
    ensures Lookup(t, t.segment + p) == Lookup(t.subtree, p)
  {
    assert (t.segment + p)[|t.segment|..] == p;
  }

  /** What a canonical tree with two or more paths says: after `stem` the paths part. */
  lemma PartingPaths(t: Tree, stem: Nibbles) returns (p: Nibbles, q: Nibbles)
    requires Canonical(t)
    requires (t.Branch? && stem == []) || (t.Extension? && stem == t.segment)
    ensures Lookup(t, stem + p).Some? && Lookup(t, stem + q).Some? && SlotOf(p, 0) != SlotOf(q, 0)
  {
    if t.Branch? {
      p, q := Parting(t);
      assert stem + p == p && stem + q == q;
    } else {
      p, q := Parting(t.subtree);
      ExtensionPath(t, p);
      ExtensionPath(t, q);
    }
  }

  /** A segment that two paths go through ends where they part. */
  lemma SegmentWithinStem(segment: Nibbles, stem: Nibbles, p: Nibbles, q: Nibbles)
    requires segment <= stem + p && segment <= stem + q
    ensures segment <= stem || SlotOf(p, 0) == SlotOf(q, 0)
  {
    var n := |stem|;
    if |segment| > n {
      assert segment[n] == (stem + p)[n] == p[0];
      assert segment[n] == (stem + q)[n] == q[0];
    }
  }

  lemma LeafHasOnePath(t: Tree, stem: Nibbles, p: Nibbles, q: Nibbles)
    requires t.Leaf? && Lookup(t, stem + p).Some? && Lookup(t, stem + q).Some?
    ensures p == q
  {
    assert p == (stem + p)[|stem|..] == (stem + q)[|stem|..] == q;
  }

  /** Trees of different kinds differ in meaning. */
  lemma SameKind(s: Tree, t: Tree)
    requires Canonical(s) && Canonical(t) && SameMeaning(s, t)
    ensures s.Leaf? == t.Leaf? && s.Extension? == t.Extension?
    ensures s.Extension? ==> s.segment == t.segment
  {
    if !s.Leaf? {
      WithinStem(t, s);
    }
    if !t.Leaf? {
      WithinStem(s, t);
    }
  }

  /** Where the paths of `t` part bounds the kind and the segment of any tree with the same meaning. */
  lemma WithinStem(s: Tree, t: Tree)
    requires Canonical(s) && Canonical(t) && SameMeaning(s, t) && !t.Leaf?
    ensures !s.Leaf?
    ensures s.Extension? ==> t.Extension? && s.segment <= t.segment
  {
    var stem := if t.Branch? then [] else t.segment;
    var p, q := PartingPaths(t, stem);
    assert Lookup(s, stem + p).Some? && Lookup(s, stem + q).Some?;
    if s.Leaf? {
      LeafHasOnePath(s, stem, p, q);
    } else if s.Extension? {
      SegmentWithinStem(s.segment, stem, p, q);
    }
  }

  /** Two canonical trees that hold the same values at the same paths are the same tree. */
  lemma {:induction false} CanonicalUnique(s: Tree, t: Tree)
    requires Canonical(s) && Canonical(t) && SameMeaning(s, t)
    ensures s == t
    decreases s
  {
    SameKind(s, t);
    match s
    case Leaf(rest, value) =>
      assert Lookup(s, rest) == Lookup(t, rest);
    case Extension(segment, subtree) =>
      forall p ensures Lookup(subtree, p) == Lookup(t.subtree, p) {
        ExtensionPath(s, p);
        ExtensionPath(t, p);
      }
      CanonicalUnique(subtree, t.subtree);
    case Branch(subtrees, value) =>
      assert Lookup(s, []) == Lookup(t, []);
      forall i | 0 <= i < 16 ensures subtrees[i] == t.subtrees[i] {
        SubtreeUnique(s, t, i);
      }
  }

  lemma {:induction false} SubtreeUnique(s: Tree, t: Tree, i: Nibble)
    requires s.Branch? && t.Branch? && Canonical(s) && Canonical(t) && SameMeaning(s, t)
    ensures s.subtrees[i] == t.subtrees[i]
    decreases s, 0
  {
    var a, b := s.subtrees[i], t.subtrees[i];
    forall p ensures Lookup(a, p) == Lookup(b, p) {
      BranchPath(s, i, p);
      BranchPath(t, i, p);
    }
    if !b.Empty? {
      NotEmptyEither(a, b);
    }
    if !a.Empty? {
      NotEmptyEither(b, a);
      CanonicalUnique(a, b);
    }
  }

  lemma NotEmptyEither(s: Tree, t: Tree)
    requires Canonical(t) && SameMeaning(s, t)
    ensures !s.Empty?
  {
    var p := Inhabited(t);
    assert Lookup(s, p).Some?;
  }

  /** The tree of a map does not depend on how it was found: any canonical tree with the map's meaning is it. */
  lemma BuildIsTheCanonicalTree(m: Entries, t: Tree)
    requires NonEmptyValues(m) && m != map[]
    requires Canonical(t) && forall p: Nibbles :: Lookup(t, p) == Get(m, p)
    ensures t == Build(m, 0)
  {
    BuildCanonical(m, 0);
    forall p: Nibbles ensures Lookup(Build(m, 0), p) == Lookup(t, p) {
      BuildLookup(m, [], p);
      assert [] + p == p;
    }
    CanonicalUnique(t, Build(m, 0));
  }

  /** Different maps have different trees. */
  lemma BuildInjective(m: Entries, n: Entries)
    requires NonEmptyValues(m) && NonEmptyValues(n) && Build(m, 0) == Build(n, 0)
    ensures m == n
  {
    forall k: Nibbles ensures Get(m, k) == Get(n, k) {
      BuildLookup(m, [], k);
      BuildLookup(n, [], k);
      assert [] + k == k;
    }
    assert forall k :: k in m ==> Get(m, k).Some?;
    assert forall k :: k in n ==> Get(n, k).Some?;
    assert m.Keys == n.Keys;
  }
}
