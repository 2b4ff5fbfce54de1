/**
 Contract storages and their comparison (`Storage` in `composite_types.py`). A slot that is
 missing and a slot that holds zero mean the same; keys marked "any" are excused when the
 expected storage does not mention them.
 */
module Storages {
  import opened ByteStrings
  import opened Options
  import opened PatriciaTree

  type Slots = map<U256, U256>

  datatype StorageError =
    | MissingKey(key: U256)
    | KeyValueMismatch(key: U256, want: U256, got: U256)

  /** What an SLOAD of the slot gives. */
  function ValueOf(slots: Slots, key: U256): U256 {
    if key in slots then slots[key] else 0
  }

  /** The storage without its explicit zeros. */
  function NonZero(slots: Slots): Slots {
    map k | k in slots && slots[k] != 0 :: slots[k]
  }

  function Without(slots: Slots, keys: set<U256>): Slots {
    slots - keys
  }

  /** The outcome of `must_be_equal` on the storages' contents. */
  ghost predicate Agree(a: Slots, b: Slots, excused: set<U256>) {
    forall k :: ValueOf(a, k) == ValueOf(b, k) || k in excused
  }

  class Storage {
    var root: Slots
    var anyMap: map<U256, bool>

    constructor (root: Slots)
      ensures this.root == root && anyMap == map[]
    {
      this.root := root;
      this.anyMap := map[];
    }

    /** `__setitem__`. */
    method SetItem(key: U256, value: U256)
      modifies this`root
      ensures root == old(root)[key := value]
      ensures Excused() == old(Excused()) - {key}
    {
      root := root[key := value];
    }

    /** `set_expect_any`. */
    method SetExpectAny(key: U256)
      modifies this`anyMap
      ensures anyMap == old(anyMap)[key := true]
      ensures Excused() == old(Excused()) + if key in root then {} else {key}
    {
      anyMap := anyMap[key := true];
    }

    /** The keys that may have any value in the other storage. */
    function Excused(): set<U256>
      reads this
    {
      set k | k in anyMap && anyMap[k] && k !in root
    }

    /** `must_contain`: the error raised, if any. */
    method MustContain(other: Storage) returns (error: Option<StorageError>)
      ensures error.None? <==> forall k :: k in other.root ==> ValueOf(root, k) == other.root[k]
      ensures error.Some? ==>
                var k := error.value.key;
                k in other.root && error.value ==
                  if k in root then KeyValueMismatch(k, root[k], other.root[k]) else MissingKey(k)
    {
      var todo := other.root.Keys;
      while todo != {}
        invariant todo <= other.root.Keys
        invariant forall k :: k in other.root && k !in todo ==> ValueOf(root, k) == other.root[k]
      {
        var key :| key in todo;
        if key !in root {
          if other.root[key] != 0 {
            return Some(MissingKey(key));
          }
        } else if root[key] != other.root[key] {
          return Some(KeyValueMismatch(key, root[key], other.root[key]));
        }
        todo := todo - {key};
      }
      return None;
    }

    /** `must_be_equal`: the error raised, if any. `null` stands for no other storage. */
    method MustBeEqual(other: Storage?) returns (error: Option<StorageError>)
      ensures error.None? <==> Agree(root, RootOrEmpty(other), Excused())
      ensures error.None? <==>
                forall k :: ValueOf(root, k) == ValueOf(RootOrEmpty(other), k) ||
                            (k !in root && k in anyMap && anyMap[k])
      ensures error.Some? ==>
                var k := error.value.key;
                && error.value == KeyValueMismatch(k, ValueOf(root, k), ValueOf(RootOrEmpty(other), k))
                && error.value.want != error.value.got && k !in Excused()
    {
      var theirs := if other == null then map[] else other.root;
      var todo := root.Keys * theirs.Keys;
      while todo != {}
        invariant todo <= root.Keys * theirs.Keys
        invariant forall k :: k in root && k in theirs && k !in todo ==> root[k] == theirs[k]
      {
        var key :| key in todo;
        if root[key] != theirs[key] {
          assert ValueOf(root, key) != ValueOf(RootOrEmpty(other), key);
          return Some(KeyValueMismatch(key, root[key], theirs[key]));
        }
        todo := todo - {key};
      }
      todo := (root.Keys - theirs.Keys) + (theirs.Keys - root.Keys);
      while todo != {}
        invariant todo <= (root.Keys - theirs.Keys) + (theirs.Keys - root.Keys)
        invariant forall k :: k in root && k !in theirs && k !in todo ==> root[k] == 0
        invariant forall k :: k in theirs && k !in root && k !in todo ==> theirs[k] == 0 || k in Excused()
      {
        var key :| key in todo;
        if key in root {
          if root[key] != 0 {
            assert ValueOf(root, key) != ValueOf(RootOrEmpty(other), key);
            return Some(KeyValueMismatch(key, root[key], 0));
          }
        } else if theirs[key] != 0 {
          if !(key in anyMap && anyMap[key]) {
            assert ValueOf(root, key) != ValueOf(RootOrEmpty(other), key);
            return Some(KeyValueMismatch(key, 0, theirs[key]));
          }
        }
        todo := todo - {key};
      }
      return None;
    }
  }

  function RootOrEmpty(s: Storage?): Slots
    reads s
  {
    if s == null then map[] else s.root
  }

  /** Storages agree exactly when they are the same map once zeros are erased. */
  lemma AgreeIsNonZeroEquality(a: Slots, b: Slots)
    ensures Agree(a, b, {}) <==> NonZero(a) == NonZero(b)
  {
    if Agree(a, b, {}) {
      forall k ensures k in NonZero(a) <==> k in NonZero(b) {
        assert ValueOf(a, k) == ValueOf(b, k);
      }
      forall k | k in NonZero(a) ensures NonZero(a)[k] == NonZero(b)[k] {
        assert ValueOf(a, k) == ValueOf(b, k);
      }
    } else {
      var k :| ValueOf(a, k) != ValueOf(b, k);
      assert k in NonZero(a) <==> ValueOf(a, k) != 0;
      assert k in NonZero(b) <==> ValueOf(b, k) != 0;
    }
  }

  /** With keys marked "any": they are left out of the other storage where the expected one does not mention them. */
  lemma AgreeWithAny(a: Slots, b: Slots, excused: set<U256>)
    requires excused !! a.Keys
    ensures Agree(a, b, excused) <==> NonZero(a) == NonZero(Without(b, excused))
  {
    var c := Without(b, excused);
    AgreeIsNonZeroEquality(a, c);
    forall k ensures ValueOf(a, k) == ValueOf(c, k) <==> ValueOf(a, k) == ValueOf(b, k) || k in excused {
      if k in excused {
        assert k !in a && k !in c;
      }
    }
    if Agree(a, b, excused) {
      assert Agree(a, c, {});
    }
  }

  /** Equality is containment both ways. */
  lemma AgreeIsContainmentBothWays(a: Slots, b: Slots)
    ensures Agree(a, b, {}) <==>
            && (forall k :: k in b ==> ValueOf(a, k) == b[k])
            && (forall k :: k in a ==> ValueOf(b, k) == a[k])
  {
    if Agree(a, b, {}) {
      assert forall k :: k in b ==> ValueOf(a, k) == ValueOf(b, k);
      assert forall k :: k in a ==> ValueOf(a, k) == ValueOf(b, k);
    }
  }
}
