/**
 `Alloc.merge` and `Account.merge`: the second allocation overrides the first, field by field, and an
 account that comes out empty is dropped. So merging may change a state root.
 */
module AllocMerges {
  import opened ByteStrings
  import opened Options
  import opened Storages
  import opened States
  import opened StateRoots
  import opened StateCommitment

  /** An account as it was given: fields that are not set have their defaults. */
  datatype Given = Given(nonce: Option<nat>, balance: Option<U256>, code: Option<Bytes>, storage: Option<Slots>)

  type GivenAlloc = map<Address, Option<Given>>

  datatype CollisionMode = ErrorMode | Overwrite | AllowIdentical

  datatype MergeError = OverlappingKeys | CollisionError(address: Address)

  datatype Merge = Ok(alloc: Alloc) | Failed(error: MergeError)

  const DEFAULT_ACCOUNT := Account(0, 0, [], map[])

  function Over<T>(field: Option<T>, below: T): T {
    if field.Some? then field.value else below
  }

  /** `Account.merge`, where what is below has all its fields or is absent. */
  function MergeAccount(below: Option<Account>, above: Option<Given>): Account {
    var base := Over(below, DEFAULT_ACCOUNT);
    if above.None? then base
    else
      var g := above.value;
      Account(Over(g.nonce, base.nonce), Over(g.balance, base.balance), Over(g.code, base.code),
              Over(g.storage, base.storage))
  }

  /** An account with the defaults filled in. */
  function Value(g: Option<Given>): Option<Account> {
    if g.None? then None else Some(MergeAccount(None, g))
  }

  function Values(alloc: GivenAlloc): Alloc {
    map a | a in alloc :: Value(alloc[a])
  }

  /** The truth value of an account is false: a storage of zeros counts as empty. */
  predicate IsEmpty(account: Account) {
    account.nonce == 0 && account.balance == 0 && account.code == [] && NonZero(account.storage) == map[]
  }

  /** `empty_accounts`. */
  function EmptyAccounts(alloc: Alloc): set<Address> {
    set a | a in alloc && (alloc[a].None? || IsEmpty(alloc[a].value))
  }

  function Below(x: GivenAlloc, a: Address): Option<Account> {
    if a in x then Value(x[a]) else None
  }

  /** What the result holds at an address. */
  function MergedAt(x: GivenAlloc, y: GivenAlloc, a: Address): Option<Option<Account>> {
    if a in y then
      var account := MergeAccount(Below(x, a), y[a]);
      if IsEmpty(account) then None else Some(Some(account))
    else if a in x then Some(Value(x[a]))
    else None
  }

  /** The merged allocation, address by address. */
  ghost predicate IsMerged(x: GivenAlloc, y: GivenAlloc, m: Alloc) {
    forall a: Address {:trigger a in m} ::
      (a in m <==> MergedAt(x, y, a).Some?) && (a in m ==> MergedAt(x, y, a) == Some(m[a]))
  }

  /** With the addresses in `todo` still to come, they are as in the first allocation. */
  ghost predicate Merging(x: GivenAlloc, y: GivenAlloc, todo: set<Address>, m: Alloc) {
    forall a: Address {:trigger a in m} ::
      var want := if a in todo then (if a in x then Some(Value(x[a])) else None) else MergedAt(x, y, a);
      (a in m <==> want.Some?) && (a in m ==> want == Some(m[a]))
  }

  /** `Alloc.merge`. */
  method MergeAllocs(x: GivenAlloc, y: GivenAlloc, mode: CollisionMode) returns (r: Merge)
    ensures r.Failed? <==>
            || (mode.ErrorMode? && x.Keys * y.Keys != {})
            || (mode.AllowIdentical? && exists a :: a in x && a in y && Value(x[a]) != Value(y[a]))
    ensures r.Failed? && r.error.CollisionError? ==>
              r.error.address in x && r.error.address in y && Value(x[r.error.address]) != Value(y[r.error.address])
    ensures r.Ok? ==> IsMerged(x, y, r.alloc) && FieldByField(x, y, r.alloc)
  {
    if x.Keys * y.Keys != {} {
      if mode == ErrorMode {
        return Failed(OverlappingKeys);
      } else if mode == AllowIdentical {
        var different := FindDifferent(x, y);
        if different.Some? {
          return Failed(CollisionError(different.value));
        }
      }
    }
    assert forall a :: a in x && a in y ==> a in x.Keys * y.Keys;
    var merged := Values(x);
    var todo := y.Keys;
    while todo != {}
      invariant todo <= y.Keys && Merging(x, y, todo, merged)
      decreases |todo|
    {
      var address :| address in todo;
      MergeStep(x, y, todo, merged, address);
      var account := MergeAccount(if address in merged then merged[address] else None, y[address]);
      if !IsEmpty(account) {
        merged := merged[address := Some(account)];
      } else if address in merged {
        merged := merged - {address};
      }
      todo := todo - {address};
    }
    MergedFieldByField(x, y, merged);
    return Ok(merged);
  }

  // ---- What the result is, field by field ----

  /** What an allocation sets at an address. */
  function NonceAt(g: GivenAlloc, a: Address): Option<nat> {
    if a in g && g[a].Some? then g[a].value.nonce else None
  }

  function BalanceAt(g: GivenAlloc, a: Address): Option<U256> {
    if a in g && g[a].Some? then g[a].value.balance else None
  }

  function CodeAt(g: GivenAlloc, a: Address): Option<Bytes> {
    if a in g && g[a].Some? then g[a].value.code else None
  }

  function StorageAt(g: GivenAlloc, a: Address): Option<Slots> {
    if a in g && g[a].Some? then g[a].value.storage else None
  }

  /** What the second sets wins over what the first sets, and that over the default. */
  ghost predicate Takes<T>(field: T, first: Option<T>, second: Option<T>, default: T) {
    && (second.Some? ==> field == second.value)
    && (second.None? && first.Some? ==> field == first.value)
    && (second.None? && first.None? ==> field == default)
  }

  ghost predicate TakesAll(account: Account, x: GivenAlloc, y: GivenAlloc, a: Address) {
    && Takes(account.nonce, NonceAt(x, a), NonceAt(y, a), 0)
    && Takes(account.balance, BalanceAt(x, a), BalanceAt(y, a), 0)
    && Takes(account.code, CodeAt(x, a), CodeAt(y, a), [])
    && Takes(account.storage, StorageAt(x, a), StorageAt(y, a), map[])
  }

  /** No nonce, balance or code, and no slot that is not zero. */
  ghost predicate Nothing(account: Account) {
    && account.nonce == 0 && account.balance == 0 && account.code == []
    && forall k :: k in account.storage ==> account.storage[k] == 0
  }

  /**
   Every account has the fields of both allocations. At the addresses of the second, those are left out that
   have nothing in any field; the first keeps even its absent accounts elsewhere.
   */
  ghost predicate FieldByField(x: GivenAlloc, y: GivenAlloc, m: Alloc) {
    forall a: Address {:trigger a in m} ::
      && (a in m && m[a].Some? ==> TakesAll(m[a].value, x, y, a))
      && (a in y ==> (a in m <==> exists account :: TakesAll(account, x, y, a) && !Nothing(account)))
      && (a in y && a in m ==> m[a].Some?)
      && (a !in y ==> (a in m <==> a in x) && (a in m ==> (m[a].Some? <==> x[a].Some?)))
  }

  lemma EmptyIsNothing(account: Account)
    ensures IsEmpty(account) <==> Nothing(account)
  {
    if IsEmpty(account) {
      forall k | k in account.storage ensures account.storage[k] == 0 {
        assert k !in NonZero(account.storage);
      }
    }
    if Nothing(account) {
      assert NonZero(account.storage) == map[];
    }
  }

  lemma MergedTakesAll(x: GivenAlloc, y: GivenAlloc, a: Address, account: Account)
    requires a in y
    ensures TakesAll(account, x, y, a) <==> account == MergeAccount(Below(x, a), y[a])
  {}

  lemma MergedFieldByField(x: GivenAlloc, y: GivenAlloc, m: Alloc)
    requires IsMerged(x, y, m)
    ensures FieldByField(x, y, m)
  {
    forall a: Address {:trigger a in m}
      ensures a in m && m[a].Some? ==> TakesAll(m[a].value, x, y, a)
      ensures a in y ==> (a in m <==> exists account :: TakesAll(account, x, y, a) && !Nothing(account))
      ensures a in y && a in m ==> m[a].Some?
      ensures a !in y ==> (a in m <==> a in x) && (a in m ==> (m[a].Some? <==> x[a].Some?))
    {
      assert a in m <==> MergedAt(x, y, a).Some?;
      if a in y {
        var merged := MergeAccount(Below(x, a), y[a]);
        EmptyIsNothing(merged);
        MergedTakesAll(x, y, a, merged);
        if account :| TakesAll(account, x, y, a) && !Nothing(account) {
          MergedTakesAll(x, y, a, account);
        }
      }
    }
  }

  /** An address at which the two allocations have different accounts. */
  method FindDifferent(x: GivenAlloc, y: GivenAlloc) returns (different: Option<Address>)
    ensures different.None? <==> forall a :: a in x && a in y ==> Value(x[a]) == Value(y[a])
    ensures different.Some? ==>
              different.value in x && different.value in y && Value(x[different.value]) != Value(y[different.value])
  {
    var overlapping := x.Keys * y.Keys;
    var todo := overlapping;
    while todo != {}
      invariant todo <= overlapping
      invariant forall a :: a in overlapping && a !in todo ==> Value(x[a]) == Value(y[a])
      decreases |todo|
    {
      var key :| key in todo;
      if Value(x[key]) != Value(y[key]) {
        return Some(key);
      }
      todo := todo - {key};
    }
    assert forall a :: a in x && a in y ==> a in overlapping;
    return None;
  }

  lemma MergeStep(x: GivenAlloc, y: GivenAlloc, todo: set<Address>, m: Alloc, a: Address)
    requires Merging(x, y, todo, m) && a in todo && a in y
    ensures (if a in m then m[a] else None) == Below(x, a)
    ensures var account := MergeAccount(Below(x, a), y[a]);
            Merging(x, y, todo - {a}, if IsEmpty(account) then m - {a} else m[a := Some(account)])
  {}

  /** The only empty accounts of a merged allocation are those of the first at addresses the second does not have. */
  lemma EmptyOfMerged(x: GivenAlloc, y: GivenAlloc, m: Alloc)
    requires IsMerged(x, y, m)
    ensures EmptyAccounts(m) == EmptyAccounts(Values(x)) - y.Keys
  {
    forall a: Address ensures a in EmptyAccounts(m) <==> a in EmptyAccounts(Values(x)) && a !in y {
      assert a in m <==> MergedAt(x, y, a).Some?;
    }
  }

  /** One allocation laid over another, nothing dropped: an account is there if either has one. */
  function Overlaid(x: GivenAlloc, y: GivenAlloc): Alloc {
    map a | a in x.Keys + y.Keys :: OverlaidAt(x, y, a)
  }

  function OverlaidAt(x: GivenAlloc, y: GivenAlloc, a: Address): Option<Account>
    requires a in x || a in y
  {
    if a in y then
      if y[a].None? && Below(x, a).None? then None else Some(MergeAccount(Below(x, a), y[a]))
    else Value(x[a])
  }

  /** An account is there if either has one, with the fields of both. */
  lemma OverlaidFieldByField(x: GivenAlloc, y: GivenAlloc, a: Address)
    ensures a in Overlaid(x, y) <==> a in x || a in y
    ensures a in Overlaid(x, y) ==> (Overlaid(x, y)[a].Some? <==> (a in x && x[a].Some?) || (a in y && y[a].Some?))
    ensures a in Overlaid(x, y) && Overlaid(x, y)[a].Some? ==> TakesAll(Overlaid(x, y)[a].value, x, y, a)
  {
    if a in Overlaid(x, y) && a in y && Overlaid(x, y)[a].Some? {
      MergedTakesAll(x, y, a, Overlaid(x, y)[a].value);
    }
  }

  /** An account of either comes out empty at an address of the second. */
  ghost predicate DropsAccount(x: GivenAlloc, y: GivenAlloc) {
    exists a :: Drops(x, y, a)
  }

  predicate Drops(x: GivenAlloc, y: GivenAlloc, a: Address) {
    a in y && OverlaidAt(x, y, a).Some? && IsEmpty(MergeAccount(Below(x, a), y[a]))
  }

  lemma MergedOrDropped(x: GivenAlloc, y: GivenAlloc, m: Alloc, a: Address)
    requires IsMerged(x, y, m)
    ensures var n, o := Normalised(m), Normalised(Overlaid(x, y));
            && (Drops(x, y, a) ==> a !in n && a in o)
            && (!Drops(x, y, a) ==> (a in n <==> a in o) && (a in n ==> n[a] == o[a]))
  {
    assert a in m <==> MergedAt(x, y, a).Some?;
  }

  /** Merging leaves out exactly the accounts that come out empty, and changes no other. */
  lemma MergeKeepsNormalForm(x: GivenAlloc, y: GivenAlloc, m: Alloc)
    requires IsMerged(x, y, m)
    ensures Normalised(m) == Normalised(Overlaid(x, y)) <==> !DropsAccount(x, y)
  {
    var n, o := Normalised(m), Normalised(Overlaid(x, y));
    if DropsAccount(x, y) {
      var a :| Drops(x, y, a);
      MergedOrDropped(x, y, m, a);
    } else {
      forall a: Address {:trigger a in n} {:trigger a in o}
        ensures a in n <==> a in o
        ensures a in n ==> n[a] == o[a]
      {
        MergedOrDropped(x, y, m, a);
      }
      assert n == o;
    }
  }

  /** So the merged allocation has the state root of the two laid over each other exactly if it drops none. */
  lemma MergeKeepsRoot(K: Keccak, x: GivenAlloc, y: GivenAlloc, m: Alloc)
    requires IsMerged(x, y, m)
    requires HashesEmptyTrie(K) && BoundedNonces(m) && BoundedNonces(Overlaid(x, y))
    requires CollisionFree(K, AllocHashed(K, m) + AllocHashed(K, Overlaid(x, y)))
    ensures Distinct(K, AccountsOf(m), StoragesOf(m))
    ensures Distinct(K, AccountsOf(Overlaid(x, y)), StoragesOf(Overlaid(x, y)))
    ensures AllocRootOf(K, m) == AllocRootOf(K, Overlaid(x, y)) <==> !DropsAccount(x, y)
  {
    StateRootCommits(K, m, Overlaid(x, y));
    MergeKeepsNormalForm(x, y, m);
  }

  /** Laying an allocation over nothing changes nothing, so then merging drops exactly its empty accounts. */
  lemma OverNothing(y: GivenAlloc)
    ensures Overlaid(map[], y) == Values(y)
    ensures DropsAccount(map[], y) <==> exists a :: a in y && y[a].Some? && IsEmpty(Value(y[a]).value)
  {
    assert Overlaid(map[], y) == Values(y);
    if a :| a in y && y[a].Some? && IsEmpty(Value(y[a]).value) {
      assert Drops(map[], y, a);
    }
  }
}
