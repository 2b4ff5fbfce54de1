/**
 `PreAllocGroup.to_file`: workers merge their groups into one file, under a lock. Whatever their order,
 a collision is reported exactly if two of them disagree, and otherwise the file holds them all.
 */
module PreAllocGroups {
  import opened Options
  import opened States
  import opened LockedFiles

  datatype Group = Group(testIds: seq<string>, pre: Alloc)

  /** The contents of the marker beside the file. */
  datatype Collision = Collision(address: Address, account1: Option<Account>, account2: Option<Account>)

  predicate Agree(a: Alloc, b: Alloc) {
    forall k {:trigger k in a} {:trigger k in b} :: k in a && k in b ==> a[k] == b[k]
  }

  /** The file and whether its marker exists. */
  datatype Saved = Saved(group: Option<Group>, failed: bool)

  /** What one call leaves on disk. */
  function Save(g: Group, s: Saved): Saved {
    if s.group.None? then s.(group := Some(g))
    else if Agree(g.pre, s.group.value.pre) then
      s.(group := Some(Group(g.testIds + s.group.value.testIds, s.group.value.pre + g.pre)))
    else s.(failed := true)
  }

  class GroupFile {
    var content: Option<Group>
    var marker: Option<Collision>

    function Disk(): Saved
      reads this
    {
      Saved(content, marker.Some?)
    }
  }

  class PreAllocGroup {
    var testIds: seq<string>
    var pre: Alloc

    function Value(): Group
      reads this
    {
      Group(testIds, pre)
    }

    /** `to_file`; returns whether it raises a collision. The marker names an account they disagree on. */
    method ToFile(file: GroupFile) returns (raised: bool)
      modifies this, file
      ensures file.Disk() == Save(old(Value()), old(file.Disk()))
      ensures !raised ==> file.content == Some(Value()) && file.marker == old(file.marker)
      ensures raised <==> old(file.content).Some? && !Agree(old(pre), old(file.content).value.pre)
      ensures raised ==>
                && file.marker.Some?
                && var c := file.marker.value;
                && c.address in old(pre) && c.address in old(file.content).value.pre
                && c.account1 == old(file.content).value.pre[c.address]
                && c.account2 == old(pre)[c.address] && c.account1 != c.account2
                && testIds == old(testIds) && file.content == old(file.content)
      ensures !raised ==> OneMore(old(Value()), old(file.content), Value())
    {
      if file.content.Some? {
        var previous := file.content.value;
        ghost var mine := pre;
        var todo := previous.pre.Keys;
        assert Merging(mine, previous.pre, todo, pre);
        while todo != {}
          invariant Merging(mine, previous.pre, todo, pre)
          invariant testIds == old(testIds) && file.content == old(file.content) && file.marker == old(file.marker)
          decreases |todo|
        {
          var account :| account in todo;
          var existing := previous.pre[account];
          if account !in pre {
            pre := pre[account := existing];
          } else {
            var new_ := pre[account];
            if new_ != existing {
              file.marker := Some(Collision(account, existing, new_));
              return true;
            }
          }
          todo := todo - {account};
        }
        Merged(mine, previous.pre, pre);
        testIds := testIds + previous.testIds;
      }
      file.content := Some(Group(testIds, pre));
      return false;
    }
  }

  /** A group has its own test ids and accounts, and behind them those of the file, if there was one. */
  ghost predicate OneMore(mine: Group, before: Option<Group>, now: Group) {
    && now.testIds == mine.testIds + (if before.Some? then before.value.testIds else [])
    && forall k: Address {:trigger k in now.pre} ::
         && (k in now.pre <==> k in mine.pre || (before.Some? && k in before.value.pre))
         && (k in mine.pre ==> now.pre[k] == mine.pre[k])
         && (before.Some? && k in before.value.pre ==> now.pre[k] == before.value.pre[k])
  }

  /** What the first worker that collides leaves: the file stays, and so it does for all that come after it. */
  lemma SaveExactly(g: Group, s: Saved)
    ensures var after := Save(g, s);
            && after.group.Some?
            && (after.failed <==> s.failed || (s.group.Some? && !Agree(g.pre, s.group.value.pre)))
            && (s.group.Some? && !Agree(g.pre, s.group.value.pre) ==> after.group == s.group)
            && (s.group.None? || Agree(g.pre, s.group.value.pre) ==> OneMore(g, s.group, after.group.value))
  {}

  /** Part of the other accounts are checked and taken over. */
  ghost predicate Merging(mine: Alloc, other: Alloc, todo: set<Address>, pre: Alloc) {
    && todo <= other.Keys
    && pre.Keys == mine.Keys + (other.Keys - todo)
    && (forall k {:trigger k in pre} :: k in pre ==> pre[k] == if k in mine then mine[k] else other[k])
    && (forall k {:trigger k in mine} :: k in mine && k in other && k !in todo ==> mine[k] == other[k])
  }

  lemma Merged(mine: Alloc, other: Alloc, pre: Alloc)
    requires Merging(mine, other, {}, pre)
    ensures Agree(mine, other) && pre == other + mine
  {}

  // ---- Any number of workers ----

  const EMPTY_FOLDER := Saved(None, false)

  /** Worker `w` saves `inputs[w]`. */
  function SaveOf(inputs: seq<Group>): (nat, Saved) -> Saved {
    (w: nat, s: Saved) => if w < |inputs| then Save(inputs[w], s) else s
  }

  ghost predicate Indices(inputs: seq<Group>, s: set<nat>) {
    forall i :: i in s ==> i < |inputs|
  }

  /** Two of the inputs disagree on some address. */
  ghost predicate Collide(inputs: seq<Group>, s: set<nat>) {
    exists i, j :: i in s && j in s && i < |inputs| && j < |inputs| && !Agree(inputs[i].pre, inputs[j].pre)
  }

  /** `pre` is the union of the inputs: nothing is lost, changed or made up. */
  ghost predicate IsUnion(inputs: seq<Group>, s: set<nat>, pre: Alloc) {
    && (forall i {:trigger i in s} :: i in s && i < |inputs| ==>
          inputs[i].pre.Keys <= pre.Keys && Agree(inputs[i].pre, pre))
    && (forall k {:trigger k in pre} :: k in pre ==> exists i :: i in s && i < |inputs| && k in inputs[i].pre)
  }

  /** All test ids of those of the first `n` inputs that are in `s`. */
  ghost function IdsOf(inputs: seq<Group>, s: set<nat>, n: nat): multiset<string>
    requires n <= |inputs|
  {
    if n == 0 then multiset{}
    else IdsOf(inputs, s, n - 1) + if n - 1 in s then multiset(inputs[n - 1].testIds) else multiset{}
  }

  lemma {:induction false} IdsOfMore(inputs: seq<Group>, s: set<nat>, i: nat, n: nat)
    requires n <= |inputs| && i < |inputs| && i !in s
    ensures IdsOf(inputs, s + {i}, n) == IdsOf(inputs, s, n) + if i < n then multiset(inputs[i].testIds) else multiset{}
  {
    if n > 0 {
      IdsOfMore(inputs, s, i, n - 1);
    }
  }

  ghost function Members(order: seq<nat>): set<nat> {
    set i | i in order
  }

  /** The union agrees with one more input exactly if each of its parts does. */
  lemma UnionAgrees(inputs: seq<Group>, s: set<nat>, pre: Alloc, i: nat)
    requires Indices(inputs, s) && IsUnion(inputs, s, pre) && i < |inputs|
    ensures Agree(inputs[i].pre, pre) <==> forall j :: j in s ==> Agree(inputs[j].pre, inputs[i].pre)
  {
    if forall j :: j in s ==> Agree(inputs[j].pre, inputs[i].pre) {
      forall k | k in inputs[i].pre && k in pre ensures inputs[i].pre[k] == pre[k] {
        var j :| j in s && j < |inputs| && k in inputs[j].pre;
        assert Agree(inputs[j].pre, inputs[i].pre) && Agree(inputs[j].pre, pre);
      }
    }
    if Agree(inputs[i].pre, pre) {
      forall j | j in s ensures Agree(inputs[j].pre, inputs[i].pre) {
        assert Agree(inputs[j].pre, pre);
      }
    }
  }

  lemma UnionGrows(inputs: seq<Group>, s: set<nat>, pre: Alloc, i: nat)
    requires Indices(inputs, s) && IsUnion(inputs, s, pre) && i < |inputs| && Agree(inputs[i].pre, pre)
    ensures IsUnion(inputs, s + {i}, pre + inputs[i].pre)
  {
    var all := pre + inputs[i].pre;
    forall j {:trigger j in s} | j in s + {i} ensures inputs[j].pre.Keys <= all.Keys && Agree(inputs[j].pre, all) {
      if j in s {
        assert Agree(inputs[j].pre, pre);
      }
    }
    forall k {:trigger k in all} | k in all ensures exists j :: j in s + {i} && j < |inputs| && k in inputs[j].pre {
      if k in pre {
        var j :| j in s && j < |inputs| && k in inputs[j].pre;
        assert j in s + {i};
      } else {
        assert i in s + {i};
      }
    }
  }

  lemma CollideMore(inputs: seq<Group>, s: set<nat>, i: nat)
    requires Indices(inputs, s) && i < |inputs|
    ensures Collide(inputs, s + {i}) <==>
            Collide(inputs, s) || exists j :: j in s && !Agree(inputs[j].pre, inputs[i].pre)
  {
    if Collide(inputs, s + {i}) {
      var a, b :| a in s + {i} && b in s + {i} && a < |inputs| && b < |inputs| && !Agree(inputs[a].pre, inputs[b].pre);
      if a in s && b in s {
        assert Collide(inputs, s);
      } else if a in s {
        assert !Agree(inputs[a].pre, inputs[i].pre);
      } else {
        assert a == i && b in s && !Agree(inputs[b].pre, inputs[i].pre);
      }
    }
    if Collide(inputs, s) {
      var a, b :| a in s && b in s && a < |inputs| && b < |inputs| && !Agree(inputs[a].pre, inputs[b].pre);
      assert a in s + {i} && b in s + {i};
    }
    if j :| j in s && !Agree(inputs[j].pre, inputs[i].pre) {
      assert j in s + {i} && i in s + {i};
    }
  }

  /** What the disk holds after the inputs in `s`. */
  ghost predicate Holds(inputs: seq<Group>, s: set<nat>, disk: Saved) {
    && (disk.failed <==> Collide(inputs, s))
    && (disk.group.None? <==> s == {})
    && (!disk.failed && disk.group.Some? ==>
          IsUnion(inputs, s, disk.group.value.pre) &&
          multiset(disk.group.value.testIds) == IdsOf(inputs, s, |inputs|))
  }

  lemma SaveHolds(inputs: seq<Group>, s: set<nat>, disk: Saved, i: nat)
    requires Indices(inputs, s) && i < |inputs| && i !in s && Holds(inputs, s, disk)
    ensures Holds(inputs, s + {i}, Save(inputs[i], disk))
  {
    CollideMore(inputs, s, i);
    IdsOfMore(inputs, s, i, |inputs|);
    if !disk.failed {
      if disk.group.Some? {
        UnionAgrees(inputs, s, disk.group.value.pre, i);
        if Agree(inputs[i].pre, disk.group.value.pre) {
          UnionGrows(inputs, s, disk.group.value.pre, i);
        }
      } else {
        NoIds(inputs, |inputs|);
        assert i in s + {i};
      }
    }
  }

  lemma {:induction false} NoIds(inputs: seq<Group>, n: nat)
    requires n <= |inputs|
    ensures IdsOf(inputs, {}, n) == multiset{}
  {
    if n > 0 {
      NoIds(inputs, n - 1);
    }
  }

  /** One input after another. */
  lemma {:induction false} SerialHolds(inputs: seq<Group>, order: seq<nat>)
    requires Distinct(order) && Indices(inputs, Members(order))
    ensures Holds(inputs, Members(order), Serial(SaveOf(inputs), EMPTY_FOLDER, order))
  {
    if order == [] {
      assert Members(order) == {};
    } else {
      var rest, i := order[..|order| - 1], order[|order| - 1];
      assert Members(order) == Members(rest) + {i};
      SerialHolds(inputs, rest);
      SaveHolds(inputs, Members(rest), Serial(SaveOf(inputs), EMPTY_FOLDER, rest), i);
    }
  }

  ghost function UpTo(n: nat): (s: set<nat>)
    ensures forall i :: i in s <==> 0 <= i < n
  {
    if n == 0 then {} else UpTo(n - 1) + {n - 1}
  }

  ghost function All(inputs: seq<Group>): set<nat> {
    UpTo(|inputs|)
  }

  /**
   Workers that call `to_file` on one file, interleaved in any way: at the end there is a marker exactly
   if two of them disagree on an address. Otherwise the file holds the union of their accounts, and the
   test ids of all.
   */
  lemma WorkersConfluent(inputs: seq<Group>, schedule: seq<nat>, end: System<Saved>)
    requires Execute(SaveOf(inputs), Begin(EMPTY_FOLDER, |inputs|), schedule) == Some(end) && Finished(end)
    ensures end.store.failed <==>
            exists i, j :: 0 <= i < |inputs| && 0 <= j < |inputs| && !Agree(inputs[i].pre, inputs[j].pre)
    ensures end.store.group.None? <==> inputs == []
    ensures !end.store.failed && inputs != [] ==>
              && IsUnion(inputs, All(inputs), end.store.group.value.pre)
              && multiset(end.store.group.value.testIds) == IdsOf(inputs, All(inputs), |inputs|)
  {
    FinishedHolds(inputs, schedule, end);
    CollideAll(inputs);
    assert inputs != [] ==> 0 in All(inputs);
  }

  lemma FinishedHolds(inputs: seq<Group>, schedule: seq<nat>, end: System<Saved>)
    requires Execute(SaveOf(inputs), Begin(EMPTY_FOLDER, |inputs|), schedule) == Some(end) && Finished(end)
    ensures Holds(inputs, All(inputs), end.store)
  {
    ExecutionIsSerial(SaveOf(inputs), EMPTY_FOLDER, |inputs|, schedule, end);
    assert Members(end.order) == All(inputs);
    SerialHolds(inputs, end.order);
  }

  lemma CollideAll(inputs: seq<Group>)
    ensures Collide(inputs, All(inputs)) <==>
            exists i, j :: 0 <= i < |inputs| && 0 <= j < |inputs| && !Agree(inputs[i].pre, inputs[j].pre)
  {
    if i, j :| 0 <= i < |inputs| && 0 <= j < |inputs| && !Agree(inputs[i].pre, inputs[j].pre) {
      assert i in All(inputs) && j in All(inputs);
    }
  }
}
