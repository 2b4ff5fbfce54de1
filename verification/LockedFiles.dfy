/**
 Workers that each take a lock, read a shared file, compute from it what to write, write it and
 release the lock. Whatever the interleaving, the file is as if the workers had run one after another.
 */
module LockedFiles {
  import opened Options

  datatype Phase<S> = Waiting | Locked | Read(seen: S) | Written | Done

  /** `order` remembers who wrote; the program has no such variable. */
  datatype System<S> = System(store: S, holder: Option<nat>, phases: seq<Phase<S>>, order: seq<nat>)

  function Begin<S>(store: S, workers: nat): System<S> {
    System(store, None, seq(workers, _ => Waiting), [])
  }

  /** The next step of worker `w`; `None` if it is blocked or done. */
  function Move<S>(op: (nat, S) -> S, s: System<S>, w: nat): Option<System<S>> {
    if w >= |s.phases| then None
    else
      match s.phases[w]
      case Waiting => if s.holder.None? then Some(s.(holder := Some(w), phases := s.phases[w := Locked])) else None
      case Locked => Some(s.(phases := s.phases[w := Read(s.store)]))
      case Read(seen) => Some(s.(store := op(w, seen), phases := s.phases[w := Written], order := s.order + [w]))
      case Written => Some(s.(holder := None, phases := s.phases[w := Done]))
      case Done => None
  }

  function Execute<S>(op: (nat, S) -> S, s: System<S>, schedule: seq<nat>): Option<System<S>>
    decreases |schedule|
  {
    if schedule == [] then Some(s)
    else
      var next := Move(op, s, schedule[0]);
      if next.None? then None else Execute(op, next.value, schedule[1..])
  }

  /** The workers one after another. */
  function Serial<S>(op: (nat, S) -> S, store: S, order: seq<nat>): S {
    if order == [] then store else op(order[|order| - 1], Serial(op, store, order[..|order| - 1]))
  }

  ghost predicate Distinct(order: seq<nat>) {
    forall i, j :: 0 <= i < j < |order| ==> order[i] != order[j]
  }

  ghost predicate HasWritten<S>(p: Phase<S>) {
    p.Written? || p.Done?
  }

  ghost predicate HoldsLock<S>(p: Phase<S>) {
    p.Locked? || p.Read? || p.Written?
  }

  ghost predicate OrderRight<S>(op: (nat, S) -> S, start: S, s: System<S>) {
    && s.store == Serial(op, start, s.order)
    && Distinct(s.order)
    && (forall w :: w in s.order <==> 0 <= w < |s.phases| && HasWritten(s.phases[w]))
  }

  ghost predicate LockRight<S>(s: System<S>) {
    && (s.holder.Some? ==> s.holder.value < |s.phases|)
    && (forall w :: 0 <= w < |s.phases| ==> (HoldsLock(s.phases[w]) <==> s.holder == Some(w)))
    && (forall w :: 0 <= w < |s.phases| && s.phases[w].Read? ==> s.phases[w].seen == s.store)
  }

  ghost predicate Invariant<S>(op: (nat, S) -> S, start: S, s: System<S>) {
    OrderRight(op, start, s) && LockRight(s)
  }

  lemma MoveKeepsLock<S>(op: (nat, S) -> S, s: System<S>, w: nat)
    requires LockRight(s) && Move(op, s, w).Some?
    ensures LockRight(Move(op, s, w).value)
  {
    var next := Move(op, s, w).value;
    forall v | 0 <= v < |s.phases| && next.phases[v].Read? ensures next.phases[v].seen == next.store {
      assert HoldsLock(next.phases[v]);
    }
  }

  lemma MoveKeepsOrder<S>(op: (nat, S) -> S, start: S, s: System<S>, w: nat)
    requires Invariant(op, start, s) && Move(op, s, w).Some?
    ensures OrderRight(op, start, Move(op, s, w).value)
  {
    var next := Move(op, s, w).value;
    if s.phases[w].Read? {
      assert w !in s.order && next.order[..|s.order|] == s.order;
    } else {
      assert next.order == s.order && next.store == s.store;
    }
  }

  lemma MoveKeepsInvariant<S>(op: (nat, S) -> S, start: S, s: System<S>, w: nat)
    requires Invariant(op, start, s) && Move(op, s, w).Some?
    ensures Invariant(op, start, Move(op, s, w).value)
  {
    MoveKeepsLock(op, s, w);
    MoveKeepsOrder(op, start, s, w);
  }

  lemma {:induction false} ExecuteKeepsInvariant<S>(op: (nat, S) -> S, start: S, s: System<S>, schedule: seq<nat>)
    requires Invariant(op, start, s) && Execute(op, s, schedule).Some?
    ensures var end := Execute(op, s, schedule).value; Invariant(op, start, end) && |end.phases| == |s.phases|
    decreases |schedule|
  {
    if schedule != [] {
      MoveKeepsInvariant(op, start, s, schedule[0]);
      ExecuteKeepsInvariant(op, start, Move(op, s, schedule[0]).value, schedule[1..]);
    }
  }

  ghost predicate Finished<S>(s: System<S>) {
    forall w :: 0 <= w < |s.phases| ==> s.phases[w].Done?
  }

  /** Once all workers are done, each has run exactly once, and the file is that of running them in turn. */
  lemma ExecutionIsSerial<S>(op: (nat, S) -> S, start: S, workers: nat, schedule: seq<nat>, end: System<S>)
    requires Execute(op, Begin(start, workers), schedule) == Some(end) && Finished(end)
    ensures end.store == Serial(op, start, end.order)
    ensures Distinct(end.order) && forall w :: w in end.order <==> 0 <= w < workers
  {
    ExecuteKeepsInvariant(op, start, Begin(start, workers), schedule);
  }

  /** No deadlock: while someone is not done, someone can move. */
  lemma SomeoneCanMove<S>(op: (nat, S) -> S, start: S, s: System<S>)
    requires Invariant(op, start, s) && !Finished(s)
    ensures exists w :: 0 <= w < |s.phases| && Move(op, s, w).Some?
  {
    var w :| 0 <= w < |s.phases| && !s.phases[w].Done?;
    var v := if s.holder.Some? then s.holder.value else w;
    assert Move(op, s, v).Some?;
  }

  // ---- Workers that come back ----

  /** The turns of one owner are taken in the order of their numbers. */
  ghost predicate OwnTurn<S>(owner: nat -> nat, s: System<S>, w: nat) {
    forall v :: 0 <= v < w < |s.phases| && owner(v) == owner(w) ==> s.phases[v].Done?
  }

  /** A turn starts only when its owner has done all earlier ones. */
  ghost predicate InTurn<S>(op: (nat, S) -> S, owner: nat -> nat, s: System<S>, schedule: seq<nat>)
    decreases |schedule|
  {
    schedule == [] ||
    (var next := Move(op, s, schedule[0]);
     next.Some? ==>
       && (s.phases[schedule[0]].Waiting? ==> OwnTurn(owner, s, schedule[0]))
       && InTurn(op, owner, next.value, schedule[1..]))
  }

  /** Of two turns of one owner in `order`, the earlier one comes first. */
  ghost predicate Ascends(owner: nat -> nat, order: seq<nat>) {
    forall i, j :: 0 <= i < j < |order| && owner(order[i]) == owner(order[j]) ==> order[i] < order[j]
  }

  ghost predicate TurnsRight<S>(owner: nat -> nat, s: System<S>) {
    && Ascends(owner, s.order)
    && (forall w :: 0 <= w < |s.phases| && !s.phases[w].Waiting? ==> OwnTurn(owner, s, w))
  }

  lemma MoveKeepsTurns<S>(op: (nat, S) -> S, owner: nat -> nat, start: S, s: System<S>, w: nat)
    requires Invariant(op, start, s) && TurnsRight(owner, s) && Move(op, s, w).Some?
    requires s.phases[w].Waiting? ==> OwnTurn(owner, s, w)
    ensures TurnsRight(owner, Move(op, s, w).value)
  {
    var next := Move(op, s, w).value;
    if s.phases[w].Read? {
      forall i | 0 <= i < |s.order| && owner(s.order[i]) == owner(w) ensures s.order[i] < w {
        var v := s.order[i];
        assert v in s.order && HasWritten(s.phases[v]) && OwnTurn(owner, s, v);
      }
    }
  }

  lemma {:induction false} ExecuteKeepsTurns<S>(op: (nat, S) -> S, owner: nat -> nat, start: S, s: System<S>,
                                                schedule: seq<nat>)
    requires Invariant(op, start, s) && TurnsRight(owner, s)
    requires Execute(op, s, schedule).Some? && InTurn(op, owner, s, schedule)
    ensures TurnsRight(owner, Execute(op, s, schedule).value)
    decreases |schedule|
  {
    if schedule != [] {
      var next := Move(op, s, schedule[0]).value;
      MoveKeepsInvariant(op, start, s, schedule[0]);
      MoveKeepsTurns(op, owner, start, s, schedule[0]);
      ExecuteKeepsTurns(op, owner, start, next, schedule[1..]);
    }
  }

  /** If owners take their turns in order, the file is that of an order that keeps to theirs. */
  lemma TurnsAreKept<S>(op: (nat, S) -> S, owner: nat -> nat, start: S, turns: nat, schedule: seq<nat>,
                        end: System<S>)
    requires Execute(op, Begin(start, turns), schedule) == Some(end)
    requires InTurn(op, owner, Begin(start, turns), schedule)
    ensures Ascends(owner, end.order)
  {
    ExecuteKeepsTurns(op, owner, start, Begin(start, turns), schedule);
  }

  // ---- The same steps without the lock lose updates ----

  function MoveUnlocked<S>(op: (nat, S) -> S, s: System<S>, w: nat): Option<System<S>> {
    if w >= |s.phases| then None
    else
      match s.phases[w]
      case Waiting => Some(s.(phases := s.phases[w := Read(s.store)]))
      case Read(seen) => Some(s.(store := op(w, seen), phases := s.phases[w := Done], order := s.order + [w]))
      case _ => None
  }

  /** Two workers that each add their own number to a set: one of them is lost. */
  lemma UnlockedLosesUpdates()
    ensures var op := (w: nat, s: set<nat>) => s + {w};
            exists a, b, c, d ::
              && MoveUnlocked(op, Begin({}, 2), 0) == Some(a) && MoveUnlocked(op, a, 1) == Some(b)
              && MoveUnlocked(op, b, 0) == Some(c) && MoveUnlocked(op, c, 1) == Some(d)
              && Finished(d) && d.store == {1}
  {
    var op := (w: nat, s: set<nat>) => s + {w};
    var start: System<set<nat>> := Begin({}, 2);
    var a := MoveUnlocked(op, start, 0).value;
    var b := MoveUnlocked(op, a, 1).value;
    var c := MoveUnlocked(op, b, 0).value;
    var d := MoveUnlocked(op, c, 1).value;
    assert d.store == {1};
  }
}
