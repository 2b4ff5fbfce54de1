/**
 The shared folder of a test session: each worker makes the folder, counts itself in, works, and counts
 itself out; the last one removes the folder. Counting happens under a lock, making the folder does not.
 */
module SessionFolder {
  import opened Options

  /** Where a worker is. `Entering` and `Leaving` have read the count, `Entered` and `Gone` have written it. */
  datatype Place =
    | Start
    | Made
    | LockedIn
    | Entering(count: int)
    | Entered
    | Inside
    | LockedOut
    | Leaving(count: int)
    | Gone
    | Left
    | Failed

  /** `users` is the file `folder_users`, which is inside the folder. */
  datatype State = State(folder: bool, users: Option<int>, holder: Option<nat>, places: seq<Place>)

  function Begin(workers: nat): State {
    State(false, None, None, seq(workers, _ => Start))
  }

  function Goes(s: State, w: nat, place: Place): State
    requires w < |s.places|
  {
    s.(places := s.places[w := place])
  }

  /** The next step of worker `w`; `None` if it waits for the lock or is through. */
  function Move(s: State, w: nat): Option<State> {
    if w >= |s.places| then None
    else
      match s.places[w]
      case Start => Some(Goes(s, w, Made).(folder := true))
      case Made => if s.holder.None? then Some(Goes(s, w, LockedIn).(holder := Some(w))) else None
      case LockedIn => Some(Goes(s, w, Entering(if s.users.Some? then s.users.value else 0)))
      case Entering(count) =>
        if s.folder then Some(Goes(s, w, Entered).(users := Some(count + 1)))
        else Some(Goes(s, w, Failed).(holder := None))
      case Entered => Some(Goes(s, w, Inside).(holder := None))
      case Inside => if s.holder.None? then Some(Goes(s, w, LockedOut).(holder := Some(w))) else None
      case LockedOut =>
        if s.users.Some? then Some(Goes(s, w, Leaving(s.users.value))) else Some(Goes(s, w, Failed).(holder := None))
      case Leaving(count) =>
        if count - 1 == 0 then Some(Goes(s, w, Gone).(folder := false, users := None))
        else if s.folder then Some(Goes(s, w, Gone).(users := Some(count - 1)))
        else Some(Goes(s, w, Failed).(holder := None))
      case Gone => Some(Goes(s, w, Left).(holder := None))
      case _ => None
  }

  function Execute(s: State, schedule: seq<nat>): Option<State>
    decreases |schedule|
  {
    if schedule == [] then Some(s)
    else
      var next := Move(s, schedule[0]);
      if next.None? then None else Execute(next.value, schedule[1..])
  }

  // ---- The count ----

  /** Counted in and not yet out. */
  predicate IsIn(p: Place) {
    p.Entered? || p.Inside? || p.LockedOut? || p.Leaving?
  }

  function CountIn(places: seq<Place>): nat {
    if places == [] then 0
    else CountIn(places[..|places| - 1]) + if IsIn(places[|places| - 1]) then 1 else 0
  }

  lemma {:induction false} CountUpdate(places: seq<Place>, w: nat, place: Place)
    requires w < |places|
    ensures CountIn(places[w := place]) ==
            CountIn(places) + (if IsIn(place) then 1 else 0) - (if IsIn(places[w]) then 1 else 0)
  {
    var n := |places| - 1;
    if w < n {
      CountUpdate(places[..n], w, place);
      assert places[w := place][..n] == places[..n][w := place];
    } else {
      assert places[w := place][..n] == places[..n];
    }
  }

  lemma {:induction false} CountPositive(places: seq<Place>)
    ensures CountIn(places) > 0 <==> exists w :: 0 <= w < |places| && IsIn(places[w])
  {
    if places != [] {
      var rest := places[..|places| - 1];
      CountPositive(rest);
      if CountIn(rest) > 0 {
        var w :| 0 <= w < |rest| && IsIn(rest[w]);
        assert IsIn(places[w]);
      }
    }
  }

  predicate HoldsLock(p: Place) {
    p.LockedIn? || p.Entering? || p.Entered? || p.LockedOut? || p.Leaving? || p.Gone?
  }

  /** The count on file is that of the workers inside, and the folder is there while any is. */
  ghost predicate CountRight(s: State) {
    && s.users == (if CountIn(s.places) == 0 then None else Some(CountIn(s.places)))
    && (CountIn(s.places) > 0 ==> s.folder)
    && (forall w :: 0 <= w < |s.places| && (s.places[w].Entering? || s.places[w].Leaving?) ==>
          s.places[w].count == CountIn(s.places))
  }

  ghost predicate LockRight(s: State) {
    && (s.holder.Some? ==> s.holder.value < |s.places|)
    && (forall w :: 0 <= w < |s.places| ==> (HoldsLock(s.places[w]) <==> s.holder == Some(w)))
  }

  ghost predicate Invariant(s: State) {
    CountRight(s) && LockRight(s)
  }

  lemma {:induction false} BeginInvariant(workers: nat)
    ensures Invariant(Begin(workers))
  {
    CountPositive(Begin(workers).places);
  }

  lemma MoveKeepsLock(s: State, w: nat)
    requires LockRight(s) && Move(s, w).Some?
    ensures LockRight(Move(s, w).value)
  {}

  lemma MoveCount(s: State, w: nat)
    requires Move(s, w).Some?
    ensures var next := Move(s, w).value;
            CountIn(next.places) ==
            CountIn(s.places) + (if IsIn(next.places[w]) then 1 else 0) - (if IsIn(s.places[w]) then 1 else 0)
  {
    var next := Move(s, w).value;
    CountUpdate(s.places, w, next.places[w]);
    assert next.places == s.places[w := next.places[w]];
  }

  lemma MoveKeepsUsers(s: State, w: nat)
    requires Invariant(s) && Move(s, w).Some?
    ensures var next := Move(s, w).value;
            && next.users == (if CountIn(next.places) == 0 then None else Some(CountIn(next.places)))
            && (CountIn(next.places) > 0 ==> next.folder)
  {
    MoveCount(s, w);
    CountPositive(s.places);
  }

  lemma MoveKeepsInvariant(s: State, w: nat)
    requires Invariant(s) && Move(s, w).Some?
    ensures Invariant(Move(s, w).value)
  {
    var next := Move(s, w).value;
    MoveKeepsLock(s, w);
    MoveKeepsUsers(s, w);
    forall v | 0 <= v < |s.places| && (next.places[v].Entering? || next.places[v].Leaving?)
      ensures next.places[v].count == CountIn(next.places)
    {
      assert HoldsLock(next.places[v]) && next.holder == Some(v);
      MoveCount(s, w);
    }
  }

  lemma {:induction false} ExecuteKeepsInvariant(s: State, schedule: seq<nat>)
    requires Invariant(s) && Execute(s, schedule).Some?
    ensures Invariant(Execute(s, schedule).value)
    decreases |schedule|
  {
    if schedule != [] {
      MoveKeepsInvariant(s, schedule[0]);
      ExecuteKeepsInvariant(Move(s, schedule[0]).value, schedule[1..]);
    }
  }

  /** In every state that any number of workers can reach. */
  lemma ReachableIsSafe(workers: nat, schedule: seq<nat>, s: State)
    requires Execute(Begin(workers), schedule) == Some(s)
    ensures s.users == if CountIn(s.places) == 0 then None else Some(CountIn(s.places))
    ensures (exists w :: 0 <= w < |s.places| && IsIn(s.places[w])) ==> s.folder
    ensures Invariant(s)
  {
    BeginInvariant(workers);
    ExecuteKeepsInvariant(Begin(workers), schedule);
    CountPositive(s.places);
  }

  /**
   The folder is removed only by a worker that leaves as the last one inside, and it is removed then.
   No worker fails on its way out.
   */
  lemma OnlyTheLastRemoves(s: State, w: nat)
    requires Invariant(s) && Move(s, w).Some?
    ensures var next := Move(s, w).value;
            && (s.folder && !next.folder <==> s.places[w].Leaving? && CountIn(s.places) == 1)
            && (s.folder && !next.folder ==> forall v :: 0 <= v < |s.places| && v != w ==> !IsIn(s.places[v]))
            && (IsIn(s.places[w]) ==> !next.places[w].Failed?)
  {
    var next := Move(s, w).value;
    CountPositive(s.places);
    MoveCount(s, w);
    CountPositive(next.places);
    forall v | 0 <= v < |s.places| && v != w && s.folder && !next.folder ensures !IsIn(s.places[v]) {
      assert next.places[v] == s.places[v];
    }
  }

  // ---- When a worker fails ----

  /** The folder was made for this worker and it has not counted itself in. */
  predicate Waits(p: Place) {
    p.Made? || p.LockedIn? || p.Entering?
  }

  predicate Removes(s: State, w: nat) {
    w < |s.places| && s.places[w].Leaving? && s.places[w].count == 1
  }

  ghost predicate NobodyWaits(s: State) {
    forall w :: 0 <= w < |s.places| ==> !Waits(s.places[w])
  }

  ghost predicate FolderForWaiting(s: State) {
    s.folder || NobodyWaits(s)
  }

  ghost predicate NobodyFailed(s: State) {
    forall w :: 0 <= w < |s.places| ==> !s.places[w].Failed?
  }

  /** Nobody removes the folder while another worker is between making it and counting itself in. */
  ghost predicate Patient(s: State, schedule: seq<nat>)
    decreases |schedule|
  {
    schedule == [] ||
    (&& (Removes(s, schedule[0]) ==> NobodyWaits(s))
     && (Move(s, schedule[0]).Some? ==> Patient(Move(s, schedule[0]).value, schedule[1..])))
  }

  lemma PatientMove(s: State, w: nat)
    requires Invariant(s) && FolderForWaiting(s) && NobodyFailed(s) && Move(s, w).Some?
    requires Removes(s, w) ==> NobodyWaits(s)
    ensures FolderForWaiting(Move(s, w).value) && NobodyFailed(Move(s, w).value)
  {
    OnlyTheLastRemoves(s, w);
  }

  /** Then no worker ever fails. */
  lemma {:induction false} PatientNeverFails(s: State, schedule: seq<nat>, end: State)
    requires Invariant(s) && FolderForWaiting(s) && NobodyFailed(s)
    requires Execute(s, schedule) == Some(end) && Patient(s, schedule)
    ensures NobodyFailed(end)
    decreases |schedule|
  {
    if schedule != [] {
      PatientMove(s, schedule[0]);
      MoveKeepsInvariant(s, schedule[0]);
      PatientNeverFails(Move(s, schedule[0]).value, schedule[1..], end);
    }
  }

  lemma PatientSessionNeverFails(workers: nat, schedule: seq<nat>, end: State)
    requires Execute(Begin(workers), schedule) == Some(end) && Patient(Begin(workers), schedule)
    ensures NobodyFailed(end)
  {
    BeginInvariant(workers);
    PatientNeverFails(Begin(workers), schedule, end);
  }

  /** And whenever the folder is removed while a worker waits for the lock, that worker can fail. */
  lemma WaitingWorkerCanFail(s: State, last: nat, w: nat)
    requires Invariant(s) && Removes(s, last) && w < |s.places| && s.places[w].Made?
    ensures var end := Execute(s, [last, last, w, w, w]);
            end.Some? && |end.value.places| == |s.places| && end.value.places[w].Failed?
  {
    var a := Move(s, last).value;
    var b := Move(a, last).value;
    var c := Move(b, w).value;
    var d := Move(c, w).value;
    var e := Move(d, w).value;
    assert e.places[w].Failed?;
    ExecuteCons(d, w, []);
    ExecuteCons(c, w, [w]);
    ExecuteCons(b, w, [w, w]);
    ExecuteCons(a, last, [w, w, w]);
    ExecuteCons(s, last, [last, w, w, w]);
  }

  lemma ExecuteCons(s: State, w: nat, schedule: seq<nat>)
    ensures Execute(s, [w] + schedule) ==
            (if Move(s, w).None? then None else Execute(Move(s, w).value, schedule))
  {
    assert ([w] + schedule)[1..] == schedule;
  }

  lemma {:induction false} ExecuteAppend(s: State, a: seq<nat>, b: seq<nat>)
    requires Execute(s, a).Some?
    ensures Execute(s, a + b) == Execute(Execute(s, a).value, b)
    decreases |a|
  {
    if a == [] {
      assert a + b == b;
    } else {
      var next := Move(s, a[0]).value;
      ExecuteAppend(next, a[1..], b);
      assert a + b == [a[0]] + (a[1..] + b);
      ExecuteCons(s, a[0], a[1..] + b);
    }
  }

  /** Worker 1 goes in and is about to leave as the last, while worker 0 has only made the folder. */
  lemma EarlyLeaver() returns (schedule: seq<nat>)
    ensures Execute(Begin(2), schedule) == Some(State(true, Some(1), Some(1), [Made, Leaving(1)]))
  {
    var s0 := Begin(2);
    var s1 := Move(s0, 0).value;
    var s2 := Move(s1, 1).value;
    var s3 := Move(s2, 1).value;
    var s4 := Move(s3, 1).value;
    var s5 := Move(s4, 1).value;
    var s6 := Move(s5, 1).value;
    var s7 := Move(s6, 1).value;
    var s8 := Move(s7, 1).value;
    assert s8 == State(true, Some(1), Some(1), [Made, Leaving(1)]);
    schedule := [];
    ExecuteCons(s7, 1, schedule);
    schedule := [1] + schedule;
    ExecuteCons(s6, 1, schedule);
    schedule := [1] + schedule;
    ExecuteCons(s5, 1, schedule);
    schedule := [1] + schedule;
    ExecuteCons(s4, 1, schedule);
    schedule := [1] + schedule;
    ExecuteCons(s3, 1, schedule);
    schedule := [1] + schedule;
    ExecuteCons(s2, 1, schedule);
    schedule := [1] + schedule;
    ExecuteCons(s1, 1, schedule);
    schedule := [1] + schedule;
    ExecuteCons(s0, 0, schedule);
    schedule := [0] + schedule;
  }

  /** A run in which the first worker makes the folder, the second comes and goes, and the first then fails. */
  lemma LateWorkerFails()
    ensures exists schedule, end ::
              Execute(Begin(2), schedule) == Some(end) && |end.places| == 2 && end.places[0].Failed?
  {
    var schedule := EarlyLeaver();
    var s := Execute(Begin(2), schedule).value;
    ReachableIsSafe(2, schedule, s);
    WaitingWorkerCanFail(s, 1, 0);
    ExecuteAppend(Begin(2), schedule, [1, 1, 0, 0, 0]);
    var end := Execute(s, [1, 1, 0, 0, 0]).value;
    assert Execute(Begin(2), schedule + [1, 1, 0, 0, 0]) == Some(end);
  }
}
