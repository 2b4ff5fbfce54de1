/**
 `FixtureCollector` buffers fixtures and flushes them into JSON files that other workers write too.
 What the files show, overridden by what the buffer holds, is always the last fixture added.
 */
module Collector {
  import opened ByteStrings
  import opened Options
  import opened LockedFiles

  datatype Path = Path(name: string)
  datatype Id = Id(name: string)
  datatype Json = Json(text: Bytes)

  /** `json` is the result of `json_dict_with_info`. */
  datatype Fixture = Fixture(format: nat, json: Json)

  type Entries = map<Id, Json>
  type Buffer = map<Path, map<Id, Fixture>>
  type Files = map<Path, Entries>

  datatype Status = Ok | TypeError

  function JsonOf(fixtures: map<Id, Fixture>): Entries {
    map id | id in fixtures :: fixtures[id].json
  }

  function Content(files: Files, path: Path): Entries {
    if path in files then files[path] else map[]
  }

  /** What a reader of the disk and the buffer finds. */
  function Found(files: Files, buffer: Buffer, path: Path, id: Id): Option<Json> {
    if path in buffer && id in buffer[path] then Some(buffer[path][id].json)
    else if path in files && id in files[path] then Some(files[path][id])
    else None
  }

  predicate OneFormat(fixtures: map<Id, Fixture>) {
    |set id | id in fixtures :: fixtures[id].format| == 1
  }

  ghost predicate AllAlike(fixtures: map<Id, Fixture>) {
    forall i, j :: i in fixtures && j in fixtures ==> fixtures[i].format == fixtures[j].format
  }

  /** There are fixtures, and no two of them differ in format. */
  lemma OneFormatExactly(fixtures: map<Id, Fixture>)
    ensures OneFormat(fixtures) <==> fixtures != map[] && AllAlike(fixtures)
  {
    var formats := set id | id in fixtures :: fixtures[id].format;
    forall i, j | OneFormat(fixtures) && i in fixtures && j in fixtures
      ensures fixtures[i].format == fixtures[j].format
    {
      assert fixtures[j].format in formats;
      assert |formats - {fixtures[i].format}| == 0;
    }
    if fixtures != map[] {
      var i :| i in fixtures;
      if AllAlike(fixtures) {
        assert formats == {fixtures[i].format};
      }
    }
  }

  /** Some file would hold fixtures of several formats. */
  ghost predicate Mixed(buffer: Buffer) {
    exists p :: p in buffer && !OneFormat(buffer[p])
  }

  ghost predicate SameFound(files: Files, buffer: Buffer, files': Files, buffer': Buffer) {
    forall p, i :: Found(files', buffer', p, i) == Found(files, buffer, p, i)
  }

  /** One entry is now `json`, all others are as before. */
  ghost predicate FoundAfter(files: Files, buffer: Buffer, path: Path, id: Id, json: Json,
                             files': Files, buffer': Buffer) {
    forall p, i ::
      Found(files', buffer', p, i) == if p == path && i == id then Some(json) else Found(files, buffer, p, i)
  }

  class Disk {
    var files: Files

    /** `Fixtures.collect_into_file`. */
    method CollectIntoFile(path: Path, fixtures: map<Id, Fixture>)
      modifies this
      ensures files == old(files)[path := Content(old(files), path) + JsonOf(fixtures)]
    {
      var jsonFixtures: Entries := map[];
      if path in files {
        jsonFixtures := files[path];
      }
      ghost var before := jsonFixtures;
      var todo := fixtures.Keys;
      while todo != {}
        invariant files == old(files) && Copying(before, fixtures, todo, jsonFixtures)
        decreases |todo|
      {
        var name :| name in todo;
        CopyStep(before, fixtures, todo, jsonFixtures, name);
        jsonFixtures := jsonFixtures[name := fixtures[name].json];
        todo := todo - {name};
      }
      Copied(before, fixtures, jsonFixtures);
      files := files[path := jsonFixtures];
    }
  }

  class FixtureCollector {
    const flushInterval: int
    const disk: Disk
    var allFixtures: Buffer

    constructor (disk: Disk, flushInterval: int)
      ensures this.disk == disk && this.flushInterval == flushInterval && allFixtures == map[]
    {
      this.disk := disk;
      this.flushInterval := flushInterval;
      allFixtures := map[];
    }

    /** `add_fixture`. A full buffer is flushed, and the flush fails if a file would mix formats. */
    method AddFixture(path: Path, id: Id, fixture: Fixture) returns (status: Status)
      modifies this, disk
      ensures FoundAfter(old(disk.files), old(allFixtures), path, id, fixture.json, disk.files, allFixtures)
      ensures var buffer := Added(old(allFixtures), path, id, fixture);
              var full := flushInterval > 0 && |buffer| >= flushInterval;
              && (status == TypeError <==> full && Mixed(buffer))
              && (full && status == Ok ==> allFixtures == map[])
              && (!full ==> allFixtures == buffer && disk.files == old(disk.files))
    {
      if path !in allFixtures {
        allFixtures := allFixtures[path := map[]];
      }
      allFixtures := allFixtures[path := allFixtures[path][id := fixture]];
      assert allFixtures == Added(old(allFixtures), path, id, fixture);
      AddedFound(disk.files, old(allFixtures), path, id, fixture);
      status := Ok;
      if flushInterval > 0 && |allFixtures| >= flushInterval {
        status := DumpFixtures();
      }
    }

    /** `dump_fixtures` into a directory. Every file gets its part before the buffer is cleared. */
    method DumpFixtures() returns (status: Status)
      modifies this, disk
      ensures SameFound(old(disk.files), old(allFixtures), disk.files, allFixtures)
      ensures status == TypeError <==> Mixed(old(allFixtures))
      ensures status == Ok ==>
                && allFixtures == map[]
                && disk.files.Keys == old(disk.files).Keys + old(allFixtures).Keys
      ensures status == TypeError ==> allFixtures == old(allFixtures)
    {
      var todo := allFixtures.Keys;
      ghost var before := disk.files;
      while todo != {}
        invariant allFixtures == old(allFixtures)
        invariant Dumping(before, allFixtures, todo, disk.files)
        decreases |todo|
      {
        var path :| path in todo;
        if !OneFormat(allFixtures[path]) {
          StillFound(before, allFixtures, todo, disk.files);
          return TypeError;
        }
        ghost var files := disk.files;
        disk.CollectIntoFile(path, allFixtures[path]);
        DumpStep(before, allFixtures, todo, files, path);
        todo := todo - {path};
      }
      StillFound(before, allFixtures, {}, disk.files);
      allFixtures := map[];
      return Ok;
    }
  }

  function Added(buffer: Buffer, path: Path, id: Id, fixture: Fixture): Buffer {
    buffer[path := (if path in buffer then buffer[path] else map[])[id := fixture]]
  }

  /** Some files have got their part of the buffer, and the others are as before. */
  ghost predicate Dumping(before: Files, buffer: Buffer, todo: set<Path>, files: Files) {
    && todo <= buffer.Keys
    && files.Keys == before.Keys + (buffer.Keys - todo)
    && (forall p {:trigger p in files} :: p in files ==>
          files[p] == if p in buffer && p !in todo then Content(before, p) + JsonOf(buffer[p]) else before[p])
    && (forall p {:trigger p in buffer} :: p in buffer && p !in todo ==> OneFormat(buffer[p]))
  }

  lemma DumpStep(before: Files, buffer: Buffer, todo: set<Path>, files: Files, path: Path)
    requires Dumping(before, buffer, todo, files) && path in todo && OneFormat(buffer[path])
    ensures Dumping(before, buffer, todo - {path}, files[path := Content(files, path) + JsonOf(buffer[path])])
  {}

  /** Some entries of a file are overwritten. */
  ghost predicate Copying(before: Entries, fixtures: map<Id, Fixture>, todo: set<Id>, entries: Entries) {
    && todo <= fixtures.Keys
    && entries.Keys == before.Keys + (fixtures.Keys - todo)
    && forall id {:trigger id in entries} :: id in entries ==>
         entries[id] == if id in fixtures && id !in todo then fixtures[id].json else before[id]
  }

  lemma CopyStep(before: Entries, fixtures: map<Id, Fixture>, todo: set<Id>, entries: Entries, id: Id)
    requires Copying(before, fixtures, todo, entries) && id in todo
    ensures Copying(before, fixtures, todo - {id}, entries[id := fixtures[id].json])
  {}

  lemma Copied(before: Entries, fixtures: map<Id, Fixture>, entries: Entries)
    requires Copying(before, fixtures, {}, entries)
    ensures entries == before + JsonOf(fixtures)
  {}

  lemma StillFound(before: Files, buffer: Buffer, todo: set<Path>, files: Files)
    requires Dumping(before, buffer, todo, files)
    ensures SameFound(before, buffer, files, buffer)
    ensures todo == {} ==>
              SameFound(before, buffer, files, map[]) && !Mixed(buffer) && files.Keys == before.Keys + buffer.Keys
  {
  }

  lemma AddedFound(files: Files, buffer: Buffer, path: Path, id: Id, fixture: Fixture)
    ensures FoundAfter(files, buffer, path, id, fixture.json, files, Added(buffer, path, id, fixture))
  {}

  // ---- A session of one worker ----

  datatype Addition = Addition(path: Path, id: Id, fixture: Fixture)

  /** The last fixture added for an entry, or what its file held before. */
  function Latest(added: seq<Addition>, files: Files, path: Path, id: Id): Option<Json> {
    if added == [] then Found(files, map[], path, id)
    else
      var last := added[|added| - 1];
      if last.path == path && last.id == id then Some(last.fixture.json)
      else Latest(added[..|added| - 1], files, path, id)
  }

  ghost predicate FoundLatest(added: seq<Addition>, before: Files, files: Files, buffer: Buffer) {
    forall p, i :: Found(files, buffer, p, i) == Latest(added, before, p, i)
  }

  lemma LatestStep(added: seq<Addition>, next: Addition, before: Files, files: Files, buffer: Buffer,
                   files': Files, buffer': Buffer)
    requires FoundLatest(added, before, files, buffer)
    requires FoundAfter(files, buffer, next.path, next.id, next.fixture.json, files', buffer')
    ensures FoundLatest(added + [next], before, files', buffer')
  {
    assert (added + [next])[..|added|] == added;
  }

  lemma LatestKept(added: seq<Addition>, before: Files, files: Files, buffer: Buffer, files': Files, buffer': Buffer)
    requires FoundLatest(added, before, files, buffer) && SameFound(files, buffer, files', buffer')
    ensures FoundLatest(added, before, files', buffer')
  {
    forall p, i ensures Found(files', buffer', p, i) == Latest(added, before, p, i) {
      assert Found(files', buffer', p, i) == Found(files, buffer, p, i);
    }
  }

  /**
   All fixtures of a session are added and the rest is dumped at its end. Whatever the flush interval, and
   even if flushes in between failed, a dump that succeeds leaves exactly the last fixtures on disk.
   */
  method Session(c: FixtureCollector, added: seq<Addition>) returns (status: Status)
    requires c.allFixtures == map[]
    modifies c, c.disk
    ensures FoundLatest(added, old(c.disk.files), c.disk.files, c.allFixtures)
    ensures status == Ok ==> c.allFixtures == map[]
  {
    ghost var before := c.disk.files;
    for k := 0 to |added|
      invariant FoundLatest(added[..k], before, c.disk.files, c.allFixtures)
    {
      ghost var files, buffer := c.disk.files, c.allFixtures;
      var _ := c.AddFixture(added[k].path, added[k].id, added[k].fixture);
      LatestStep(added[..k], added[k], before, files, buffer, c.disk.files, c.allFixtures);
      assert added[..k + 1] == added[..k] + [added[k]];
    }
    assert added[..|added|] == added;
    ghost var files, buffer := c.disk.files, c.allFixtures;
    status := c.DumpFixtures();
    LatestKept(added, before, files, buffer, c.disk.files, c.allFixtures);
  }

  // ---- Many workers, one file ----

  /** Flush `w` merges `updates[w]` into the file. */
  function FlushOf(updates: seq<Entries>): (nat, Entries) -> Entries {
    (w: nat, file: Entries) => if w < |updates| then file + updates[w] else file
  }

  /** The last of the flushes in `order` that writes an entry. */
  function LastWriter(updates: seq<Entries>, order: seq<nat>, id: Id): Option<nat> {
    if order == [] then None
    else
      var w := order[|order| - 1];
      if w < |updates| && id in updates[w] then Some(w) else LastWriter(updates, order[..|order| - 1], id)
  }

  lemma {:induction false} SerialFlushes(updates: seq<Entries>, start: Entries, order: seq<nat>, id: Id)
    ensures var file, w := Serial(FlushOf(updates), start, order), LastWriter(updates, order, id);
            && (w.Some? ==> w.value in order && w.value < |updates| && id in updates[w.value])
            && (w.None? ==> forall v :: v in order && v < |updates| ==> id !in updates[v])
            && (id in file <==> w.Some? || id in start)
            && (id in file ==> file[id] == if w.Some? then updates[w.value][id] else start[id])
  {
    if order != [] {
      SerialFlushes(updates, start, order[..|order| - 1], id);
    }
  }

  ghost predicate Writes(updates: seq<Entries>, w: nat, id: Id) {
    w < |updates| && id in updates[w]
  }

  ghost predicate Written(updates: seq<Entries>, id: Id) {
    exists w: nat :: Writes(updates, w, id)
  }

  /** The last flush of its worker that writes the entry. */
  ghost predicate LastOfWorker(updates: seq<Entries>, worker: nat -> nat, w: nat, id: Id) {
    Writes(updates, w, id) && forall v: nat :: v > w && worker(v) == worker(w) ==> !Writes(updates, v, id)
  }

  lemma {:induction false} LastWriterIsLast(updates: seq<Entries>, worker: nat -> nat, order: seq<nat>, id: Id)
    requires LastWriter(updates, order, id).Some? && Ascends(worker, order)
    ensures var w := LastWriter(updates, order, id).value;
            && w in order && Writes(updates, w, id)
            && forall v :: v in order && worker(v) == worker(w) && Writes(updates, v, id) ==> v <= w
  {
    var last, front := order[|order| - 1], order[..|order| - 1];
    if !Writes(updates, last, id) {
      LastWriterIsLast(updates, worker, front, id);
      assert order == front + [last];
    }
  }

  /**
   Workers that flush into one file any number of times, interleaved in any way, lose nothing: an entry is in
   the file exactly if someone wrote it or it was there, and it is as the last flush of some worker wrote it.
   */
  lemma FlushesLoseNothing(updates: seq<Entries>, worker: nat -> nat, start: Entries, schedule: seq<nat>,
                           end: System<Entries>, id: Id)
    requires Execute(FlushOf(updates), Begin(start, |updates|), schedule) == Some(end) && Finished(end)
    requires InTurn(FlushOf(updates), worker, Begin(start, |updates|), schedule)
    ensures id in end.store <==> id in start || Written(updates, id)
    ensures Written(updates, id) ==>
              exists w: nat :: LastOfWorker(updates, worker, w, id) && end.store[id] == updates[w][id]
    ensures id in start && !Written(updates, id) ==> end.store[id] == start[id]
  {
    ExecutionIsSerial(FlushOf(updates), start, |updates|, schedule, end);
    TurnsAreKept(FlushOf(updates), worker, start, |updates|, schedule, end);
    SerialFlushes(updates, start, end.order, id);
    var last := LastWriter(updates, end.order, id);
    if last.Some? {
      LastWriterIsLast(updates, worker, end.order, id);
      assert LastOfWorker(updates, worker, last.value, id);
    }
  }

  /** An entry that only one worker writes is as its last flush wrote it. */
  lemma OwnEntryStays(updates: seq<Entries>, worker: nat -> nat, start: Entries, schedule: seq<nat>,
                      end: System<Entries>, id: Id, w: nat)
    requires Execute(FlushOf(updates), Begin(start, |updates|), schedule) == Some(end) && Finished(end)
    requires InTurn(FlushOf(updates), worker, Begin(start, |updates|), schedule)
    requires LastOfWorker(updates, worker, w, id)
    requires forall v: nat :: Writes(updates, v, id) ==> worker(v) == worker(w)
    ensures id in end.store && end.store[id] == updates[w][id]
  {
    FlushesLoseNothing(updates, worker, start, schedule, end, id);
    var v: nat :| LastOfWorker(updates, worker, v, id) && end.store[id] == updates[v][id];
    assert v == w;
  }
}
