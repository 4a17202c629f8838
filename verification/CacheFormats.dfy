/**
 A program of a newer format on the same cache directory: when its meta is safe from the processes of
 this format, which look at the format once and then write (`write` in `crates/core/src/cache.rs`).
 */
module CacheFormats {
  import opened Wrappers
  import opened Cache
  import opened CacheLaws
  import opened CacheRuns

  // ---- no process touches the meta by a table's name ----

  predicate AllNamed(rs: seq<Record>) {
    forall r :: r in rs ==> IsTableName(r.file)
  }

  predicate WritingNamed(writing: Writing) {
    match writing
    case Putting(_, _, records) => AllNamed(records)
    case Evicting(_, line, _, kept) => AllNamed(line) && AllNamed(kept)
    case _ => true
  }

  predicate ReadingNamed(reading: Reading) {
    reading.Reading? ==> AllNamed(reading.left) && forall name :: name in reading.drops ==> IsTableName(name)
  }

  /** A meta of this format names its tables' files as tables are named. */
  predicate ContentNamed(content: Content) {
    content.MetaText? && content.meta.format <= FORMAT ==> AllNamed(content.meta.tables)
  }

  predicate IsNamed(w: World) {
    && (forall i :: 0 <= i < |w.processes| ==>
          WritingNamed(w.processes[i].writing) && ReadingNamed(w.processes[i].reading))
    && (META_FILE in w.files ==> ContentNamed(w.files[META_FILE]))
  }

  lemma SortedNamed(rs: seq<Record>, after: (Record, Record) -> bool)
    requires AllNamed(rs)
    ensures AllNamed(Sorted(rs, after))
  {
    SortedKeeps(rs, after);
  }

  lemma RecordNamed(p: Program, session: string, t: Table)
    ensures IsTableName(RecordFor(p, session, t).file)
  {
    TableNamesAreTables(p, t.kind, t.parents, t.filter);
  }

  lemma MetaNamed(p: Program, session: string, snap: Snapshot, now: nat, kept: seq<Record>)
    requires AllNamed(kept)
    ensures AllNamed(MetaOf(p, session, snap, now, kept).tables) && MetaOf(p, session, snap, now, kept).format == FORMAT
  {
    SortedNamed(kept, NamedAfter);
  }

  lemma NamedStep(w: World, v: World, i: nat)
    requires IsNamed(w) && i < |w.processes| == |v.processes|
    requires forall q :: 0 <= q < |w.processes| && q != i ==> v.processes[q] == w.processes[q]
    requires WritingNamed(v.processes[i].writing) && ReadingNamed(v.processes[i].reading)
    requires META_FILE in v.files ==>
               (META_FILE in w.files && v.files[META_FILE] == w.files[META_FILE]) || ContentNamed(v.files[META_FILE])
    ensures IsNamed(v)
  {
    hide WritingNamed, ReadingNamed, ContentNamed;
  }

  lemma PutsStayNamed(p: Program, w: World, i: nat)
    requires i < |w.processes| && IsNamed(w)
    ensures IsNamed(WriterStep(p, w, PutNext(i)))
  {
    var writing, session := w.processes[i].writing, w.processes[i].session;
    FixedNames();
    if writing.Putting? && writing.todo != [] {
      RecordNamed(p, session, writing.todo[0]);
    }
    hide FitsAFile, RecordFor, FileOf, IsTableName, ReadingNamed, ContentNamed;
    NamedStep(w, WriterStep(p, w, PutNext(i)), i);
  }

  lemma WritersStayNamed(p: Program, w: World, a: Action)
    requires a.i < |w.processes| && IsNamed(w)
    ensures IsNamed(WriterStep(p, w, a))
  {
    var writing, session := w.processes[a.i].writing, w.processes[a.i].session;
    FixedNames();
    if a.PutNext? {
      PutsStayNamed(p, w, a.i);
    } else {
      if a.StartEvicting? && writing.Putting? {
        SortedNamed(writing.records, Older);
      } else if a.WriteMeta? && writing.Evicting? {
        MetaNamed(p, session, writing.snap, a.now, writing.kept);
      }
      hide MetaOf, Sorted, IsTableName, IsNewer, FilesOf, ReadingNamed, IsNamed;
      assert ReadingNamed(w.processes[a.i].reading) && WritingNamed(writing) by {
        NamedNow(w, a.i);
      }
      NamedStep(w, WriterStep(p, w, a), a.i);
    }
  }

  lemma NamedNow(w: World, i: nat)
    requires IsNamed(w) && i < |w.processes|
    ensures WritingNamed(w.processes[i].writing) && ReadingNamed(w.processes[i].reading)
  {}

  lemma ReadersStayNamed(p: Program, w: World, a: Action)
    requires a.i < |w.processes| && IsNamed(w)
    ensures IsNamed(ReaderStep(p, w, a))
  {
    NamedNow(w, a.i);
    hide ReadRecord, IsTableName, SameTarget, WritingNamed;
    NamedStep(w, ReaderStep(p, w, a), a.i);
  }

  lemma {:induction false} RunsStayNamed(p: Program, w: World, actions: seq<Action>)
    requires IsNamed(w)
    ensures IsNamed(Run(p, w, actions))
  {
    if actions != [] {
      var before, a := Run(p, w, actions[..|actions| - 1]), actions[|actions| - 1];
      RunsStayNamed(p, w, actions[..|actions| - 1]);
      if a.i < |before.processes| {
        WritersStayNamed(p, before, a);
        ReadersStayNamed(p, before, a);
      }
      hide WriterStep, ReaderStep, IsNamed;
    }
  }

  // ---- a newer meta, while nobody is past the test ----

  /** No process has looked at the format and not yet written its meta, and none is clearing the directory. */
  predicate NobodyIsPast(w: World) {
    forall i :: 0 <= i < |w.processes| ==>
      (w.processes[i].writing.Resting? || w.processes[i].writing.Sweeping?) && !w.processes[i].reading.Discarding?
  }

  lemma NewerMetaStays(p: Program, w: World, a: Action)
    requires IsNewer(w.files) && IsNamed(w) && NobodyIsPast(w) && IsOwn(a)
    ensures var v := After(p, w, a); MetaIn(v.files) == MetaIn(w.files) && NobodyIsPast(v)
  {
    FixedNames();
    hide FitsAFile, RecordFor, FileOf, MetaOf, Sorted, IsTableName, ReadRecord, IsUsable, FilesOf;
  }

  lemma {:induction false} NewerMetaStaysFor(p: Program, w: World, actions: seq<Action>)
    requires IsNewer(w.files) && IsNamed(w) && NobodyIsPast(w) && AllOwn(actions)
    ensures MetaIn(Run(p, w, actions).files) == MetaIn(w.files) && NobodyIsPast(Run(p, w, actions))
  {
    if actions != [] {
      var front, a := actions[..|actions| - 1], actions[|actions| - 1];
      NewerMetaStaysFor(p, w, front);
      RunsStayNamed(p, w, front);
      assert a in actions;
      hide After, IsNamed, NobodyIsPast, IsOwn, MetaIn;
      NewerMetaStays(p, Run(p, w, front), a);
    }
  }

  // ---- and when somebody is ----

  /** The rest of an eviction, then the meta: it is this format's. */
  lemma EvictingOverwrites(p: Program, w: World, i: nat, session: string, snap: Snapshot, line: seq<Record>, total: nat,
                           kept: seq<Record>)
      returns (actions: seq<Action>)
    requires IsWriting(w, i, session, Evicting(snap, line, total, kept))
    ensures AllOwn(actions) && !IsNewer(Run(p, w, actions).files)
  {
    var evicts, sum := EvictsAlone(p, w, i, session, snap, line, total, kept);
    var v := Run(p, w, evicts);
    var last := After(p, v, WriteMeta(i, 0));
    assert !IsNewer(last.files);
    hide Run, After, IsNewer;
    RunOn(p, w, evicts, [WriteMeta(i, 0)]);
    RunOne(p, v, WriteMeta(i, 0));
    actions := evicts + [WriteMeta(i, 0)];
  }

  lemma PuttingOverwrites(p: Program, w: World, i: nat, session: string, snap: Snapshot, todo: seq<Table>,
                          records: seq<Record>)
      returns (actions: seq<Action>)
    requires IsWriting(w, i, session, Putting(snap, todo, records))
    ensures AllOwn(actions) && !IsNewer(Run(p, w, actions).files)
  {
    var puts := PutsAlone(p, w, i, session, snap, todo, records);
    var v := Run(p, w, puts);
    var line := NewestFirst(records + Records(p, session, todo));
    var next := After(p, v, StartEvicting(i));
    assert IsWriting(next, i, session, Evicting(snap, line, 0, []));
    var rest := EvictingOverwrites(p, next, i, session, snap, line, 0, []);
    hide Run, After, IsNewer, IsWriting, NewestFirst;
    RunFirst(p, v, StartEvicting(i), rest);
    RunOn(p, w, puts, [StartEvicting(i)] + rest);
    actions := puts + ([StartEvicting(i)] + rest);
  }

  lemma DiscardingRemoves(p: Program, w: World, i: nat) returns (actions: seq<Action>)
    requires i < |w.processes| && w.processes[i].reading.Discarding?
    ensures AllOwn(actions) && !IsNewer(Run(p, w, actions).files)
  {
    FixedNames();
    actions := [DiscardFile(i, META_FILE)];
    RunOne(p, w, DiscardFile(i, META_FILE));
  }

  lemma Overwritten(p: Program, w: World, i: nat) returns (rest: seq<Action>)
    requires i < |w.processes|
    requires w.processes[i].writing.Putting? || w.processes[i].writing.Evicting? || w.processes[i].reading.Discarding?
    ensures AllOwn(rest) && !IsNewer(Run(p, w, rest).files)
  {
    var session := w.processes[i].session;
    hide Run, IsNewer;
    match w.processes[i].writing {
      case Putting(snap, todo, records) => rest := PuttingOverwrites(p, w, i, session, snap, todo, records);
      case Evicting(snap, line, total, kept) =>
        rest := EvictingOverwrites(p, w, i, session, snap, line, total, kept);
      case _ => rest := DiscardingRemoves(p, w, i);
    }
  }

  /** A target that no meta in the directory is for. */
  function OtherTarget(files: Files): Identity {
    var meta := MetaIn(files);
    Identity(if meta.Some? then meta.value.identity.host + "." else "", 0, "", None, None)
  }

  /** Once the meta does not say that it is newer, any process can clear any file but the history. */
  lemma ClearingRemoves(p: Program, w: World, i: nat, name: string) returns (actions: seq<Action>)
    requires i < |w.processes| && !IsNewer(w.files) && name != HISTORY_FILE
    ensures AllOwn(actions) && name !in Run(p, w, actions).files
  {
    var target := OtherTarget(w.files);
    var first := After(p, w, EndRead(i));
    assert first.files == w.files && first.processes[i].reading == Closed;
    var second := After(p, first, StartRead(i, target, 0, 0));
    assert second.processes[i].reading == Discarding by {
      assert MetaIn(w.files).Some? ==> |target.host| > |MetaIn(w.files).value.identity.host|;
    }
    var third := After(p, second, DiscardFile(i, name));
    assert name !in third.files;
    hide After, IsNewer;
    RunOne(p, second, DiscardFile(i, name));
    RunFirst(p, first, StartRead(i, target, 0, 0), [DiscardFile(i, name)]);
    RunFirst(p, w, EndRead(i), [StartRead(i, target, 0, 0)] + [DiscardFile(i, name)]);
    actions := [EndRead(i)] + ([StartRead(i, target, 0, 0)] + [DiscardFile(i, name)]);
  }

  // ---- when the meta stays ----

  predicate Holds(w: World, name: string, content: Content) {
    name in w.files && w.files[name] == content
  }

  /** Whatever the processes of this format do from here on, the file is what it is. */
  ghost predicate Stays(p: Program, w: World, name: string, content: Content) {
    forall rest :: AllOwn(rest) ==> Holds(Run(p, w, rest), name, content)
  }

  lemma NotForLong(p: Program, w: World, name: string, content: Content, rest: seq<Action>)
    requires AllOwn(rest) && !Holds(Run(p, w, rest), name, content)
    ensures !Stays(p, w, name, content)
  {}

  /** What stands in the meta's place stays, whatever the processes of this format do from then on,
      exactly when it is read as the meta of a newer format and none of them had looked at the format
      and not yet written, or begun to clear. */
  lemma MetaStaysIff(p: Program, start: World, actions: seq<Action>)
    requires IsStart(start) && start.processes != [] && META_FILE in Run(p, start, actions).files
    ensures var w := Run(p, start, actions);
            var content := w.files[META_FILE];
            Stays(p, w, META_FILE, content) <==>
              NobodyIsPast(w) && content.MetaText? && content.meta.format > FORMAT
  {
    var w := Run(p, start, actions);
    var content := w.files[META_FILE];
    RunsStayNamed(p, start, actions);
    RunsAreSound(p, start, actions);
    FixedNames();
    hide Run;
    if !IsNewer(w.files) {
      var rest := ClearingRemoves(p, w, 0, META_FILE);
      NotForLong(p, w, META_FILE, content, rest);
    } else if NobodyIsPast(w) {
      forall rest | AllOwn(rest) ensures Holds(Run(p, w, rest), META_FILE, content) {
        NewerMetaStaysFor(p, w, rest);
      }
    } else {
      var rest := SomebodyOverwrites(p, w);
      NotForLong(p, w, META_FILE, content, rest);
    }
  }

  lemma SomebodyOverwrites(p: Program, w: World) returns (rest: seq<Action>)
    requires !NobodyIsPast(w)
    ensures AllOwn(rest) && !IsNewer(Run(p, w, rest).files)
  {
    var i :| 0 <= i < |w.processes| &&
      !((w.processes[i].writing.Resting? || w.processes[i].writing.Sweeping?) && !w.processes[i].reading.Discarding?);
    rest := Overwritten(p, w, i);
  }

  lemma ReadClears(p: Program, w: World, target: Identity, now: nat, maxAge: nat)
    requires w.processes != [] && w.processes[0].reading.Closed? && MetaIn(w.files).None?
    ensures META_FILE !in Run(p, w, [StartRead(0, target, now, maxAge), DiscardFile(0, META_FILE)]).files
  {
    var start, discard := StartRead(0, target, now, maxAge), DiscardFile(0, META_FILE);
    var v := After(p, w, start);
    FixedNames();
    assert v.processes[0].reading.Discarding? by {
      hide Run;
    }
    RunOne(p, v, discard);
    RunFirst(p, w, start, [discard]);
    assert [start] + [discard] == [start, discard];
    hide Run, WriterStep, IsUsable, ReadRecord;
  }

  /** A newer meta that this build cannot decode is taken for no meta, even when nobody is past anything:
      the next read may clear it away, and the next write replaces it. */
  lemma UndecodedNewerIsLost(p: Program, start: World, target: Identity, snap: Snapshot, now: nat, maxAge: nat)
      returns (write: seq<Action>)
    requires IsStart(start) && start.processes != []
    ensures var w := Run(p, start, [NewerMeta(0, OtherText)]);
            && Holds(w, META_FILE, OtherText) && NobodyIsPast(w)
            && META_FILE !in Run(p, w, [StartRead(0, target, now, maxAge), DiscardFile(0, META_FILE)]).files
            && MetaIn(Run(p, w, write).files).Some? && MetaIn(Run(p, w, write).files).value.format == FORMAT
  {
    FixedNames();
    RunOne(p, start, NewerMeta(0, OtherText));
    var w := Run(p, start, [NewerMeta(0, OtherText)]);
    ReadClears(p, w, target, now, maxAge);
    write := UndisturbedWrite(p, w, 0, snap, now);
    MetaIsThere(p, w.processes[0].session, w.files, snap, now);
    hide Written, Run;
  }

  // ---- when a newer program's other files stay ----

  /** No process is about to take the file for one of its own leftovers: none sweeps it, and no reader
      has thrown it away or is still to read it. */
  predicate NobodyIsAfter(w: World, name: string) {
    forall i :: 0 <= i < |w.processes| ==>
      SparesWriting(w.processes[i].writing, name) && SparesReading(w.processes[i].reading, name)
  }

  predicate SparesWriting(writing: Writing, name: string) {
    writing.Sweeping? && IsTableName(name) ==> name in writing.named
  }

  predicate SparesReading(reading: Reading, name: string) {
    reading.Reading? ==> name !in reading.drops && forall r :: r in reading.left ==> r.file != name
  }

  lemma NewerFileStays(p: Program, w: World, a: Action, name: string)
    requires IsNewer(w.files) && IsNamed(w) && NobodyIsPast(w) && IsOwn(a)
    requires Holds(w, name, OtherText) && NobodyIsAfter(w, name)
    ensures Holds(After(p, w, a), name, OtherText) && NobodyIsAfter(After(p, w, a), name)
  {
    hide FitsAFile, RecordFor, FileOf, MetaOf, Sorted, IsTableName, ReadRecord, IsUsable, FilesOf, IsNamed;
  }

  lemma {:induction false} NewerFileStaysFor(p: Program, w: World, actions: seq<Action>, name: string)
    requires IsNewer(w.files) && IsNamed(w) && NobodyIsPast(w) && AllOwn(actions)
    requires Holds(w, name, OtherText) && NobodyIsAfter(w, name)
    ensures Holds(Run(p, w, actions), name, OtherText) && NobodyIsAfter(Run(p, w, actions), name)
  {
    if actions != [] {
      var front, a := actions[..|actions| - 1], actions[|actions| - 1];
      NewerFileStaysFor(p, w, front, name);
      NewerMetaStaysFor(p, w, front);
      RunsStayNamed(p, w, front);
      assert a in actions;
      hide After, IsNamed, NobodyIsPast, NobodyIsAfter, IsOwn, MetaIn, Holds;
      NewerFileStays(p, Run(p, w, front), a, name);
    }
  }

  /** A reader that is still to read the file finds no table in it and removes it. */
  lemma {:induction false} ReaderRemoves(p: Program, w: World, i: nat, meta: Meta, left: seq<Record>, got: seq<Got>,
                                         drops: set<string>, name: string)
      returns (actions: seq<Action>)
    requires IsReading(w, i, Reading(meta, left, got, drops)) && Holds(w, name, OtherText)
    requires name in drops || exists r :: r in left && r.file == name
    ensures AllOwn(actions) && name !in Run(p, w, actions).files
    decreases |left|
  {
    if name in drops {
      actions := [DropFile(i, name)];
      RunOne(p, w, DropFile(i, name));
    } else {
      var r, o := left[0], ReadRecord(p, meta.session, w.files, left[0]);
      assert r.file == name ==> o.Drop?;
      var v := After(p, w, ReadNext(i));
      var got', drops' := if o.Take? then got + [Got(r, o.table)] else got, if o.Drop? then drops + {r.file} else drops;
      hide ReadRecord;
      assert IsReading(v, i, Reading(meta, left[1..], got', drops')) && v.files == w.files;
      assert forall x :: x in left ==> x == r || x in left[1..];
      var rest := ReaderRemoves(p, v, i, meta, left[1..], got', drops', name);
      hide After, Run;
      RunFirst(p, w, ReadNext(i), rest);
      actions := [ReadNext(i)] + rest;
    }
  }

  lemma SweeperRemoves(p: Program, w: World, i: nat, name: string) returns (actions: seq<Action>)
    requires i < |w.processes| && !SparesWriting(w.processes[i].writing, name)
    ensures AllOwn(actions) && name !in Run(p, w, actions).files
  {
    actions := [SweepFile(i, name)];
    RunOne(p, w, SweepFile(i, name));
  }

  lemma SomebodyRemoves(p: Program, w: World, name: string) returns (rest: seq<Action>)
    requires !NobodyIsAfter(w, name) && Holds(w, name, OtherText)
    ensures AllOwn(rest) && name !in Run(p, w, rest).files
  {
    var i :| 0 <= i < |w.processes| &&
      !(SparesWriting(w.processes[i].writing, name) && SparesReading(w.processes[i].reading, name));
    if !SparesWriting(w.processes[i].writing, name) {
      rest := SweeperRemoves(p, w, i, name);
    } else {
      var reading := w.processes[i].reading;
      rest := ReaderRemoves(p, w, i, reading.meta, reading.left, reading.got, reading.drops, name);
    }
  }

  lemma SomebodyClears(p: Program, w: World, name: string) returns (rest: seq<Action>)
    requires !NobodyIsPast(w) && name != HISTORY_FILE
    ensures AllOwn(rest) && name !in Run(p, w, rest).files
  {
    var first := SomebodyOverwrites(p, w);
    var v := Run(p, w, first);
    RunsAreLong(p, w, first);
    hide Run, IsNewer;
    var second := ClearingRemoves(p, v, 0, name);
    RunOn(p, w, first, second);
    rest := first + second;
  }

  lemma {:induction false} RunsAreLong(p: Program, w: World, actions: seq<Action>)
    ensures |Run(p, w, actions).processes| == |w.processes|
  {
    if actions != [] {
      RunsAreLong(p, w, actions[..|actions| - 1]);
    }
  }

  /** Beside a newer meta, a file that is no table of this format stays, whatever the processes of this
      format do from then on, exactly when nobody is past the test and nobody is after the file. */
  lemma NewerFilesStayIff(p: Program, start: World, actions: seq<Action>, name: string)
    requires IsStart(start) && IsNewer(Run(p, start, actions).files)
    requires Holds(Run(p, start, actions), name, OtherText) && name != HISTORY_FILE
    ensures var w := Run(p, start, actions);
            Stays(p, w, name, OtherText) <==> NobodyIsPast(w) && NobodyIsAfter(w, name)
  {
    var w := Run(p, start, actions);
    RunsStayNamed(p, start, actions);
    hide Run, IsNamed;
    if !NobodyIsPast(w) {
      var rest := SomebodyClears(p, w, name);
      NotForLong(p, w, name, OtherText, rest);
    } else if !NobodyIsAfter(w, name) {
      var rest := SomebodyRemoves(p, w, name);
      NotForLong(p, w, name, OtherText, rest);
    } else {
      forall rest | AllOwn(rest) ensures Holds(Run(p, w, rest), name, OtherText) {
        NewerFileStaysFor(p, w, rest, name);
      }
    }
  }
}
