/**
 Several programs on one cache directory, without a lock (`write` and `read` in
 `crates/core/src/cache.rs`): every interleaving of the steps they are made of.

 A step is one file written, one file removed, or one file read. What a reader makes of a file and
 the removal that may follow are two steps: the file can change between them.
 */
module CacheRuns {
  import opened Cache
  import opened CacheLaws

  datatype Writing =
    | Resting
    | Putting(snap: Snapshot, todo: seq<Table>, records: seq<Record>)
    | Evicting(snap: Snapshot, line: seq<Record>, total: nat, kept: seq<Record>)
    | Sweeping(named: set<string>)

  /** A table and the record it was read for. */
  datatype Got = Got(record: Record, table: RestoredTable)

  datatype Reading =
    | Closed
    | Discarding
    | Reading(meta: Meta, left: seq<Record>, got: seq<Got>, drops: set<string>)

  datatype Process = Process(session: string, writing: Writing, reading: Reading)

  /** What the processes have written so far: a table by its file, and a meta. */
  datatype Event = PutTable(writer: nat, table: Table) | PutMeta(writer: nat, meta: Meta)

  datatype World = World(files: Files, processes: seq<Process>, log: set<Event>)

  datatype Action =
    | StartWrite(i: nat, snap: Snapshot)
    | PutNext(i: nat)
    | StartEvicting(i: nat)
    | EvictNext(i: nat)
    | WriteMeta(i: nat, now: nat)
    | SweepFile(i: nat, name: string)
    | EndWrite(i: nat)
    | StartRead(i: nat, target: Identity, now: nat, maxAge: nat)
    | DiscardFile(i: nat, name: string)
    | ReadNext(i: nat)
    | DropFile(i: nat, name: string)
    | EndRead(i: nat)
    | Elsewhere(i: nat, name: string)
    | NewerMeta(i: nat, content: Content)

  /** What the meta of a newer format reads as here: a meta that says so, or, with a field dropped or
      changed, no meta at all. (No record names the meta's file, so it is never read as a table.) */
  predicate IsNewerText(content: Content) {
    content.OtherText? || (content.MetaText? && content.meta.format > FORMAT)
  }

  function WithWriting(w: World, i: nat, writing: Writing): World
    requires i < |w.processes|
  {
    w.(processes := w.processes[i := w.processes[i].(writing := writing)])
  }

  function WithReading(w: World, i: nat, reading: Reading): World
    requires i < |w.processes|
  {
    w.(processes := w.processes[i := w.processes[i].(reading := reading)])
  }

  function WriterStep(p: Program, w: World, a: Action): World
    requires a.i < |w.processes|
  {
    var writing, session := w.processes[a.i].writing, w.processes[a.i].session;
    match a
    case StartWrite(i, snap) =>
      if writing.Resting? && !IsNewer(w.files) then WithWriting(w, i, Putting(snap, snap.tables, [])) else w
    case PutNext(i) =>
      if !writing.Putting? || writing.todo == [] then w
      else
        var t := writing.todo[0];
        var fits := FitsAFile(p, session, t);
        var records := if fits then writing.records + [RecordFor(p, session, t)] else writing.records;
        var log := if fits then w.log + {PutTable(i, t)} else w.log;
        WithWriting(w.(files := Put(p, session, w.files, t), log := log), i,
                    Putting(writing.snap, writing.todo[1..], records))
    case StartEvicting(i) =>
      if writing.Putting? && writing.todo == [] then
        WithWriting(w, i, Evicting(writing.snap, NewestFirst(writing.records), 0, []))
      else w
    case EvictNext(i) =>
      if !writing.Evicting? || writing.line == [] then w
      else
        var r := writing.line[0];
        if writing.total + r.bytes > MAX_DIR_BYTES then
          WithWriting(w.(files := w.files - {r.file}), i, writing.(line := writing.line[1..]))
        else
          WithWriting(w, i, Evicting(writing.snap, writing.line[1..], writing.total + r.bytes, writing.kept + [r]))
    case WriteMeta(i, now) =>
      if !writing.Evicting? || writing.line != [] then w
      else
        var meta := MetaOf(p, session, writing.snap, now, writing.kept);
        WithWriting(w.(files := w.files[META_FILE := MetaText(meta)], log := w.log + {PutMeta(i, meta)}), i,
                    Sweeping(FilesOf(writing.kept)))
    case SweepFile(i, name) =>
      if writing.Sweeping? && IsTableName(name) && name !in writing.named then w.(files := w.files - {name}) else w
    case EndWrite(i) =>
      if writing.Sweeping? then WithWriting(w, i, Resting) else w
    case _ => w
  }

  function ReaderStep(p: Program, w: World, a: Action): World
    requires a.i < |w.processes|
  {
    var reading := w.processes[a.i].reading;
    match a
    case StartRead(i, target, now, maxAge) =>
      if !reading.Closed? || IsNewer(w.files) then w
      else
        var meta := MetaIn(w.files);
        if meta.Some? && IsUsable(p, meta.value, target, now, maxAge) then
          WithReading(w, i, Reading(meta.value, meta.value.tables, [], {}))
        else WithReading(w, i, Discarding)
    case DiscardFile(i, name) =>
      if reading.Discarding? && name != HISTORY_FILE then w.(files := w.files - {name}) else w
    case ReadNext(i) =>
      if !reading.Reading? || reading.left == [] then w
      else
        var r := reading.left[0];
        var o := ReadRecord(p, reading.meta.session, w.files, r);
        var got := if o.Take? then reading.got + [Got(r, o.table)] else reading.got;
        var drops := if o.Drop? then reading.drops + {r.file} else reading.drops;
        WithReading(w, i, Reading(reading.meta, reading.left[1..], got, drops))
    case DropFile(i, name) =>
      if reading.Reading? && name in reading.drops then w.(files := w.files - {name}) else w
    case EndRead(i) =>
      if reading.Reading? || reading.Discarding? then WithReading(w, i, Closed) else w
    case Elsewhere(i, name) =>
      // Anything else in the directory, such as the history: no meta and no table.
      w.(files := w.files[name := OtherText])
    case NewerMeta(i, content) =>
      if IsNewerText(content) then w.(files := w.files[META_FILE := content]) else w
    case _ => w
  }

  function After(p: Program, w: World, a: Action): World {
    if a.i >= |w.processes| then w
    else if a.StartWrite? || a.PutNext? || a.StartEvicting? || a.EvictNext? || a.WriteMeta? || a.SweepFile? ||
            a.EndWrite?
    then WriterStep(p, w, a)
    else ReaderStep(p, w, a)
  }

  function Run(p: Program, w: World, actions: seq<Action>): World {
    if actions == [] then w else After(p, Run(p, w, actions[..|actions| - 1]), actions[|actions| - 1])
  }

  /** An empty directory and processes that have done nothing. */
  predicate IsStart(w: World) {
    w.files == map[] && w.log == {} &&
    forall i :: 0 <= i < |w.processes| ==> w.processes[i].writing == Resting && w.processes[i].reading == Closed
  }

  predicate DistinctSessions(w: World) {
    forall i, j :: 0 <= i < j < |w.processes| ==> w.processes[i].session != w.processes[j].session
  }

  // ---- what every step keeps ----

  /** The table was written, as it is now in its file, by the process of this session. */
  predicate Wrote(w: World, session: string, i: nat, t: Table) {
    i < |w.processes| && w.processes[i].session == session && PutTable(i, t) in w.log
  }

  predicate WroteMeta(w: World, i: nat, m: Meta) {
    i < |w.processes| && w.processes[i].session == m.session && PutMeta(i, m) in w.log
  }

  /** A table file is a table some process put there whole. */
  ghost predicate FileIsWritten(w: World, name: string)
    requires name in w.files
  {
    match w.files[name]
    case TableText(f) => exists i, t :: Wrote(w, f.session, i, t) && f == FileOf(t, f.session)
    case MetaText(m) => m.format > FORMAT || exists i :: WroteMeta(w, i, m)
    case OtherText => true
  }

  /** What a reader holds: the meta of some process, and tables that process's session wrote, under the
      kind, parents and filter of the record each was read for. */
  ghost predicate GotWhole(p: Program, w: World, meta: Meta, g: Got) {
    g.record in meta.tables &&
    exists i, t :: Wrote(w, meta.session, i, t) &&
                   t.kind == g.record.kind && t.parents == g.record.parents && t.filter == g.record.filter &&
                   Knows(p, t) && g.table == AsKept(p, t)
  }

  ghost predicate ReaderIsSound(p: Program, w: World, reading: Reading) {
    reading.Reading? ==>
      && (exists i :: WroteMeta(w, i, reading.meta))
      && (forall r :: r in reading.left ==> r in reading.meta.tables)
      && (forall g :: g in reading.got ==> GotWhole(p, w, reading.meta, g))
  }

  ghost predicate IsSound(p: Program, w: World) {
    && (forall name :: name in w.files ==> FileIsWritten(w, name))
    && (forall q :: 0 <= q < |w.processes| ==> ReaderIsSound(p, w, w.processes[q].reading))
  }

  /** Nothing that was written is forgotten, and no process changes its session. */
  predicate Grows(w: World, v: World) {
    && |v.processes| == |w.processes| && w.log <= v.log
    && forall i :: 0 <= i < |w.processes| ==> v.processes[i].session == w.processes[i].session
  }

  lemma ReaderStaysSound(p: Program, w: World, v: World, reading: Reading)
    requires Grows(w, v) && ReaderIsSound(p, w, reading)
    ensures ReaderIsSound(p, v, reading)
  {
    if reading.Reading? {
      var m := reading.meta;
      var i :| WroteMeta(w, i, m);
      assert WroteMeta(v, i, m);
      forall g | g in reading.got ensures GotWhole(p, v, m, g) {
        var j, t :| Wrote(w, m.session, j, t) &&
          t.kind == g.record.kind && t.parents == g.record.parents && t.filter == g.record.filter &&
          Knows(p, t) && g.table == AsKept(p, t);
        assert Wrote(v, m.session, j, t);
      }
    }
  }

  lemma FileStaysWritten(w: World, v: World, name: string)
    requires Grows(w, v) && name in w.files && name in v.files && v.files[name] == w.files[name] &&
               FileIsWritten(w, name)
    ensures FileIsWritten(v, name)
  {
    match w.files[name] {
      case TableText(f) =>
        var i, t :| Wrote(w, f.session, i, t) && f == FileOf(t, f.session);
        assert Wrote(v, f.session, i, t);
      case MetaText(m) =>
        if m.format <= FORMAT {
          var i :| WroteMeta(w, i, m);
          assert WroteMeta(v, i, m);
        }
      case OtherText =>
    }
  }

  /** A step that only removes files, or writes one that is sound, and moves no reader but a sound one. */
  lemma SoundStep(p: Program, w: World, v: World, i: nat, name: string)
    requires IsSound(p, w) && Grows(w, v) && i < |w.processes|
    requires forall other :: other in v.files && other != name ==> other in w.files && v.files[other] == w.files[other]
    requires name in v.files ==> (name in w.files && v.files[name] == w.files[name]) || FileIsWritten(v, name)
    requires forall q :: 0 <= q < |w.processes| && q != i ==> v.processes[q].reading == w.processes[q].reading
    requires v.processes[i].reading == w.processes[i].reading || ReaderIsSound(p, v, v.processes[i].reading)
    ensures IsSound(p, v)
  {
    forall other | other in v.files ensures FileIsWritten(v, other) {
      if other != name || (name in w.files && v.files[name] == w.files[name]) {
        FileStaysWritten(w, v, other);
      }
    }
    forall q | 0 <= q < |v.processes| ensures ReaderIsSound(p, v, v.processes[q].reading) {
      if v.processes[q].reading == w.processes[q].reading {
        ReaderStaysSound(p, w, v, w.processes[q].reading);
      }
    }
  }

  lemma PutsAreSound(p: Program, w: World, i: nat)
    requires i < |w.processes| && IsSound(p, w)
    ensures IsSound(p, WriterStep(p, w, PutNext(i)))
  {
    var v := WriterStep(p, w, PutNext(i));
    var writing, session := w.processes[i].writing, w.processes[i].session;
    hide FitsAFile, FileOf, ReaderIsSound;
    assert Grows(w, v);
    if v != w && FitsAFile(p, session, writing.todo[0]) {
      var t := writing.todo[0];
      var name := RecordFor(p, session, t).file;
      assert v.files == w.files[name := TableText(FileOf(t, session))];
      SessionOfFile(t, session);
      assert Wrote(v, session, i, t);
      SoundStep(p, w, v, i, name);
    } else {
      SoundStep(p, w, v, i, META_FILE);
    }
  }

  lemma MetasAreSound(p: Program, w: World, i: nat, now: nat)
    requires i < |w.processes| && IsSound(p, w)
    ensures IsSound(p, WriterStep(p, w, WriteMeta(i, now)))
  {
    var v := WriterStep(p, w, WriteMeta(i, now));
    var writing, session := w.processes[i].writing, w.processes[i].session;
    hide MetaOf, FilesOf, ReaderIsSound;
    assert Grows(w, v);
    if v != w {
      var meta := MetaOf(p, session, writing.snap, now, writing.kept);
      SessionOfMeta(p, session, writing.snap, now, writing.kept);
      assert WroteMeta(v, i, meta);
    }
    SoundStep(p, w, v, i, META_FILE);
  }

  lemma WritersAreSound(p: Program, w: World, a: Action)
    requires a.i < |w.processes| && IsSound(p, w)
    ensures Grows(w, WriterStep(p, w, a)) && IsSound(p, WriterStep(p, w, a))
  {
    var v := WriterStep(p, w, a);
    assert Grows(w, v);
    if a.PutNext? {
      PutsAreSound(p, w, a.i);
    } else if a.WriteMeta? {
      MetasAreSound(p, w, a.i, a.now);
    } else {
      hide NewestFirst, IsTableName, ReaderIsSound, IsNewer, FileIsWritten, IsSound, Grows;
      SoundStep(p, w, v, a.i, META_FILE);
    }
  }

  lemma SessionOfFile(t: Table, session: string)
    ensures FileOf(t, session).session == session
  {}

  lemma SessionOfMeta(p: Program, session: string, snap: Snapshot, now: nat, kept: seq<Record>)
    ensures MetaOf(p, session, snap, now, kept).session == session
  {}

  /** What a record's file gives is whole: the fields are compared, not the file's name. */
  lemma TakenIsWhole(p: Program, w: World, meta: Meta, r: Record)
    requires IsSound(p, w) && r in meta.tables && ReadRecord(p, meta.session, w.files, r).Take?
    ensures GotWhole(p, w, meta, Got(r, ReadRecord(p, meta.session, w.files, r).table))
  {
    var f := w.files[r.file].file;
    assert FileIsWritten(w, r.file);
    var i, t :| Wrote(w, f.session, i, t) && f == FileOf(t, f.session);
    assert Wrote(w, meta.session, i, t);
  }

  lemma ReadsAreSound(p: Program, w: World, i: nat)
    requires i < |w.processes| && IsSound(p, w)
    ensures IsSound(p, ReaderStep(p, w, ReadNext(i)))
  {
    var v := ReaderStep(p, w, ReadNext(i));
    var before, reading := w.processes[i].reading, v.processes[i].reading;
    hide ReadRecord;
    assert Grows(w, v);
    if v != w {
      var r, o := before.left[0], ReadRecord(p, before.meta.session, w.files, before.left[0]);
      assert ReaderIsSound(p, w, before);
      ReaderStaysSound(p, w, v, before);
      if o.Take? {
        TakenIsWhole(p, w, before.meta, r);
        ReaderStaysSound(p, w, v, Reading(before.meta, [], [Got(r, o.table)], {}));
        assert Got(r, o.table) in [Got(r, o.table)];
      }
      hide GotWhole;
      assert ReaderIsSound(p, v, reading);
    }
    SoundStep(p, w, v, i, META_FILE);
  }

  lemma ReadersAreSound(p: Program, w: World, a: Action)
    requires a.i < |w.processes| && IsSound(p, w)
    ensures Grows(w, ReaderStep(p, w, a)) && IsSound(p, ReaderStep(p, w, a))
  {
    var v, i := ReaderStep(p, w, a), a.i;
    hide ReadRecord, IsNewer, SameTarget;
    assert Grows(w, v);
    if a.ReadNext? {
      ReadsAreSound(p, w, i);
    } else if a.StartRead? && v.processes[i].reading.Reading? && v != w {
      var meta := v.processes[i].reading.meta;
      assert FileIsWritten(w, META_FILE);
      var j :| WroteMeta(w, j, meta);
      assert WroteMeta(v, j, meta);
      hide GotWhole;
      SoundStep(p, w, v, i, META_FILE);
    } else {
      hide IsSound, GotWhole, Grows;
      SoundStep(p, w, v, i, if a.Elsewhere? then a.name else META_FILE);
    }
  }

  lemma {:induction false} RunsAreSound(p: Program, w: World, actions: seq<Action>)
    requires IsStart(w)
    ensures Grows(w, Run(p, w, actions)) && IsSound(p, Run(p, w, actions))
  {
    if actions != [] {
      var before, a := Run(p, w, actions[..|actions| - 1]), actions[|actions| - 1];
      RunsAreSound(p, w, actions[..|actions| - 1]);
      if a.i < |before.processes| {
        WritersAreSound(p, before, a);
        ReadersAreSound(p, before, a);
      }
    }
  }

  /** Whatever the processes did: a table a reader holds was written whole, in one write, by the very
      process that wrote the meta the reader read, under the kind, parents and filter of its record. */
  lemma ReadersGetWholeTables(p: Program, start: World, actions: seq<Action>, q: nat, g: Got) returns (i: nat, t: Table)
    requires IsStart(start) && DistinctSessions(start)
    requires var w := Run(p, start, actions);
             q < |w.processes| && w.processes[q].reading.Reading? && g in w.processes[q].reading.got
    ensures var w := Run(p, start, actions);
            var meta := w.processes[q].reading.meta;
            && WroteMeta(w, i, meta) && Wrote(w, meta.session, i, t)
            && (forall j :: WroteMeta(w, j, meta) ==> j == i)
            && g.record in meta.tables
            && t.kind == g.record.kind && t.parents == g.record.parents && t.filter == g.record.filter
            && Knows(p, t) && g.table == AsKept(p, t)
  {
    RunsAreSound(p, start, actions);
    var w := Run(p, start, actions);
    var meta := w.processes[q].reading.meta;
    assert ReaderIsSound(p, w, w.processes[q].reading);
    assert GotWhole(p, w, meta, g);
    i, t :| Wrote(w, meta.session, i, t) &&
      t.kind == g.record.kind && t.parents == g.record.parents && t.filter == g.record.filter &&
      Knows(p, t) && g.table == AsKept(p, t);
    var k :| WroteMeta(w, k, meta);
    assert forall j :: WroteMeta(w, j, meta) ==> j == i;
  }

  // ---- one write undisturbed ----

  lemma {:induction false} RunOn(p: Program, w: World, a: seq<Action>, b: seq<Action>)
    ensures Run(p, w, a + b) == Run(p, Run(p, w, a), b)
    decreases |b|
  {
    if b == [] {
      assert a + b == a;
    } else {
      assert (a + b)[..|a + b| - 1] == a + b[..|b| - 1];
      RunOn(p, w, a, b[..|b| - 1]);
      hide After;
    }
  }

  lemma RunFirst(p: Program, w: World, a: Action, rest: seq<Action>)
    ensures Run(p, w, [a] + rest) == Run(p, After(p, w, a), rest)
  {
    RunOn(p, w, [a], rest);
    assert [a][..0] == [];
    assert Run(p, w, [a]) == After(p, Run(p, w, []), a);
    hide After;
  }

  /** What processes of this format do: not writing a newer meta, nor another file in the meta's place. */
  predicate IsOwn(a: Action) {
    !a.NewerMeta? && !(a.Elsewhere? && a.name == META_FILE)
  }

  predicate AllOwn(actions: seq<Action>) {
    forall a :: a in actions ==> IsOwn(a)
  }

  predicate IsWriting(w: World, i: nat, session: string, writing: Writing) {
    i < |w.processes| && w.processes[i].session == session && w.processes[i].writing == writing
  }

  lemma PutsOne(p: Program, w: World, i: nat, session: string, snap: Snapshot, todo: seq<Table>, records: seq<Record>)
    requires IsWriting(w, i, session, Putting(snap, todo, records)) && todo != []
    ensures var v := After(p, w, PutNext(i));
            var more := if FitsAFile(p, session, todo[0]) then [RecordFor(p, session, todo[0])] else [];
            v.files == Put(p, session, w.files, todo[0]) &&
            IsWriting(v, i, session, Putting(snap, todo[1..], records + more))
  {
    hide FitsAFile, RecordFor, FileOf;
    assert records + [] == records;
  }

  lemma PutsDone(p: Program, w: World, session: string, todo: seq<Table>, records: seq<Record>)
    ensures Run(p, w, []) == w
    ensures todo == [] ==>
              PutAll(p, session, w.files, todo) == w.files && records + Records(p, session, todo) == records
    ensures todo != [] ==>
              PutAll(p, session, w.files, todo) == PutAll(p, session, Put(p, session, w.files, todo[0]), todo[1..]) &&
              Records(p, session, todo) ==
                (if FitsAFile(p, session, todo[0]) then [RecordFor(p, session, todo[0])] else [])
                + Records(p, session, todo[1..])
  {
    assert records + [] == records;
    hide FitsAFile, RecordFor, Put;
  }

  lemma {:induction false} PutsAlone(p: Program, w: World, i: nat, session: string, snap: Snapshot,
                                     todo: seq<Table>, records: seq<Record>)
      returns (actions: seq<Action>)
    requires IsWriting(w, i, session, Putting(snap, todo, records))
    ensures forall a :: a in actions ==> a == PutNext(i)
    ensures var v := Run(p, w, actions);
            && v.files == PutAll(p, session, w.files, todo)
            && IsWriting(v, i, session, Putting(snap, [], records + Records(p, session, todo)))
    decreases |todo|
  {
    hide *;
    PutsDone(p, w, session, todo, records);
    if todo == [] {
      actions := [];
    } else {
      var v := After(p, w, PutNext(i));
      var more := if FitsAFile(p, session, todo[0]) then [RecordFor(p, session, todo[0])] else [];
      PutsOne(p, w, i, session, snap, todo, records);
      var rest := PutsAlone(p, v, i, session, snap, todo[1..], records + more);
      RunFirst(p, w, PutNext(i), rest);
      actions := [PutNext(i)] + rest;
      assert records + more + Records(p, session, todo[1..]) == records + (more + Records(p, session, todo[1..]));
    }
  }

  lemma EvictsOne(p: Program, w: World, i: nat, session: string, snap: Snapshot, line: seq<Record>, total: nat,
                  kept: seq<Record>)
    requires IsWriting(w, i, session, Evicting(snap, line, total, kept)) && line != []
    ensures var v := After(p, w, EvictNext(i));
            if total + line[0].bytes > MAX_DIR_BYTES then
              v.files == w.files - {line[0].file} && IsWriting(v, i, session, Evicting(snap, line[1..], total, kept))
            else
              v.files == w.files &&
              IsWriting(v, i, session, Evicting(snap, line[1..], total + line[0].bytes, kept + [line[0]]))
  {}

  lemma {:induction false} EvictsAlone(p: Program, w: World, i: nat, session: string, snap: Snapshot,
                                       line: seq<Record>, total: nat, kept: seq<Record>)
      returns (actions: seq<Action>, sum: nat)
    requires IsWriting(w, i, session, Evicting(snap, line, total, kept))
    ensures forall a :: a in actions ==> a == EvictNext(i)
    ensures var v := Run(p, w, actions);
            && v.files == w.files - Evictees(line, total)
            && IsWriting(v, i, session, Evicting(snap, [], sum, kept + Kept(line, total)))
    decreases |line|
  {
    hide *;
    EvictsDone(p, w, line, total, kept);
    if line == [] {
      actions, sum := [], total;
    } else {
      var r, v := line[0], After(p, w, EvictNext(i));
      EvictsOne(p, w, i, session, snap, line, total, kept);
      var rest;
      if total + r.bytes > MAX_DIR_BYTES {
        rest, sum := EvictsAlone(p, v, i, session, snap, line[1..], total, kept);
      } else {
        rest, sum := EvictsAlone(p, v, i, session, snap, line[1..], total + r.bytes, kept + [r]);
      }
      RunFirst(p, w, EvictNext(i), rest);
      actions := [EvictNext(i)] + rest;
    }
  }

  /** What eviction has still to do, before and after one record. */
  lemma EvictsDone(p: Program, w: World, line: seq<Record>, total: nat, kept: seq<Record>)
    ensures Run(p, w, []) == w
    ensures line == [] ==> w.files - Evictees(line, total) == w.files && kept + Kept(line, total) == kept
    ensures line != [] && total + line[0].bytes > MAX_DIR_BYTES ==>
              w.files - Evictees(line, total) == w.files - {line[0].file} - Evictees(line[1..], total) &&
              Kept(line, total) == Kept(line[1..], total)
    ensures line != [] && total + line[0].bytes <= MAX_DIR_BYTES ==>
              Evictees(line, total) == Evictees(line[1..], total + line[0].bytes) &&
              kept + Kept(line, total) == kept + [line[0]] + Kept(line[1..], total + line[0].bytes)
  {
    if line == [] {
      assert w.files - {} == w.files && kept + [] == kept;
    } else {
      Removing(w.files, line[0].file, Evictees(line[1..], total));
    }
  }

  /** Removing the files that are swept, one by one. */
  lemma {:induction false} SweepsAlone(p: Program, w: World, i: nat, session: string, named: set<string>,
                                       names: set<string>)
      returns (actions: seq<Action>)
    requires IsWriting(w, i, session, Sweeping(named))
    requires forall name :: name in w.files && IsTableName(name) && name !in named ==> name in names
    ensures var v := Run(p, w, actions);
            v.files == Swept(w.files, named) && IsWriting(v, i, session, Sweeping(named))
    decreases |names|
  {
    if names == {} {
      actions := [];
      assert Swept(w.files, named) == w.files;
    } else {
      var name :| name in names;
      var v := After(p, w, SweepFile(i, name));
      assert Swept(v.files, named) == Swept(w.files, named);
      var rest := SweepsAlone(p, v, i, session, named, names - {name});
      hide After, Swept;
      RunFirst(p, w, SweepFile(i, name), rest);
      actions := [SweepFile(i, name)] + rest;
    }
  }

  /** From the meta on: the meta, then the sweep. */
  lemma MetaAndSweepAlone(p: Program, w: World, i: nat, session: string, snap: Snapshot, now: nat, sum: nat,
                          kept: seq<Record>)
      returns (actions: seq<Action>)
    requires IsWriting(w, i, session, Evicting(snap, [], sum, kept))
    ensures Run(p, w, actions).files ==
              Swept(w.files[META_FILE := MetaText(MetaOf(p, session, snap, now, kept))], FilesOf(kept))
  {
    var v := After(p, w, WriteMeta(i, now));
    var sweeps := SweepsAlone(p, v, i, session, FilesOf(kept), v.files.Keys);
    assert v.files == w.files[META_FILE := MetaText(MetaOf(p, session, snap, now, kept))];
    hide *;
    RunFirst(p, w, WriteMeta(i, now), sweeps);
    actions := [WriteMeta(i, now)] + sweeps;
  }

  /** From the eviction on. */
  lemma EvictAndOnAlone(p: Program, w: World, i: nat, session: string, snap: Snapshot, now: nat, records: seq<Record>)
      returns (actions: seq<Action>)
    requires IsWriting(w, i, session, Putting(snap, [], records))
    ensures var line := NewestFirst(records);
            var kept := Kept(line, 0);
            var left := w.files - Evictees(line, 0);
            Run(p, w, actions).files ==
              Swept(left[META_FILE := MetaText(MetaOf(p, session, snap, now, kept))], FilesOf(kept))
  {
    var line := NewestFirst(records);
    var v := After(p, w, StartEvicting(i));
    var evicts, sum := EvictsAlone(p, v, i, session, snap, line, 0, []);
    assert v.files == w.files;
    hide *;
    assert [] + Kept(line, 0) == Kept(line, 0);
    var rest := MetaAndSweepAlone(p, Run(p, v, evicts), i, session, snap, now, sum, Kept(line, 0));
    RunOn(p, v, evicts, rest);
    RunFirst(p, w, StartEvicting(i), evicts + rest);
    actions := [StartEvicting(i)] + (evicts + rest);
  }

  /** The steps of one write, with nobody in between, leave the directory `Write` leaves. */
  lemma UndisturbedWrite(p: Program, w: World, i: nat, snap: Snapshot, now: nat) returns (actions: seq<Action>)
    requires i < |w.processes| && w.processes[i].writing.Resting?
    ensures Run(p, w, actions).files == Written(p, w.processes[i].session, w.files, snap, now)
  {
    var session := w.processes[i].session;
    if IsNewer(w.files) {
      return [];
    }
    var v := After(p, w, StartWrite(i, snap));
    var puts := PutsAlone(p, v, i, session, snap, snap.tables, []);
    var records := Records(p, session, snap.tables);
    assert v.files == w.files && [] + records == records;
    assert KeptOf(p, session, snap.tables) == Kept(NewestFirst(records), 0);
    hide PutAll, Records, Kept, KeptOf, Evictees, NewestFirst, MetaOf, Swept, FilesOf, After, Run, IsWriting;
    var rest := EvictAndOnAlone(p, Run(p, v, puts), i, session, snap, now, records);
    RunOn(p, v, puts, rest);
    RunFirst(p, w, StartWrite(i, snap), puts + rest);
    actions := [StartWrite(i, snap)] + (puts + rest);
  }

  // ---- one read undisturbed ----

  predicate IsReading(w: World, i: nat, reading: Reading) {
    i < |w.processes| && w.processes[i].reading == reading
  }

  function TablesOf(got: seq<Got>): (xs: seq<RestoredTable>)
    ensures |xs| == |got| && forall i :: 0 <= i < |got| ==> xs[i] == got[i].table
  {
    seq(|got|, i requires 0 <= i < |got| => got[i].table)
  }

  function GotFrom(r: Record, o: Outcome): seq<Got> {
    if o.Take? then [Got(r, o.table)] else []
  }

  /** One record read, and its file removed when it is to be. */
  lemma ReadsOne(p: Program, w: World, i: nat, meta: Meta, left: seq<Record>, got: seq<Got>, drops: set<string>)
      returns (actions: seq<Action>, more: seq<Got>, dropped: set<string>)
    requires IsReading(w, i, Reading(meta, left, got, drops)) && left != []
    ensures var o, v := ReadRecord(p, meta.session, w.files, left[0]), Run(p, w, actions);
            && v.files == FilesAfter(w.files, left[0], o)
            && IsReading(v, i, Reading(meta, left[1..], got + more, dropped))
            && more == GotFrom(left[0], o)
  {
    var r, o := left[0], ReadRecord(p, meta.session, w.files, left[0]);
    var v := After(p, w, ReadNext(i));
    more, dropped := if o.Take? then [Got(r, o.table)] else [], if o.Drop? then drops + {r.file} else drops;
    hide ReadRecord;
    assert got + [] == got;
    assert IsReading(v, i, Reading(meta, left[1..], got + more, dropped)) && v.files == w.files;
    RunOne(p, w, ReadNext(i));
    if o.Drop? {
      RunOne(p, v, DropFile(i, r.file));
      RunFirst(p, w, ReadNext(i), [DropFile(i, r.file)]);
      actions := [ReadNext(i), DropFile(i, r.file)];
      assert actions == [ReadNext(i)] + [DropFile(i, r.file)];
    } else {
      actions := [ReadNext(i)];
    }
  }

  lemma RunOne(p: Program, w: World, a: Action)
    ensures Run(p, w, [a]) == After(p, w, a)
  {
    assert [a][..0] == [];
    hide After;
  }

  lemma RunNothing(p: Program, w: World)
    ensures Run(p, w, []) == w
  {}

  lemma ReadsNothing(p: Program, session: string, files: Files, got: seq<Got>)
    ensures ReadRecords(p, session, files, []).0 == files &&
              TablesOf(got) + ReadRecords(p, session, files, []).1 == TablesOf(got)
  {}

  lemma ReadsMore(p: Program, session: string, files: Files, left: seq<Record>, got: seq<Got>, more: seq<Got>)
    requires left != [] && more == GotFrom(left[0], ReadRecord(p, session, files, left[0]))
    ensures var o := ReadRecord(p, session, files, left[0]);
            var rest := ReadRecords(p, session, FilesAfter(files, left[0], o), left[1..]);
            && ReadRecords(p, session, files, left).0 == rest.0
            && TablesOf(got) + ReadRecords(p, session, files, left).1 == TablesOf(got + more) + rest.1
  {
    hide *;
    var rest := ReadRecords(p, session, FilesAfter(files, left[0], ReadRecord(p, session, files, left[0])), left[1..]);
    ReadsUnfold(p, session, files, left);
    TablesConcat(got, more);
    TablesRegroup(TablesOf(got), TablesOf(more), rest.1);
  }

  lemma TablesRegroup(a: seq<RestoredTable>, b: seq<RestoredTable>, c: seq<RestoredTable>)
    ensures a + (b + c) == a + b + c
  {}

  lemma TablesConcat(a: seq<Got>, b: seq<Got>)
    ensures TablesOf(a + b) == TablesOf(a) + TablesOf(b)
  {}

  lemma ReadsUnfold(p: Program, session: string, files: Files, left: seq<Record>)
    requires left != []
    ensures var o := ReadRecord(p, session, files, left[0]);
            var rest := ReadRecords(p, session, FilesAfter(files, left[0], o), left[1..]);
            && ReadRecords(p, session, files, left).0 == rest.0
            && ReadRecords(p, session, files, left).1 == TablesOf(GotFrom(left[0], o)) + rest.1
  {
    var o := ReadRecord(p, session, files, left[0]);
    assert TablesOf(GotFrom(left[0], o)) == if o.Take? then [o.table] else [];
    hide ReadRecord, FilesAfter, GotFrom;
  }

  lemma {:induction false} ReadsAlone(p: Program, w: World, i: nat, meta: Meta, left: seq<Record>, got: seq<Got>,
                                      drops: set<string>)
      returns (actions: seq<Action>, all: seq<Got>, dropped: set<string>)
    requires IsReading(w, i, Reading(meta, left, got, drops))
    ensures var v, r := Run(p, w, actions), ReadRecords(p, meta.session, w.files, left);
            && v.files == r.0
            && IsReading(v, i, Reading(meta, [], all, dropped))
            && TablesOf(all) == TablesOf(got) + r.1
    decreases |left|
  {
    hide *;
    if left == [] {
      actions, all, dropped := [], got, drops;
      RunNothing(p, w);
      ReadsNothing(p, meta.session, w.files, got);
    } else {
      var one, more, d := ReadsOne(p, w, i, meta, left, got, drops);
      ReadsMore(p, meta.session, w.files, left, got, more);
      var rest;
      rest, all, dropped := ReadsAlone(p, Run(p, w, one), i, meta, left[1..], got + more, d);
      RunOn(p, w, one, rest);
      actions := one + rest;
    }
  }

  lemma {:induction false} DiscardsAlone(p: Program, w: World, i: nat, names: set<string>)
      returns (actions: seq<Action>)
    requires IsReading(w, i, Discarding)
    requires forall name :: name in w.files && name != HISTORY_FILE ==> name in names
    ensures Run(p, w, actions).files == Discarded(w.files) && IsReading(Run(p, w, actions), i, Discarding)
    decreases |names|
  {
    if names == {} {
      actions := [];
      assert Discarded(w.files) == w.files;
    } else {
      var name :| name in names;
      var v := After(p, w, DiscardFile(i, name));
      assert Discarded(v.files) == Discarded(w.files);
      var rest := DiscardsAlone(p, v, i, names - {name});
      hide After, Discarded;
      RunFirst(p, w, DiscardFile(i, name), rest);
      actions := [DiscardFile(i, name)] + rest;
    }
  }

  /** The steps of one read, with nobody in between, remove the files `Read` removes, and the reader
      ends with the tables `Read` gives back. */
  lemma UndisturbedRead(p: Program, w: World, i: nat, target: Identity, now: nat, maxAge: nat)
      returns (actions: seq<Action>)
    requires IsReading(w, i, Closed)
    ensures var v, r := Run(p, w, actions), ReadBack(p, w.files, target, now, maxAge);
            && v.files == r.0 && i < |v.processes|
            && (r.1.Some? <==> v.processes[i].reading.Reading?)
            && (r.1.Some? ==>
                  v.processes[i].reading.left == [] && v.processes[i].reading.meta == MetaIn(w.files).value &&
                  TablesOf(v.processes[i].reading.got) == r.1.value.tables)
  {
    var meta := MetaIn(w.files);
    if IsNewer(w.files) {
      actions := [];
      NewerIsLeftAlone(p, "", w.files, Snapshot(target, map[], [], [], []), now, target, maxAge);
    } else {
      var a := StartRead(i, target, now, maxAge);
      var v := After(p, w, a);
      var rest;
      if meta.Some? && IsUsable(p, meta.value, target, now, maxAge) {
        var all, dropped;
        rest, all, dropped := ReadsAlone(p, v, i, meta.value, meta.value.tables, [], {});
        assert TablesOf([]) == [] && [] + ReadRecords(p, meta.value.session, w.files, meta.value.tables).1
            == ReadRecords(p, meta.value.session, w.files, meta.value.tables).1;
        hide Run, After, ReadRecords, MetaIn;
      } else {
        rest := DiscardsAlone(p, v, i, v.files.Keys);
        hide Run, After, Discarded;
      }
      RunFirst(p, w, a, rest);
      actions := [a] + rest;
    }
  }
}
