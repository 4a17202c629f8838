/**
 The cache directory (`crates/core/src/cache.rs`): a map from file names to what the files hold, and
 the two operations on it, written as the loops they are and specified as functions on the map.

 A file is written or removed in one step. The text of a file is serde's, so a file is what it reads
 as; the length of a table file's text and the hash in its name are parameters.
 */
module Cache {
  import opened Wrappers
  import opened Text
  import opened Json
  import opened Scrub

  const FORMAT := 1
  const MAX_ROWS_PER_TABLE := 2000
  const MAX_TABLE_BYTES := 2 * 1024 * 1024
  const MAX_DIR_BYTES := 16 * 1024 * 1024
  const MAX_NAMES := 20000

  const META_FILE := "meta.json"
  const HISTORY_FILE := "history.json"

  datatype Identity = Identity(host: string, port: nat, username: string,
                               domainManager: Option<string>, pcVersion: Option<string>)

  predicate SameTarget(a: Identity, b: Identity) {
    a.host == b.host && a.port == b.port && a.username == b.username
  }

  /** A table as the store hands it over, and, its rows cut and scrubbed, as its file keeps it. */
  datatype Table = Table(kind: string, parents: seq<string>, filter: Option<string>, select: Option<string>,
                         total: Option<nat>, at: nat, rows: seq<Value>)

  datatype TableFile = TableFile(format: nat, session: string, table: Table)

  /** A table's entry in the meta. */
  datatype Record = Record(file: string, kind: string, parents: seq<string>, filter: Option<string>,
                           select: Option<string>, rows: nat, total: Option<nat>, bytes: nat, at: nat)

  datatype Namespace = Namespace(name: string, ok: bool, detail: string, at: nat)

  datatype Snapshot = Snapshot(identity: Identity, pins: map<string, string>, namespaces: seq<Namespace>,
                               names: seq<(string, string)>, tables: seq<Table>)

  datatype Meta = Meta(format: nat, written: nat, session: string, appVersion: string, identity: Identity,
                       pins: map<string, string>, namespaces: seq<Namespace>, names: seq<(string, string)>,
                       tables: seq<Record>)

  /** What a file reads as. */
  datatype Content = MetaText(meta: Meta) | TableText(file: TableFile) | OtherText

  type Files = map<string, Content>

  datatype Kind = Kind(extIdKey: string, select: Option<string>)

  /** What the program knows: its version, its catalog, how long a table's text is, and the hash. */
  datatype Program = Program(version: string, kinds: map<string, Kind>, filters: set<string>,
                             size: TableFile -> nat, hex: string -> string)

  // ---- names ----

  function JoinNul(parents: seq<string>): string {
    if parents == [] then "" else Join(parents, '\0')
  }

  function OrEmpty(filter: Option<string>): string {
    if filter.Some? then filter.value else ""
  }

  /** What a table's file name is the hash of. */
  function TableKey(kind: string, parents: seq<string>, filter: Option<string>): string {
    kind + ['\0'] + (NatText(|parents|) + ['\0'] + (JoinNul(parents) + ['\0'] + OrEmpty(filter)))
  }

  function TableFileName(p: Program, kind: string, parents: seq<string>, filter: Option<string>): string {
    "t-" + p.hex(TableKey(kind, parents, filter)) + ".json"
  }

  predicate IsTableName(name: string) {
    StartsWith(name, "t-") && EndsWith(name, ".json")
  }

  // ---- one table on disk ----

  function First<T>(s: seq<T>, n: nat): seq<T> {
    if |s| <= n then s else s[..n]
  }

  function FileOf(t: Table, session: string): TableFile {
    TableFile(FORMAT, session, t.(rows := ScrubbedItems(First(t.rows, MAX_ROWS_PER_TABLE))))
  }

  function RecordOf(p: Program, f: TableFile): Record {
    var t := f.table;
    Record(TableFileName(p, t.kind, t.parents, t.filter), t.kind, t.parents, t.filter, t.select, |t.rows|, t.total,
           p.size(f), t.at)
  }

  predicate FitsAFile(p: Program, session: string, t: Table) {
    p.size(FileOf(t, session)) <= MAX_TABLE_BYTES
  }

  function RecordFor(p: Program, session: string, t: Table): Record {
    RecordOf(p, FileOf(t, session))
  }

  // ---- writing ----

  function MetaIn(files: Files): Option<Meta> {
    if META_FILE in files && files[META_FILE].MetaText? then Some(files[META_FILE].meta) else None
  }

  predicate IsNewer(files: Files) {
    MetaIn(files).Some? && MetaIn(files).value.format > FORMAT
  }

  function Put(p: Program, session: string, files: Files, t: Table): Files {
    if FitsAFile(p, session, t) then files[RecordFor(p, session, t).file := TableText(FileOf(t, session))] else files
  }

  function PutAll(p: Program, session: string, files: Files, tables: seq<Table>): Files
    decreases |tables|
  {
    if tables == [] then files else PutAll(p, session, Put(p, session, files, tables[0]), tables[1..])
  }

  function Records(p: Program, session: string, tables: seq<Table>): seq<Record> {
    if tables == [] then []
    else (if FitsAFile(p, session, tables[0]) then [RecordFor(p, session, tables[0])] else [])
         + Records(p, session, tables[1..])
  }

  /** Where a stable sort puts a record that came before all of these. */
  function Inserted(r: Record, rs: seq<Record>, after: (Record, Record) -> bool): seq<Record> {
    if rs == [] || !after(r, rs[0]) then [r] + rs else [rs[0]] + Inserted(r, rs[1..], after)
  }

  function Sorted(rs: seq<Record>, after: (Record, Record) -> bool): seq<Record> {
    if rs == [] then [] else Inserted(rs[0], Sorted(rs[1..], after), after)
  }

  predicate Older(a: Record, b: Record) { a.at < b.at }

  predicate NamedAfter(a: Record, b: Record) { CompareText(a.file, b.file) == Greater }

  /** `sort_by_key(Reverse(at))` and `sort_by(file)` */
  function NewestFirst(rs: seq<Record>): seq<Record> { Sorted(rs, Older) }

  function ByFile(rs: seq<Record>): seq<Record> { Sorted(rs, NamedAfter) }

  /** The records that stay, of those in line behind `total` bytes that do. */
  function Kept(rs: seq<Record>, total: nat): seq<Record> {
    if rs == [] then []
    else if total + rs[0].bytes > MAX_DIR_BYTES then Kept(rs[1..], total)
    else [rs[0]] + Kept(rs[1..], total + rs[0].bytes)
  }

  /** The files of the records that go. */
  function Evictees(rs: seq<Record>, total: nat): set<string> {
    if rs == [] then {}
    else if total + rs[0].bytes > MAX_DIR_BYTES then {rs[0].file} + Evictees(rs[1..], total)
    else Evictees(rs[1..], total + rs[0].bytes)
  }

  function FilesOf(rs: seq<Record>): set<string> {
    if rs == [] then {} else {rs[0].file} + FilesOf(rs[1..])
  }

  function OnlyOk(namespaces: seq<Namespace>): seq<Namespace> {
    if namespaces == [] then []
    else (if namespaces[0].ok then [namespaces[0]] else []) + OnlyOk(namespaces[1..])
  }

  function MetaOf(p: Program, session: string, snap: Snapshot, now: nat, kept: seq<Record>): Meta {
    Meta(FORMAT, now, session, p.version, snap.identity, snap.pins, OnlyOk(snap.namespaces),
         First(snap.names, MAX_NAMES), ByFile(kept))
  }

  /** Every table file the meta does not name is gone. */
  function Swept(files: Files, named: set<string>): Files {
    map name | name in files && !(IsTableName(name) && name !in named) :: files[name]
  }

  function KeptOf(p: Program, session: string, tables: seq<Table>): seq<Record> {
    Kept(NewestFirst(Records(p, session, tables)), 0)
  }

  function Written(p: Program, session: string, files: Files, snap: Snapshot, now: nat): Files {
    if IsNewer(files) then files
    else
      var put := PutAll(p, session, files, snap.tables);
      var kept := KeptOf(p, session, snap.tables);
      var evicted := put - Evictees(NewestFirst(Records(p, session, snap.tables)), 0);
      Swept(evicted[META_FILE := MetaText(MetaOf(p, session, snap, now, kept))], FilesOf(kept))
  }

  // ---- reading ----

  datatype RestoredTable = RestoredTable(kind: string, parents: seq<string>, filter: Option<string>,
                                         rows: seq<Value>, total: Option<nat>, at: nat)

  datatype Restored = Restored(written: nat, identity: Identity, pins: map<string, string>,
                               namespaces: seq<Namespace>, names: seq<(string, string)>, tables: seq<RestoredTable>)

  predicate HasId(row: Value, key: string) {
    var id := Lookup(row, key);
    id.Some? && id.value.String? && id.value.s != ""
  }

  function WithIds(rows: seq<Value>, key: string): seq<Value> {
    if rows == [] then [] else (if HasId(rows[0], key) then [rows[0]] else []) + WithIds(rows[1..], key)
  }

  /** The catalog still knows the kind, would select the same columns, and declares the filter. */
  predicate Knows(p: Program, t: Table) {
    t.kind in p.kinds && t.select == p.kinds[t.kind].select && (t.filter.Some? ==> t.filter.value in p.filters)
  }

  function RestoredOf(p: Program, t: Table): RestoredTable
    requires Knows(p, t)
  {
    RestoredTable(t.kind, t.parents, t.filter, WithIds(t.rows, p.kinds[t.kind].extIdKey), t.total, t.at)
  }

  /** What becomes of one record: its file is not there, is thrown away, or gives a table. */
  datatype Outcome = Missing | Drop | Take(table: RestoredTable)

  predicate Vouches(session: string, r: Record, f: TableFile) {
    f.format == FORMAT && f.session == session &&
    f.table.kind == r.kind && f.table.parents == r.parents && f.table.filter == r.filter
  }

  function ReadRecord(p: Program, session: string, files: Files, r: Record): Outcome {
    if r.kind !in p.kinds then Drop
    else if r.file !in files then Missing
    else
      var content := files[r.file];
      if !content.TableText? || !Vouches(session, r, content.file) || !Knows(p, content.file.table) then Drop
      else Take(RestoredOf(p, content.file.table))
  }

  function FilesAfter(files: Files, r: Record, o: Outcome): Files {
    if o.Drop? then files - {r.file} else files
  }

  /** The records one after the other: a file thrown away is gone for the next. */
  function ReadRecords(p: Program, session: string, files: Files, rs: seq<Record>): (Files, seq<RestoredTable>)
    decreases |rs|
  {
    if rs == [] then (files, [])
    else
      var o := ReadRecord(p, session, files, rs[0]);
      var rest := ReadRecords(p, session, FilesAfter(files, rs[0], o), rs[1..]);
      (rest.0, (if o.Take? then [o.table] else []) + rest.1)
  }

  function SaturatingSub(a: nat, b: nat): nat { if a < b then 0 else a - b }

  /** Whether a meta may be used; when it may not, everything but the history goes. */
  predicate IsUsable(p: Program, m: Meta, target: Identity, now: nat, maxAge: nat) {
    m.format == FORMAT && m.appVersion == p.version && SameTarget(m.identity, target) &&
    SaturatingSub(now, m.written) <= maxAge
  }

  function Discarded(files: Files): Files {
    map name | name in files && name == HISTORY_FILE :: files[name]
  }

  function ReadBack(p: Program, files: Files, target: Identity, now: nat, maxAge: nat): (Files, Option<Restored>) {
    var meta := MetaIn(files);
    if meta.None? then (Discarded(files), None)
    else if meta.value.format > FORMAT then (files, None)
    else if !IsUsable(p, meta.value, target, now, maxAge) then (Discarded(files), None)
    else
      var m := meta.value;
      var r := ReadRecords(p, m.session, files, m.tables);
      (r.0, Some(Restored(m.written, m.identity, m.pins, m.namespaces, m.names, r.1)))
  }

  // ---- the directory ----

  lemma PutStep(p: Program, session: string, files: Files, tables: seq<Table>, i: nat)
    requires i < |tables|
    ensures PutAll(p, session, files, tables[i..]) ==
              PutAll(p, session, Put(p, session, files, tables[i]), tables[i + 1..])
    ensures Records(p, session, tables[i..]) ==
              (if FitsAFile(p, session, tables[i]) then [RecordFor(p, session, tables[i])] else [])
              + Records(p, session, tables[i + 1..])
  {
    assert tables[i..][0] == tables[i] && tables[i..][1..] == tables[i + 1..];
    hide FitsAFile, Put, RecordFor;
  }

  lemma EvictStep(rs: seq<Record>, i: nat, total: nat)
    requires i < |rs|
    ensures total + rs[i].bytes > MAX_DIR_BYTES ==>
              Kept(rs[i..], total) == Kept(rs[i + 1..], total) &&
              Evictees(rs[i..], total) == {rs[i].file} + Evictees(rs[i + 1..], total)
    ensures total + rs[i].bytes <= MAX_DIR_BYTES ==>
              Kept(rs[i..], total) == [rs[i]] + Kept(rs[i + 1..], total + rs[i].bytes) &&
              Evictees(rs[i..], total) == Evictees(rs[i + 1..], total + rs[i].bytes)
  {
    assert rs[i..][0] == rs[i] && rs[i..][1..] == rs[i + 1..];
  }

  lemma ReadStep(p: Program, session: string, files: Files, rs: seq<Record>, i: nat)
    requires i < |rs|
    ensures var o := ReadRecord(p, session, files, rs[i]);
            var rest := ReadRecords(p, session, FilesAfter(files, rs[i], o), rs[i + 1..]);
            && ReadRecords(p, session, files, rs[i..]).0 == rest.0
            && (o.Take? ==> ReadRecords(p, session, files, rs[i..]).1 == [o.table] + rest.1)
            && (!o.Take? ==> ReadRecords(p, session, files, rs[i..]).1 == rest.1)
  {
    assert rs[i..][0] == rs[i] && rs[i..][1..] == rs[i + 1..];
    hide ReadRecord, FilesAfter;
  }

  /** A directory of one context. */
  class Directory {
    var files: Files

    constructor ()
      ensures files == map[]
    {
      files := map[];
    }

    /** The table files, one by one. */
    method PutTables(p: Program, session: string, tables: seq<Table>) returns (records: seq<Record>)
      modifies this
      ensures files == PutAll(p, session, old(files), tables)
      ensures records == Records(p, session, tables)
    {
      records := [];
      assert tables[0..] == tables;
      hide FitsAFile, RecordFor, FileOf;
      var i := 0;
      while i < |tables|
        invariant 0 <= i <= |tables|
        invariant PutAll(p, session, files, tables[i..]) == PutAll(p, session, old(files), tables)
        invariant records + Records(p, session, tables[i..]) == Records(p, session, tables)
      {
        var t := tables[i];
        PutStep(p, session, files, tables, i);
        if FitsAFile(p, session, t) {
          var r := RecordFor(p, session, t);
          files := files[r.file := TableText(FileOf(t, session))];
          records := records + [r];
        }
        i := i + 1;
      }
      assert tables[i..] == [];
    }

    /** Over the cap, whole files go. */
    method Evict(rs: seq<Record>) returns (kept: seq<Record>)
      modifies this
      ensures kept == Kept(rs, 0)
      ensures files == old(files) - Evictees(rs, 0)
    {
      kept := [];
      assert rs[0..] == rs;
      var total: nat := 0;
      var i := 0;
      while i < |rs|
        invariant 0 <= i <= |rs|
        invariant kept + Kept(rs[i..], total) == Kept(rs, 0)
        invariant files - Evictees(rs[i..], total) == old(files) - Evictees(rs, 0)
      {
        EvictStep(rs, i, total);
        if total + rs[i].bytes > MAX_DIR_BYTES {
          Removing(files, rs[i].file, Evictees(rs[i + 1..], total));
          files := files - {rs[i].file};
        } else {
          total := total + rs[i].bytes;
          kept := kept + [rs[i]];
        }
        i := i + 1;
      }
      assert rs[i..] == [];
      assert files - {} == files;
    }

    /** Unlink every table file that is not named, whatever order the directory lists them in. */
    method Sweep(named: set<string>)
      modifies this
      ensures files == Swept(old(files), named)
    {
      var names := files.Keys;
      while names != {}
        invariant names <= old(files).Keys
        invariant files ==
                    map name | name in old(files) && (name in names || !(IsTableName(name) && name !in named))
                      :: old(files)[name]
        decreases |names|
      {
        var name :| name in names;
        names := names - {name};
        if IsTableName(name) && name !in named {
          files := files - {name};
        }
      }
    }

    method Write(p: Program, session: string, snap: Snapshot, now: nat)
      modifies this
      ensures files == Written(p, session, old(files), snap, now)
    {
      if IsNewer(files) {
        return;
      }
      hide Swept, PutAll, Records, Kept, Evictees, MetaOf, Sorted;
      var records := PutTables(p, session, snap.tables);
      var kept := Evict(NewestFirst(records));
      files := files[META_FILE := MetaText(MetaOf(p, session, snap, now, kept))];
      Sweep(FilesOf(kept));
    }

    method Discard()
      modifies this
      ensures files == Discarded(old(files))
    {
      files := map name | name in files && name == HISTORY_FILE :: files[name];
    }

    method Read(p: Program, target: Identity, now: nat, maxAge: nat) returns (r: Option<Restored>)
      modifies this
      ensures (files, r) == ReadBack(p, old(files), target, now, maxAge)
    {
      var meta := MetaIn(files);
      if meta.None? {
        Discard();
        return None;
      }
      var m := meta.value;
      if m.format > FORMAT {
        return None;
      }
      if m.format != FORMAT || m.appVersion != p.version || !SameTarget(m.identity, target)
        || SaturatingSub(now, m.written) > maxAge {
        Discard();
        return None;
      }
      var tables := ReadTables(p, m.session, m.tables);
      r := Some(Restored(m.written, m.identity, m.pins, m.namespaces, m.names, tables));
    }

    /** The loop over the meta's records. */
    method ReadTables(p: Program, session: string, rs: seq<Record>) returns (tables: seq<RestoredTable>)
      modifies this
      ensures files == ReadRecords(p, session, old(files), rs).0
      ensures tables == ReadRecords(p, session, old(files), rs).1
    {
      tables := [];
      ghost var all := ReadRecords(p, session, files, rs);
      assert rs[0..] == rs;
      hide Vouches, Knows, RestoredOf, ReadRecords;
      var i := 0;
      while i < |rs|
        invariant 0 <= i <= |rs|
        invariant ReadRecords(p, session, files, rs[i..]).0 == all.0
        invariant tables + ReadRecords(p, session, files, rs[i..]).1 == all.1
      {
        var r := rs[i];
        ReadStep(p, session, files, rs, i);
        i := i + 1;
        if r.kind !in p.kinds {
          files := files - {r.file};
          continue;
        }
        if r.file !in files {
          continue;
        }
        var content := files[r.file];
        if !content.TableText? || !Vouches(session, r, content.file) || !Knows(p, content.file.table) {
          files := files - {r.file};
          continue;
        }
        tables := tables + [RestoredOf(p, content.file.table)];
      }
      ReadNothing(p, session, files, rs[i..]);
    }
  }

  lemma ReadNothing(p: Program, session: string, files: Files, rs: seq<Record>)
    requires rs == []
    ensures ReadRecords(p, session, files, rs) == (files, [])
  {}

  lemma Removing(files: Files, name: string, more: set<string>)
    ensures files - ({name} + more) == files - {name} - more
  {}
}
