/**
 Whose cache is used, which tables come out of it and what a write records, in the fields of the files
 (`read` and `write` in `crates/core/src/cache.rs`).
 */
module CacheMeaning {
  import opened Wrappers
  import opened Json
  import Scrub
  import opened Cache
  import opened CacheLaws

  // ---- whose cache is used ----

  predicate HasMeta(files: Files) {
    "meta.json" in files && files["meta.json"].MetaText?
  }

  /** Written by this version in this format, for this host, port and account, and not too long ago. */
  predicate IsOurs(p: Program, m: Meta, target: Identity, now: nat, maxAge: nat) {
    && m.format == 1 && m.appVersion == p.version
    && m.identity.host == target.host && m.identity.port == target.port && m.identity.username == target.username
    && (m.written < now ==> now - m.written <= maxAge)
  }

  /** A directory is used exactly when its meta is ours; a newer one is left alone, and of any other
      nothing is left but the history. */
  lemma UsedIff(p: Program, files: Files, target: Identity, now: nat, maxAge: nat)
    ensures var (left, r) := ReadBack(p, files, target, now, maxAge);
            && (r.Some? <==> HasMeta(files) && IsOurs(p, files["meta.json"].meta, target, now, maxAge))
            && (HasMeta(files) && files["meta.json"].meta.format > 1 ==> left == files)
            && (r.None? && !(HasMeta(files) && files["meta.json"].meta.format > 1) ==>
                  (forall name :: name in left <==> name in files && name == "history.json") &&
                  (forall name :: name in left ==> left[name] == files[name]))
            && (r.Some? ==>
                  var m := files["meta.json"].meta;
                  && r.value.written == m.written && r.value.identity == m.identity && r.value.pins == m.pins
                  && r.value.namespaces == m.namespaces && r.value.names == m.names)
  {
    hide ReadRecords;
  }

  // ---- which tables come out of it ----

  /** The record's file is there, is of this format and of the meta's session, holds the record's kind,
      parents and filter, was written for the columns the catalog selects, and has no filter that the
      catalog lacks. */
  predicate Gives(p: Program, session: string, files: Files, r: Record) {
    && r.kind in p.kinds && r.file in files && files[r.file].TableText?
    && var f := files[r.file].file;
       && f.format == 1 && f.session == session
       && f.table.kind == r.kind && f.table.parents == r.parents && f.table.filter == r.filter
       && f.table.select == p.kinds[r.kind].select
       && (f.table.filter.Some? ==> f.table.filter.value in p.filters)
  }

  /** The table of a file, its rows those with an id under the kind's key. */
  function TableIn(p: Program, f: TableFile): RestoredTable
    requires f.table.kind in p.kinds
  {
    var t := f.table;
    RestoredTable(t.kind, t.parents, t.filter, WithIds(t.rows, p.kinds[t.kind].extIdKey), t.total, t.at)
  }

  /** One record: its table, nothing when the file is not there, and else the file is thrown away. */
  lemma RecordsRead(p: Program, session: string, files: Files, r: Record)
    ensures var o := ReadRecord(p, session, files, r);
            && (o.Take? <==> Gives(p, session, files, r))
            && (o.Take? ==> o.table == TableIn(p, files[r.file].file))
            && (o.Missing? <==> r.kind in p.kinds && r.file !in files)
  {
    hide WithIds;
  }

  /** No two records of a meta name one file. */
  predicate NamesOnce(m: Meta) {
    forall i, j :: 0 <= i < j < |m.tables| ==> m.tables[i].file != m.tables[j].file
  }

  lemma {:induction false} OnceIsDistinct(rs: seq<Record>)
    requires forall i, j :: 0 <= i < j < |rs| ==> rs[i].file != rs[j].file
    ensures DistinctFiles(rs)
  {
    if rs != [] {
      FilesOfMembers(rs[1..]);
      assert forall i :: 0 <= i < |rs[1..]| ==> rs[1..][i] == rs[i + 1];
      OnceIsDistinct(rs[1..]);
    }
  }

  lemma {:induction false} FilesLeft(p: Program, session: string, files: Files, rs: seq<Record>, name: string)
    requires DistinctFiles(rs)
    ensures var left := ReadRecords(p, session, files, rs).0;
            && (name in left <==>
                  name in files && forall r :: r in rs && r.file == name ==> Gives(p, session, files, r))
            && (name in left ==> left[name] == files[name])
    decreases |rs|
  {
    if rs != [] {
      var r, rest := rs[0], rs[1..];
      var o := ReadRecord(p, session, files, r);
      var next := FilesAfter(files, r, o);
      RecordsRead(p, session, files, r);
      FilesOfMembers(rest);
      FilesLeft(p, session, next, rest, name);
      forall x | x in rest ensures Gives(p, session, next, x) <==> Gives(p, session, files, x) {
        assert x.file != r.file;
      }
      assert forall x :: x in rs <==> x == r || x in rest;
      if r.file == name {
        assert forall x :: x in rest ==> x.file != name;
      }
      hide Gives, ReadRecord, ReadRecords, FilesOf;
      assert ReadRecords(p, session, files, rs).0 == ReadRecords(p, session, next, rest).0 by {
        ReadStep(p, session, files, rs, 0);
        assert rs[0..] == rs;
      }
    }
  }

  /** What a directory that is used gives and keeps: the tables of the records that give one, and every
      file but those of the records that do not. */
  lemma TablesRead(p: Program, files: Files, target: Identity, now: nat, maxAge: nat)
    requires HasMeta(files) && IsOurs(p, files["meta.json"].meta, target, now, maxAge)
    requires NamesOnce(files["meta.json"].meta)
    ensures var m := files["meta.json"].meta;
            var (left, r) := ReadBack(p, files, target, now, maxAge);
            && r.Some?
            && (forall x :: x in r.value.tables <==>
                  exists e :: e in m.tables && Gives(p, m.session, files, e) && x == TableIn(p, files[e.file].file))
            && (forall name :: name in left <==>
                  name in files && forall e :: e in m.tables && e.file == name ==> Gives(p, m.session, files, e))
            && (forall name :: name in left ==> left[name] == files[name])
  {
    var m := files["meta.json"].meta;
    UsedIff(p, files, target, now, maxAge);
    OnceIsDistinct(m.tables);
    ReadingCollects(p, m.session, files, m.tables);
    assert ReadBack(p, files, target, now, maxAge).0 == ReadRecords(p, m.session, files, m.tables).0;
    assert ReadBack(p, files, target, now, maxAge).1.value.tables == ReadRecords(p, m.session, files, m.tables).1;
    hide ReadBack, ReadRecords, ReadRecord, Gives, IsOurs, Collected, TableIn, DistinctFiles;
    forall name
      ensures var left := ReadBack(p, files, target, now, maxAge).0;
              && (name in left <==>
                    name in files && forall e :: e in m.tables && e.file == name ==> Gives(p, m.session, files, e))
              && (name in left ==> left[name] == files[name])
    {
      FilesLeft(p, m.session, files, m.tables, name);
    }
    forall x
      ensures x in Collected(p, m.session, files, m.tables) <==>
              exists e :: e in m.tables && Gives(p, m.session, files, e) && x == TableIn(p, files[e.file].file)
    {
      CollectedFrom(p, m.session, files, m.tables, x);
      forall e ensures ReadRecord(p, m.session, files, e) == Take(x) <==>
                         Gives(p, m.session, files, e) && x == TableIn(p, files[e.file].file) {
        RecordsRead(p, m.session, files, e);
      }
    }
  }

  // ---- rows, namespaces and names ----

  /** Of the rows those whose id is a text that is not empty, in their order. */
  lemma {:induction false} RowsKeepTheirIds(a: seq<Value>, b: seq<Value>, row: Value, key: string)
    ensures WithIds([], key) == []
    ensures WithIds([row], key) ==
              if exists id :: id != "" && Lookup(row, key) == Some(String(id)) then [row] else []
    ensures WithIds(a + b, key) == WithIds(a, key) + WithIds(b, key)
  {
    if HasId(row, key) {
      var id := Lookup(row, key).value.s;
      assert id != "" && Lookup(row, key) == Some(String(id));
    }
    assert [row][1..] == [];
    if a == [] {
      assert a + b == b;
    } else {
      assert (a + b)[1..] == a[1..] + b;
      RowsKeepTheirIds(a[1..], b, row, key);
    }
  }

  /** Of the namespaces those that answered, in their order. */
  lemma {:induction false} OkNamespaces(a: seq<Namespace>, b: seq<Namespace>, n: Namespace)
    ensures OnlyOk([]) == [] && OnlyOk([n]) == if n.ok then [n] else []
    ensures OnlyOk(a + b) == OnlyOk(a) + OnlyOk(b)
  {
    assert [n][1..] == [];
    if a == [] {
      assert a + b == b;
    } else {
      assert (a + b)[1..] == a[1..] + b;
      OkNamespaces(a[1..], b, n);
    }
  }

  /** The first items, all of them when there are no more. */
  lemma FirstItems<A>(s: seq<A>, n: nat)
    ensures First(s, n) <= s && |First(s, n)| == if |s| < n then |s| else n
  {}

  // ---- what a write records ----

  /** What the record of a table says. */
  predicate Describes(p: Program, session: string, r: Record, t: Table) {
    && r.file == "t-" + p.hex(TableKey(t.kind, t.parents, t.filter)) + ".json"
    && r.kind == t.kind && r.parents == t.parents && r.filter == t.filter && r.select == t.select
    && r.total == t.total && r.at == t.at && r.rows == (if |t.rows| < 2000 then |t.rows| else 2000)
    && r.bytes == p.size(FileOf(t, session))
  }

  /** What the file of a table holds. */
  predicate IsFileOf(f: TableFile, session: string, t: Table) {
    && f.format == 1 && f.session == session && f.table == t.(rows := f.table.rows)
    && |f.table.rows| == (if |t.rows| < 2000 then |t.rows| else 2000)
    && forall i :: 0 <= i < |f.table.rows| ==> f.table.rows[i] == Scrub.Scrubbed(t.rows[i])
  }

  lemma OneTableWritten(p: Program, session: string, t: Table)
    ensures IsFileOf(FileOf(t, session), session, t)
    ensures Describes(p, session, RecordFor(p, session, t), t)
    ensures FitsAFile(p, session, t) <==> p.size(FileOf(t, session)) <= 2097152
  {
    FirstItems(t.rows, 2000);
  }

  /** The meta of a write, field by field, and a record of it for each table that survives. */
  lemma MetaDescribes(p: Program, session: string, files: Files, snap: Snapshot, now: nat)
    requires !IsNewer(files) && DistinctFiles(Records(p, session, snap.tables))
    ensures var d := Written(p, session, files, snap, now);
            && HasMeta(d)
            && var m := d["meta.json"].meta;
               && m.format == 1 && m.written == now && m.session == session && m.appVersion == p.version
               && m.identity == snap.identity && m.pins == snap.pins && m.namespaces == OnlyOk(snap.namespaces)
               && m.names <= snap.names
               && |m.names| == (if |snap.names| < 20000 then |snap.names| else 20000)
               && NamesOnce(m)
               && (forall t :: t in snap.tables && Survives(p, session, snap.tables, t) ==>
                     exists r :: r in m.tables && Describes(p, session, r, t))
               && (forall r :: r in m.tables ==>
                     exists t :: t in snap.tables && Survives(p, session, snap.tables, t) &&
                                 Describes(p, session, r, t) && r.file in d && d[r.file].TableText? &&
                                 IsFileOf(d[r.file].file, session, t))
  {
    var d, kept := Written(p, session, files, snap, now), KeptOf(p, session, snap.tables);
    MetaIsThere(p, session, files, snap, now);
    FirstItems(snap.names, 20000);
    SortedKeeps(kept, NamedAfter);
    KeptFilesAreDistinct(p, session, snap.tables);
    var m := d["meta.json"].meta;
    assert m.tables == ByFile(kept);
    forall i, j | 0 <= i < j < |m.tables| ensures m.tables[i].file != m.tables[j].file {
      DistinctAhead(m.tables, i, j);
    }
    assert forall t :: Survives(p, session, snap.tables, t) ==> RecordFor(p, session, t) in kept;
    hide Written, KeptOf, Records, Survives, RecordFor, FileOf, Sorted, Describes, IsFileOf, DistinctFiles;
    forall t | t in snap.tables && Survives(p, session, snap.tables, t)
      ensures exists r :: r in m.tables && Describes(p, session, r, t)
    {
      OneTableWritten(p, session, t);
      assert RecordFor(p, session, t) in m.tables;
    }
    forall r | r in m.tables
      ensures exists t :: t in snap.tables && Survives(p, session, snap.tables, t) && Describes(p, session, r, t) &&
                          r.file in d && d[r.file].TableText? && IsFileOf(d[r.file].file, session, t)
    {
      var t := KeptAreSurvivors(p, session, snap.tables, r);
      SurvivorIsThere(p, session, files, snap, now, t);
      OneTableWritten(p, session, t);
    }
  }
}
