/** What a cache directory gives back: the round trip, the caps, and what is never touched. */
module CacheLaws {
  import opened Wrappers
  import opened Text
  import opened Json
  import opened Scrub
  import opened Cache

  // ---- records of distinct files ----

  predicate DistinctFiles(rs: seq<Record>) {
    rs != [] ==> rs[0].file !in FilesOf(rs[1..]) && DistinctFiles(rs[1..])
  }

  lemma {:induction false} FilesOfMembers(rs: seq<Record>)
    ensures forall r :: r in rs ==> r.file in FilesOf(rs)
    ensures forall name :: name in FilesOf(rs) ==> exists i :: 0 <= i < |rs| && rs[i].file == name
  {
    if rs != [] {
      FilesOfMembers(rs[1..]);
      forall name | name in FilesOf(rs) ensures exists i :: 0 <= i < |rs| && rs[i].file == name {
        if name == rs[0].file {
          assert rs[0].file == name;
        } else {
          var i :| 0 <= i < |rs[1..]| && rs[1..][i].file == name;
          assert rs[i + 1].file == name;
        }
      }
    }
  }

  lemma {:induction false} InsertedKeeps(r: Record, rs: seq<Record>, after: (Record, Record) -> bool)
    ensures FilesOf(Inserted(r, rs, after)) == {r.file} + FilesOf(rs)
    ensures DistinctFiles(Inserted(r, rs, after)) <==> r.file !in FilesOf(rs) && DistinctFiles(rs)
    ensures forall x :: x in Inserted(r, rs, after) <==> x == r || x in rs
    ensures multiset(Inserted(r, rs, after)) == multiset{r} + multiset(rs)
  {
    if rs == [] || !after(r, rs[0]) {
      assert ([r] + rs)[1..] == rs;
    } else {
      InsertedKeeps(r, rs[1..], after);
      assert Inserted(r, rs, after)[1..] == Inserted(r, rs[1..], after);
      assert rs == [rs[0]] + rs[1..];
    }
  }

  /** Sorting only moves records. */
  lemma {:induction false} SortedKeeps(rs: seq<Record>, after: (Record, Record) -> bool)
    ensures FilesOf(Sorted(rs, after)) == FilesOf(rs)
    ensures DistinctFiles(Sorted(rs, after)) <==> DistinctFiles(rs)
    ensures forall x :: x in Sorted(rs, after) <==> x in rs
    ensures multiset(Sorted(rs, after)) == multiset(rs)
  {
    if rs != [] {
      SortedKeeps(rs[1..], after);
      InsertedKeeps(rs[0], Sorted(rs[1..], after), after);
      assert rs == [rs[0]] + rs[1..];
    }
  }

  lemma {:induction false} NewestFirstSorts(rs: seq<Record>)
    ensures forall i, j :: 0 <= i < j < |NewestFirst(rs)| ==> NewestFirst(rs)[i].at >= NewestFirst(rs)[j].at
  {
    if rs != [] {
      NewestFirstSorts(rs[1..]);
      InsertedInOrder(rs[0], NewestFirst(rs[1..]));
    }
  }

  lemma {:induction false} InsertedInOrder(r: Record, rs: seq<Record>)
    requires forall i, j :: 0 <= i < j < |rs| ==> rs[i].at >= rs[j].at
    ensures var s := Inserted(r, rs, Older); forall i, j :: 0 <= i < j < |s| ==> s[i].at >= s[j].at
    ensures Inserted(r, rs, Older) != []
    ensures Inserted(r, rs, Older)[0] == r || (rs != [] && Inserted(r, rs, Older)[0] == rs[0] && rs[0].at > r.at)
  {
    if rs != [] && Older(r, rs[0]) {
      InsertedInOrder(r, rs[1..]);
      InsertedKeeps(r, rs[1..], Older);
      var s, t := Inserted(r, rs, Older), Inserted(r, rs[1..], Older);
      assert s == [rs[0]] + t;
      forall j | 0 <= j < |t| ensures rs[0].at >= t[j].at {
        assert t[j] in t;
      }
    }
  }

  lemma {:induction false} CompareMirrored(a: seq<int>, b: seq<int>)
    ensures Compare(a, b) == Less <==> Compare(b, a) == Greater
  {
    if a != [] && b != [] && a[0] == b[0] {
      CompareMirrored(a[1..], b[1..]);
    }
  }

  lemma {:induction false} CompareThrough(a: seq<int>, b: seq<int>, c: seq<int>)
    requires Compare(a, b) == Less && Compare(b, c) == Less
    ensures Compare(a, c) == Less
  {
    if a != [] && a[0] == b[0] && b[0] == c[0] {
      CompareThrough(a[1..], b[1..], c[1..]);
    }
  }

  predicate NameBefore(x: string, y: string) { CompareText(x, y) == Less }

  /** Two file names are in one order or the other. */
  lemma NamesAreOrdered(x: string, y: string)
    ensures NameBefore(x, y) <==> CompareText(y, x) == Greater
    ensures x != y ==> NameBefore(x, y) || NameBefore(y, x)
  {
    CompareMirrored(Utf8(x), Utf8(y));
    CompareMirrored(Utf8(y), Utf8(x));
    CompareEqual(Utf8(x), Utf8(y));
    if Utf8(x) == Utf8(y) {
      Utf8Injective(x, y);
    }
  }

  lemma NamesInLine(x: string, y: string, z: string)
    requires NameBefore(x, y) && NameBefore(y, z)
    ensures NameBefore(x, z)
  {
    CompareThrough(Utf8(x), Utf8(y), Utf8(z));
  }

  /** Each file name before all that follow. */
  predicate InNameOrder(rs: seq<Record>) {
    forall i, j :: 0 <= i < j < |rs| ==> NameBefore(rs[i].file, rs[j].file)
  }

  lemma {:induction false} InsertedByName(r: Record, rs: seq<Record>)
    requires InNameOrder(rs) && r.file !in FilesOf(rs)
    ensures InNameOrder(Inserted(r, rs, NamedAfter))
  {
    FilesOfMembers(rs);
    hide FilesOf, CompareText;
    if rs != [] {
      NamesAreOrdered(r.file, rs[0].file);
      NamesAreOrdered(rs[0].file, r.file);
      if NamedAfter(r, rs[0]) {
        var t := Inserted(r, rs[1..], NamedAfter);
        RestOfFiles(rs, r.file);
        InsertedByName(r, rs[1..]);
        InsertedKeeps(r, rs[1..], NamedAfter);
        forall j | 0 <= j < |t| ensures NameBefore(rs[0].file, t[j].file) {
          assert t[j] in t;
          if t[j] != r {
            var k :| 0 <= k < |rs[1..]| && rs[1..][k] == t[j];
            assert rs[k + 1] == t[j];
          }
        }
        assert Inserted(r, rs, NamedAfter) == [rs[0]] + t;
      } else {
        forall j | 0 <= j < |rs| ensures NameBefore(r.file, rs[j].file) {
          if j > 0 {
            NamesInLine(r.file, rs[0].file, rs[j].file);
          }
        }
      }
    }
  }

  lemma RestOfFiles(rs: seq<Record>, name: string)
    requires rs != [] && name !in FilesOf(rs)
    ensures name !in FilesOf(rs[1..]) && name != rs[0].file
  {}

  lemma {:induction false} ByFileSorts(rs: seq<Record>)
    requires DistinctFiles(rs)
    ensures InNameOrder(ByFile(rs))
  {
    if rs != [] {
      ByFileSorts(rs[1..]);
      SortedKeeps(rs[1..], NamedAfter);
      InsertedByName(rs[0], ByFile(rs[1..]));
      hide InNameOrder, FilesOf;
    }
  }

  function Stamped(rs: seq<Record>, at: nat): seq<Record> {
    if rs == [] then [] else (if rs[0].at == at then [rs[0]] else []) + Stamped(rs[1..], at)
  }

  lemma {:induction false} InsertedStably(r: Record, rs: seq<Record>, at: nat)
    ensures Stamped(Inserted(r, rs, Older), at) == (if r.at == at then [r] else []) + Stamped(rs, at)
  {
    if rs == [] || !Older(r, rs[0]) {
      assert ([r] + rs)[1..] == rs;
    } else {
      InsertedStably(r, rs[1..], at);
      assert Inserted(r, rs, Older)[1..] == Inserted(r, rs[1..], Older);
    }
  }

  /** Tables of one age stay in the order the snapshot has them. */
  lemma {:induction false} NewestFirstIsStable(rs: seq<Record>, at: nat)
    ensures Stamped(NewestFirst(rs), at) == Stamped(rs, at)
  {
    if rs != [] {
      NewestFirstIsStable(rs[1..], at);
      InsertedStably(rs[0], NewestFirst(rs[1..]), at);
    }
  }

  // ---- eviction ----

  /** The bytes of the records before `i` that stay. */
  function BytesBefore(rs: seq<Record>, i: nat): nat
    requires i <= |rs|
    decreases i, 0
  {
    if i == 0 then 0 else BytesBefore(rs, i - 1) + if Stays(rs, i - 1) then rs[i - 1].bytes else 0
  }

  /** A record stays exactly when it fits beside the newer ones that do. */
  predicate Stays(rs: seq<Record>, i: nat)
    requires i < |rs|
    decreases i, 1
  {
    BytesBefore(rs, i) + rs[i].bytes <= MAX_DIR_BYTES
  }

  lemma {:induction false} KeptAreSome(rs: seq<Record>, total: nat)
    ensures forall r :: r in Kept(rs, total) ==> r in rs
    ensures FilesOf(rs) == FilesOf(Kept(rs, total)) + Evictees(rs, total)
    ensures DistinctFiles(rs) ==> DistinctFiles(Kept(rs, total)) && FilesOf(Kept(rs, total)) !! Evictees(rs, total)
  {
    if rs != [] {
      if total + rs[0].bytes > MAX_DIR_BYTES {
        KeptAreSome(rs[1..], total);
      } else {
        KeptAreSome(rs[1..], total + rs[0].bytes);
        assert Kept(rs, total)[1..] == Kept(rs[1..], total + rs[0].bytes);
      }
    }
  }

  lemma {:induction false} DistinctAhead(rs: seq<Record>, k: nat, i: nat)
    requires DistinctFiles(rs) && k < i < |rs|
    ensures rs[k] != rs[i] && rs[k].file != rs[i].file
    decreases k
  {
    FilesOfMembers(rs[1..]);
    assert rs[i] == rs[1..][i - 1];
    if k > 0 {
      DistinctAhead(rs[1..], k - 1, i - 1);
    }
  }

  lemma {:induction false} KeptFrom(rs: seq<Record>, k: nat, i: nat)
    requires DistinctFiles(rs) && k <= i < |rs|
    ensures rs[i] in Kept(rs[k..], BytesBefore(rs, k)) <==> Stays(rs, i)
    decreases i - k
  {
    var total := BytesBefore(rs, k);
    EvictStep(rs, k, total);
    if k < i {
      DistinctAhead(rs, k, i);
      KeptFrom(rs, k + 1, i);
    } else {
      var next := if Stays(rs, i) then total + rs[i].bytes else total;
      KeptAreSome(rs[i + 1..], next);
      forall j | i < j < |rs| ensures rs[j] != rs[i] {
        DistinctAhead(rs, i, j);
      }
    }
  }

  /** Newest first, a record stays exactly when its bytes and those of the newer ones that stay are
      within the cap. */
  lemma KeptIffItFits(rs: seq<Record>, i: nat)
    requires DistinctFiles(rs) && i < |rs|
    ensures rs[i] in Kept(rs, 0) <==> BytesBefore(rs, i) + rs[i].bytes <= MAX_DIR_BYTES
  {
    KeptFrom(rs, 0, i);
    assert rs[0..] == rs;
  }

  function Bytes(rs: seq<Record>): nat {
    if rs == [] then 0 else rs[0].bytes + Bytes(rs[1..])
  }

  /** What stays is within the cap, and everything stays that is within it together. */
  lemma {:induction false} KeptFitTheCap(rs: seq<Record>, total: nat)
    requires total <= MAX_DIR_BYTES
    ensures total + Bytes(Kept(rs, total)) <= MAX_DIR_BYTES
    ensures total + Bytes(rs) <= MAX_DIR_BYTES <==> Kept(rs, total) == rs
  {
    if rs != [] {
      if total + rs[0].bytes > MAX_DIR_BYTES {
        KeptFitTheCap(rs[1..], total);
        KeptAreShorter(rs[1..], total);
      } else {
        KeptFitTheCap(rs[1..], total + rs[0].bytes);
        assert Kept(rs, total)[1..] == Kept(rs[1..], total + rs[0].bytes);
        assert rs == [rs[0]] + rs[1..];
      }
    }
  }

  lemma {:induction false} KeptAreShorter(rs: seq<Record>, total: nat)
    ensures |Kept(rs, total)| <= |rs|
  {
    if rs != [] {
      if total + rs[0].bytes > MAX_DIR_BYTES {
        KeptAreShorter(rs[1..], total);
      } else {
        KeptAreShorter(rs[1..], total + rs[0].bytes);
      }
    }
  }

  // ---- names ----

  lemma FixedNames()
    ensures !IsTableName(META_FILE) && !IsTableName(HISTORY_FILE) && META_FILE != HISTORY_FILE
  {
    assert META_FILE[0] == 'm' && HISTORY_FILE[0] == 'h';
  }

  lemma TableNamesAreTables(p: Program, kind: string, parents: seq<string>, filter: Option<string>)
    ensures IsTableName(TableFileName(p, kind, parents, filter))
    ensures TableFileName(p, kind, parents, filter) != META_FILE &&
              TableFileName(p, kind, parents, filter) != HISTORY_FILE
  {
    var name := TableFileName(p, kind, parents, filter);
    assert name == "t-" + (p.hex(TableKey(kind, parents, filter)) + ".json");
    assert name[0] == 't';
    assert name[|name| - 5..] == ".json";
  }

  lemma {:induction false} RecordNamesAreTables(p: Program, session: string, tables: seq<Table>, name: string)
    requires name in FilesOf(Records(p, session, tables))
    ensures IsTableName(name) && name != META_FILE && name != HISTORY_FILE
  {
    var t := tables[0];
    if FitsAFile(p, session, t) {
      var r := RecordFor(p, session, t);
      assert Records(p, session, tables)[1..] == Records(p, session, tables[1..]);
      if name == r.file {
        TableNamesAreTables(p, t.kind, t.parents, t.filter);
      } else {
        RecordNamesAreTables(p, session, tables[1..], name);
      }
    } else {
      assert Records(p, session, tables) == Records(p, session, tables[1..]);
      RecordNamesAreTables(p, session, tables[1..], name);
    }
  }

  // ---- what was put is there ----

  lemma {:induction false} PutElsewhere(p: Program, session: string, files: Files, tables: seq<Table>, name: string)
    requires name !in FilesOf(Records(p, session, tables))
    ensures name in PutAll(p, session, files, tables) <==> name in files
    ensures name in files ==> PutAll(p, session, files, tables)[name] == files[name]
    decreases |tables|
  {
    if tables != [] {
      var rs, rest := Records(p, session, tables), Records(p, session, tables[1..]);
      assert FitsAFile(p, session, tables[0]) ==> rs[0] == RecordFor(p, session, tables[0]) && rs[1..] == rest;
      assert !FitsAFile(p, session, tables[0]) ==> rs == rest;
      hide FitsAFile, RecordFor, FileOf;
      PutElsewhere(p, session, Put(p, session, files, tables[0]), tables[1..], name);
    }
  }

  lemma {:induction false} PutIsThere(p: Program, session: string, files: Files, tables: seq<Table>, t: Table)
    requires DistinctFiles(Records(p, session, tables)) && t in tables && FitsAFile(p, session, t)
    ensures RecordFor(p, session, t) in Records(p, session, tables)
    ensures var name := RecordFor(p, session, t).file;
            var put := PutAll(p, session, files, tables);
            name in put && put[name] == TableText(FileOf(t, session))
    decreases |tables|
  {
    var rs, rest := Records(p, session, tables), Records(p, session, tables[1..]);
    assert FitsAFile(p, session, tables[0]) ==> rs[0] == RecordFor(p, session, tables[0]) && rs[1..] == rest;
    assert !FitsAFile(p, session, tables[0]) ==> rs == rest;
    hide FitsAFile, RecordFor, FileOf;
    var next := Put(p, session, files, tables[0]);
    if t in tables[1..] {
      PutIsThere(p, session, next, tables[1..], t);
    } else {
      assert t == tables[0];
      PutElsewhere(p, session, next, tables[1..], RecordFor(p, session, t).file);
    }
  }

  lemma {:induction false} RecordsAreOfTables(p: Program, session: string, tables: seq<Table>, r: Record)
      returns (t: Table)
    requires r in Records(p, session, tables)
    ensures t in tables && FitsAFile(p, session, t) && r == RecordFor(p, session, t)
  {
    var rs, rest := Records(p, session, tables), Records(p, session, tables[1..]);
    assert FitsAFile(p, session, tables[0]) ==> rs == [RecordFor(p, session, tables[0])] + rest;
    assert !FitsAFile(p, session, tables[0]) ==> rs == rest;
    hide FitsAFile, RecordFor, Records;
    if FitsAFile(p, session, tables[0]) && r == RecordFor(p, session, tables[0]) {
      t := tables[0];
    } else {
      t := RecordsAreOfTables(p, session, tables[1..], r);
    }
  }

  // ---- reading the records ----

  /** What the records give when no two of them name one file. */
  function Collected(p: Program, session: string, files: Files, rs: seq<Record>): seq<RestoredTable> {
    if rs == [] then []
    else
      var o := ReadRecord(p, session, files, rs[0]);
      (if o.Take? then [o.table] else []) + Collected(p, session, files, rs[1..])
  }

  lemma {:induction false} CollectedElsewhere(p: Program, session: string, files: Files, rs: seq<Record>, name: string)
    requires name !in FilesOf(rs)
    ensures Collected(p, session, files - {name}, rs) == Collected(p, session, files, rs)
  {
    if rs != [] {
      CollectedElsewhere(p, session, files, rs[1..], name);
      assert ReadRecord(p, session, files - {name}, rs[0]) == ReadRecord(p, session, files, rs[0]);
      hide ReadRecord;
    }
  }

  lemma {:induction false} ReadingCollects(p: Program, session: string, files: Files, rs: seq<Record>)
    requires DistinctFiles(rs)
    ensures ReadRecords(p, session, files, rs).1 == Collected(p, session, files, rs)
    decreases |rs|
  {
    if rs != [] {
      var o := ReadRecord(p, session, files, rs[0]);
      ReadingCollects(p, session, FilesAfter(files, rs[0], o), rs[1..]);
      CollectedElsewhere(p, session, files, rs[1..], rs[0].file);
      hide ReadRecord;
    }
  }

  lemma {:induction false} CollectedFrom(p: Program, session: string, files: Files, rs: seq<Record>, x: RestoredTable)
    ensures x in Collected(p, session, files, rs) <==>
              exists r :: r in rs && ReadRecord(p, session, files, r) == Take(x)
  {
    if rs != [] {
      CollectedFrom(p, session, files, rs[1..], x);
      hide ReadRecord;
      if x in Collected(p, session, files, rs[1..]) {
        var r :| r in rs[1..] && ReadRecord(p, session, files, r) == Take(x);
        assert r in rs;
      }
      if exists r :: r in rs && ReadRecord(p, session, files, r) == Take(x) {
        var r :| r in rs && ReadRecord(p, session, files, r) == Take(x);
        assert r == rs[0] || r in rs[1..];
      }
      assert rs[0] in rs;
    }
  }

  /** The record of a table that is on disk gives the table, when the catalog knows it, and nothing else. */
  lemma OwnRecordReads(p: Program, session: string, files: Files, t: Table)
    requires RecordFor(p, session, t).file in files
    requires files[RecordFor(p, session, t).file] == TableText(FileOf(t, session))
    ensures ReadRecord(p, session, files, RecordFor(p, session, t)) ==
              if Knows(p, t) then Take(AsKept(p, t)) else Drop
  {}

  /** A table as a later run gets it: the first rows, scrubbed, those with an id. */
  function AsKept(p: Program, t: Table): RestoredTable
    requires Knows(p, t)
  {
    RestoredTable(t.kind, t.parents, t.filter,
                  WithIds(ScrubbedItems(First(t.rows, MAX_ROWS_PER_TABLE)), p.kinds[t.kind].extIdKey), t.total, t.at)
  }

  /** The file a table was read from. */
  function NameOf(p: Program, x: RestoredTable): string {
    TableFileName(p, x.kind, x.parents, x.filter)
  }

  /** The tables come in the order of their files, so no two are one. */
  predicate InFileOrder(p: Program, xs: seq<RestoredTable>) {
    forall i, j :: 0 <= i < j < |xs| ==> NameBefore(NameOf(p, xs[i]), NameOf(p, xs[j]))
  }

  /** Each record gives the table its file is named for, or none. */
  predicate GivesItsOwn(p: Program, session: string, files: Files, rs: seq<Record>) {
    forall r :: r in rs ==>
      var o := ReadRecord(p, session, files, r);
      o.Take? ==> NameOf(p, o.table) == r.file
  }

  lemma {:induction false} CollectedInOrder(p: Program, session: string, files: Files, rs: seq<Record>)
    requires InNameOrder(rs) && GivesItsOwn(p, session, files, rs)
    ensures InFileOrder(p, Collected(p, session, files, rs))
    ensures forall x :: x in Collected(p, session, files, rs) ==>
              exists i :: 0 <= i < |rs| && rs[i].file == NameOf(p, x)
  {
    hide ReadRecord, NameOf, NameBefore;
    if rs != [] {
      var o, rest := ReadRecord(p, session, files, rs[0]), Collected(p, session, files, rs[1..]);
      assert forall i :: 0 <= i < |rs[1..]| ==> rs[1..][i] == rs[i + 1];
      CollectedInOrder(p, session, files, rs[1..]);
      forall x | x in rest
        ensures NameBefore(rs[0].file, NameOf(p, x)) && exists i :: 0 <= i < |rs| && rs[i].file == NameOf(p, x)
      {
        var i :| 0 <= i < |rs[1..]| && rs[1..][i].file == NameOf(p, x);
        assert rs[i + 1].file == NameOf(p, x);
      }
      assert rs[0] in rs && rs[0].file == rs[0].file;
      assert forall i :: 0 <= i < |rest| ==> rest[i] in rest;
    }
  }

  // ---- the round trip ----

  /** The table's text is under the table cap and the table is within the directory cap. */
  predicate Survives(p: Program, session: string, tables: seq<Table>, t: Table) {
    FitsAFile(p, session, t) && RecordFor(p, session, t) in KeptOf(p, session, tables)
  }

  lemma KeptFilesAreDistinct(p: Program, session: string, tables: seq<Table>)
    requires DistinctFiles(Records(p, session, tables))
    ensures var rs := NewestFirst(Records(p, session, tables));
            DistinctFiles(KeptOf(p, session, tables)) && FilesOf(KeptOf(p, session, tables)) !! Evictees(rs, 0)
    ensures forall r :: r in KeptOf(p, session, tables) ==> r in Records(p, session, tables)
    ensures FilesOf(KeptOf(p, session, tables)) <= FilesOf(Records(p, session, tables))
  {
    SortedKeeps(Records(p, session, tables), Older);
    KeptAreSome(NewestFirst(Records(p, session, tables)), 0);
  }

  /** A surviving table's file is there, and is its own. */
  lemma SurvivorIsThere(p: Program, session: string, files: Files, snap: Snapshot, now: nat, t: Table)
    requires !IsNewer(files) && DistinctFiles(Records(p, session, snap.tables))
    requires t in snap.tables && Survives(p, session, snap.tables, t)
    ensures var name, d := RecordFor(p, session, t).file, Written(p, session, files, snap, now);
            name in d && d[name] == TableText(FileOf(t, session))
  {
    var name, kept := RecordFor(p, session, t).file, KeptOf(p, session, snap.tables);
    PutIsThere(p, session, files, snap.tables, t);
    KeptFilesAreDistinct(p, session, snap.tables);
    FilesOfMembers(kept);
    RecordNamesAreTables(p, session, snap.tables, name);
    hide PutAll, Records, KeptOf, FileOf, RecordFor, FilesOf, Evictees, NewestFirst, MetaOf, IsTableName;
  }

  lemma MetaIsThere(p: Program, session: string, files: Files, snap: Snapshot, now: nat)
    requires !IsNewer(files)
    ensures MetaIn(Written(p, session, files, snap, now)) ==
              Some(MetaOf(p, session, snap, now, KeptOf(p, session, snap.tables)))
  {
    FixedNames();
    hide PutAll, Records, KeptOf, FilesOf, Evictees, NewestFirst, MetaOf, IsTableName;
  }

  /** A surviving record comes from a table of the snapshot. */
  lemma KeptAreSurvivors(p: Program, session: string, tables: seq<Table>, r: Record) returns (t: Table)
    requires DistinctFiles(Records(p, session, tables)) && r in KeptOf(p, session, tables)
    ensures t in tables && Survives(p, session, tables, t) && r == RecordFor(p, session, t)
  {
    KeptFilesAreDistinct(p, session, tables);
    t := RecordsAreOfTables(p, session, tables, r);
  }

  /** What a later run gets back: exactly the tables that fit both caps and that its catalog still
      knows, each once, as `AsKept` says, in the order of their files. */
  lemma RoundTrip(p: Program, session: string, files: Files, snap: Snapshot, now: nat,
                  target: Identity, later: nat, maxAge: nat)
    requires !IsNewer(files) && DistinctFiles(Records(p, session, snap.tables))
    requires SameTarget(snap.identity, target) && SaturatingSub(later, now) <= maxAge
    ensures var r := ReadBack(p, Written(p, session, files, snap, now), target, later, maxAge).1;
            && r.Some?
            && r.value.written == now && r.value.identity == snap.identity && r.value.pins == snap.pins
            && r.value.namespaces == OnlyOk(snap.namespaces) && r.value.names == First(snap.names, MAX_NAMES)
            && InFileOrder(p, r.value.tables)
            && forall x :: x in r.value.tables <==>
                 exists t :: t in snap.tables && Survives(p, session, snap.tables, t) && Knows(p, t) &&
                             x == AsKept(p, t)
  {
    var d, kept := Written(p, session, files, snap, now), KeptOf(p, session, snap.tables);
    var r := ReadBack(p, d, target, later, maxAge).1;
    MetaIsThere(p, session, files, snap, now);
    SortedKeeps(kept, NamedAfter);
    KeptFilesAreDistinct(p, session, snap.tables);
    ReadingCollects(p, session, d, ByFile(kept));
    assert r.Some? && r.value.tables == Collected(p, session, d, ByFile(kept));
    TablesComeInOrder(p, session, files, snap, now);
    forall x
      ensures x in r.value.tables <==>
              exists t :: t in snap.tables && Survives(p, session, snap.tables, t) && Knows(p, t) && x == AsKept(p, t)
    {
      OneTableBack(p, session, files, snap, now, x);
    }
    hide Written, ReadRecords, Collected, KeptOf, Records, Survives, Knows, ByFile, InFileOrder;
  }

  lemma TablesComeInOrder(p: Program, session: string, files: Files, snap: Snapshot, now: nat)
    requires !IsNewer(files) && DistinctFiles(Records(p, session, snap.tables))
    ensures var d := Written(p, session, files, snap, now);
            InFileOrder(p, Collected(p, session, d, ByFile(KeptOf(p, session, snap.tables))))
  {
    var d, kept := Written(p, session, files, snap, now), KeptOf(p, session, snap.tables);
    KeptFilesAreDistinct(p, session, snap.tables);
    ByFileSorts(kept);
    SortedKeeps(kept, NamedAfter);
    hide Written, KeptOf, Records, Sorted, ByFile, InFileOrder, InNameOrder, ReadRecord, RecordFor, FileOf, NameOf,
      AsKept, Knows;
    forall r | r in ByFile(kept)
      ensures var o := ReadRecord(p, session, d, r); o.Take? ==> NameOf(p, o.table) == r.file
    {
      var t := KeptAreSurvivors(p, session, snap.tables, r);
      SurvivorIsThere(p, session, files, snap, now, t);
      OwnRecordReads(p, session, d, t);
      OwnName(p, session, t);
    }
    CollectedInOrder(p, session, d, ByFile(kept));
  }

  lemma OwnName(p: Program, session: string, t: Table)
    ensures Knows(p, t) ==> NameOf(p, AsKept(p, t)) == RecordFor(p, session, t).file
  {}

  lemma OneTableBack(p: Program, session: string, files: Files, snap: Snapshot, now: nat, x: RestoredTable)
    requires !IsNewer(files) && DistinctFiles(Records(p, session, snap.tables))
    ensures x in Collected(p, session, Written(p, session, files, snap, now),
                           ByFile(KeptOf(p, session, snap.tables))) <==>
            exists t :: t in snap.tables && Survives(p, session, snap.tables, t) && Knows(p, t) && x == AsKept(p, t)
  {
    var d, kept := Written(p, session, files, snap, now), KeptOf(p, session, snap.tables);
    CollectedFrom(p, session, d, ByFile(kept), x);
    SortedKeeps(kept, NamedAfter);
    assert forall t :: Survives(p, session, snap.tables, t) ==> RecordFor(p, session, t) in kept;
    hide Written, Collected, KeptOf, Records, Survives, Knows, ReadRecord, RecordFor, FileOf, AsKept, Sorted;
    if x in Collected(p, session, d, ByFile(kept)) {
      var r :| r in ByFile(kept) && ReadRecord(p, session, d, r) == Take(x);
      var t := KeptAreSurvivors(p, session, snap.tables, r);
      SurvivorIsThere(p, session, files, snap, now, t);
      OwnRecordReads(p, session, d, t);
      assert Knows(p, t) && x == AsKept(p, t);
    }
    if t :| t in snap.tables && Survives(p, session, snap.tables, t) && Knows(p, t) && x == AsKept(p, t) {
      SurvivorIsThere(p, session, files, snap, now, t);
      OwnRecordReads(p, session, d, t);
      assert RecordFor(p, session, t) in ByFile(kept);
    }
  }

  // ---- what is on disk after a write ----

  lemma {:induction false} ScrubbedRowsAreClean(rows: seq<Value>)
    ensures forall i :: 0 <= i < |ScrubbedItems(rows)| ==> IsClean(ScrubbedItems(rows)[i])
  {
    forall i | 0 <= i < |ScrubbedItems(rows)| ensures IsClean(ScrubbedItems(rows)[i]) {
      ScrubsExactlySecrets(rows[i]);
      ScrubsExactlySecrets(Scrubbed(rows[i]));
    }
  }

  /** Every table file in the directory is a surviving table's: no table of an earlier run is left,
      none is over its cap, and none holds a secret. */
  lemma OnlySurvivorsAreLeft(p: Program, session: string, files: Files, snap: Snapshot, now: nat, name: string)
      returns (t: Table)
    requires !IsNewer(files) && DistinctFiles(Records(p, session, snap.tables))
    requires name in Written(p, session, files, snap, now) && IsTableName(name)
    ensures t in snap.tables && Survives(p, session, snap.tables, t) && name == RecordFor(p, session, t).file
    ensures Written(p, session, files, snap, now)[name] == TableText(FileOf(t, session))
    ensures p.size(FileOf(t, session)) <= 2097152
    ensures var rows := FileOf(t, session).table.rows;
            |rows| <= 2000 && forall i :: 0 <= i < |rows| ==> IsClean(rows[i])
  {
    var kept := KeptOf(p, session, snap.tables);
    assert name in FilesOf(kept) by {
      FixedNames();
      hide PutAll, Records, KeptOf, FilesOf, Evictees, NewestFirst, MetaOf, IsTableName;
    }
    FilesOfMembers(kept);
    var i :| 0 <= i < |kept| && kept[i].file == name;
    t := KeptAreSurvivors(p, session, snap.tables, kept[i]);
    SurvivorIsThere(p, session, files, snap, now, t);
    ScrubbedRowsAreClean(First(t.rows, MAX_ROWS_PER_TABLE));
    hide Written, KeptOf, Records, IsClean;
  }

  function NamesOf(rs: seq<Record>): (names: seq<string>)
    ensures |names| == |rs| && forall i :: 0 <= i < |rs| ==> names[i] == rs[i].file
  {
    seq(|rs|, i requires 0 <= i < |rs| => rs[i].file)
  }

  /** How long the texts of these files are together. */
  function SizeOf(p: Program, files: Files, names: seq<string>): nat {
    if names == [] then 0
    else (if names[0] in files && files[names[0]].TableText? then p.size(files[names[0]].file) else 0)
         + SizeOf(p, files, names[1..])
  }

  lemma {:induction false} SizesAreBytes(p: Program, files: Files, rs: seq<Record>)
    requires forall r :: r in rs ==>
               r.file in files && files[r.file].TableText? && p.size(files[r.file].file) == r.bytes
    ensures SizeOf(p, files, NamesOf(rs)) == Bytes(rs)
  {
    if rs != [] {
      SizesAreBytes(p, files, rs[1..]);
      assert NamesOf(rs)[1..] == NamesOf(rs[1..]);
      assert rs[0] in rs;
    }
  }

  lemma {:induction false} DistinctNames(rs: seq<Record>, i: nat, j: nat)
    requires DistinctFiles(rs) && i < j < |rs|
    ensures NamesOf(rs)[i] != NamesOf(rs)[j]
  {
    DistinctAhead(rs, i, j);
  }

  /** After a write the table files of the directory, each counted once, are within its cap together;
      and every table that fits a file is among them exactly when all of those fit together. */
  lemma TablesFitTheCap(p: Program, session: string, files: Files, snap: Snapshot, now: nat)
      returns (names: seq<string>)
    requires !IsNewer(files) && DistinctFiles(Records(p, session, snap.tables))
    ensures var d := Written(p, session, files, snap, now);
            && (forall i, j :: 0 <= i < j < |names| ==> names[i] != names[j])
            && (forall name :: name in names <==> name in d && IsTableName(name))
            && SizeOf(p, d, names) <= 16777216
    ensures Bytes(NewestFirst(Records(p, session, snap.tables))) <= 16777216 <==>
              KeptOf(p, session, snap.tables) == NewestFirst(Records(p, session, snap.tables))
  {
    var d, kept := Written(p, session, files, snap, now), KeptOf(p, session, snap.tables);
    names := NamesOf(kept);
    KeptFitTheCap(NewestFirst(Records(p, session, snap.tables)), 0);
    KeptFilesAreDistinct(p, session, snap.tables);
    hide Written, Records, KeptOf, RecordFor, FileOf, Survives, IsTableName, DistinctFiles;
    forall r | r in kept
      ensures r.file in d && IsTableName(r.file) && d[r.file].TableText? && p.size(d[r.file].file) == r.bytes
    {
      var t := KeptAreSurvivors(p, session, snap.tables, r);
      SurvivorIsThere(p, session, files, snap, now, t);
      OwnSize(p, session, t);
    }
    SizesAreBytes(p, d, kept);
    forall i, j | 0 <= i < j < |names| ensures names[i] != names[j] {
      DistinctNames(kept, i, j);
    }
    forall name | name in d && IsTableName(name) ensures name in names {
      var t := OnlySurvivorsAreLeft(p, session, files, snap, now, name);
      SurvivorIsKept(p, session, snap.tables, t);
      var i :| 0 <= i < |kept| && kept[i] == RecordFor(p, session, t);
      assert names[i] == name;
    }
    forall name | name in names ensures name in d && IsTableName(name) {
      var i :| 0 <= i < |names| && names[i] == name;
      assert kept[i] in kept;
    }
  }

  lemma OwnSize(p: Program, session: string, t: Table)
    ensures RecordFor(p, session, t).bytes == p.size(FileOf(t, session))
    ensures IsTableName(RecordFor(p, session, t).file)
  {
    TableNamesAreTables(p, t.kind, t.parents, t.filter);
  }

  lemma SurvivorIsKept(p: Program, session: string, tables: seq<Table>, t: Table)
    requires Survives(p, session, tables, t)
    ensures RecordFor(p, session, t) in KeptOf(p, session, tables)
  {}

  // ---- what is never touched ----

  /** A directory of a newer format is neither written nor read. */
  lemma NewerIsLeftAlone(p: Program, session: string, files: Files, snap: Snapshot, now: nat, target: Identity,
                          maxAge: nat)
    requires IsNewer(files)
    ensures Written(p, session, files, snap, now) == files
    ensures ReadBack(p, files, target, now, maxAge) == (files, None)
  {}

  lemma RecordsNameNoHistory(p: Program, session: string, tables: seq<Table>)
    ensures HISTORY_FILE !in FilesOf(Records(p, session, tables))
    ensures HISTORY_FILE !in Evictees(NewestFirst(Records(p, session, tables)), 0)
    ensures HISTORY_FILE !in FilesOf(ByFile(KeptOf(p, session, tables)))
  {
    var rs := Records(p, session, tables);
    if HISTORY_FILE in FilesOf(rs) {
      RecordNamesAreTables(p, session, tables, HISTORY_FILE);
      assert false;
    }
    SortedKeeps(rs, Older);
    KeptAreSome(NewestFirst(rs), 0);
    SortedKeeps(KeptOf(p, session, tables), NamedAfter);
    hide Records, FilesOf, Evictees, Sorted, Kept;
  }

  /** A write leaves the palette's history as it is, and its meta names it nowhere. */
  lemma WriteKeepsHistory(p: Program, session: string, files: Files, snap: Snapshot, now: nat)
    ensures HISTORY_FILE in Written(p, session, files, snap, now) <==> HISTORY_FILE in files
    ensures HISTORY_FILE in files ==> Written(p, session, files, snap, now)[HISTORY_FILE] == files[HISTORY_FILE]
    ensures !IsNewer(files) ==>
              var meta := MetaIn(Written(p, session, files, snap, now));
              meta.Some? && HISTORY_FILE !in FilesOf(meta.value.tables)
  {
    RecordsNameNoHistory(p, session, snap.tables);
    PutElsewhere(p, session, files, snap.tables, HISTORY_FILE);
    FixedNames();
    if !IsNewer(files) {
      MetaIsThere(p, session, files, snap, now);
    }
    hide PutAll, Records, FilesOf, Evictees, Sorted, IsTableName, Kept, KeptOf, IsNewer, MetaIn, ByFile, NewestFirst;
  }

  lemma {:induction false} ReadingDropsNamed(p: Program, session: string, files: Files, rs: seq<Record>, name: string)
    requires name in files && files[name] == OtherText
    ensures name in ReadRecords(p, session, files, rs).0 <==> name !in FilesOf(rs)
    ensures name !in FilesOf(rs) ==> ReadRecords(p, session, files, rs).0[name] == OtherText
    decreases |rs|
  {
    if rs != [] {
      var o := ReadRecord(p, session, files, rs[0]);
      var next := FilesAfter(files, rs[0], o);
      if name in next {
        ReadingDropsNamed(p, session, next, rs[1..], name);
      } else {
        ReadingMakesNothing(p, session, next, rs[1..], name);
      }
    }
  }

  lemma {:induction false} ReadingMakesNothing(p: Program, session: string, files: Files, rs: seq<Record>, name: string)
    requires name !in files
    ensures name !in ReadRecords(p, session, files, rs).0
    decreases |rs|
  {
    if rs != [] {
      ReadingMakesNothing(p, session, FilesAfter(files, rs[0], ReadRecord(p, session, files, rs[0])), rs[1..], name);
      hide ReadRecord;
    }
  }

  /** A read, whether it uses the directory or discards it, leaves the history, unless a meta it uses
      names the history as a table's file, which no written one does. */
  lemma ReadKeepsHistory(p: Program, files: Files, target: Identity, now: nat, maxAge: nat)
    requires HISTORY_FILE in files && files[HISTORY_FILE] == OtherText
    ensures HISTORY_FILE in ReadBack(p, files, target, now, maxAge).0 <==>
              !(MetaIn(files).Some? && IsUsable(p, MetaIn(files).value, target, now, maxAge) &&
                HISTORY_FILE in FilesOf(MetaIn(files).value.tables))
  {
    var meta := MetaIn(files);
    if meta.Some? && IsUsable(p, meta.value, target, now, maxAge) {
      ReadingDropsNamed(p, meta.value.session, files, meta.value.tables, HISTORY_FILE);
    }
  }

  /** A discarded directory holds the history and nothing else. */
  lemma UnusableIsDiscarded(p: Program, files: Files, target: Identity, now: nat, maxAge: nat)
    requires !IsNewer(files)
    requires MetaIn(files).Some? ==> !IsUsable(p, MetaIn(files).value, target, now, maxAge)
    ensures ReadBack(p, files, target, now, maxAge).1 == None
    ensures ReadBack(p, files, target, now, maxAge).0.Keys == files.Keys * {HISTORY_FILE}
  {}

  // ---- reading again ----

  lemma {:induction false} ReadingPassesOver(p: Program, session: string, files: Files, rs: seq<Record>, name: string)
    requires name !in FilesOf(rs)
    ensures var after := ReadRecords(p, session, files, rs).0;
            (name in after <==> name in files) && (name in files ==> after[name] == files[name])
    decreases |rs|
  {
    if rs != [] {
      ReadingPassesOver(p, session, FilesAfter(files, rs[0], ReadRecord(p, session, files, rs[0])), rs[1..], name);
      hide ReadRecord;
    }
  }

  /** What the first pass threw away gave no table, and is not there for the second. */
  lemma {:induction false} CollectedAgain(p: Program, session: string, files: Files, rs: seq<Record>)
    requires DistinctFiles(rs)
    ensures Collected(p, session, ReadRecords(p, session, files, rs).0, rs) == Collected(p, session, files, rs)
    decreases |rs|
  {
    if rs != [] {
      var r, o := rs[0], ReadRecord(p, session, files, rs[0]);
      var once := FilesAfter(files, r, o);
      var after := ReadRecords(p, session, once, rs[1..]).0;
      ReadingPassesOver(p, session, once, rs[1..], r.file);
      assert ReadRecord(p, session, after, r).Take? <==> o.Take?;
      assert o.Take? ==> ReadRecord(p, session, after, r) == o;
      CollectedAgain(p, session, once, rs[1..]);
      CollectedElsewhere(p, session, files, rs[1..], r.file);
      hide ReadRecord;
    }
  }

  /** The meta names its tables' files once each, and not itself: every written meta does. */
  predicate NamesFilesOnce(m: Meta) {
    DistinctFiles(m.tables) && META_FILE !in FilesOf(m.tables)
  }

  lemma WrittenNamesFilesOnce(p: Program, session: string, snap: Snapshot, now: nat)
    requires DistinctFiles(Records(p, session, snap.tables))
    ensures NamesFilesOnce(MetaOf(p, session, snap, now, KeptOf(p, session, snap.tables)))
  {
    var kept := KeptOf(p, session, snap.tables);
    KeptFilesAreDistinct(p, session, snap.tables);
    SortedKeeps(kept, NamedAfter);
    if META_FILE in FilesOf(Records(p, session, snap.tables)) {
      RecordNamesAreTables(p, session, snap.tables, META_FILE);
      assert false;
    }
  }

  /** Whatever a read removed, a second one gives back the same: a discarded directory nothing, a newer
      one nothing, any other the same tables. */
  lemma ReadingAgain(p: Program, files: Files, target: Identity, now: nat, maxAge: nat)
    requires MetaIn(files).Some? ==> NamesFilesOnce(MetaIn(files).value)
    ensures ReadBack(p, ReadBack(p, files, target, now, maxAge).0, target, now, maxAge).1
         == ReadBack(p, files, target, now, maxAge).1
  {
    var meta, after := MetaIn(files), ReadBack(p, files, target, now, maxAge).0;
    if IsNewer(files) {
      NewerIsLeftAlone(p, "", files, Snapshot(target, map[], [], [], []), now, target, maxAge);
    } else if meta.None? || !IsUsable(p, meta.value, target, now, maxAge) {
      UnusableIsDiscarded(p, files, target, now, maxAge);
      FixedNames();
      assert META_FILE !in after;
      UnusableIsDiscarded(p, after, target, now, maxAge);
    } else {
      var m := meta.value;
      ReadingPassesOver(p, m.session, files, m.tables, META_FILE);
      assert MetaIn(after) == meta;
      ReadingCollects(p, m.session, files, m.tables);
      ReadingCollects(p, m.session, after, m.tables);
      CollectedAgain(p, m.session, files, m.tables);
      hide ReadRecords, Collected, FilesOf, DistinctFiles;
    }
  }
}
