/**
 Which tables of a snapshot stay under the directory's cap (the eviction loop of `write`): when that
 is oldest first, and a snapshot for which it is not.
 */
module CacheEviction {
  import opened Wrappers
  import opened Text
  import opened Json
  import opened Cache
  import opened CacheLaws
  import opened CacheNames

  /** A snapshot's records in the order the loop goes through them. */
  function Queue(p: Program, session: string, tables: seq<Table>): seq<Record> {
    NewestFirst(Records(p, session, tables))
  }

  lemma QueueIsNewestFirst(p: Program, session: string, tables: seq<Table>)
    ensures var rs := Queue(p, session, tables);
            forall i, j :: 0 <= i < j < |rs| ==> rs[i].at >= rs[j].at
    ensures DistinctFiles(Queue(p, session, tables)) <==> DistinctFiles(Records(p, session, tables))
    ensures KeptOf(p, session, tables) == Kept(Queue(p, session, tables), 0)
  {
    NewestFirstSorts(Records(p, session, tables));
    SortedKeeps(Records(p, session, tables), Older);
  }

  /** A table stays exactly when its bytes and those of the tables before it that stay, none of them
      older, are sixteen megabytes at most. */
  lemma SurvivesIffItFits(p: Program, session: string, tables: seq<Table>, i: nat)
    requires DistinctFiles(Records(p, session, tables)) && i < |Queue(p, session, tables)|
    ensures var rs := Queue(p, session, tables);
            && (rs[i] in KeptOf(p, session, tables) <==> BytesBefore(rs, i) + rs[i].bytes <= 16777216)
            && (forall j :: 0 <= j < i ==> rs[j].at >= rs[i].at)
            && (forall j :: i < j < |rs| ==> rs[j].at <= rs[i].at)
  {
    QueueIsNewestFirst(p, session, tables);
    hide Queue, KeptOf, Records;
    KeptIffItFits(Queue(p, session, tables), i);
  }

  // ---- oldest first ----

  lemma {:induction false} BytesOfPrefix(rs: seq<Record>, i: nat)
    requires i < |rs|
    ensures Bytes(rs[..i + 1]) == Bytes(rs[..i]) + rs[i].bytes
  {
    if i == 0 {
      assert rs[..1][1..] == [] && rs[..0] == [];
    } else {
      assert rs[..i + 1][1..] == rs[1..][..i] && rs[..i][1..] == rs[1..][..i - 1];
      BytesOfPrefix(rs[1..], i - 1);
    }
  }

  lemma {:induction false} BytesGrow(rs: seq<Record>, i: nat, j: nat)
    requires i <= j <= |rs|
    ensures Bytes(rs[..i]) <= Bytes(rs[..j])
    decreases j
  {
    if i < j {
      BytesGrow(rs, i, j - 1);
      BytesOfPrefix(rs, j - 1);
    }
  }

  /** How many of the newest tables are within the cap together, from `k` on. */
  function Fitting(rs: seq<Record>, k: nat): (n: nat)
    requires k <= |rs| && Bytes(rs[..k]) <= MAX_DIR_BYTES
    ensures k <= n <= |rs| && Bytes(rs[..n]) <= MAX_DIR_BYTES
    ensures n < |rs| ==> Bytes(rs[..n + 1]) > MAX_DIR_BYTES
    decreases |rs| - k
  {
    if k < |rs| && Bytes(rs[..k + 1]) <= MAX_DIR_BYTES then Fitting(rs, k + 1) else k
  }

  function NewestThatFit(rs: seq<Record>): nat { Fitting(rs, 0) }

  /** No table stays behind one that goes. */
  predicate OldestFirst(rs: seq<Record>, kept: seq<Record>) {
    forall i, j :: 0 <= i < j < |rs| && rs[j] in kept ==> rs[i] in kept
  }

  /** The newest tables stay while they fit together ... */
  lemma {:induction false} NewestStay(rs: seq<Record>, i: nat)
    requires i <= NewestThatFit(rs)
    ensures BytesBefore(rs, i) == Bytes(rs[..i])
    ensures forall j :: 0 <= j < i ==> Stays(rs, j)
    decreases i
  {
    if i > 0 {
      NewestStay(rs, i - 1);
      BytesOfPrefix(rs, i - 1);
      BytesGrow(rs, i, NewestThatFit(rs));
    }
  }

  /** ... and while none stays behind them, the bytes are theirs. */
  lemma {:induction false} NoneStaysBehind(rs: seq<Record>, k: nat, i: nat)
    requires k <= i <= |rs| && forall j :: k <= j < i ==> !Stays(rs, j)
    ensures BytesBefore(rs, i) == BytesBefore(rs, k)
    decreases i
  {
    if k < i {
      NoneStaysBehind(rs, k, i - 1);
    }
  }

  lemma {:induction false} SmallerBehind(rs: seq<Record>, k: nat, i: nat)
    requires k <= i < |rs| && forall j :: k <= j <= i ==> BytesBefore(rs, k) + rs[j].bytes > MAX_DIR_BYTES
    ensures !Stays(rs, i) && BytesBefore(rs, i) == BytesBefore(rs, k)
    decreases i
  {
    if k < i {
      SmallerBehind(rs, k, i - 1);
    }
  }

  /** No table behind the `k` newest would fit beside them. */
  predicate NoneFitsBehind(rs: seq<Record>, k: nat)
    requires k <= |rs|
  {
    forall j :: k <= j < |rs| ==> Bytes(rs[..k]) + rs[j].bytes > MAX_DIR_BYTES
  }

  lemma NoneStaysWhenNoneFits(rs: seq<Record>, k: nat)
    requires k <= |rs| && NoneFitsBehind(rs, k) && BytesBefore(rs, k) == Bytes(rs[..k])
    ensures forall j :: k <= j < |rs| ==> !Stays(rs, j)
  {
    forall j | k <= j < |rs| ensures !Stays(rs, j) {
      SmallerBehind(rs, k, j);
    }
  }

  lemma NoneFitsWhenNoneStays(rs: seq<Record>, k: nat)
    requires k <= |rs| && BytesBefore(rs, k) == Bytes(rs[..k])
    requires forall j :: k <= j < |rs| ==> !Stays(rs, j)
    ensures NoneFitsBehind(rs, k)
  {
    forall j | k <= j < |rs| ensures Bytes(rs[..k]) + rs[j].bytes > MAX_DIR_BYTES {
      NoneStaysBehind(rs, k, j);
      assert !Stays(rs, j);
    }
  }

  /** Eviction is oldest first exactly when none of the tables behind the newest that fit would still
      fit beside them. */
  lemma OldestFirstIff(rs: seq<Record>)
    requires DistinctFiles(rs)
    ensures OldestFirst(rs, Kept(rs, 0)) <==> NoneFitsBehind(rs, NewestThatFit(rs))
  {
    var k, kept := NewestThatFit(rs), Kept(rs, 0);
    NewestStay(rs, k);
    forall i | 0 <= i < |rs| ensures rs[i] in kept <==> Stays(rs, i) {
      KeptIffItFits(rs, i);
    }
    if k < |rs| {
      BytesOfPrefix(rs, k);
      assert !Stays(rs, k);
    }
    hide Bytes, Kept, DistinctFiles, NoneFitsBehind, Stays, NewestThatFit;
    if NoneFitsBehind(rs, k) {
      NoneStaysWhenNoneFits(rs, k);
    }
    if OldestFirst(rs, kept) {
      assert forall j :: k <= j < |rs| ==> !Stays(rs, j);
      NoneFitsWhenNoneStays(rs, k);
    }
  }

  /** What stays is the `k` newest exactly when they fit together and none behind them would too. */
  lemma {:induction false} NewestStayIff(rs: seq<Record>, k: nat, total: nat)
    requires k <= |rs| && total <= MAX_DIR_BYTES
    ensures Kept(rs, total) == rs[..k] <==>
              total + Bytes(rs[..k]) <= MAX_DIR_BYTES &&
              forall j :: k <= j < |rs| ==> total + Bytes(rs[..k]) + rs[j].bytes > MAX_DIR_BYTES
  {
    if rs != [] {
      var rest := rs[1..];
      assert forall j :: 1 <= j < |rs| ==> rs[j] == rest[j - 1];
      if k > 0 {
        assert rs[..k] == [rs[0]] + rest[..k - 1] && rs[..k][1..] == rest[..k - 1];
        if total + rs[0].bytes <= MAX_DIR_BYTES {
          NewestStayIff(rest, k - 1, total + rs[0].bytes);
          assert Kept(rs, total)[1..] == Kept(rest, total + rs[0].bytes);
          BehindShifts(rs, k, total + Bytes(rs[..k]));
        } else {
          KeptHeadFits(rest, total);
        }
      } else {
        NewestStayIff(rest, 0, total);
        BehindShifts(rs, 0, total);
        assert rs[..0] == [] && rest[..0] == [];
      }
    }
  }

  lemma BehindShifts(rs: seq<Record>, k: nat, sum: nat)
    requires rs != [] && k <= |rs|
    ensures k > 0 ==>
              ((forall j :: k <= j < |rs| ==> sum + rs[j].bytes > MAX_DIR_BYTES) <==>
               (forall j :: k - 1 <= j < |rs[1..]| ==> sum + rs[1..][j].bytes > MAX_DIR_BYTES))
    ensures k == 0 ==>
              ((forall j :: 0 <= j < |rs| ==> sum + rs[j].bytes > MAX_DIR_BYTES) <==>
               sum + rs[0].bytes > MAX_DIR_BYTES &&
               (forall j :: 0 <= j < |rs[1..]| ==> sum + rs[1..][j].bytes > MAX_DIR_BYTES))
  {
    var rest := rs[1..];
    if forall j :: k <= j < |rs| ==> sum + rs[j].bytes > MAX_DIR_BYTES {
      forall j | (if k > 0 then k - 1 else 0) <= j < |rest| ensures sum + rest[j].bytes > MAX_DIR_BYTES {
        assert rest[j] == rs[j + 1];
      }
    }
    assert forall j :: 1 <= j < |rs| ==> rs[j] == rest[j - 1];
  }

  lemma {:induction false} KeptHeadFits(rs: seq<Record>, total: nat)
    ensures Kept(rs, total) != [] ==> total + Kept(rs, total)[0].bytes <= MAX_DIR_BYTES
  {
    if rs != [] && total + rs[0].bytes > MAX_DIR_BYTES {
      KeptHeadFits(rs[1..], total);
    }
  }

  /** On a snapshot: eviction is oldest first exactly when, of its records newest first, none behind
      the newest that fit the cap together would fit beside them. And what stays is the `k` newest
      exactly when they fit and none behind them would fit beside them. */
  lemma EvictsOldestFirstIff(p: Program, session: string, tables: seq<Table>)
    requires DistinctFiles(Records(p, session, tables))
    ensures var rs, kept := Queue(p, session, tables), KeptOf(p, session, tables);
            && (forall i, j :: 0 <= i < j < |rs| ==> rs[i].at >= rs[j].at)
            && (OldestFirst(rs, kept) <==> NoneFitsBehind(rs, NewestThatFit(rs)))
            && (forall k :: 0 <= k <= |rs| ==>
                  (kept == rs[..k] <==> Bytes(rs[..k]) <= MAX_DIR_BYTES && NoneFitsBehind(rs, k)))
  {
    QueueIsNewestFirst(p, session, tables);
    var rs := Queue(p, session, tables);
    hide Queue, KeptOf, Records, NewestThatFit;
    OldestFirstIff(rs);
    forall k | 0 <= k <= |rs|
      ensures Kept(rs, 0) == rs[..k] <==> Bytes(rs[..k]) <= MAX_DIR_BYTES && NoneFitsBehind(rs, k)
    {
      NewestStayIff(rs, k, 0);
    }
  }

  // ---- a snapshot for which it is not ----

  lemma {:induction false} RecordsOfAll(p: Program, session: string, tables: seq<Table>)
    requires forall i :: 0 <= i < |tables| ==> FitsAFile(p, session, tables[i])
    ensures |Records(p, session, tables)| == |tables|
    ensures forall i :: 0 <= i < |tables| ==> Records(p, session, tables)[i] == RecordFor(p, session, tables[i])
  {
    hide FitsAFile, RecordFor;
    if tables != [] {
      assert forall i :: 0 <= i < |tables[1..]| ==> tables[1..][i] == tables[i + 1];
      RecordsOfAll(p, session, tables[1..]);
      assert forall i :: 1 <= i < |tables| ==> tables[i] == tables[1..][i - 1];
    }
  }

  /** Records newest first already are left in their order. */
  lemma {:induction false} NewestFirstStays(rs: seq<Record>)
    requires forall i, j :: 0 <= i < j < |rs| ==> rs[i].at >= rs[j].at
    ensures NewestFirst(rs) == rs
  {
    if rs != [] {
      assert forall i :: 0 <= i < |rs[1..]| ==> rs[1..][i] == rs[i + 1];
      NewestFirstStays(rs[1..]);
      assert rs == [rs[0]] + rs[1..];
    }
  }

  lemma {:induction false} DistinctByIndex(rs: seq<Record>)
    requires forall i, j :: 0 <= i < j < |rs| ==> rs[i].file != rs[j].file
    ensures DistinctFiles(rs)
  {
    if rs != [] {
      assert forall i :: 0 <= i < |rs[1..]| ==> rs[1..][i] == rs[i + 1];
      DistinctByIndex(rs[1..]);
      FilesOfMembers(rs[1..]);
    }
  }

  lemma {:induction false} EqualTables(rs: seq<Record>, n: nat, bytes: nat)
    requires n <= |rs| && n * bytes <= MAX_DIR_BYTES && forall i :: 0 <= i < n ==> rs[i].bytes == bytes
    ensures BytesBefore(rs, n) == n * bytes
  {
    if n > 0 {
      EqualTables(rs, n - 1, bytes);
      assert n * bytes == (n - 1) * bytes + bytes;
    }
  }

  /** A program whose tables take a thousand bytes a row. */
  function ThousandARow(): Program {
    Program("", map[], {}, (f: TableFile) => 1000 * |f.table.rows|, (key: string) => key)
  }

  /** Ten tables, newest first: eight full ones, one of a thousand rows, and one of five hundred. */
  function TenTables(): (tables: seq<Table>)
    ensures |tables| == 10
  {
    seq(10, i requires 0 <= i < 10 =>
      Table([Digit(i)], [], None, None, None, 10 - i,
            seq(if i < 8 then 2000 else if i == 8 then 1000 else 500, _ => Null)))
  }

  lemma TenRecords(session: string)
    ensures var p, tables := ThousandARow(), TenTables();
            forall i :: 0 <= i < 10 ==>
              FitsAFile(p, session, tables[i]) && tables[i].at == 10 - i &&
              var r := RecordFor(p, session, tables[i]);
              r.at == 10 - i && r.bytes == (if i < 8 then 2000000 else if i == 8 then 1000000 else 500000)
  {}

  lemma TenFiles(session: string, i: nat, j: nat)
    requires i < j < 10
    ensures RecordFor(ThousandARow(), session, TenTables()[i]).file !=
              RecordFor(ThousandARow(), session, TenTables()[j]).file
  {
    var p, a, b := ThousandARow(), TenTables()[i], TenTables()[j];
    var x, y := TableKey(a.kind, [], None), TableKey(b.kind, [], None);
    assert NoNul(a.kind) && NoNul(b.kind) && a.kind[0] != b.kind[0];
    TableKeysTellApart(a.kind, [], None, b.kind, [], None);
    assert ("t-" + x + ".json")[2..|x| + 2] == x && ("t-" + y + ".json")[2..|y| + 2] == y;
    assert RecordFor(p, session, a).file == "t-" + x + ".json" && RecordFor(p, session, b).file == "t-" + y + ".json";
  }

  /** Eviction is not oldest first on every snapshot: of these ten tables, each older than the one
      before, the ninth is evicted and the tenth stays. */
  lemma SmallerOlderSurvives(session: string)
    ensures var p, tables := ThousandARow(), TenTables();
            && DistinctFiles(Records(p, session, tables))
            && (forall i, j :: 0 <= i < j < 10 ==> tables[i].at > tables[j].at)
            && !Survives(p, session, tables, tables[8]) && Survives(p, session, tables, tables[9])
            && !OldestFirst(Queue(p, session, tables), KeptOf(p, session, tables))
  {
    var p, tables := ThousandARow(), TenTables();
    TenInLine(session);
    NinthGoes(Queue(p, session, tables));
    hide Queue, Records, RecordFor, FitsAFile, ThousandARow, OldestFirst;
  }

  /** The ten records are in line as the tables are. */
  lemma TenInLine(session: string)
    ensures var p, tables := ThousandARow(), TenTables();
            var rs := Queue(p, session, tables);
            && DistinctFiles(Records(p, session, tables)) && DistinctFiles(rs)
            && |rs| == 10 && KeptOf(p, session, tables) == Kept(rs, 0)
            && (forall i :: 0 <= i < 10 ==>
                  FitsAFile(p, session, tables[i]) && tables[i].at == 10 - i &&
                  rs[i] == RecordFor(p, session, tables[i]) &&
                  rs[i].bytes == if i < 8 then 2000000 else if i == 8 then 1000000 else 500000)
  {
    var p, tables := ThousandARow(), TenTables();
    TenRecords(session);
    RecordsOfAll(p, session, tables);
    var rs := Records(p, session, tables);
    assert forall i :: 0 <= i < 10 ==> rs[i] == RecordFor(p, session, tables[i]);
    hide ThousandARow, TenTables, Records, RecordFor, FitsAFile, TableFileName, DistinctFiles, KeptOf;
    forall i, j | 0 <= i < j < 10 ensures rs[i].file != rs[j].file {
      TenFiles(session, i, j);
    }
    DistinctByIndex(rs);
    NewestFirstStays(rs);
    QueueIsNewestFirst(p, session, tables);
    hide NewestFirst;
  }

  lemma NinthGoes(rs: seq<Record>)
    requires |rs| == 10 && DistinctFiles(rs)
    requires forall i :: 0 <= i < 10 ==> rs[i].bytes == if i < 8 then 2000000 else if i == 8 then 1000000 else 500000
    ensures rs[8] !in Kept(rs, 0) && rs[9] in Kept(rs, 0) && !OldestFirst(rs, Kept(rs, 0))
  {
    EqualTables(rs, 8, 2000000);
    KeptIffItFits(rs, 8);
    KeptIffItFits(rs, 9);
    assert BytesBefore(rs, 9) == BytesBefore(rs, 8);
    hide Kept, DistinctFiles, BytesBefore;
  }
}
