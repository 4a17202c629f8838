/**
 The rows in view as CSV (`crates/core/src/export.rs`), a reader of the grammar in section 2 of
 RFC 4180, and the name an export file is stamped with.
 */
module Export {
  import opened Wrappers
  import opened Text
  import opened Calendar
  import opened Stamps

  datatype Sheet = Sheet(headers: seq<string>, rows: seq<seq<string>>)

  // ---- the text of a sheet ----

  predicate IsSpecial(c: char) { c == ',' || c == '"' || c == '\n' || c == '\r' }

  predicate HasSpecial(s: string) { exists i :: 0 <= i < |s| && IsSpecial(s[i]) }

  /** The text with every quote doubled. */
  function Doubled(s: string): string {
    if s == "" then "" else (if s[0] == '"' then "\"\"" else [s[0]]) + Doubled(s[1..])
  }

  function CellText(cell: string): string {
    if HasSpecial(cell) then "\"" + Doubled(cell) + "\"" else cell
  }

  /** The cells, commas between them. */
  function RowText(cells: seq<string>): string {
    if cells == [] then ""
    else if |cells| == 1 then CellText(cells[0])
    else CellText(cells[0]) + "," + RowText(cells[1..])
  }

  function RowsText(rows: seq<seq<string>>): string {
    if rows == [] then "" else RowText(rows[0]) + "\r\n" + RowsText(rows[1..])
  }

  function AllRows(sheet: Sheet): seq<seq<string>> { [sheet.headers] + sheet.rows }

  function CsvText(sheet: Sheet): string { RowsText(AllRows(sheet)) }

  // ---- the writer ----

  lemma {:induction false} DoubledAppends(s: string, c: char)
    ensures Doubled(s + [c]) == Doubled(s) + (if c == '"' then "\"\"" else [c])
  {
    if s == "" {
      assert s + [c] == [c] && [c][1..] == "";
    } else {
      assert (s + [c])[1..] == s[1..] + [c];
      DoubledAppends(s[1..], c);
    }
  }

  method CsvCell(cell: string) returns (out: string)
    ensures out == CellText(cell)
  {
    var special := false;
    var k := 0;
    while k < |cell| && !special
      invariant 0 <= k <= |cell|
      invariant special <==> HasSpecial(cell[..k])
    {
      special := IsSpecial(cell[k]);
      k := k + 1;
    }
    assert HasSpecial(cell[..k]) ==> HasSpecial(cell);
    assert !special ==> cell[..k] == cell;
    if special {
      out := "\"";
      var i := 0;
      while i < |cell|
        invariant 0 <= i <= |cell|
        invariant out == "\"" + Doubled(cell[..i])
      {
        assert cell[..i + 1] == cell[..i] + [cell[i]];
        DoubledAppends(cell[..i], cell[i]);
        if cell[i] == '"' {
          out := out + "\"";
        }
        out := out + [cell[i]];
        i := i + 1;
      }
      assert cell[..i] == cell;
      out := out + "\"";
    } else {
      out := cell;
    }
  }

  lemma {:induction false} RowTextAppends(cells: seq<string>, cell: string)
    ensures RowText(cells + [cell]) == RowText(cells) + (if cells == [] then "" else ",") + CellText(cell)
  {
    if |cells| <= 1 {
      assert cells == [] ==> cells + [cell] == [cell];
      assert |cells| == 1 ==> (cells + [cell])[1..] == [cell];
    } else {
      assert (cells + [cell])[1..] == cells[1..] + [cell];
      RowTextAppends(cells[1..], cell);
    }
  }

  lemma {:induction false} RowsTextAppends(rows: seq<seq<string>>, row: seq<string>)
    ensures RowsText(rows + [row]) == RowsText(rows) + RowText(row) + "\r\n"
  {
    if rows == [] {
      assert rows + [row] == [row] && [row][1..] == [];
    } else {
      assert (rows + [row])[1..] == rows[1..] + [row];
      RowsTextAppends(rows[1..], row);
    }
  }

  /** One line: its cells quoted as they need it, joined by commas. */
  method CsvLine(row: seq<string>) returns (line: string)
    ensures line == RowText(row)
  {
    line := "";
    var i := 0;
    while i < |row|
      invariant 0 <= i <= |row|
      invariant line == RowText(row[..i])
    {
      var cell := CsvCell(row[i]);
      assert row[..i + 1] == row[..i] + [row[i]];
      RowTextAppends(row[..i], row[i]);
      line := line + (if i == 0 then "" else ",") + cell;
      i := i + 1;
    }
    assert row[..i] == row;
  }

  method Csv(sheet: Sheet) returns (out: string)
    ensures out == CsvText(sheet)
  {
    out := "";
    var rows := AllRows(sheet);
    var i := 0;
    while i < |rows|
      invariant 0 <= i <= |rows|
      invariant out == RowsText(rows[..i])
    {
      var line := CsvLine(rows[i]);
      assert rows[..i + 1] == rows[..i] + [rows[i]];
      RowsTextAppends(rows[..i], rows[i]);
      out := out + line + "\r\n";
      i := i + 1;
    }
    assert rows[..i] == rows;
  }

  // ---- the grammar of RFC 4180, section 2 ----

  // `ReadCsv` takes any character but the four special ones as text; `ReadRfc` only `TEXTDATA`, the
  // printable characters of ASCII.

  /** A field's text and what is left after it. */
  datatype Piece<T> = Piece(value: T, rest: string)

  /** `non-escaped`: everything up to the first comma, quote or line break. */
  function ReadBare(s: string): (p: Piece<string>)
    ensures |p.rest| <= |s|
  {
    if s == "" || IsSpecial(s[0]) then Piece("", s)
    else
      var p := ReadBare(s[1..]);
      Piece([s[0]] + p.value, p.rest)
  }

  /** `escaped`, after its opening quote: up to a quote that is not doubled. */
  function ReadQuoted(s: string): (p: Option<Piece<string>>)
    ensures p.Some? ==> |p.value.rest| < |s|
  {
    if s == "" then None
    else if s[0] != '"' then
      var p := ReadQuoted(s[1..]);
      if p.Some? then Some(Piece([s[0]] + p.value.value, p.value.rest)) else None
    else if |s| >= 2 && s[1] == '"' then
      var p := ReadQuoted(s[2..]);
      if p.Some? then Some(Piece(['"'] + p.value.value, p.value.rest)) else None
    else Some(Piece("", s[1..]))
  }

  function ReadField(s: string): (p: Option<Piece<string>>)
    ensures p.Some? ==> |p.value.rest| <= |s|
  {
    if s != "" && s[0] == '"' then ReadQuoted(s[1..]) else Some(ReadBare(s))
  }

  /** `field *(COMMA field) CRLF` */
  function ReadRecord(s: string): (p: Option<Piece<seq<string>>>)
    ensures p.Some? ==> |p.value.rest| < |s| && p.value.value != []
    decreases |s|
  {
    var field := ReadField(s);
    if field.None? then None
    else
      var rest := field.value.rest;
      if StartsWith(rest, "\r\n") then Some(Piece([field.value.value], rest[2..]))
      else if !StartsWith(rest, ",") then None
      else
        var more := ReadRecord(rest[1..]);
        if more.Some? then Some(Piece([field.value.value] + more.value.value, more.value.rest)) else None
  }

  function ReadCsv(s: string): Option<seq<seq<string>>>
    decreases |s|
  {
    if s == "" then Some([])
    else
      var record := ReadRecord(s);
      if record.None? then None
      else
        var more := ReadCsv(record.value.rest);
        if more.Some? then Some([record.value.value] + more.value) else None
  }

  // ---- reading a sheet back ----

  /** What comes after a field: the end of the record, or another field. */
  predicate FieldEnds(rest: string) {
    rest != "" && (rest[0] == ',' || rest[0] == '\r')
  }

  lemma {:induction false} BareReadsBack(s: string, rest: string)
    requires !HasSpecial(s) && FieldEnds(rest)
    ensures ReadBare(s + rest) == Piece(s, rest)
  {
    if s == "" {
      assert s + rest == rest;
    } else {
      assert (s + rest)[1..] == s[1..] + rest;
      assert !IsSpecial(s[0]);
      forall i | 0 <= i < |s[1..]| ensures !IsSpecial(s[1..][i]) {
        assert s[1..][i] == s[i + 1];
      }
      BareReadsBack(s[1..], rest);
      assert s == [s[0]] + s[1..];
    }
  }

  lemma {:induction false} QuotedReadsBack(s: string, rest: string)
    requires FieldEnds(rest)
    ensures ReadQuoted(Doubled(s) + "\"" + rest) == Some(Piece(s, rest))
  {
    var t := Doubled(s) + "\"" + rest;
    if s == "" {
      assert t[1..] == rest;
    } else {
      var tail := Doubled(s[1..]) + "\"" + rest;
      QuotedReadsBack(s[1..], rest);
      assert s == [s[0]] + s[1..];
      if s[0] == '"' {
        assert t[2..] == tail;
      } else {
        assert t[1..] == tail;
      }
    }
  }

  lemma FieldReadsBack(cell: string, rest: string)
    requires FieldEnds(rest)
    ensures ReadField(CellText(cell) + rest) == Some(Piece(cell, rest))
  {
    if HasSpecial(cell) {
      QuotedReadsBack(cell, rest);
      assert (CellText(cell) + rest)[1..] == Doubled(cell) + "\"" + rest;
    } else {
      BareReadsBack(cell, rest);
      assert cell != "" ==> !IsSpecial(cell[0]);
      assert (CellText(cell) + rest)[0] == if cell == "" then rest[0] else cell[0];
    }
  }

  /** A row as its record reads: a row of no cells is written as one empty cell is. */
  function AsRead(row: seq<string>): seq<string> {
    if row == [] then [""] else row
  }

  lemma LastField(cell: string, rest: string)
    ensures ReadRecord(CellText(cell) + "\r\n" + rest) == Some(Piece([cell], rest))
  {
    FieldReadsBack(cell, "\r\n" + rest);
    hide CellText, ReadField;
    assert CellText(cell) + "\r\n" + rest == CellText(cell) + ("\r\n" + rest);
    assert ("\r\n" + rest)[2..] == rest;
  }

  lemma FieldAndMore(cell: string, next: string)
    ensures ReadRecord(CellText(cell) + "," + next) ==
              if ReadRecord(next).Some?
              then Some(Piece([cell] + ReadRecord(next).value.value, ReadRecord(next).value.rest))
              else None
  {
    FieldReadsBack(cell, "," + next);
    hide CellText, ReadField;
    assert CellText(cell) + "," + next == CellText(cell) + ("," + next);
    var rest := "," + next;
    assert rest[1..] == next && rest[0] == ',';
    assert !StartsWith(rest, "\r\n");
  }

  lemma Regroup(a: string, b: string, c: string, d: string, e: string)
    ensures a + b + c + d + e == a + b + (c + d + e)
  {}

  lemma {:induction false} RecordReadsBack(row: seq<string>, rest: string)
    ensures ReadRecord(RowText(row) + "\r\n" + rest) == Some(Piece(AsRead(row), rest))
  {
    if row == [] {
      LastField("", rest);
    } else if |row| == 1 {
      LastField(row[0], rest);
      assert row == [row[0]];
    } else {
      var next := RowText(row[1..]) + "\r\n" + rest;
      RecordReadsBack(row[1..], rest);
      FieldAndMore(row[0], next);
      hide ReadRecord, CellText;
      Regroup(CellText(row[0]), ",", RowText(row[1..]), "\r\n", rest);
      assert row == [row[0]] + row[1..];
    }
  }

  function AllAsRead(rows: seq<seq<string>>): seq<seq<string>> {
    if rows == [] then [] else [AsRead(rows[0])] + AllAsRead(rows[1..])
  }

  lemma {:induction false} RowsReadBack(rows: seq<seq<string>>)
    ensures ReadCsv(RowsText(rows)) == Some(AllAsRead(rows))
  {
    if rows != [] {
      RecordReadsBack(rows[0], RowsText(rows[1..]));
      RowsReadBack(rows[1..]);
    }
  }

  lemma {:induction false} AllAsReadIsTheRows(rows: seq<seq<string>>)
    ensures AllAsRead(rows) == rows <==> forall i :: 0 <= i < |rows| ==> rows[i] != []
  {
    if rows != [] {
      AllAsReadIsTheRows(rows[1..]);
      assert rows == [rows[0]] + rows[1..];
      assert forall i :: 1 <= i < |rows| ==> rows[i] == rows[1..][i - 1];
      assert AllAsRead(rows)[1..] == AllAsRead(rows[1..]);
    }
  }

  predicate IsTextData(c: char) {
    var n := c as int;
    0x20 <= n <= 0x21 || 0x23 <= n <= 0x2B || 0x2D <= n <= 0x7E
  }

  predicate IsRfcChar(c: char) { IsTextData(c) || IsSpecial(c) }

  /** The grammar to the letter: its fields hold `TEXTDATA`, and between quotes the four as well. */
  function ReadRfc(s: string): Option<seq<seq<string>>> {
    if All(s, IsRfcChar) then ReadCsv(s) else None
  }

  predicate RowIsRfc(row: seq<string>) {
    forall i :: 0 <= i < |row| ==> All(row[i], IsRfcChar)
  }

  lemma {:induction false} DoubledChars(s: string)
    ensures All(Doubled(s), IsRfcChar) <==> All(s, IsRfcChar)
  {
    if s != "" {
      DoubledChars(s[1..]);
      AllParts(if s[0] == '"' then "\"\"" else [s[0]], Doubled(s[1..]));
      AllParts([s[0]], s[1..]);
      assert s == [s[0]] + s[1..];
      assert All([s[0]], IsRfcChar) <==> IsRfcChar(s[0]) by {
        assert [s[0]][0] == s[0];
      }
      assert All("\"\"", IsRfcChar) && IsRfcChar('"');
    }
  }

  lemma AllParts(a: string, b: string)
    ensures All(a + b, IsRfcChar) <==> All(a, IsRfcChar) && All(b, IsRfcChar)
  {
    hide IsRfcChar;
    if All(a + b, IsRfcChar) {
      assert forall i :: 0 <= i < |a| ==> a[i] == (a + b)[i];
      assert forall i :: 0 <= i < |b| ==> b[i] == (a + b)[|a| + i];
    }
  }

  lemma CellChars(cell: string)
    ensures All(CellText(cell), IsRfcChar) <==> All(cell, IsRfcChar)
  {
    if HasSpecial(cell) {
      DoubledChars(cell);
      AllParts("\"", Doubled(cell));
      AllParts("\"" + Doubled(cell), "\"");
      assert All("\"", IsRfcChar);
    }
  }

  lemma {:induction false} RowChars(row: seq<string>)
    ensures All(RowText(row), IsRfcChar) <==> RowIsRfc(row)
  {
    if row != [] {
      CellChars(row[0]);
      assert row == [row[0]] + row[1..];
      assert RowIsRfc(row) <==> All(row[0], IsRfcChar) && RowIsRfc(row[1..]) by {
        assert forall i :: 1 <= i < |row| ==> row[i] == row[1..][i - 1];
      }
      if |row| > 1 {
        RowChars(row[1..]);
        AllParts(CellText(row[0]), ",");
        AllParts(CellText(row[0]) + ",", RowText(row[1..]));
        assert All(",", IsRfcChar);
        hide CellText, All, RowIsRfc;
      }
    }
  }

  lemma {:induction false} RowsChars(rows: seq<seq<string>>)
    ensures All(RowsText(rows), IsRfcChar) <==> forall i :: 0 <= i < |rows| ==> RowIsRfc(rows[i])
  {
    if rows != [] {
      RowChars(rows[0]);
      RowsChars(rows[1..]);
      AllParts(RowText(rows[0]), "\r\n");
      AllParts(RowText(rows[0]) + "\r\n", RowsText(rows[1..]));
      assert All("\r\n", IsRfcChar);
      assert forall i :: 1 <= i < |rows| ==> rows[i] == rows[1..][i - 1];
      hide RowText, All, RowIsRfc;
    }
  }

  /** Every sheet is read, and read back exactly when no row is without cells. It is a file by the
      letter of the grammar exactly when its cells hold printable ASCII and the four characters that
      quotes are for; a tab or an `é` in a cell is beyond `TEXTDATA`. */
  lemma CsvIsLossless(sheet: Sheet)
    ensures ReadCsv(CsvText(sheet)).Some?
    ensures ReadCsv(CsvText(sheet)) == Some([sheet.headers] + sheet.rows) <==>
              sheet.headers != [] && forall i :: 0 <= i < |sheet.rows| ==> sheet.rows[i] != []
    ensures ReadRfc(CsvText(sheet)) ==
              if forall i :: 0 <= i < |AllRows(sheet)| ==> RowIsRfc(AllRows(sheet)[i])
              then ReadCsv(CsvText(sheet)) else None
  {
    var rows := AllRows(sheet);
    RowsReadBack(rows);
    RowsChars(rows);
    AllAsReadIsTheRows(rows);
    hide RowIsRfc, RowsText, ReadCsv, All;
    assert rows[0] == sheet.headers;
    assert forall i :: 0 <= i < |sheet.rows| ==> sheet.rows[i] == rows[i + 1];
    assert (forall i :: 0 <= i < |rows| ==> rows[i] != []) <==>
           sheet.headers != [] && forall i :: 0 <= i < |sheet.rows| ==> sheet.rows[i] != [];
  }

  // ---- the name of the file ----

  lemma {:induction false} LeadingZeros(k: nat, s: string)
    requires All(s, IsDigit)
    ensures All(seq(k, _ => '0') + s, IsDigit) && NatOf(seq(k, _ => '0') + s) == NatOf(s)
  {
    var t := seq(k, _ => '0') + s;
    if s != "" {
      LeadingZeros(k, s[..|s| - 1]);
      assert t[..|t| - 1] == seq(k, _ => '0') + s[..|s| - 1];
    } else if k > 0 {
      LeadingZeros(k - 1, "");
      assert t[..|t| - 1] == seq(k - 1, _ => '0') + "";
    }
  }

  lemma PaddedTellsApart(n: nat, m: nat, w: nat)
    requires Padded(n, w) == Padded(m, w)
    ensures n == m
  {
    NatOfNatText(n);
    NatOfNatText(m);
    LeadingZeros(if |NatText(n)| >= w then 0 else w - |NatText(n)|, NatText(n));
    LeadingZeros(if |NatText(m)| >= w then 0 else w - |NatText(m)|, NatText(m));
    assert seq(0, _ => '0') + NatText(n) == NatText(n);
    assert seq(0, _ => '0') + NatText(m) == NatText(m);
  }

  lemma TwoDigits(n: nat)
    requires n < 100
    ensures |Padded(n, 2)| == 2
  {
    assert PowerOfTen(2) == 100;
    PaddedIsFixedWidth(n, 2);
  }

  lemma SameTail(a: string, b: string, x: string, y: string)
    requires a + x == b + y && |x| == |y|
    ensures a == b && x == y
  {
    assert a == (a + x)[..|a|] && b == (b + y)[..|b|];
    assert x == (a + x)[|a|..] && y == (b + y)[|b|..];
  }

  lemma SameTwoDigits(n: nat, m: nat, x: string, y: string)
    requires n < 100 && m < 100 && Padded(n, 2) + x == Padded(m, 2) + y
    ensures n == m && x == y
  {
    TwoDigits(n);
    TwoDigits(m);
    hide Padded;
    var t := Padded(n, 2) + x;
    assert t[..2] == Padded(n, 2) && t[2..] == x;
    assert (Padded(m, 2) + y)[..2] == Padded(m, 2) && (Padded(m, 2) + y)[2..] == y;
    PaddedTellsApart(n, m, 2);
  }

  /** Everything of a stamp behind the year: month to second, always eleven characters. */
  function StampTail(d: Date, rem: nat): string {
    if IsDate(d) then
      Padded(d.month, 2) + (Field(d.day, 2, '-') +
      (Padded(rem / 3600, 2) + (Padded(rem % 3600 / 60, 2) + Padded(rem % 60, 2))))
    else ""
  }

  lemma StampTailLength(d: Date, rem: nat)
    requires IsDate(d) && rem < 86400
    ensures |StampTail(d, rem)| == 11
  {
    TwoDigits(d.month);
    TwoDigits(d.day);
    TwoDigits(rem / 3600);
    TwoDigits(rem % 3600 / 60);
    TwoDigits(rem % 60);
    hide Padded;
  }

  lemma StampTailsTellApart(a: Date, x: nat, b: Date, y: nat)
    requires IsDate(a) && IsDate(b) && x < 86400 && y < 86400
    requires StampTail(a, x) == StampTail(b, y)
    ensures a.month == b.month && a.day == b.day && x == y
  {
    hide Padded;
    var s := Padded(x / 3600, 2) + (Padded(x % 3600 / 60, 2) + Padded(x % 60, 2));
    var t := Padded(y / 3600, 2) + (Padded(y % 3600 / 60, 2) + Padded(y % 60, 2));
    SameTwoDigits(a.month, b.month, Field(a.day, 2, '-') + s, Field(b.day, 2, '-') + t);
    assert Field(a.day, 2, '-') + s == Padded(a.day, 2) + (['-'] + s);
    assert Field(b.day, 2, '-') + t == Padded(b.day, 2) + (['-'] + t);
    SameTwoDigits(a.day, b.day, ['-'] + s, ['-'] + t);
    assert (['-'] + s)[1..] == s && (['-'] + t)[1..] == t;
    ClockTellsApart(x, y);
  }

  lemma ClockTellsApart(x: nat, y: nat)
    requires x < 86400 && y < 86400
    requires Padded(x / 3600, 2) + (Padded(x % 3600 / 60, 2) + Padded(x % 60, 2))
          == Padded(y / 3600, 2) + (Padded(y % 3600 / 60, 2) + Padded(y % 60, 2))
    ensures x == y
  {
    hide Padded;
    SameTwoDigits(x / 3600, y / 3600, Padded(x % 3600 / 60, 2) + Padded(x % 60, 2),
                  Padded(y % 3600 / 60, 2) + Padded(y % 60, 2));
    SameTwoDigits(x % 3600 / 60, y % 3600 / 60, Padded(x % 60, 2), Padded(y % 60, 2));
    PaddedTellsApart(x % 60, y % 60, 2);
    assert x == 3600 * (x / 3600) + 60 * (x % 3600 / 60) + x % 60;
    assert y == 3600 * (y / 3600) + 60 * (y % 3600 / 60) + y % 60;
  }

  /** Exports made in different seconds are different files, whatever the year. */
  lemma StampsTellSecondsApart(a: nat, b: nat)
    requires a < U64_LIMIT && b < U64_LIMIT && ExportStamp(a) == ExportStamp(b)
    ensures a == b
  {
    ThreeCopiesAreTheCalendar(a);
    ThreeCopiesAreTheCalendar(b);
    var d, e := StampDate(a), StampDate(b);
    var x, y := SecondOfDay(a), SecondOfDay(b);
    DatesTellDaysApart(a, b);
    hide Padded, StampDate, DayAfterEpoch;
    assert ExportStamp(a) == Padded(d.year, 4) + StampTail(d, x);
    assert ExportStamp(b) == Padded(e.year, 4) + StampTail(e, y);
    StampTailLength(d, x);
    StampTailLength(e, y);
    SameTail(Padded(d.year, 4), Padded(e.year, 4), StampTail(d, x), StampTail(e, y));
    PaddedTellsApart(d.year, e.year, 4);
    StampTailsTellApart(d, x, e, y);
  }

  lemma DatesTellDaysApart(a: nat, b: nat)
    requires a < U64_LIMIT && b < U64_LIMIT
    ensures StampDate(a) == StampDate(b) ==> DayOf(a) == DayOf(b)
  {
    ThreeCopiesAreTheCalendar(a);
    ThreeCopiesAreTheCalendar(b);
    if DayOf(a) < DayOf(b) {
      LaterDaysAreLater(DayOf(a), DayOf(b));
    } else if DayOf(b) < DayOf(a) {
      LaterDaysAreLater(DayOf(b), DayOf(a));
    }
  }

  /** A stamp without its dashes, colons and the zone, a dash for the `T`. */
  function Unmarked(s: string): string {
    if s == "" then ""
    else (if s[0] == '-' || s[0] == ':' || s[0] == 'Z' then "" else if s[0] == 'T' then "-" else [s[0]])
         + Unmarked(s[1..])
  }

  lemma {:induction false} UnmarkedConcat(a: string, b: string)
    ensures Unmarked(a + b) == Unmarked(a) + Unmarked(b)
  {
    if a == "" {
      assert a + b == b;
    } else {
      assert (a + b)[1..] == a[1..] + b;
      UnmarkedConcat(a[1..], b);
    }
  }

  lemma {:induction false} UnmarkedDigits(s: string)
    requires All(s, IsDigit)
    ensures Unmarked(s) == s
  {
    if s != "" {
      assert IsDigit(s[0]) && forall i :: 0 <= i < |s[1..]| ==> s[1..][i] == s[i + 1];
      UnmarkedDigits(s[1..]);
    }
  }

  lemma UnmarkedField(n: nat, w: nat, separator: char)
    requires separator in ['-', ':', 'Z', 'T']
    ensures Unmarked(Field(n, w, separator)) == Padded(n, w) + (if separator == 'T' then "-" else "")
  {
    assert All(Padded(n, w), IsDigit);
    UnmarkedDigits(Padded(n, w));
    hide Padded;
    UnmarkedConcat(Padded(n, w), [separator]);
    assert [separator][1..] == "";
  }

  /** An export's stamp is the instant's, written without marks: the same digits in the same order. */
  lemma StampsAreUnmarked(secs: nat)
    requires secs < U64_LIMIT
    ensures ExportStamp(secs) == Unmarked(Rfc3339(secs))
  {
    ThreeCopiesAreTheCalendar(secs);
    var d, rem := DayAfterEpoch(DayOf(secs)), SecondOfDay(secs);
    assert ExportStamp(secs) == Padded(d.year, 4) + StampTail(d, rem);
    hide DayAfterEpoch, ExportStamp, StampTail, Padded, Unmarked, Rfc3339Text;
    UnmarkedText(d, rem);
  }

  lemma UnmarkedText(d: Date, rem: nat)
    requires IsDate(d) && d.year >= 0
    ensures Unmarked(Rfc3339Text(d, rem)) == Padded(d.year, 4) + StampTail(d, rem)
  {
    hide Padded, Field, Unmarked;
    UnmarkedField(d.year, 4, '-');
    UnmarkedField(d.month, 2, '-');
    UnmarkedField(d.day, 2, 'T');
    UnmarkedClock(rem);
    var y, mo, da := Field(d.year, 4, '-'), Field(d.month, 2, '-'), Field(d.day, 2, 'T');
    UnmarkedConcat(da, ClockText(rem));
    UnmarkedConcat(mo, da + ClockText(rem));
    UnmarkedConcat(y, mo + (da + ClockText(rem)));
    DayField(d.day);
    hide ClockText;
  }

  lemma DayField(n: nat)
    ensures Field(n, 2, '-') == Padded(n, 2) + "-"
  {}

  lemma UnmarkedClock(rem: nat)
    ensures Unmarked(ClockText(rem)) == Padded(rem / 3600, 2) + (Padded(rem % 3600 / 60, 2) + Padded(rem % 60, 2))
  {
    hide Padded, Field, Unmarked;
    UnmarkedField(rem / 3600, 2, ':');
    UnmarkedField(rem % 3600 / 60, 2, ':');
    UnmarkedField(rem % 60, 2, 'Z');
    var h, mi, sec := Field(rem / 3600, 2, ':'), Field(rem % 3600 / 60, 2, ':'), Field(rem % 60, 2, 'Z');
    UnmarkedConcat(mi, sec);
    UnmarkedConcat(h, mi + sec);
  }
}
