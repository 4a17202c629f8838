/**
 The palette's line history (`crates/core/src/history.rs`): a bounded list in memory and on disk,
 and the unbounded one it is a window on.
 */
module History {
  import opened Wrappers
  import opened Text
  import opened Secrets

  const FORMAT := 1
  const MAX_ENTRIES := 100
  const MAX_LINE := 120

  predicate WorthKeeping(line: string) {
    line != "" && |Utf8(line)| <= MAX_LINE && !IsKeyMaterial(line)
  }

  /** `retain(|e| e != line)` */
  function Without(entries: seq<string>, line: string): seq<string> {
    if entries == [] then []
    else (if entries[0] == line then [] else [entries[0]]) + Without(entries[1..], line)
  }

  function LastOf(entries: seq<string>, n: nat): seq<string> {
    if |entries| <= n then entries else entries[|entries| - n..]
  }

  /** The entries after a line was typed. */
  function Pushed(entries: seq<string>, typed: string): seq<string> {
    var line := Trim(typed);
    if WorthKeeping(line) then LastOf(Without(entries, line) + [line], MAX_ENTRIES) else entries
  }

  function PushedAll(entries: seq<string>, typed: seq<string>): seq<string> {
    if typed == [] then entries else Pushed(PushedAll(entries, typed[..|typed| - 1]), typed[|typed| - 1])
  }

  // ---- the object ----

  /** `retain` as the loop it is. */
  method Retain(entries: seq<string>, line: string) returns (kept: seq<string>)
    ensures kept == Without(entries, line)
  {
    kept := [];
    var i := 0;
    assert entries[0..] == entries;
    while i < |entries|
      invariant 0 <= i <= |entries|
      invariant kept + Without(entries[i..], line) == Without(entries, line)
    {
      assert entries[i..][0] == entries[i] && entries[i..][1..] == entries[i + 1..];
      if entries[i] != line {
        kept := kept + [entries[i]];
      }
      i := i + 1;
    }
  }

  /** What is under the history's name in the cache directory. */
  datatype Stored = Absent | Unreadable | File(version: nat, entries: seq<string>)

  class Disk {
    var stored: Stored

    constructor ()
    {
      stored := Absent;
    }
  }

  /** What a load finds: `None` for a history that stays in memory. */
  function Found(stored: Stored): Option<seq<string>> {
    match stored
    case Absent => Some([])
    case Unreadable => None
    case File(version, entries) => if version == FORMAT then Some(entries) else None
  }

  class Lines {
    var disk: Option<Disk>
    var entries: seq<string>

    /** Load from a directory, or start a session-only history. */
    constructor (dir: Option<Disk>)
      ensures dir.None? || Found(dir.value.stored).None? ==> disk == None && entries == []
      ensures dir.Some? && Found(dir.value.stored).Some? ==> disk == dir && entries == Found(dir.value.stored).value
    {
      if dir.Some? && Found(dir.value.stored).Some? {
        disk := dir;
        entries := Found(dir.value.stored).value;
      } else {
        disk := None;
        entries := [];
      }
    }

    /** Record a line. Whether its write reaches the disk is the disk's to say. */
    method Push(typed: string, writes: bool)
      modifies this`entries, if disk.Some? then {disk.value} else {}
      ensures entries == Pushed(old(entries), typed)
      ensures disk.Some? ==>
                disk.value.stored ==
                  if WorthKeeping(Trim(typed)) && writes then File(FORMAT, entries) else old(disk.value.stored)
    {
      var line := Trim(typed);
      if !WorthKeeping(line) {
        return;
      }
      var kept := Retain(entries, line);
      entries := kept + [line];
      var over := if |entries| > MAX_ENTRIES then |entries| - MAX_ENTRIES else 0;
      entries := entries[over..];
      if disk.Some? && writes {
        disk.value.stored := File(FORMAT, entries);
      }
    }
  }

  /** A history that was written is what the next process loads. */
  method Reload(h: Lines, typed: string) returns (again: Lines)
    requires h.disk.Some? && WorthKeeping(Trim(typed))
    modifies h`entries, h.disk.value
    ensures again.entries == h.entries == Pushed(old(h.entries), typed)
    ensures again.disk == old(h.disk)
  {
    h.Push(typed, true);
    again := new Lines(h.disk);
  }

  // ---- the unbounded history ----

  /** The typed lines that are kept, trimmed. */
  function Accepted(typed: seq<string>): seq<string> {
    if typed == [] then []
    else
      var line := Trim(typed[|typed| - 1]);
      Accepted(typed[..|typed| - 1]) + (if WorthKeeping(line) then [line] else [])
  }

  /** Every line once, where it was typed last. */
  function LastOccurrences(lines: seq<string>): seq<string> {
    if lines == [] then []
    else (if lines[0] in lines[1..] then [] else [lines[0]]) + LastOccurrences(lines[1..])
  }

  predicate Distinct(lines: seq<string>) {
    forall i, j :: 0 <= i < j < |lines| ==> lines[i] != lines[j]
  }

  lemma {:induction false} WithoutConcat(a: seq<string>, b: seq<string>, line: string)
    ensures Without(a + b, line) == Without(a, line) + Without(b, line)
  {
    if a == [] {
      assert a + b == b;
    } else {
      assert (a + b)[1..] == a[1..] + b;
      WithoutConcat(a[1..], b, line);
    }
  }

  lemma {:induction false} WithoutAbsent(a: seq<string>, line: string)
    requires line !in a
    ensures Without(a, line) == a
  {
    if a != [] {
      WithoutAbsent(a[1..], line);
      assert a == [a[0]] + a[1..];
    }
  }

  lemma {:induction false} WithoutTakesOne(a: seq<string>, line: string)
    requires Distinct(a)
    ensures |Without(a, line)| >= |a| - 1
  {
    if a != [] {
      assert Distinct(a[1..]) by {
        assert forall i :: 0 <= i < |a[1..]| ==> a[1..][i] == a[i + 1];
      }
      if a[0] == line {
        WithoutAbsent(a[1..], line);
      } else {
        WithoutTakesOne(a[1..], line);
      }
    }
  }

  lemma {:induction false} LastOccurrencesAppend(lines: seq<string>, line: string)
    ensures LastOccurrences(lines + [line]) == Without(LastOccurrences(lines), line) + [line]
  {
    if lines == [] {
      assert lines + [line] == [line] && [line][1..] == [];
    } else {
      var rest := lines[1..];
      assert (lines + [line])[1..] == rest + [line];
      LastOccurrencesAppend(rest, line);
      var head := if lines[0] in rest then [] else [lines[0]];
      WithoutConcat(head, LastOccurrences(rest), line);
      assert head == [] || head == [lines[0]];
      assert [lines[0]][1..] == [];
      assert lines[0] in rest + [line] <==> lines[0] in rest || lines[0] == line;
    }
  }

  lemma {:induction false} LastOccurrencesElements(lines: seq<string>)
    ensures forall line :: line in LastOccurrences(lines) <==> line in lines
    ensures Distinct(LastOccurrences(lines))
  {
    if lines != [] {
      LastOccurrencesElements(lines[1..]);
      assert lines == [lines[0]] + lines[1..];
    }
  }

  function LastIndex(lines: seq<string>, line: string): (r: nat)
    requires line in lines
    ensures r < |lines| && lines[r] == line && line !in lines[r + 1..]
  {
    if lines[|lines| - 1] == line then |lines| - 1
    else
      var r := LastIndex(lines[..|lines| - 1], line);
      assert lines[r + 1..] == lines[..|lines| - 1][r + 1..] + [lines[|lines| - 1]];
      r
  }

  lemma NotBehind(lines: seq<string>, line: string, k: nat)
    requires k < |lines| && line !in lines[k + 1..]
    ensures forall m :: k < m < |lines| ==> lines[m] != line
  {
    forall m | k < m < |lines| ensures lines[m] != line {
      assert lines[k + 1..][m - k - 1] == lines[m];
    }
  }

  lemma LastIndexIsUnique(lines: seq<string>, line: string, k: nat)
    requires k < |lines| && lines[k] == line && line !in lines[k + 1..]
    ensures LastIndex(lines, line) == k
  {
    NotBehind(lines, line, k);
    NotBehind(lines, line, LastIndex(lines, line));
  }

  lemma LastIndexBehind(lines: seq<string>, line: string)
    requires lines != [] && line in lines[1..]
    ensures LastIndex(lines, line) == LastIndex(lines[1..], line) + 1
  {
    var k := LastIndex(lines[1..], line);
    assert lines[k + 2..] == lines[1..][k + 1..];
    LastIndexIsUnique(lines, line, k + 1);
  }

  /** Two lines, the first of them typed last before the second was. */
  predicate TypedBefore(lines: seq<string>, x: string, y: string) {
    x in lines && y in lines && LastIndex(lines, x) < LastIndex(lines, y)
  }

  lemma TypedBeforeBehind(lines: seq<string>, x: string, y: string)
    requires lines != [] && TypedBefore(lines[1..], x, y)
    ensures TypedBefore(lines, x, y)
  {
    LastIndexBehind(lines, x);
    LastIndexBehind(lines, y);
    hide LastIndex;
  }

  lemma FirstIsBefore(lines: seq<string>, y: string)
    requires lines != [] && lines[0] !in lines[1..] && y in lines[1..]
    ensures TypedBefore(lines, lines[0], y)
  {
    assert lines[0 + 1..] == lines[1..];
    LastIndexIsUnique(lines, lines[0], 0);
    LastIndexBehind(lines, y);
    hide LastIndex;
  }

  /** The unbounded history is in the order the lines were typed last. */
  lemma {:induction false} LastOccurrencesInOrder(lines: seq<string>, i: nat, j: nat)
    requires i < j < |LastOccurrences(lines)|
    ensures TypedBefore(lines, LastOccurrences(lines)[i], LastOccurrences(lines)[j])
  {
    hide *;
    FirstOccurrence(lines);
    var rest, kept := lines[1..], LastOccurrences(lines[1..]);
    if lines[0] in rest {
      LastOccurrencesInOrder(rest, i, j);
      TypedBeforeBehind(lines, kept[i], kept[j]);
    } else if i > 0 {
      LastOccurrencesInOrder(rest, i - 1, j - 1);
      TypedBeforeBehind(lines, kept[i - 1], kept[j - 1]);
    } else {
      LastOccurrencesElements(rest);
      assert kept[j - 1] in rest;
      FirstIsBefore(lines, kept[j - 1]);
    }
  }

  lemma FirstOccurrence(lines: seq<string>)
    ensures LastOccurrences(lines) != [] ==> lines != []
    ensures lines != [] && lines[0] in lines[1..] ==> LastOccurrences(lines) == LastOccurrences(lines[1..])
    ensures lines != [] && lines[0] !in lines[1..] ==>
              LastOccurrences(lines) == [lines[0]] + LastOccurrences(lines[1..])
  {}

  // ---- the window ----

  lemma LastOfConcat(a: seq<string>, b: seq<string>, n: nat)
    requires |b| >= n || a == []
    ensures LastOf(a + b, n) == LastOf(b, n)
  {}

  /** Pushing into the window is pushing into the whole history and looking at its end. */
  lemma WindowPush(all: seq<string>, line: string, n: nat)
    requires Distinct(all) && n > 0
    ensures LastOf(Without(LastOf(all, n), line) + [line], n) == LastOf(Without(all, line) + [line], n)
  {
    var shown := LastOf(all, n);
    var before := all[..|all| - |shown|];
    assert all == before + shown;
    WithoutConcat(before, shown, line);
    DistinctEnd(before, shown);
    WithoutTakesOne(shown, line);
    assert before == [] ==> Without(before, line) == [];
    var gone, kept := Without(before, line), Without(shown, line) + [line];
    hide Without, Distinct;
    assert |kept| >= n || gone == [];
    assert Without(all, line) + [line] == gone + kept;
    LastOfConcat(gone, kept, n);
  }

  lemma DistinctEnd(a: seq<string>, b: seq<string>)
    requires Distinct(a + b)
    ensures Distinct(b)
  {
    assert forall i :: 0 <= i < |b| ==> b[i] == (a + b)[|a| + i];
  }

  /** From any history of distinct lines: the entries are the last hundred of the history before and
      the accepted lines, each line once, where it was typed last. */
  lemma {:induction false} HistoryIsAWindow(before: seq<string>, typed: seq<string>)
    requires Distinct(before)
    ensures LastOf(PushedAll(before, typed), MAX_ENTRIES)
         == LastOf(LastOccurrences(before + Accepted(typed)), MAX_ENTRIES)
    ensures Accepted(typed) != [] || |before| <= MAX_ENTRIES ==> |PushedAll(before, typed)| <= MAX_ENTRIES
    decreases |typed|
  {
    if typed == [] {
      assert before + [] == before;
      DistinctKept(before);
    } else {
      var earlier, line := typed[..|typed| - 1], Trim(typed[|typed| - 1]);
      HistoryIsAWindow(before, earlier);
      if WorthKeeping(line) {
        var all := LastOccurrences(before + Accepted(earlier));
        var entries := PushedAll(before, earlier);
        LastOccurrencesElements(before + Accepted(earlier));
        LastOccurrencesAppend(before + Accepted(earlier), line);
        assert before + Accepted(typed) == before + Accepted(earlier) + [line];
        WindowPush(all, line, MAX_ENTRIES);
        DistinctPushes(before, earlier);
        WindowPush(entries, line, MAX_ENTRIES);
      } else {
        assert Accepted(typed) == Accepted(earlier);
      }
    }
  }

  lemma {:induction false} DistinctKept(lines: seq<string>)
    requires Distinct(lines)
    ensures LastOccurrences(lines) == lines
  {
    if lines != [] {
      assert forall i :: 0 <= i < |lines[1..]| ==> lines[1..][i] == lines[i + 1];
      DistinctKept(lines[1..]);
      assert lines == [lines[0]] + lines[1..];
    }
  }

  lemma {:induction false} WithoutKeepsDistinct(a: seq<string>, line: string)
    requires Distinct(a)
    ensures Distinct(Without(a, line)) && line !in Without(a, line)
    ensures forall x :: x in Without(a, line) ==> x in a
  {
    if a != [] {
      assert forall i :: 0 <= i < |a[1..]| ==> a[1..][i] == a[i + 1];
      WithoutKeepsDistinct(a[1..], line);
      assert a == [a[0]] + a[1..];
      assert a[0] !in a[1..];
    }
  }

  lemma {:induction false} DistinctPushes(before: seq<string>, typed: seq<string>)
    requires Distinct(before)
    ensures Distinct(PushedAll(before, typed))
    decreases |typed|
  {
    if typed != [] {
      var line := Trim(typed[|typed| - 1]);
      DistinctPushes(before, typed[..|typed| - 1]);
      WithoutKeepsDistinct(PushedAll(before, typed[..|typed| - 1]), line);
    }
  }

  /** From an empty history. */
  lemma FreshHistory(typed: seq<string>)
    ensures PushedAll([], typed) == LastOf(LastOccurrences(Accepted(typed)), MAX_ENTRIES)
  {
    HistoryIsAWindow([], typed);
    assert [] + Accepted(typed) == Accepted(typed);
  }

  // ---- in the lines' own terms ----

  lemma TrimStep(s: string)
    ensures Trim(s) == "" || (!IsWhite(Trim(s)[0]) && !IsWhite(Trim(s)[|Trim(s)| - 1]))
    ensures IsTrimmed(s) ==> Trim(s) == s
    ensures !IsTrimmed(s) && IsWhite(s[0]) ==> Trim(s) == Trim(s[1..])
    ensures !IsTrimmed(s) && !IsWhite(s[0]) ==> IsWhite(s[|s| - 1]) && Trim(s) == Trim(s[..|s| - 1])
  {
    hide IsWhite;
  }

  /** What a typed line is cut to: white space goes from both ends, and nothing else. */
  lemma {:induction false} TrimmedIsInside(s: string) returns (ahead: string, behind: string)
    ensures s == ahead + (Trim(s) + behind)
    ensures All(ahead, IsWhite) && All(behind, IsWhite)
    ensures Trim(s) == "" || (!IsWhite(Trim(s)[0]) && !IsWhite(Trim(s)[|Trim(s)| - 1]))
    decreases |s|
  {
    hide Trim, IsTrimmed, IsWhite;
    TrimStep(s);
    ahead, behind := "", "";
    if !IsTrimmed(s) {
      NothingIsTrimmed();
      if IsWhite(s[0]) {
        ahead, behind := TrimmedIsInside(s[1..]);
        assert [s[0]] + ahead + (Trim(s) + behind) == [s[0]] + s[1..];
        ahead := [s[0]] + ahead;
      } else {
        ahead, behind := TrimmedIsInside(s[..|s| - 1]);
        assert ahead + (Trim(s) + (behind + [s[|s| - 1]])) == s[..|s| - 1] + [s[|s| - 1]];
        behind := behind + [s[|s| - 1]];
      }
    }
  }

  lemma NothingIsTrimmed()
    ensures IsTrimmed("")
  {}

  /** The lines that are refused: the empty one, those that start as key material does, and those of more
      than a hundred bytes. */
  predicate IsRefused(line: string) {
    line == "" || "ssh-" <= line || "ecdsa-" <= line || "sk-" <= line || "-----BEGIN" <= line || |Utf8(line)| > 100
  }

  lemma LinesRefused(line: string)
    ensures WorthKeeping(line) <==> !IsRefused(line)
  {
    hide Utf8;
  }

  /** The accepted lines: one after the other, each trimmed, those that are not refused. */
  lemma AcceptedOneByOne(typed: seq<string>, line: string)
    ensures Accepted([]) == []
    ensures Accepted(typed + [line]) == Accepted(typed) + (if IsRefused(Trim(line)) then [] else [Trim(line)])
  {
    assert (typed + [line])[..|typed + [line]| - 1] == typed;
    LinesRefused(Trim(line));
    hide Trim, WorthKeeping, IsRefused;
  }

  /** From an empty history: the last hundred accepted lines, each once, in the order of their last
      typing; all of them while there are no more. */
  lemma FreshHistoryIs(typed: seq<string>)
    ensures var h, kept := PushedAll([], typed), Accepted(typed);
            var all := LastOccurrences(kept);
            && |h| == (if |all| < 100 then |all| else 100) && h == all[|all| - |h|..]
            && (forall line :: line in all <==> line in kept)
            && (forall i, j :: 0 <= i < j < |all| ==> TypedBefore(kept, all[i], all[j]))
  {
    FreshHistory(typed);
    var kept := Accepted(typed);
    LastOccurrencesElements(kept);
    hide PushedAll, Accepted, LastOccurrences, TypedBefore;
    forall i, j | 0 <= i < j < |LastOccurrences(kept)|
      ensures TypedBefore(kept, LastOccurrences(kept)[i], LastOccurrences(kept)[j])
    {
      LastOccurrencesInOrder(kept, i, j);
    }
  }

  /** The line limit never decides: whatever passes the other rules is under it. */
  lemma LineLimitIsIdle(line: string)
    ensures WorthKeeping(line) <==> line != "" && !IsKeyMaterial(line)
  {}
}
