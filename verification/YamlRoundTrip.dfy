/**
 The YAML round trip: reading a rendering back gives the value exactly when every key is read as the
 string it is, as the writer supposes, no string is one of those the writer fails to quote or escape,
 and nothing at the margin is a document marker.
 */
module YamlRoundTrip {
  import opened Wrappers
  import opened Text
  import opened Json
  import opened Yaml
  import opened YamlReader
  import opened YamlLaws

  // ---- what has to hold of a value ----

  predicate KeysPlain(v: Value) {
    match v
    case Object(members) => MembersKeysPlain(members)
    case Array(items) => ItemsKeysPlain(items)
    case _ => true
  }

  predicate MembersKeysPlain(members: seq<Member>) {
    members != [] ==>
      IsPlainKey(members[0].key) && KeysPlain(members[0].value) && MembersKeysPlain(members[1..])
  }

  predicate ItemsKeysPlain(items: seq<Value>) {
    items != [] ==> KeysPlain(items[0]) && ItemsKeysPlain(items[1..])
  }

  /** No string anywhere in the value is misread. */
  predicate StringsSafe(v: Value) {
    match v
    case String(s) => !IsMisread(s)
    case Object(members) => MembersSafe(members)
    case Array(items) => ItemsSafe(items)
    case _ => true
  }

  predicate MembersSafe(members: seq<Member>) {
    members != [] ==> StringsSafe(members[0].value) && MembersSafe(members[1..])
  }

  predicate ItemsSafe(items: seq<Value>) {
    items != [] ==> StringsSafe(items[0]) && ItemsSafe(items[1..])
  }

  // ---- scalars and keys as lines ----

  lemma {:induction false} NoKeyEnd(s: string)
    requires forall i :: 0 <= i < |s| - 1 ==> !(s[i] == ':' && IsBlank(s[i + 1]))
    requires s == "" || s[|s| - 1] != ':'
    ensures KeyEnd(s) == None
  {
    hide IsBlank;
    if s != "" {
      forall i | 0 <= i < |s| - 2 ensures !(s[1..][i] == ':' && IsBlank(s[1..][i + 1])) {
        assert s[1..][i] == s[i + 1] && s[1..][i + 1] == s[i + 2];
      }
      NoKeyEnd(s[1..]);
    }
  }

  lemma {:induction false} KeyEndAfter(key: string, rest: string)
    requires forall i :: 0 <= i < |key| - 1 ==> !(key[i] == ':' && IsBlank(key[i + 1]))
    requires rest == "" || rest[0] == ' '
    ensures KeyEnd(key + [':'] + rest) == Some(|key|)
  {
    var t := key + [':'] + rest;
    if key != "" {
      assert t[1..] == key[1..] + [':'] + rest;
      forall i | 0 <= i < |key| - 2 ensures !(key[1..][i] == ':' && IsBlank(key[1..][i + 1])) {
        assert key[1..][i] == key[i + 1] && key[1..][i + 1] == key[i + 2];
      }
      KeyEndAfter(key[1..], rest);
      assert |t| > 1 && t[1] == if |key| > 1 then key[1] else ':';
      assert !(t[0] == ':' && (|t| == 1 || IsBlank(t[1])));
    }
  }

  /** A plain key comes back off its line; the line is no item and no broken text. */
  lemma KeyLine(key: string, rest: string)
    requires IsPlainKey(key) && (rest == "" || rest[0] == ' ')
    ensures SplitEntry(key + ":" + rest) == Some(Entry(key, rest))
    ensures !IsDash(key + ":" + rest)
    ensures var t := key + ":" + rest; t[0] != ' ' && ('\n' !in rest ==> '\n' !in t)
  {
    hide Resolves;
    KeyEndAfter(key, rest);
    var t := key + ":" + rest;
    assert t[..|key|] == key && t[|key| + 1..] == rest;
    assert t[0] == key[0] && t[1] == if |key| > 1 then key[1] else ':';
    assert forall i :: 0 <= i < |key| ==> key[i] != '\n' by {
      assert !IsPlainChar('\n');
    }
  }

  /** A first character that starts neither a key nor a quoted string nor a line break or a blank. */
  predicate IsScalarLine(t: string) {
    t != "" && t[0] != ' ' && '\n' !in t && SplitEntry(t) == None && !IsDash(t)
  }

  lemma QuotedLine(s: string)
    ensures IsScalarLine("\"" + Escaped(s) + "\"")
  {
    UnescapedUndoesEscaped(s);
    hide Escaped, Resolves;
    var t := "\"" + Escaped(s) + "\"";
    assert t[0] == '"';
    QuotesStartNoKey(t);
  }

  lemma QuotesStartNoKey(t: string)
    requires t != "" && t[0] == '"'
    ensures SplitEntry(t) == None
  {
    hide Resolves;
    if KeyEnd(t).Some? && 0 < KeyEnd(t).value <= |t| {
      assert t[..KeyEnd(t).value][0] == '"';
    }
  }

  lemma BareLine(s: string)
    requires !NeedsQuotes(s)
    ensures IsScalarLine(s)
  {
    BareStrings(s);
    BareChars(s);
    hide NeedsQuotes, Resolves, IsPlainText;
    NoKeyEnd(s);
    assert IsControl('\n');
  }

  lemma {:induction false} NoColonNoKey(s: string)
    requires ':' !in s
    ensures SplitEntry(s) == None
  {
    NoKeyEnd(s);
  }

  lemma NumberLine(n: int)
    ensures IsScalarLine(IntText(n))
  {
    IntTextReadsBack(n);
    NumbersRead(n);
    NoColonNoKey(IntText(n));
    var t := IntText(n);
    hide IntText;
    assert t[|t| - 1] != ' ' && t[|t| - 1] != '-';
  }

  lemma ScalarLine(v: Value)
    requires !IsBlock(v)
    ensures IsScalarLine(Scalar(v))
  {
    match v {
      case Number(n) => NumberLine(n);
      case String(s) => if NeedsQuotes(s) { QuotedLine(s); } else { BareLine(s); }
      case Null => NoColonNoKey("null");
      case Bool(b) => NoColonNoKey("true"); NoColonNoKey("false");
      case Array(_) => NoColonNoKey("[]");
      case Object(_) => NoColonNoKey("{}");
    }
  }

  // ---- the structure reads back ----

  /** The lines after a block: none, or one further out. */
  predicate Stops(rest: seq<Line>, depth: nat) {
    rest == [] || rest[0].depth < depth
  }

  /** What stands behind a key's colon. */
  function Tail(v: Value): string {
    if IsBlock(v) then "" else " " + Scalar(v)
  }

  lemma HeadParts(m: Member)
    ensures Head(m) == m.key + ":" + Tail(m.value)
    ensures Tail(m.value) == "" || Tail(m.value)[0] == ' '
    ensures '\n' !in Tail(m.value)
  {
    if IsBlock(m.value) {
      assert m.key + ":" + "" == m.key + ":";
    } else {
      ScalarLine(m.value);
      hide SplitEntry, Scalar;
      assert m.key + ":" + (" " + Scalar(m.value)) == m.key + ": " + Scalar(m.value);
    }
  }

  /** A member's first line: an entry of its key, and no item. */
  lemma HeadIsAnEntry(m: Member)
    requires IsPlainKey(m.key)
    ensures SplitEntry(Head(m)) == Some(Entry(m.key, Tail(m.value)))
    ensures !IsDash(Head(m))
    ensures Head(m) != "" && Head(m)[0] != ' ' && '\n' !in Head(m)
  {
    hide *;
    HeadParts(m);
    KeyLine(m.key, Tail(m.value));
  }

  /** What follows a member's first line: its block, then the rest. */
  function Below(v: Value, depth: nat, after: seq<Line>): seq<Line> {
    if IsBlock(v) then NodeLines(v, depth) + after else after
  }

  lemma EntriesOpen(members: seq<Member>, depth: nat, rest: seq<Line>)
    requires members != []
    ensures EntryLines(members, depth) + rest
         == [Line(depth, Head(members[0]))] + Below(members[0].value, depth + 1, EntryLines(members[1..], depth) + rest)
  {
    var m, tail := members[0], EntryLines(members[1..], depth) + rest;
    assert EntryLines(members, depth) + rest == OneEntry(m, depth) + tail;
    OneEntryOpens(m, depth, tail);
    hide EntryLines, OneEntry, Head, Below;
  }

  lemma OneEntryOpens(m: Member, depth: nat, tail: seq<Line>)
    ensures OneEntry(m, depth) + tail == [Line(depth, Head(m))] + Below(m.value, depth + 1, tail)
  {
    hide NodeLines, Scalar;
  }

  /** Reading one member, when its block reads back. */
  lemma EntryReads(m: Member, depth: nat, after: seq<Line>)
    requires IsPlainKey(m.key)
    requires IsBlock(m.value) ==>
               ReadNode(NodeLines(m.value, depth + 1) + after, depth + 1) ==
                 if StringsSafe(m.value) then Some((m.value, after)) else None
    ensures ReadEntries([Line(depth, Head(m))] + Below(m.value, depth + 1, after), depth) ==
              if !StringsSafe(m.value) || ReadEntries(after, depth) == None then None
              else Some(([m] + ReadEntries(after, depth).value.0, ReadEntries(after, depth).value.1))
  {
    HeadIsAnEntry(m);
    var below := Below(m.value, depth + 1, after);
    var ls := [Line(depth, Head(m))] + below;
    assert ls[1..] == below;
    if IsBlock(m.value) {
      hide SplitEntry, NodeLines, Head, IsDash, ReadNode;
    } else {
      var t := Scalar(m.value);
      assert (" " + t)[1..] == t;
      ScalarsReadBack(m.value);
      hide SplitEntry, NodeLines, Head, IsDash, Scalar, ReadScalar;
    }
  }

  lemma AnItemOpens(items: seq<Value>, depth: nat, rest: seq<Line>)
    requires items != []
    ensures ItemLines(items, depth) + rest == OneItem(items[0], depth) + (ItemLines(items[1..], depth) + rest)
    ensures IsDash((ItemLines(items, depth) + rest)[0].text)
  {
    var ls := ItemLines(items, depth);
    assert ls[0] == OneItem(items[0], depth)[0];
    DashAhead(items[0], depth);
  }

  lemma DashAhead(v: Value, depth: nat)
    ensures IsDash(OneItem(v, depth)[0].text)
  {}

  /** A line that starts an item, or is no block's line at all, reads as a node of its own. */
  lemma {:induction false} NodeReadsBack(v: Value, depth: nat, rest: seq<Line>)
    requires KeysPlain(v) && Stops(rest, depth)
    ensures ReadNode(NodeLines(v, depth) + rest, depth) == if StringsSafe(v) then Some((v, rest)) else None
    decreases v, 3
  {
    var ls := NodeLines(v, depth) + rest;
    if v.Object? && v.members != [] {
      EntriesReadBack(v.members, depth, rest);
      EntriesOpen(v.members, depth, rest);
      HeadIsAnEntry(v.members[0]);
      hide SplitEntry, EntryLines, Head, IsDash, ReadEntries;
      assert |rest| < |ls|;
    } else if v.Array? && v.items != [] {
      ItemsReadBack(v.items, depth, rest);
      AnItemOpens(v.items, depth, rest);
      hide SplitEntry, ItemLines, OneItem, Head, IsDash, ReadItems;
      assert |rest| < |ls|;
    } else {
      ScalarLine(v);
      ScalarsReadBack(v);
      assert ls[1..] == rest;
      hide SplitEntry, IsDash, ReadScalar, Scalar;
    }
  }

  lemma {:induction false} EntriesReadBack(members: seq<Member>, depth: nat, rest: seq<Line>)
    requires MembersKeysPlain(members) && Stops(rest, depth)
    ensures ReadEntries(EntryLines(members, depth) + rest, depth)
         == if MembersSafe(members) then Some((members, rest)) else None
    decreases members, 2
  {
    if members == [] {
      assert EntryLines(members, depth) + rest == rest;
    } else {
      var m, after := members[0], EntryLines(members[1..], depth) + rest;
      assert members == [m] + members[1..];
      EntriesReadBack(members[1..], depth, rest);
      EntriesOpen(members, depth, rest);
      if IsBlock(m.value) {
        AfterAnEntry(members, depth, rest);
        NodeReadsBack(m.value, depth + 1, after);
      }
      EntryReads(m, depth, after);
      hide ReadEntries, EntryLines;
    }
  }

  lemma AfterAnEntry(members: seq<Member>, depth: nat, rest: seq<Line>)
    requires members != [] && Stops(rest, depth)
    ensures Stops(EntryLines(members[1..], depth) + rest, depth + 1)
  {}

  lemma AfterAnItem(items: seq<Value>, depth: nat, rest: seq<Line>)
    requires items != [] && Stops(rest, depth)
    ensures Stops(ItemLines(items[1..], depth) + rest, depth + 1)
  {}

  /** What follows the dash is read as a line one level in. */
  lemma DashUnfolds(es: seq<Line>, after: seq<Line>, depth: nat)
    requires es != [] && es[0].depth == depth + 1 && SplitEntry(es[0].text).Some?
    ensures ReadItem(Dashed(es, depth) + after, depth) ==
              var r := ReadEntries(es + after, depth + 1);
              if r.Some? && |r.value.1| < |es| + |after| then Some((Object(r.value.0), r.value.1)) else None
  {
    hide *;
    DashedFirst(es, after, depth);
    DashItem(Dashed(es, depth) + after, es[0].text, depth);
  }

  lemma DashedFirst(es: seq<Line>, after: seq<Line>, depth: nat)
    requires es != [] && es[0].depth == depth + 1
    ensures var ls := Dashed(es, depth) + after;
            && |ls| == |es| + |after| && ls[0].text == "- " + es[0].text
            && [Line(depth + 1, es[0].text)] + ls[1..] == es + after
  {
    assert (Dashed(es, depth) + after)[1..] == es[1..] + after;
    assert [es[0]] + (es[1..] + after) == es + after;
  }

  lemma DashItem(ls: seq<Line>, t: string, depth: nat)
    requires ls != [] && ls[0].text == "- " + t && SplitEntry(t).Some?
    ensures IsDash(ls[0].text)
    ensures ReadItem(ls, depth) ==
              var r := ReadEntries([Line(depth + 1, t)] + ls[1..], depth + 1);
              if r.Some? && |r.value.1| < |ls| then Some((Object(r.value.0), r.value.1)) else None
  {
    DashText(t);
    hide SplitEntry, ReadEntries, IsDash;
  }

  lemma DashText(t: string)
    ensures "- " + t != "-" && ("- " + t)[2..] == t && IsDash("- " + t)
  {}

  /** An item's members, read as if its first line stood one level in without the dash. */
  lemma DashedReads(members: seq<Member>, depth: nat, after: seq<Line>)
    requires members != [] && IsPlainKey(members[0].key)
    requires ReadEntries(EntryLines(members, depth + 1) + after, depth + 1) ==
               if MembersSafe(members) then Some((members, after)) else None
    ensures ReadItem(Dashed(EntryLines(members, depth + 1), depth) + after, depth) ==
              if MembersSafe(members) then Some((Object(members), after)) else None
  {
    var es := EntryLines(members, depth + 1);
    FirstEntry(members, depth + 1);
    hide *;
    DashUnfolds(es, after, depth);
  }

  lemma FirstEntry(members: seq<Member>, depth: nat)
    requires members != [] && IsPlainKey(members[0].key)
    ensures EntryLines(members, depth)[0].depth == depth && SplitEntry(EntryLines(members, depth)[0].text).Some?
  {
    EntriesOpen(members, depth, []);
    HeadIsAnEntry(members[0]);
    assert EntryLines(members, depth) + [] == EntryLines(members, depth);
    hide EntryLines, Head, SplitEntry;
  }

  lemma ScalarItemReads(v: Value, depth: nat, after: seq<Line>)
    requires !IsBlock(v)
    ensures ReadItem(OneItem(v, depth) + after, depth) == if StringsSafe(v) then Some((v, after)) else None
  {
    var ls, t := OneItem(v, depth) + after, Scalar(v);
    ScalarLine(v);
    ScalarsReadBack(v);
    assert ls[0].text == "- " + t && ("- " + t)[2..] == t && ls[1..] == after;
    hide SplitEntry, ReadScalar, Scalar;
    assert ls[0].text != "-";
  }

  lemma ItemsUnfold(v: Value, depth: nat, after: seq<Line>)
    requires ReadItem(OneItem(v, depth) + after, depth) == if StringsSafe(v) then Some((v, after)) else None
    ensures ReadItems(OneItem(v, depth) + after, depth) ==
              if !StringsSafe(v) || ReadItems(after, depth) == None then None
              else Some(([v] + ReadItems(after, depth).value.0, ReadItems(after, depth).value.1))
  {
    DashAhead(v, depth);
    var ls := OneItem(v, depth) + after;
    assert ls[0] == OneItem(v, depth)[0];
    hide OneItem, IsDash, ReadItem, StringsSafe;
  }

  lemma ArrayItemReads(v: Value, depth: nat, after: seq<Line>)
    requires v.Array? && v.items != []
    ensures ReadItem(OneItem(v, depth) + after, depth) == ReadNode(NodeLines(v, depth + 1) + after, depth + 1)
  {
    var ls := OneItem(v, depth) + after;
    assert ls[0].text == "-";
    assert ls[1..] == NodeLines(v, depth + 1) + after;
    hide NodeLines, ReadNode, OneItem;
  }

  lemma {:induction false} ItemsReadBack(items: seq<Value>, depth: nat, rest: seq<Line>)
    requires ItemsKeysPlain(items) && Stops(rest, depth)
    ensures ReadItems(ItemLines(items, depth) + rest, depth)
         == if ItemsSafe(items) then Some((items, rest)) else None
    decreases items, 2
  {
    if items == [] {
      assert ItemLines(items, depth) + rest == rest;
    } else {
      var v, after := items[0], ItemLines(items[1..], depth) + rest;
      assert items == [v] + items[1..];
      ItemsReadBack(items[1..], depth, rest);
      AnItemOpens(items, depth, rest);
      AfterAnItem(items, depth, rest);
      if v.Object? && v.members != [] {
        EntriesReadBack(v.members, depth + 1, after);
        DashedReads(v.members, depth, after);
      } else if v.Array? && v.items != [] {
        NodeReadsBack(v, depth + 1, after);
        ArrayItemReads(v, depth, after);
      } else {
        ScalarItemReads(v, depth, after);
      }
      ItemsUnfold(v, depth, after);
      hide ItemLines, EntryLines, ReadItems, ReadItem, ReadNode;
    }
  }

  // ---- lines and text ----

  predicate IsGoodLine(l: Line) {
    l.text != "" && l.text[0] != ' ' && '\n' !in l.text
  }

  predicate GoodLines(ls: seq<Line>) {
    forall i :: 0 <= i < |ls| ==> IsGoodLine(ls[i])
  }

  lemma {:induction false} NodeLinesAreGood(v: Value, depth: nat)
    requires KeysPlain(v)
    ensures GoodLines(NodeLines(v, depth))
    decreases v, 3
  {
    if v.Object? && v.members != [] {
      EntryLinesAreGood(v.members, depth);
    } else if v.Array? && v.items != [] {
      ItemLinesAreGood(v.items, depth);
    } else {
      ScalarLine(v);
    }
  }

  lemma {:induction false} EntryLinesAreGood(members: seq<Member>, depth: nat)
    requires MembersKeysPlain(members)
    ensures GoodLines(EntryLines(members, depth))
    decreases members, 2
  {
    if members != [] {
      OneEntryIsGood(members[0], depth);
      EntryLinesAreGood(members[1..], depth);
      hide OneEntry, KeysPlain, IsPlainKey, IsGoodLine;
    }
  }

  lemma {:induction false} OneEntryIsGood(m: Member, depth: nat)
    requires IsPlainKey(m.key) && KeysPlain(m.value)
    ensures GoodLines(OneEntry(m, depth))
    decreases m, 4
  {
    HeadIsAnEntry(m);
    if IsBlock(m.value) {
      NodeLinesAreGood(m.value, depth + 1);
    }
    OneEntryOpens(m, depth, []);
    assert OneEntry(m, depth) + [] == OneEntry(m, depth);
    hide OneEntry, Head, NodeLines, SplitEntry, KeysPlain, IsPlainKey;
  }

  lemma {:induction false} ItemLinesAreGood(items: seq<Value>, depth: nat)
    requires ItemsKeysPlain(items)
    ensures GoodLines(ItemLines(items, depth))
    decreases items, 2
  {
    if items != [] {
      OneItemIsGood(items[0], depth);
      ItemLinesAreGood(items[1..], depth);
      hide OneItem, KeysPlain, IsGoodLine;
    }
  }

  lemma {:induction false} OneItemIsGood(v: Value, depth: nat)
    requires KeysPlain(v)
    ensures GoodLines(OneItem(v, depth))
    decreases v, 4
  {
    if v.Object? && v.members != [] {
      EntryLinesAreGood(v.members, depth + 1);
    } else if v.Array? && v.items != [] {
      NodeLinesAreGood(v, depth + 1);
    } else {
      ScalarLine(v);
    }
    hide EntryLines, NodeLines, Scalar, SplitEntry;
  }

  lemma {:induction false} FirstLineOf(s: string, rest: string)
    requires '\n' !in s
    ensures FirstLine(s + "\n" + rest) == Some(s)
  {
    if s == "" {
      assert s + "\n" + rest == "\n" + rest;
    } else {
      assert (s + "\n" + rest)[1..] == s[1..] + "\n" + rest;
      FirstLineOf(s[1..], rest);
      assert s == [s[0]] + s[1..];
    }
  }

  lemma {:induction false} LeadingSpacesOf(n: nat, text: string)
    requires text != "" && text[0] != ' '
    ensures LeadingSpaces(Spaces(n) + text) == n
  {
    if n > 0 {
      assert (Spaces(n) + text)[1..] == Spaces(n - 1) + text;
      LeadingSpacesOf(n - 1, text);
    } else {
      assert Spaces(0) + text == text;
    }
  }

  lemma {:induction false} LinesReadBack(ls: seq<Line>)
    requires GoodLines(ls)
    ensures ReadLines(LinesText(ls)) == Some(ls)
  {
    if ls != [] {
      var l, rest := ls[0], LinesText(ls[1..]);
      LinesReadBack(ls[1..]);
      var text := Spaces(2 * l.depth) + l.text;
      FirstLineOf(text, rest);
      LeadingSpacesOf(2 * l.depth, l.text);
      var all := text + "\n" + rest;
      assert LinesText(ls) == all;
      assert all[|text| + 1..] == rest;
      assert text[2 * l.depth..] == l.text;
      assert ls == [l] + ls[1..];
      hide LinesText, FirstLine, LeadingSpaces;
      assert 2 * l.depth % 2 == 0 && 2 * l.depth / 2 == l.depth;
    }
  }

  // ---- document markers ----

  /** A key that makes its line at the margin a marker. */
  predicate IsMarkerKey(key: string) {
    |key| > 3 && IsMarker(key)
  }

  /** The value's first level puts a marker at the margin: a bare string, or a key, that is `---` or
      `...`, or goes on after one with a blank. */
  predicate IsMarked(v: Value) {
    match v
    case String(s) => !NeedsQuotes(s) && IsMarker(s)
    case Object(members) => AnyMarkerKey(members)
    case _ => false
  }

  predicate AnyMarkerKey(members: seq<Member>) {
    exists i :: 0 <= i < |members| && IsMarkerKey(members[i].key)
  }

  predicate DeeperThan(ls: seq<Line>, depth: nat) {
    forall i :: 0 <= i < |ls| ==> ls[i].depth >= depth
  }

  lemma {:induction false} NodeLinesAreDeep(v: Value, depth: nat)
    ensures DeeperThan(NodeLines(v, depth), depth)
    decreases v, 3
  {
    if v.Object? && v.members != [] {
      EntryLinesAreDeep(v.members, depth);
    } else if v.Array? && v.items != [] {
      ItemLinesAreDeep(v.items, depth);
    }
  }

  lemma {:induction false} EntryLinesAreDeep(members: seq<Member>, depth: nat)
    ensures DeeperThan(EntryLines(members, depth), depth)
    decreases members, 2
  {
    if members != [] {
      if IsBlock(members[0].value) {
        NodeLinesAreDeep(members[0].value, depth + 1);
      }
      EntryLinesAreDeep(members[1..], depth);
      hide NodeLines, Scalar;
    }
  }

  lemma {:induction false} ItemLinesAreDeep(items: seq<Value>, depth: nat)
    ensures DeeperThan(ItemLines(items, depth), depth)
    decreases items, 2
  {
    if items != [] {
      OneItemIsDeep(items[0], depth);
      ItemLinesAreDeep(items[1..], depth);
      hide OneItem;
    }
  }

  lemma {:induction false} OneItemIsDeep(v: Value, depth: nat)
    ensures DeeperThan(OneItem(v, depth), depth)
    ensures DeeperThan(OneItem(v, depth)[1..], depth + 1)
    ensures StartsWith(OneItem(v, depth)[0].text, "-") && !IsMarker(OneItem(v, depth)[0].text)
    decreases v, 4
  {
    if v.Object? && v.members != [] {
      EntryLinesAreDeep(v.members, depth + 1);
    } else if v.Array? && v.items != [] {
      NodeLinesAreDeep(v, depth + 1);
    }
    hide NodeLines, EntryLines, Scalar, IsMarker;
    DashIsNoMarker(OneItem(v, depth)[0].text);
  }

  lemma DashIsNoMarker(t: string)
    ensures t == "-" || StartsWith(t, "- ") ==> StartsWith(t, "-") && !IsMarker(t)
  {
    if StartsWith(t, "- ") {
      assert t[0] == '-' && t[1] == ' ';
    }
  }

  lemma MarkersApart(a: seq<Line>, b: seq<Line>)
    ensures HasMarker(a + b) <==> HasMarker(a) || HasMarker(b)
  {
    if HasMarker(a) {
      var i :| 0 <= i < |a| && a[i].depth == 0 && IsMarker(a[i].text);
      assert (a + b)[i] == a[i];
    }
    if HasMarker(b) {
      var i :| 0 <= i < |b| && b[i].depth == 0 && IsMarker(b[i].text);
      assert (a + b)[|a| + i] == b[i];
    }
  }

  lemma NoMarkersDeep(ls: seq<Line>)
    requires DeeperThan(ls, 1)
    ensures !HasMarker(ls)
  {}

  lemma HeadMarker(m: Member)
    requires IsPlainKey(m.key)
    ensures IsMarker(Head(m)) <==> IsMarkerKey(m.key)
  {
    hide *;
    HeadParts(m);
    MarkerBehind(m.key, Tail(m.value));
  }

  lemma MarkerBehind(key: string, rest: string)
    ensures IsMarker(key + ":" + rest) <==> IsMarkerKey(key)
  {
    var t := key + ":" + rest;
    assert forall i :: 0 <= i < |key| ==> t[i] == key[i];
    assert t[|key|] == ':';
  }

  /** The first line of a member is a marker when its key makes it one; its block is further in. */
  lemma OneEntryMarker(m: Member)
    requires IsPlainKey(m.key)
    ensures HasMarker(OneEntry(m, 0)) <==> IsMarkerKey(m.key)
  {
    HeadMarker(m);
    var below := if IsBlock(m.value) then NodeLines(m.value, 1) else [];
    var line := [Line(0, Head(m))];
    assert OneEntry(m, 0) == line + below;
    NodeLinesAreDeep(m.value, 1);
    NoMarkersDeep(below);
    MarkersApart(line, below);
    assert line[0].depth == 0 && line[0].text == Head(m);
    hide OneEntry, NodeLines, Head, IsMarker, IsPlainKey;
  }

  lemma MarkerKeysBehind(members: seq<Member>)
    requires members != []
    ensures AnyMarkerKey(members) <==> IsMarkerKey(members[0].key) || AnyMarkerKey(members[1..])
  {
    hide IsMarkerKey;
    assert forall i :: 1 <= i < |members| ==> members[i] == members[1..][i - 1];
    if AnyMarkerKey(members[1..]) {
      var i :| 0 <= i < |members[1..]| && IsMarkerKey(members[1..][i].key);
      assert IsMarkerKey(members[i + 1].key);
    }
  }

  lemma {:induction false} EntryMarkers(members: seq<Member>)
    requires MembersKeysPlain(members)
    ensures HasMarker(EntryLines(members, 0)) <==> AnyMarkerKey(members)
  {
    if members != [] {
      OneEntryMarker(members[0]);
      EntryMarkers(members[1..]);
      MarkersApart(OneEntry(members[0], 0), EntryLines(members[1..], 0));
      MarkerKeysBehind(members);
      hide OneEntry, AnyMarkerKey, IsMarkerKey, HasMarker, IsPlainKey, KeysPlain;
    }
  }

  lemma {:induction false} ItemMarkers(items: seq<Value>)
    ensures !HasMarker(ItemLines(items, 0))
  {
    if items != [] {
      var first := OneItem(items[0], 0);
      OneItemIsDeep(items[0], 0);
      ItemMarkers(items[1..]);
      MarkersApart(first, ItemLines(items[1..], 0));
      hide OneItem, IsMarker;
    }
  }

  lemma ScalarMarker(v: Value)
    requires !IsBlock(v)
    ensures HasMarker([Line(0, Scalar(v))]) <==> IsMarked(v)
  {
    assert [Line(0, Scalar(v))][0].text == Scalar(v);
    match v {
      case Number(n) =>
        IntTextReadsBack(n);
        NumberIsNoMarker(n);
      case String(s) =>
        QuotedIsNoMarker(Escaped(s));
        hide Escaped, NeedsQuotes, IsMarker;
      case _ =>
    }
  }

  lemma QuotedIsNoMarker(t: string)
    ensures !IsMarker("\"" + t + "\"")
  {
    assert ("\"" + t + "\"")[0] == '"';
  }

  lemma NumberIsNoMarker(n: int)
    ensures !IsMarker(IntText(n))
  {
    var t := IntText(n);
    IntTextReadsBack(n);
    if n < 0 {
      assert t == "-" + NatText(-n) && IsDigit(NatText(-n)[0]) && t[1] == NatText(-n)[0];
    } else {
      assert IsDigit(t[0]);
    }
  }

  /** A rendering has a marker at its margin exactly when the value's first level puts one there. */
  lemma MarkersAreTheFirstLevels(v: Value)
    requires KeysPlain(v)
    ensures HasMarker(NodeLines(v, 0)) <==> IsMarked(v)
  {
    if v.Object? && v.members != [] {
      EntryMarkers(v.members);
      hide EntryLines, HasMarker, AnyMarkerKey;
    } else if v.Array? && v.items != [] {
      ItemMarkers(v.items);
      hide ItemLines, HasMarker;
    } else {
      ScalarMarker(v);
      hide Scalar, HasMarker, IsMarked;
    }
  }

  /** With plain keys a rendering is read as its value, or, when a string is misread or a marker stands
      at the margin, not as itself. What this reader then refuses YAML refuses too, but for a string that
      `IsReadOtherwise` and a document that a marker ends. */
  lemma PlainKeysReadBack(v: Value)
    requires KeysPlain(v)
    ensures Read(Render(v)) == if StringsSafe(v) && !IsMarked(v) then Some(v) else None
  {
    NodeLinesAreGood(v, 0);
    LinesReadBack(NodeLines(v, 0));
    NodeReadsBack(v, 0, []);
    assert NodeLines(v, 0) + [] == NodeLines(v, 0);
    MarkersAreTheFirstLevels(v);
    hide NodeLines, LinesText, ReadLines, ReadNode, HasMarker, IsMarked, StringsSafe, KeysPlain, GoodLines;
  }

  // ---- whatever the reader returns has plain keys ----

  lemma ScalarsHaveNoKeys(t: string)
    requires ReadScalar(t).Some?
    ensures KeysPlain(ReadScalar(t).value)
  {}

  lemma {:induction false} NodeKeysPlain(ls: seq<Line>, depth: nat)
    requires ReadNode(ls, depth).Some?
    ensures KeysPlain(ReadNode(ls, depth).value.0)
    decreases |ls|, 3
  {
    if IsDash(ls[0].text) {
      ItemsReadKeysPlain(ls, depth);
    } else if SplitEntry(ls[0].text).Some? {
      EntriesReadKeysPlain(ls, depth);
    } else {
      ScalarsHaveNoKeys(ls[0].text);
    }
  }

  lemma {:induction false} EntriesReadKeysPlain(ls: seq<Line>, depth: nat)
    requires ReadEntries(ls, depth).Some?
    ensures MembersKeysPlain(ReadEntries(ls, depth).value.0)
    decreases |ls|, 0
  {
    if ls != [] && ls[0].depth == depth && !IsDash(ls[0].text) && SplitEntry(ls[0].text).Some? {
      var e := SplitEntry(ls[0].text).value;
      assert IsPlainKey(e.key);
      var after;
      if e.rest == "" {
        NodeKeysPlain(ls[1..], depth + 1);
        after := ReadNode(ls[1..], depth + 1).value.1;
      } else {
        ScalarsHaveNoKeys(e.rest[1..]);
        after := ls[1..];
      }
      EntriesReadKeysPlain(after, depth);
    }
  }

  lemma {:induction false} ItemsReadKeysPlain(ls: seq<Line>, depth: nat)
    requires ReadItems(ls, depth).Some?
    ensures ItemsKeysPlain(ReadItems(ls, depth).value.0)
    decreases |ls|, 2
  {
    if ls != [] && ls[0].depth == depth && IsDash(ls[0].text) {
      ItemKeysPlain(ls, depth);
      ItemsReadKeysPlain(ReadItem(ls, depth).value.1, depth);
    }
  }

  lemma {:induction false} ItemKeysPlain(ls: seq<Line>, depth: nat)
    requires ls != [] && IsDash(ls[0].text) && ReadItem(ls, depth).Some?
    ensures KeysPlain(ReadItem(ls, depth).value.0)
    decreases |ls|, 1
  {
    var t := ls[0].text;
    if t == "-" {
      NodeKeysPlain(ls[1..], depth + 1);
    } else if SplitEntry(t[2..]).Some? {
      EntriesReadKeysPlain([Line(depth + 1, t[2..])] + ls[1..], depth + 1);
    } else {
      ScalarsHaveNoKeys(t[2..]);
    }
  }

  // ---- the round trip ----

  /** A rendering reads back as its value exactly when the keys are plain, no string is misread, and no
      marker stands at the margin. */
  lemma ReadsBackIffPlain(v: Value)
    ensures Read(Render(v)) == Some(v) <==> KeysPlain(v) && StringsSafe(v) && !IsMarked(v)
  {
    if KeysPlain(v) {
      PlainKeysReadBack(v);
    } else if Read(Render(v)) == Some(v) {
      NodeKeysPlain(ReadLines(Render(v)).value, 0);
      assert false;
    }
  }

  /** A property name, with the `$` of the Prism Central's own annotations, is a plain key exactly when
      it is not too long and not a word or number YAML knows. */
  lemma IdentifiersArePlain(key: string)
    requires key != "" && All(key, IsIdentifierChar)
    ensures IsPlainKey(key) <==> |key| <= MAX_KEY && !Resolves(key)
  {
    hide Resolves;
  }

  /** Those are the null and boolean words in three spellings, and nothing else that starts with no digit. */
  lemma NamesDoNotResolve(key: string)
    requires key != "" && All(key, IsIdentifierChar) && !IsDigit(key[0])
    ensures Resolves(key) <==> IsNullWord(key) || IsTrueWord(key) || IsFalseWord(key)
    ensures Resolves(key) ==> LowerCase(key) in ["null", "true", "yes", "on", "false", "no", "off"]
  {
    assert Unsigned(key) == key && DigitsAhead(key) == 0;
    assert !IsIntText(key) && !IsDecimal(key);
    WordsInSmallLetters(key);
    assert LowerCase(key)[0] == Lower(key[0]);
    hide IsNullWord, IsTrueWord, IsFalseWord, IsIntText, IsDecimal, LowerCase;
    assert "~"[0] == '~' && key[0] != '~';
  }

  /** The writer loses nothing else: two values with plain keys and safe strings that are written alike
      are the same value. */
  lemma RenderingsTellApart(v: Value, w: Value)
    requires KeysPlain(v) && StringsSafe(v) && KeysPlain(w) && StringsSafe(w) && Render(v) == Render(w)
    ensures v == w
  {
    LinesTellApart(v);
    LinesTellApart(w);
  }

  lemma LinesTellApart(v: Value)
    requires KeysPlain(v) && StringsSafe(v)
    ensures ReadLines(Render(v)).Some? && ReadNode(ReadLines(Render(v)).value, 0) == Some((v, []))
  {
    NodeLinesAreGood(v, 0);
    LinesReadBack(NodeLines(v, 0));
    NodeReadsBack(v, 0, []);
    assert NodeLines(v, 0) + [] == NodeLines(v, 0);
    hide NodeLines, LinesText, ReadLines, ReadNode, StringsSafe, KeysPlain, GoodLines;
  }

  /** A key with a line break in it is written as nested objects are: two values, one text. */
  lemma KeysCanCollide(outer: string, key: string, v: Value)
    requires !IsBlock(v)
    ensures var flat := Object([Member(outer + ":" + ("\n  " + key), v)]);
            var nested := Object([Member(outer, Object([Member(key, v)]))]);
            flat != nested && Render(flat) == Render(nested)
  {
    var broken := outer + ":" + ("\n  " + key);
    OneEntryRenders(broken, v);
    NestedRenders(outer, key, v);
    hide Render, RawLine, Scalar;
    BrokenLine(outer + ":", key, ": ", Scalar(v));
    assert |broken| > |outer|;
  }

  /** A line with a line break and two spaces in it is two lines. */
  lemma BrokenLine(x: string, key: string, colon: string, t: string)
    ensures RawLine(0, x + ("\n  " + key) + colon + t) == RawLine(0, x) + RawLine(1, key + colon + t)
  {
    assert Spaces(0) == "" && Spaces(2) == "  ";
    hide Spaces;
    var line := key + colon + t;
    assert x + ("\n  " + key) + colon + t == x + "\n" + "  " + line;
  }

  lemma NestedRenders(outer: string, key: string, v: Value)
    requires !IsBlock(v)
    ensures Render(Object([Member(outer, Object([Member(key, v)]))])) ==
              RawLine(0, outer + ":") + RawLine(1, key + ": " + Scalar(v))
  {
    var inner := Object([Member(key, v)]);
    OneEntryRenders(key, v);
    NestedLines([Member(outer, inner)], outer, inner);
    hide NodeLines, Scalar, LinesText, RawLine;
    var line := Line(1, key + ": " + Scalar(v));
    LineAhead(Line(0, outer + ":"), [line]);
    OneLine(line);
  }

  lemma NestedLines(members: seq<Member>, outer: string, inner: Value)
    requires members == [Member(outer, inner)] && IsBlock(inner)
    ensures NodeLines(Object(members), 0) == [Line(0, outer + ":")] + NodeLines(inner, 1)
  {
    assert members[1..] == [];
    EntriesOpen(members, 0, []);
    assert EntryLines(members, 0) + [] == EntryLines(members, 0);
    assert NodeLines(inner, 1) + [] == NodeLines(inner, 1);
  }

  lemma OneEntryRenders(key: string, v: Value)
    requires !IsBlock(v)
    ensures NodeLines(Object([Member(key, v)]), 1) == [Line(1, key + ": " + Scalar(v))]
    ensures Render(Object([Member(key, v)])) == RawLine(0, key + ": " + Scalar(v))
  {
    OneEntryLines([Member(key, v)], 0);
    OneEntryLines([Member(key, v)], 1);
    hide EntryLines, Scalar, LinesText, RawLine;
    OneLine(Line(0, key + ": " + Scalar(v)));
  }

  lemma OneEntryLines(members: seq<Member>, depth: nat)
    requires |members| == 1 && !IsBlock(members[0].value)
    ensures EntryLines(members, depth) == [Line(depth, members[0].key + ": " + Scalar(members[0].value))]
  {
    assert members[1..] == [];
    EntriesOpen(members, depth, []);
    assert EntryLines(members, depth) + [] == EntryLines(members, depth);
    hide Scalar;
  }

  const BOM := '\U{FEFF}'

  /** Of each kind of misread string there are as many as there are words: a comma in front, a lone `?`,
      a byte order mark, a control character. */
  lemma MisreadStrings(word: string)
    requires word != "" && All(word, IsLetter)
    ensures IsMisread("," + word) && IsMisread("? " + word) && IsMisread("?") && IsMisread([BOM] + word)
    ensures IsMisread(['\U{1}'] + word)
    ensures !IsMisread("?" + word)
  {
    CommaIsMisread(word);
    LoneQuestionIsMisread(word);
    MarkIsMisread(word);
    Controlled(['\U{1}'] + word);
    hide IsMisread;
  }

  lemma CommaIsMisread(word: string)
    requires All(word, IsLetter)
    ensures IsMisread("," + word)
  {
    LeftBare("," + word);
    hide NeedsQuotes;
  }

  lemma LoneQuestionIsMisread(word: string)
    requires word != "" && All(word, IsLetter)
    ensures IsMisread("? " + word) && IsMisread("?") && !IsMisread("?" + word)
  {
    QuestionIsMisread("? " + word);
    QuestionIsMisread("?");
    QuestionIsMisread("?" + word);
    assert ("? " + word)[1] == ' ' && ("?" + word)[1] == word[0];
    hide IsMisread;
  }

  lemma QuestionIsMisread(s: string)
    requires s != "" && s[0] == '?' && s[|s| - 1] != ' ' && forall i :: 1 <= i < |s| ==> IsLetter(s[i]) || s[i] == ' '
    ensures IsMisread(s) <==> |s| == 1 || s[1] == ' '
  {
    LeftBare(s);
    MisreadBare(s);
    hide NeedsQuotes, IsMisread;
    assert forall i :: 0 <= i < |s| ==> !IsUnprintable(s[i]);
  }

  lemma MarkIsMisread(word: string)
    requires All(word, IsLetter)
    ensures IsMisread([BOM] + word)
  {
    var s := [BOM] + word;
    LeftBare(s);
    hide NeedsQuotes;
    assert IsUnprintable(s[0]);
  }

  /** The document's end marker, as a string alone, is left bare and ends the document. */
  lemma EndMarkerIsLost()
    ensures IsMarked(String("...")) && Read(Render(String("..."))) == None
  {
    LeftBareMarker();
    PlainKeysReadBack(String("..."));
    hide Read, Render, NeedsQuotes;
  }

  lemma LeftBareMarker()
    ensures !NeedsQuotes("...")
  {
    var s := "...";
    PointsAreNoType(s);
    PointsHoldNoSigns(s);
    hide LooksLikeOtherType, ContainsBadly;
  }

  lemma PointsAreNoType(s: string)
    requires s == "..."
    ensures !LooksLikeOtherType(s)
  {
    NotAFloat(s);
    var w := LowerCase(s);
    assert w[0] == '.' && w[1] == '.';
    hide IsFloat, LowerCase;
    assert IsTrimmed(s);
    hide IsTrimmed;
    assert ".inf"[1] == 'i' && ".nan"[1] == 'n';
  }

  lemma PointsHoldNoSigns(s: string)
    requires s == "..."
    ensures !ContainsBadly(s)
  {
    NowhereInside(s, ": ", 0);
    NowhereInside(s, " #", 0);
    NowhereInside(s, ":\t", 0);
    NoColonEnds(s);
    hide Contains, EndsWith;
    assert forall i :: 0 <= i < |s| ==> !IsControl(s[i]);
    assert '"' !in s && s[0] != '#';
    assert !StartsWith(s, "#");
  }

  lemma NotAFloat(s: string)
    requires s == "..."
    ensures !IsFloat(s)
  {
    assert LowerCase(s)[0] == '.';
    assert Unsigned(s) == s && DigitsAhead(s) == 0 && DigitsAhead(s[1..]) == 0;
  }

  lemma Controlled(s: string)
    requires s != "" && s[0] == '\U{1}'
    ensures IsMisread(s)
  {
    assert IsControl(s[0]) && IsRawControl(s[0]);
    hide LooksLikeOtherType, StartsBadly, Contains;
  }

  predicate IsOddFront(c: char) { c == ',' || c == '?' || c == BOM }

  /** A text of letters and blanks behind one of these is left bare. */
  lemma LeftBare(s: string)
    requires s != "" && IsOddFront(s[0]) && s[|s| - 1] != ' '
    requires forall i :: 1 <= i < |s| ==> IsLetter(s[i]) || s[i] == ' '
    ensures !NeedsQuotes(s)
  {
    OddFrontIsNoType(s);
    LettersHoldNoSigns(s);
    hide LooksLikeOtherType, ContainsBadly;
  }

  lemma LettersHoldNoSigns(s: string)
    requires s != "" && forall i :: 0 <= i < |s| ==> IsLetter(s[i]) || s[i] == ' ' || IsOddFront(s[i])
    ensures !ContainsBadly(s)
  {
    NowhereInside(s, ": ", 0);
    NowhereInside(s, " #", 1);
    NowhereInside(s, ":\t", 0);
    NoColonEnds(s);
    hide Contains, EndsWith;
    assert forall i :: 0 <= i < |s| ==> !IsControl(s[i]);
    assert '"' !in s && s[0] != '#';
    assert !StartsWith(s, "#");
  }

  lemma NoColonEnds(s: string)
    requires s != "" && s[|s| - 1] != ':'
    ensures !EndsWith(s, ":")
  {
    assert s[|s| - 1..][0] == s[|s| - 1];
  }

  lemma OddFrontIsNoType(s: string)
    requires s != "" && IsOddFront(s[0]) && !IsWhite(s[|s| - 1])
    ensures !LooksLikeOtherType(s)
  {
    assert LowerCase(s)[0] == s[0];
    assert DigitsAhead(s) == 0 && Unsigned(s) == s;
    assert !IsFloat(s);
    assert IsTrimmed(s);
    hide IsFloat, LowerCase, IsTrimmed;
  }

  lemma {:induction false} NowhereInside(s: string, part: string, k: nat)
    requires k < |part| && part[k] !in s
    ensures !Contains(s, part)
  {
    if s != "" {
      NowhereInside(s[1..], part, k);
    }
    if part <= s {
      PrefixHolds(s, part, k);
      assert false;
    }
  }

  lemma PrefixHolds(s: string, part: string, k: nat)
    requires part <= s && k < |part|
    ensures part[k] in s
  {
    assert s[k] == part[k];
  }
}
