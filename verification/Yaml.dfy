/**
 How a document is laid out in the detail view (`crates/core/src/yaml.rs`).

 `NodeLines` says which lines a value is written as; the methods at the end are the program's own
 writer, appending to a buffer, proved to write them. `YamlReader.dfy` reads them back.
 */
module Yaml {
  import opened Text
  import opened Json

  // ---- scalars ----

  predicate IsControl(c: char) {
    var n := c as int;
    n < 0x20 || 0x7F <= n <= 0x9F
  }

  const WORDS: seq<string> :=
    ["true", "false", "null", "~", "yes", "no", "on", "off", ".inf", "-.inf", "+.inf", ".nan"]

  predicate LooksLikeOtherType(s: string) {
    || s == ""
    || LowerCase(s) in WORDS
    || IsFloat(s)
    || StartsWith(s, "0x") || StartsWith(s, "0o") || StartsWith(s, "0b")
    || !IsTrimmed(s)
  }

  predicate StartsBadly(s: string) {
    s != "" && s[0] in "-*&!%@`[]{}|>'\" "
  }

  predicate ContainsBadly(s: string) {
    || Contains(s, ": ") || Contains(s, " #")
    || StartsWith(s, "#")
    || (exists i :: 0 <= i < |s| && IsControl(s[i]))
    || '"' in s
    || EndsWith(s, ":")
    || Contains(s, ":\t")
  }

  predicate NeedsQuotes(s: string) {
    LooksLikeOtherType(s) || StartsBadly(s) || ContainsBadly(s)
  }

  /** `str::replace` of one character. */
  function Replace(s: string, c: char, with: string): string {
    if s == "" then "" else (if s[0] == c then with else [s[0]]) + Replace(s[1..], c, with)
  }

  function Escaped(s: string): string {
    Replace(Replace(Replace(Replace(Replace(s, '\\', "\\\\"), '"', "\\\""), '\n', "\\n"), '\r', "\\r"), '\t', "\\t")
  }

  function QuoteIfNeeded(s: string): string {
    if NeedsQuotes(s) then "\"" + Escaped(s) + "\"" else s
  }

  function Scalar(v: Value): string {
    match v
    case Null => "null"
    case Bool(b) => if b then "true" else "false"
    case Number(n) => IntText(n)
    case String(s) => QuoteIfNeeded(s)
    case Object(_) => "{}"
    case Array(_) => "[]"
  }

  // ---- lines ----

  /** A line: how deep it is indented, two spaces a level, and its text from there. */
  datatype Line = Line(depth: nat, text: string)

  /** An object or array with something in it: what takes lines of its own. */
  predicate IsBlock(v: Value) {
    (v.Object? && v.members != []) || (v.Array? && v.items != [])
  }

  function NodeLines(v: Value, depth: nat): (ls: seq<Line>)
    ensures ls != [] && ls[0].depth == depth
    decreases v, 3
  {
    if v.Object? && v.members != [] then EntryLines(v.members, depth)
    else if v.Array? && v.items != [] then ItemLines(v.items, depth)
    else [Line(depth, Scalar(v))]
  }

  function EntryLines(members: seq<Member>, depth: nat): (ls: seq<Line>)
    ensures members != [] ==> ls != [] && ls[0].depth == depth
    decreases members, 2
  {
    if members == [] then []
    else OneEntry(members[0], depth) + EntryLines(members[1..], depth)
  }

  /** `key: scalar`, or `key:` and its block one level in. */
  function OneEntry(m: Member, depth: nat): (ls: seq<Line>)
    ensures ls != [] && ls[0].depth == depth
    decreases m, 4
  {
    if IsBlock(m.value) then [Line(depth, m.key + ":")] + NodeLines(m.value, depth + 1)
    else [Line(depth, m.key + ": " + Scalar(m.value))]
  }

  function ItemLines(items: seq<Value>, depth: nat): (ls: seq<Line>)
    ensures items != [] ==> ls != [] && ls[0].depth == depth
    decreases items, 2
  {
    if items == [] then []
    else OneItem(items[0], depth) + ItemLines(items[1..], depth)
  }

  /** `- scalar`, an object whose first line takes the dash, or a dash alone and an array below. */
  function OneItem(v: Value, depth: nat): (ls: seq<Line>)
    ensures ls != [] && ls[0].depth == depth
    decreases v, 4
  {
    if v.Object? && v.members != [] then Dashed(EntryLines(v.members, depth + 1), depth)
    else if v.Array? && v.items != [] then [Line(depth, "-")] + NodeLines(v, depth + 1)
    else [Line(depth, "- " + Scalar(v))]
  }

  /** The first of these lines one level out, a dash in the room that makes. */
  function Dashed(ls: seq<Line>, depth: nat): seq<Line>
    requires ls != []
  {
    [Line(depth, "- " + ls[0].text)] + ls[1..]
  }

  // ---- text ----

  function Spaces(n: nat): string { seq(n, _ => ' ') }

  function LinesText(ls: seq<Line>): string {
    if ls == [] then "" else RawLine(ls[0].depth, ls[0].text) + LinesText(ls[1..])
  }

  function Render(v: Value): string {
    LinesText(NodeLines(v, 0))
  }

  lemma {:induction false} LinesTextConcat(a: seq<Line>, b: seq<Line>)
    ensures LinesText(a + b) == LinesText(a) + LinesText(b)
  {
    if a == [] {
      assert a + b == b;
    } else {
      assert (a + b)[1..] == a[1..] + b;
      LinesTextConcat(a[1..], b);
    }
  }

  // ---- the writer ----

  class Buffer {
    var text: string

    constructor ()
      ensures text == ""
    {
      text := "";
    }

    method PushStr(s: string)
      modifies this
      ensures text == old(text) + s
    {
      text := text + s;
    }
  }

  /** A line of text under `indent` levels of two spaces. */
  function RawLine(indent: nat, text: string): string {
    Spaces(2 * indent) + text + "\n"
  }

  method PushLine(out: Buffer, indent: nat, text: string)
    modifies out
    ensures out.text == old(out.text) + RawLine(indent, text)
  {
    var k := 0;
    while k < indent
      invariant 0 <= k <= indent
      invariant out.text == old(out.text) + Spaces(2 * k)
    {
      out.PushStr("  ");
      k := k + 1;
    }
    out.PushStr(text);
    out.PushStr("\n");
  }

  lemma LineAhead(l: Line, rest: seq<Line>)
    ensures LinesText([l] + rest) == RawLine(l.depth, l.text) + LinesText(rest)
  {
    assert ([l] + rest)[1..] == rest;
  }

  lemma OneLine(l: Line)
    ensures LinesText([l]) == RawLine(l.depth, l.text)
  {
    LineAhead(l, []);
    assert [l] + [] == [l];
  }

  /** A line one level further in, its first two spaces written with the text. */
  lemma TwoSpacesIn(indent: nat, text: string)
    ensures RawLine(indent, "  " + text) == RawLine(indent + 1, text)
  {
    assert Spaces(2 * (indent + 1)) == Spaces(2 * indent) + "  ";
  }

  lemma Regroup(a: string, b: string, c: string, d: string)
    ensures a + (b + c + d) == a + b + c + d
  {}

  lemma NothingMore(s: string)
    ensures s + "" == s && "" + s == s
  {}

  /** What a member is written as before its block, and the block. */
  function Head(m: Member): string {
    if IsBlock(m.value) then m.key + ":" else m.key + ": " + Scalar(m.value)
  }

  ghost function BlockText(v: Value, depth: nat): string {
    if IsBlock(v) then LinesText(NodeLines(v, depth)) else ""
  }

  /** The text of the members from `i` on. */
  ghost function EntriesText(members: seq<Member>, i: nat, indent: nat): string
    requires i <= |members|
  {
    LinesText(EntryLines(members[i..], indent))
  }

  lemma EntriesTextEnds(members: seq<Member>, indent: nat)
    ensures EntriesText(members, |members|, indent) == ""
  {}

  lemma EntriesTextStep(members: seq<Member>, i: nat, indent: nat)
    requires i < |members|
    ensures var m := members[i];
            EntriesText(members, i, indent) ==
              RawLine(indent, Head(m)) + BlockText(m.value, indent + 1) + EntriesText(members, i + 1, indent)
  {
    var m, rest := members[i], EntryLines(members[i + 1..], indent);
    assert members[i..][0] == m && members[i..][1..] == members[i + 1..];
    LinesTextConcat(OneEntry(m, indent), rest);
    LineAhead(Line(indent, Head(m)), if IsBlock(m.value) then NodeLines(m.value, indent + 1) else []);
    assert [Line(indent, Head(m))] + [] == [Line(indent, Head(m))];
  }

  /** The text of an item's members from `i` on: the first of them takes the dash. */
  ghost function DashedText(members: seq<Member>, i: nat, indent: nat): string
    requires members != [] && i <= |members|
  {
    if i == 0 then LinesText(Dashed(EntryLines(members, indent + 1), indent)) else EntriesText(members, i, indent + 1)
  }

  /** The dash before an item's first member, and the room for one before the rest. */
  function Prefix(first: bool): string { if first then "- " else "  " }

  lemma DashedTextEnds(members: seq<Member>, indent: nat)
    requires members != []
    ensures DashedText(members, |members|, indent) == ""
  {}

  lemma DashedTextStep(members: seq<Member>, i: nat, indent: nat)
    requires i < |members|
    ensures var m, prefix := members[i], if i == 0 then Prefix(true) else Prefix(false);
            DashedText(members, i, indent) ==
              RawLine(indent, prefix + Head(m)) + BlockText(m.value, indent + 2) + DashedText(members, i + 1, indent)
  {
    var m := members[i];
    if i > 0 {
      EntriesTextStep(members, i, indent + 1);
      TwoSpacesIn(indent, Head(m));
    } else {
      var block := if IsBlock(m.value) then NodeLines(m.value, indent + 2) else [];
      var rest := EntryLines(members[1..], indent + 1);
      assert OneEntry(m, indent + 1) == [Line(indent + 1, Head(m))] + block;
      var ls := EntryLines(members, indent + 1);
      assert ls == [Line(indent + 1, Head(m))] + (block + rest);
      assert Dashed(ls, indent) == [Line(indent, "- " + Head(m))] + (block + rest);
      LineAhead(Line(indent, "- " + Head(m)), block + rest);
      LinesTextConcat(block, rest);
    }
  }

  ghost function ItemsText(items: seq<Value>, i: nat, indent: nat): string
    requires i <= |items|
  {
    LinesText(ItemLines(items[i..], indent))
  }

  lemma ItemsTextEnds(items: seq<Value>, indent: nat)
    ensures ItemsText(items, |items|, indent) == ""
  {}

  lemma ItemsTextStep(items: seq<Value>, i: nat, indent: nat)
    requires i < |items|
    ensures ItemsText(items, i, indent) == LinesText(OneItem(items[i], indent)) + ItemsText(items, i + 1, indent)
    ensures items[i].Array? && items[i].items != [] ==>
              LinesText(OneItem(items[i], indent)) == RawLine(indent, "-") + LinesText(NodeLines(items[i], indent + 1))
    ensures items[i].Object? && items[i].members != [] ==>
              LinesText(OneItem(items[i], indent)) == DashedText(items[i].members, 0, indent)
    ensures !IsBlock(items[i]) ==> LinesText(OneItem(items[i], indent)) == RawLine(indent, "- " + Scalar(items[i]))
  {
    var item := items[i];
    assert items[i..][0] == item && items[i..][1..] == items[i + 1..];
    LinesTextConcat(OneItem(item, indent), ItemLines(items[i + 1..], indent));
    LineAhead(Line(indent, "-"), NodeLines(item, indent + 1));
    OneLine(Line(indent, "- " + Scalar(item)));
  }

  method Write(v: Value, indent: nat, out: Buffer)
    modifies out
    ensures out.text == old(out.text) + LinesText(NodeLines(v, indent))
    decreases v, 3
  {
    OneLine(Line(indent, Scalar(v)));
    if v.Object? && v.members == [] {
      PushLine(out, indent, "{}");
    } else if v.Array? && v.items == [] {
      PushLine(out, indent, "[]");
    } else if v.Object? {
      assert v.members[0..] == v.members;
      WriteMembers(v.members, indent, out);
    } else if v.Array? {
      assert v.items[0..] == v.items;
      WriteItems(v.items, indent, out);
    } else {
      PushLine(out, indent, Scalar(v));
    }
  }

  /** One member after its prefix: its scalar on the same line, or its block `inner` levels in. */
  method WriteEntry(prefix: string, m: Member, indent: nat, inner: nat, out: Buffer)
    modifies out
    ensures out.text == old(out.text) + RawLine(indent, prefix + Head(m)) + BlockText(m.value, inner)
    decreases m, 4
  {
    hide RawLine, LinesText, NodeLines, Scalar;
    if IsBlock(m.value) {
      PushLine(out, indent, prefix + (m.key + ":"));
      Write(m.value, inner, out);
    } else {
      PushLine(out, indent, prefix + (m.key + ": " + Scalar(m.value)));
      NothingMore(out.text);
    }
  }

  /** The loop over an object's members. */
  method WriteMembers(members: seq<Member>, indent: nat, out: Buffer)
    modifies out
    ensures out.text == old(out.text) + EntriesText(members, 0, indent)
    decreases members, 2
  {
    EntriesTextEnds(members, indent);
    hide RawLine, EntriesText, BlockText, Head;
    var i := 0;
    while i < |members|
      invariant 0 <= i <= |members|
      invariant out.text + EntriesText(members, i, indent) == old(out.text) + EntriesText(members, 0, indent)
    {
      var m := members[i];
      EntriesTextStep(members, i, indent);
      Regroup(out.text, RawLine(indent, Head(m)), BlockText(m.value, indent + 1), EntriesText(members, i + 1, indent));
      NothingMore(Head(m));
      WriteEntry("", m, indent, indent + 1, out);
      i := i + 1;
    }
    NothingMore(out.text);
  }

  /** The loop over an array's items. */
  method WriteItems(items: seq<Value>, indent: nat, out: Buffer)
    modifies out
    ensures out.text == old(out.text) + ItemsText(items, 0, indent)
    decreases items, 2
  {
    ItemsTextEnds(items, indent);
    hide RawLine, ItemsText, NodeLines, LinesText, OneItem, Scalar, DashedText;
    var i := 0;
    while i < |items|
      invariant 0 <= i <= |items|
      invariant out.text + ItemsText(items, i, indent) == old(out.text) + ItemsText(items, 0, indent)
    {
      var item := items[i];
      ItemsTextStep(items, i, indent);
      ghost var before, one, rest := out.text, LinesText(OneItem(item, indent)), ItemsText(items, i + 1, indent);
      assert before + (one + rest) == before + one + rest;
      if item.Object? && item.members != [] {
        WriteDashed(item.members, indent, out);
      } else if item.Array? && item.items != [] {
        PushLine(out, indent, "-");
        Write(item, indent + 1, out);
      } else {
        PushLine(out, indent, "- " + Scalar(item));
      }
      assert out.text == before + one;
      i := i + 1;
    }
    NothingMore(out.text);
  }

  /** The loop over an item's members: the dash before the first, two spaces before the rest. */
  method WriteDashed(members: seq<Member>, indent: nat, out: Buffer)
    requires members != []
    modifies out
    ensures out.text == old(out.text) + DashedText(members, 0, indent)
    decreases members, 2
  {
    DashedTextEnds(members, indent);
    hide *;
    var first := true;
    var i := 0;
    while i < |members|
      invariant 0 <= i <= |members| && (first <==> i == 0)
      invariant out.text + DashedText(members, i, indent) == old(out.text) + DashedText(members, 0, indent)
    {
      WriteDashedEntry(members, i, indent, first, out);
      first := false;
      i := i + 1;
    }
    NothingMore(out.text);
  }

  /** One turn of that loop. */
  method WriteDashedEntry(members: seq<Member>, i: nat, indent: nat, first: bool, out: Buffer)
    requires i < |members| && (first <==> i == 0)
    modifies out
    ensures out.text + DashedText(members, i + 1, indent) == old(out.text) + DashedText(members, i, indent)
    decreases members, 1
  {
    var prefix := Prefix(first);
    DashedTextFrom(out.text, members, i, indent, first);
    hide *;
    WriteEntry(prefix, members[i], indent, indent + 2, out);
  }

  lemma DashedTextFrom(text: string, members: seq<Member>, i: nat, indent: nat, first: bool)
    requires i < |members| && (first <==> i == 0)
    ensures text + DashedText(members, i, indent) ==
              text + RawLine(indent, Prefix(first) + Head(members[i])) + BlockText(members[i].value, indent + 2)
              + DashedText(members, i + 1, indent)
  {
    DashedTextStep(members, i, indent);
    hide DashedText, BlockText, Head, RawLine;
    if first {
      Regroup(text, RawLine(indent, Prefix(true) + Head(members[i])), BlockText(members[i].value, indent + 2),
              DashedText(members, i + 1, indent));
    } else {
      Regroup(text, RawLine(indent, Prefix(false) + Head(members[i])), BlockText(members[i].value, indent + 2),
              DashedText(members, i + 1, indent));
    }
  }

  method RenderYaml(v: Value) returns (text: string)
    ensures text == Render(v)
  {
    var out := new Buffer();
    Write(v, 0, out);
    text := out.text;
  }
}
