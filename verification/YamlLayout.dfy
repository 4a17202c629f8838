/** How deep the detail view's lines stand (`write` and `push_line` in `crates/core/src/yaml.rs`). */
module YamlLayout {
  import opened Json
  import opened Yaml

  /** The lines one level further in. */
  function Shifted(ls: seq<Line>): (r: seq<Line>)
    ensures |r| == |ls| && forall i :: 0 <= i < |ls| ==> r[i] == Line(ls[i].depth + 1, ls[i].text)
  {
    seq(|ls|, i requires 0 <= i < |ls| => Line(ls[i].depth + 1, ls[i].text))
  }

  lemma ShiftedConcat(a: seq<Line>, b: seq<Line>)
    ensures Shifted(a + b) == Shifted(a) + Shifted(b)
  {}

  lemma ShiftedHead(l: Line, ls: seq<Line>)
    ensures Shifted([l] + ls) == [Line(l.depth + 1, l.text)] + Shifted(ls)
  {}

  lemma {:induction false} NodeShifts(v: Value, depth: nat)
    ensures NodeLines(v, depth + 1) == Shifted(NodeLines(v, depth))
    decreases v, 3
  {
    if v.Object? && v.members != [] {
      EntriesShift(v.members, depth);
    } else if v.Array? && v.items != [] {
      ItemsShift(v.items, depth);
    }
  }

  lemma {:induction false} EntriesShift(members: seq<Member>, depth: nat)
    ensures EntryLines(members, depth + 1) == Shifted(EntryLines(members, depth))
    decreases members, 2
  {
    if members != [] {
      var m := members[0];
      EntriesShift(members[1..], depth);
      if IsBlock(m.value) {
        NodeShifts(m.value, depth + 1);
        ShiftedHead(Line(depth, m.key + ":"), NodeLines(m.value, depth + 1));
      }
      ShiftedConcat(OneEntry(m, depth), EntryLines(members[1..], depth));
    }
  }

  lemma {:induction false} ItemsShift(items: seq<Value>, depth: nat)
    ensures ItemLines(items, depth + 1) == Shifted(ItemLines(items, depth))
    decreases items, 2
  {
    if items != [] {
      ItemsShift(items[1..], depth);
      OneItemShifts(items[0], depth);
      ShiftedConcat(OneItem(items[0], depth), ItemLines(items[1..], depth));
      hide OneItem, Shifted;
    }
  }

  lemma {:induction false} OneItemShifts(v: Value, depth: nat)
    ensures OneItem(v, depth + 1) == Shifted(OneItem(v, depth))
    decreases v, 4
  {
    if v.Object? && v.members != [] {
      EntriesShift(v.members, depth + 1);
      hide EntryLines;
    } else if v.Array? && v.items != [] {
      NodeShifts(v, depth + 1);
      ShiftedHead(Line(depth, "-"), NodeLines(v, depth + 1));
      hide NodeLines;
    }
  }

  /** The lines' text, two spaces in front of each. */
  function TwoIn(ls: seq<Line>): string {
    if ls == [] then "" else "  " + RawLine(ls[0].depth, ls[0].text) + TwoIn(ls[1..])
  }

  lemma {:induction false} ShiftedText(ls: seq<Line>)
    ensures LinesText(Shifted(ls)) == TwoIn(ls)
  {
    if ls != [] {
      var l := ls[0];
      ShiftedText(ls[1..]);
      assert Shifted(ls)[1..] == Shifted(ls[1..]);
      assert Spaces(2 * (l.depth + 1)) == "  " + Spaces(2 * l.depth);
      assert RawLine(l.depth + 1, l.text) == "  " + RawLine(l.depth, l.text);
    }
  }

  lemma OneMember(m: Member)
    ensures NodeLines(Object([m]), 0) == OneEntry(m, 0)
  {
    assert [m][1..] == [] && EntryLines([], 0) == [];
    assert EntryLines([m], 0) == OneEntry(m, 0) + EntryLines([m][1..], 0);
    hide OneEntry;
  }

  lemma OneElement(v: Value)
    ensures NodeLines(Array([v]), 0) == OneItem(v, 0)
  {
    assert [v][1..] == [] && ItemLines([], 0) == [];
    assert ItemLines([v], 0) == OneItem(v, 0) + ItemLines([v][1..], 0);
    hide OneItem;
  }

  lemma MarginLine(text: string)
    ensures RawLine(0, text) == text + "\n" && LinesText([Line(0, text)]) == text + "\n"
  {
    OneLine(Line(0, text));
    assert Spaces(2 * 0) == "";
  }

  /** The text of a value one level in: two spaces in front of every line of its own. */
  lemma OneLevelIn(v: Value)
    ensures LinesText(NodeLines(v, 1)) == TwoIn(NodeLines(v, 0))
  {
    NodeShifts(v, 0);
    ShiftedText(NodeLines(v, 0));
    hide NodeLines, TwoIn, LinesText, Shifted;
  }

  /** A scalar stands on the line of its key or dash; a block under a key, or an array under a dash, is its
      own lines with two spaces in front of each. */
  lemma BlocksStandTwoIn(key: string, v: Value)
    ensures !IsBlock(v) ==> Render(Object([Member(key, v)])) == key + ": " + Scalar(v) + "\n"
    ensures !IsBlock(v) ==> Render(Array([v])) == "- " + Scalar(v) + "\n"
    ensures IsBlock(v) ==> Render(Object([Member(key, v)])) == key + ":" + "\n" + TwoIn(NodeLines(v, 0))
    ensures v.Array? && v.items != [] ==> Render(Array([v])) == "-" + "\n" + TwoIn(NodeLines(v, 0))
  {
    OneMember(Member(key, v));
    OneElement(v);
    OneLevelIn(v);
    MarginLine(key + ": " + Scalar(v));
    MarginLine("- " + Scalar(v));
    MarginLine(key + ":");
    MarginLine("-");
    LineAhead(Line(0, key + ":"), NodeLines(v, 1));
    LineAhead(Line(0, "-"), NodeLines(v, 1));
    hide NodeLines, TwoIn, LinesText, Scalar, RawLine;
  }
}
