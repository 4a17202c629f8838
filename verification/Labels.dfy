/**
 How the leaves of a detail section are labelled (`label_leaves` in `crates/core/src/detail.rs`): from
 its own segment upwards, a leaf takes in as much of its path as it needs to stand apart.

 How one segment becomes a word for a person is a parameter.
 */
module Labels {
  import opened Text

  /** The dot between a label's word and the rest of its path. */
  const DOT := '\U{B7}'

  type Words = string -> string

  /** `trim_end_matches("[]")` */
  function TrimPairs(s: string): string {
    if EndsWith(s, "[]") then TrimPairs(s[..|s| - 2]) else s
  }

  function LabelOf(word: Words, segment: string): string { word(TrimPairs(segment)) }

  function LabelFrom(word: Words, segments: seq<string>, head: nat): string
    requires head < |segments|
  {
    var name := LabelOf(word, segments[head]);
    if head + 1 == |segments| then name
    else name + [' ', DOT, ' '] + TrimPairs(Join(segments[head + 1..], '.'))
  }

  function FullLabel(word: Words, segments: seq<string>): string
    requires segments != []
  {
    LabelFrom(word, segments, 0)
  }

  // ---- one round ----

  predicate AreHeads(all: seq<seq<string>>, heads: seq<nat>) {
    |heads| == |all| && forall i :: 0 <= i < |all| ==> heads[i] < |all[i]|
  }

  function LabelsAt(word: Words, all: seq<seq<string>>, heads: seq<nat>): (labels: seq<string>)
    requires AreHeads(all, heads)
    ensures |labels| == |all|
    ensures forall i :: 0 <= i < |all| ==> labels[i] == LabelFrom(word, all[i], heads[i])
  {
    seq(|all|, i requires 0 <= i < |all| => LabelFrom(word, all[i], heads[i]))
  }

  /** How many labels are this one. */
  function Count(labels: seq<string>, text: string): nat {
    if labels == [] then 0
    else (if labels[|labels| - 1] == text then 1 else 0) + Count(labels[..|labels| - 1], text)
  }

  predicate Repeats(labels: seq<string>, i: nat)
    requires i < |labels|
  {
    exists j :: 0 <= j < |labels| && j != i && labels[j] == labels[i]
  }

  /** Every repeated label takes one more segment, while there is one. */
  function Grown(labels: seq<string>, heads: seq<nat>): (r: seq<nat>)
    requires |labels| == |heads|
    ensures |r| == |heads|
    ensures forall i :: 0 <= i < |heads| ==>
              r[i] == if heads[i] > 0 && Repeats(labels, i) then heads[i] - 1 else heads[i]
  {
    seq(|heads|, i requires 0 <= i < |heads| => if heads[i] > 0 && Repeats(labels, i) then heads[i] - 1 else heads[i])
  }

  function Sum(heads: seq<nat>): nat {
    if heads == [] then 0 else heads[0] + Sum(heads[1..])
  }

  lemma {:induction false} SumFalls(heads: seq<nat>, fewer: seq<nat>)
    requires |fewer| == |heads| && forall i :: 0 <= i < |heads| ==> fewer[i] <= heads[i]
    ensures Sum(fewer) <= Sum(heads)
    ensures fewer != heads ==> Sum(fewer) < Sum(heads)
  {
    if heads != [] {
      SumFalls(heads[1..], fewer[1..]);
      assert heads == [heads[0]] + heads[1..] && fewer == [fewer[0]] + fewer[1..];
    }
  }

  /** The heads when nothing grows any more. */
  function Settled(word: Words, all: seq<seq<string>>, heads: seq<nat>): (r: seq<nat>)
    requires AreHeads(all, heads)
    ensures AreHeads(all, r)
    ensures Grown(LabelsAt(word, all, r), r) == r
    decreases Sum(heads)
  {
    var next := Grown(LabelsAt(word, all, heads), heads);
    SumFalls(heads, next);
    if next == heads then heads else Settled(word, all, next)
  }

  function AllSegments(paths: seq<string>): (all: seq<seq<string>>)
    ensures |all| == |paths|
    ensures forall i :: 0 <= i < |paths| ==> all[i] == Split(paths[i], '.')
  {
    seq(|paths|, i requires 0 <= i < |paths| => Split(paths[i], '.'))
  }

  function LeafHeads(all: seq<seq<string>>): (heads: seq<nat>)
    requires forall i :: 0 <= i < |all| ==> all[i] != []
    ensures AreHeads(all, heads) && forall i :: 0 <= i < |all| ==> heads[i] == |all[i]| - 1
  {
    seq(|all|, i requires 0 <= i < |all| => |all[i]| - 1)
  }

  // ---- the loop ----

  lemma {:induction false} CountMeansRepeats(labels: seq<string>, i: nat)
    requires i < |labels|
    ensures Count(labels, labels[i]) > 1 <==> Repeats(labels, i)
    ensures Count(labels, labels[i]) >= 1
  {
    var last := |labels| - 1;
    var rest := labels[..last];
    if i == last {
      CountMeansIn(rest, labels[i]);
      assert labels[i] in rest <==> exists j :: 0 <= j < last && rest[j] == labels[i];
      assert forall j :: 0 <= j < last ==> rest[j] == labels[j];
    } else {
      CountMeansRepeats(rest, i);
      assert forall j :: 0 <= j < last ==> rest[j] == labels[j];
      if Repeats(rest, i) {
        var j :| 0 <= j < last && j != i && rest[j] == rest[i];
        assert labels[j] == labels[i];
      }
      if Repeats(labels, i) && labels[last] != labels[i] {
        var j :| 0 <= j < |labels| && j != i && labels[j] == labels[i];
        assert rest[j] == rest[i];
      }
    }
  }

  lemma {:induction false} CountMeansIn(labels: seq<string>, text: string)
    ensures Count(labels, text) > 0 <==> text in labels
  {
    if labels != [] {
      CountMeansIn(labels[..|labels| - 1], text);
      assert labels == labels[..|labels| - 1] + [labels[|labels| - 1]];
    }
  }

  method CountOf(labels: seq<string>, text: string) returns (n: nat)
    ensures n == Count(labels, text)
  {
    n := 0;
    var k := 0;
    while k < |labels|
      invariant 0 <= k <= |labels| && n == Count(labels[..k], text)
    {
      assert labels[..k + 1][..k] == labels[..k];
      if labels[k] == text {
        n := n + 1;
      }
      k := k + 1;
    }
    assert labels[..k] == labels;
  }

  /** One round over the heads: the labels are those of the round's start. */
  method GrowHeads(labels: seq<string>, head: array<nat>) returns (grew: bool)
    requires head.Length == |labels|
    modifies head
    ensures head[..] == Grown(labels, old(head[..]))
    ensures grew <==> head[..] != old(head[..])
  {
    grew := false;
    ghost var before := head[..];
    var i := 0;
    while i < |labels|
      invariant 0 <= i <= |labels|
      invariant forall k :: 0 <= k < i ==> head[k] == Grown(labels, before)[k]
      invariant forall k :: i <= k < |labels| ==> head[k] == before[k]
      invariant grew <==> exists k :: 0 <= k < i && head[k] != before[k]
    {
      var n := CountOf(labels, labels[i]);
      CountMeansRepeats(labels, i);
      if head[i] > 0 && n > 1 {
        head[i] := head[i] - 1;
        grew := true;
        assert head[i] != before[i];
      }
      i := i + 1;
    }
    assert head[..] == Grown(labels, before);
    assert grew ==> exists k :: 0 <= k < |labels| && head[..][k] != before[k];
  }

  /** The labels for the heads as they are. */
  method LabelAll(word: Words, segments: seq<seq<string>>, head: array<nat>) returns (labels: seq<string>)
    requires AreHeads(segments, head[..])
    ensures labels == LabelsAt(word, segments, head[..])
  {
    labels := [];
    var i := 0;
    hide LabelFrom;
    while i < |segments|
      invariant 0 <= i <= |segments| == head.Length && |labels| == i
      invariant forall k :: 0 <= k < i ==> labels[k] == LabelFrom(word, segments[k], head[k])
    {
      labels := labels + [LabelFrom(word, segments[i], head[i])];
      i := i + 1;
    }
  }

  lemma SettledStep(word: Words, all: seq<seq<string>>, heads: seq<nat>, next: seq<nat>)
    requires AreHeads(all, heads) && next == Grown(LabelsAt(word, all, heads), heads)
    ensures AreHeads(all, next) && Settled(word, all, next) == Settled(word, all, heads)
    ensures next == heads ==> Settled(word, all, heads) == heads
    ensures next != heads ==> Sum(next) < Sum(heads)
  {
    SumFalls(heads, next);
  }

  method LabelLeaves(word: Words, paths: seq<string>) returns (labels: seq<string>)
    ensures var all := AllSegments(paths); labels == LabelsAt(word, all, Settled(word, all, LeafHeads(all)))
  {
    var segments := AllSegments(paths);
    var head := new nat[|segments|](i requires 0 <= i < |segments| => |segments[i]| - 1);
    assert head[..] == LeafHeads(segments);
    hide Settled, Sum, LabelFrom;
    while true
      invariant AreHeads(segments, head[..])
      invariant Settled(word, segments, head[..]) == Settled(word, segments, LeafHeads(segments))
      decreases Sum(head[..])
    {
      ghost var before := head[..];
      labels := LabelAll(word, segments, head);
      var grew := GrowHeads(labels, head);
      SettledStep(word, segments, before, head[..]);
      if !grew {
        return;
      }
    }
  }

  // ---- what the labels are ----

  predicate Distinct(labels: seq<string>) {
    forall i, j :: 0 <= i < j < |labels| ==> labels[i] != labels[j]
  }

  function FullLabels(word: Words, all: seq<seq<string>>): (labels: seq<string>)
    requires forall i :: 0 <= i < |all| ==> all[i] != []
    ensures |labels| == |all| && forall i :: 0 <= i < |all| ==> labels[i] == FullLabel(word, all[i])
  {
    seq(|all|, i requires 0 <= i < |all| => FullLabel(word, all[i]))
  }

  /** Two equal labels have both run out of segments: they are the labels of their whole paths. */
  lemma EqualLabelsAreFull(word: Words, all: seq<seq<string>>, heads: seq<nat>, i: nat, j: nat)
    requires AreHeads(all, heads) && i < |all| && j < |all| && i != j
    requires var labels := LabelsAt(word, all, Settled(word, all, heads)); labels[i] == labels[j]
    ensures Settled(word, all, heads)[i] == 0 && Settled(word, all, heads)[j] == 0
    ensures FullLabel(word, all[i]) == FullLabel(word, all[j])
  {
    var r := Settled(word, all, heads);
    var labels := LabelsAt(word, all, r);
    assert Repeats(labels, i) && Repeats(labels, j);
    assert Grown(labels, r)[i] == r[i] && Grown(labels, r)[j] == r[j];
  }

  // ---- whole paths with one label ----

  /** The word a full label starts with holds no dot of this kind, as no word of a property name does. */
  predicate HasPlainWord(word: Words, segments: seq<string>)
    requires segments != []
  {
    DOT !in LabelOf(word, segments[0])
  }

  predicate ArePathSegments(segments: seq<string>) {
    segments != [] && forall i :: 0 <= i < |segments| ==> '.' !in segments[i]
  }

  /** The text before and behind the first of a character. */
  lemma FirstSplits(a: string, b: string, x: string, y: string, c: char)
    requires c !in a && c !in b && a + [c] + x == b + [c] + y
    ensures a == b && x == y
  {
    SplitPiece(a, x, c);
    SplitPiece(b, y, c);
    assert ([a] + Split(x, c))[0] == a && ([b] + Split(y, c))[0] == b;
    assert x == (a + [c] + x)[|a| + 1..] && y == (b + [c] + y)[|b| + 1..];
  }

  function Pairs(d: nat): string {
    if d == 0 then "" else Pairs(d - 1) + "[]"
  }

  lemma {:induction false} PairsAppend(d: nat, e: nat)
    ensures Pairs(d) + Pairs(e) == Pairs(d + e)
  {
    if e > 0 {
      PairsAppend(d, e - 1);
      assert Pairs(d) + Pairs(e) == Pairs(d) + Pairs(e - 1) + "[]";
    }
  }

  /** What is trimmed off is pairs ... */
  lemma {:induction false} TrimTakesPairs(s: string) returns (d: nat)
    ensures s == TrimPairs(s) + Pairs(d)
  {
    if EndsWith(s, "[]") {
      var front := s[..|s| - 2];
      d := TrimTakesPairs(front);
      d := d + 1;
      assert s == front + "[]";
      assert TrimPairs(s) + Pairs(d) == TrimPairs(front) + Pairs(d - 1) + "[]";
    } else {
      d := 0;
    }
  }

  /** ... and all of them. */
  lemma {:induction false} TrimIgnoresPairs(s: string, d: nat)
    ensures TrimPairs(s + Pairs(d)) == TrimPairs(s)
  {
    if d == 0 {
      assert s + Pairs(0) == s;
    } else {
      var t := s + Pairs(d);
      TrimIgnoresPairs(s, d - 1);
      assert t == s + Pairs(d - 1) + "[]";
      assert t[|t| - 2..] == "[]" && t[..|t| - 2] == s + Pairs(d - 1);
    }
  }

  /** The segments with pairs behind the last of them. */
  function Extended(segments: seq<string>, d: nat): seq<string>
    requires segments != []
  {
    segments[..|segments| - 1] + [segments[|segments| - 1] + Pairs(d)]
  }

  lemma {:induction false} JoinExtended(segments: seq<string>, d: nat)
    requires segments != []
    ensures Join(Extended(segments, d), '.') == Join(segments, '.') + Pairs(d)
  {
    if |segments| > 1 {
      JoinExtended(segments[1..], d);
      assert Extended(segments, d)[1..] == Extended(segments[1..], d);
      assert Extended(segments, d)[0] == segments[0];
    }
  }

  lemma {:induction false} NoDotsInPairs(d: nat)
    ensures '.' !in Pairs(d)
  {
    if d > 0 {
      NoDotsInPairs(d - 1);
    }
  }

  /** Paths whose joined text differs by pairs at the end differ there only. */
  lemma JoinedAlike(a: seq<string>, b: seq<string>, d: nat)
    requires ArePathSegments(a) && ArePathSegments(b)
    requires Join(b, '.') == Join(a, '.') + Pairs(d)
    ensures b == Extended(a, d)
  {
    JoinExtended(a, d);
    NoDotsInPairs(d);
    assert ArePathSegments(Extended(a, d));
    SplitJoin(b, '.');
    SplitJoin(Extended(a, d), '.');
  }

  /** Pairs behind the last segment change no label that grew. */
  lemma ExtendedLabels(word: Words, a: seq<string>, b: seq<string>, d: nat, h: nat)
    requires |a| > 1 && |b| > 1 && b[1..] == Extended(a[1..], d) && 1 <= h < |a| == |b|
    ensures LabelFrom(word, a, h) == LabelFrom(word, b, h)
  {
    var last := |a| - 1;
    assert b[last] == b[1..][last - 1] == a[last] + Pairs(d);
    TrimIgnoresPairs(a[last], d);
    if h < last {
      assert b[h] == b[1..][h - 1] == a[h];
      assert b[h + 1..] == Extended(a[h + 1..], d) by {
        assert forall k :: h < k < last ==> b[k] == b[1..][k - 1] == a[k];
      }
      JoinExtended(a[h + 1..], d);
      TrimIgnoresPairs(Join(a[h + 1..], '.'), d);
    }
  }

  lemma SameTails(a: seq<string>, b: seq<string>) returns (d: nat)
    requires ArePathSegments(a) && ArePathSegments(b)
    requires TrimPairs(Join(a, '.')) == TrimPairs(Join(b, '.'))
    ensures b == Extended(a, d) || a == Extended(b, d)
  {
    var s, t := Join(a, '.'), Join(b, '.');
    var k := TrimTakesPairs(s);
    var m := TrimTakesPairs(t);
    if k <= m {
      d := m - k;
      PairsAppend(k, d);
      assert t == s + Pairs(d);
      JoinedAlike(a, b, d);
    } else {
      d := k - m;
      PairsAppend(m, d);
      assert s == t + Pairs(d);
      JoinedAlike(b, a, d);
    }
  }

  /** Two paths with one full label have one label at every length. */
  lemma SameFullSameLabels(word: Words, a: seq<string>, b: seq<string>)
    requires ArePathSegments(a) && ArePathSegments(b) && HasPlainWord(word, a) && HasPlainWord(word, b)
    requires FullLabel(word, a) == FullLabel(word, b)
    ensures |a| == |b|
    ensures forall h :: 0 <= h < |a| ==> LabelFrom(word, a, h) == LabelFrom(word, b, h)
  {
    LongLabelsHaveDots(word, a);
    LongLabelsHaveDots(word, b);
    if |a| > 1 && |b| > 1 {
      FullLabelTails(word, a, b);
      TailsArePaths(a);
      TailsArePaths(b);
      var d := SameTails(a[1..], b[1..]);
      hide LabelFrom, Extended;
      forall h | 1 <= h < |a| ensures LabelFrom(word, a, h) == LabelFrom(word, b, h) {
        if b[1..] == Extended(a[1..], d) {
          ExtendedLabels(word, a, b, d, h);
        } else {
          ExtendedLabels(word, b, a, d, h);
        }
      }
    }
  }

  lemma FullLabelTails(word: Words, a: seq<string>, b: seq<string>)
    requires |a| > 1 && |b| > 1 && HasPlainWord(word, a) && HasPlainWord(word, b)
    requires FullLabel(word, a) == FullLabel(word, b)
    ensures TrimPairs(Join(a[1..], '.')) == TrimPairs(Join(b[1..], '.'))
  {
    var x, y := LabelOf(word, a[0]), LabelOf(word, b[0]);
    var s, t := TrimPairs(Join(a[1..], '.')), TrimPairs(Join(b[1..], '.'));
    assert x + [' ', DOT, ' '] + s == y + [' ', DOT, ' '] + t;
    hide LabelFrom, FullLabel, Join, TrimPairs;
    assert x + [' ', DOT, ' '] + s == (x + " ") + [DOT] + (" " + s);
    assert y + [' ', DOT, ' '] + t == (y + " ") + [DOT] + (" " + t);
    FirstSplits(x + " ", y + " ", " " + s, " " + t, DOT);
    assert s == (" " + s)[1..] && t == (" " + t)[1..];
  }

  lemma TailsArePaths(segments: seq<string>)
    requires ArePathSegments(segments) && |segments| > 1
    ensures ArePathSegments(segments[1..])
  {
    assert forall i :: 0 <= i < |segments[1..]| ==> segments[1..][i] == segments[i + 1];
  }

  lemma LongLabelsHaveDots(word: Words, segments: seq<string>)
    requires segments != [] && HasPlainWord(word, segments)
    ensures DOT in FullLabel(word, segments) <==> |segments| > 1
  {
    if |segments| > 1 {
      assert FullLabel(word, segments)[|LabelOf(word, segments[0])| + 1] == DOT;
    }
  }

  // ---- when the labels are distinct ----

  /** Two paths with one full label grow in step, all the way. */
  lemma {:induction false} GrowInStep(word: Words, all: seq<seq<string>>, heads: seq<nat>, i: nat, j: nat)
    requires AreHeads(all, heads) && i < |all| && j < |all| && i != j
    requires |all[i]| == |all[j]| && heads[i] == heads[j]
    requires forall h :: 0 <= h < |all[i]| ==> LabelFrom(word, all[i], h) == LabelFrom(word, all[j], h)
    ensures Settled(word, all, heads)[i] == Settled(word, all, heads)[j]
    decreases Sum(heads)
  {
    var labels := LabelsAt(word, all, heads);
    var next := Grown(labels, heads);
    SumFalls(heads, next);
    assert Repeats(labels, i) && Repeats(labels, j);
    if next != heads {
      GrowInStep(word, all, next, i, j);
    }
  }

  /** When no two whole paths have the same label no two labels are equal; and, when the words the whole
      paths' labels start with hold no dot of this kind, only then. */
  lemma DistinctIffFullLabelsAre(word: Words, paths: seq<string>)
    ensures var all := AllSegments(paths);
            var labels, full := LabelsAt(word, all, Settled(word, all, LeafHeads(all))), FullLabels(word, all);
            && (Distinct(full) ==> Distinct(labels))
            && ((forall i :: 0 <= i < |all| ==> HasPlainWord(word, all[i])) ==> (Distinct(labels) <==> Distinct(full)))
  {
    var all := AllSegments(paths);
    var heads := LeafHeads(all);
    var labels, full := LabelsAt(word, all, Settled(word, all, heads)), FullLabels(word, all);
    forall i, j | 0 <= i < j < |all|
      ensures labels[i] == labels[j] ==> full[i] == full[j]
      ensures full[i] == full[j] && HasPlainWord(word, all[i]) && HasPlainWord(word, all[j]) ==> labels[i] == labels[j]
    {
      if labels[i] == labels[j] {
        EqualLabelsAreFull(word, all, heads, i, j);
      }
      if full[i] == full[j] && HasPlainWord(word, all[i]) && HasPlainWord(word, all[j]) {
        SameFullSameLabels(word, all[i], all[j]);
        GrowInStep(word, all, heads, i, j);
      }
    }
    hide Settled, FullLabel, HasPlainWord;
  }

  predicate IsBareSegment(s: string) {
    s != "" && '.' !in s && s[|s| - 1] != ']'
  }

  const SEPARATOR: string := [' ', DOT, ' ']

  function Itself(): Words { (s: string) => s }

  /** With such a dot in a first word it can fail: these two paths have one whole label, and their own
      segments tell them apart. */
  lemma DottedWordsHide(x: string, y: string, z: string)
    requires IsBareSegment(x) && IsBareSegment(y) && IsBareSegment(z)
    ensures var all := AllSegments([x + SEPARATOR + y + ['.'] + z, x + ['.'] + (y + SEPARATOR + z)]);
            FullLabel(Itself(), all[0]) == FullLabel(Itself(), all[1]) &&
            Distinct(LabelsAt(Itself(), all, Settled(Itself(), all, LeafHeads(all))))
  {
    hide *;
    var a, b := x + SEPARATOR + y, y + SEPARATOR + z;
    DottedTexts(x, y, z);
    DottedSegments(a, z, x, b);
    ShortLabels(Itself(), a, z);
    ShortLabels(Itself(), x, b);
    OwnSegmentsSettle(Itself(), AllSegments([a + ['.'] + z, x + ['.'] + b]));
  }

  lemma DottedTexts(x: string, y: string, z: string)
    requires IsBareSegment(x) && IsBareSegment(y) && IsBareSegment(z)
    ensures var a, b := x + SEPARATOR + y, y + SEPARATOR + z;
            IsBareSegment(a) && IsBareSegment(b) && a + SEPARATOR + z == x + SEPARATOR + b && b != z
    ensures forall s :: Itself()(s) == s
  {
    var a, b := x + SEPARATOR + y, y + SEPARATOR + z;
    assert a[|a| - 1] == y[|y| - 1] && b[|b| - 1] == z[|z| - 1];
    assert |b| > |z|;
  }

  lemma DottedSegments(a: string, b: string, c: string, d: string)
    requires IsBareSegment(a) && IsBareSegment(b) && IsBareSegment(c) && IsBareSegment(d)
    ensures AllSegments([a + ['.'] + b, c + ['.'] + d]) == [[a, b], [c, d]]
  {
    TwoSegments(a, b);
    TwoSegments(c, d);
    hide Split;
  }

  lemma OwnSegmentsSettle(word: Words, all: seq<seq<string>>)
    requires |all| == 2 && |all[0]| == |all[1]| == 2 && LabelFrom(word, all[0], 1) != LabelFrom(word, all[1], 1)
    ensures Distinct(LabelsAt(word, all, Settled(word, all, LeafHeads(all))))
  {
    hide LabelFrom;
    UnrepeatedLabelsStay(word, all, LeafHeads(all));
  }

  lemma TwoSegments(a: string, b: string)
    requires '.' !in a && '.' !in b
    ensures Split(a + ['.'] + b, '.') == [a, b]
  {
    SplitPiece(a, b, '.');
    SplitPiece(b, "", '.');
  }

  /** A path of two segments, when its words are its segments and end in no bracket. */
  lemma ShortLabels(word: Words, a: string, b: string)
    requires word(a) == a && word(b) == b && IsBareSegment(a) && IsBareSegment(b)
    ensures LabelFrom(word, [a, b], 1) == b
    ensures FullLabel(word, [a, b]) == a + SEPARATOR + b
  {
    NothingToTrim(a);
    NothingToTrim(b);
    assert [a, b][1..] == [b];
    hide TrimPairs;
  }

  lemma NothingToTrim(s: string)
    requires s != "" && s[|s| - 1] != ']'
    ensures TrimPairs(s) == s
  {
    assert |s| >= 2 ==> s[|s| - 2..][1] == s[|s| - 1];
    assert !EndsWith(s, "[]");
  }

  /** A leaf whose own segment is its alone keeps it as its label. */
  lemma {:induction false} UnrepeatedLabelsStay(word: Words, all: seq<seq<string>>, heads: seq<nat>)
    requires AreHeads(all, heads) && Distinct(LabelsAt(word, all, heads))
    ensures Settled(word, all, heads) == heads
  {
    var labels := LabelsAt(word, all, heads);
    assert forall i :: 0 <= i < |all| ==> !Repeats(labels, i);
    assert Grown(labels, heads) == heads;
  }

  // ---- how a label reads ----

  predicate EndsOnAPair(s: string) { |s| >= 2 && s[|s| - 2] == '[' && s[|s| - 1] == ']' }

  lemma {:induction false} TrimLeavesNoPair(s: string)
    ensures !EndsOnAPair(TrimPairs(s))
  {
    PairsAreEnds(s);
    hide EndsWith, EndsOnAPair;
    if EndsWith(s, "[]") {
      TrimLeavesNoPair(s[..|s| - 2]);
    }
  }

  lemma PairsAreEnds(s: string)
    ensures EndsOnAPair(s) <==> EndsWith(s, "[]")
    ensures EndsWith(s, "[]") ==> |s| >= 2
  {
    if |s| >= 2 {
      assert s[|s| - 2..] == [s[|s| - 2], s[|s| - 1]];
    }
  }

  /** A label is the word for its segment, and behind a raised dot the rest of the path, both without the
      pairs of brackets they end on. */
  lemma LabelsRead(word: Words, segments: seq<string>, head: nat)
      returns (name: string, tail: string, d: nat, e: nat)
    requires head < |segments|
    ensures segments[head] == name + Pairs(d) && !EndsOnAPair(name)
    ensures head + 1 == |segments| ==> LabelFrom(word, segments, head) == word(name)
    ensures head + 1 < |segments| ==>
              && Join(segments[head + 1..], '.') == tail + Pairs(e) && !EndsOnAPair(tail)
              && LabelFrom(word, segments, head) == word(name) + [' ', '\U{B7}', ' '] + tail
  {
    name, tail, e := TrimPairs(segments[head]), "", 0;
    d := TrimTakesPairs(segments[head]);
    TrimLeavesNoPair(segments[head]);
    if head + 1 < |segments| {
      var rest := Join(segments[head + 1..], '.');
      tail := TrimPairs(rest);
      e := TrimTakesPairs(rest);
      TrimLeavesNoPair(rest);
    }
    hide TrimPairs, Pairs;
  }

  /** At some point the leaf stood at its `h`th segment, and another leaf had its label. */
  ghost predicate WasRepeatedAt(word: Words, all: seq<seq<string>>, i: nat, h: nat)
    requires i < |all|
  {
    exists now: seq<nat> :: AreHeads(all, now) && now[i] == h && Repeats(LabelsAt(word, all, now), i)
  }

  /** A leaf takes in a segment only when the label it had was another leaf's as well. */
  lemma {:induction false} OnlyRepeatedGrow(word: Words, all: seq<seq<string>>, heads: seq<nat>, i: nat)
    requires AreHeads(all, heads) && i < |all|
    ensures var r := Settled(word, all, heads);
            && r[i] <= heads[i]
            && forall h: nat :: r[i] < h <= heads[i] ==> WasRepeatedAt(word, all, i, h)
    decreases Sum(heads)
  {
    var next := Grown(LabelsAt(word, all, heads), heads);
    SettledStep(word, all, heads, next);
    assert next[i] < heads[i] ==> Repeats(LabelsAt(word, all, heads), i) && next[i] == heads[i] - 1;
    hide Settled, Sum, LabelsAt, Repeats, Grown;
    if next != heads {
      OnlyRepeatedGrow(word, all, next, i);
      assert next[i] < heads[i] ==> WasRepeatedAt(word, all, i, heads[i]);
      hide WasRepeatedAt, AreHeads;
    }
  }
}
