/**
 The write grammar: the names a form's field may write at (`valid_field_name` in
 `crates/catalog/src/lib.rs`), and the steps `write_at` and `read_at` in `crates/core/src/actions.rs`
 take such a name apart into. The guard and the two walkers each parse a name their own way; the
 lemmas say that they agree.
 */
module WritePath {
  import opened Wrappers
  import opened Text

  /** One segment of a path: a key, and the array element under it when the segment has an index. */
  datatype Step = Step(key: string, index: Option<nat>)

  const MAX_FIELD_INDEX := 16
  const USIZE_LIMIT := 0x1_0000_0000_0000_0000

  function IndexOf(s: string, c: char): (r: Option<nat>)
    ensures r.Some? ==> r.value < |s| && s[r.value] == c && c !in s[..r.value]
    ensures r.None? ==> c !in s
  {
    if s == "" then None
    else if s[0] == c then Some(0)
    else
      var r := IndexOf(s[1..], c);
      if r.None? then None
      else
        assert s[..r.value + 1] == [s[0]] + s[1..][..r.value];
        Some(r.value + 1)
  }

  /** `str::parse::<usize>` */
  function ParseUsize(s: string): Option<nat> {
    var digits := if StartsWith(s, "+") then s[1..] else s;
    if digits == "" || !All(digits, IsDigit) || NatOf(digits) >= USIZE_LIMIT then None else Some(NatOf(digits))
  }

  /** `trim_end_matches(']')` */
  function TrimBrackets(s: string): string {
    if s != "" && s[|s| - 1] == ']' then TrimBrackets(s[..|s| - 1]) else s
  }

  predicate IsKeyChar(c: char) { IsAlphanumeric(c) || c == '_' }

  // ---- the guard ----

  predicate ValidIndex(digits: string) {
    ParseUsize(digits).Some? && ParseUsize(digits).value < MAX_FIELD_INDEX &&
    digits == NatText(ParseUsize(digits).value)
  }

  predicate ValidSegment(segment: string) {
    var i := IndexOf(segment, '[');
    var key := if i.Some? then segment[..i.value] else segment;
    var rest := if i.Some? then segment[i.value + 1..] else "]";
    && EndsWith(rest, "]")
    && key != "" && All(key, IsKeyChar)
    && (i.Some? ==> ValidIndex(rest[..|rest| - 1]))
  }

  predicate ValidFieldName(name: string) {
    name != "" && forall i :: 0 <= i < |Split(name, '.')| ==> ValidSegment(Split(name, '.')[i])
  }

  // ---- the walkers ----

  function StepOf(segment: string): Step {
    var i := IndexOf(segment, '[');
    if i.None? then Step(segment, None)
    else Step(segment[..i.value], ParseUsize(TrimBrackets(segment[i.value + 1..])))
  }

  function StepsOf(segments: seq<string>): (steps: seq<Step>)
    ensures |steps| == |segments|
    ensures forall i :: 0 <= i < |segments| ==> steps[i] == StepOf(segments[i])
  {
    if segments == [] then [] else [StepOf(segments[0])] + StepsOf(segments[1..])
  }

  function PathOf(name: string): (steps: seq<Step>)
    ensures steps != []
  {
    StepsOf(Split(name, '.'))
  }

  // ---- paths as text ----

  /** A key of letters, digits and underscores, and an index below sixteen. */
  predicate IsGoodStep(s: Step) {
    && s.key != ""
    && (forall i :: 0 <= i < |s.key| ==>
          'a' <= s.key[i] <= 'z' || 'A' <= s.key[i] <= 'Z' || '0' <= s.key[i] <= '9' || s.key[i] == '_')
    && (s.index.Some? ==> s.index.value < 16)
  }

  predicate IsGoodPath(steps: seq<Step>) {
    steps != [] && forall i :: 0 <= i < |steps| ==> IsGoodStep(steps[i])
  }

  function StepText(s: Step): string {
    if s.index.None? then s.key else s.key + "[" + NatText(s.index.value) + "]"
  }

  function StepTexts(steps: seq<Step>): (texts: seq<string>)
    ensures |texts| == |steps|
    ensures forall i :: 0 <= i < |steps| ==> texts[i] == StepText(steps[i])
  {
    if steps == [] then [] else [StepText(steps[0])] + StepTexts(steps[1..])
  }

  function PathText(steps: seq<Step>): string
    requires steps != []
  {
    Join(StepTexts(steps), '.')
  }

  // ---- the guard admits exactly the paths ----

  lemma {:induction false} IndexOfFirst(a: string, c: char, rest: string)
    requires c !in a
    ensures IndexOf(a + [c] + rest, c) == Some(|a|)
  {
    if a != "" {
      assert (a + [c] + rest)[1..] == a[1..] + [c] + rest;
      IndexOfFirst(a[1..], c, rest);
    }
  }

  lemma IndexReadsBack(n: nat)
    requires n < MAX_FIELD_INDEX
    ensures ParseUsize(NatText(n)) == Some(n)
    ensures TrimBrackets(NatText(n) + "]") == NatText(n)
  {
    var s := NatText(n);
    NatOfNatText(n);
    assert IsDigit(s[0]) && IsDigit(s[|s| - 1]);
    assert !StartsWith(s, "+");
    assert (s + "]")[..|s|] == s;
  }

  lemma NoIndexInKeys(key: string, c: char)
    requires All(key, IsKeyChar) && !IsKeyChar(c)
    ensures c !in key && IndexOf(key, c) == None
  {
    assert forall i :: 0 <= i < |key| ==> key[i] != c;
  }

  lemma KeysOfGoodSteps(s: Step)
    ensures IsGoodStep(s) <==>
              s.key != "" && All(s.key, IsKeyChar) && (s.index.Some? ==> s.index.value < MAX_FIELD_INDEX)
  {}

  lemma IndexesAreSegments(key: string, n: nat)
    requires key != "" && All(key, IsKeyChar) && n < MAX_FIELD_INDEX
    ensures var t := StepText(Step(key, Some(n)));
            ValidSegment(t) && StepOf(t) == Step(key, Some(n)) && '.' !in t
  {
    var digits := NatText(n);
    assert '.' !in digits;
    hide IndexOf, ParseUsize, TrimBrackets, NatText;
    IndexReadsBack(n);
    IndexedText(key, digits);
    NoIndexInKeys(key, '.');
    assert (digits + "]")[..|digits|] == digits;
  }

  lemma IndexedText(key: string, digits: string)
    requires All(key, IsKeyChar)
    ensures var t := key + "[" + digits + "]";
            IndexOf(t, '[') == Some(|key|) && t[..|key|] == key && t[|key| + 1..] == digits + "]"
  {
    NoIndexInKeys(key, '[');
    IndexOfFirst(key, '[', digits + "]");
    assert key + "[" + digits + "]" == key + ['['] + (digits + "]");
  }

  lemma GoodStepsAreSegments(s: Step)
    requires IsGoodStep(s)
    ensures ValidSegment(StepText(s)) && StepOf(StepText(s)) == s
    ensures '.' !in StepText(s)
  {
    KeysOfGoodSteps(s);
    hide IsGoodStep;
    if s.index.Some? {
      IndexesAreSegments(s.key, s.index.value);
    } else {
      NoIndexInKeys(s.key, '[');
      NoIndexInKeys(s.key, '.');
      assert EndsWith("]", "]");
    }
  }

  lemma SegmentsAreGoodSteps(segment: string)
    requires ValidSegment(segment)
    ensures IsGoodStep(StepOf(segment)) && StepText(StepOf(segment)) == segment
  {
    KeysOfGoodSteps(StepOf(segment));
    hide IsGoodStep;
    var i := IndexOf(segment, '[');
    if i.Some? {
      var key, rest := segment[..i.value], segment[i.value + 1..];
      var digits := rest[..|rest| - 1];
      assert rest == digits + "]" && segment == key + "[" + rest;
      ValidIndexReads(digits);
      hide IndexOf, NatText, ParseUsize, TrimBrackets, ValidIndex, ValidSegment;
      var n := ParseUsize(TrimBrackets(rest)).value;
      assert StepOf(segment) == Step(key, Some(n));
      hide StepOf;
      assert segment == key + "[" + NatText(n) + "]";
    }
  }

  lemma ValidIndexReads(digits: string)
    requires ValidIndex(digits)
    ensures var n := ParseUsize(TrimBrackets(digits + "]"));
            n.Some? && n.value < MAX_FIELD_INDEX && NatText(n.value) == digits
  {
    IndexReadsBack(ParseUsize(digits).value);
    hide NatText, ParseUsize, TrimBrackets;
  }

  /** A name the guard admits is the text of the path the walkers take, and that path is good ... */
  lemma NamesArePaths(name: string)
    requires ValidFieldName(name)
    ensures IsGoodPath(PathOf(name)) && PathText(PathOf(name)) == name
  {
    var segments := Split(name, '.');
    forall i | 0 <= i < |segments|
      ensures IsGoodStep(StepOf(segments[i])) && StepText(StepOf(segments[i])) == segments[i]
    {
      SegmentsAreGoodSteps(segments[i]);
    }
    assert StepTexts(StepsOf(segments)) == segments;
    JoinSplit(name, '.');
  }

  lemma {:induction false} JoinIsNotEmpty(parts: seq<string>, c: char)
    requires parts != [] && parts[0] != ""
    ensures Join(parts, c) != ""
  {}

  /** ... and every good path's text is such a name. So distinct names are distinct paths. */
  lemma PathsAreNames(steps: seq<Step>)
    requires IsGoodPath(steps)
    ensures ValidFieldName(PathText(steps)) && PathOf(PathText(steps)) == steps
  {
    var texts := StepTexts(steps);
    forall i | 0 <= i < |steps|
      ensures ValidSegment(texts[i]) && StepOf(texts[i]) == steps[i] && '.' !in texts[i]
    {
      GoodStepsAreSegments(steps[i]);
    }
    SplitJoin(texts, '.');
    JoinIsNotEmpty(texts, '.');
    assert StepsOf(texts) == steps;
  }
}
