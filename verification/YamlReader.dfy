/**
 A reader of the YAML the detail view writes, and the round trip.

 The reader works by indentation and judges plain text by YAML 1.2's own rules: section 5.1 for the
 characters, section 7.3.3 for what plain text may hold, section 10.3.2 for what it resolves to, keys
 as well as values, section 7.4.2 for how long a key may be, and section 9.1 for the document markers.
 The words yes, no, on and off of YAML 1.1 resolve too. So reading a rendering back shows that every
 string that had to be quoted was, and that no key is read as something else.
 */
module YamlReader {
  import opened Wrappers
  import opened Text
  import opened Json
  import opened Yaml

  // ---- scalars ----

  /** A control character that has to be escaped between quotes and is not one the writer escapes. */
  predicate IsRawControl(c: char) {
    c < ' ' && c != '\t' && c != '\n' && c != '\r'
  }

  function Unescaped(s: string): Option<string> {
    if s == "" then Some("")
    else if s[0] == '"' || (s[0] < ' ' && s[0] != '\t') then None
    else if s[0] != '\\' then
      var rest := Unescaped(s[1..]);
      if rest.Some? then Some([s[0]] + rest.value) else None
    else if |s| < 2 then None
    else
      var c := if s[1] == 'n' then Some('\n') else if s[1] == 'r' then Some('\r') else if s[1] == 't' then Some('\t')
               else if s[1] == '\\' || s[1] == '"' then Some(s[1]) else None;
      var rest := Unescaped(s[2..]);
      if c.Some? && rest.Some? then Some([c.value] + rest.value) else None
  }

  predicate IsBlank(c: char) { c == ' ' || c == '\t' }

  /** Neither printable nor between quotes only: the byte order mark and two that are no characters. */
  predicate IsUnprintable(c: char) {
    var n := c as int;
    n == 0xFEFF || n == 0xFFFE || n == 0xFFFF
  }

  /** A character of plain text: printable, no line break, no byte order mark. */
  predicate IsPlainChar(c: char) {
    var n := c as int;
    n == 9 || 0x20 <= n <= 0x7E || n == 0x85 || (n >= 0xA0 && !IsUnprintable(c))
  }

  /** What plain text may be, before a colon or the end of the line: no indicator in front (`-`, `?`
      and `:` only before something that is no blank), no colon before a blank, no `#` behind one. */
  predicate IsPlainText(t: string) {
    && t != ""
    && t[0] !in ",[]{}#&*!|>'\"%@`" && !IsBlank(t[0])
    && (t[0] in "-?:" && |t| > 1 ==> !IsBlank(t[1]))
    && !IsBlank(t[|t| - 1])
    && (forall i :: 0 <= i < |t| ==> IsPlainChar(t[i]))
    && (forall i :: 0 <= i < |t| - 1 ==> !(t[i] == ':' && IsBlank(t[i + 1])))
    && (forall i :: 0 <= i < |t| - 1 ==> !(IsBlank(t[i]) && t[i + 1] == '#'))
  }

  /** Plain text that ends its line: no colon at the end, and more than an indicator. */
  predicate IsYamlPlain(t: string) {
    IsPlainText(t) && t[|t| - 1] != ':' && t != "-" && t != "?"
  }

  // ---- what plain text resolves to ----

  function Upper(c: char): char {
    if 'a' <= c <= 'z' then (c as int - 32) as char else c
  }

  function UpperCase(s: string): (r: string)
    ensures |r| == |s|
  {
    seq(|s|, i requires 0 <= i < |s| => Upper(s[i]))
  }

  function Capitalized(w: string): string {
    if w == "" then "" else [Upper(w[0])] + w[1..]
  }

  /** The word, in small letters, with a capital, or in capitals. */
  predicate IsForm(t: string, w: string) {
    t == w || t == Capitalized(w) || t == UpperCase(w)
  }

  predicate IsNullWord(t: string) { t == "~" || IsForm(t, "null") }

  predicate IsTrueWord(t: string) { IsForm(t, "true") || IsForm(t, "yes") || IsForm(t, "on") }

  predicate IsFalseWord(t: string) { IsForm(t, "false") || IsForm(t, "no") || IsForm(t, "off") }

  predicate IsIntText(s: string) {
    Unsigned(s) != "" && All(Unsigned(s), IsDigit)
  }

  function IntOf(s: string): int
    requires IsIntText(s)
  {
    if StartsWith(s, "-") then 0 - NatOf(Unsigned(s)) else NatOf(Unsigned(s))
  }

  predicate IsOctalDigit(c: char) { '0' <= c <= '7' }

  /** A number this reader does not hold: a float, or an integer in another base. */
  predicate IsOtherNumber(t: string) {
    var u := Unsigned(t);
    || IsDecimal(u)
    || (StartsWith(t, "0x") && |t| > 2 && All(t[2..], IsHexDigit))
    || (StartsWith(t, "0o") && |t| > 2 && All(t[2..], IsOctalDigit))
    || (u != "" && u[0] == '.' && IsForm(u[1..], "inf"))
    || t == ".nan" || t == ".NaN" || t == ".NAN"
  }

  /** Plain text that is read as something other than itself. */
  predicate Resolves(t: string) {
    IsNullWord(t) || IsTrueWord(t) || IsFalseWord(t) || IsIntText(t) || IsOtherNumber(t)
  }

  /** Text without quotes. */
  function ReadPlain(t: string): Option<Value> {
    if IsNullWord(t) then Some(Null)
    else if IsTrueWord(t) then Some(Bool(true))
    else if IsFalseWord(t) then Some(Bool(false))
    else if IsIntText(t) then Some(Number(IntOf(t)))
    else if IsOtherNumber(t) || !IsYamlPlain(t) then None
    else Some(String(t))
  }

  function ReadScalar(t: string): Option<Value> {
    if t == "{}" then Some(Object([]))
    else if t == "[]" then Some(Array([]))
    else if |t| >= 2 && t[0] == '"' && t[|t| - 1] == '"' then
      var s := Unescaped(t[1..|t| - 1]);
      if s.Some? then Some(String(s.value)) else None
    else ReadPlain(t)
  }

  // ---- entries ----

  /** Where a colon ends a key: the first one before a blank or the end of the line. */
  function KeyEnd(t: string): Option<nat> {
    if t == "" then None
    else if t[0] == ':' && (|t| == 1 || IsBlank(t[1])) then Some(0)
    else
      var rest := KeyEnd(t[1..]);
      if rest.Some? then Some(rest.value + 1) else None
  }

  const MAX_KEY := 1024

  /** A key that is written without quotes and read as the string it is. */
  predicate IsPlainKey(t: string) {
    IsPlainText(t) && |t| <= MAX_KEY && !Resolves(t)
  }

  datatype Entry = Entry(key: string, rest: string)

  /** `key:` or `key: rest`. */
  function SplitEntry(t: string): Option<Entry> {
    var i := KeyEnd(t);
    if i.None? || i.value >= |t| || !IsPlainKey(t[..i.value]) then None
    else Some(Entry(t[..i.value], t[i.value + 1..]))
  }

  predicate IsDash(t: string) {
    t == "-" || StartsWith(t, "- ")
  }

  // ---- structure, by indentation ----

  // There are no explicit entries here (`? key`, section 8.2.2), which the writer never means: a text that
  // would start one is refused. So is a byte order mark, even where section 5.2 would let it pass.

  function ReadNode(ls: seq<Line>, depth: nat): (r: Option<(Value, seq<Line>)>)
    ensures r.Some? ==> |r.value.1| < |ls|
    decreases |ls|, 3
  {
    if ls == [] || ls[0].depth != depth then None
    else if IsDash(ls[0].text) then
      var items := ReadItems(ls, depth);
      if items.Some? && |items.value.1| < |ls| then Some((Array(items.value.0), items.value.1)) else None
    else if SplitEntry(ls[0].text).Some? then
      var members := ReadEntries(ls, depth);
      if members.Some? && |members.value.1| < |ls| then Some((Object(members.value.0), members.value.1)) else None
    else
      var v := ReadScalar(ls[0].text);
      if v.Some? then Some((v.value, ls[1..])) else None
  }

  /** The entries at this depth, up to the first line that is not one. */
  function ReadEntries(ls: seq<Line>, depth: nat): (r: Option<(seq<Member>, seq<Line>)>)
    ensures r.Some? ==> |r.value.1| <= |ls|
    decreases |ls|, 0
  {
    if ls == [] || ls[0].depth != depth || IsDash(ls[0].text) || SplitEntry(ls[0].text).None? then Some(([], ls))
    else
      var e := SplitEntry(ls[0].text).value;
      var v := if e.rest == "" then ReadNode(ls[1..], depth + 1) else ReadInline(e.rest[1..], ls[1..]);
      if v.None? then None
      else
        var more := ReadEntries(v.value.1, depth);
        if more.None? then None else Some(([Member(e.key, v.value.0)] + more.value.0, more.value.1))
  }

  /** A scalar on its key's own line. */
  function ReadInline(t: string, rest: seq<Line>): (r: Option<(Value, seq<Line>)>)
    ensures r.Some? ==> r.value.1 == rest
  {
    var v := ReadScalar(t);
    if v.Some? then Some((v.value, rest)) else None
  }

  /** The items at this depth. What follows a dash is taken as a line one level in. */
  function ReadItems(ls: seq<Line>, depth: nat): (r: Option<(seq<Value>, seq<Line>)>)
    ensures r.Some? ==> |r.value.1| <= |ls|
    decreases |ls|, 2
  {
    if ls == [] || ls[0].depth != depth || !IsDash(ls[0].text) then Some(([], ls))
    else
      var v := ReadItem(ls, depth);
      if v.None? then None
      else
        var more := ReadItems(v.value.1, depth);
        if more.None? then None else Some(([v.value.0] + more.value.0, more.value.1))
  }

  function ReadItem(ls: seq<Line>, depth: nat): (r: Option<(Value, seq<Line>)>)
    requires ls != [] && IsDash(ls[0].text)
    ensures r.Some? ==> |r.value.1| < |ls|
    decreases |ls|, 1
  {
    var t := ls[0].text;
    if t == "-" then ReadNode(ls[1..], depth + 1)
    else if SplitEntry(t[2..]).Some? then
      var members := ReadEntries([Line(depth + 1, t[2..])] + ls[1..], depth + 1);
      if members.Some? && |members.value.1| < |ls| then Some((Object(members.value.0), members.value.1)) else None
    else ReadInline(t[2..], ls[1..])
  }

  // ---- lines ----

  function LeadingSpaces(s: string): (n: nat)
    ensures n <= |s|
  {
    if s == "" || s[0] != ' ' then 0 else 1 + LeadingSpaces(s[1..])
  }

  /** The text up to the first line break, when there is one. */
  function FirstLine(s: string): (r: Option<string>)
    ensures r.Some? ==> |r.value| < |s|
  {
    if s == "" then None
    else if s[0] == '\n' then Some("")
    else
      var rest := FirstLine(s[1..]);
      if rest.Some? then Some([s[0]] + rest.value) else None
  }

  function ReadLines(s: string): Option<seq<Line>>
    decreases |s|
  {
    if s == "" then Some([])
    else
      var first := FirstLine(s);
      if first.None? then None
      else
        var n := LeadingSpaces(first.value);
        var rest := ReadLines(s[|first.value| + 1..]);
        if n % 2 == 1 || rest.None? then None
        else Some([Line(n / 2, first.value[n..])] + rest.value)
  }

  /** A line that starts or ends a document, when it stands at the margin. */
  predicate IsMarker(t: string) {
    (StartsWith(t, "---") || StartsWith(t, "...")) && (|t| == 3 || IsBlank(t[3]))
  }

  predicate HasMarker(ls: seq<Line>) {
    exists i :: 0 <= i < |ls| && ls[i].depth == 0 && IsMarker(ls[i].text)
  }

  /** One document: no marker in it, and nothing after it. */
  function Read(s: string): Option<Value> {
    var ls := ReadLines(s);
    if ls.None? || HasMarker(ls.value) then None
    else
      var v := ReadNode(ls.value, 0);
      if v.Some? && v.value.1 == [] then Some(v.value.0) else None
  }
}
