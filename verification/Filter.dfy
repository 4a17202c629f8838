/**
 The `$filter` language (`crates/mockpc/src/filter.rs`): tokens, the recursive-descent parser and
 the evaluator.

 `Tokens`, `ParseOr`, `ParseAnd` and `ParsePrimary` are the specification, over what is left of
 the input; `Tokenize` and the class `Parser` are the program's loops over an index, proved to
 compute them. What the language means is proved about the specification in `FilterLaws.dfy`.
 */
module Filter {
  import opened Wrappers
  import opened Text

  datatype Op = Eq | Ne | Ge | Le | Gt | Lt

  /** A number keeps its text: what it is compared as is a parameter of `Matches`. */
  datatype Literal = Text(text: string) | Flag(b: bool) | Numeral(digits: string)

  datatype Filter =
    | And(left: Filter, right: Filter)
    | Or(left: Filter, right: Filter)
    | Compare(path: seq<string>, op: Op, literal: Literal)
    | StartsWith(path: seq<string>, prefix: string)

  datatype Token = Word(word: string) | Str(str: string) | Open | Close | Comma

  datatype Error = Unterminated | NotAPath | NotAnOperator | NotAValue | Unexpected | Extra

  // ---- tokens ----

  /** The characters that end a word. */
  predicate IsBreak(c: char) {
    c == ' ' || c == '\t' || c == '(' || c == ')' || c == ',' || c == '\''
  }

  /** How many characters at the front of `s` belong to one word. */
  function WordLength(s: string): (n: nat)
    ensures n <= |s|
    ensures forall i :: 0 <= i < n ==> !IsBreak(s[i])
    ensures n < |s| ==> IsBreak(s[n])
  {
    if s == "" || IsBreak(s[0]) then 0 else 1 + WordLength(s[1..])
  }

  /** The rest of a quoted string after its opening quote, and what follows its closing one. */
  function Quoted(s: string): (r: Result<(string, string), Error>)
    ensures r.Ok? ==> |r.value.1| < |s|
  {
    if s == "" then Err(Unterminated)
    else if s[0] != '\'' then
      var rest :- Quoted(s[1..]);
      Ok(([s[0]] + rest.0, rest.1))
    else if |s| > 1 && s[1] == '\'' then
      var rest :- Quoted(s[2..]);
      Ok((['\''] + rest.0, rest.1))
    else Ok(("", s[1..]))
  }

  function Tokens(s: string): Result<seq<Token>, Error>
    decreases |s|, 1
  {
    if s == "" then Ok([])
    else if s[0] == ' ' || s[0] == '\t' then Tokens(s[1..])
    else if s[0] == '(' then Prepend([Open], Tokens(s[1..]))
    else if s[0] == ')' then Prepend([Close], Tokens(s[1..]))
    else if s[0] == ',' then Prepend([Comma], Tokens(s[1..]))
    else TokensAtWord(s)
  }

  /** The tokens of a text that starts on a word or a quote. In an enum literal the word before
      the quote names a type, and only the quoted part counts. */
  function TokensAtWord(s: string): Result<seq<Token>, Error>
    requires s != "" && (IsBreak(s[0]) ==> s[0] == '\'')
    decreases |s|, 0
  {
    var n := WordLength(s);
    if n < |s| && s[n] == '\'' then
      var q :- Quoted(s[n + 1..]);
      Prepend([Str(q.0)], Tokens(q.1))
    else Prepend([Word(s[..n])], Tokens(s[n..]))
  }

  function Prepend(ts: seq<Token>, r: Result<seq<Token>, Error>): Result<seq<Token>, Error> {
    match r
    case Ok(rest) => Ok(ts + rest)
    case Err(e) => Err(e)
  }

  lemma PrependNothing(ts: seq<Token>, r: Result<seq<Token>, Error>)
    ensures Prepend([], r) == r
    ensures Prepend(ts, Ok([])) == Ok(ts)
  {
    assert ts + [] == ts;
    if r.Ok? {
      assert [] + r.value == r.value;
    }
  }

  lemma PrependTwice(a: seq<Token>, b: seq<Token>, r: Result<seq<Token>, Error>)
    ensures Prepend(a, Prepend(b, r)) == Prepend(a + b, r)
  {
    if r.Ok? {
      assert a + (b + r.value) == a + b + r.value;
    }
  }

  // ---- words ----

  predicate IsIdentifier(s: string) {
    s != "" && All(s, IsIdentifierChar)
  }

  function PathOf(word: string): Result<seq<string>, Error> {
    var segments := Split(word, '/');
    if forall i :: 0 <= i < |segments| ==> IsIdentifier(segments[i]) then Ok(segments) else Err(NotAPath)
  }

  function OpOf(word: string): Result<Op, Error> {
    var w := LowerCase(word);
    if w == "eq" then Ok(Eq)
    else if w == "ne" then Ok(Ne)
    else if w == "ge" then Ok(Ge)
    else if w == "le" then Ok(Le)
    else if w == "gt" then Ok(Gt)
    else if w == "lt" then Ok(Lt)
    else Err(NotAnOperator)
  }

  /** The parser's test for a time stamp: long enough, a dash or a `T` at three places, a `Z` last. It
      looks at nothing else. */
  predicate IsInstant(s: string) {
    var b := Utf8(s);
    |b| >= 20 && b[4] == '-' as int && b[7] == '-' as int && b[10] == 'T' as int && EndsWith(s, "Z")
  }

  function LiteralOf(word: string): Result<Literal, Error> {
    if word == "true" then Ok(Flag(true))
    else if word == "false" then Ok(Flag(false))
    else if IsFloat(word) then Ok(Numeral(word))
    else if IsInstant(word) then Ok(Text(word))
    else Err(NotAValue)
  }

  // ---- the grammar, over the tokens that are left ----

  type Parsed = Result<(Filter, seq<Token>), Error>

  predicate IsWord(ts: seq<Token>, word: string) {
    ts != [] && ts[0].Word? && LowerCase(ts[0].word) == word
  }

  function ParseOr(ts: seq<Token>): (r: Parsed)
    ensures r.Ok? ==> |r.value.1| < |ts|
    decreases |ts|, 3
  {
    var left :- ParseAnd(ts);
    OrTail(left.0, left.1)
  }

  /** The rest of an `or` chain: each further operand joins everything before it. */
  function OrTail(left: Filter, ts: seq<Token>): (r: Parsed)
    ensures r.Ok? ==> |r.value.1| <= |ts|
    decreases |ts|, 0
  {
    if IsWord(ts, "or") then
      var right :- ParseAnd(ts[1..]);
      OrTail(Or(left, right.0), right.1)
    else Ok((left, ts))
  }

  function ParseAnd(ts: seq<Token>): (r: Parsed)
    ensures r.Ok? ==> |r.value.1| < |ts|
    decreases |ts|, 2
  {
    var left :- ParsePrimary(ts);
    AndTail(left.0, left.1)
  }

  function AndTail(left: Filter, ts: seq<Token>): (r: Parsed)
    ensures r.Ok? ==> |r.value.1| <= |ts|
    decreases |ts|, 0
  {
    if IsWord(ts, "and") then
      var right :- ParsePrimary(ts[1..]);
      AndTail(And(left, right.0), right.1)
    else Ok((left, ts))
  }

  function Take(ts: seq<Token>, token: Token): (r: Result<seq<Token>, Error>)
    ensures r.Ok? ==> ts != [] && r.value == ts[1..]
  {
    if ts != [] && ts[0] == token then Ok(ts[1..]) else Err(Unexpected)
  }

  function ParsePrimary(ts: seq<Token>): (r: Parsed)
    ensures r.Ok? ==> |r.value.1| < |ts|
    decreases |ts|, 1
  {
    if ts == [] then Err(Unexpected)
    else match ts[0]
    case Open =>
      var inner :- ParseOr(ts[1..]);
      var rest :- Take(inner.1, Close);
      Ok((inner.0, rest))
    case Word(w) =>
      if LowerCase(w) == "startswith" then ParseStartsWith(ts[1..]) else ParseCompare(w, ts[1..])
    case _ => Err(Unexpected)
  }

  /** What follows the word `startswith`. */
  function ParseStartsWith(ts: seq<Token>): (r: Parsed)
    ensures r.Ok? ==> |r.value.1| <= |ts|
  {
    var ts1 :- Take(ts, Open);
    if ts1 == [] || !ts1[0].Word? then Err(Unexpected) else
    var path :- PathOf(ts1[0].word);
    var ts2 :- Take(ts1[1..], Comma);
    if ts2 == [] || !ts2[0].Str? then Err(Unexpected) else
    var rest :- Take(ts2[1..], Close);
    Ok((StartsWith(path, ts2[0].str), rest))
  }

  /** What follows the word `w` at the head of a comparison. */
  function ParseCompare(w: string, ts: seq<Token>): (r: Parsed)
    ensures r.Ok? ==> |r.value.1| <= |ts|
  {
    var path :- PathOf(w);
    if ts == [] || !ts[0].Word? then Err(Unexpected) else
    var op :- OpOf(ts[0].word);
    if |ts| < 2 then Err(Unexpected)
    else match ts[1]
      case Str(s) => Ok((Compare(path, op, Text(s)), ts[2..]))
      case Word(v) =>
        var literal :- LiteralOf(v);
        Ok((Compare(path, op, literal), ts[2..]))
      case _ => Err(Unexpected)
  }

  function ParseTokens(ts: seq<Token>): Result<Filter, Error> {
    var parsed :- ParseOr(ts);
    if parsed.1 == [] then Ok(parsed.0) else Err(Extra)
  }

  function Parse(input: string): Result<Filter, Error> {
    var ts :- Tokens(input);
    ParseTokens(ts)
  }
}
