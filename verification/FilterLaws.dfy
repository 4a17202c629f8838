/**
 What the `$filter` grammar means. `Print` writes a filter with the fewest parentheses; parsing
 undoes it exactly on the filters the grammar can express, which fixes `and` over `or`, left
 association and quote doubling at once.
 */
module FilterLaws {
  import opened Wrappers
  import opened Text
  import opened Filter

  // ---- the printer ----

  /** A quoted string: every quote inside doubled. */
  function DoubleQuotes(s: string): string {
    if s == "" then ""
    else if s[0] == '\'' then "''" + DoubleQuotes(s[1..])
    else [s[0]] + DoubleQuotes(s[1..])
  }

  function QuotedText(s: string): string {
    "'" + DoubleQuotes(s) + "'"
  }

  function PathText(path: seq<string>): string {
    if path == [] then "" else Join(path, '/')
  }

  function OpText(op: Op): string {
    match op
    case Eq => "eq" case Ne => "ne" case Ge => "ge" case Le => "le" case Gt => "gt" case Lt => "lt"
  }

  function LiteralText(l: Literal): string {
    match l
    case Text(s) => QuotedText(s)
    case Flag(b) => if b then "true" else "false"
    case Numeral(d) => d
  }

  /** How tightly an operand must bind: anything, an `and` operand, or a single term. */
  datatype Level = OrLevel | AndLevel | TermLevel

  predicate NeedsParens(f: Filter, level: Level) {
    match f
    case Or(_, _) => level != OrLevel
    case And(_, _) => level == TermLevel
    case _ => false
  }

  function Print(f: Filter): string { PrintAt(f, OrLevel) }

  function PrintAt(f: Filter, level: Level): string
    decreases f, 1
  {
    if NeedsParens(f, level) then "(" + (BareText(f) + ")") else BareText(f)
  }

  function BareText(f: Filter): string
    decreases f, 0
  {
    match f
    case Or(l, r) => PrintAt(l, OrLevel) + (" or " + PrintAt(r, AndLevel))
    case And(l, r) => PrintAt(l, AndLevel) + (" and " + PrintAt(r, TermLevel))
    case Compare(path, op, literal) => PathText(path) + (" " + (OpText(op) + (" " + LiteralText(literal))))
    case StartsWith(path, prefix) => "startswith(" + (PathText(path) + ("," + (QuotedText(prefix) + ")")))
  }

  /** The same filter as tokens. */
  function TokensAt(f: Filter, level: Level): seq<Token>
    decreases f, 1
  {
    if NeedsParens(f, level) then [Open] + (BareTokens(f) + [Close]) else BareTokens(f)
  }

  function BareTokens(f: Filter): seq<Token>
    decreases f, 0
  {
    match f
    case Or(l, r) => TokensAt(l, OrLevel) + ([Word("or")] + TokensAt(r, AndLevel))
    case And(l, r) => TokensAt(l, AndLevel) + ([Word("and")] + TokensAt(r, TermLevel))
    case Compare(path, op, literal) => [Word(PathText(path)), Word(OpText(op)), LiteralToken(literal)]
    case StartsWith(path, prefix) => [Word("startswith"), Open, Word(PathText(path)), Comma, Str(prefix), Close]
  }

  function LiteralToken(l: Literal): Token {
    match l
    case Text(s) => Str(s)
    case _ => Word(LiteralText(l))
  }

  // ---- the filters the grammar can express ----

  predicate IsPath(path: seq<string>) {
    path != [] && forall i :: 0 <= i < |path| ==> IsIdentifier(path[i])
  }

  /** The bare word `startswith`, which the parser takes for the function and never for a property. */
  predicate IsStartsWithWord(path: seq<string>) {
    |path| == 1 && LowerCase(path[0]) == "startswith"
  }

  predicate Expressible(f: Filter) {
    match f
    case And(l, r) => Expressible(l) && Expressible(r)
    case Or(l, r) => Expressible(l) && Expressible(r)
    case StartsWith(path, _) => IsPath(path)
    case Compare(path, _, literal) =>
      IsPath(path) && !IsStartsWithWord(path) && (literal.Numeral? ==> IsFloat(literal.digits))
  }

  // ---- lexing what was printed ----

  predicate NoBreaks(s: string) {
    forall i :: 0 <= i < |s| ==> !IsBreak(s[i])
  }

  /** What may follow a printed operand. */
  predicate Boundary(rest: string) {
    rest == "" || rest[0] == ' ' || rest[0] == ')'
  }

  lemma {:induction false} WordLengthIs(w: string, rest: string)
    requires NoBreaks(w) && (rest == "" || IsBreak(rest[0]))
    ensures WordLength(w + rest) == |w|
  {
    if w == "" {
      assert w + rest == rest;
    } else {
      assert (w + rest)[1..] == w[1..] + rest;
      WordLengthIs(w[1..], rest);
    }
  }

  lemma LexWord(w: string, rest: string)
    requires w != "" && NoBreaks(w) && (rest == "" || (IsBreak(rest[0]) && rest[0] != '\''))
    ensures Tokens(w + rest) == Prepend([Word(w)], Tokens(rest))
  {
    WordLengthIs(w, rest);
    assert (w + rest)[..|w|] == w && (w + rest)[|w|..] == rest;
  }

  lemma {:induction false} QuotedUndoesDoubling(s: string, rest: string)
    requires rest == "" || rest[0] != '\''
    ensures Quoted(DoubleQuotes(s) + "'" + rest) == Ok((s, rest))
  {
    var t := DoubleQuotes(s) + "'" + rest;
    if s == "" {
      assert t == "'" + rest && t[1..] == rest;
    } else if s[0] == '\'' {
      assert t[2..] == DoubleQuotes(s[1..]) + "'" + rest;
      QuotedUndoesDoubling(s[1..], rest);
      assert [s[0]] + s[1..] == s;
    } else {
      assert t[1..] == DoubleQuotes(s[1..]) + "'" + rest;
      QuotedUndoesDoubling(s[1..], rest);
      assert [s[0]] + s[1..] == s;
    }
  }

  /** A quoted string after an enum's type name, or after no name at all. */
  lemma LexQuoted(name: string, s: string, rest: string)
    requires NoBreaks(name) && (rest == "" || rest[0] != '\'')
    ensures Tokens(name + (QuotedText(s) + rest)) == Prepend([Str(s)], Tokens(rest))
  {
    var t := name + (QuotedText(s) + rest);
    WordLengthIs(name, QuotedText(s) + rest);
    assert t[|name| + 1..] == DoubleQuotes(s) + "'" + rest;
    assert t[|name|] == '\'';
    QuotedUndoesDoubling(s, rest);
  }

  lemma LexOne(c: char, rest: string)
    requires c == ' ' || c == '(' || c == ')' || c == ','
    ensures Tokens([c] + rest) ==
              if c == ' ' then Tokens(rest)
              else Prepend([if c == '(' then Open else if c == ')' then Close else Comma], Tokens(rest))
  {
    assert ([c] + rest)[1..] == rest;
  }

  /** ` word `: a connective or an operator between its operands. */
  lemma LexSpacedWord(w: string, rest: string)
    requires w != "" && NoBreaks(w)
    ensures Tokens(" " + w + " " + rest) == Prepend([Word(w)], Tokens(rest))
  {
    assert " " + w + " " + rest == [' '] + (w + ([' '] + rest));
    LexOne(' ', w + ([' '] + rest));
    LexWord(w, [' '] + rest);
    LexOne(' ', rest);
  }

  /** Three bare words: a property, an operator and an unquoted literal. */
  lemma LexComparison(p: string, o: string, v: string, rest: string)
    requires p != "" && NoBreaks(p) && o != "" && NoBreaks(o) && v != "" && NoBreaks(v) && Boundary(rest)
    ensures Tokens(p + (" " + o + " " + (v + rest))) == Prepend([Word(p), Word(o), Word(v)], Tokens(rest))
  {
    hide Tokens;
    var tail := " " + o + " " + (v + rest);
    LexWord(v, rest);
    LexSpacedWord(o, v + rest);
    assert tail[0] == ' ';
    LexWord(p, tail);
    PrependTwice([Word(o)], [Word(v)], Tokens(rest));
    PrependTwice([Word(p)], [Word(o)] + [Word(v)], Tokens(rest));
    assert [Word(p)] + ([Word(o)] + [Word(v)]) == [Word(p), Word(o), Word(v)];
  }

  lemma {:induction false} PathHasNoBreaks(path: seq<string>)
    requires IsPath(path)
    ensures Join(path, '/') != "" && NoBreaks(Join(path, '/'))
  {
    assert IsIdentifier(path[0]);
    forall i | 0 <= i < |path[0]| ensures !IsBreak(path[0][i]) {
      assert IsIdentifierChar(path[0][i]);
    }
    if |path| > 1 {
      PathHasNoBreaks(path[1..]);
    }
  }

  lemma LexLiteral(l: Literal, rest: string)
    requires Boundary(rest) && (l.Numeral? ==> IsFloat(l.digits))
    ensures Tokens(LiteralText(l) + rest) == Prepend([LiteralToken(l)], Tokens(rest))
  {
    match l {
      case Text(s) =>
        LexQuoted("", s, rest);
        assert "" + (QuotedText(s) + rest) == LiteralText(l) + rest;
      case Flag(b) =>
        LexWord(LiteralText(l), rest);
      case Numeral(d) =>
        FloatHasNoBreaks(d);
        LexWord(d, rest);
    }
  }

  lemma FloatHasNoBreaks(s: string)
    requires IsFloat(s)
    ensures s != "" && NoBreaks(s)
  {
    FloatChars(s);
  }

  lemma LexCompare(path: seq<string>, op: Op, literal: Literal, rest: string)
    requires IsPath(path) && Boundary(rest) && (literal.Numeral? ==> IsFloat(literal.digits))
    ensures var f := Compare(path, op, literal);
            Tokens(BareText(f) + rest) == Prepend(BareTokens(f), Tokens(rest))
  {
    var f := Compare(path, op, literal);
    var tail := LiteralText(literal) + rest;
    hide Tokens, LiteralText, LiteralToken, IsFloat;
    PathHasNoBreaks(path);
    assert BareText(f) + rest == PathText(path) + (" " + (OpText(op) + (" " + tail)));
    LexWord(PathText(path), " " + (OpText(op) + (" " + tail)));
    assert " " + (OpText(op) + (" " + tail)) == " " + OpText(op) + " " + tail;
    LexSpacedWord(OpText(op), tail);
    LexLiteral(literal, rest);
    PrependTwice([Word(OpText(op))], [LiteralToken(literal)], Tokens(rest));
    assert [Word(OpText(op))] + [LiteralToken(literal)] == [Word(OpText(op)), LiteralToken(literal)];
    PrependTwice([Word(PathText(path))], [Word(OpText(op)), LiteralToken(literal)], Tokens(rest));
    assert BareTokens(f) == [Word(PathText(path))] + [Word(OpText(op)), LiteralToken(literal)];
  }

  lemma LexStartsWith(path: seq<string>, prefix: string, rest: string)
    requires IsPath(path)
    ensures var f := StartsWith(path, prefix);
            Tokens(BareText(f) + rest) == Prepend(BareTokens(f), Tokens(rest))
  {
    var f := StartsWith(path, prefix);
    hide Tokens, QuotedText;
    PathHasNoBreaks(path);
    var q := QuotedText(prefix) + (")" + rest);
    var p := PathText(path) + ("," + q);
    assert BareText(f) + rest == "startswith" + ("(" + p);
    LexWord("startswith", "(" + p);
    LexOne('(', p);
    LexWord(PathText(path), "," + q);
    LexOne(',', q);
    assert q == "" + q;
    LexQuoted("", prefix, ")" + rest);
    LexOne(')', rest);
    PrependTwice([Str(prefix)], [Close], Tokens(rest));
    PrependTwice([Comma], [Str(prefix)] + [Close], Tokens(rest));
    PrependTwice([Word(PathText(path))], [Comma] + ([Str(prefix)] + [Close]), Tokens(rest));
    PrependTwice([Open], [Word(PathText(path))] + ([Comma] + ([Str(prefix)] + [Close])), Tokens(rest));
    PrependTwice([Word("startswith")], [Open] + ([Word(PathText(path))] + ([Comma] + ([Str(prefix)] + [Close]))),
                 Tokens(rest));
    assert BareTokens(f) ==
           [Word("startswith")] + ([Open] + ([Word(PathText(path))] + ([Comma] + ([Str(prefix)] + [Close]))));
  }

  /** Two operands and their connective. */
  lemma LexConnected(a: string, w: string, b: string, rest: string, ta: seq<Token>, tb: seq<Token>)
    requires w == "or" || w == "and"
    requires var tail := " " + w + " " + (b + rest); Tokens(a + tail) == Prepend(ta, Tokens(tail))
    requires Tokens(b + rest) == Prepend(tb, Tokens(rest))
    ensures Tokens(a + (" " + w + " " + b) + rest) == Prepend(ta + ([Word(w)] + tb), Tokens(rest))
  {
    hide Tokens;
    LexSpacedWord(w, b + rest);
    assert a + (" " + w + " " + b) + rest == a + (" " + w + " " + (b + rest));
    PrependTwice([Word(w)], tb, Tokens(rest));
    PrependTwice(ta, [Word(w)] + tb, Tokens(rest));
  }

  lemma {:induction false} LexBare(f: Filter, rest: string)
    requires Expressible(f) && Boundary(rest)
    ensures Tokens(BareText(f) + rest) == Prepend(BareTokens(f), Tokens(rest))
    decreases f, 0
  {
    hide Tokens, IsPath;
    match f {
      case Compare(path, op, literal) => LexCompare(path, op, literal, rest);
      case StartsWith(path, prefix) => LexStartsWith(path, prefix, rest);
      case Or(l, r) =>
        var b := PrintAt(r, AndLevel);
        LexPrinted(l, OrLevel, " or " + (b + rest));
        LexPrinted(r, AndLevel, rest);
        assert " " + "or" + " " + (b + rest) == " or " + (b + rest) && " " + "or" + " " + b == " or " + b;
        LexConnected(PrintAt(l, OrLevel), "or", b, rest, TokensAt(l, OrLevel), TokensAt(r, AndLevel));
      case And(l, r) =>
        var b := PrintAt(r, TermLevel);
        LexPrinted(l, AndLevel, " and " + (b + rest));
        LexPrinted(r, TermLevel, rest);
        assert " " + "and" + " " + (b + rest) == " and " + (b + rest) && " " + "and" + " " + b == " and " + b;
        LexConnected(PrintAt(l, AndLevel), "and", b, rest, TokensAt(l, AndLevel), TokensAt(r, TermLevel));
    }
  }

  lemma {:induction false} LexPrinted(f: Filter, level: Level, rest: string)
    requires Expressible(f) && Boundary(rest)
    ensures Tokens(PrintAt(f, level) + rest) == Prepend(TokensAt(f, level), Tokens(rest))
    decreases f, 1
  {
    if NeedsParens(f, level) {
      var inner := BareText(f) + (")" + rest);
      assert PrintAt(f, level) + rest == "(" + inner;
      LexOne('(', inner);
      LexBare(f, ")" + rest);
      LexOne(')', rest);
      PrependTwice(BareTokens(f), [Close], Tokens(rest));
      PrependTwice([Open], BareTokens(f) + [Close], Tokens(rest));
    } else {
      LexBare(f, rest);
    }
  }

  // ---- parsing what was printed ----

  lemma PathReadsBack(path: seq<string>)
    requires IsPath(path)
    ensures PathOf(PathText(path)) == Ok(path)
  {
    forall i | 0 <= i < |path| ensures '/' !in path[i] {
      assert IsIdentifier(path[i]);
    }
    SplitJoin(path, '/');
  }

  lemma OpReadsBack(op: Op)
    ensures OpOf(OpText(op)) == Ok(op)
  {
    assert LowerCase(OpText(op)) == OpText(op);
  }

  lemma NumeralReadsBack(d: string)
    requires IsFloat(d)
    ensures LiteralOf(d) == Ok(Numeral(d))
  {
    FloatChars(d);
    assert !IsFloatChar("true"[1]) && !IsFloatChar("false"[2]);
  }

  lemma PathIsNotTheFunction(path: seq<string>)
    requires IsPath(path) && !IsStartsWithWord(path)
    ensures LowerCase(PathText(path)) != "startswith"
  {
    if |path| > 1 {
      var t := PathText(path);
      assert t[|path[0]|] == '/';
      assert LowerCase(t)[|path[0]|] == '/';
      assert '/' !in "startswith";
    }
  }

  lemma ParseLeaf(f: Filter, rest: seq<Token>)
    requires Expressible(f) && (f.Compare? || f.StartsWith?)
    ensures ParsePrimary(BareTokens(f) + rest) == Ok((f, rest))
  {
    PathReadsBack(f.path);
    var ts := BareTokens(f) + rest;
    match f {
      case StartsWith(path, prefix) =>
        assert ts[1..][1..][1..][1..][1..][1..] == rest;
        assert LowerCase("startswith") == "startswith";
      case Compare(path, op, literal) =>
        PathIsNotTheFunction(path);
        OpReadsBack(op);
        assert ts[1..][2..] == rest;
        if literal.Numeral? {
          NumeralReadsBack(literal.digits);
        }
    }
  }

  /** The order in which the three lemmas below may lean on each other for one filter. */
  function Rank(f: Filter, level: Level): nat {
    match f
    case Or(_, _) => (match level case AndLevel => 2 case TermLevel => 1 case OrLevel => 0)
    case And(_, _) => (match level case TermLevel => 2 case OrLevel => 1 case AndLevel => 0)
    case _ => (match level case OrLevel => 2 case AndLevel => 1 case TermLevel => 0)
  }

  lemma {:induction false} ParseTerm(f: Filter, rest: seq<Token>)
    requires Expressible(f)
    ensures ParsePrimary(TokensAt(f, TermLevel) + rest) == Ok((f, rest))
    decreases f, Rank(f, TermLevel)
  {
    if f.Or? || f.And? {
      var close := [Close] + rest;
      ParseOrChain(f, close);
      assert (TokensAt(f, TermLevel) + rest)[1..] == TokensAt(f, OrLevel) + close;
      assert close[1..] == rest;
    } else {
      ParseLeaf(f, rest);
    }
  }

  lemma {:induction false} ParseAndChain(f: Filter, rest: seq<Token>)
    requires Expressible(f)
    ensures ParseAnd(TokensAt(f, AndLevel) + rest) == AndTail(f, rest)
    decreases f, Rank(f, AndLevel)
  {
    match f {
      case And(l, r) =>
        var tail := [Word("and")] + (TokensAt(r, TermLevel) + rest);
        assert TokensAt(f, AndLevel) + rest == TokensAt(l, AndLevel) + tail;
        ParseAndChain(l, tail);
        ParseTerm(r, rest);
        assert tail[1..] == TokensAt(r, TermLevel) + rest;
        assert LowerCase("and") == "and";
      case _ =>
        ParseTerm(f, rest);
    }
  }

  lemma {:induction false} ParseOrChain(f: Filter, rest: seq<Token>)
    requires Expressible(f) && !IsWord(rest, "and")
    ensures ParseOr(TokensAt(f, OrLevel) + rest) == OrTail(f, rest)
    decreases f, Rank(f, OrLevel)
  {
    match f {
      case Or(l, r) =>
        var tail := [Word("or")] + (TokensAt(r, AndLevel) + rest);
        assert TokensAt(f, OrLevel) + rest == TokensAt(l, OrLevel) + tail;
        assert LowerCase("or") == "or" && "or" != "and";
        ParseOrChain(l, tail);
        ParseAndChain(r, rest);
        assert tail[1..] == TokensAt(r, AndLevel) + rest;
      case _ =>
        ParseAndChain(f, rest);
    }
  }

  /** Parsing undoes printing, on every filter the grammar can express. */
  lemma ParseUndoesPrint(f: Filter)
    requires Expressible(f)
    ensures Tokens(Print(f)) == Ok(TokensAt(f, OrLevel))
    ensures Parse(Print(f)) == Ok(f)
  {
    LexPrinted(f, OrLevel, "");
    assert Print(f) + "" == Print(f) && TokensAt(f, OrLevel) + [] == TokensAt(f, OrLevel);
    ParseOrChain(f, []);
  }

  /** Two terms joined by `and`, and nothing else. */
  lemma ParseTwoTerms(a: seq<Token>, b: seq<Token>)
    ensures var ts := a + ([Word("and")] + b);
            var first, second := ParsePrimary(ts), ParsePrimary(b);
            if first.Err? then ParseTokens(ts).Err?
            else if first.value.1 == [Word("and")] + b then
              if second.Err? then ParseTokens(ts).Err?
              else second.value.1 == [] ==> ParseTokens(ts) == Ok(And(first.value.0, second.value.0))
            else true
  {
    hide ParsePrimary;
    var tail := [Word("and")] + b;
    assert LowerCase("and") == "and" && tail[1..] == b;
    var first := ParsePrimary(a + tail);
    if first.Ok? && first.value.1 == tail {
      assert ParseAnd(a + tail) == AndTail(first.value.0, tail);
      if ParsePrimary(b).Ok? && ParsePrimary(b).value.1 == [] {
        var both := And(first.value.0, ParsePrimary(b).value.0);
        assert AndTail(first.value.0, tail) == AndTail(both, []) == Ok((both, []));
        assert ParseOr(a + tail) == OrTail(both, []);
      }
    }
  }

  // ---- the parser yields nothing else ----

  lemma {:induction false} OrYieldsExpressible(ts: seq<Token>)
    ensures ParseOr(ts).Ok? ==> Expressible(ParseOr(ts).value.0)
    decreases |ts|, 3
  {
    AndYieldsExpressible(ts);
    if ParseAnd(ts).Ok? {
      OrTailYieldsExpressible(ParseAnd(ts).value.0, ParseAnd(ts).value.1);
    }
  }

  lemma {:induction false} OrTailYieldsExpressible(left: Filter, ts: seq<Token>)
    requires Expressible(left)
    ensures OrTail(left, ts).Ok? ==> Expressible(OrTail(left, ts).value.0)
    decreases |ts|, 0
  {
    if IsWord(ts, "or") {
      AndYieldsExpressible(ts[1..]);
      match ParseAnd(ts[1..]) {
        case Ok(right) => OrTailYieldsExpressible(Or(left, right.0), right.1);
        case Err(_) =>
      }
    }
  }

  lemma {:induction false} AndYieldsExpressible(ts: seq<Token>)
    ensures ParseAnd(ts).Ok? ==> Expressible(ParseAnd(ts).value.0)
    decreases |ts|, 2
  {
    PrimaryYieldsExpressible(ts);
    if ParsePrimary(ts).Ok? {
      AndTailYieldsExpressible(ParsePrimary(ts).value.0, ParsePrimary(ts).value.1);
    }
  }

  lemma {:induction false} AndTailYieldsExpressible(left: Filter, ts: seq<Token>)
    requires Expressible(left)
    ensures AndTail(left, ts).Ok? ==> Expressible(AndTail(left, ts).value.0)
    decreases |ts|, 0
  {
    if IsWord(ts, "and") {
      PrimaryYieldsExpressible(ts[1..]);
      match ParsePrimary(ts[1..]) {
        case Ok(right) => AndTailYieldsExpressible(And(left, right.0), right.1);
        case Err(_) =>
      }
    }
  }

  lemma {:induction false} PrimaryYieldsExpressible(ts: seq<Token>)
    ensures ParsePrimary(ts).Ok? ==> Expressible(ParsePrimary(ts).value.0)
    decreases |ts|, 1
  {
    if ts != [] && ts[0].Open? {
      OrYieldsExpressible(ts[1..]);
    } else if ts != [] && ts[0].Word? {
      if LowerCase(ts[0].word) != "startswith" {
        CompareYieldsExpressible(ts[0].word, ts[1..]);
      }
    }
  }

  lemma CompareYieldsExpressible(w: string, ts: seq<Token>)
    requires LowerCase(w) != "startswith"
    ensures ParseCompare(w, ts).Ok? ==> Expressible(ParseCompare(w, ts).value.0)
  {
    if PathOf(w).Ok? {
      PathsOfOtherWords(w);
    }
    hide PathOf, OpOf, LiteralOf, IsPath, IsStartsWithWord;
  }

  lemma PathsOfOtherWords(w: string)
    requires LowerCase(w) != "startswith" && PathOf(w).Ok?
    ensures IsPath(PathOf(w).value) && !IsStartsWithWord(PathOf(w).value)
  {
    var path := PathOf(w).value;
    JoinSplit(w, '/');
    assert |path| == 1 ==> path[0] == w;
  }

  /** The printed form reads back exactly when the grammar can express the filter. */
  lemma ExpressibleIffReadsBack(f: Filter)
    ensures Parse(Print(f)) == Ok(f) <==> Expressible(f)
  {
    if Expressible(f) {
      ParseUndoesPrint(f);
    } else {
      var ts := Tokens(Print(f));
      if ts.Ok? {
        OrYieldsExpressible(ts.value);
      }
    }
  }

  /** Whatever spelling was read, printing it is one that reads as the same filter. */
  lemma PrintIsANormalForm(input: string)
    ensures Parse(input).Ok? ==> Parse(Print(Parse(input).value)) == Parse(input)
  {
    var ts := Tokens(input);
    if ts.Ok? {
      OrYieldsExpressible(ts.value);
      if Parse(input).Ok? {
        ParseUndoesPrint(Parse(input).value);
      }
    }
  }
}
