/**
 What joining a filter and a scope by ` and ` parses to. It is the conjunction exactly when the
 filter has no `or` outside brackets; with one, the scope binds to the last operand alone.
 */
module FilterJoin {
  import opened Wrappers
  import opened Text
  import opened Json
  import opened Filter
  import opened FilterEval
  import opened FilterLaws

  // ---- the tokens of two texts joined at a space ----

  lemma {:induction false} QuotedBeforeSpace(s: string, rest: string)
    requires Quoted(s).Ok?
    ensures Quoted(s + (" " + rest)) == Ok((Quoted(s).value.0, Quoted(s).value.1 + (" " + rest)))
  {
    var t := s + (" " + rest);
    if s[0] != '\'' {
      assert t[1..] == s[1..] + (" " + rest);
      QuotedBeforeSpace(s[1..], rest);
    } else if |s| > 1 && s[1] == '\'' {
      assert t[2..] == s[2..] + (" " + rest);
      QuotedBeforeSpace(s[2..], rest);
    } else {
      assert t[1..] == s[1..] + (" " + rest);
    }
  }

  lemma {:induction false} WordLengthBeforeSpace(s: string, rest: string)
    ensures WordLength(s + (" " + rest)) == WordLength(s)
  {
    var t := s + (" " + rest);
    if s != "" && !IsBreak(s[0]) {
      assert t[1..] == s[1..] + (" " + rest);
      WordLengthBeforeSpace(s[1..], rest);
    }
  }

  lemma {:induction false} TokensBeforeSpace(s: string, rest: string)
    requires Tokens(s).Ok?
    ensures Tokens(s + (" " + rest)) == Prepend(Tokens(s).value, Tokens(rest))
    decreases |s|, 1
  {
    var t := s + (" " + rest);
    if s == "" {
      assert t == " " + rest && t[1..] == rest;
      PrependNothing([], Tokens(rest));
    } else if IsBreak(s[0]) && s[0] != '\'' {
      assert t[1..] == s[1..] + (" " + rest);
      TokensBeforeSpace(s[1..], rest);
      var one := if s[0] == '(' then Open else if s[0] == ')' then Close else Comma;
      PrependTwice([one], Tokens(s[1..]).value, Tokens(rest));
    } else {
      TokensOfWordBeforeSpace(s, rest);
    }
  }

  lemma {:induction false} TokensOfWordBeforeSpace(s: string, rest: string)
    requires s != "" && (IsBreak(s[0]) ==> s[0] == '\'') && TokensAtWord(s).Ok?
    ensures TokensAtWord(s + (" " + rest)) == Prepend(TokensAtWord(s).value, Tokens(rest))
    decreases |s|, 0
  {
    hide Tokens;
    var t, n := s + (" " + rest), WordLength(s);
    WordLengthBeforeSpace(s, rest);
    if n < |s| && s[n] == '\'' {
      var q := Quoted(s[n + 1..]);
      assert t[n + 1..] == s[n + 1..] + (" " + rest);
      QuotedBeforeSpace(s[n + 1..], rest);
      TokensBeforeSpace(q.value.1, rest);
      PrependTwice([Str(q.value.0)], Tokens(q.value.1).value, Tokens(rest));
    } else {
      assert t[..n] == s[..n] && t[n..] == s[n..] + (" " + rest);
      TokensBeforeSpace(s[n..], rest);
      PrependTwice([Word(s[..n])], Tokens(s[n..]).value, Tokens(rest));
    }
  }

  // ---- tokens added after a parse that had already stopped ----

  lemma IsWordBefore(ts: seq<Token>, x: seq<Token>, word: string)
    requires ts != []
    ensures IsWord(ts + x, word) == IsWord(ts, word) && (ts + x)[1..] == ts[1..] + x
  {}

  lemma TakeBefore(ts: seq<Token>, token: Token, x: seq<Token>)
    requires Take(ts, token).Ok?
    ensures Take(ts + x, token) == Ok(Take(ts, token).value + x)
  {
    assert (ts + x)[1..] == ts[1..] + x;
  }

  lemma {:induction false} PrimaryBefore(ts: seq<Token>, x: seq<Token>)
    requires ParsePrimary(ts).Ok?
    ensures ParsePrimary(ts + x) == Ok((ParsePrimary(ts).value.0, ParsePrimary(ts).value.1 + x))
    decreases |ts|, 1
  {
    assert (ts + x)[1..] == ts[1..] + x;
    if ts[0].Open? {
      OrBefore(ts[1..], x);
      TakeBefore(ParseOr(ts[1..]).value.1, Close, x);
    } else if LowerCase(ts[0].word) == "startswith" {
      StartsWithBefore(ts[1..], x);
    } else {
      var rest := ts[1..];
      assert rest[2..] + x == (rest + x)[2..];
    }
  }

  lemma StartsWithBefore(ts: seq<Token>, x: seq<Token>)
    requires ParseStartsWith(ts).Ok?
    ensures ParseStartsWith(ts + x) == Ok((ParseStartsWith(ts).value.0, ParseStartsWith(ts).value.1 + x))
  {
    TakeBefore(ts, Open, x);
    var ts1 := ts[1..];
    assert (ts1 + x)[1..] == ts1[1..] + x;
    TakeBefore(ts1[1..], Comma, x);
    var ts2 := ts1[1..][1..];
    assert (ts2 + x)[1..] == ts2[1..] + x;
    TakeBefore(ts2[1..], Close, x);
  }

  lemma {:induction false} AndTailBefore(left: Filter, ts: seq<Token>, x: seq<Token>)
    requires AndTail(left, ts).Ok?
    ensures var (f, rest) := AndTail(left, ts).value;
            AndTail(left, ts + x) == if rest == [] then AndTail(f, x) else Ok((f, rest + x))
    decreases |ts|, 0
  {
    if ts == [] {
      assert ts + x == x;
    } else {
      IsWordBefore(ts, x, "and");
      if IsWord(ts, "and") {
        PrimaryBefore(ts[1..], x);
        var right := ParsePrimary(ts[1..]).value;
        AndTailBefore(And(left, right.0), right.1, x);
      }
    }
  }

  lemma {:induction false} AndBefore(ts: seq<Token>, x: seq<Token>)
    requires ParseAnd(ts).Ok?
    ensures var (f, rest) := ParseAnd(ts).value;
            ParseAnd(ts + x) == if rest == [] then AndTail(f, x) else Ok((f, rest + x))
    decreases |ts|, 2
  {
    PrimaryBefore(ts, x);
    AndTailBefore(ParsePrimary(ts).value.0, ParsePrimary(ts).value.1, x);
  }

  lemma {:induction false} OrTailBefore(left: Filter, ts: seq<Token>, x: seq<Token>)
    requires OrTail(left, ts).Ok? && OrTail(left, ts).value.1 != []
    ensures OrTail(left, ts + x) == Ok((OrTail(left, ts).value.0, OrTail(left, ts).value.1 + x))
    decreases |ts|, 0
  {
    IsWordBefore(ts, x, "or");
    if IsWord(ts, "or") {
      var right := ParseAnd(ts[1..]).value;
      AndBefore(ts[1..], x);
      OrTailBefore(Or(left, right.0), right.1, x);
    }
  }

  lemma {:induction false} OrBefore(ts: seq<Token>, x: seq<Token>)
    requires ParseOr(ts).Ok? && ParseOr(ts).value.1 != []
    ensures ParseOr(ts + x) == Ok((ParseOr(ts).value.0, ParseOr(ts).value.1 + x))
    decreases |ts|, 3
  {
    var left := ParseAnd(ts).value;
    AndBefore(ts, x);
    OrTailBefore(left.0, left.1, x);
  }

  // ---- the join ----

  /** A filter without an `or` outside brackets: its `and` chain is all of it. */
  predicate HasNoTopLevelOr(input: string) {
    Tokens(input).Ok? && ParseAnd(Tokens(input).value).Ok? && ParseAnd(Tokens(input).value).value.1 == []
  }

  /** A scope: one comparison or one `startswith` the grammar can express. */
  predicate IsTerm(scope: Filter) {
    Expressible(scope) && (scope.Compare? || scope.StartsWith?)
  }

  /** The scope as tokens after the connective. */
  function ScopeTokens(scope: Filter): seq<Token> {
    [Word("and")] + TokensAt(scope, OrLevel)
  }

  lemma ScopeTailParses(left: Filter, scope: Filter)
    requires IsTerm(scope)
    ensures AndTail(left, ScopeTokens(scope)) == Ok((And(left, scope), []))
  {
    var x := ScopeTokens(scope);
    assert LowerCase("and") == "and";
    ParseTerm(scope, []);
    assert TokensAt(scope, TermLevel) + [] == TokensAt(scope, OrLevel) == x[1..];
    assert IsWord(x, "and");
    assert AndTail(left, x) == AndTail(And(left, scope), []);
  }

  lemma {:induction false} OrTailJoined(left: Filter, ts: seq<Token>, scope: Filter)
    requires ts != [] && OrTail(left, ts).Ok? && OrTail(left, ts).value.1 == [] && IsTerm(scope)
    ensures var f := OrTail(left, ts).value.0;
            f.Or? && OrTail(left, ts + ScopeTokens(scope)) == Ok((Or(f.left, And(f.right, scope)), []))
    decreases |ts|
  {
    var x := ScopeTokens(scope);
    IsWordBefore(ts, x, "or");
    assert IsWord(ts, "or");
    AndBefore(ts[1..], x);
    var right := ParseAnd(ts[1..]).value;
    if right.1 == [] {
      ScopeTailParses(right.0, scope);
    } else {
      OrTailJoined(Or(left, right.0), right.1, scope);
    }
  }

  lemma JoinTokens(base: string, scope: Filter)
    requires Tokens(base).Ok? && IsTerm(scope)
    ensures Tokens(base + (" and " + Print(scope))) == Ok(Tokens(base).value + ScopeTokens(scope))
  {
    hide Tokens, Print, Expressible;
    ParseUndoesPrint(scope);
    var tail := "and" + (" " + Print(scope));
    assert " and " + Print(scope) == " " + tail;
    TokensBeforeSpace(base, tail);
    LexWord("and", " " + Print(scope));
    LexOne(' ', Print(scope));
  }

  /** What a joined filter is, either way. */
  function Joined(f: Filter, scope: Filter, conjunction: bool): Filter
    requires conjunction || f.Or?
  {
    if conjunction then And(f, scope) else Or(f.left, And(f.right, scope))
  }

  lemma JoinedTokensParse(ts: seq<Token>, scope: Filter)
    requires ParseTokens(ts).Ok? && IsTerm(scope)
    ensures var conjunction := ParseAnd(ts).Ok? && ParseAnd(ts).value.1 == [];
            && (conjunction || ParseTokens(ts).value.Or?)
            && ParseTokens(ts + ScopeTokens(scope)) == Ok(Joined(ParseTokens(ts).value, scope, conjunction))
  {
    hide ScopeTokens, ParseAnd;
    var x := ScopeTokens(scope);
    var left := ParseAnd(ts).value;
    AndBefore(ts, x);
    if left.1 == [] {
      ScopeTailParses(left.0, scope);
      var both := And(left.0, scope);
      assert OrTail(left.0, []) == Ok((left.0, [])) && OrTail(both, []) == Ok((both, []));
      assert ParseOr(ts + x) == OrTail(both, []);
    } else {
      OrTailJoined(left.0, left.1, scope);
      assert ParseOr(ts + x) == OrTail(left.0, left.1 + x);
    }
  }

  /** A joined filter always parses, and to the conjunction exactly when the base filter has no
      top-level `or`. */
  lemma JoinParsesToConjunction(base: string, scope: Filter)
    requires Parse(base).Ok? && IsTerm(scope)
    ensures HasNoTopLevelOr(base) || Parse(base).value.Or?
    ensures Parse(base + (" and " + Print(scope))) == Ok(Joined(Parse(base).value, scope, HasNoTopLevelOr(base)))
  {
    hide Tokens, ScopeTokens, ParseAnd, ParseTokens, Print;
    JoinTokens(base, scope);
    JoinedTokensParse(Tokens(base).value, scope);
  }

  /** A filter that is no `or` can be joined. */
  lemma OnlyAnOrHasATopLevelOr(base: string)
    requires Parse(base).Ok? && !Parse(base).value.Or?
    ensures HasNoTopLevelOr(base)
  {
    assert IsIdentifier("x");
    JoinParsesToConjunction(base, StartsWith(["x"], ""));
  }

  /** So the joined filter keeps exactly the rows both keep. */
  lemma JoinMatchesBoth(base: string, scope: Filter, row: Value, numbers: NumberOrder)
    requires Parse(base).Ok? && HasNoTopLevelOr(base) && IsTerm(scope)
    ensures var joined := Parse(base + (" and " + Print(scope)));
            joined.Ok? && Parse(Print(scope)).Ok? &&
            (Matches(joined.value, row, numbers) <==>
               Matches(Parse(base).value, row, numbers) && Matches(Parse(Print(scope)).value, row, numbers))
  {
    hide Parse;
    JoinParsesToConjunction(base, scope);
    ParseUndoesPrint(scope);
  }
}
