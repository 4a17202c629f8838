/**
 The `$filter` grammar of the header of `crates/mockpc/src/filter.rs`, as what a sequence of tokens
 spells, and as the text of the tokens: the parser accepts exactly what the grammar derives.
 */
module FilterGrammar {
  import opened Wrappers
  import T = Text
  import opened Letters
  import opened BareTexts
  import opened Filter
  import opened FilterLaws

  // ---- words ----

  predicate IsPropertyName(s: string) {
    s != "" && forall i :: 0 <= i < |s| ==>
      'a' <= s[i] <= 'z' || 'A' <= s[i] <= 'Z' || '0' <= s[i] <= '9' || s[i] == '_' || s[i] == '$'
  }

  /** Property names with a slash between each two. */
  predicate SpellsPath(w: string, path: seq<string>) {
    path != [] && (forall i :: 0 <= i < |path| ==> IsPropertyName(path[i])) && w == T.Join(path, '/')
  }

  predicate SpellsOp(w: string, op: Op) {
    match op
    case Eq => IsAnyCase(w, "eq")
    case Ne => IsAnyCase(w, "ne")
    case Ge => IsAnyCase(w, "ge")
    case Le => IsAnyCase(w, "le")
    case Gt => IsAnyCase(w, "gt")
    case Lt => IsAnyCase(w, "lt")
  }

  /** Twenty bytes at least, dashes after four and seven of them, a `T` after ten, a `Z` last. */
  predicate IsInstantText(w: string) {
    var b := T.Utf8(w);
    |b| >= 20 && b[4] == 45 && b[7] == 45 && b[10] == 84 && w != "" && w[|w| - 1] == 'Z'
  }

  ghost predicate SpellsValue(t: Token, l: Literal) {
    match t
    case Str(s) => l == Text(s)
    case Word(w) =>
      if w == "true" then l == Flag(true)
      else if w == "false" then l == Flag(false)
      else if IsNumberText(w) then l == Numeral(w)
      else IsInstantText(w) && l == Text(w)
    case _ => false
  }

  predicate IsKeyword(t: Token, word: string) { t.Word? && IsAnyCase(t.word, word) }

  // ---- the grammar ----

  ghost predicate SpellsCompare(ts: seq<Token>, path: seq<string>, op: Op, l: Literal) {
    && |ts| == 3 && ts[0].Word? && !IsKeyword(ts[0], "startswith") && SpellsPath(ts[0].word, path)
    && ts[1].Word? && SpellsOp(ts[1].word, op) && SpellsValue(ts[2], l)
  }

  predicate SpellsStartsWith(ts: seq<Token>, path: seq<string>, prefix: string) {
    && |ts| == 6 && IsKeyword(ts[0], "startswith") && ts[1] == Open && ts[2].Word? && SpellsPath(ts[2].word, path)
    && ts[3] == Comma && ts[4] == Str(prefix) && ts[5] == Close
  }

  ghost predicate SpellsLeaf(ts: seq<Token>, f: Filter) {
    match f
    case Compare(path, op, l) => SpellsCompare(ts, path, op, l)
    case StartsWith(path, prefix) => SpellsStartsWith(ts, path, prefix)
    case _ => false
  }

  /** A term: a comparison, a prefix test, or any filter in brackets. */
  ghost predicate SpellsTerm(ts: seq<Token>, f: Filter)
    decreases |ts|, 0
  {
    || SpellsLeaf(ts, f)
    || (|ts| >= 2 && ts[0] == Open && ts[|ts| - 1] == Close && Spells(ts[1..|ts| - 1], f, OrLevel))
  }

  /** An `and` chain is terms, an `or` chain `and` chains; both lean to the left. */
  ghost predicate Spells(ts: seq<Token>, f: Filter, level: Level)
    decreases |ts|, 1
  {
    || SpellsTerm(ts, f)
    || (&& level != TermLevel && f.And?
        && exists i :: && 0 <= i < |ts| && JoinsAt(ts, i, "and")
                       && Spells(ts[..i], f.left, AndLevel) && Spells(ts[i + 1..], f.right, TermLevel))
    || (&& level == OrLevel && f.Or?
        && exists i :: && 0 <= i < |ts| && JoinsAt(ts, i, "or")
                       && Spells(ts[..i], f.left, OrLevel) && Spells(ts[i + 1..], f.right, AndLevel))
  }

  predicate JoinsAt(ts: seq<Token>, i: nat, word: string)
    requires i < |ts|
  {
    IsKeyword(ts[i], word)
  }

  // ---- words are read as they are spelled ----

  lemma KeywordsAreRead(ts: seq<Token>, word: string)
    requires HasNoCapitals(word)
    ensures IsWord(ts, word) <==> ts != [] && IsKeyword(ts[0], word)
  {
    if ts != [] && ts[0].Word? {
      FoldedIs(ts[0].word, word);
    }
  }

  lemma KeywordsAreLower()
    ensures HasNoCapitals("and") && HasNoCapitals("or") && HasNoCapitals("startswith")
    ensures HasNoCapitals("eq") && HasNoCapitals("ne") && HasNoCapitals("ge") && HasNoCapitals("le")
    ensures HasNoCapitals("gt") && HasNoCapitals("lt")
  {}

  lemma PropertyNamesAre(s: string)
    ensures IsIdentifier(s) <==> IsPropertyName(s)
  {}

  lemma PathsAreRead(w: string, path: seq<string>)
    ensures PathOf(w) == Ok(path) <==> SpellsPath(w, path)
  {
    var segments := T.Split(w, '/');
    T.JoinSplit(w, '/');
    forall s ensures IsIdentifier(s) <==> IsPropertyName(s) {
      PropertyNamesAre(s);
    }
    if SpellsPath(w, path) {
      forall i | 0 <= i < |path| ensures '/' !in path[i] {
        assert IsPropertyName(path[i]);
      }
      T.SplitJoin(path, '/');
    }
    hide IsIdentifier, IsPropertyName, T.Split, T.Join;
  }

  lemma OpsAreRead(w: string, op: Op)
    ensures OpOf(w) == Ok(op) <==> SpellsOp(w, op)
  {
    KeywordsAreLower();
    hide HasNoCapitals;
    FoldedIs(w, "eq");
    FoldedIs(w, "ne");
    FoldedIs(w, "ge");
    FoldedIs(w, "le");
    FoldedIs(w, "gt");
    FoldedIs(w, "lt");
    hide T.LowerCase, IsAnyCase;
    OpWordsDiffer();
  }

  lemma OpWordsDiffer()
    ensures "eq" != "ne" && "eq" != "ge" && "eq" != "le" && "eq" != "gt" && "eq" != "lt" && "ne" != "ge"
    ensures "ne" != "le" && "ne" != "gt" && "ne" != "lt" && "ge" != "le" && "ge" != "gt" && "ge" != "lt"
    ensures "le" != "gt" && "le" != "lt" && "gt" != "lt"
  {
    assert "eq"[0] == 'e' && "ne"[0] == 'n' && "ge"[0] == 'g' && "le"[0] == 'l' && "gt"[0] == 'g' && "lt"[0] == 'l';
    assert "ge"[1] == 'e' && "gt"[1] == 't' && "le"[1] == 'e' && "lt"[1] == 't';
  }

  lemma InstantsAre(w: string)
    ensures IsInstant(w) <==> IsInstantText(w)
  {
    assert T.EndsWith(w, "Z") <==> w != "" && w[|w| - 1] == 'Z' by {
      if w != "" {
        assert w[|w| - 1..] == [w[|w| - 1]];
      }
    }
    hide T.EndsWith, T.Utf8;
  }

  /** What the parser makes of the token at the end of a comparison. */
  function ValueOf(t: Token): Result<Literal, Error> {
    match t
    case Str(s) => Ok(Text(s))
    case Word(w) => LiteralOf(w)
    case _ => Err(Unexpected)
  }

  lemma ValuesAreRead(t: Token, l: Literal)
    ensures ValueOf(t) == Ok(l) <==> SpellsValue(t, l)
  {
    if t.Word? {
      NumbersAre(t.word);
      InstantsAre(t.word);
    }
    hide IsNumberText, IsInstantText, T.IsFloat, IsInstant;
  }

  // ---- what is spelled is parsed ----

  lemma LeafParses(ts: seq<Token>, f: Filter, rest: seq<Token>)
    requires SpellsLeaf(ts, f)
    ensures ParsePrimary(ts + rest) == Ok((f, rest))
  {
    var all := ts + rest;
    KeywordsAreLower();
    hide HasNoCapitals;
    KeywordsAreRead(ts, "startswith");
    hide IsKeyword;
    match f {
      case Compare(path, op, l) =>
        PathsAreRead(ts[0].word, path);
        OpsAreRead(ts[1].word, op);
        ValuesAreRead(ts[2], l);
        hide PathOf, OpOf, LiteralOf, T.LowerCase, SpellsPath, SpellsOp, SpellsValue;
        assert all[1..][2..] == rest;
      case StartsWith(path, prefix) =>
        PathsAreRead(ts[2].word, path);
        hide PathOf, T.LowerCase, SpellsPath;
        assert all[1..][1..][1..][1..][1..][1..] == rest;
    }
  }

  lemma {:induction false} TermParses(ts: seq<Token>, f: Filter, rest: seq<Token>)
    requires SpellsTerm(ts, f)
    ensures ParsePrimary(ts + rest) == Ok((f, rest))
    decreases |ts|, 0
  {
    if SpellsLeaf(ts, f) {
      LeafParses(ts, f, rest);
    } else {
      var inner, close := ts[1..|ts| - 1], [Close] + rest;
      OrParses(inner, f, close);
      hide Spells, SpellsLeaf;
      assert (ts + rest)[1..] == inner + close && close[1..] == rest;
    }
  }

  /** An `and` chain of more than one term, taken apart at its last `and`. */
  lemma AndComesApart(ts: seq<Token>, f: Filter) returns (i: nat)
    requires Spells(ts, f, AndLevel) && !SpellsTerm(ts, f)
    ensures f.And? && i < |ts| && IsWord(ts[i..], "and")
    ensures Spells(ts[..i], f.left, AndLevel) && SpellsTerm(ts[i + 1..], f.right)
  {
    i :| 0 <= i < |ts| && JoinsAt(ts, i, "and") && Spells(ts[..i], f.left, AndLevel) &&
         Spells(ts[i + 1..], f.right, TermLevel);
    hide SpellsTerm;
    KeywordsAreLower();
    hide HasNoCapitals;
    KeywordsAreRead(ts[i..], "and");
    hide IsWord, IsKeyword;
  }

  lemma OrComesApart(ts: seq<Token>, f: Filter) returns (i: nat)
    requires Spells(ts, f, OrLevel) && !Spells(ts, f, AndLevel)
    ensures f.Or? && i < |ts| && IsWord(ts[i..], "or")
    ensures Spells(ts[..i], f.left, OrLevel) && Spells(ts[i + 1..], f.right, AndLevel)
  {
    i :| 0 <= i < |ts| && JoinsAt(ts, i, "or") && Spells(ts[..i], f.left, OrLevel) &&
         Spells(ts[i + 1..], f.right, AndLevel);
    hide SpellsTerm;
    KeywordsAreLower();
    hide HasNoCapitals;
    KeywordsAreRead(ts[i..], "or");
    hide IsWord, IsKeyword;
  }

  lemma FirstIsTheWord(a: seq<Token>, b: seq<Token>, word: string)
    requires a != [] && b != [] && a[0] == b[0]
    ensures IsWord(a, word) <==> IsWord(b, word)
  {}

  lemma OrIsNotAnd(ts: seq<Token>)
    requires IsWord(ts, "or")
    ensures !IsWord(ts, "and")
  {
    assert |"or"| != |"and"|;
  }

  lemma AndGoesOn(left: Filter, ts: seq<Token>)
    requires IsWord(ts, "and") && ParsePrimary(ts[1..]).Ok?
    ensures var (right, rest) := ParsePrimary(ts[1..]).value; AndTail(left, ts) == AndTail(And(left, right), rest)
  {
    hide ParsePrimary, IsWord;
  }

  lemma OrGoesOn(left: Filter, ts: seq<Token>)
    requires IsWord(ts, "or") && ParseAnd(ts[1..]).Ok?
    ensures var (right, rest) := ParseAnd(ts[1..]).value; OrTail(left, ts) == OrTail(Or(left, right), rest)
  {
    hide ParseAnd, IsWord;
  }

  lemma ChainOfOne(ts: seq<Token>)
    ensures ParsePrimary(ts).Ok? ==> ParseAnd(ts) == AndTail(ParsePrimary(ts).value.0, ParsePrimary(ts).value.1)
    ensures ParseAnd(ts).Ok? ==> ParseOr(ts) == OrTail(ParseAnd(ts).value.0, ParseAnd(ts).value.1)
  {
    hide ParsePrimary, AndTail, OrTail;
  }

  lemma ChainsEnd(f: Filter, ts: seq<Token>)
    ensures !IsWord(ts, "and") ==> AndTail(f, ts) == Ok((f, ts))
    ensures !IsWord(ts, "or") ==> OrTail(f, ts) == Ok((f, ts))
  {
    hide IsWord;
  }

  lemma {:induction false} AndParses(ts: seq<Token>, f: Filter, rest: seq<Token>)
    requires Spells(ts, f, AndLevel)
    ensures ParseAnd(ts + rest) == AndTail(f, rest)
    decreases |ts|, 1
  {
    hide *;
    if SpellsTerm(ts, f) {
      TermParses(ts, f, rest);
      ChainOfOne(ts + rest);
    } else {
      var i := AndComesApart(ts, f);
      var tail := [ts[i]] + (ts[i + 1..] + rest);
      FirstIsTheWord(ts[i..], tail, "and");
      AndParses(ts[..i], f.left, tail);
      TermParses(ts[i + 1..], f.right, rest);
      assert ts + rest == ts[..i] + tail && tail[1..] == ts[i + 1..] + rest;
      AndGoesOn(f.left, tail);
    }
  }

  lemma {:induction false} OrParses(ts: seq<Token>, f: Filter, rest: seq<Token>)
    requires Spells(ts, f, OrLevel) && !IsWord(rest, "and")
    ensures ParseOr(ts + rest) == OrTail(f, rest)
    decreases |ts|, 2
  {
    hide *;
    if Spells(ts, f, AndLevel) {
      AndParses(ts, f, rest);
      ChainsEnd(f, rest);
      ChainOfOne(ts + rest);
    } else {
      var i := OrComesApart(ts, f);
      var tail := [ts[i]] + (ts[i + 1..] + rest);
      FirstIsTheWord(ts[i..], tail, "or");
      OrIsNotAnd(tail);
      OrParses(ts[..i], f.left, tail);
      AndParses(ts[i + 1..], f.right, rest);
      ChainsEnd(f.right, rest);
      assert ts + rest == ts[..i] + tail && tail[1..] == ts[i + 1..] + rest;
      OrGoesOn(f.left, tail);
    }
  }

  // ---- what is parsed is spelled ----

  /** The parser took the first tokens, and left the rest. */
  predicate Took(ts: seq<Token>, rest: seq<Token>) {
    |rest| <= |ts| && ts == ts[..|ts| - |rest|] + rest
  }

  function Taken(ts: seq<Token>, rest: seq<Token>): seq<Token>
    requires |rest| <= |ts|
  {
    ts[..|ts| - |rest|]
  }

  lemma CompareSpells(ts: seq<Token>)
    requires ts != [] && ts[0].Word? && !IsKeyword(ts[0], "startswith") && ParseCompare(ts[0].word, ts[1..]).Ok?
    ensures var (f, rest) := ParseCompare(ts[0].word, ts[1..]).value;
            Took(ts, rest) && SpellsLeaf(Taken(ts, rest), f)
  {
    hide PathOf, OpOf, LiteralOf, SpellsPath, SpellsOp, SpellsValue, IsKeyword;
    var (f, rest) := ParseCompare(ts[0].word, ts[1..]).value;
    assert rest == ts[3..] && ts[1..][0] == ts[1] && ts[1..][1] == ts[2];
    PathsAreRead(ts[0].word, f.path);
    OpsAreRead(ts[1].word, f.op);
    ValuesAreRead(ts[2], f.literal);
    assert Taken(ts, rest) == [ts[0], ts[1], ts[2]];
  }

  lemma StartsWithSpells(ts: seq<Token>)
    requires ts != [] && IsKeyword(ts[0], "startswith") && ParseStartsWith(ts[1..]).Ok?
    ensures var (f, rest) := ParseStartsWith(ts[1..]).value;
            Took(ts, rest) && SpellsLeaf(Taken(ts, rest), f)
  {
    hide PathOf, SpellsPath, IsKeyword;
    var (f, rest) := ParseStartsWith(ts[1..]).value;
    var t := ts[1..];
    assert t[0] == ts[1] && t[1..][0] == ts[2] && t[1..][1..][0] == ts[3] && t[1..][1..][1..][0] == ts[4];
    assert rest == t[1..][1..][1..][1..][1..] == ts[6..];
    assert t[1..][1..][1..][1..][0] == ts[5];
    PathsAreRead(ts[2].word, f.path);
    assert Taken(ts, rest) == [ts[0], ts[1], ts[2], ts[3], ts[4], ts[5]];
  }

  lemma {:induction false} PrimarySpells(ts: seq<Token>)
    requires ParsePrimary(ts).Ok?
    ensures var (f, rest) := ParsePrimary(ts).value;
            Took(ts, rest) && SpellsTerm(Taken(ts, rest), f)
    decreases |ts|, 1
  {
    KeywordsAreLower();
    hide HasNoCapitals;
    KeywordsAreRead(ts, "startswith");
    hide IsKeyword, SpellsLeaf;
    match ts[0] {
      case Open =>
        OrSpells(ts[1..]);
        var (f, left) := ParseOr(ts[1..]).value;
        var rest := left[1..];
        var inner := Taken(ts[1..], left);
        hide Spells;
        assert ts[1..] == inner + left && left[0] == Close;
        var used := Taken(ts, rest);
        assert ts == [Open] + (inner + ([Close] + rest));
        assert used == [Open] + inner + [Close] && used[1..|used| - 1] == inner;
      case Word(_) =>
        hide ParseCompare, ParseStartsWith, Took, Taken;
        if IsKeyword(ts[0], "startswith") {
          StartsWithSpells(ts);
        } else {
          CompareSpells(ts);
        }
      case _ =>
    }
  }

  lemma {:induction false} AndSpells(ts: seq<Token>)
    requires ParseAnd(ts).Ok?
    ensures var (f, rest) := ParseAnd(ts).value;
            Took(ts, rest) && Spells(Taken(ts, rest), f, AndLevel)
    decreases |ts|, 2
  {
    PrimarySpells(ts);
    var (first, left) := ParsePrimary(ts).value;
    AndTailSpells(Taken(ts, left), first, left);
    hide Spells, SpellsTerm, ParsePrimary;
  }

  lemma AndTailTook(left: Filter, ts: seq<Token>)
    requires IsWord(ts, "and") && AndTail(left, ts).Ok?
    ensures ts != [] && ParsePrimary(ts[1..]).Ok? && |ParsePrimary(ts[1..]).value.1| < |ts|
  {
    hide ParsePrimary;
  }

  lemma OrTailTook(left: Filter, ts: seq<Token>)
    requires IsWord(ts, "or") && OrTail(left, ts).Ok?
    ensures ts != [] && ParseAnd(ts[1..]).Ok? && |ParseAnd(ts[1..]).value.1| < |ts|
  {
    hide ParseAnd;
  }

  lemma TookMore(before: seq<Token>, ts: seq<Token>, rest: seq<Token>)
    requires ts != [] && Took(ts[1..], rest)
    ensures before + ts == before + ([ts[0]] + Taken(ts[1..], rest)) + rest
  {
    assert ts == [ts[0]] + ts[1..];
  }

  lemma {:induction false} AndTailSpells(before: seq<Token>, left: Filter, ts: seq<Token>)
    requires Spells(before, left, AndLevel) && AndTail(left, ts).Ok?
    ensures var (f, rest) := AndTail(left, ts).value;
            Took(before + ts, rest) && Spells(Taken(before + ts, rest), f, AndLevel)
    decreases |ts|, 0
  {
    ChainsEnd(left, ts);
    if IsWord(ts, "and") {
      var rest := ts[1..];
      AndTailTook(left, ts);
      hide *;
      PrimarySpells(rest);
      var (right, left') := ParsePrimary(rest).value;
      var used := Taken(rest, left');
      var more := before + ([ts[0]] + used);
      FirstIsTheWord(ts, [ts[0]], "and");
      AndJoins(before, ts[0], used, left, right);
      AndGoesOn(left, ts);
      AndTailSpells(more, And(left, right), left');
      TookMore(before, ts, left');
    } else {
      hide Spells;
      assert Taken(before + ts, ts) == before;
    }
  }

  lemma AndJoins(a: seq<Token>, joint: Token, b: seq<Token>, left: Filter, right: Filter)
    requires Spells(a, left, AndLevel) && SpellsTerm(b, right) && IsWord([joint], "and")
    ensures Spells(a + ([joint] + b), And(left, right), AndLevel)
  {
    var ts, i := a + ([joint] + b), |a|;
    KeywordsAreLower();
    KeywordsAreRead([joint], "and");
    assert JoinsAt(ts, i, "and") && ts[..i] == a && ts[i + 1..] == b;
    assert Spells(b, right, TermLevel);
    hide SpellsTerm, IsKeyword, IsWord;
  }

  lemma OrJoins(a: seq<Token>, joint: Token, b: seq<Token>, left: Filter, right: Filter)
    requires Spells(a, left, OrLevel) && Spells(b, right, AndLevel) && IsWord([joint], "or")
    ensures Spells(a + ([joint] + b), Or(left, right), OrLevel)
  {
    var ts, i := a + ([joint] + b), |a|;
    KeywordsAreLower();
    KeywordsAreRead([joint], "or");
    assert JoinsAt(ts, i, "or") && ts[..i] == a && ts[i + 1..] == b;
    hide SpellsTerm, IsKeyword, IsWord;
  }

  lemma {:induction false} OrSpells(ts: seq<Token>)
    requires ParseOr(ts).Ok?
    ensures var (f, rest) := ParseOr(ts).value;
            Took(ts, rest) && Spells(Taken(ts, rest), f, OrLevel)
    decreases |ts|, 3
  {
    AndSpells(ts);
    var (first, left) := ParseAnd(ts).value;
    AndIsOr(Taken(ts, left), first);
    OrTailSpells(Taken(ts, left), first, left);
    hide Spells, SpellsTerm, ParseAnd;
  }

  lemma AndIsOr(ts: seq<Token>, f: Filter)
    requires Spells(ts, f, AndLevel)
    ensures Spells(ts, f, OrLevel)
  {}

  lemma {:induction false} OrTailSpells(before: seq<Token>, left: Filter, ts: seq<Token>)
    requires Spells(before, left, OrLevel) && OrTail(left, ts).Ok?
    ensures var (f, rest) := OrTail(left, ts).value;
            Took(before + ts, rest) && Spells(Taken(before + ts, rest), f, OrLevel)
    decreases |ts|, 0
  {
    ChainsEnd(left, ts);
    if IsWord(ts, "or") {
      var rest := ts[1..];
      OrTailTook(left, ts);
      hide *;
      AndSpells(rest);
      var (right, left') := ParseAnd(rest).value;
      var used := Taken(rest, left');
      var more := before + ([ts[0]] + used);
      FirstIsTheWord(ts, [ts[0]], "or");
      OrJoins(before, ts[0], used, left, right);
      OrGoesOn(left, ts);
      OrTailSpells(more, Or(left, right), left');
      TookMore(before, ts, left');
    } else {
      hide Spells;
      assert Taken(before + ts, ts) == before;
    }
  }

  /** The parser accepts exactly the tokens the grammar derives, as the filter they spell. */
  lemma GrammarIsParsed(ts: seq<Token>, f: Filter)
    ensures ParseTokens(ts) == Ok(f) <==> Spells(ts, f, OrLevel)
  {
    if Spells(ts, f, OrLevel) {
      OrParses(ts, f, []);
      assert ts + [] == ts;
    }
    if ParseTokens(ts) == Ok(f) {
      OrSpells(ts);
      assert Taken(ts, []) == ts;
    }
    hide Spells, ParseOr;
  }

  // ---- tokens as text ----

  /** The text of every token, and what is no token: together they say what any text reads as. */
  lemma LexemesAre(w: string, q: string, rest: string)
    requires forall i :: 0 <= i < |w| ==>
               w[i] != ' ' && w[i] != '\t' && w[i] != '(' && w[i] != ')' && w[i] != ',' && w[i] != '\''
    ensures Tokens("") == Ok([])
    ensures Tokens([' '] + rest) == Tokens(rest) && Tokens(['\t'] + rest) == Tokens(rest)
    ensures Tokens(['('] + rest) == Prepend([Open], Tokens(rest))
    ensures Tokens([')'] + rest) == Prepend([Close], Tokens(rest))
    ensures Tokens([','] + rest) == Prepend([Comma], Tokens(rest))
    ensures w != "" && (rest == "" || rest[0] in [' ', '\t', '(', ')', ',']) ==>
              Tokens(w + rest) == Prepend([Word(w)], Tokens(rest))
    ensures rest == "" || rest[0] != '\'' ==>
              Tokens(w + (['\''] + DoubleQuotes(q) + ['\''] + rest)) == Prepend([Str(q)], Tokens(rest))
    ensures Tokens(w + (['\''] + DoubleQuotes(q))) == Err(Unterminated)
  {
    assert NoBreaks(w);
    hide Tokens, Prepend, DoubleQuotes, NoBreaks;
    OneCharacter(rest);
    if rest == "" || rest[0] != '\'' {
      QuotedLexeme(w, q, rest);
    }
    OpenQuote(w, q);
    if w != "" && (rest == "" || rest[0] in [' ', '\t', '(', ')', ',']) {
      LexWord(w, rest);
    }
  }

  lemma OneCharacter(rest: string)
    ensures Tokens("") == Ok([])
    ensures Tokens([' '] + rest) == Tokens(rest) && Tokens(['\t'] + rest) == Tokens(rest)
    ensures Tokens(['('] + rest) == Prepend([Open], Tokens(rest))
    ensures Tokens([')'] + rest) == Prepend([Close], Tokens(rest))
    ensures Tokens([','] + rest) == Prepend([Comma], Tokens(rest))
  {
    forall c: char ensures ([c] + rest)[1..] == rest {}
    hide Prepend;
  }

  lemma QuotedLexeme(w: string, q: string, rest: string)
    requires NoBreaks(w) && (rest == "" || rest[0] != '\'')
    ensures Tokens(w + (['\''] + DoubleQuotes(q) + ['\''] + rest)) == Prepend([Str(q)], Tokens(rest))
  {
    LexQuoted(w, q, rest);
  }

  lemma {:induction false} NeverClosed(q: string)
    ensures Quoted(DoubleQuotes(q)) == Err(Unterminated)
  {
    if q != "" {
      NeverClosed(q[1..]);
      var s := DoubleQuotes(q);
      assert q[0] == '\'' ==> s[2..] == DoubleQuotes(q[1..]);
      assert q[0] != '\'' ==> s[1..] == DoubleQuotes(q[1..]);
    }
  }

  lemma OpenQuote(w: string, q: string)
    requires NoBreaks(w)
    ensures Tokens(w + (['\''] + DoubleQuotes(q))) == Err(Unterminated)
  {
    var s := w + (['\''] + DoubleQuotes(q));
    WordLengthIs(w, ['\''] + DoubleQuotes(q));
    NeverClosed(q);
    assert s[|w| + 1..] == DoubleQuotes(q);
    hide DoubleQuotes, Quoted;
    assert Tokens(s) == TokensAtWord(s);
  }
}
