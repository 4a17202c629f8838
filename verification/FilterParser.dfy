/**
 The program's own form of the `$filter` reader: two scanning loops over the input and a parser
 object that moves through its tokens. Each is proved to compute the specification in
 `Filter.dfy`, errors included.
 */
module FilterParser {
  import opened Wrappers
  import opened Text
  import opened Filter

  /** A quoted string of which `s` has been read already. */
  ghost function Extend(s: string, q: Result<(string, string), Error>): Result<(string, string), Error> {
    match q
    case Ok((text, rest)) => Ok((s + text, rest))
    case Err(e) => Err(e)
  }

  lemma ExtendOne(s: string, c: char, q: Result<(string, string), Error>)
    ensures Extend("", q) == q
    ensures Extend(s, Extend([c], q)) == Extend(s + [c], q)
  {
    if q.Ok? {
      assert "" + q.value.0 == q.value.0;
      assert s + ([c] + q.value.0) == s + [c] + q.value.0;
    }
  }

  /** The rest of a quoted string from position `i`, and where it leaves the cursor. */
  method ScanQuoted(input: string, i: nat) returns (r: Result<string, Error>, next: nat)
    requires i <= |input|
    ensures i <= next <= |input|
    ensures var q := Quoted(input[i..]);
            if q.Ok? then r == Ok(q.value.0) && input[next..] == q.value.1 else r == Err(q.error)
  {
    var s := "";
    next := i;
    ExtendOne("", ' ', Quoted(input[i..]));
    while true
      invariant i <= next <= |input|
      invariant Quoted(input[i..]) == Extend(s, Quoted(input[next..]))
      decreases |input| - next
    {
      if next == |input| {
        return Err(Unterminated), next;
      }
      ghost var left := input[next..];
      assert left[1..] == input[next + 1..];
      var c := input[next];
      next := next + 1;
      if c == '\'' {
        if next < |input| && input[next] == '\'' {
          assert left[2..] == input[next + 1..];
          next := next + 1;
          ExtendOne(s, '\'', Quoted(input[next..]));
          s := s + ['\''];
        } else {
          assert s + "" == s;
          return Ok(s), next;
        }
      } else {
        ExtendOne(s, c, Quoted(input[next..]));
        s := s + [c];
      }
    }
  }

  /** One token at position `i`: what the loop's next turn reads. */
  lemma MarkAt(input: string, i: nat, out: seq<Token>)
    requires i < |input| && IsBreak(input[i]) && input[i] != '\''
    ensures var c, rest := input[i], Tokens(input[i + 1..]);
            Prepend(out, Tokens(input[i..])) ==
              if c == '(' then Prepend(out + [Open], rest)
              else if c == ')' then Prepend(out + [Close], rest)
              else if c == ',' then Prepend(out + [Comma], rest)
              else Prepend(out, rest)
  {
    assert input[i..][1..] == input[i + 1..];
    PrependTwice(out, [Open], Tokens(input[i + 1..]));
    PrependTwice(out, [Close], Tokens(input[i + 1..]));
    PrependTwice(out, [Comma], Tokens(input[i + 1..]));
  }

  lemma WordAt(input: string, i: nat, out: seq<Token>, after: nat)
    requires i < |input| && (IsBreak(input[i]) ==> input[i] == '\'')
    requires after == i + WordLength(input[i..]) <= |input|
    ensures after < |input| && input[after] == '\'' ==>
              var q := Quoted(input[after + 1..]);
              Prepend(out, Tokens(input[i..])) ==
                if q.Ok? then Prepend(out + [Str(q.value.0)], Tokens(q.value.1)) else Err(q.error)
    ensures !(after < |input| && input[after] == '\'') ==>
              i < after &&
              Prepend(out, Tokens(input[i..])) == Prepend(out + [Word(input[i..after])], Tokens(input[after..]))
  {
    var left := input[i..];
    var n := WordLength(left);
    if after < |input| && input[after] == '\'' {
      assert left[n + 1..] == input[after + 1..];
      match Quoted(input[after + 1..]) {
        case Ok(q) => PrependTwice(out, [Str(q.0)], Tokens(q.1));
        case Err(_) =>
      }
    } else {
      assert left[n..] == input[after..] && left[..n] == input[i..after];
      PrependTwice(out, [Word(input[i..after])], Tokens(input[after..]));
    }
  }

  method Tokenize(input: string) returns (r: Result<seq<Token>, Error>)
    ensures r == Tokens(input)
  {
    assert input[0..] == input && input[|input|..] == "" && Tokens("") == Ok([]);
    hide Tokens, Prepend, Quoted, WordLength;
    var out: seq<Token> := [];
    var i := 0;
    PrependNothing([], Tokens(input));
    while i < |input|
      invariant 0 <= i <= |input|
      invariant Tokens(input) == Prepend(out, Tokens(input[i..]))
    {
      var c := input[i];
      if c == ' ' || c == '\t' {
        MarkAt(input, i, out);
        i := i + 1;
      } else if c == '(' {
        MarkAt(input, i, out);
        out := out + [Open];
        i := i + 1;
      } else if c == ')' {
        MarkAt(input, i, out);
        out := out + [Close];
        i := i + 1;
      } else if c == ',' {
        MarkAt(input, i, out);
        out := out + [Comma];
        i := i + 1;
      } else {
        var word, after := ScanWord(input, i);
        WordAt(input, i, out, after);
        if after < |input| && input[after] == '\'' {
          var q, next := ScanQuoted(input, after + 1);
          match q {
            case Err(e) => return Err(e);
            case Ok(s) => out := out + [Str(s)];
          }
          i := next;
        } else {
          out := out + [Word(word)];
          i := after;
        }
      }
    }
    PrependNothing(out, Ok([]));
    r := Ok(out);
  }

  /** The word at position `i`, empty when a quote stands there. */
  method ScanWord(input: string, i: nat) returns (word: string, next: nat)
    requires i < |input|
    ensures next == i + WordLength(input[i..]) <= |input|
    ensures word == input[i..next]
  {
    word := "";
    next := i;
    while next < |input| && !IsBreak(input[next])
      invariant i <= next <= |input|
      invariant word == input[i..next]
      invariant WordLength(input[i..]) == (next - i) + WordLength(input[next..])
    {
      assert input[next..][1..] == input[next + 1..];
      word := word + [input[next]];
      next := next + 1;
    }
  }

  class Parser {
    const tokens: seq<Token>
    var at: nat

    constructor (tokens: seq<Token>)
      ensures this.tokens == tokens && at == 0
    {
      this.tokens := tokens;
      at := 0;
    }

    /** The tokens not yet consumed. */
    ghost function Left(): seq<Token>
      reads this
    {
      if at <= |tokens| then tokens[at..] else []
    }

    /** What a grammar method did: the filter and the cursor a parse of `before` calls for. */
    ghost predicate Did(r: Result<Filter, Error>, before: seq<Token>, parsed: Parsed)
      reads this
    {
      match parsed
      case Ok((f, rest)) => r == Ok(f) && at <= |tokens| && Left() == rest && |rest| <= |before|
      case Err(e) => r == Err(e)
    }

    method Bump() returns (t: Option<Token>)
      modifies this
      ensures at == old(at) + 1
      ensures t == if old(at) < |tokens| then Some(tokens[old(at)]) else None
    {
      t := if at < |tokens| then Some(tokens[at]) else None;
      at := at + 1;
    }

    predicate WordIs(word: string)
      reads this
    {
      at < |tokens| && tokens[at].Word? && LowerCase(tokens[at].word) == word
    }

    method Expect(token: Token) returns (r: Result<(), Error>)
      requires at <= |tokens|
      modifies this
      ensures var taken := Take(old(Left()), token);
              if taken.Ok? then r == Ok(()) && at <= |tokens| && Left() == taken.value else r == Err(taken.error)
    {
      var t := Bump();
      r := if t == Some(token) then Ok(()) else Err(Unexpected);
    }

    method Or() returns (r: Result<Filter, Error>)
      requires at <= |tokens|
      modifies this
      ensures Did(r, old(Left()), ParseOr(old(Left())))
      decreases |tokens| - at, 3
    {
      ghost var start := Left();
      var left :- And();
      while WordIs("or")
        invariant at <= |tokens| && |Left()| < |start|
        invariant ParseOr(start) == OrTail(left, Left())
        decreases |tokens| - at
      {
        ghost var before := Left();
        at := at + 1;
        assert Left() == before[1..];
        var right :- And();
        left := Filter.Or(left, right);
      }
      r := Ok(left);
    }

    method And() returns (r: Result<Filter, Error>)
      requires at <= |tokens|
      modifies this
      ensures Did(r, old(Left()), ParseAnd(old(Left())))
      decreases |tokens| - at, 2
    {
      ghost var start := Left();
      var left :- Primary();
      while WordIs("and")
        invariant at <= |tokens| && |Left()| < |start|
        invariant ParseAnd(start) == AndTail(left, Left())
        decreases |tokens| - at
      {
        ghost var before := Left();
        at := at + 1;
        assert Left() == before[1..];
        var right :- Primary();
        left := Filter.And(left, right);
      }
      r := Ok(left);
    }

    method Primary() returns (r: Result<Filter, Error>)
      requires at <= |tokens|
      modifies this
      ensures Did(r, old(Left()), ParsePrimary(old(Left())))
      decreases |tokens| - at, 1
    {
      ghost var start := Left();
      var t := Bump();
      if t.None? {
        return Err(Unexpected);
      }
      assert Left() == start[1..];
      match t.value {
        case Open =>
          var inner :- Or();
          var _ :- Expect(Close);
          r := Ok(inner);
        case Word(w) =>
          if LowerCase(w) == "startswith" {
            r := StartsWithCall();
          } else {
            r := Comparison(w);
          }
        case _ => r := Err(Unexpected);
      }
    }

    /** `startswith` after its name: an open bracket, a property, a comma, a string, a close. */
    method StartsWithCall() returns (r: Result<Filter, Error>)
      requires at <= |tokens|
      modifies this
      ensures Did(r, old(Left()), ParseStartsWith(old(Left())))
    {
      hide PathOf, Tokens;
      var _ :- Expect(Open);
      ghost var ts1 := Left();
      var p := Bump();
      if p.None? || !p.value.Word? {
        return Err(Unexpected);
      }
      assert Left() == ts1[1..];
      var path :- PathOf(p.value.word);
      var _ :- Expect(Comma);
      ghost var ts2 := Left();
      var s := Bump();
      if s.None? || !s.value.Str? {
        return Err(Unexpected);
      }
      assert Left() == ts2[1..];
      var _ :- Expect(Close);
      r := Ok(Filter.StartsWith(path, s.value.str));
    }

    /** A comparison after its property: an operator and a literal. */
    method Comparison(w: string) returns (r: Result<Filter, Error>)
      requires at <= |tokens|
      modifies this
      ensures Did(r, old(Left()), ParseCompare(w, old(Left())))
    {
      ghost var start := Left();
      var path :- PathOf(w);
      var o := Bump();
      if o.None? || !o.value.Word? {
        return Err(Unexpected);
      }
      var op :- OpOf(o.value.word);
      var v := Bump();
      if v.None? {
        return Err(Unexpected);
      }
      assert Left() == start[2..];
      match v.value {
        case Str(s) => r := Ok(Compare(path, op, Text(s)));
        case Word(word) =>
          var literal :- LiteralOf(word);
          r := Ok(Compare(path, op, literal));
        case _ => r := Err(Unexpected);
      }
    }
  }

  /** `Filter::parse`. */
  method ParseFilter(input: string) returns (r: Result<Filter, Error>)
    ensures r == Parse(input)
  {
    var tokens :- Tokenize(input);
    var parser := new Parser(tokens);
    assert parser.Left() == tokens;
    var filter :- parser.Or();
    if parser.at < |parser.tokens| {
      return Err(Extra);
    }
    r := Ok(filter);
  }
}
