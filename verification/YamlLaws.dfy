/** The YAML round trip: what the detail view writes, the reader reads back. */
module YamlLaws {
  import opened Wrappers
  import opened Text
  import opened Json
  import opened Yaml
  import opened YamlReader

  // ---- scalars read back ----

  /** How one character is written between quotes. */
  function EscapedChar(c: char): string {
    if c == '\\' then "\\\\" else if c == '"' then "\\\"" else if c == '\n' then "\\n"
    else if c == '\r' then "\\r" else if c == '\t' then "\\t" else [c]
  }

  lemma {:induction false} ReplaceConcat(a: string, b: string, c: char, with: string)
    ensures Replace(a + b, c, with) == Replace(a, c, with) + Replace(b, c, with)
  {
    if a == "" {
      assert a + b == b;
    } else {
      assert (a + b)[1..] == a[1..] + b;
      ReplaceConcat(a[1..], b, c, with);
    }
  }

  lemma EscapedConcat(a: string, b: string)
    ensures Escaped(a + b) == Escaped(a) + Escaped(b)
  {
    ReplaceConcat(a, b, '\\', "\\\\");
    var a1, b1 := Replace(a, '\\', "\\\\"), Replace(b, '\\', "\\\\");
    ReplaceConcat(a1, b1, '"', "\\\"");
    var a2, b2 := Replace(a1, '"', "\\\""), Replace(b1, '"', "\\\"");
    ReplaceConcat(a2, b2, '\n', "\\n");
    var a3, b3 := Replace(a2, '\n', "\\n"), Replace(b2, '\n', "\\n");
    ReplaceConcat(a3, b3, '\r', "\\r");
    ReplaceConcat(Replace(a3, '\r', "\\r"), Replace(b3, '\r', "\\r"), '\t', "\\t");
  }

  lemma ReplaceInTwo(x: char, y: char, c: char, with: string)
    ensures Replace([x], c, with) == if x == c then with else [x]
    ensures Replace([x, y], c, with) == (if x == c then with else [x]) + (if y == c then with else [y])
  {
    assert [x][1..] == "" && [x, y][1..] == [y] && [y][1..] == "";
    assert Replace([y], c, with) == if y == c then with else [y];
  }

  /** The five replacements, one after the other, are one escape per character. */
  lemma EscapedOne(c: char)
    ensures Escaped([c]) == EscapedChar(c)
  {
    ReplaceInTwo(c, c, '\\', "\\\\");
    if c == '\\' {
      ReplaceInTwo('\\', '\\', '"', "\\\"");
      ReplaceInTwo('\\', '\\', '\n', "\\n");
      ReplaceInTwo('\\', '\\', '\r', "\\r");
      ReplaceInTwo('\\', '\\', '\t', "\\t");
    } else if c == '"' {
      ReplaceInTwo(c, c, '"', "\\\"");
      ReplaceInTwo('\\', '"', '\n', "\\n");
      ReplaceInTwo('\\', '"', '\r', "\\r");
      ReplaceInTwo('\\', '"', '\t', "\\t");
    } else if c == '\n' {
      ReplaceInTwo(c, c, '"', "\\\"");
      ReplaceInTwo(c, c, '\n', "\\n");
      ReplaceInTwo('\\', 'n', '\r', "\\r");
      ReplaceInTwo('\\', 'n', '\t', "\\t");
    } else if c == '\r' {
      ReplaceInTwo(c, c, '"', "\\\"");
      ReplaceInTwo(c, c, '\n', "\\n");
      ReplaceInTwo(c, c, '\r', "\\r");
      ReplaceInTwo('\\', 'r', '\t', "\\t");
    } else {
      ReplaceInTwo(c, c, '"', "\\\"");
      ReplaceInTwo(c, c, '\n', "\\n");
      ReplaceInTwo(c, c, '\r', "\\r");
      ReplaceInTwo(c, c, '\t', "\\t");
    }
  }

  predicate HasRawControl(s: string) {
    exists i :: 0 <= i < |s| && IsRawControl(s[i])
  }

  lemma EscapeReads(c: char, rest: string)
    ensures Unescaped(EscapedChar(c) + rest) ==
              if !IsRawControl(c) && Unescaped(rest).Some? then Some([c] + Unescaped(rest).value) else None
    ensures '\n' !in EscapedChar(c)
  {
    var t := EscapedChar(c) + rest;
    if |EscapedChar(c)| == 1 {
      assert t[1..] == rest && t[0] == c;
    } else {
      assert t[2..] == rest && t[0] == '\\' && t[1] == EscapedChar(c)[1];
      hide EscapedChar;
    }
  }

  lemma RawControlAhead(s: string)
    requires s != ""
    ensures HasRawControl(s) <==> IsRawControl(s[0]) || HasRawControl(s[1..])
  {
    assert forall i :: 1 <= i < |s| ==> s[i] == s[1..][i - 1];
    if HasRawControl(s[1..]) {
      var i :| 0 <= i < |s[1..]| && IsRawControl(s[1..][i]);
      assert IsRawControl(s[i + 1]);
    }
  }

  /** Unescaping undoes the replacements; a control character that none of them escapes is refused. */
  lemma {:induction false} UnescapedUndoesEscaped(s: string)
    ensures Unescaped(Escaped(s)) == if HasRawControl(s) then None else Some(s)
    ensures '\n' !in Escaped(s)
  {
    hide *;
    if s == "" {
      NothingEscaped();
    } else {
      assert s == [s[0]] + s[1..];
      EscapedConcat([s[0]], s[1..]);
      EscapedOne(s[0]);
      UnescapedUndoesEscaped(s[1..]);
      EscapeReads(s[0], Escaped(s[1..]));
      RawControlAhead(s);
    }
  }

  lemma NothingEscaped()
    ensures Escaped("") == "" && Unescaped("") == Some("") && !HasRawControl("")
  {}

  // ---- numbers ----

  /** A number's text, which starts with a digit or a minus. */
  lemma IntTextParts(n: int)
    ensures n < 0 ==>
              IntText(n) == "-" + NatText(-n) && Unsigned(IntText(n)) == NatText(-n) && StartsWith(IntText(n), "-")
    ensures n >= 0 ==> IntText(n) == NatText(n) && Unsigned(IntText(n)) == NatText(n) && !StartsWith(IntText(n), "-")
  {
    var t := IntText(n);
    hide NatText;
    if n < 0 {
      assert t[1..] == NatText(-n);
    } else {
      assert IsDigit(t[0]) && !IsSign(t[0]) && !StartsWith(t, "-");
    }
  }

  lemma IntTextReadsBack(n: int)
    ensures IntText(n) != "" && IsIntText(IntText(n)) && IntOf(IntText(n)) == n
    ensures forall i :: 0 <= i < |IntText(n)| ==> IsDigit(IntText(n)[i]) || IntText(n)[i] == '-'
    ensures IsDigit(IntText(n)[|IntText(n)| - 1])
  {
    IntTextParts(n);
    NatOfNatText(if n < 0 then -n else n);
    hide IntText, NatText, NatOf, Unsigned, StartsWith;
  }

  predicate IsSmall(w: string) { forall i :: 0 <= i < |w| ==> 'a' <= w[i] <= 'z' }

  /** A form of a word is the word again in small letters. */
  lemma FormsAreTheWord(t: string, w: string)
    requires IsForm(t, w) && IsSmall(w)
    ensures LowerCase(t) == w && |t| == |w| && forall i :: 0 <= i < |t| ==> IsLetter(t[i])
  {
    assert |t| == |w|;
    forall i | 0 <= i < |t| ensures Lower(t[i]) == w[i] && IsLetter(t[i]) {}
    assert LowerCase(t) == w;
  }

  lemma WordForm(t: string, w: string)
    requires IsSmall(w) && w != ""
    ensures IsForm(t, w) ==> LowerCase(t) == w && t != "" && !IsDigit(t[|t| - 1])
  {
    if IsForm(t, w) {
      FormsAreTheWord(t, w);
    }
    hide LowerCase, IsForm;
  }

  lemma SmallWords()
    ensures IsSmall("null") && IsSmall("true") && IsSmall("yes") && IsSmall("on") && IsSmall("false") && IsSmall("no")
    ensures IsSmall("off") && IsSmall("inf")
    ensures LowerCase("~") == "~"
  {}

  /** What is null or a boolean is one of these words in small letters. */
  lemma WordsInSmallLetters(t: string)
    ensures IsNullWord(t) || IsTrueWord(t) || IsFalseWord(t) ==>
              LowerCase(t) in ["null", "~", "true", "yes", "on", "false", "no", "off"] &&
              t != "" && !IsDigit(t[|t| - 1])
  {
    SmallWords();
    hide LowerCase, IsForm, IsSmall;
    WordForm(t, "null");
    WordForm(t, "true");
    WordForm(t, "yes");
    WordForm(t, "on");
    WordForm(t, "false");
    WordForm(t, "no");
    WordForm(t, "off");
  }

  lemma NumbersRead(n: int)
    ensures ReadScalar(IntText(n)) == Some(Number(n))
    ensures IntText(n)[0] != ' ' && '\n' !in IntText(n)
  {
    var t := IntText(n);
    IntTextReadsBack(n);
    WordsInSmallLetters(t);
    assert IsDigit(t[0]) || t[0] == '-';
    hide IsIntText, IntOf, IntText, LowerCase, IsOtherNumber, IsYamlPlain, IsNullWord, IsTrueWord, IsFalseWord;
    assert t[0] != '"' && t[0] != '{' && t[0] != '[' && t[0] != ' ';
  }

  // ---- strings ----

  /** Bare texts YAML may read as something else: a lone `?` in front starts an explicit key, and a byte
      order mark at the very start of the stream is no part of the text. */
  predicate IsReadOtherwise(s: string) {
    !NeedsQuotes(s) && ((s[0] == '?' && (|s| == 1 || s[1] == ' ')) || s[0] == '\U{FEFF}')
  }

  /** Texts YAML refuses as the writer leaves them: without quotes, a comma in front or a character that
      is not printable; between quotes, a control character not escaped. */
  predicate IsRefused(s: string) {
    if NeedsQuotes(s) then HasRawControl(s)
    else s[0] == ',' || exists i :: 0 <= i < |s| && IsUnprintable(s[i]) && (i > 0 || s[i] != '\U{FEFF}')
  }

  /** The texts that do not read back as the strings they are. */
  predicate IsMisread(s: string) { IsRefused(s) || IsReadOtherwise(s) }

  lemma {:induction false} NoPairInside(s: string, a: char, b: char)
    requires !Contains(s, [a, b])
    ensures forall i :: 0 <= i < |s| - 1 ==> !(s[i] == a && s[i + 1] == b)
  {
    if s != "" {
      NoPairInside(s[1..], a, b);
      forall i | 0 <= i < |s| - 1 ensures !(s[i] == a && s[i + 1] == b) {
        if i > 0 {
          assert s[1..][i - 1] == s[i] && s[1..][i] == s[i + 1];
        } else {
          assert [a, b] <= s <==> s[0] == a && s[1] == b;
        }
      }
    }
  }

  /** What is known of a string that is left bare, character by character. */
  lemma BareStrings(s: string)
    requires !NeedsQuotes(s)
    ensures s != "" && s[0] !in "-*&!%@`[]{}|>'\" #" && s[|s| - 1] != ' ' && s[|s| - 1] != ':'
    ensures forall i :: 0 <= i < |s| ==> !IsControl(s[i])
    ensures forall i :: 0 <= i < |s| - 1 ==> !(s[i] == ':' && s[i + 1] == ' ')
    ensures forall i :: 0 <= i < |s| - 1 ==> !(s[i] == ' ' && s[i + 1] == '#')
    ensures !IsFloat(s) && LowerCase(s) !in WORDS
    ensures !StartsWith(s, "0x") && !StartsWith(s, "0o")
  {
    assert [':', ' '] == ": " && [' ', '#'] == " #";
    NoPairInside(s, ':', ' ');
    NoPairInside(s, ' ', '#');
    assert s[|s| - 1..] == [s[|s| - 1]];
    assert s[0] == '#' ==> "#" <= s;
  }

  lemma BareFront(s: string)
    requires s != "" && s[0] !in "-*&!%@`[]{}|>'\" #" && !IsControl(s[0])
    ensures s[0] !in ",[]{}#&*!|>'\"%@`" && !IsBlank(s[0]) <==> s[0] != ','
  {
    assert IsControl('\t');
  }

  lemma BareChars(s: string)
    requires forall i :: 0 <= i < |s| ==> !IsControl(s[i])
    ensures forall i :: 0 <= i < |s| ==> (IsPlainChar(s[i]) <==> !IsUnprintable(s[i]))
    ensures forall i :: 0 <= i < |s| ==> (IsBlank(s[i]) <==> s[i] == ' ')
  {
    assert IsControl('\t');
  }

  lemma MisreadBare(s: string)
    requires !NeedsQuotes(s) && s != ""
    ensures IsMisread(s) <==>
              s[0] == ',' || (s[0] == '?' && (|s| == 1 || s[1] == ' ')) ||
              exists i :: 0 <= i < |s| && IsUnprintable(s[i])
  {
    hide NeedsQuotes;
    assert IsUnprintable('\U{FEFF}');
    if s[0] == '\U{FEFF}' {
      assert IsUnprintable(s[0]);
    }
  }

  lemma BareStringsArePlain(s: string)
    requires !NeedsQuotes(s)
    ensures IsYamlPlain(s) <==> !IsMisread(s)
  {
    BareStrings(s);
    BareFront(s);
    BareChars(s);
    MisreadBare(s);
    hide NeedsQuotes, IsMisread, IsFloat, LowerCase, IsControl, IsPlainChar, IsBlank, IsUnprintable;
    var front := s[0] !in ",[]{}#&*!|>'\"%@`" && !IsBlank(s[0]);
    assert s[0] != '-';
    assert IsPlainText(s) <==>
           front && (s[0] == '?' && |s| > 1 ==> s[1] != ' ') && forall i :: 0 <= i < |s| ==> !IsUnprintable(s[i]);
  }

  lemma {:induction false} AllDigitsAhead(s: string)
    requires All(s, IsDigit)
    ensures DigitsAhead(s) == |s|
  {
    if s != "" {
      AllDigitsAhead(s[1..]);
    }
  }

  lemma IntTextIsFloat(s: string)
    requires IsIntText(s)
    ensures IsFloat(s)
  {
    AllDigitsAhead(Unsigned(s));
  }

  /** No string that is left bare is read as something else. */
  lemma BareStringsDoNotResolve(s: string)
    requires !NeedsQuotes(s)
    ensures !Resolves(s)
  {
    BareStrings(s);
    hide NeedsQuotes;
    WordsInSmallLetters(s);
    if IsIntText(s) {
      IntTextIsFloat(s);
      assert false;
    }
    InfinitiesInSmallLetters(s);
    hide IsFloat, IsIntText, LowerCase, IsNullWord, IsTrueWord, IsFalseWord, IsForm, IsDecimal;
    assert IsDecimal(Unsigned(s)) ==> IsFloat(s) by { DecimalsAreFloats(s); }
  }

  lemma DecimalsAreFloats(s: string)
    ensures IsDecimal(Unsigned(s)) ==> IsFloat(s)
  {}

  lemma LowerAhead(c: char, s: string)
    ensures LowerCase([c] + s) == [Lower(c)] + LowerCase(s)
  {}

  lemma InfinitiesInSmallLetters(s: string)
    ensures Unsigned(s) != "" && Unsigned(s)[0] == '.' && IsForm(Unsigned(s)[1..], "inf") ==> LowerCase(s) in WORDS
    ensures s == ".nan" || s == ".NaN" || s == ".NAN" ==> LowerCase(s) in WORDS
  {
    NanInSmallLetters(s);
    var u := Unsigned(s);
    if u != "" && u[0] == '.' && IsForm(u[1..], "inf") {
      PointInf(u);
      SignAhead(s);
      assert "-" + ".inf" == "-.inf" && "+" + ".inf" == "+.inf";
    }
    hide LowerCase, IsForm, Unsigned;
  }

  lemma PointInf(u: string)
    requires u != "" && u[0] == '.' && IsForm(u[1..], "inf")
    ensures LowerCase(u) == ".inf"
  {
    SmallWords();
    FormsAreTheWord(u[1..], "inf");
    LowerAhead('.', u[1..]);
    assert u == ['.'] + u[1..];
    hide LowerCase, IsForm;
  }

  lemma SignAhead(s: string)
    ensures LowerCase(s) == LowerCase(Unsigned(s)) || LowerCase(s) == "-" + LowerCase(Unsigned(s)) ||
            LowerCase(s) == "+" + LowerCase(Unsigned(s))
  {
    var u := Unsigned(s);
    if u != s {
      LowerAhead(s[0], u);
      assert s == [s[0]] + u && (s[0] == '-' || s[0] == '+');
    }
    hide LowerCase;
  }

  lemma NanInSmallLetters(s: string)
    ensures s == ".nan" || s == ".NaN" || s == ".NAN" ==> LowerCase(s) in WORDS
  {
    assert LowerCase(".nan") == ".nan";
    assert LowerCase(".NaN") == ".nan";
    assert LowerCase(".NAN") == ".nan";
  }

  lemma UnresolvedReads(t: string)
    requires !Resolves(t)
    ensures ReadPlain(t) == if IsYamlPlain(t) then Some(String(t)) else None
  {
    hide IsYamlPlain, IsNullWord, IsTrueWord, IsFalseWord, IsIntText, IsOtherNumber;
  }

  lemma UnquotedReads(t: string)
    requires t != "" && t[0] != '{' && t[0] != '[' && t[0] != '"'
    ensures ReadScalar(t) == ReadPlain(t)
  {
    hide ReadPlain, Unescaped;
  }

  lemma BareStringsRead(s: string)
    requires !NeedsQuotes(s)
    ensures ReadScalar(s) == if IsMisread(s) then None else Some(String(s))
  {
    hide *;
    BareStrings(s);
    BareStringsArePlain(s);
    BareStringsDoNotResolve(s);
    UnresolvedReads(s);
    UnquotedReads(s);
  }

  /** Every scalar but a misread string reads back; a misread string is not read back as itself, and
      this reader, which knows no explicit keys, reads it as nothing. */
  lemma ScalarsReadBack(v: Value)
    requires !IsBlock(v)
    ensures ReadScalar(Scalar(v)) == if v.String? && IsMisread(v.s) then None else Some(v)
  {
    match v {
      case Number(n) => NumbersRead(n);
      case String(s) =>
        if NeedsQuotes(s) {
          UnescapedUndoesEscaped(s);
          assert Scalar(v)[1..|Scalar(v)| - 1] == Escaped(s);
          hide Escaped, NeedsQuotes, Unescaped;
        } else {
          BareStringsRead(s);
        }
      case _ =>
    }
  }
}
