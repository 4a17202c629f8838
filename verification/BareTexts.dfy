/**
 Which strings the detail view writes without quotes (`quote_if_needed` in `crates/core/src/yaml.rs`) and
 which cells the export does (`csv_cell` in `crates/core/src/export.rs`), character by character.
 */
module BareTexts {
  import opened Text
  import opened Letters
  import opened Yaml
  import Export

  // ---- numbers ----

  predicate IsDigits(s: string) {
    forall i :: 0 <= i < |s| ==> '0' <= s[i] <= '9'
  }

  predicate IsSigned(s: string) { s != "" && (s[0] == '+' || s[0] == '-') }

  /** Nothing, or `e`, a sign or none, and digits. */
  predicate IsExponentText(s: string) {
    s == "" ||
    ((s[0] == 'e' || s[0] == 'E') &&
     var t := if IsSigned(s[1..]) then s[2..] else s[1..]; t != "" && IsDigits(t))
  }

  /** Digits, a point and more digits or neither, and an exponent; one digit at least before it. */
  predicate IsDecimalOf(t: string, whole: string, point: bool, fraction: string, exponent: string) {
    && t == whole + ((if point then "." + fraction else "") + exponent)
    && IsDigits(whole) && IsDigits(fraction) && IsExponentText(exponent)
    && (!point ==> fraction == "") && |whole| + |fraction| > 0
  }

  ghost predicate IsDecimalText(t: string) {
    exists whole, point, fraction, exponent :: IsDecimalOf(t, whole, point, fraction, exponent)
  }

  /** A decimal, or a word for what is no number, behind a sign or without one. */
  ghost predicate IsNumberText(s: string) {
    var t := if IsSigned(s) then s[1..] else s;
    IsAnyCase(t, "inf") || IsAnyCase(t, "infinity") || IsAnyCase(t, "nan") || IsDecimalText(t)
  }

  lemma {:induction false} DigitsAheadOf(digits: string, rest: string)
    requires IsDigits(digits) && (rest == "" || !IsDigit(rest[0]))
    ensures DigitsAhead(digits + rest) == |digits|
  {
    if digits == "" {
      assert digits + rest == rest;
    } else {
      assert (digits + rest)[1..] == digits[1..] + rest;
      DigitsAheadOf(digits[1..], rest);
    }
  }

  lemma ExponentsAre(s: string)
    ensures IsExponentText(s) <==> s == "" || IsExponent(s)
    ensures IsExponentText(s) && s != "" ==> s[0] == 'e' || s[0] == 'E'
  {
    if s != "" {
      assert Unsigned(s[1..]) == if IsSigned(s[1..]) then s[2..] else s[1..];
    }
  }

  lemma PointSplits(t: string, n: nat, k: nat)
    requires n < |t| && t[n] == '.' && n + 1 + k <= |t|
    ensures t == t[..n] + (("." + t[n + 1..][..k]) + t[n + 1 + k..])
  {
    var u := ("." + t[n + 1..][..k]) + t[n + 1 + k..];
    assert u == t[n..] by {
      assert |u| == |t| - n;
      forall i | 0 <= i < |u| ensures u[i] == t[n + i] {}
    }
  }

  lemma DigitsAheadAre(s: string)
    ensures IsDigits(s[..DigitsAhead(s)])
  {
    hide DigitsAhead;
  }

  lemma DecimalsSplit(t: string)
    requires IsDecimal(t)
    ensures IsDecimalText(t)
  {
    hide DigitsAhead, IsExponent, IsExponentText, IsDigit;
    var n := DigitsAhead(t);
    if n < |t| && t[n] == '.' {
      var k := DigitsAhead(t[n + 1..]);
      var rest := t[n + 1 + k..];
      assert n + k > 0 && (rest == "" || IsExponent(rest));
      hide IsDecimal;
      ExponentsAre(rest);
      PointSplits(t, n, k);
      DigitsAheadAre(t);
      DigitsAheadAre(t[n + 1..]);
      assert IsDecimalOf(t, t[..n], true, t[n + 1..][..k], rest);
    } else {
      var rest := t[n..];
      assert n > 0 && (rest == "" || IsExponent(rest));
      hide IsDecimal;
      ExponentsAre(rest);
      DigitsAheadAre(t);
      assert IsDecimalOf(t, t[..n], false, "", rest);
    }
  }

  lemma TextsAreDecimals(t: string, whole: string, point: bool, fraction: string, exponent: string)
    requires IsDecimalOf(t, whole, point, fraction, exponent)
    ensures IsDecimal(t)
  {
    ExponentsAre(exponent);
    hide DigitsAhead, IsExponent, IsExponentText;
    if point {
      assert t == whole + ("." + fraction + exponent);
      DigitsAheadOf(whole, "." + fraction + exponent);
      DigitsAheadOf(fraction, exponent);
      assert t[|whole|] == '.';
      assert t[|whole| + 1..] == fraction + exponent;
      assert t[|whole| + 1 + |fraction|..] == exponent;
    } else {
      assert t == whole + exponent;
      DigitsAheadOf(whole, exponent);
      assert t[|whole|..] == exponent;
      assert exponent == "" || t[|whole|] == exponent[0];
    }
  }

  lemma DecimalsAre(t: string)
    ensures IsDecimal(t) <==> IsDecimalText(t)
  {
    hide IsDecimal, IsDecimalOf;
    if IsDecimal(t) {
      DecimalsSplit(t);
    }
    if whole, point, fraction, exponent :| IsDecimalOf(t, whole, point, fraction, exponent) {
      TextsAreDecimals(t, whole, point, fraction, exponent);
    }
  }

  lemma NumbersAre(s: string)
    ensures IsFloat(s) <==> IsNumberText(s)
  {
    var t := Unsigned(s);
    assert t == if IsSigned(s) then s[1..] else s;
    FoldedIs(t, "inf");
    FoldedIs(t, "infinity");
    FoldedIs(t, "nan");
    DecimalsAre(t);
    hide IsDecimal, IsDecimalText, IsAnyCase, LowerCase, IsSigned;
  }

  // ---- the detail view ----

  predicate IsWordOfYaml(w: string) {
    || w == "true" || w == "false" || w == "null" || w == "~" || w == "yes" || w == "no" || w == "on" || w == "off"
    || w == ".inf" || w == "-.inf" || w == "+.inf" || w == ".nan"
  }

  predicate StartsAPrefixedNumber(s: string) {
    |s| >= 2 && s[0] == '0' && (s[1] == 'x' || s[1] == 'o' || s[1] == 'b')
  }

  predicate IsIndicator(c: char) {
    || c == '-' || c == '*' || c == '&' || c == '!' || c == '%' || c == '@' || c == '`' || c == '[' || c == ']'
    || c == '{' || c == '}' || c == '|' || c == '>' || c == '\'' || c == '"' || c == '#'
  }

  /** No character that would end a line or a quote, and no pair that would start a value or a comment. */
  predicate HoldsNothingSpecial(s: string) {
    && (forall i :: 0 <= i < |s| ==>
          s[i] != '"' && !(s[i] as int < 32) && !(127 <= s[i] as int <= 159))
    && (forall i :: 1 <= i < |s| ==> !(s[i - 1] == ':' && s[i] == ' ') && !(s[i - 1] == ' ' && s[i] == '#'))
  }

  /** What needs no quotes. */
  ghost predicate IsPlain(s: string) {
    && s != "" && !IsWhite(s[0]) && !IsWhite(s[|s| - 1])
    && !(exists w :: IsWordOfYaml(w) && IsAnyCase(s, w)) && !IsNumberText(s) && !StartsAPrefixedNumber(s)
    && !IsIndicator(s[0]) && s[|s| - 1] != ':' && HoldsNothingSpecial(s)
  }

  lemma WordsAreLower(w: string)
    ensures w in WORDS <==> IsWordOfYaml(w)
    ensures IsWordOfYaml(w) ==> HasNoCapitals(w)
  {}

  lemma OtherTypesAre(s: string)
    requires s != ""
    ensures LooksLikeOtherType(s) <==>
              || (exists w :: IsWordOfYaml(w) && IsAnyCase(s, w)) || IsNumberText(s) || StartsAPrefixedNumber(s)
              || IsWhite(s[0]) || IsWhite(s[|s| - 1])
  {
    forall w
      ensures w in WORDS <==> IsWordOfYaml(w)
      ensures IsWordOfYaml(w) ==> (LowerCase(s) == w <==> IsAnyCase(s, w))
    {
      WordsAreLower(w);
      if IsWordOfYaml(w) {
        FoldedIs(s, w);
      }
    }
    assert LowerCase(s) in WORDS <==> exists w :: IsWordOfYaml(w) && IsAnyCase(s, w) by {
      hide WORDS, LowerCase, IsAnyCase, IsWordOfYaml;
    }
    NumbersAre(s);
    PrefixedAre(s);
    hide WORDS, LowerCase, IsAnyCase, IsWordOfYaml, IsFloat, IsNumberText, StartsAPrefixedNumber, StartsWith, IsWhite;
  }

  lemma PrefixedAre(s: string)
    ensures StartsAPrefixedNumber(s) <==> StartsWith(s, "0x") || StartsWith(s, "0o") || StartsWith(s, "0b")
  {
    if |s| >= 2 {
      assert s[..2] == [s[0], s[1]];
    }
  }

  /** Two characters side by side. */
  lemma PairsStand(s: string, a: char, b: char)
    ensures Contains(s, [a, b]) <==> exists i :: 1 <= i < |s| && s[i - 1] == a && s[i] == b
  {
    ContainsSomewhere(s, [a, b]);
    if i: nat :| PartAt(s, i, [a, b]) {
      assert s[i..i + 2][0] == s[i] && s[i..i + 2][1] == s[i + 1];
      assert s[i + 1 - 1] == a;
    }
    if i :| 1 <= i < |s| && s[i - 1] == a && s[i] == b {
      assert s[i - 1..i + 1] == [a, b];
      assert PartAt(s, i - 1, [a, b]);
    }
    hide Contains;
  }

  lemma ContentsAre(s: string)
    requires s != ""
    ensures ContainsBadly(s) <==> !HoldsNothingSpecial(s) || s[0] == '#' || s[|s| - 1] == ':'
  {
    PairsStand(s, ':', ' ');
    PairsStand(s, ' ', '#');
    PairsStand(s, ':', '\t');
    assert ": " == [':', ' '] && " #" == [' ', '#'] && ":\t" == [':', '\t'];
    assert StartsWith(s, "#") <==> s[0] == '#';
    assert EndsWith(s, ":") <==> s[|s| - 1] == ':' by {
      assert s[|s| - 1..] == [s[|s| - 1]];
    }
    assert (exists i :: 0 <= i < |s| && IsControl(s[i])) <==>
           exists i :: 0 <= i < |s| && ((s[i] as int < 32) || (127 <= s[i] as int <= 159));
    hide Contains, StartsWith, EndsWith;
  }

  lemma StartsAre(s: string)
    requires s != ""
    ensures StartsBadly(s) || s[0] == '#' <==> IsIndicator(s[0]) || s[0] == ' '
  {}

  lemma {:induction false} ReplacingLengthens(s: string, c: char, with: string)
    requires with != ""
    ensures |Replace(s, c, with)| >= |s|
  {
    if s != "" {
      ReplacingLengthens(s[1..], c, with);
    }
  }

  lemma EscapingLengthens(s: string)
    ensures |Escaped(s)| >= |s|
  {
    var a := Replace(s, '\\', "\\\\");
    var b := Replace(a, '"', "\\\"");
    var c := Replace(b, '\n', "\\n");
    var d := Replace(c, '\r', "\\r");
    ReplacingLengthens(s, '\\', "\\\\");
    ReplacingLengthens(a, '"', "\\\"");
    ReplacingLengthens(b, '\n', "\\n");
    ReplacingLengthens(c, '\r', "\\r");
    ReplacingLengthens(d, '\t', "\\t");
    hide Replace;
  }

  /** A string is written as it is exactly when it is plain; any other is escaped and quoted. */
  lemma PlainStringsAreBare(s: string)
    ensures QuoteIfNeeded(s) == s <==> IsPlain(s)
    ensures !IsPlain(s) ==> QuoteIfNeeded(s) == "\"" + Escaped(s) + "\""
  {
    EscapingLengthens(s);
    if s != "" {
      OtherTypesAre(s);
      ContentsAre(s);
      StartsAre(s);
      assert IsWhite(' ');
    }
    hide LooksLikeOtherType, StartsBadly, ContainsBadly, Escaped, HoldsNothingSpecial, IsNumberText, IsAnyCase,
      IsWordOfYaml, StartsAPrefixedNumber, IsIndicator, IsWhite;
  }

  // ---- the export ----

  lemma {:induction false} DoublingLengthens(s: string)
    ensures |Export.Doubled(s)| >= |s|
  {
    if s != "" {
      DoublingLengthens(s[1..]);
    }
  }

  /** A cell is written as it is exactly when it holds no comma, quote or line break. */
  lemma PlainCellsAreBare(cell: string)
    ensures Export.CellText(cell) == cell <==>
              forall i :: 0 <= i < |cell| ==>
                cell[i] != ',' && cell[i] != '"' && cell[i] as int != 10 && cell[i] as int != 13
    ensures Export.CellText(cell) != cell ==> Export.CellText(cell) == "\"" + Export.Doubled(cell) + "\""
  {
    DoublingLengthens(cell);
    hide Export.Doubled;
  }
}
