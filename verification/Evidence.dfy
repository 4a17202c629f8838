/**
 From a failed task to the alerts raised near its start (`crates/core/src/evidence.rs`): the
 window, the `$filter` that asks for it, and the check that keeps a row. The two ends agree on
 every alert stamped with a whole second, exactly for the windows whose ends can be written.
 */
module Evidence {
  import opened Wrappers
  import opened Text
  import opened Json
  import opened Stamps
  import C = Calendar
  import opened Filter
  import opened FilterEval
  import opened FilterLaws

  /** Either side of the task's start, in seconds. */
  const WINDOW := 600

  /** An instant is a count of seconds from the epoch, before it when negative. */
  datatype Span = Span(from: int, to: int)

  /** How a time stamp is read: the `time` crate's parser, here a parameter. */
  type StampParser = string -> Option<int>

  function StampAt(row: Value, key: string, parse: StampParser): Option<int> {
    match Lookup(row, key)
    case Some(String(s)) => parse(s)
    case _ => None
  }

  /** The window around the instant a task began at; a task without a readable `startedTime` counts
      from its creation. */
  function Window(task: Value, parse: StampParser): Option<Span> {
    var started := StampAt(task, "startedTime", parse);
    var at := if started.Some? then started else StampAt(task, "createdTime", parse);
    match at
    case Some(t) => Some(Span(t - WINDOW, t + WINDOW))
    case None => None
  }

  /** An instant as the program writes it: anything before the epoch becomes the epoch. */
  function Written(t: int): string {
    Rfc3339(if t < 0 then 0 else t)
  }

  const ASK_FROM := "creationTime ge "
  const ASK_TO := " and creationTime le "

  function Odata(w: Span): string {
    ASK_FROM + (Written(w.from) + (ASK_TO + Written(w.to)))
  }

  predicate Inside(alert: Value, w: Span, parse: StampParser) {
    var t := StampAt(alert, "creationTime", parse);
    t.Some? && w.from <= t.value <= w.to
  }

  // ---- the stamps as words of the filter language ----

  predicate IsStampChar(c: char) {
    IsDigit(c) || c == '-' || c == ':' || c == 'T' || c == 'Z'
  }

  lemma FieldHoldsStampChars(n: nat, w: nat, separator: char)
    requires IsStampChar(separator)
    ensures All(Field(n, w, separator), IsStampChar) && |Field(n, w, separator)| > 0
    ensures Field(n, w, separator)[|Field(n, w, separator)| - 1] == separator
  {}

  lemma StampHoldsStampChars(d: C.Date, rem: nat)
    requires C.IsDate(d) && d.year >= 0
    ensures var s := Rfc3339Text(d, rem);
            s != "" && All(s, IsStampChar) && ':' in s && s[|s| - 1] == 'Z'
  {
    var y, mo, da := Field(d.year, 4, '-'), Field(d.month, 2, '-'), Field(d.day, 2, 'T');
    var h, mi, sec := Field(rem / 3600, 2, ':'), Field(rem % 3600 / 60, 2, ':'), Field(rem % 60, 2, 'Z');
    FieldHoldsStampChars(d.year, 4, '-');
    FieldHoldsStampChars(d.month, 2, '-');
    FieldHoldsStampChars(d.day, 2, 'T');
    FieldHoldsStampChars(rem / 3600, 2, ':');
    FieldHoldsStampChars(rem % 3600 / 60, 2, ':');
    FieldHoldsStampChars(rem % 60, 2, 'Z');
    hide Field, IsStampChar;
    AllOfConcat(mi, sec, IsStampChar);
    AllOfConcat(h, mi + sec, IsStampChar);
    AllOfConcat(da, h + (mi + sec), IsStampChar);
    AllOfConcat(mo, da + (h + (mi + sec)), IsStampChar);
    AllOfConcat(y, mo + (da + (h + (mi + sec))), IsStampChar);
    assert mi[|mi| - 1] in mi + sec;
    assert sec[|sec| - 1] == 'Z';
  }

  /** A stamp is one word of the language, and not a number, a boolean or a property path. */
  lemma StampIsAWord(s: string)
    requires s != "" && All(s, IsStampChar) && ':' in s
    ensures NoBreaks(s) && !IsFloat(s) && s != "true" && s != "false" && '.' !in s && All(s, IsAscii)
  {
    assert !All(s, IsFloatChar) by {
      var i :| 0 <= i < |s| && s[i] == ':';
      assert !IsFloatChar(s[i]);
    }
    if IsFloat(s) {
      FloatChars(s);
    }
    assert IsStampChar(s[0]) && !IsStampChar('t') && !IsStampChar('f');
  }

  /** Up to year 9999 a stamp is an instant to the filter language, and beyond it is not. */
  lemma StampIsAnInstant(secs: nat)
    ensures var s := Rfc3339(secs);
            s != "" && All(s, IsStampChar) && ':' in s && s[|s| - 1] == 'Z'
    ensures secs <= LAST_SECOND <==> IsInstant(Rfc3339(secs))
    ensures secs <= LAST_SECOND ==> |Rfc3339(secs)| == 20
  {
    var d, rem := C.DayAfterEpoch(DayOf(secs)), SecondOfDay(secs);
    var s := Rfc3339(secs);
    StampHoldsStampChars(d, rem);
    FourDigitYears(secs);
    hide Rfc3339Text, C.DayAfterEpoch, IsInstant;
    if secs <= LAST_SECOND {
      FourDigitsAreAnInstant(d, rem);
    } else {
      FiveDigitsAreNot(d, rem);
    }
  }

  lemma FourDigitsAreAnInstant(d: C.Date, rem: nat)
    requires C.IsDate(d) && 0 <= d.year < 10000 && rem < 86400
    ensures IsInstant(Rfc3339Text(d, rem)) && |Rfc3339Text(d, rem)| == 20
  {
    StampHoldsStampChars(d, rem);
    var s := StampLayout(d, rem);
    hide *;
    StampIsAWord(s);
    ShapeIsAnInstant(s);
  }

  lemma ShapeIsAnInstant(s: string)
    requires All(s, IsAscii) && |s| == 20 && s[4] == s[7] == '-' && s[10] == 'T' && s[19] == 'Z'
    ensures IsInstant(s)
  {
    Utf8OfAscii(s);
    hide Utf8;
    assert s[19..] == "Z";
  }

  lemma FiveDigitsAreNot(d: C.Date, rem: nat)
    requires C.IsDate(d) && d.year >= 10000
    ensures !IsInstant(Rfc3339Text(d, rem))
  {
    StampHoldsStampChars(d, rem);
    FiveDigitYear(d, rem);
    hide Rfc3339Text, IsInstant;
    var s := Rfc3339Text(d, rem);
    StampIsAWord(s);
    DigitIsNoInstant(s);
  }

  lemma DigitIsNoInstant(s: string)
    requires All(s, IsAscii) && |s| > 4 && IsDigit(s[4])
    ensures !IsInstant(s)
  {
    Utf8OfAscii(s);
    hide Utf8;
  }

  lemma FiveDigitYear(d: C.Date, rem: nat)
    requires C.IsDate(d) && d.year >= 10000
    ensures |Rfc3339Text(d, rem)| > 4 && IsDigit(Rfc3339Text(d, rem)[4])
  {
    FiveDigits(d.year);
    hide NatText, ClockText;
    assert Rfc3339Text(d, rem)[4] == NatText(d.year)[4];
  }

  lemma FiveDigits(n: nat)
    requires n >= 10000
    ensures |NatText(n)| >= 5
  {
    assert |NatText(n / 1000)| >= 2;
    assert n / 100 / 10 == n / 1000 && n / 10 / 10 == n / 100;
    assert |NatText(n / 100)| >= 3;
    assert |NatText(n / 10)| >= 4;
  }

  /** The key an instant is ordered by is its stamp with an explicit zero fraction. */
  lemma KeyOfWholeSecond(s: string)
    requires IsInstant(s) && '.' !in s && |s| == 20
    ensures InstantKey(s) == s[..19] + ".000000000Z"
  {
    hide IsInstant;
    NoPointToSplit(s[..19]);
    assert seq(9, _ => '0') == "000000000";
  }

  /** Two stamps that share their form order alike with and without the zero fraction. */
  lemma KeysOrderAsTexts(s: string, t: string)
    requires |s| == |t| == 20 && All(s, IsAscii) && All(t, IsAscii) && s[19] == t[19] == 'Z'
    ensures CompareText(s[..19] + ".000000000Z", t[..19] + ".000000000Z") == CompareText(s, t)
  {
    hide CompareText;
    assert s == s[..19] + "Z" && t == t[..19] + "Z";
    CompareTextBlocks(s[..19], t[..19], "Z", "Z");
    CompareTextBlocks(s[..19], t[..19], ".000000000Z", ".000000000Z");
    SameTextsCompareEqual("Z");
    SameTextsCompareEqual(".000000000Z");
  }

  /** So keys order as the seconds do. */
  lemma KeysOrderAsInstants(a: nat, b: nat)
    requires a <= LAST_SECOND && b <= LAST_SECOND
    ensures CompareText(InstantKey(Rfc3339(a)), InstantKey(Rfc3339(b))) == CompareInts(a, b)
  {
    hide Rfc3339, CompareText, InstantKey, IsInstant;
    var s, t := Rfc3339(a), Rfc3339(b);
    StampIsAnInstant(a);
    StampIsAnInstant(b);
    StampIsAWord(s);
    StampIsAWord(t);
    KeyOfWholeSecond(s);
    KeyOfWholeSecond(t);
    KeysOrderAsTexts(s, t);
    StampsOrderAsInstants(a, b);
  }

  lemma SameTextsCompareEqual(s: string)
    ensures CompareText(s, s) == Equal
  {
    CompareEqual(Utf8(s), Utf8(s));
  }

  // ---- what the filter says ----

  function AskTokens(from: string, to: string): seq<Token> {
    [Word("creationTime"), Word("ge"), Word(from), Word("and"), Word("creationTime"), Word("le"), Word(to)]
  }

  lemma LexAsk(from: string, to: string)
    requires from != "" && NoBreaks(from) && to != "" && NoBreaks(to)
    ensures Tokens(ASK_FROM + (from + (ASK_TO + to))) == Ok(AskTokens(from, to))
  {
    assert NoBreaks("creationTime") && NoBreaks("ge") && NoBreaks("le") && NoBreaks("and") && Tokens("") == Ok([]);
    assert Boundary("") && forall t: string :: Boundary(" " + "and" + " " + t);
    hide Tokens, NoBreaks, Prepend, Boundary;
    var second := "creationTime" + (" " + "le" + " " + (to + ""));
    var first := "creationTime" + (" " + "ge" + " " + (from + (" " + "and" + " " + second)));
    assert ASK_FROM + (from + (ASK_TO + to)) == first by { AskIsTwoComparisons(from, to); }
    LexComparison("creationTime", "le", to, "");
    LexSpacedWord("and", second);
    LexComparison("creationTime", "ge", from, " " + "and" + " " + second);
    PrependNothing([Word("creationTime"), Word("le"), Word(to)], Ok([]));
    PrependTwice([Word("and")], [Word("creationTime"), Word("le"), Word(to)], Ok([]));
    PrependTwice([Word("creationTime"), Word("ge"), Word(from)],
                 [Word("and")] + [Word("creationTime"), Word("le"), Word(to)], Ok([]));
    PrependNothing(AskTokens(from, to), Ok([]));
    assert [Word("creationTime"), Word("ge"), Word(from)]
           + ([Word("and")] + [Word("creationTime"), Word("le"), Word(to)]) == AskTokens(from, to);
  }

  lemma AskIsTwoComparisons(from: string, to: string)
    ensures ASK_FROM + (from + (ASK_TO + to)) ==
            "creationTime" + (" " + "ge" + " " + (from + (" " + "and" + " " +
              ("creationTime" + (" " + "le" + " " + (to + ""))))))
  {
    assert ASK_FROM == "creationTime" + (" " + "ge" + " ");
    assert ASK_TO == " " + "and" + " " + ("creationTime" + (" " + "le" + " "));
    assert to + "" == to;
  }

  function AskFilter(from: string, to: string): Filter {
    And(Compare(["creationTime"], Ge, Text(from)), Compare(["creationTime"], Le, Text(to)))
  }

  lemma CreationTimeIsAPath()
    ensures PathOf("creationTime") == Ok(["creationTime"]) && LowerCase("creationTime") != "startswith"
  {
    assert IsPath(["creationTime"]);
    PathReadsBack(["creationTime"]);
    assert |LowerCase("creationTime")| == 12;
  }

  function TimeComparison(op: Op, l: Result<Literal, Error>, rest: seq<Token>): Parsed {
    var literal :- l;
    Ok((Compare(["creationTime"], op, literal), rest))
  }

  /** One comparison on the creation time, whatever follows it. */
  lemma ParseTimeComparison(op: Op, text: string, rest: seq<Token>)
    ensures ParsePrimary([Word("creationTime"), Word(OpText(op)), Word(text)] + rest)
         == TimeComparison(op, LiteralOf(text), rest)
  {
    CreationTimeIsAPath();
    OpReadsBack(op);
    hide PathOf, OpOf, LiteralOf, LowerCase, OpText;
    var ts := [Word("creationTime"), Word(OpText(op)), Word(text)] + rest;
    assert ts[1..][2..] == rest;
    assert ParsePrimary(ts) == ParseCompare("creationTime", ts[1..]);
  }

  lemma ParseAsk(from: string, to: string)
    ensures LiteralOf(from) == Ok(Text(from)) && LiteralOf(to) == Ok(Text(to)) ==>
              ParseTokens(AskTokens(from, to)) == Ok(AskFilter(from, to))
    ensures LiteralOf(from).Err? || LiteralOf(to).Err? ==> ParseTokens(AskTokens(from, to)).Err?
  {
    hide LiteralOf, ParsePrimary, ParseTokens;
    var first := [Word("creationTime"), Word(OpText(Ge)), Word(from)];
    var second := [Word("creationTime"), Word(OpText(Le)), Word(to)];
    ParseTimeComparison(Le, to, []);
    ParseTimeComparison(Ge, from, [Word("and")] + second);
    assert second + [] == second;
    assert AskTokens(from, to) == first + ([Word("and")] + second);
    ParseTwoTerms(first, second);
  }

  /** The stamps the window is written with are words, whatever the window. */
  lemma OdataTokens(w: Span)
    ensures Tokens(Odata(w)) == Ok(AskTokens(Written(w.from), Written(w.to)))
  {
    hide Rfc3339, Tokens;
    StampIsAnInstant(if w.from < 0 then 0 else w.from);
    StampIsAnInstant(if w.to < 0 then 0 else w.to);
    StampIsAWord(Written(w.from));
    StampIsAWord(Written(w.to));
    LexAsk(Written(w.from), Written(w.to));
  }

  lemma WrittenLiteral(t: int)
    ensures t <= LAST_SECOND ==> LiteralOf(Written(t)) == Ok(Text(Written(t)))
    ensures t > LAST_SECOND ==> LiteralOf(Written(t)).Err?
  {
    hide Rfc3339;
    StampIsAnInstant(if t < 0 then 0 else t);
    StampIsAWord(Written(t));
  }

  /** The filter reads back exactly while both ends are written with four-digit years. */
  lemma OdataParses(w: Span)
    ensures w.from <= LAST_SECOND && w.to <= LAST_SECOND ==>
              Parse(Odata(w)) == Ok(AskFilter(Written(w.from), Written(w.to)))
    ensures w.from > LAST_SECOND || w.to > LAST_SECOND ==> Parse(Odata(w)).Err?
  {
    hide Written, LiteralOf, Odata, Tokens;
    OdataTokens(w);
    WrittenLiteral(w.from);
    WrittenLiteral(w.to);
    ParseAsk(Written(w.from), Written(w.to));
  }

  /** An alert stamped with second `t`, whatever else it holds. */
  predicate StampedAt(alert: Value, t: int) {
    0 <= t <= LAST_SECOND && Lookup(alert, "creationTime") == Some(String(Rfc3339(t)))
  }

  lemma AskMatches(alert: Value, t: nat, w: Span, numbers: NumberOrder)
    requires StampedAt(alert, t) && w.from <= LAST_SECOND && w.to <= LAST_SECOND
    ensures Matches(AskFilter(Written(w.from), Written(w.to)), alert, numbers)
       <==> NotBefore(w.from) <= t <= NotBefore(w.to)
  {
    hide Rfc3339, InstantKey, CompareText;
    assert LookupPath(alert, ["creationTime"]) == Some(String(Rfc3339(t)));
    KeysOrderAsInstants(t, if w.from < 0 then 0 else w.from);
    KeysOrderAsInstants(t, if w.to < 0 then 0 else w.to);
  }

  /** A reader of time stamps that reads every whole-second stamp right. */
  ghost predicate ReadsStamps(parse: StampParser) {
    forall t {:trigger Rfc3339(t)} :: 0 <= t <= LAST_SECOND ==> parse(Rfc3339(t)) == Some(t)
  }

  /** What is asked of the Prism Central for a window is what the check keeps. */
  ghost predicate AsksForWhatItKeeps(w: Span, parse: StampParser, numbers: NumberOrder) {
    && Parse(Odata(w)).Ok?
    && forall alert, t :: StampedAt(alert, t) ==>
         (Matches(Parse(Odata(w)).value, alert, numbers) <==> Inside(alert, w, parse))
  }

  /** The ends of a window the program can write and read back: its end from the epoch to year 9999,
      or, of a window that holds nothing because it ends before it starts, its start after the epoch. */
  predicate IsWritable(w: Span) {
    if w.from <= w.to then 0 <= w.to <= LAST_SECOND else 0 < w.from <= LAST_SECOND
  }

  /** The evidence window asks for what it keeps exactly when its ends can be written. */
  lemma EvidenceAsksForWhatItKeeps(w: Span, parse: StampParser, numbers: NumberOrder)
    requires ReadsStamps(parse)
    ensures AsksForWhatItKeeps(w, parse, numbers) <==> IsWritable(w)
  {
    hide Rfc3339, Odata, Parse;
    OdataParses(w);
    if w.from <= LAST_SECOND && w.to <= LAST_SECOND {
      forall alert, t | StampedAt(alert, t)
        ensures Matches(Parse(Odata(w)).value, alert, numbers) <==> (NotBefore(w.from) <= t <= NotBefore(w.to))
        ensures Inside(alert, w, parse) <==> w.from <= t <= w.to
      {
        AskMatches(alert, t, w, numbers);
      }
      hide Inside, Matches, StampedAt;
      if !IsWritable(w) {
        // An alert at the epoch itself: the filter takes it and the check does not.
        var alert := AlertAtEpoch();
      }
    }
  }

  /** What an end before the epoch is written as. */
  function NotBefore(t: int): int { if t < 0 then 0 else t }

  lemma AlertAtEpoch() returns (alert: Value)
    ensures StampedAt(alert, 0)
  {
    alert := Object([Member("creationTime", String(Rfc3339(0)))]);
    hide Rfc3339;
  }

  /** A task's window is ten minutes either way of its start: it asks for what it keeps exactly when
      the task started no more than ten minutes before the epoch or the last second of year 9999. */
  lemma TasksAskForWhatTheyKeep(task: Value, parse: StampParser, numbers: NumberOrder)
    requires ReadsStamps(parse)
    ensures Window(task, parse).Some? <==>
              StampAt(task, "startedTime", parse).Some? || StampAt(task, "createdTime", parse).Some?
    ensures Window(task, parse).Some? ==>
              var w := Window(task, parse).value;
              var start := w.from + 600;
              && w.to == start + 600
              && (StampAt(task, "startedTime", parse) == Some(start) ||
                  (StampAt(task, "startedTime", parse) == None && StampAt(task, "createdTime", parse) == Some(start)))
              && (AsksForWhatItKeeps(w, parse, numbers) <==> -600 <= start <= LAST_SECOND - 600)
  {
    hide AsksForWhatItKeeps, StampAt, ReadsStamps;
    if Window(task, parse).Some? {
      EvidenceAsksForWhatItKeeps(Window(task, parse).value, parse, numbers);
    }
  }

  /** A stamp is the parser's reading of the text at the key, and nothing without a text there. */
  lemma StampsAreRead(row: Value, key: string, parse: StampParser)
    ensures forall s :: Lookup(row, key) == Some(String(s)) ==> StampAt(row, key, parse) == parse(s)
    ensures StampAt(row, key, parse).Some? ==> exists s :: Lookup(row, key) == Some(String(s))
  {
    if StampAt(row, key, parse).Some? {
      assert Lookup(row, key) == Some(String(Lookup(row, key).value.s));
    }
  }
}
