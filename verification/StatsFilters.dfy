/**
 The filters the counters are asked with: each constant parses to what its counter counts, and a
 pinned session's request keeps exactly the rows of that cluster among them.
 */
module StatsFilters {
  import opened Wrappers
  import T = Text
  import opened Json
  import opened Filter
  import opened FilterEval
  import opened FilterLaws
  import opened FilterJoin
  import Search
  import S = Stats

  /** What a counter counts, as a filter; nothing when it counts every row. */
  function BaseFilter(c: S.Counter): Option<Filter> {
    match c
    case VmsOn => Some(Compare(["powerState"], Eq, Text("ON")))
    case AlertsCritical => Some(UnresolvedAlert("CRITICAL"))
    case AlertsWarning => Some(UnresolvedAlert("WARNING"))
    case TasksRunning => Some(Compare(["status"], Eq, Text("RUNNING")))
    case _ => None
  }

  function UnresolvedAlert(severity: string): Filter {
    And(Compare(["severity"], Eq, Text(severity)), Compare(["isResolved"], Eq, Flag(false)))
  }

  /** An enum comparison: a property, `eq`, the enum's type name against a quoted value. */
  lemma LexEnum(p: string, name: string, value: string, rest: string)
    requires p != "" && NoBreaks(p) && NoBreaks(name) && (rest == "" || rest[0] != '\'')
    ensures Tokens(p + " eq " + (name + (QuotedText(value) + rest))) ==
            Prepend([Word(p), Word("eq"), Str(value)], Tokens(rest))
  {
    hide Tokens, QuotedText;
    var tail := name + (QuotedText(value) + rest);
    assert p + " eq " + tail == p + (" " + "eq" + " " + tail);
    LexQuoted(name, value, rest);
    LexSpacedWord("eq", tail);
    LexWord(p, " " + "eq" + " " + tail);
    PrependTwice([Word("eq")], [Str(value)], Tokens(rest));
    PrependTwice([Word(p)], [Word("eq")] + [Str(value)], Tokens(rest));
    assert [Word(p)] + ([Word("eq")] + [Str(value)]) == [Word(p), Word("eq"), Str(value)];
  }

  lemma QuotedPlain(s: string)
    requires '\'' !in s
    ensures QuotedText(s) == "'" + s + "'"
  {
    NothingToDouble(s);
  }

  lemma {:induction false} NothingToDouble(s: string)
    requires '\'' !in s
    ensures DoubleQuotes(s) == s
  {
    if s != "" {
      NothingToDouble(s[1..]);
      assert [s[0]] + s[1..] == s;
    }
  }

  lemma EnumFilterParses(p: string, name: string, value: string)
    requires p != "" && NoBreaks(p) && NoBreaks(name) && '\'' !in value
    requires PathOf(p) == Ok([p]) && T.LowerCase(p) != "startswith"
    ensures Parse(p + " eq " + (name + ("'" + value + "'"))) == Ok(Compare([p], Eq, Text(value)))
  {
    QuotedPlain(value);
    assert "'" + value + "'" == QuotedText(value) + "";
    LexEnum(p, name, value, "");
    PrependNothing([Word(p), Word("eq"), Str(value)], Ok([]));
    EnumTokensParse(p, value, []);
    assert [Word(p), Word("eq"), Str(value)] + [] == [Word(p), Word("eq"), Str(value)];
    assert Tokens("") == Ok([]);
    hide Tokens, ParsePrimary, QuotedText, PathOf;
    var ts := [Word(p), Word("eq"), Str(value)];
    assert AndTail(Compare([p], Eq, Text(value)), []) == Ok((Compare([p], Eq, Text(value)), []));
    assert ParseAnd(ts) == Ok((Compare([p], Eq, Text(value)), []));
    assert OrTail(Compare([p], Eq, Text(value)), []) == Ok((Compare([p], Eq, Text(value)), []));
  }

  lemma EnumTokensParse(p: string, value: string, rest: seq<Token>)
    requires PathOf(p) == Ok([p]) && T.LowerCase(p) != "startswith"
    ensures ParsePrimary([Word(p), Word("eq"), Str(value)] + rest) == Ok((Compare([p], Eq, Text(value)), rest))
  {
    OpReadsBack(Eq);
    var ts := [Word(p), Word("eq"), Str(value)] + rest;
    assert ts[1..][2..] == rest;
    hide PathOf, OpOf;
    assert ParsePrimary(ts) == ParseCompare(p, ts[1..]);
  }

  /** The first property of each of the three enum filters. */
  lemma PropertyNames()
    ensures PathOf("powerState") == Ok(["powerState"]) && T.LowerCase("powerState") != "startswith"
    ensures PathOf("severity") == Ok(["severity"]) && T.LowerCase("severity") != "startswith"
    ensures PathOf("status") == Ok(["status"]) && T.LowerCase("status") != "startswith"
  {
    assert IsIdentifier("powerState") && IsIdentifier("severity") && IsIdentifier("status");
    PathReadsBack(["powerState"]);
    PathReadsBack(["severity"]);
    PathReadsBack(["status"]);
    assert T.LowerCase("powerState")[0] == 'p' && |T.LowerCase("severity")| == 8 && |T.LowerCase("status")| == 6;
  }

  lemma EnumNames()
    ensures NoBreaks("severity") && NoBreaks("Monitoring.Common.Severity")
    ensures NoBreaks("powerState") && NoBreaks("Vmm.Ahv.Config.PowerState")
    ensures NoBreaks("status") && NoBreaks("Prism.Config.TaskStatus")
  {}

  lemma AlertFilterParses(severity: string)
    requires '\'' !in severity
    ensures Parse(AlertText(severity)) == Ok(UnresolvedAlert(severity))
  {
    hide Parse, Print, PathOf, NoBreaks, T.LowerCase, IsTerm;
    PropertyNames();
    EnumNames();
    EnumFilterParses("severity", "Monitoring.Common.Severity", severity);
    var first := "severity" + " eq " + ("Monitoring.Common.Severity" + ("'" + severity + "'"));
    var resolved := Compare(["isResolved"], Eq, Flag(false));
    ResolvedIsATerm(resolved);
    OnlyAnOrHasATopLevelOr(first);
    JoinParsesToConjunction(first, resolved);
  }

  function AlertText(severity: string): string {
    ("severity" + " eq " + ("Monitoring.Common.Severity" + ("'" + severity + "'"))) + (" and " + "isResolved eq false")
  }

  lemma ResolvedIsATerm(f: Filter)
    requires f == Compare(["isResolved"], Eq, Flag(false))
    ensures IsTerm(f) && Print(f) == "isResolved eq false"
  {
    assert IsIdentifier("isResolved") && T.LowerCase("isResolved")[0] == 'i';
    assert BareText(f) == "isResolved" + (" " + ("eq" + (" " + "false")));
  }

  lemma PowerText()
    ensures "powerState" + " eq " + ("Vmm.Ahv.Config.PowerState" + ("'" + "ON" + "'")) ==
              "powerState eq Vmm.Ahv.Config.PowerState'ON'"
  {}

  lemma TaskText()
    ensures "status" + " eq " + ("Prism.Config.TaskStatus" + ("'" + "RUNNING" + "'")) ==
              "status eq Prism.Config.TaskStatus'RUNNING'"
  {}

  lemma SeverityText()
    ensures "severity" + " eq " + ("Monitoring.Common.Severity" + "'") == "severity eq Monitoring.Common.Severity'"
  {}

  lemma ResolvedText()
    ensures "'" + (" and " + "isResolved eq false") == "' and isResolved eq false"
  {}

  lemma Regroup(a: string, n: string, q: string, v: string, r: string)
    ensures (a + (n + (q + v + q))) + r == (a + (n + q)) + (v + (q + r))
  {}

  lemma AlertTextIsTheCounters(severity: string)
    ensures AlertText(severity) == S.AlertFilter(severity)
  {
    SeverityText();
    ResolvedText();
    Regroup("severity" + " eq ", "Monitoring.Common.Severity", "'", severity, " and " + "isResolved eq false");
  }

  lemma PowerFilterParses()
    ensures Parse("powerState eq Vmm.Ahv.Config.PowerState'ON'") == Ok(Compare(["powerState"], Eq, Text("ON")))
  {
    hide Parse, PathOf, NoBreaks, T.LowerCase;
    PropertyNames();
    EnumNames();
    EnumFilterParses("powerState", "Vmm.Ahv.Config.PowerState", "ON");
    PowerText();
  }

  lemma TaskFilterParses()
    ensures Parse("status eq Prism.Config.TaskStatus'RUNNING'") == Ok(Compare(["status"], Eq, Text("RUNNING")))
  {
    hide Parse, PathOf, NoBreaks, T.LowerCase;
    PropertyNames();
    EnumNames();
    EnumFilterParses("status", "Prism.Config.TaskStatus", "RUNNING");
    TaskText();
  }

  /** The four filters by their counter. */
  lemma CounterFilterTexts(def: S.CounterDef)
    requires def in S.COUNTERS && def.filter.Some?
    ensures def.counter.VmsOn? || def.counter.AlertsCritical? || def.counter.AlertsWarning? || def.counter.TasksRunning?
    ensures def.counter.VmsOn? ==> def.filter.value == "powerState eq Vmm.Ahv.Config.PowerState'ON'"
    ensures def.counter.AlertsCritical? ==> def.filter.value == AlertText("CRITICAL")
    ensures def.counter.AlertsWarning? ==> def.filter.value == AlertText("WARNING")
    ensures def.counter.TasksRunning? ==> def.filter.value == "status eq Prism.Config.TaskStatus'RUNNING'"
  {
    hide AlertText;
    AlertTextIsTheCounters("CRITICAL");
    AlertTextIsTheCounters("WARNING");
  }

  lemma NoQuotes()
    ensures '\'' !in "CRITICAL" && '\'' !in "WARNING"
  {}

  /** Each constant filter says what its counter counts. */
  lemma CounterFiltersParse(def: S.CounterDef)
    requires def in S.COUNTERS && def.filter.Some?
    ensures BaseFilter(def.counter).Some? && Parse(def.filter.value) == Ok(BaseFilter(def.counter).value)
    ensures HasNoTopLevelOr(def.filter.value)
  {
    CounterFilterTexts(def);
    NoQuotes();
    hide Parse, HasNoTopLevelOr, AlertText, S.COUNTERS;
    PowerFilterParses();
    AlertFilterParses("CRITICAL");
    AlertFilterParses("WARNING");
    TaskFilterParses();
    OnlyAnOrHasATopLevelOr(def.filter.value);
  }

  // ---- the scope of a pinned session ----

  function ScopePath(field: string): seq<string> {
    if field == "cluster/extId" then ["cluster", "extId"] else ["clusterUUID"]
  }

  function ScopeFilter(field: string, cluster: string): Filter {
    Compare(ScopePath(field), Eq, Text(cluster))
  }

  lemma ScopePathIsAPath(field: string)
    requires field == "cluster/extId" || field == "clusterUUID"
    ensures IsPath(ScopePath(field)) && !IsStartsWithWord(ScopePath(field)) && PathText(ScopePath(field)) == field
  {
    assert IsIdentifier("cluster") && IsIdentifier("extId") && IsIdentifier("clusterUUID");
    assert T.LowerCase("clusterUUID")[0] == 'c';
    assert T.Join(["cluster", "extId"], '/') == "cluster/extId" by { assert T.Join(["extId"], '/') == "extId"; }
  }

  /** The scope written for one of the two fields is that comparison, whatever the cluster's name
      holds. */
  lemma ScopeIsAComparison(field: string, cluster: string)
    requires field == "cluster/extId" || field == "clusterUUID"
    ensures IsTerm(ScopeFilter(field, cluster)) && S.ScopeOn(field, cluster) == Print(ScopeFilter(field, cluster))
  {
    ScopePathIsAPath(field);
    hide ScopePath, IsPath, IsStartsWithWord, PathText, DoubleQuotes;
    var f, q := ScopeFilter(field, cluster), DoubleQuotes(cluster);
    assert BareText(f) == field + (" " + ("eq" + (" " + ("'" + q + "'"))));
    assert field + (" " + ("eq" + (" " + ("'" + q + "'")))) == field + " eq '" + q + "'";
  }

  /** What a request asks for: the counter's own rows, and in a pinned session those of the pin. */
  function Wanted(session: S.Session, def: S.CounterDef): Option<Filter> {
    var base := BaseFilter(def.counter);
    if session.cluster.None? || def.clusterOn.None? then base
    else
      var scope := ScopeFilter(def.clusterOn.value, session.cluster.value);
      Some(if base.Some? then And(base.value, scope) else scope)
  }

  /** Every request a counter makes parses to exactly what it wants counted. */
  lemma RequestsParseToWhatIsWanted(session: S.Session, def: S.CounterDef)
    requires def in S.COUNTERS && S.PlanFor(session, def).Ask?
    ensures var sent, wanted := S.PlanFor(session, def).filter, Wanted(session, def);
            (sent.Some? <==> wanted.Some?) && (sent.Some? ==> Parse(sent.value) == Ok(wanted.value))
    ensures session.cluster.Some? ==> def.clusterOn.Some?
  {
    assert def.clusterOn.Some? ==> def.clusterOn.value == "cluster/extId" || def.clusterOn.value == "clusterUUID";
    assert def.filter.None? ==> BaseFilter(def.counter).None?;
    hide Parse, Print, HasNoTopLevelOr, S.ScopeOn, S.COUNTERS;
    if def.filter.Some? {
      CounterFiltersParse(def);
    }
    if session.cluster.Some? {
      var scope := ScopeFilter(def.clusterOn.value, session.cluster.value);
      ScopeIsAComparison(def.clusterOn.value, session.cluster.value);
      ParseUndoesPrint(scope);
      if def.filter.Some? {
        JoinParsesToConjunction(def.filter.value, scope);
      }
    }
  }

  /** A row is the pinned cluster's when its scope field holds the cluster's identifier. */
  lemma ScopeMatchesItsCluster(field: string, cluster: string, row: Value, numbers: NumberOrder)
    requires Search.IsUuid(cluster)
    ensures Matches(ScopeFilter(field, cluster), row, numbers) <==>
              LookupPath(row, ScopePath(field)) == Some(String(cluster))
  {
    Search.UuidHasNoTimeDash(cluster);
    match LookupPath(row, ScopePath(field)) {
      case Some(String(v)) => Search.EqualityOfPlainText(v, cluster);
      case _ =>
    }
  }
}
