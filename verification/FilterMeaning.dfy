/**
 Which rows a filter takes, in the rows' own terms (`matches` and `compare` in
 `crates/mockpc/src/filter.rs`), and which rows each counter's request takes.
 */
module FilterMeaning {
  import opened Wrappers
  import T = Text
  import opened Json
  import opened Filter
  import opened FilterEval
  import opened FilterLaws
  import opened StatsFilters
  import Search
  import S = Stats

  // ---- paths ----

  /** A path is walked key by key, and ends on nothing where a key is missing or the value is null. */
  lemma PathsAreWalked(row: Value, key: string, rest: seq<string>)
    ensures LookupPath(row, []) == if row == Null then None else Some(row)
    ensures LookupPath(row, [key] + rest) ==
              if Lookup(row, key) == None then None else LookupPath(Lookup(row, key).value, rest)
    ensures LookupPath(row, [key]) == if Lookup(row, key) == Some(Null) then None else Lookup(row, key)
  {
    assert ([key] + rest)[1..] == rest;
    assert [key][1..] == [];
    if Lookup(row, key).Some? {
      assert LookupPath(Lookup(row, key).value, []) ==
             if Lookup(row, key).value == Null then None else Some(Lookup(row, key).value);
    }
  }

  // ---- one comparison ----

  /** `ne` takes exactly the rows `eq` leaves, whatever the path and the literal: the rows without the
      property, with null there, or with a value of another kind among them. */
  lemma NotEqualIsTheRest(row: Value, path: seq<string>, literal: Literal, numbers: NumberOrder)
    ensures Matches(Compare(path, Ne, literal), row, numbers) <==> !Matches(Compare(path, Eq, literal), row, numbers)
    ensures LookupPath(row, path) == None ==> Matches(Compare(path, Ne, literal), row, numbers)
  {}

  /** A boolean is equal to itself and comparable to nothing else. */
  lemma FlagsCompare(row: Value, path: seq<string>, b: bool, numbers: NumberOrder)
    ensures Matches(Compare(path, Eq, Flag(b)), row, numbers) <==> LookupPath(row, path) == Some(Bool(b))
    ensures Matches(Compare(path, Ne, Flag(b)), row, numbers) <==> LookupPath(row, path) != Some(Bool(b))
    ensures forall op :: op != Eq && op != Ne ==> !Matches(Compare(path, op, Flag(b)), row, numbers)
  {}

  lemma FlagOfOneKey(row: Value, key: string, b: bool, numbers: NumberOrder)
    ensures Matches(Compare([key], Eq, Flag(b)), row, numbers) <==> Lookup(row, key) == Some(Bool(b))
    ensures Matches(Compare([key], Ne, Flag(b)), row, numbers) <==> Lookup(row, key) != Some(Bool(b))
  {
    PathsAreWalked(row, key, []);
  }

  /** A text is ordered by its bytes, an instant by its key; whatever is no text is `ne` it only. */
  lemma TextsCompare(row: Value, path: seq<string>, text: string, numbers: NumberOrder)
    ensures forall s :: LookupPath(row, path) == Some(String(s)) ==>
              var o := T.CompareText(InstantKey(s), InstantKey(text));
              && (Matches(Compare(path, Eq, Text(text)), row, numbers) <==> o == T.Equal)
              && (Matches(Compare(path, Ne, Text(text)), row, numbers) <==> o != T.Equal)
              && (Matches(Compare(path, Lt, Text(text)), row, numbers) <==> o == T.Less)
              && (Matches(Compare(path, Le, Text(text)), row, numbers) <==> o == T.Less || o == T.Equal)
              && (Matches(Compare(path, Gt, Text(text)), row, numbers) <==> o == T.Greater)
              && (Matches(Compare(path, Ge, Text(text)), row, numbers) <==> o == T.Greater || o == T.Equal)
    ensures LookupPath(row, path) == None || !LookupPath(row, path).value.String? ==>
              forall op :: Matches(Compare(path, op, Text(text)), row, numbers) <==> op == Ne
  {
    hide InstantKey, T.CompareText;
  }

  /** A number is ordered as the caller's order of numbers says; what that cannot compare is `ne` only. */
  lemma NumbersCompare(row: Value, path: seq<string>, digits: string, numbers: NumberOrder)
    ensures forall v :: LookupPath(row, path) == Some(v) && numbers(v, digits).Some? ==>
              var o := numbers(v, digits).value;
              && (Matches(Compare(path, Eq, Numeral(digits)), row, numbers) <==> o == T.Equal)
              && (Matches(Compare(path, Ne, Numeral(digits)), row, numbers) <==> o != T.Equal)
              && (Matches(Compare(path, Lt, Numeral(digits)), row, numbers) <==> o == T.Less)
              && (Matches(Compare(path, Le, Numeral(digits)), row, numbers) <==> o == T.Less || o == T.Equal)
              && (Matches(Compare(path, Gt, Numeral(digits)), row, numbers) <==> o == T.Greater)
              && (Matches(Compare(path, Ge, Numeral(digits)), row, numbers) <==> o == T.Greater || o == T.Equal)
    ensures LookupPath(row, path) == None || numbers(LookupPath(row, path).value, digits) == None ==>
              forall op :: Matches(Compare(path, op, Numeral(digits)), row, numbers) <==> op == Ne
  {}

  /** Filters are put together as they read. */
  lemma ConnectivesMean(f: Filter, g: Filter, path: seq<string>, prefix: string, row: Value, numbers: NumberOrder)
    ensures Matches(And(f, g), row, numbers) <==> Matches(f, row, numbers) && Matches(g, row, numbers)
    ensures Matches(Or(f, g), row, numbers) <==> Matches(f, row, numbers) || Matches(g, row, numbers)
    ensures Matches(StartsWith(path, prefix), row, numbers) <==>
              exists s :: LookupPath(row, path) == Some(String(s)) && prefix <= s
  {
    if Matches(StartsWith(path, prefix), row, numbers) {
      var s := LookupPath(row, path).value.s;
      assert LookupPath(row, path) == Some(String(s)) && prefix <= s;
    }
  }

  // ---- plain texts ----

  /** A text that is no instant is ordered as it is; and one too short for an instant is equal to itself
      only, for an instant's key is longer. */
  lemma ShortTextsAreThemselves(s: string, short: string)
    requires |T.Utf8(short)| < 11
    ensures !IsInstant(s) ==> InstantKey(s) == s
    ensures T.CompareText(InstantKey(s), InstantKey(short)) == T.Equal <==> s == short
  {
    T.CompareEqual(T.Utf8(InstantKey(s)), T.Utf8(InstantKey(short)));
    assert !IsInstant(short);
    if IsInstant(s) {
      LongKeys(s);
    } else if T.Utf8(s) == T.Utf8(short) {
      T.Utf8Injective(s, short);
    }
  }

  lemma {:induction false} BytesAreMore(s: string)
    ensures |T.Utf8(s)| >= |s|
  {
    if s != "" {
      BytesAreMore(s[1..]);
    }
  }

  lemma LongKeys(s: string)
    requires IsInstant(s)
    ensures |T.Utf8(InstantKey(s))| >= 11
  {
    var parts := SplitAtPoint(s[..|s| - 1]);
    assert |PadRight(parts.1, 9)| >= 9;
    assert |InstantKey(s)| >= 11;
    BytesAreMore(InstantKey(s));
  }

  lemma ShortTextOfOneKey(row: Value, key: string, text: string, numbers: NumberOrder)
    requires |T.Utf8(text)| < 11
    ensures Matches(Compare([key], Eq, Text(text)), row, numbers) <==> Lookup(row, key) == Some(String(text))
  {
    PathsAreWalked(row, key, []);
    TextsCompare(row, [key], text, numbers);
    hide InstantKey, T.CompareText, LookupPath;
    match Lookup(row, key) {
      case Some(String(s)) => ShortTextsAreThemselves(s, text);
      case _ =>
    }
  }

  lemma ShortWord(word: string)
    requires |word| < 11 && T.All(word, T.IsAscii)
    ensures |T.Utf8(word)| < 11
  {
    T.Utf8OfAscii(word);
    hide T.Utf8;
  }

  lemma CounterWordsAreShort()
    ensures |T.Utf8("ON")| < 11 && |T.Utf8("CRITICAL")| < 11 && |T.Utf8("WARNING")| < 11 && |T.Utf8("RUNNING")| < 11
  {
    hide T.Utf8;
    ShortWord("ON");
    ShortWord("CRITICAL");
    ShortWord("WARNING");
    ShortWord("RUNNING");
  }

  // ---- what the counters count ----

  /** The rows a counter counts. */
  predicate IsCounted(c: S.Counter, row: Value) {
    match c
    case VmsOn => Lookup(row, "powerState") == Some(String("ON"))
    case AlertsCritical =>
      Lookup(row, "severity") == Some(String("CRITICAL")) && Lookup(row, "isResolved") == Some(Bool(false))
    case AlertsWarning =>
      Lookup(row, "severity") == Some(String("WARNING")) && Lookup(row, "isResolved") == Some(Bool(false))
    case TasksRunning => Lookup(row, "status") == Some(String("RUNNING"))
    case _ => true
  }

  /** A counter's own filter takes exactly the rows it counts. */
  lemma CountersCount(def: S.CounterDef, row: Value, numbers: NumberOrder)
    requires def in S.COUNTERS && def.filter.Some?
    ensures var parsed := Parse(def.filter.value);
            parsed.Ok? && (Matches(parsed.value, row, numbers) <==> IsCounted(def.counter, row))
  {
    CounterFiltersParse(def);
    BaseCounts(def, row, numbers);
    hide *;
  }

  /** The rows of a cluster, by the field a counter is scoped on. */
  predicate IsInCluster(field: string, cluster: string, row: Value) {
    if field == "cluster/extId" then
      Lookup(row, "cluster").Some? && Lookup(Lookup(row, "cluster").value, "extId") == Some(String(cluster))
    else Lookup(row, "clusterUUID") == Some(String(cluster))
  }

  lemma ScopesCount(field: string, cluster: string, row: Value, numbers: NumberOrder)
    requires Search.IsUuid(cluster) && (field == "cluster/extId" || field == "clusterUUID")
    ensures Matches(ScopeFilter(field, cluster), row, numbers) <==> IsInCluster(field, cluster, row)
  {
    ScopeMatchesItsCluster(field, cluster, row, numbers);
    PathsAreWalked(row, "cluster", ["extId"]);
    PathsAreWalked(row, "clusterUUID", []);
    if Lookup(row, "cluster").Some? {
      PathsAreWalked(Lookup(row, "cluster").value, "extId", []);
    }
    assert ["cluster"] + ["extId"] == ["cluster", "extId"];
    hide LookupPath, Matches;
  }

  /** Every request of a session takes exactly the rows its counter counts, in a pinned session those of
      the pinned cluster among them; without a filter it takes every row there is to count. */
  lemma RequestsCount(session: S.Session, def: S.CounterDef, row: Value, numbers: NumberOrder)
    requires def in S.COUNTERS && S.PlanFor(session, def).Ask?
    requires session.cluster.Some? ==> Search.IsUuid(session.cluster.value)
    ensures var sent := S.PlanFor(session, def).filter;
            var counted := IsCounted(def.counter, row) &&
                           (session.cluster.Some? ==>
                              def.clusterOn.Some? && IsInCluster(def.clusterOn.value, session.cluster.value, row));
            && (sent.None? ==> counted)
            && (sent.Some? ==> Parse(sent.value).Ok? && (Matches(Parse(sent.value).value, row, numbers) <==> counted))
  {
    RequestsParseToWhatIsWanted(session, def);
    ScopeFields(def);
    if session.cluster.Some? {
      ScopesCount(def.clusterOn.value, session.cluster.value, row, numbers);
    }
    BaseCounts(def, row, numbers);
    hide Parse, S.COUNTERS, S.PlanFor, IsCounted, IsInCluster, BaseFilter, ScopeFilter;
  }

  lemma ScopeFields(def: S.CounterDef)
    requires def in S.COUNTERS
    ensures def.clusterOn.Some? ==> def.clusterOn.value == "cluster/extId" || def.clusterOn.value == "clusterUUID"
  {}

  lemma BaseCounts(def: S.CounterDef, row: Value, numbers: NumberOrder)
    requires def in S.COUNTERS
    ensures BaseFilter(def.counter).None? ==> IsCounted(def.counter, row)
    ensures BaseFilter(def.counter).Some? ==>
              (Matches(BaseFilter(def.counter).value, row, numbers) <==> IsCounted(def.counter, row))
  {
    CounterWordsAreShort();
    hide S.COUNTERS, T.Utf8;
    ShortTextOfOneKey(row, "powerState", "ON", numbers);
    ShortTextOfOneKey(row, "severity", "CRITICAL", numbers);
    ShortTextOfOneKey(row, "severity", "WARNING", numbers);
    ShortTextOfOneKey(row, "status", "RUNNING", numbers);
    FlagOfOneKey(row, "isResolved", false, numbers);
    hide LookupPath;
  }
}
