# Nutsh, verified

A Dafny model of the small algorithms inside nutsh, a terminal interface to Nutanix Prism Central, with
proofs of what each of them is for. One module follows one source file or one concern of it:

| files | what they model |
|---|---|
| `Text`, `Letters`, `Json`, `Wrappers` | characters, words in any case, splitting, decimal numbers, UTF-8 order, the grammar of floats; JSON documents |
| `Filter`, `FilterParser`, `FilterEval`, `FilterInstants`, `FilterLaws`, `FilterGrammar`, `FilterJoin`, `FilterMeaning` | the `$filter` language: the imperative tokenizer and parser, the grammar they accept, evaluation, the inverse printer, and which rows a filter takes |
| `Calendar`, `Stamps`, `Evidence` | day counts to dates against a day-by-day calendar; RFC 3339 stamps; the evidence window |
| `Search`, `Stats`, `StatsFilters`, `StatsMeaning` | the filters the program sends, octet matching, and the counter poller over whole runs |
| `Guardrails`, `Verdicts`, `VerdictMeaning` | the glob matcher with its one backtrack point; the rules built on it, and what each verdict means |
| `WritePath`, `Body`, `Actions`, `Forms`, `FormLaws`, `FormMeaning` | the write grammar as a lens over JSON, request bodies out of forms, and when a form is refused |
| `Secrets`, `Scrub`, `SecretMeaning`, `Cache`, `CacheMeaning`, `CacheLaws`, `CacheEviction`, `CacheNames`, `CacheRuns`, `CacheFormats` | the disk cache: scrubbing, caps, eviction, file names, the round trip, and interleaved processes of this format and a newer one |
| `Yaml`, `YamlLayout`, `YamlReader`, `YamlLaws`, `YamlRoundTrip` | the YAML writer, its layout, a reader by YAML's own rules, and the round trip |
| `BareTexts` | which strings and cells are written without quotes |
| `Export` | CSV and a reader of RFC 4180; export stamps |
| `Labels`, `History`, `CanI` | label growth, the bounded line history, and the permission cell's generations |

Functions of the source that update things in place are methods and classes here, each proved against a
specification function. The laws are lemmas about those functions, and for each operation some of them say
what it does on its arguments alone, in numbers, characters and fields (most of these are in the `Meaning`
files). Everything below holds for all inputs, all runs, or all interleavings, as it says.

Where the code does less than its comments promise, the exact condition is proved:

- The evidence window asks for what it keeps only while its ends lie between the epoch and the end of year
  9999: an earlier end is written as the epoch, a later one does not parse. (A window that ends before it
  starts holds nothing; for it the condition is on the start.)
- YAML keys are never quoted: a key that YAML resolves (`null`, `on`, `123`), that is no plain text, or that
  is longer than 1024 characters does not read back. Strings with a comma or a lone question mark in front,
  or with a byte order mark, are left bare although YAML does not take them as plain; control characters
  other than line breaks and tabs stay raw between quotes; and at the margin `...`, or a key that goes on
  after `---` or `...` with a space, is a document marker. With none of these a rendering reads back.
- A form left untouched drops empty strings, unless the field's own seed is sent as one.
- `$now+<n>d` past year 9999 is written as the epoch.
- Eviction is oldest first, as a comment says, exactly when no table behind the newest that fit the cap would
  still fit beside them; otherwise a smaller older table outlives a larger newer one.
- A sheet row without cells is written like a row of one empty cell, and a cell beyond printable ASCII is
  beyond the text RFC 4180 allows.
- A newer format's meta is left alone only while this build can still decode it, and only by processes that
  have not yet looked at the format, or are done. One that no longer decodes is cleared or replaced.
- Instants are always ordered by time up to nine digits of a second; beyond, exactly unless two in one second
  have fractions, padded to nine digits, of which one goes on where the other ends.
- Labels can be distinct although two whole paths share one, when a first word holds the separator's dot.
- A read leaves `history.json` alone unless a meta names it as a table's file, which no written one does.
- The cache's table key tells a table's parents apart from all others exactly when there are fewer than two
  or none holds a NUL.
- The history's 120-byte line limit never decides: the key-material rule refuses anything over 100.

## Model

| member | source | states |
|---|---|---|
| `FilterLaws.ParseUndoesPrint` | crates/mockpc/src/filter.rs:9-25 | printing a filter with no parentheses beyond what precedence and left association need, then tokenizing and parsing, gives the same tree, for every path, operator, text (any characters, quotes doubled), boolean and number |
| `FilterLaws.ExpressibleIffReadsBack` | crates/mockpc/src/filter.rs:66-76 | a tree reads back from its printed form exactly when its paths are identifiers joined by `/`, none is the bare word `startswith`, and its number literals are numbers |
| `FilterLaws.PrintIsANormalForm` | crates/mockpc/src/filter.rs:66-76 | whatever text parses, printing the tree and parsing again gives the same tree: what the parser returns is always expressible |
| `FilterLaws.QuotedUndoesDoubling` | crates/mockpc/src/filter.rs:147-166 | a string with its quotes doubled scans back to the string, whatever it holds and whatever follows |
| `FilterParser.Tokenize` | crates/mockpc/src/filter.rs:99-143 | the scanning loop returns exactly the tokens of the grammar, or its error, on every input |
| `FilterParser.ScanQuoted` | crates/mockpc/src/filter.rs:147-166 | the quote-scanning loop returns the unescaped string and where it ended |
| `FilterParser.Parser.Or` | crates/mockpc/src/filter.rs:194-203 | the `or` loop builds the left-associated tree of the grammar and leaves the rest of the tokens |
| `FilterParser.Parser.And` | crates/mockpc/src/filter.rs:204-213 | the same for `and`, which binds tighter |
| `FilterParser.Parser.Primary` | crates/mockpc/src/filter.rs:214-251 | parentheses, `startswith` calls and comparisons, with every refusal |
| `FilterParser.ParseFilter` | crates/mockpc/src/filter.rs:66-76 | the whole parser: terminates on every input and agrees with the grammar, trailing tokens refused |
| `FilterGrammar.GrammarIsParsed` | crates/mockpc/src/filter.rs:9-25 | the parser accepts exactly the token sequences the documented grammar derives, and gives the tree they spell: keywords and operators in any case, brackets anywhere, left-leaning chains, `and` before `or`; the grammar is stated on its own, letter by letter |
| `FilterGrammar.LexemesAre` | crates/mockpc/src/filter.rs:99-166 | what every text reads as, piece by piece: blanks and tabs, brackets, commas, words, quoted strings with or without a type name, and a quote that never closes |
| `FilterJoin.JoinParsesToConjunction` | crates/core/src/stats.rs:243-256 | what `<base> and <scope>` parses to for any base that parses and any scope printed as one term: the conjunction when the base has no top-level `or`, and otherwise the scope lands on the last alternative only |
| `FilterJoin.OnlyAnOrHasATopLevelOr` | crates/mockpc/src/filter.rs:194-203 | a filter has a top-level `or` only when it parses to one |
| `FilterJoin.JoinMatchesBoth` | crates/core/src/stats.rs:243-256 | joined to a base without a top-level `or`, the filter matches a row exactly when base and scope both do |
| `FilterMeaning.PathsAreWalked` | crates/mockpc/src/filter.rs:305-309 | a path is walked key by key; a missing key or a null at its end is nothing |
| `FilterMeaning.FlagsCompare` | crates/mockpc/src/filter.rs:315-321 | `eq` on a boolean takes exactly the rows that hold that boolean, `ne` all the others, and no other operator any |
| `FilterMeaning.NotEqualIsTheRest` | crates/mockpc/src/filter.rs:311-341 | `ne` takes exactly the rows `eq` leaves, for every path, literal and row, absent and null included |
| `FilterMeaning.TextsCompare` | crates/mockpc/src/filter.rs:311-341 | what each of the six operators takes of a text, and of what is no text |
| `FilterMeaning.NumbersCompare` | crates/mockpc/src/filter.rs:322-326 | and of what compares with a number, and of what does not |
| `FilterMeaning.ConnectivesMean` | crates/mockpc/src/filter.rs:78-89 | `and`, `or` and `startswith` take the rows they read as taking |
| `Text.BytesOrderAsCodePoints` | crates/mockpc/src/filter.rs:328-333 | the bytewise order of two texts is the order of their code points |
| `Calendar.CivilDateIsTheCalendar` | crates/mockpc/src/clock.rs:8-26 | the era arithmetic gives, for every day count, the date reached by stepping the Gregorian calendar a day at a time from 1970-01-01 |
| `Calendar.ThreeCopiesAreTheCalendar` | crates/core/src/export.rs:110-126 | the copies in `clock.rs`, `evidence.rs` and `export.rs`, with their different conversions, all give that date for every 64-bit second count |
| `Calendar.DayNumberInvertsCivilDate` | crates/mockpc/src/clock.rs:12-24 | the days-from-civil formula undoes the conversion on every day |
| `Calendar.CivilDateInvertsDayNumber` | crates/mockpc/src/clock.rs:12-24 | and the conversion undoes the formula on every date from the epoch on |
| `Calendar.LaterDaysAreLater` | crates/mockpc/src/clock.rs:12-24 | later days have later dates |
| `Stamps.StampsFollowTheCalendar` | crates/core/src/evidence.rs:118-136 | both RFC 3339 writers give the calendar's stamp for every 64-bit second count |
| `Stamps.StampsOrderAsInstants` | crates/mockpc/src/clock.rs:8-26 | up to the end of year 9999 stamps compare bytewise as the instants do |
| `Stamps.YearTenThousandSortsFirst` | crates/mockpc/src/clock.rs:8-26 | the next second breaks that order: its stamp sorts before the last one of year 9999 |
| `Stamps.StampsReadBack` | crates/core/src/evidence.rs:118-136 | up to the end of year 9999 a stamp, parsed field by field, names its second again |
| `FilterInstants.KeysOrderAsInstantsIff` | crates/mockpc/src/filter.rs:342-353 | two instants of any fractions compare as their times do, exactly unless they share a second and one fraction, padded to nine digits, goes on where the other ends |
| `FilterInstants.NanosecondsOrder` | crates/mockpc/src/filter.rs:342-353 | so up to nine digits they always do |
| `FilterInstants.TenthDigitComesFirst` | crates/mockpc/src/filter.rs:342-353 | and a tenth digit puts an instant before the one without it |
| `Evidence.OdataParses` | crates/core/src/evidence.rs:30-36 | the window's filter parses to the two comparisons on `creationTime` exactly while both ends have four-digit years |
| `Evidence.EvidenceAsksForWhatItKeeps` | crates/core/src/evidence.rs:30-44 | for any window and every alert stamped with a whole second: the filter takes the alerts `inside` keeps, exactly when the window's ends can be written (0 <= end <= year 9999) |
| `Evidence.TasksAskForWhatTheyKeep` | crates/core/src/evidence.rs:22-44 | a task has a window exactly when its `startedTime` or `createdTime` can be read, 600 seconds either side of the first that can; and the exact range of starts for which asking and keeping agree |
| `Evidence.StampsAreRead` | crates/core/src/evidence.rs:22-44 | a time stamp is what the parser makes of the text at its key, and nothing without a text there |
| `Search.OdataMeansTheTerm` | crates/core/src/search.rs:175-190 | the filter sent for a term parses back to the prefix test on `name`, or the equality on `extId`, with that exact term, quotes and all |
| `Search.NameFilterMatches` | crates/core/src/search.rs:175-190 | that prefix test matches exactly the rows whose name starts with the term |
| `Search.IdentifierFilterMatches` | crates/core/src/search.rs:175-190 | the identifier equality matches exactly the row with that identifier: no UUID can be taken for an instant |
| `Search.SentIff` | crates/core/src/search.rs:175-190 | a filter is sent exactly when the kind takes one, the term is neither empty nor part of an address, and the kind filters on names, or on identifiers and the term is one |
| `Search.UuidsAre` | crates/core/src/search.rs:244-252 | which terms are identifiers, character by character |
| `Search.ParseDotted` | crates/core/src/search.rs:278-305 | the octet parser, popping from its vector, returns the octets of exactly the terms that are addresses |
| `Search.AddressTermsAreDotted` | crates/core/src/search.rs:278-305 | which terms these are, character by character |
| `Search.MatchingIsAnchoredOccurrence` | crates/core/src/search.rs:309-325 | matching an address is the term occurring in the address and a dot, at its start or right behind a dot |
| `Search.TypingNarrows` | crates/core/src/search.rs:309-325 | typing on, while the term stays an address, only ever drops matches |
| `Stats.Poller.RunCycle` | crates/core/src/stats.rs:210-294 | one pass over the counters, every branch, as a function of the replies |
| `Stats.Poller.Poll` | crates/core/src/stats.rs:144-174 | one turn of the loop: cycle, fold, publish |
| `Stats.RefusedCountersAreNeverAskedAgain` | crates/core/src/stats.rs:144-174 | over any run, a counter once refused is in no later request |
| `Stats.RefusedCountersShowADash` | crates/core/src/stats.rs:210-294 | every published value that is not stale shows each refused counter as absent |
| `Stats.StalePublishRepeats` | crates/core/src/stats.rs:194-203 | a stale publish repeats, in all seven slots, the last that was not stale |
| `Stats.NumbersWereAnswered` | crates/core/src/stats.rs:210-294 | every number shown was answered for that same counter in some earlier cycle, or is the pinned cluster's 1 |
| `StatsMeaning.StepShows` | crates/core/src/stats.rs:194-323 | after any cycle: a counter was asked exactly when it is not refused and its kind, its pin and its filter allow it; it is refused exactly when it was, or was now turned down for good (the errors listed); a publish is stale exactly when something was asked and no page came; and what every slot shows, a page's total, the number before, nothing, or the pin's 1 |
| `StatsFilters.CounterFiltersParse` | crates/core/src/stats.rs:73-120 | every counter's own filter parses to what it is meant to say and has no top-level `or` |
| `StatsFilters.RequestsParseToWhatIsWanted` | crates/core/src/stats.rs:243-260 | every request a counter sends, scoped or not, parses to its base and its cluster's comparison, whatever quotes the cluster id holds |
| `StatsFilters.ScopeMatchesItsCluster` | crates/core/src/stats.rs:326-328 | a scope on a cluster's identifier matches exactly the rows of that cluster |
| `FilterMeaning.CountersCount` | crates/core/src/stats.rs:73-120 | which rows each counter's own filter takes, on the rows' fields: critical alerts are those with severity CRITICAL and isResolved false |
| `FilterMeaning.RequestsCount` | crates/core/src/stats.rs:210-294 | which rows each request of a session takes, pinned or not |
| `Guardrails.Glob` | crates/core/src/guardrails.rs:86-121 | the one-backtrack loop returns whether the pattern matches by the recursive meaning of `*`, `?` and case-insensitive bytes, in at most (|pattern|+1)*(|text|+1) steps |
| `Guardrails.OnlyTheLastStarMatters` | crates/core/src/guardrails.rs:83-121 | with an earlier star pending, whatever matches from the last star decides: no other backtrack point is needed |
| `VerdictMeaning.SmallestPatterns` | crates/core/src/guardrails.rs:83-121 | in numbers: byte 42 alone matches everything, byte 63 any one byte, any other byte itself, a letter in either case |
| `VerdictMeaning.PatternsInSequence` | crates/core/src/guardrails.rs:83-121 | a pattern behind a pattern matches a text behind a text, which with the smallest ones says what every pattern matches |
| `Verdicts.Decide` | crates/core/src/guardrails.rs:160-199 | the three passes with their early exits give the verdict |
| `VerdictMeaning.VerdictsMean` | crates/core/src/guardrails.rs:157-199 | each verdict exactly when its own reason stands and no earlier one: read-only, the first denial that applies, missing roles, more rows than the first cap that applies or 5, and otherwise the more that is asked of the first confirmation and the action's own |
| `VerdictMeaning.RulesApply` | crates/core/src/guardrails.rs:69-81 | which rules apply, on their three lists; an absent list is every name |
| `Verdicts.DenyAnywhereRefuses` | crates/core/src/guardrails.rs:158-199 | a verdict is a denial exactly when some rule that applies denies, wherever it stands |
| `Verdicts.RulesOnlyRaise` | crates/catalog/src/lib.rs:78-85 | what is asked is the higher of what the rules ask and what the action asks itself, and whether it is refused does not depend on the latter |
| `Verdicts.OneDenialMore` | crates/core/src/guardrails.rs:158-199 | adding a denying rule at any position refuses what it applies to and changes no other verdict |
| `Verdicts.UserRulesWin` | crates/core/src/guardrails.rs:145-155 | the user's cap and confirmation win over the built-in ones, and the built-in cap holds otherwise |
| `Verdicts.DeleteIsNeverSilent` | crates/core/src/guardrails.rs:132-141 | a delete that is not refused asks for the name, unless a user's rule that applies sets another confirmation |
| `Verdicts.ConfiguredDeleteAsks` | crates/core/src/guardrails.rs:145-155 | so with a file that sets no confirmation a delete never runs unasked |
| `VerdictMeaning.OwnRulesMean` | crates/core/src/guardrails.rs:204-228 | what the program's own rules ask of any action, by its name in any case, and of how many rows |
| `VerdictMeaning.FilesMean` | crates/core/src/guardrails.rs:40-67 | a file is taken exactly when each table is sound, its rules stand first and as written, and a refusal names the first table that is not |
| `Verdicts.ConfigIsItsTables` | crates/core/src/guardrails.rs:147-155 | a file is refused for its first wrong table; otherwise the rules are the tables in order, no cap zero, no idle reason |
| `Verdicts.LiteralMatches` | crates/core/src/guardrails.rs:83-121 | a pattern without wildcards matches its own name in any case and nothing else |
| `WritePath.NamesArePaths` | crates/catalog/src/lib.rs:214-236 | every name the guard admits is the text of the path the walkers take it apart into |
| `WritePath.PathsAreNames` | crates/catalog/src/lib.rs:214-236 | and every well-formed path's text is admitted and taken apart into that path |
| `Actions.WriteAt` | crates/core/src/actions.rs:379-431 | the descending loop, growing arrays and making what is missing, writes exactly there or refuses where something else is in the way |
| `Actions.ReadAt` | crates/core/src/actions.rs:465-481 | the cursor loop reads the value at the path |
| `Body.ReadAfterWrite` | crates/core/src/actions.rs:376-431 | what was written is read back |
| `Body.WriteLeavesTheRest` | crates/core/src/actions.rs:376-431 | every path that neither leads to nor through the written one reads as before, null counting as absent |
| `Body.LastWriteWins` | crates/core/src/actions.rs:376-431 | a second write to a path leaves nothing of the first |
| `Body.WriteWhatIsThere` | crates/core/src/actions.rs:462-481 | writing back what a path reads changes nothing |
| `Body.WriteFits` | crates/core/src/actions.rs:388-427 | a write succeeds exactly when everything its path leads through is absent or of the kind the path needs; a null in the way refuses it, a scalar array element is overwritten |
| `Body.WriteStops` | crates/core/src/actions.rs:388-427 | a refused write names the first value in the way, and whether an object or an array was needed |
| `Forms.BuildBody` | crates/core/src/actions.rs:263-317 | the loop over the fields: entered text, else seed, else nothing; typed; written |
| `FormMeaning.FieldsSend` | crates/core/src/actions.rs:263-357 | what a field sends, when it sends nothing, and each reason it is refused for, exactly, from the text entered, the seed (`$ext_id`, `$now+<n>d`), the row and the field's type |
| `FormMeaning.FormsAreRefused` | crates/core/src/actions.rs:263-317 | a form is refused exactly when some field stops it, by its own refusal or its write's, with that error; it is one field |
| `Forms.CurrentValues` | crates/core/src/actions.rs:441-449 | the map of exactly the fields the document has a value for, with their texts |
| `FormLaws.BodyIsItsFields` | crates/core/src/actions.rs:263-317 | with names apart, a body holds each field's value at its own place and nothing anywhere else |
| `FormLaws.TextsReadBack` | crates/core/src/actions.rs:452-460 | a value's text, entered for a field of its type, is sent as that value |
| `FormLaws.UntouchedFormChangesNothing` | crates/core/src/actions.rs:433-449 | a form nobody touched sends back the row's own value at every field the row has one for |
| `FormLaws.EmptyStringsAreDropped` | crates/core/src/actions.rs:271-281 | the exception: an empty string, in a field of any type, is kept exactly when the field's own seed is sent as one, which for a field that holds strings is a seed that expands to nothing |
| `FormLaws.PickedIdsAreSent` | crates/core/src/actions.rs:290-314 | a picked id stands in the body at the reference's `extId`, or at its own path when that is the id's, whatever the other fields write |
| `FormLaws.IdPathsEndInIds` | crates/core/src/actions.rs:319-324 | which paths are id paths |
| `FormLaws.ExpiryIsDaysFromNow` | crates/core/src/actions.rs:334-375 | `$now+<n>d` names the second exactly that many days from now, and past year 9999 the epoch |
| `Scrub.ScrubTree` | crates/core/src/cache.rs:354-386 | the walk in two passes, retain then descend, gives the scrubbed tree |
| `SecretMeaning.SecretsAreCredentials` | crates/catalog/src/secret.rs:15-115 | the rule, letter by letter: the words anywhere in a key in any case, `script` at its end, the names that only look like one, `guestCustomization` in any case, a bare `key` over key material; never a key with a leading `$` |
| `SecretMeaning.CredentialsAreGone` | crates/core/src/cache.rs:345-386 | no such member is left in the scrubbed tree, at any depth |
| `SecretMeaning.OneKeyAfterScrub` | crates/core/src/cache.rs:354-386 | a key of an object finds nothing exactly when there was nothing or a credential, and else the value, scrubbed |
| `SecretMeaning.DeepAfterScrub` | crates/core/src/cache.rs:354-386 | whatever a path found is still found exactly when no key on it leads to a credential |
| `Scrub.NothingSecretIsLeft` | crates/core/src/cache.rs:347-386 | no member of the result, at any depth, is one the rule calls secret |
| `Scrub.ScrubsExactlySecrets` | crates/catalog/src/secret.rs:85-115 | scrubbing changes a document exactly when there is a secret in it; a second time changes nothing |
| `Scrub.FoundAfterScrub` | crates/core/src/cache.rs:354-386 | what any path finds afterwards: what it found before, scrubbed, unless a secret was on the way |
| `Scrub.AnnotationsAreKept` | crates/core/src/cache.rs:351-362 | members whose key starts with `$` stay |
| `Cache.Directory.Write` | crates/core/src/cache.rs:396-502 | the write, phase by phase, leaves exactly the files `Written` says |
| `Cache.Directory.Read` | crates/core/src/cache.rs:537-636 | the read returns and removes exactly what `ReadBack` says, every refusal included |
| `CacheMeaning.UsedIff` | crates/core/src/cache.rs:537-565 | whose cache is used: exactly a meta of format 1, this version, the target's host, port and account, within the age limit; a newer one is left alone, and of any other nothing is left but the history |
| `CacheMeaning.TablesRead` | crates/core/src/cache.rs:566-636 | of a directory that is used: exactly the tables of the records whose files the meta's session, the record's fields and the catalog vouch for are given, and exactly the files of the others removed |
| `CacheMeaning.RowsKeepTheirIds` | crates/core/src/cache.rs:602-610 | the rows given are those whose id is a text that is not empty, in their order |
| `CacheMeaning.MetaDescribes` | crates/core/src/cache.rs:396-484 | what a write records, field by field: the meta, a record for each surviving table and for nothing else, and the file it names |
| `CacheMeaning.OneTableWritten` | crates/core/src/cache.rs:412-454 | one table's file and record: the first 2000 rows, scrubbed; the file name; the cap of 2097152 bytes |
| `CacheMeaning.OkNamespaces` | crates/core/src/cache.rs:468-484 | only the namespaces that answered are recorded |
| `Cache.Directory.Evict` | crates/core/src/cache.rs:456-467 | the eviction loop with its `continue` keeps and removes exactly these |
| `CacheLaws.RoundTrip` | crates/core/src/cache.rs:396-636 | written and read again within the age limit, a directory gives back exactly the tables that fit both caps and the catalog still knows, each once and in the order of their files: first 2000 rows, scrubbed, those with an id |
| `CacheLaws.OnlySurvivorsAreLeft` | crates/core/src/cache.rs:485-501 | every table file left is a surviving table of this write: under its cap, at most 2000 rows, no secret at any depth, none of an earlier run |
| `CacheEviction.SurvivesIffItFits` | crates/core/src/cache.rs:456-467 | of a snapshot's records, newest first: a table stays exactly when it fits the cap beside those before it, none of them older, that stay |
| `CacheEviction.EvictsOldestFirstIff` | crates/core/src/cache.rs:456-467 | eviction is oldest first exactly when no table behind the newest that fit together would still fit beside them; what stays is the k newest exactly when they fit and none behind them would |
| `CacheLaws.KeptFitTheCap` | crates/core/src/cache.rs:456-467 | what stays is within the cap, and nothing is evicted when all fit |
| `CacheLaws.TablesFitTheCap` | crates/core/src/cache.rs:36-40 | after a write the table files of the directory, each counted once, are together within the cap; and all that fit a file survive exactly when all fit together |
| `CacheLaws.ReadingAgain` | crates/core/src/cache.rs:537-636 | whatever a read removed, a second one gives back the same, for every directory whose meta names its files once each |
| `CacheLaws.WrittenNamesFilesOnce` | crates/core/src/cache.rs:468-484 | which every written meta does, when its tables' file names are distinct |
| `CacheEviction.SmallerOlderSurvives` | crates/core/src/cache.rs:456-467 | a snapshot for which it is not: of ten tables, each older than the one before, the ninth is evicted and the tenth stays |
| `CacheLaws.NewestFirstIsStable` | crates/core/src/cache.rs:457-457 | tables of one age keep the snapshot's order |
| `CacheFormats.MetaStaysIff` | crates/core/src/cache.rs:395-408 | over every interleaving with a program of a newer format: what stands in the meta's place stays, whatever this format's processes do from then on, exactly when it decodes as the meta of a newer format and none of them is past its look at the format and not yet done, or clearing the directory |
| `CacheFormats.UndecodedNewerIsLost` | crates/core/src/cache.rs:504-506 | a newer meta that no longer decodes is taken for none: with nobody past anything, the next read clears it and the next write replaces it |
| `CacheFormats.NewerFilesStayIff` | crates/core/src/cache.rs:485-499 | beside a newer meta another program's file stays exactly when also no process is sweeping it away and no reader has it still to read or to remove |
| `CacheLaws.WriteKeepsHistory` | crates/core/src/cache.rs:485-501 | a write leaves `history.json` alone and its meta does not name it |
| `CacheLaws.ReadKeepsHistory` | crates/core/src/cache.rs:645-665 | a read leaves `history.json` exactly unless a meta it uses names it as a table's file |
| `CacheNames.TableKeysTellApart` | crates/core/src/cache.rs:235-247 | without NULs, two tables are hashed from one text exactly when kind, parents and filter agree, no filter counting as an empty one |
| `CacheNames.NulParentsCollide` | crates/core/src/cache.rs:235-247 | for one kind and filter, other parents share a table's text exactly when it has two parents at least and one of them holds a NUL |
| `CacheRuns.RunsAreSound` | crates/core/src/cache.rs:388-395 | over every interleaving: each file in the directory and each table a reader holds was written whole by some process |
| `CacheRuns.ReadersGetWholeTables` | crates/core/src/cache.rs:566-621 | a table a reader holds was written, in one write, by the very process whose meta it read, under its record's kind, parents and filter, whatever the file names hash to |
| `CacheRuns.UndisturbedRead` | crates/core/src/cache.rs:537-636 | the steps of one read with nobody in between remove and give what the sequential read does |
| `CacheRuns.UndisturbedWrite` | crates/core/src/cache.rs:396-502 | the steps of one write with nobody in between leave what the sequential write leaves |
| `Yaml.RenderYaml` | crates/core/src/yaml.rs:7-68 | the recursive writer, appending line by line, writes the value's lines |
| `YamlLayout.BlocksStandTwoIn` | crates/core/src/yaml.rs:13-76 | a scalar stands on the line of its key or dash, and a block under a key, or an array under a dash, is its own lines with two spaces in front of each |
| `BareTexts.PlainStringsAreBare` | crates/core/src/yaml.rs:87-130 | which strings are written without quotes, exactly, character by character, the floats among them by their own grammar |
| `YamlRoundTrip.ReadsBackIffPlain` | crates/core/src/yaml.rs:5-68 | a reader by YAML 1.2's rules returns the value from its rendering exactly when every key is plain, not too long and read as the string it is, no string is misread, and nothing at the margin is a document marker |
| `YamlRoundTrip.PlainKeysReadBack` | crates/core/src/yaml.rs:5-68 | with such keys a rendering reads back, or, when a string is misread or a marker stands at the margin, is not read back as itself; this reader then refuses it |
| `YamlRoundTrip.IdentifiersArePlain` | crates/core/src/yaml.rs:22-34 | a property name is such a key exactly when it has at most 1024 characters and is no word or number YAML resolves |
| `YamlRoundTrip.NamesDoNotResolve` | crates/core/src/yaml.rs:22-34 | and one that starts with no digit resolves exactly when it is a null or boolean word in one of its spellings |
| `YamlRoundTrip.MarkersAreTheFirstLevels` | crates/core/src/yaml.rs:7-11 | which values put a document marker at the margin |
| `YamlRoundTrip.EndMarkerIsLost` | crates/core/src/yaml.rs:87-130 | the string of three dots does |
| `YamlRoundTrip.RenderingsTellApart` | crates/core/src/yaml.rs:7-11 | two values with such keys and no misread string that have one rendering are one value |
| `YamlRoundTrip.KeysCanCollide` | crates/core/src/yaml.rs:22-34 | keys are written unquoted: a key with a line break renders as a nested object does, for any keys and scalar |
| `YamlRoundTrip.MisreadStrings` | crates/core/src/yaml.rs:87-130 | of each kind of misread string there are as many as words: a comma in front, a lone question mark, a byte order mark, a control character left raw between the quotes |
| `YamlLaws.ScalarsReadBack` | crates/core/src/yaml.rs:78-130 | every null, boolean, integer and string is read back from its scalar, but for the misread strings, which are not read back as themselves |
| `YamlLaws.UnescapedUndoesEscaped` | crates/core/src/yaml.rs:120-127 | five replacements in a row are one escape per character, undone by unescaping; a control character none of them escapes is refused |
| `Export.Csv` | crates/core/src/export.rs:49-57 | the loop over header and rows writes the sheet |
| `Export.CsvCell` | crates/core/src/export.rs:79-94 | the quoting loop writes the cell |
| `BareTexts.PlainCellsAreBare` | crates/core/src/export.rs:79-94 | a cell is written without quotes exactly when it holds no comma, quote or line break |
| `Export.CsvIsLossless` | crates/core/src/export.rs:47-94 | every sheet reads back, as header and rows exactly when none is without cells; by the letter of section 2 of RFC 4180 it is a file exactly when its cells hold printable ASCII, commas, quotes and line breaks only |
| `Export.StampsTellSecondsApart` | crates/core/src/export.rs:96-126 | exports of different seconds have different stamps, in every year |
| `Export.StampsAreUnmarked` | crates/core/src/export.rs:110-126 | a stamp is the instant's RFC 3339 text without its marks: the same digits in the same order |
| `Labels.LabelLeaves` | crates/core/src/detail.rs:378-398 | the loop over an array of heads terminates, the heads' sum falling, with the settled labels |
| `Labels.EqualLabelsAreFull` | crates/core/src/detail.rs:363-398 | two equal labels have both run out of segments and are their whole paths' labels |
| `Labels.DistinctIffFullLabelsAre` | crates/core/src/detail.rs:363-412 | all labels are distinct when the whole paths' labels are; and, unless a first word holds the separator's dot, only then |
| `Labels.DottedWordsHide` | crates/core/src/detail.rs:400-412 | with that dot in a first word the converse fails |
| `Labels.UnrepeatedLabelsStay` | crates/core/src/detail.rs:363-398 | labels that are distinct to begin with do not grow |
| `Labels.OnlyRepeatedGrow` | crates/core/src/detail.rs:378-398 | a leaf takes in a segment only when the label it had was another leaf's as well |
| `Labels.LabelsRead` | crates/core/src/detail.rs:400-412 | how a label reads: the word for its segment, and behind a raised dot the rest of the path, both without the brackets they end on |
| `History.Lines.Push` | crates/core/src/history.rs:82-104 | a line trimmed, judged, moved to the end, capped, and written when there is a file |
| `History.Reload` | crates/core/src/history.rs:49-69 | what was written is what the next process loads |
| `History.HistoryIsAWindow` | crates/core/src/history.rs:82-104 | after any pushes onto a list of distinct lines the entries end as the unbounded history does: its last hundred |
| `History.FreshHistory` | crates/core/src/history.rs:82-104 | from an empty one the entries are exactly the last hundred of the accepted lines, each once, where it was typed last |
| `History.FreshHistoryIs` | crates/core/src/history.rs:82-104 | the same without names: a hundred lines at most, the end of all that were accepted, each once, in the order they were typed last |
| `History.LinesRefused` | crates/core/src/history.rs:109-112 | the lines that are refused: the empty one, key material by its four beginnings, and more than a hundred bytes |
| `History.AcceptedOneByOne` | crates/core/src/history.rs:82-89 | each line typed is trimmed and kept unless it is one of these |
| `History.TrimmedIsInside` | crates/core/src/history.rs:83-83 | white space goes from both ends of a line and nothing else |
| `History.LastOccurrencesInOrder` | crates/core/src/history.rs:92-96 | that unbounded history is in the order the lines were typed last |
| `History.LineLimitIsIdle` | crates/core/src/history.rs:22-25 | the line limit refuses nothing the key rule does not |
| `CanI.CanICell.TakeClaim` | crates/core/src/can_i.rs:102-109 | gives the generation to the first caller only |
| `CanI.CanICell.Store` | crates/core/src/can_i.rs:117-122 | stores under the current generation only |
| `CanI.CanICell.Paint` | crates/core/src/can_i.rs:132-138 | paints only while unclaimed |
| `CanI.CanICell.Reset` | crates/core/src/can_i.rs:142-149 | opens a new generation with the default |
| `CanI.ClaimedOnce` | crates/core/src/can_i.rs:98-109 | over every interleaving no generation is claimed twice, and later claims are of later generations |
| `CanI.RefusedIffClaimed` | crates/core/src/can_i.rs:98-109 | a claim is refused exactly when this generation has been claimed |
| `CanI.VisibleIsLastWrite` | crates/core/src/can_i.rs:98-150 | what is visible is the last restore before the claim or resolution of this generation, else the default |
| `CanI.ShownSetsAreFresh` | crates/core/src/can_i.rs:80-85 | a visible resolution was claimed after the last invalidation |
| `CanI.ShownRestoresAreUnclaimed` | crates/core/src/can_i.rs:124-138 | a visible restore came in this generation, before its claim |
| `CanI.OnlyKnownRolesRefuse` | crates/core/src/can_i.rs:49-69 | an action is refused exactly when the roles are known, the operation names some and none matches |
| `CanI.AnswersMean` | crates/core/src/can_i.rs:49-69 | each of the three answers exactly: unknown without roles on either side, yes by the first of mine the operation names in any case, no with all it names |

## Left out

- The HTTP client, TLS, the keyring, temporary files, permissions and syncing: a file is written or removed in one step, and failures of the disk are not modelled beyond the history's write flag.
- The terminal interface, command line, completion, scheduler, store and generated catalog tables; the catalog is a parameter of the cache, and list parameters one of search.
- serde: JSON text is a parameter of forms (with the hypothesis that a value's text reads as the value), a cache file is what it reads as, and the length of its text is a parameter. JSON numbers are whole; floating-point JSON numbers are not modelled.
- Numeric comparison in filters: a number literal keeps its text, which is checked against the exact grammar of float texts, and the order of numbers is a parameter.
- EvidenceAsksForWhatItKeeps: fractional seconds, which `inside` truncates and the filter does not, and stamps with offsets, are not covered; the time stamp parser is a parameter that reads whole-second stamps right.
- ReadsBackIffPlain: the reader is YAML 1.2 with the words yes, no, on and off of YAML 1.1, and without explicit keys: a text that would start one (`? a`, which YAML reads as a mapping with that key) and a byte order mark at the start are refused, not read as YAML would; what stands before or after a document marker is not read either; the single letters y and n, which YAML 1.1 takes as booleans and the writer leaves bare, are strings to it, and a key twice in one object, which no JSON map holds, is not refused.
- WriteAt: the source writes through a mutable reference; here the cursor's trail is written back to a new document, and what a refused write leaves half done, which build_body throws away, is not kept.
- RoundTrip: holds for tables of distinct file names; hashed names may collide, and then the later file is what both records find. Statistics, samples, roles and the cluster record pass through unchanged and are left out of the snapshot.
- CacheRuns: a discard and a sweep may remove any file they could have listed at any time; directory creation is not a step. A program of a newer format writes its meta, as it reads here, and files that are no table of this format.
- JoinParsesToConjunction: the scope is any filter printed as one term, which is what the program sends; a base with a top-level or is shown to bind the scope to its last alternative.
- `Search.across`, `why` and the plan of a search: set building over a store that is not part of this model.
- The poller's timing, its channel and its end on a rejected credential; the difference drawn as "off".
- OnlyKnownRolesRefuse: resolving roles over four list calls, and policy_matches, are not modelled.
- Label words (`sentence_case` and the acronym table) are a parameter of `Labels`; choosing which leaves a section shows is left out.
- FNV hashing, directory slugs and the sweep over context directories: no property is claimed of the hash.
- The integer width of generations and byte counts: they are unbounded here.
- JSON export, the format words and export paths beyond the stamp.
- The wording of errors.
