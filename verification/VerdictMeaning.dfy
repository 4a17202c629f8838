/**
 What a pattern matches and what each verdict means, on the rules, the action and the session alone
 (`glob`, `verdict`, `from_config` and `built_in` in `crates/core/src/guardrails.rs`).
 */
module VerdictMeaning {
  import opened Wrappers
  import opened Guardrails
  import opened Verdicts

  // ---- patterns ----

  /** Capital and small letters fold together, byte 65 with 97 up to 90 with 122, and no other bytes. */
  predicate FoldTogether(a: int, b: int) {
    a == b || (65 <= a <= 90 && b == a + 32) || (97 <= a <= 122 && b == a - 32)
  }

  /** The smallest patterns: the empty one, `*` (byte 42), `?` (byte 63), and any other byte. */
  lemma SmallestPatterns(x: byte, t: seq<byte>)
    ensures Matches([], t) <==> t == []
    ensures x == 42 ==> Matches([x], t)
    ensures x == 63 ==> (Matches([x], t) <==> |t| == 1)
    ensures x != 42 && x != 63 ==> (Matches([x], t) <==> |t| == 1 && FoldTogether(x as int, t[0] as int))
  {
    if x == 42 {
      StarTakesAll(t, 0);
    } else if |t| > 0 {
      assert MatchesFrom([x], t, 0, 0) <==> Accepts(x, t[0]) && MatchesFrom([x], t, 1, 1);
    }
  }

  lemma {:induction false} StarTakesAll(t: seq<byte>, j: nat)
    requires j <= |t|
    ensures MatchesFrom([42], t, 0, j)
    decreases |t| - j
  {
    if j < |t| {
      StarTakesAll(t, j + 1);
    } else {
      assert MatchesFrom([42], t, 1, j);
    }
  }

  /** Only what is ahead counts. */
  lemma {:induction false} AheadCounts(p: seq<byte>, t: seq<byte>, i: nat, j: nat)
    requires i <= |p| && j <= |t|
    ensures MatchesFrom(p, t, i, j) <==> Matches(p[i..], t[j..])
  {
    AheadIsTheSame(p, t, i, j, p[i..], t[j..], 0, 0);
  }

  lemma {:induction false} AheadIsTheSame(p: seq<byte>, t: seq<byte>, i: nat, j: nat, q: seq<byte>, u: seq<byte>,
                                          k: nat, l: nat)
    requires i <= |p| && j <= |t| && k <= |q| && l <= |u|
    requires p[i..] == q[k..] && t[j..] == u[l..]
    ensures MatchesFrom(p, t, i, j) <==> MatchesFrom(q, u, k, l)
    decreases |p| - i, |t| - j
  {
    assert |p| - i == |q| - k && |t| - j == |u| - l;
    if i < |p| {
      assert p[i] == p[i..][0] == q[k] && p[i + 1..] == p[i..][1..] == q[k + 1..];
      if j < |t| {
        assert t[j] == t[j..][0] == u[l] && t[j + 1..] == t[j..][1..] == u[l + 1..];
        AheadIsTheSame(p, t, i, j + 1, q, u, k, l + 1);
        AheadIsTheSame(p, t, i + 1, j + 1, q, u, k + 1, l + 1);
      }
      AheadIsTheSame(p, t, i + 1, j, q, u, k + 1, l);
    }
  }

  lemma MatchesStep(p: seq<byte>, t: seq<byte>)
    requires p != []
    ensures p[0] == STAR ==> (Matches(p, t) <==> (Matches(p[1..], t) || (t != [] && Matches(p, t[1..]))))
    ensures p[0] != STAR ==> (Matches(p, t) <==> t != [] && Accepts(p[0], t[0]) && Matches(p[1..], t[1..]))
  {
    assert p[0..] == p && t[0..] == t;
    AheadCounts(p, t, 1, 0);
    if t != [] {
      AheadCounts(p, t, 0, 1);
      AheadCounts(p, t, 1, 1);
    }
    hide Accepts;
  }

  ghost predicate MatchInTwo(p: seq<byte>, q: seq<byte>, t: seq<byte>, k: nat) {
    k <= |t| && Matches(p, t[..k]) && Matches(q, t[k..])
  }

  /** One pattern behind another matches a text behind a text: with the smallest patterns, this says what
      every pattern matches. */
  lemma {:induction false} PatternsInSequence(p: seq<byte>, q: seq<byte>, t: seq<byte>)
    ensures Matches(p + q, t) <==> exists k: nat :: MatchInTwo(p, q, t, k)
    decreases |p|, |t|
  {
    if p == [] {
      NothingAhead(q, t);
    } else {
      MatchesStep(p + q, t);
      assert (p + q)[1..] == p[1..] + q && (p + q)[0] == p[0];
      PatternsInSequence(p[1..], q, t);
      if t != [] {
        PatternsInSequence(p, q, t[1..]);
        PatternsInSequence(p[1..], q, t[1..]);
      }
      hide Matches, Accepts;
      if Matches(p + q, t) {
        AheadToBoth(p, q, t);
      }
      if k: nat :| MatchInTwo(p, q, t, k) {
        BothToAhead(p, q, t, k);
      }
    }
  }

  lemma NothingAhead(q: seq<byte>, t: seq<byte>)
    ensures Matches([] + q, t) <==> exists k: nat :: MatchInTwo([], q, t, k)
  {
    assert [] + q == q && t[0..] == t;
    assert Matches(q, t) ==> MatchInTwo([], q, t, 0);
    forall k: nat | MatchInTwo([], q, t, k) ensures k == 0 {
      assert t[..k] == [];
    }
    hide MatchesFrom;
  }

  lemma AheadToBoth(p: seq<byte>, q: seq<byte>, t: seq<byte>)
    requires p != []
    requires (p[0] == STAR && exists k: nat :: MatchInTwo(p[1..], q, t, k)) ||
             (t != [] && (p[0] == STAR && exists k: nat :: MatchInTwo(p, q, t[1..], k))) ||
             (t != [] && p[0] != STAR && Accepts(p[0], t[0]) && exists k: nat :: MatchInTwo(p[1..], q, t[1..], k))
    ensures exists k: nat :: MatchInTwo(p, q, t, k)
  {
    hide Matches, Accepts;
    if p[0] == STAR && exists k: nat :: MatchInTwo(p[1..], q, t, k) {
      var k: nat :| MatchInTwo(p[1..], q, t, k);
      MatchesStep(p, t[..k]);
      assert MatchInTwo(p, q, t, k);
    } else {
      var k: nat :| MatchInTwo(if p[0] == STAR then p else p[1..], q, t[1..], k);
      MatchesStep(p, t[..k + 1]);
      assert t[..k + 1][1..] == t[1..][..k] && t[k + 1..] == t[1..][k..];
      assert MatchInTwo(p, q, t, k + 1);
    }
  }

  lemma BothToAhead(p: seq<byte>, q: seq<byte>, t: seq<byte>, k: nat)
    requires p != [] && MatchInTwo(p, q, t, k)
    ensures (p[0] == STAR && exists k: nat :: MatchInTwo(p[1..], q, t, k)) ||
            (t != [] && (p[0] == STAR && exists k: nat :: MatchInTwo(p, q, t[1..], k))) ||
            (t != [] && p[0] != STAR && Accepts(p[0], t[0]) && exists k: nat :: MatchInTwo(p[1..], q, t[1..], k))
  {
    hide Matches, Accepts;
    MatchesStep(p, t[..k]);
    if p[0] == STAR && Matches(p[1..], t[..k]) {
      assert MatchInTwo(p[1..], q, t, k);
    } else {
      assert t[..k][1..] == t[1..][..k - 1] && t[k..] == t[1..][k - 1..];
      assert MatchInTwo(if p[0] == STAR then p else p[1..], q, t[1..], k - 1);
    }
  }

  // ---- which rules apply ----

  /** Some pattern of a list matches the name; an absent list is every name. */
  ghost predicate Takes(globs: seq<Bytes>, name: Bytes) {
    globs == [] || exists g :: g in globs && Matches(g, name)
  }

  lemma AnyMatchesOne(globs: seq<Bytes>, names: seq<Bytes>)
    requires names != []
    ensures AnyMatches(globs, names) <==> exists n :: n in names && Takes(globs, n)
  {
    hide Matches;
    if AnyMatches(globs, names) {
      if globs == [] {
        assert names[0] in names && Takes(globs, names[0]);
      } else {
        var i, j :| 0 <= i < |globs| && 0 <= j < |names| && Matches(globs[i], names[j]);
        assert globs[i] in globs && names[j] in names && Takes(globs, names[j]);
      }
    }
    if n :| n in names && Takes(globs, n) {
      if globs != [] {
        var g :| g in globs && Matches(g, n);
        var i :| 0 <= i < |globs| && globs[i] == g;
        var j :| 0 <= j < |names| && names[j] == n;
        assert Matches(globs[i], names[j]);
      }
    }
  }

  /** A rule applies when its contexts take the context, its kinds the kind's id, display name or an alias,
      and its actions the action. */
  lemma RulesApply(r: Rule, s: Subject)
    ensures Applies(r, s) <==>
              && Takes(r.contexts, s.context)
              && (Takes(r.kinds, s.kind) || Takes(r.kinds, s.display) ||
                  exists a :: a in s.aliases && Takes(r.kinds, a))
              && Takes(r.actions, s.action)
  {
    AnyMatchesOne(r.contexts, [s.context]);
    AnyMatchesOne(r.kinds, KindNames(s));
    AnyMatchesOne(r.actions, [s.action]);
    hide AnyMatches, Takes;
    assert forall n :: n in KindNames(s) <==> n == s.kind || n == s.display || n in s.aliases;
  }

  // ---- the verdict ----

  function DenialOf(r: Rule): Option<Option<string>> { if r.deny then Some(r.reason) else None }

  function CapOf(r: Rule): Option<nat> { r.maxBulk }

  function ConfirmOf(r: Rule): Option<ConfirmKind> { r.confirm }

  /** Of the rules that apply, the first that sets something sets it to `v`. */
  ghost predicate IsSetTo<T(!new)>(rules: seq<Rule>, s: Subject, of: Rule -> Option<T>, v: T) {
    exists i :: 0 <= i < |rules| && Applies(rules[i], s) && of(rules[i]) == Some(v) &&
                forall j :: 0 <= j < i && Applies(rules[j], s) ==> of(rules[j]) == None
  }

  /** No rule that applies sets it. */
  ghost predicate IsUnset<T(!new)>(rules: seq<Rule>, s: Subject, of: Rule -> Option<T>) {
    forall j :: 0 <= j < |rules| && Applies(rules[j], s) ==> of(rules[j]) == None
  }

  ghost predicate CapIs(rules: seq<Rule>, s: Subject, n: nat) {
    IsSetTo(rules, s, CapOf, n) || (IsUnset(rules, s, CapOf) && n == 5)
  }

  ghost predicate ConfirmIs(rules: seq<Rule>, s: Subject, k: ConfirmKind) {
    IsSetTo(rules, s, ConfirmOf, k) || (IsUnset(rules, s, ConfirmOf) && k == Free)
  }

  /** The more that is asked of the two. */
  predicate IsMoreOf(k: ConfirmKind, a: ConfirmKind, b: ConfirmKind) {
    && (k == AskName <==> a == AskName || b == AskName)
    && (k == Free <==> a == Free && b == Free)
  }

  ghost function FirstOf<T(!new)>(rules: seq<Rule>, s: Subject, of: Rule -> Option<T>): Option<T> {
    if rules == [] then None
    else if Applies(rules[0], s) && of(rules[0]).Some? then of(rules[0])
    else FirstOf(rules[1..], s, of)
  }

  lemma {:induction false} FirstOfIsFirst<T(!new)>(rules: seq<Rule>, s: Subject, of: Rule -> Option<T>)
    ensures forall v :: FirstOf(rules, s, of) == Some(v) <==> IsSetTo(rules, s, of, v)
    ensures FirstOf(rules, s, of) == None <==> IsUnset(rules, s, of)
  {
    hide Applies;
    if rules != [] {
      var rest := rules[1..];
      FirstOfIsFirst(rest, s, of);
      assert forall i :: 1 <= i < |rules| ==> rules[i] == rest[i - 1];
      if Applies(rules[0], s) && of(rules[0]).Some? {
        assert IsSetTo(rules, s, of, of(rules[0]).value);
      } else {
        SetBehind(rules, s, of);
        hide IsSetTo;
      }
    }
  }

  /** A first rule that sets nothing is passed over. */
  lemma SetBehind<T(!new)>(rules: seq<Rule>, s: Subject, of: Rule -> Option<T>)
    requires rules != [] && (!Applies(rules[0], s) || of(rules[0]) == None)
    ensures forall v :: IsSetTo(rules[1..], s, of, v) <==> IsSetTo(rules, s, of, v)
  {
    hide Applies;
    var rest := rules[1..];
    assert forall i :: 0 <= i < |rest| ==> rest[i] == rules[i + 1];
    forall v | IsSetTo(rest, s, of, v) ensures IsSetTo(rules, s, of, v) {
      var i :| 0 <= i < |rest| && Applies(rest[i], s) && of(rest[i]) == Some(v) &&
               forall j :: 0 <= j < i && Applies(rest[j], s) ==> of(rest[j]) == None;
      assert Applies(rules[i + 1], s) && of(rules[i + 1]) == Some(v);
      assert forall j :: 1 <= j < i + 1 ==> rules[j] == rest[j - 1];
    }
    forall v | IsSetTo(rules, s, of, v) ensures IsSetTo(rest, s, of, v) {
      var i :| 0 <= i < |rules| && Applies(rules[i], s) && of(rules[i]) == Some(v) &&
               forall j :: 0 <= j < i && Applies(rules[j], s) ==> of(rules[j]) == None;
      assert Applies(rest[i - 1], s) && of(rest[i - 1]) == Some(v);
    }
  }

  lemma {:induction false} FirstsAreFirst(rules: seq<Rule>, s: Subject)
    ensures var applying := Applying(rules, s);
            && FirstOf(rules, s, CapOf) == FirstCap(applying)
            && FirstOf(rules, s, ConfirmOf) == FirstConfirm(applying)
            && FirstOf(rules, s, DenialOf) ==
                 if FirstDeny(applying).None? then None else Some(FirstDeny(applying).value.reason)
  {
    hide Applies;
    if rules != [] {
      FirstsAreFirst(rules[1..], s);
    }
  }

  /** What stands in the way before the number of rows is looked at. */
  ghost predicate IsOpen(readonly: bool, rules: seq<Rule>, s: Subject, missing: Option<seq<string>>) {
    !readonly && (forall j :: 0 <= j < |rules| && Applies(rules[j], s) ==> !rules[j].deny) && missing == None
  }

  lemma DenialsMean(rules: seq<Rule>, s: Subject)
    ensures var denied := FirstDeny(Applying(rules, s));
            && (denied.None? <==> IsUnset(rules, s, DenialOf))
            && (denied.None? <==> forall j :: 0 <= j < |rules| && Applies(rules[j], s) ==> !rules[j].deny)
            && (forall r :: IsSetTo(rules, s, DenialOf, r) <==> denied.Some? && denied.value.reason == r)
  {
    FirstsAreFirst(rules, s);
    FirstOfIsFirst(rules, s, DenialOf);
    assert IsUnset(rules, s, DenialOf) <==> forall j :: 0 <= j < |rules| && Applies(rules[j], s) ==> !rules[j].deny by {
      hide Applies;
    }
    hide Applies, Applying, FirstOf, IsSetTo, IsUnset, FirstDeny;
  }

  lemma CapsMean(rules: seq<Rule>, s: Subject)
    ensures forall n :: CapIs(rules, s, n) <==> n == OrElse(FirstCap(Applying(rules, s)), 5)
  {
    FirstsAreFirst(rules, s);
    FirstOfIsFirst(rules, s, CapOf);
    hide Applies, Applying, FirstOf, IsSetTo, IsUnset, FirstCap;
  }

  lemma ConfirmsMean(rules: seq<Rule>, s: Subject)
    ensures forall k :: ConfirmIs(rules, s, k) <==> k == OrElse(FirstConfirm(Applying(rules, s)), Free)
  {
    FirstsAreFirst(rules, s);
    FirstOfIsFirst(rules, s, ConfirmOf);
    hide Applies, Applying, FirstOf, IsSetTo, IsUnset, FirstConfirm;
  }

  /** Each verdict is given exactly when its own reason stands and no earlier one does. */
  lemma VerdictsMean(readonly: bool, rules: seq<Rule>, s: Subject, count: nat, missing: Option<seq<string>>)
    ensures var v := VerdictOf(readonly, rules, s, count, missing);
            && (v == ReadOnly <==> readonly)
            && (forall reason :: v == Deny(reason) <==> !readonly && IsSetTo(rules, s, DenialOf, reason))
            && (forall m :: v == NotPermitted(m) <==> !readonly && IsUnset(rules, s, DenialOf) && missing == Some(m))
            && (forall n :: v == TooMany(n) <==>
                  IsOpen(readonly, rules, s, missing) && CapIs(rules, s, n) && count > n)
    ensures var v := VerdictOf(readonly, rules, s, count, missing);
            forall n, k :: IsOpen(readonly, rules, s, missing) && CapIs(rules, s, n) && ConfirmIs(rules, s, k) &&
                           count <= n ==>
              && (v == Allow <==> k == Free && s.confirm == Free)
              && (v != Allow ==> v.Confirm? && v.kind != Free && IsMoreOf(v.kind, k, s.confirm))
    ensures (exists n :: CapIs(rules, s, n)) && exists k :: ConfirmIs(rules, s, k)
  {
    DenialsMean(rules, s);
    CapsMean(rules, s);
    ConfirmsMean(rules, s);
    assert CapIs(rules, s, OrElse(FirstCap(Applying(rules, s)), 5));
    assert ConfirmIs(rules, s, OrElse(FirstConfirm(Applying(rules, s)), Free));
    hide Applies, Applying, FirstOf, IsSetTo, IsUnset, CapIs, ConfirmIs, FirstDeny, FirstCap, FirstConfirm;
  }

  // ---- the rules in force ----

  /** A table that may stand in a file. */
  predicate IsSound(spec: Spec) {
    && (spec.confirm.Some? ==> spec.confirm.value == "none" || spec.confirm.value == "yes" ||
                               spec.confirm.value == "type-name")
    && spec.maxBulk != Some(0)
    && (spec.reason.Some? ==> spec.deny)
  }

  /** What a rule is, of the table it was read from. */
  predicate IsRuleOf(r: Rule, spec: Spec) {
    && r.contexts == spec.contexts && r.kinds == spec.kinds && r.actions == spec.actions
    && r.deny == spec.deny && r.reason == spec.reason && r.maxBulk == spec.maxBulk
    && (r.confirm == None <==> spec.confirm == None)
    && (r.confirm == Some(Free) <==> spec.confirm == Some("none"))
    && (r.confirm == Some(AskYes) <==> spec.confirm == Some("yes"))
    && (r.confirm == Some(AskName) <==> spec.confirm == Some("type-name"))
  }

  lemma OneTable(spec: Spec)
    ensures FromSpec(spec).Ok? <==> IsSound(spec)
    ensures FromSpec(spec).Ok? ==> IsRuleOf(FromSpec(spec).value, spec)
  {
    var confirm := spec.confirm;
    assert "none"[0] != "yes"[0] && "yes"[0] != "type-name"[0] && "none"[0] != "type-name"[0];
  }

  /** A file is taken exactly when each of its tables is sound; then its rules come first, in its order and
      as written, and the program's own three behind them. A file that is not names its first bad table. */
  lemma FilesMean(specs: seq<Spec>)
    ensures FromConfig(specs).Ok? <==> forall i :: 0 <= i < |specs| ==> IsSound(specs[i])
    ensures FromConfig(specs).Ok? ==>
              var rules := FromConfig(specs).value;
              && |rules| == |specs| + 3
              && (forall i :: 0 <= i < |specs| ==> IsRuleOf(rules[i], specs[i]))
              && rules[|specs|..] == BuiltIn()
    ensures FromConfig(specs).Err? ==>
              var n := FromConfig(specs).error.0;
              n < |specs| && !IsSound(specs[n]) && forall i :: 0 <= i < n ==> IsSound(specs[i])
  {
    ConfigIsItsTables(specs);
    forall i | 0 <= i < |specs|
      ensures FromSpec(specs[i]).Ok? <==> IsSound(specs[i])
      ensures FromSpec(specs[i]).Ok? ==> IsRuleOf(FromSpec(specs[i]).value, specs[i])
    {
      OneTable(specs[i]);
    }
    hide FromSpec, FromSpecs, IsSound, IsRuleOf, ASKED;
  }

  const ASKED_WORDS: seq<string> :=
    ["power-off", "power-cycle", "reset", "reboot", "shutdown", "guest-shutdown", "guest-reboot", "revert",
     "enter-host-maintenance"]

  /** An action's name is a word, whatever the case of its letters. */
  predicate IsWord(action: Bytes, word: string) {
    |action| == |word| && forall i :: 0 <= i < |word| ==> FoldTogether(word[i] as int, action[i] as int)
  }

  predicate IsPlainWord(word: string) {
    forall i :: 0 <= i < |word| ==> 'a' <= word[i] <= 'z' || word[i] == '-'
  }

  lemma WordMatches(word: string, action: Bytes)
    requires IsPlainWord(word)
    ensures Matches(Ascii(word), action) <==> IsWord(action, word)
  {
    var p := Ascii(word);
    LettersFold(word);
    hide Ascii, LowerByte, IsPlainWord;
    LiteralMatches(p, action, 0, 0);
    hide MatchesFrom, SameIgnoringCase;
    if Matches(p, action) {
      forall i | 0 <= i < |word| ensures FoldTogether(word[i] as int, action[i] as int) {
        assert SameIgnoringCase(p[i], action[i]);
      }
    }
  }

  lemma LettersFold(word: string)
    requires IsPlainWord(word)
    ensures var p := Ascii(word);
            && |p| == |word|
            && (forall i :: 0 <= i < |word| ==> p[i] != STAR && p[i] != QUESTION)
            && forall i, b :: 0 <= i < |word| ==>
                 (SameIgnoringCase(p[i], b) <==> FoldTogether(word[i] as int, b as int))
  {
    assert forall i :: 0 <= i < |word| ==> Ascii(word)[i] as int == word[i] as int;
  }

  lemma WordsMatch(words: seq<string>, globs: seq<Bytes>, action: Bytes)
    requires |words| == |globs| && words != []
    requires forall i :: 0 <= i < |words| ==> IsPlainWord(words[i]) && globs[i] == Ascii(words[i])
    ensures AnyMatches(globs, [action]) <==> exists i :: 0 <= i < |words| && IsWord(action, words[i])
  {
    forall i | 0 <= i < |words| ensures Matches(globs[i], action) <==> IsWord(action, words[i]) {
      WordMatches(words[i], action);
    }
    hide Matches, IsWord, Ascii;
    if i :| 0 <= i < |words| && IsWord(action, words[i]) {
      assert [action][0] == action && Matches(globs[i], [action][0]);
    }
  }

  lemma OwnRulesApply(s: Subject)
    ensures Applies(BuiltIn()[0], s) <==> IsWord(s.action, "delete")
    ensures Applies(BuiltIn()[1], s) <==> exists i :: 0 <= i < 9 && IsWord(s.action, ASKED_WORDS[i])
    ensures Applies(BuiltIn()[2], s)
  {
    var words := ["delete"];
    OwnWordsArePlain();
    hide IsPlainWord;
    WordsMatch(words, [Ascii("delete")], s.action);
    WordsMatch(ASKED_WORDS, ASKED, s.action);
    AbsentTakesAll([s.context]);
    AbsentTakesAll(KindNames(s));
    AbsentTakesAll([s.action]);
    hide AnyMatches, IsWord, Ascii, KindNames, ASKED, ASKED_WORDS;
    assert IsWord(s.action, words[0]) <==> exists i :: 0 <= i < |words| && IsWord(s.action, words[i]);
  }

  lemma OwnWordsArePlain()
    ensures IsPlainWord("delete") && |ASKED_WORDS| == |ASKED| == 9
    ensures forall i :: 0 <= i < 9 ==> IsPlainWord(ASKED_WORDS[i]) && ASKED[i] == Ascii(ASKED_WORDS[i])
  {
    hide Ascii;
  }

  lemma AbsentTakesAll(names: seq<Bytes>)
    ensures AnyMatches([], names)
  {
  }

  /** Without a file: five rows at most, a name for a delete, and a yes for the nine actions that stop or
      undo something, unless the action asks for more itself. */
  lemma OwnRulesMean(s: Subject, count: nat)
    ensures var v := VerdictOf(false, BuiltIn(), s, count, None);
            var asked := exists i :: 0 <= i < 9 && IsWord(s.action, ASKED_WORDS[i]);
            && (count > 5 <==> v == TooMany(5))
            && (v == Confirm(AskName) <==> count <= 5 && (IsWord(s.action, "delete") || s.confirm == AskName))
            && (v == Confirm(AskYes) <==>
                  count <= 5 && !IsWord(s.action, "delete") && s.confirm != AskName && (asked || s.confirm == AskYes))
            && (v == Allow <==> count <= 5 && !IsWord(s.action, "delete") && !asked && s.confirm == Free)
  {
    OwnRulesApply(s);
    OwnApplying(s);
    hide Applies, IsWord, Ascii, ASKED, ASKED_WORDS, BuiltIn, Applying, FirstDeny, FirstCap, FirstConfirm;
  }

  lemma OwnApplying(s: Subject)
    ensures var applying := Applying(BuiltIn(), s);
            && FirstDeny(applying) == None
            && FirstCap(applying) == Some(5)
            && FirstConfirm(applying) == (if Applies(BuiltIn()[0], s) then Some(AskName)
                                          else if Applies(BuiltIn()[1], s) then Some(AskYes) else None)
  {
    var rules := BuiltIn();
    OwnRulesApply(s);
    ApplyingStep(rules, s, 0);
    ApplyingStep(rules, s, 1);
    ApplyingStep(rules, s, 2);
    hide Applies, IsWord, Ascii, ASKED, ASKED_WORDS, Applying;
    assert rules[0..] == rules && rules[3..] == [];
    var last := if Applies(rules[1], s) then [rules[1]] else [];
    FirstOfConcat(last, [rules[2]]);
    FirstOfConcat(if Applies(rules[0], s) then [rules[0]] else [], last + [rules[2]]);
    assert Applying([], s) == [] && [rules[2]] + [] == [rules[2]];
  }
}
