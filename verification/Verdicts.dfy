/**
 The guardrail rules and what they say of an action (`crates/core/src/guardrails.rs`): which rule
 wins, and what no rule of a user's can switch off by accident.
 */
module Verdicts {
  import opened Wrappers
  import opened Guardrails

  type Bytes = seq<byte>

  datatype ConfirmKind = Free | AskYes | AskName

  function Rank(k: ConfirmKind): nat {
    match k
    case Free => 0
    case AskYes => 1
    case AskName => 2
  }

  function Max(a: ConfirmKind, b: ConfirmKind): ConfirmKind {
    if Rank(a) >= Rank(b) then a else b
  }

  datatype Rule = Rule(contexts: seq<Bytes>, kinds: seq<Bytes>, actions: seq<Bytes>, deny: bool,
                       reason: Option<string>, confirm: Option<ConfirmKind>, maxBulk: Option<nat>)

  /** What a rule is asked about: an action of a kind, in a context. */
  datatype Subject = Subject(context: Bytes, kind: Bytes, display: Bytes, aliases: seq<Bytes>,
                             action: Bytes, confirm: ConfirmKind)

  datatype Verdict =
    | Allow
    | Confirm(kind: ConfirmKind)
    | ReadOnly
    | Deny(reason: Option<string>)
    | NotPermitted(missing: seq<string>)
    | TooMany(max: nat)

  const DEFAULT_MAX_BULK: nat := 5

  // ---- matching ----

  /** An absent list is every name. */
  ghost predicate AnyMatches(globs: seq<Bytes>, names: seq<Bytes>) {
    globs == [] || exists i, j :: 0 <= i < |globs| && 0 <= j < |names| && Matches(globs[i], names[j])
  }

  function KindNames(s: Subject): seq<Bytes> { [s.kind, s.display] + s.aliases }

  ghost predicate Applies(r: Rule, s: Subject) {
    AnyMatches(r.contexts, [s.context]) && AnyMatches(r.kinds, KindNames(s)) && AnyMatches(r.actions, [s.action])
  }

  method MatchAny(globs: seq<Bytes>, names: seq<Bytes>) returns (found: bool)
    ensures found <==> AnyMatches(globs, names)
  {
    if globs == [] {
      return true;
    }
    hide Matches;
    for i := 0 to |globs|
      invariant forall k, j :: 0 <= k < i && 0 <= j < |names| ==> !Matches(globs[k], names[j])
    {
      for j := 0 to |names|
        invariant forall n :: 0 <= n < j ==> !Matches(globs[i], names[n])
      {
        var one, _ := Glob(globs[i], names[j]);
        if one {
          return true;
        }
      }
    }
    found := false;
  }

  method MatchRule(r: Rule, s: Subject) returns (found: bool)
    ensures found <==> Applies(r, s)
  {
    hide AnyMatches;
    var context := MatchAny(r.contexts, [s.context]);
    var kind := MatchAny(r.kinds, KindNames(s));
    var action := MatchAny(r.actions, [s.action]);
    found := context && kind && action;
  }

  // ---- the verdict ----

  /** The rules that apply, in order. */
  ghost function Applying(rules: seq<Rule>, s: Subject): seq<Rule> {
    if rules == [] then []
    else if Applies(rules[0], s) then [rules[0]] + Applying(rules[1..], s)
    else Applying(rules[1..], s)
  }

  function FirstDeny(rules: seq<Rule>): Option<Rule> {
    if rules == [] then None else if rules[0].deny then Some(rules[0]) else FirstDeny(rules[1..])
  }

  function FirstCap(rules: seq<Rule>): Option<nat> {
    if rules == [] then None else if rules[0].maxBulk.Some? then rules[0].maxBulk else FirstCap(rules[1..])
  }

  function FirstConfirm(rules: seq<Rule>): Option<ConfirmKind> {
    if rules == [] then None else if rules[0].confirm.Some? then rules[0].confirm else FirstConfirm(rules[1..])
  }

  function OrElse<T>(a: Option<T>, b: T): T { if a.Some? then a.value else b }

  /** `missing` is the roles can-i says are missing, when it says no. */
  ghost function VerdictOf(readonly: bool, rules: seq<Rule>, s: Subject, count: nat,
                           missing: Option<seq<string>>): Verdict {
    var applying := Applying(rules, s);
    if readonly then ReadOnly
    else if FirstDeny(applying).Some? then Deny(FirstDeny(applying).value.reason)
    else if missing.Some? then NotPermitted(missing.value)
    else if count > OrElse(FirstCap(applying), DEFAULT_MAX_BULK) then
      TooMany(OrElse(FirstCap(applying), DEFAULT_MAX_BULK))
    else
      var floor := Max(OrElse(FirstConfirm(applying), Free), s.confirm);
      if floor == Free then Allow else Confirm(floor)
  }

  lemma {:induction false} ApplyingStep(rules: seq<Rule>, s: Subject, i: nat)
    requires i < |rules|
    ensures Applying(rules[i..], s) ==
              (if Applies(rules[i], s) then [rules[i]] else []) + Applying(rules[i + 1..], s)
  {
    assert rules[i..][0] == rules[i] && rules[i..][1..] == rules[i + 1..];
    hide Applies;
  }

  lemma {:induction false} FirstOfConcat(a: seq<Rule>, b: seq<Rule>)
    ensures FirstDeny(a + b) == if FirstDeny(a).Some? then FirstDeny(a) else FirstDeny(b)
    ensures FirstCap(a + b) == if FirstCap(a).Some? then FirstCap(a) else FirstCap(b)
    ensures FirstConfirm(a + b) == if FirstConfirm(a).Some? then FirstConfirm(a) else FirstConfirm(b)
  {
    if a == [] {
      assert a + b == b;
    } else {
      assert (a + b)[1..] == a[1..] + b;
      FirstOfConcat(a[1..], b);
    }
  }

  /** One pass over the rules for what each of the three settings is first set to. */
  method Decide(readonly: bool, rules: seq<Rule>, s: Subject, count: nat, missing: Option<seq<string>>)
      returns (v: Verdict)
    ensures v == VerdictOf(readonly, rules, s, count, missing)
  {
    if readonly {
      return ReadOnly;
    }
    var denied := PassDeny(rules, s);
    if denied.Some? {
      return Deny(denied.value.reason);
    }
    if missing.Some? {
      return NotPermitted(missing.value);
    }
    var cap := PassCap(rules, s);
    var max := OrElse(cap, DEFAULT_MAX_BULK);
    if count > max {
      return TooMany(max);
    }
    var confirm := PassConfirm(rules, s);
    var floor := Max(OrElse(confirm, Free), s.confirm);
    v := if floor == Free then Allow else Confirm(floor);
  }

  method PassDeny(rules: seq<Rule>, s: Subject) returns (r: Option<Rule>)
    ensures r == FirstDeny(Applying(rules, s))
  {
    assert rules[0..] == rules;
    hide Applies;
    for i := 0 to |rules|
      invariant FirstDeny(Applying(rules[i..], s)) == FirstDeny(Applying(rules, s))
    {
      ApplyingStep(rules, s, i);
      var applies := MatchRule(rules[i], s);
      if applies {
        FirstOfConcat([rules[i]], Applying(rules[i + 1..], s));
        if rules[i].deny {
          return Some(rules[i]);
        }
      }
    }
    r := None;
  }

  method PassCap(rules: seq<Rule>, s: Subject) returns (r: Option<nat>)
    ensures r == FirstCap(Applying(rules, s))
  {
    assert rules[0..] == rules;
    hide Applies;
    for i := 0 to |rules|
      invariant FirstCap(Applying(rules[i..], s)) == FirstCap(Applying(rules, s))
    {
      ApplyingStep(rules, s, i);
      var applies := MatchRule(rules[i], s);
      if applies {
        FirstOfConcat([rules[i]], Applying(rules[i + 1..], s));
        if rules[i].maxBulk.Some? {
          return rules[i].maxBulk;
        }
      }
    }
    r := None;
  }

  method PassConfirm(rules: seq<Rule>, s: Subject) returns (r: Option<ConfirmKind>)
    ensures r == FirstConfirm(Applying(rules, s))
  {
    assert rules[0..] == rules;
    hide Applies;
    for i := 0 to |rules|
      invariant FirstConfirm(Applying(rules[i..], s)) == FirstConfirm(Applying(rules, s))
    {
      ApplyingStep(rules, s, i);
      var applies := MatchRule(rules[i], s);
      if applies {
        FirstOfConcat([rules[i]], Applying(rules[i + 1..], s));
        if rules[i].confirm.Some? {
          return rules[i].confirm;
        }
      }
    }
    r := None;
  }

  // ---- configuration ----

  datatype Spec = Spec(contexts: seq<Bytes>, kinds: seq<Bytes>, actions: seq<Bytes>, deny: bool,
                       reason: Option<string>, confirm: Option<string>, maxBulk: Option<nat>)

  datatype SpecError = BadConfirm | ZeroCap | IdleReason

  function FromSpec(spec: Spec): Result<Rule, SpecError> {
    if spec.confirm.Some? && spec.confirm.value !in ["none", "yes", "type-name"] then Err(BadConfirm)
    else if spec.maxBulk == Some(0) then Err(ZeroCap)
    else if spec.reason.Some? && !spec.deny then Err(IdleReason)
    else
      var confirm := if spec.confirm.None? then None
                     else Some(if spec.confirm.value == "none" then Free
                               else if spec.confirm.value == "yes" then AskYes else AskName);
      Ok(Rule(spec.contexts, spec.kinds, spec.actions, spec.deny, spec.reason, confirm, spec.maxBulk))
  }

  /** The rules of a file, or which table of it is wrong. */
  function FromSpecs(specs: seq<Spec>): Result<seq<Rule>, (nat, SpecError)> {
    if specs == [] then Ok([])
    else match FromSpec(specs[0])
      case Err(e) => Err((0, e))
      case Ok(r) =>
        match FromSpecs(specs[1..])
        case Err(e) => Err((e.0 + 1, e.1))
        case Ok(rs) => Ok([r] + rs)
  }

  function Ascii(s: string): Bytes {
    seq(|s|, i requires 0 <= i < |s| => (s[i] as int % 128) as byte)
  }

  function Asking(actions: seq<Bytes>, confirm: ConfirmKind): Rule {
    Rule([], [], actions, false, None, Some(confirm), None)
  }

  const ASKED: seq<Bytes> :=
    [Ascii("power-off"), Ascii("power-cycle"), Ascii("reset"), Ascii("reboot"), Ascii("shutdown"),
     Ascii("guest-shutdown"),
     Ascii("guest-reboot"), Ascii("revert"), Ascii("enter-host-maintenance")]

  function BuiltIn(): seq<Rule> {
    [Asking([Ascii("delete")], AskName), Asking(ASKED, AskYes),
     Rule([], [], [], false, None, None, Some(DEFAULT_MAX_BULK))]
  }

  /** The rules in force: a file's tables come before the program's own. */
  function FromConfig(specs: seq<Spec>): Result<seq<Rule>, (nat, SpecError)> {
    var rules :- FromSpecs(specs);
    Ok(rules + BuiltIn())
  }

  // ---- what the verdict promises ----

  lemma {:induction false} ApplyingConcat(a: seq<Rule>, b: seq<Rule>, s: Subject)
    ensures Applying(a + b, s) == Applying(a, s) + Applying(b, s)
  {
    if a == [] {
      assert a + b == b;
    } else {
      assert (a + b)[1..] == a[1..] + b;
      ApplyingConcat(a[1..], b, s);
    }
    hide Applies;
  }

  lemma {:induction false} ApplyingAreRules(rules: seq<Rule>, s: Subject)
    ensures forall r :: r in Applying(rules, s) <==> r in rules && Applies(r, s)
  {
    hide Applies;
    if rules != [] {
      ApplyingAreRules(rules[1..], s);
      assert rules == [rules[0]] + rules[1..];
    }
  }

  lemma {:induction false} FirstDenyIsOne(rules: seq<Rule>)
    ensures FirstDeny(rules).Some? <==> exists r :: r in rules && r.deny
  {
    if rules != [] {
      FirstDenyIsOne(rules[1..]);
      assert rules == [rules[0]] + rules[1..];
      if rules[0].deny {
        assert rules[0] in rules;
      }
    }
  }

  /** A denying rule that applies refuses, wherever it stands, and nothing but such a rule denies. */
  lemma DenyAnywhereRefuses(readonly: bool, rules: seq<Rule>, s: Subject, count: nat, missing: Option<seq<string>>)
    ensures VerdictOf(readonly, rules, s, count, missing).Deny? <==>
              !readonly && exists r :: r in rules && Applies(r, s) && r.deny
  {
    ApplyingAreRules(rules, s);
    FirstDenyIsOne(Applying(rules, s));
    hide Applies;
  }

  /** Which rules apply does not depend on what the action asks for itself. */
  lemma {:induction false} ApplyingWhateverAsked(rules: seq<Rule>, s: Subject, k: ConfirmKind)
    ensures Applying(rules, s.(confirm := k)) == Applying(rules, s)
  {
    if rules != [] {
      ApplyingWhateverAsked(rules[1..], s, k);
      assert Applies(rules[0], s.(confirm := k)) <==> Applies(rules[0], s);
      hide Applies;
    }
  }

  /** What a verdict that lets the action run asks for first. */
  function Asked(v: Verdict): Option<ConfirmKind> {
    match v
    case Allow => Some(Free)
    case Confirm(k) => Some(k)
    case _ => None
  }

  /** Rules raise what an action asks for itself, and never lower it: the action refused is refused
      whatever it asks, and otherwise what is asked is the higher of the rules' and the action's own. */
  lemma RulesOnlyRaise(readonly: bool, rules: seq<Rule>, s: Subject, count: nat, missing: Option<seq<string>>)
    ensures var v := VerdictOf(readonly, rules, s, count, missing);
            var ruled := VerdictOf(readonly, rules, s.(confirm := Free), count, missing);
            && (Asked(ruled).None? ==> v == ruled)
            && (Asked(ruled).Some? ==> Asked(v) == Some(Max(Asked(ruled).value, s.confirm)))
            && (Asked(v).Some? ==> Rank(Asked(v).value) >= Rank(s.confirm))
  {
    ApplyingWhateverAsked(rules, s, Free);
    hide Applying, FirstDeny, FirstCap, FirstConfirm;
  }

  /** One more denying rule, wherever it is put, refuses what it applies to and changes nothing else. */
  lemma OneDenialMore(readonly: bool, before: seq<Rule>, denial: Rule, behind: seq<Rule>, s: Subject, count: nat,
                      missing: Option<seq<string>>)
    requires denial.deny
    ensures var v := VerdictOf(readonly, before + [denial] + behind, s, count, missing);
            if Applies(denial, s) && !readonly then v.Deny?
            else v == VerdictOf(readonly, before + behind, s, count, missing)
  {
    ApplyingConcat(before + [denial], behind, s);
    ApplyingConcat(before, [denial], s);
    ApplyingConcat(before, behind, s);
    assert [denial][1..] == [];
    if Applies(denial, s) {
      assert denial in before + [denial] + behind;
      DenyAnywhereRefuses(readonly, before + [denial] + behind, s, count, missing);
    } else {
      assert Applying([denial], s) == [];
      assert Applying(before, s) + [] == Applying(before, s);
    }
    hide Applies, FirstDeny, FirstCap, FirstConfirm;
  }

  /** A pattern without `*` and `?` is a name, whatever its case. */
  lemma {:induction false} LiteralMatches(p: Bytes, t: Bytes, i: nat, j: nat)
    requires forall k :: 0 <= k < |p| ==> p[k] != STAR && p[k] != QUESTION
    requires i <= |p| && j <= |t|
    ensures MatchesFrom(p, t, i, j) <==>
              |p| - i == |t| - j && forall k :: i <= k < |p| ==> SameIgnoringCase(p[k], t[k - i + j])
    decreases |p| - i
  {
    if i < |p| && j < |t| {
      LiteralMatches(p, t, i + 1, j + 1);
      assert |p| - i == |t| - j && (forall k :: i <= k < |p| ==> SameIgnoringCase(p[k], t[k - i + j])) ==>
             SameIgnoringCase(p[i], t[j]);
    }
  }

  predicate IsDelete(action: Bytes) {
    |action| == 6 && forall k :: 0 <= k < 6 ==> SameIgnoringCase(Ascii("delete")[k], action[k])
  }

  lemma DeleteIsAsked(s: Subject)
    requires IsDelete(s.action)
    ensures Applies(BuiltIn()[0], s)
  {
    var p := Ascii("delete");
    LiteralMatches(p, s.action, 0, 0);
    assert [p][0] == p && [s.action][0] == s.action;
    assert Matches([p][0], [s.action][0]);
    hide MatchesFrom;
  }

  /** A delete runs unasked only when a rule of the user's says so by name of its own setting: without
      one that applies and sets `confirm`, a delete is refused or asks for the name. */
  lemma DeleteIsNeverSilent(readonly: bool, users: seq<Rule>, s: Subject, count: nat, missing: Option<seq<string>>)
    requires IsDelete(s.action)
    ensures var v := VerdictOf(readonly, users + BuiltIn(), s, count, missing);
            (v.Allow? || v.Confirm?) && v != Confirm(AskName) ==>
              exists r :: r in users && Applies(r, s) && r.confirm.Some? && r.confirm != Some(AskName)
  {
    var mine, built := Applying(users, s), Applying(BuiltIn(), s);
    DeleteIsAsked(s);
    ApplyingConcat(users, BuiltIn(), s);
    FirstOfConcat(mine, built);
    assert FirstConfirm(built) == Some(AskName) by {
      hide Applies;
    }
    ApplyingAreRules(users, s);
    FirstConfirmValue(mine);
    hide Applies, Applying;
  }

  lemma {:induction false} FirstConfirmValue(rules: seq<Rule>)
    ensures FirstConfirm(rules).Some? ==> exists r :: r in rules && r.confirm == FirstConfirm(rules)
  {
    if rules != [] {
      FirstConfirmValue(rules[1..]);
      assert rules == [rules[0]] + rules[1..];
      if rules[0].confirm.Some? {
        assert rules[0] in rules;
      }
    }
  }

  /** A user's rule wins over a built-in one: the cap and the confirmation are the user's when a rule
      of theirs that applies sets them. */
  lemma UserRulesWin(users: seq<Rule>, s: Subject)
    ensures var all, mine := Applying(users + BuiltIn(), s), Applying(users, s);
            && (FirstCap(mine).Some? ==> FirstCap(all) == FirstCap(mine))
            && (FirstCap(mine).None? ==> FirstCap(all) == Some(DEFAULT_MAX_BULK))
            && (FirstConfirm(mine).Some? ==> FirstConfirm(all) == FirstConfirm(mine))
  {
    ApplyingConcat(users, BuiltIn(), s);
    FirstOfConcat(Applying(users, s), Applying(BuiltIn(), s));
    hide Applies;
    LastBuiltInApplies(s);
  }

  lemma LastBuiltInApplies(s: Subject)
    ensures FirstCap(Applying(BuiltIn(), s)) == Some(DEFAULT_MAX_BULK)
  {
    var rules := BuiltIn();
    assert Applies(rules[2], s);
    hide Applies;
    ApplyingStep(rules, s, 0);
    ApplyingStep(rules, s, 1);
    ApplyingStep(rules, s, 2);
    assert rules[0..] == rules && rules[3..] == [];
  }

  /** A file is refused for its first wrong table, and its rules are its tables in order; no cap is
      zero and no reason stands on a rule that does not deny. */
  lemma {:induction false} ConfigIsItsTables(specs: seq<Spec>)
    ensures FromSpecs(specs).Err? ==>
              var e := FromSpecs(specs).error;
              e.0 < |specs| && FromSpec(specs[e.0]) == Err(e.1) && forall i :: 0 <= i < e.0 ==> FromSpec(specs[i]).Ok?
    ensures FromSpecs(specs).Ok? ==>
              var rules := FromSpecs(specs).value;
              |rules| == |specs| && forall i :: 0 <= i < |specs| ==>
                FromSpec(specs[i]) == Ok(rules[i]) && rules[i].maxBulk != Some(0) &&
                (rules[i].reason.Some? ==> rules[i].deny)
  {
    if specs != [] {
      ConfigIsItsTables(specs[1..]);
      assert forall i :: 1 <= i < |specs| ==> specs[i] == specs[1..][i - 1];
    }
  }

  /** With a file that sets no confirmation anywhere, a delete is refused or asks for the name. */
  lemma ConfiguredDeleteAsks(specs: seq<Spec>, readonly: bool, s: Subject, count: nat, missing: Option<seq<string>>)
    requires FromConfig(specs).Ok? && IsDelete(s.action)
    requires forall i :: 0 <= i < |specs| ==> specs[i].confirm.None?
    ensures var v := VerdictOf(readonly, FromConfig(specs).value, s, count, missing);
            v != Allow && (v.Confirm? ==> v.kind == AskName)
  {
    ConfigIsItsTables(specs);
    var users := FromSpecs(specs).value;
    DeleteIsNeverSilent(readonly, users, s, count, missing);
    forall r | r in users ensures r.confirm.None? {
      var i :| 0 <= i < |users| && users[i] == r;
      assert FromSpec(specs[i]) == Ok(r);
    }
    hide VerdictOf, Applies, IsDelete, FromSpecs;
  }
}
