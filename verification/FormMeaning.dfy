/**
 What each field of a form sends, from what was entered, its seed and the row, and when a form is
 refused (`build_body` and `expand` in `crates/core/src/actions.rs`).
 */
module FormMeaning {
  import opened Wrappers
  import T = Text
  import opened Json
  import opened WritePath
  import opened Body
  import opened Actions
  import opened Forms
  import Calendar

  // ---- whole numbers ----

  function Zeros(k: nat): string { seq(k, _ => '0') }

  /** The decimal digits of a number, any zeros in front. */
  ghost predicate IsNumeral(s: string, n: nat) {
    exists k: nat :: s == Zeros(k) + T.NatText(n)
  }

  /** What `u64` parses: a numeral within its range, one `+` allowed. */
  ghost predicate IsUnsigned(s: string, n: nat) {
    n <= 18446744073709551615 && (IsNumeral(s, n) || (s != "" && s[0] == '+' && IsNumeral(s[1..], n)))
  }

  /** What `i64` parses: a numeral within its range, one sign allowed. */
  ghost predicate IsWhole(s: string, n: int) {
    && -9223372036854775808 <= n <= 9223372036854775807
    && (|| (n >= 0 && (IsNumeral(s, n) || (s != "" && s[0] == '+' && IsNumeral(s[1..], n))))
        || (n <= 0 && s != "" && s[0] == '-' && IsNumeral(s[1..], -n)))
  }

  lemma {:induction false} NumeralsAreDigits(s: string, n: nat)
    ensures IsNumeral(s, n) <==> s != "" && T.All(s, T.IsDigit) && T.NatOf(s) == n
  {
    if k: nat :| s == Zeros(k) + T.NatText(n) {
      T.NatOfNatText(n);
      ZerosInFront(k, T.NatText(n));
    }
    if s != "" && T.All(s, T.IsDigit) {
      var k := ZerosOf(s);
      assert s == Zeros(k) + T.NatText(T.NatOf(s));
    }
  }

  lemma {:induction false} ZerosInFront(k: nat, s: string)
    requires T.All(s, T.IsDigit)
    ensures T.All(Zeros(k) + s, T.IsDigit) && T.NatOf(Zeros(k) + s) == T.NatOf(s)
    decreases |s|, k
  {
    if s != "" {
      var t := Zeros(k) + s;
      assert t[..|t| - 1] == Zeros(k) + s[..|s| - 1];
      ZerosInFront(k, s[..|s| - 1]);
    } else if k > 0 {
      var t := Zeros(k) + s;
      assert t[..|t| - 1] == Zeros(k - 1) + s;
      ZerosInFront(k - 1, s);
    }
  }

  lemma {:induction false} ZerosOf(s: string) returns (k: nat)
    requires s != "" && T.All(s, T.IsDigit)
    ensures s == Zeros(k) + T.NatText(T.NatOf(s))
  {
    var t, c := s[..|s| - 1], s[|s| - 1];
    var d := c as int - '0' as int;
    assert s == t + [c] && T.Digit(d) == c;
    if t == "" {
      k := 0;
      assert T.NatOf(s) == d && T.NatText(d) == [c];
    } else {
      var m := T.NatOf(t);
      var before := ZerosOf(t);
      assert T.NatOf(s) == m * 10 + d;
      if m > 0 {
        k := before;
        assert T.NatText(m * 10 + d) == T.NatText(m) + [c];
      } else {
        k := before + 1;
        assert T.NatText(0) == "0" && T.NatText(d) == [c];
      }
    }
  }

  lemma UnsignedParse(s: string, n: nat)
    ensures ParseUsize(s) == Some(n) <==> IsUnsigned(s, n)
  {
    NumeralsAreDigits(s, n);
    if s != "" {
      NumeralsAreDigits(s[1..], n);
      assert s[0] == '+' <==> "+" <= s;
      assert s[0] == '+' ==> !T.IsDigit(s[0]);
    }
    hide T.NatOf, IsNumeral;
  }

  lemma WholeParse(s: string, n: int)
    ensures ParseI64(s) == Some(n) <==> IsWhole(s, n)
  {
    var m := if n < 0 then -n else n;
    NumeralsAreDigits(s, m);
    if s != "" {
      NumeralsAreDigits(s[1..], m);
      assert T.IsSign(s[0]) ==> !T.IsDigit(s[0]);
      assert s[0] == '-' <==> "-" <= s;
    }
    hide T.NatOf, IsNumeral;
  }

  // ---- the text of a field ----

  predicate NothingEntered(f: Field, s: Submission) {
    f.name in s.entered ==> s.entered[f.name] == ""
  }

  /** `$now+<n>d` */
  ghost predicate IsDaysFromNow(seed: string, n: nat) {
    "$now+" <= seed && |seed| >= 6 && seed[|seed| - 1] == 'd' && IsUnsigned(seed[5..|seed| - 1], n)
  }

  predicate IsInRange(n: nat, now: int) {
    n * 86400 <= 18446744073709551615 && now + n * 86400 <= 9223372036854775807
  }

  predicate IsSubstitution(seed: string) { seed != "" && seed[0] == '$' }

  /** What a seed stands for: itself, the row's id, or a time some days from now. */
  ghost predicate StandsFor(seed: string, s: Submission, raw: string) {
    if !IsSubstitution(seed) then raw == seed
    else if seed == "$ext_id" then raw == s.entity.extId
    else exists n: nat :: IsDaysFromNow(seed, n) && IsInRange(n, s.now) && raw == TimeText(s.now + n * 86400)
  }

  /** What was entered, or without that what the seed stands for. */
  ghost predicate TextIs(f: Field, s: Submission, raw: string) {
    if NothingEntered(f, s) then f.value.Some? && StandsFor(f.value.value, s, raw)
    else raw == s.entered[f.name]
  }

  /** The days a seed asks for, as the program reads them. */
  function DaysIn(seed: string): Option<nat> {
    if T.StartsWith(seed, "$now+") && T.EndsWith(seed[5..], "d") then ParseUsize(seed[5..|seed| - 1]) else None
  }

  lemma DaysAre(seed: string, n: nat)
    ensures IsDaysFromNow(seed, n) <==> DaysIn(seed) == Some(n)
  {
    if "$now+" <= seed {
      LastLetter(seed);
      if |seed| >= 6 {
        UnsignedParse(seed[5..|seed| - 1], n);
      }
    }
    hide IsUnsigned, ParseUsize, T.EndsWith;
  }

  lemma ExpandsTo(seed: string, entity: Entity, now: int)
    ensures var e, n := Expand(seed, entity, now), DaysIn(seed);
            if !IsSubstitution(seed) then e == Ok(seed)
            else if seed == "$ext_id" then e == Ok(entity.extId)
            else if n.None? then e == Err(UnknownSubstitution)
            else if !IsInRange(n.value, now) then e == Err(OutOfRange)
            else e == Ok(TimeText(now + n.value * 86400))
  {
    StartsOnADollar(seed);
    hide TimeText, ParseUsize, IsSubstitution, T.StartsWith, T.EndsWith, U64_MAX, Calendar.I64_MAX;
    LimitsAre();
  }

  lemma LimitsAre()
    ensures U64_MAX == 18446744073709551615 && Calendar.I64_MAX == 9223372036854775807
  {}

  lemma StartsOnADollar(seed: string)
    ensures IsSubstitution(seed) <==> T.StartsWith(seed, "$")
  {}

  lemma SeedsStand(seed: string, s: Submission)
    ensures var e := Expand(seed, s.entity, s.now);
            && (forall raw :: e == Ok(raw) <==> StandsFor(seed, s, raw))
            && (e == Err(UnknownSubstitution) <==>
                  IsSubstitution(seed) && seed != "$ext_id" && !exists n: nat :: IsDaysFromNow(seed, n))
            && (e == Err(OutOfRange) <==>
                  IsSubstitution(seed) && seed != "$ext_id" &&
                  exists n: nat :: IsDaysFromNow(seed, n) && !IsInRange(n, s.now))
            && (e.Err? ==> e.error.UnknownSubstitution? || e.error.OutOfRange?)
  {
    ExpandsTo(seed, s.entity, s.now);
    DaysAsked(seed, s);
    forall raw ensures Expand(seed, s.entity, s.now) == Ok(raw) <==> StandsFor(seed, s, raw) {
      TimesStand(seed, s, raw);
    }
    hide *;
  }

  lemma DaysAsked(seed: string, s: Submission)
    ensures DaysIn(seed).Some? <==> exists n: nat :: IsDaysFromNow(seed, n)
    ensures DaysIn(seed).Some? && !IsInRange(DaysIn(seed).value, s.now) <==>
              exists n: nat :: IsDaysFromNow(seed, n) && !IsInRange(n, s.now)
  {
    forall n: nat ensures IsDaysFromNow(seed, n) <==> DaysIn(seed) == Some(n) {
      DaysAre(seed, n);
    }
    hide *;
    if DaysIn(seed).Some? {
      assert IsDaysFromNow(seed, DaysIn(seed).value);
    }
  }

  lemma TimesStand(seed: string, s: Submission, raw: string)
    ensures Expand(seed, s.entity, s.now) == Ok(raw) <==> StandsFor(seed, s, raw)
  {
    hide TimeText, Expand, DaysIn, IsDaysFromNow, IsInRange, IsSubstitution;
    ExpandsTo(seed, s.entity, s.now);
    if IsSubstitution(seed) && seed != "$ext_id" {
      var days := DaysIn(seed);
      forall n: nat ensures IsDaysFromNow(seed, n) <==> days == Some(n) {
        DaysAre(seed, n);
      }
      assert StandsFor(seed, s, raw) <==>
             exists n: nat :: IsDaysFromNow(seed, n) && IsInRange(n, s.now) && raw == TimeText(s.now + n * 86400);
      hide StandsFor;
      if days.Some? {
        assert IsDaysFromNow(seed, days.value);
      }
    }
  }

  lemma LastLetter(seed: string)
    requires "$now+" <= seed
    ensures T.EndsWith(seed[5..], "d") <==> |seed| >= 6 && seed[|seed| - 1] == 'd'
  {
    var t := seed[5..];
    if |t| >= 1 {
      assert t[|t| - 1..] == [t[|t| - 1]] && t[|t| - 1] == seed[|seed| - 1];
    }
  }

  // ---- what a field sends ----

  /** What a text is for a field's type. */
  ghost predicate ValueIs(f: Field, raw: string, codec: Codec, v: Value) {
    match f.ty
    case Text => v == String(raw)
    case Enum(_) => v == String(raw)
    case Bool => v == Value.Bool(raw == "true" || raw == "yes")
    case Integer => v.Number? && IsWhole(raw, v.n)
    case Json(_) => codec.read(raw) == Some(v)
    case Reference(_) =>
      var own := codec.read(raw);
      if IsIdPath(f.name) then v == String(raw)
      else if own.Some? && own.value.Object? then v == own.value
      else v == Object([Member("extId", String(raw))])
  }

  lemma TextsAreTyped(f: Field, raw: string, codec: Codec)
    ensures var r := Typed(f, raw, codec);
            && (forall v :: r == Ok(v) <==> ValueIs(f, raw, codec, v))
            && (r == Err(NotAWholeNumber) <==> f.ty.Integer? && !exists n :: IsWhole(raw, n))
            && (r == Err(BadJson) <==> f.ty.Json? && codec.read(raw) == None)
            && (r.Err? ==> r.error.NotAWholeNumber? || r.error.BadJson?)
  {
    forall n ensures ParseI64(raw) == Some(n) <==> IsWhole(raw, n) {
      WholeParse(raw, n);
    }
    hide ParseI64, IsWhole, IsIdPath;
    assert ParseI64(raw).Some? <==> exists n :: IsWhole(raw, n);
  }

  lemma FieldTexts(f: Field, s: Submission)
    ensures var r := RawText(f, s);
            && (forall raw :: r == Ok(Some(raw)) <==> TextIs(f, s, raw))
            && (r == Ok(None) <==> NothingEntered(f, s) && f.value.None? && !f.required)
            && (r == Err(Missing) <==> NothingEntered(f, s) && f.value.None? && f.required)
            && (r.Err? && r.error != Missing ==>
                  NothingEntered(f, s) && f.value.Some? && r.error == Expand(f.value.value, s.entity, s.now).error)
            && (NothingEntered(f, s) && f.value.Some? && Expand(f.value.value, s.entity, s.now).Err? ==>
                  r == Err(Expand(f.value.value, s.entity, s.now).error))
  {
    if f.value.Some? {
      SeedsStand(f.value.value, s);
    }
    hide Expand, StandsFor, IsSubstitution;
  }

  /** The field's own seed is turned down for this reason. */
  ghost predicate HasUnknownSeed(f: Field, s: Submission) {
    && NothingEntered(f, s) && f.value.Some?
    && var seed := f.value.value;
       IsSubstitution(seed) && seed != "$ext_id" && !exists n: nat :: IsDaysFromNow(seed, n)
  }

  ghost predicate HasSeedOutOfRange(f: Field, s: Submission) {
    && NothingEntered(f, s) && f.value.Some?
    && var seed := f.value.value;
       IsSubstitution(seed) && seed != "$ext_id" && exists n: nat :: IsDaysFromNow(seed, n) && !IsInRange(n, s.now)
  }

  /** What a field sends, when it sends nothing, and each reason it is refused for. */
  lemma FieldsSend(f: Field, s: Submission)
    ensures var r := Sent(f, s);
            && (forall v :: r == Ok(Some(v)) <==> exists raw :: TextIs(f, s, raw) && ValueIs(f, raw, s.codec, v))
            && (r == Ok(None) <==> NothingEntered(f, s) && f.value.None? && !f.required)
            && (r == Err(Missing) <==> NothingEntered(f, s) && f.value.None? && f.required)
            && (r == Err(UnknownSubstitution) <==> HasUnknownSeed(f, s))
            && (r == Err(OutOfRange) <==> HasSeedOutOfRange(f, s))
            && (r == Err(NotAWholeNumber) <==>
                  f.ty.Integer? && exists raw :: TextIs(f, s, raw) && !exists n :: IsWhole(raw, n))
            && (r == Err(BadJson) <==> f.ty.Json? && exists raw :: TextIs(f, s, raw) && s.codec.read(raw) == None)
            && (r.Err? ==> !r.error.BadWrite?)
  {
    FieldTexts(f, s);
    if f.value.Some? {
      SeedsStand(f.value.value, s);
    }
    var r := RawText(f, s);
    hide RawText, Expand, Typed, StandsFor, IsSubstitution, IsDaysFromNow, IsInRange, TextIs, ValueIs, NothingEntered;
    if r.Ok? && r.value.Some? {
      TextsAreTyped(f, r.value.value, s.codec);
    }
  }

  // ---- when a form is refused ----

  /** The fields before `k` build a body, and field `k` is refused, or its write into that body is. */
  predicate StopsAt(fields: seq<Field>, s: Submission, k: nat, e: FormError) {
    && k < |fields| && BuildFrom(Object([]), fields[..k], s).Ok?
    && var body, sent := BuildFrom(Object([]), fields[..k], s).value, Sent(fields[k], s);
       || sent == Err(e)
       || (sent.Ok? && sent.value.Some? && e.BadWrite? &&
           WriteNamed(body, fields[k].name, sent.value.value) == Err(e.error))
  }

  lemma {:induction false} BuildInTwo(body: Value, a: seq<Field>, b: seq<Field>, s: Submission)
    ensures var first := BuildFrom(body, a, s);
            BuildFrom(body, a + b, s) == if first.Ok? then BuildFrom(first.value, b, s) else first
    decreases |a|
  {
    if a == [] {
      assert a + b == b;
    } else {
      assert (a + b)[1..] == a[1..] + b;
      var v := Sent(a[0], s);
      hide Sent, WriteNamed;
      if v.Ok? && v.value.None? {
        BuildInTwo(body, a[1..], b, s);
      } else if v.Ok? && WriteNamed(body, a[0].name, v.value.value).Ok? {
        BuildInTwo(WriteNamed(body, a[0].name, v.value.value).value, a[1..], b, s);
      }
    }
  }

  lemma OneMore(fields: seq<Field>, s: Submission, k: nat)
    requires k < |fields| && BuildFrom(Object([]), fields[..k], s).Ok?
    ensures var body, sent := BuildFrom(Object([]), fields[..k], s).value, Sent(fields[k], s);
            var next := BuildFrom(Object([]), fields[..k + 1], s);
            && (next.Ok? <==> forall e :: !StopsAt(fields, s, k, e))
            && (next.Err? ==> StopsAt(fields, s, k, next.error))
            && (forall e :: StopsAt(fields, s, k, e) ==> next == Err(e))
  {
    var body, f := BuildFrom(Object([]), fields[..k], s).value, fields[k];
    assert fields[..k + 1] == fields[..k] + [f];
    BuildInTwo(Object([]), fields[..k], [f], s);
    BuildStep(body, [f], 0, s);
    assert [f][0..] == [f] && [f][1..] == [];
    assert BuildFrom(Object([]), fields[..k + 1], s) == BuildFrom(body, [f], s);
    assert forall b :: BuildFrom(b, [], s) == Ok(b);
    hide Sent, WriteNamed, BuildFrom;
    var next := BuildFrom(Object([]), fields[..k + 1], s);
    assert next.Err? ==> StopsAt(fields, s, k, next.error);
  }

  lemma {:induction false} NothingStops(fields: seq<Field>, s: Submission, k: nat)
    requires k <= |fields|
    ensures BuildFrom(Object([]), fields[..k], s).Ok? <==> forall i, e :: 0 <= i < k ==> !StopsAt(fields, s, i, e)
    ensures forall e :: BuildFrom(Object([]), fields[..k], s) == Err(e) ==>
              exists i :: 0 <= i < k && StopsAt(fields, s, i, e)
  {
    if k > 0 {
      hide BuildFrom, StopsAt;
      NothingStops(fields, s, k - 1);
      if BuildFrom(Object([]), fields[..k - 1], s).Ok? {
        OneMore(fields, s, k - 1);
      } else {
        assert fields[..k] == fields[..k - 1] + [fields[k - 1]];
        BuildInTwo(Object([]), fields[..k - 1], [fields[k - 1]], s);
      }
    } else {
      assert fields[..0] == [];
    }
  }

  lemma StoppedFormsEnd(fields: seq<Field>, s: Submission, i: nat, e: FormError, k: nat)
    requires StopsAt(fields, s, i, e) && i < k <= |fields|
    ensures BuildFrom(Object([]), fields[..k], s) == Err(e)
  {
    hide BuildFrom, Sent, WriteNamed;
    OneMore(fields, s, i);
    hide StopsAt;
    assert BuildFrom(Object([]), fields[..i + 1], s) == Err(e);
    assert fields[..k] == fields[..i + 1] + fields[i + 1..k];
    BuildInTwo(Object([]), fields[..i + 1], fields[i + 1..k], s);
  }

  /** A form is refused exactly when some field stops it, with that field's error; it is one field. */
  lemma FormsAreRefused(fields: seq<Field>, s: Submission)
    ensures forall e :: BuildFrom(Object([]), fields, s) == Err(e) <==> exists k: nat :: StopsAt(fields, s, k, e)
    ensures forall i: nat, j: nat, d, e :: StopsAt(fields, s, i, d) && StopsAt(fields, s, j, e) ==> i == j && d == e
  {
    assert fields[..|fields|] == fields;
    NothingStops(fields, s, |fields|);
    hide BuildFrom;
    forall i: nat, e | StopsAt(fields, s, i, e)
      ensures BuildFrom(Object([]), fields, s) == Err(e)
      ensures forall j: nat, d :: StopsAt(fields, s, j, d) ==> j <= i
    {
      StoppedFormsEnd(fields, s, i, e, |fields|);
      forall j: nat, d | StopsAt(fields, s, j, d) ensures j <= i {
        if j > i {
          StoppedFormsEnd(fields, s, i, e, j);
        }
      }
    }
    hide StopsAt;
  }
}
