/** What a form's body holds, and that a form left untouched changes nothing. */
module FormLaws {
  import opened Wrappers
  import opened Text
  import opened Json
  import opened WritePath
  import opened Body
  import opened Calendar
  import opened Stamps
  import opened Actions
  import opened Forms

  // ---- what a body holds ----

  /** No field writes through another. */
  predicate NamesApart(fields: seq<Field>) {
    forall i, j :: 0 <= i < |fields| && 0 <= j < |fields| && i != j ==>
      Apart(PathOf(fields[i].name), PathOf(fields[j].name))
  }

  predicate Sends(f: Field, s: Submission) {
    Sent(f, s).Ok? && Sent(f, s).value.Some?
  }

  /** A path no field that sends anything leads through or into. */
  predicate IsElsewhere(q: seq<Step>, fields: seq<Field>, s: Submission) {
    forall i :: 0 <= i < |fields| && Sends(fields[i], s) ==> Apart(PathOf(fields[i].name), q)
  }

  lemma BuildOneField(body: Value, fields: seq<Field>, s: Submission)
    requires fields != [] && BuildFrom(body, fields, s).Ok?
    ensures Sent(fields[0], s).Ok?
    ensures !Sends(fields[0], s) ==> BuildFrom(body, fields, s) == BuildFrom(body, fields[1..], s)
    ensures Sends(fields[0], s) ==>
              var w := WriteNamed(body, fields[0].name, Sent(fields[0], s).value.value);
              w.Ok? && BuildFrom(body, fields, s) == BuildFrom(w.value, fields[1..], s)
  {
    hide Sent, WriteNamed;
  }

  /** The fields write nowhere else. */
  lemma {:induction false} BodyKeepsTheRest(body: Value, fields: seq<Field>, s: Submission, q: seq<Step>)
    requires BuildFrom(body, fields, s).Ok? && IsElsewhere(q, fields, s)
    ensures Seen(BuildFrom(body, fields, s).value, q) == Seen(body, q)
    decreases |fields|
  {
    if fields != [] {
      var f, rest := fields[0], fields[1..];
      BuildOneField(body, fields, s);
      assert forall i :: 0 <= i < |rest| ==> rest[i] == fields[i + 1];
      if Sends(f, s) {
        var x := Sent(f, s).value.value;
        var w := WriteNamed(body, f.name, x).value;
        assert Apart(PathOf(f.name), q);
        hide BuildFrom, Sends, Apart, PathOf, Seen, Write;
        BodyKeepsTheRest(w, rest, s, q);
        WriteLeavesTheRest(body, PathOf(f.name), x, q);
      } else {
        hide BuildFrom, Sends, Apart, PathOf, Seen;
        BodyKeepsTheRest(body, rest, s, q);
      }
    }
  }

  /** What is to be seen where a field writes: its value, or what was there. */
  function Shown(f: Field, s: Submission, body: Value): Value {
    if Sends(f, s) then Sent(f, s).value.value else Seen(body, PathOf(f.name))
  }

  lemma FirstFieldLands(body: Value, fields: seq<Field>, s: Submission)
    requires BuildFrom(body, fields, s).Ok? && NamesApart(fields) && fields != []
    ensures Seen(BuildFrom(body, fields, s).value, PathOf(fields[0].name)) == Shown(fields[0], s, body)
    ensures Sends(fields[0], s) ==> ValidFieldName(fields[0].name)
  {
    var f, rest := fields[0], fields[1..];
    var path := PathOf(f.name);
    BuildOneField(body, fields, s);
    assert forall i :: 0 <= i < |rest| ==> Apart(PathOf(rest[i].name), path) by {
      assert forall i :: 0 <= i < |rest| ==> rest[i] == fields[i + 1];
    }
    if Sends(f, s) {
      var x := Sent(f, s).value.value;
      ReadAfterWrite(body, path, x);
      hide BuildFrom, Apart, PathOf, Write, Sent, ValidFieldName;
      BodyKeepsTheRest(WriteNamed(body, f.name, x).value, rest, s, path);
    } else {
      hide BuildFrom, Apart, PathOf, Write, Sent, Seen;
      BodyKeepsTheRest(body, rest, s, path);
    }
  }

  /** A field's write shows at no later field's place. */
  lemma LaterFieldsUnmoved(body: Value, fields: seq<Field>, s: Submission, k: nat)
    requires BuildFrom(body, fields, s).Ok? && NamesApart(fields) && 0 < k < |fields| && Sends(fields[0], s)
    ensures var w := WriteNamed(body, fields[0].name, Sent(fields[0], s).value.value);
            w.Ok? && Shown(fields[k], s, w.value) == Shown(fields[k], s, body)
  {
    BuildOneField(body, fields, s);
    hide BuildFrom, Apart, PathOf, Write, Sent, Seen, Sends, ValidFieldName;
    WriteLeavesTheRest(body, PathOf(fields[0].name), Sent(fields[0], s).value.value, PathOf(fields[k].name));
  }

  lemma NamesStayApart(fields: seq<Field>)
    requires NamesApart(fields) && fields != []
    ensures NamesApart(fields[1..])
  {
    assert forall i :: 0 <= i < |fields[1..]| ==> fields[1..][i] == fields[i + 1];
    hide Apart, PathOf;
  }

  /** Every field's value is where the field writes, whatever the other fields wrote. */
  lemma {:induction false} BodyHoldsField(body: Value, fields: seq<Field>, s: Submission, k: nat)
    requires BuildFrom(body, fields, s).Ok? && NamesApart(fields) && k < |fields|
    ensures Sent(fields[k], s).Ok?
    ensures Seen(BuildFrom(body, fields, s).value, PathOf(fields[k].name)) == Shown(fields[k], s, body)
    ensures Sends(fields[k], s) ==> ValidFieldName(fields[k].name)
    decreases |fields|
  {
    BuildOneField(body, fields, s);
    if k == 0 {
      FirstFieldLands(body, fields, s);
    } else {
      var rest := fields[1..];
      NamesStayApart(fields);
      hide NamesApart;
      assert rest[k - 1] == fields[k];
      var next := if Sends(fields[0], s) then WriteNamed(body, fields[0].name, Sent(fields[0], s).value.value).value
                  else body;
      if Sends(fields[0], s) {
        LaterFieldsUnmoved(body, fields, s, k);
      }
      hide BuildFrom, PathOf, WriteNamed, Sent, Seen, Sends, ValidFieldName, NamesApart, Shown;
      BodyHoldsField(next, rest, s, k - 1);
    }
  }

  lemma EmptyObjectHoldsNothing(q: seq<Step>)
    requires q != []
    ensures Seen(Object([]), q) == Null
  {}

  /** The body of a form: each field's value at its own place, and nothing anywhere else. */
  lemma BodyIsItsFields(fields: seq<Field>, s: Submission, body: Value)
    requires BuildFrom(Object([]), fields, s) == Ok(body) && NamesApart(fields)
    ensures forall k :: 0 <= k < |fields| ==>
              Sent(fields[k], s).Ok? &&
              Seen(body, PathOf(fields[k].name)) == if Sends(fields[k], s) then Sent(fields[k], s).value.value else Null
    ensures forall q :: q != [] && IsElsewhere(q, fields, s) ==> Seen(body, q) == Null
  {
    forall k | 0 <= k < |fields|
      ensures Sent(fields[k], s).Ok? &&
              Seen(body, PathOf(fields[k].name)) == if Sends(fields[k], s) then Sent(fields[k], s).value.value else Null
    {
      BodyHoldsField(Object([]), fields, s, k);
      EmptyObjectHoldsNothing(PathOf(fields[k].name));
    }
    forall q | q != [] && IsElsewhere(q, fields, s) ensures Seen(body, q) == Null {
      BodyKeepsTheRest(Object([]), fields, s, q);
      EmptyObjectHoldsNothing(q);
    }
  }

  // ---- values through their texts ----

  /** The values a field's type is for. */
  predicate HasDeclaredType(f: Field, v: Value) {
    match f.ty
    case Text => v.String?
    case Enum(_) => v.String?
    case Bool => v.Bool?
    case Integer => v.Number?
    case Json(_) => v.Object? || v.Array?
    case Reference(_) => if IsIdPath(f.name) then v.String? else v.Object?
  }

  /** What is needed of serde: a value's text reads as the value, and no text is no value. */
  predicate ReadsBack(codec: Codec, v: Value) {
    codec.read(codec.show(v)) == Some(v) && codec.read("") == None
  }

  lemma IntegersReadBack(n: int)
    ensures IntText(n) != ""
    ensures ParseI64(IntText(n)) == if -I64_MAX - 1 <= n <= I64_MAX then Some(n) else None
  {
    var t := IntText(n);
    if n < 0 {
      NatOfNatText(-n);
      hide NatText, NatOf;
      assert t == "-" + NatText(-n) && t[1..] == NatText(-n) && StartsWith(t, "-");
    } else {
      NatOfNatText(n);
      hide NatText, NatOf;
      assert IsDigit(t[0]) && !IsSign(t[0]);
      assert !StartsWith(t, "-");
    }
  }

  /** A value's text, entered for a field of its type, is sent as the value. */
  lemma TextsReadBack(f: Field, v: Value, codec: Codec)
    requires HasDeclaredType(f, v) && ReadsBack(codec, v)
    requires v.Number? ==> -I64_MAX - 1 <= v.n <= I64_MAX
    ensures AsText(v, codec).Some?
    ensures AsText(v, codec).value == "" <==> v == String("")
    ensures Typed(f, AsText(v, codec).value, codec) == Ok(v)
  {
    if v.Number? {
      IntegersReadBack(v.n);
    }
  }

  lemma NumbersOutOfRange(f: Field, v: Value, codec: Codec)
    requires f.ty == Integer && v.Number? && !(-I64_MAX - 1 <= v.n <= I64_MAX)
    ensures Typed(f, AsText(v, codec).value, codec) == Err(NotAWholeNumber) && AsText(v, codec).value != ""
  {
    IntegersReadBack(v.n);
  }

  /** A reference leaves as an object, whether the row's own or one wrapped around a picked id, except
      where the path addresses the id inside it. */
  lemma ReferencesLeaveAsObjects(f: Field, raw: string, codec: Codec)
    requires f.ty.Reference?
    ensures IsIdPath(f.name) ==> Typed(f, raw, codec) == Ok(String(raw))
    ensures !IsIdPath(f.name) ==>
              var sent := Typed(f, raw, codec);
              var own := codec.read(raw).Some? && codec.read(raw).value.Object?;
              sent.Ok? && sent.value.Object? &&
              (own ==> codec.read(raw) == Some(sent.value)) &&
              (!own ==> Lookup(sent.value, "extId") == Some(String(raw)) && |sent.value.members| == 1)
  {}

  /** A picked id is in the body at the reference's `extId`, or at the reference's own path when that
      is the id's; whatever the other fields write. */
  lemma PickedIdsAreSent(fields: seq<Field>, s: Submission, body: Value, f: Field)
    requires NamesApart(fields) && BuildFrom(Object([]), fields, s) == Ok(body)
    requires f in fields && f.ty.Reference? && f.name in s.entered && s.entered[f.name] != ""
    requires var own := s.codec.read(s.entered[f.name]); own.None? || !own.value.Object?
    ensures var inside := if IsIdPath(f.name) then [] else [Step("extId", None)];
            Read(body, PathOf(f.name) + inside) == Some(String(s.entered[f.name]))
  {
    var id, path := s.entered[f.name], PathOf(f.name);
    EnteredSends(f, s);
    ReferencesLeaveAsObjects(f, id, s.codec);
    hide *;
    var sent := Typed(f, id, s.codec).value;
    SentIsThere(fields, s, body, f, sent);
    if IsIdPath(f.name) {
      assert path + [] == path;
    } else {
      IdInside(body, path, sent, id);
    }
  }

  /** A value a field sends is read back at its path. */
  lemma SentIsThere(fields: seq<Field>, s: Submission, body: Value, f: Field, sent: Value)
    requires NamesApart(fields) && BuildFrom(Object([]), fields, s) == Ok(body)
    requires f in fields && Sent(f, s) == Ok(Some(sent)) && sent != Null
    ensures Read(body, PathOf(f.name)) == Some(sent)
  {
    var k :| 0 <= k < |fields| && fields[k] == f;
    assert Sends(f, s);
    hide BuildFrom, NamesApart, PathOf, Sent, ValidFieldName, Read;
    BodyHoldsField(Object([]), fields, s, k);
  }

  lemma IdInside(body: Value, path: seq<Step>, reference: Value, id: string)
    requires Read(body, path) == Some(reference) && Lookup(reference, "extId") == Some(String(id))
    ensures Read(body, path + [Step("extId", None)]) == Some(String(id))
  {
    ReadOn(body, path, [Step("extId", None)]);
    assert [Step("extId", None)][1..] == [];
    hide Lookup;
    assert Read(reference, [Step("extId", None)]) == Some(String(id));
  }

  lemma {:induction false} ReadOn(v: Value, p: seq<Step>, q: seq<Step>)
    requires Read(v, p).Some?
    ensures Read(v, p + q) == Read(Read(v, p).value, q)
    decreases |p|
  {
    if p == [] {
      assert p + q == q;
    } else {
      assert (p + q)[1..] == p[1..] + q;
      ReadOn(Enter(v, p[0]).value, p[1..], q);
    }
  }

  /** The last segment of a name says whether it addresses an id. */
  lemma IdPathsEndInIds(steps: seq<Step>)
    requires IsGoodPath(steps)
    ensures IsIdPath(PathText(steps)) <==> steps[|steps| - 1] in [Step("extId", None), Step("uuid", None)]
  {
    var texts, last := StepTexts(steps), steps[|steps| - 1];
    forall i | 0 <= i < |steps| ensures '.' !in texts[i] {
      GoodStepsAreSegments(steps[i]);
    }
    SplitJoin(texts, '.');
    IdSteps();
    GoodStepsAreSegments(last);
    hide StepText, StepOf, IsGoodStep, Split, Join;
  }

  lemma IdSteps()
    ensures StepText(Step("extId", None)) == "extId" && StepText(Step("uuid", None)) == "uuid"
    ensures StepOf("extId") == Step("extId", None) && StepOf("uuid") == Step("uuid", None)
  {
    hide StepOf, IndexOf, ParseUsize, NatText;
    GoodStepsAreSegments(Step("extId", None));
    GoodStepsAreSegments(Step("uuid", None));
  }

  // ---- the untouched form ----

  /** What is entered for a field nobody touched: the text of the row's own value. */
  lemma EnteredIsCurrent(f: Field, fields: seq<Field>, s: Submission, v: Value)
    requires f in fields && AreCurrent(s.entered, fields, s.entity.raw, s.codec)
    requires ReadNamed(s.entity.raw, f.name) == Some(v)
    ensures (if f.name in s.entered then Some(s.entered[f.name]) else None) == AsText(v, s.codec)
  {
    var i :| 0 <= i < |fields| && fields[i] == f;
    assert fields[i].name == f.name && IsField(fields, f.name);
    assert Current(f.name, s.entity.raw, s.codec) == AsText(v, s.codec);
    hide Current, AsText, IsField, ReadNamed;
    assert (if f.name in s.entered then Some(s.entered[f.name]) else None)
        == (if IsField(fields, f.name) then Current(f.name, s.entity.raw, s.codec) else None);
  }

  /** What an untouched field sends: the entity's own value, unless that is an empty string. */
  lemma UntouchedSends(f: Field, fields: seq<Field>, s: Submission, v: Value)
    requires f in fields && AreCurrent(s.entered, fields, s.entity.raw, s.codec)
    requires ReadNamed(s.entity.raw, f.name) == Some(v) && HasDeclaredType(f, v) && ReadsBack(s.codec, v)
    requires Sent(f, s).Ok?
    ensures v != String("") ==> Sent(f, s) == Ok(Some(v))
    ensures v == String("") ==> Sent(f, s) == Sent(f, s.(entered := map[]))
  {
    EnteredIsCurrent(f, fields, s, v);
    if v.Number? && !(-I64_MAX - 1 <= v.n <= I64_MAX) {
      NumbersOutOfRange(f, v, s.codec);
    } else {
      TextsReadBack(f, v, s.codec);
    }
    hide Typed, ReadNamed, Expand, AreCurrent, AsText, HasDeclaredType, ReadsBack, Sent;
    if AsText(v, s.codec) == Some("") {
      NothingEnteredSends(f, s);
    } else {
      EnteredSends(f, s);
    }
  }

  lemma EnteredSends(f: Field, s: Submission)
    requires f.name in s.entered && s.entered[f.name] != ""
    ensures var v := Typed(f, s.entered[f.name], s.codec);
            Sent(f, s) == if v.Ok? then Ok(Some(v.value)) else Err(v.error)
  {
    hide Typed, Expand;
  }

  lemma NothingEnteredSends(f: Field, s: Submission)
    requires f.name in s.entered ==> s.entered[f.name] == ""
    ensures Sent(f, s) == Sent(f, s.(entered := map[]))
  {
    hide Typed, Expand;
  }

  /** The row has a value for the field, of the field's type and not empty. */
  predicate IsKept(f: Field, s: Submission, v: Value) {
    && ReadNamed(s.entity.raw, f.name) == Some(v) && v != Null && v != String("")
    && HasDeclaredType(f, v) && ReadsBack(s.codec, v)
  }

  /** A form nobody touched sends every value back as the row has it. */
  lemma UntouchedFormChangesNothing(fields: seq<Field>, s: Submission, body: Value)
    requires NamesApart(fields) && AreCurrent(s.entered, fields, s.entity.raw, s.codec)
    requires BuildFrom(Object([]), fields, s) == Ok(body)
    ensures forall f, v :: f in fields && IsKept(f, s, v) ==> ReadNamed(body, f.name) == Some(v)
  {
    forall f, v | f in fields && IsKept(f, s, v) ensures ReadNamed(body, f.name) == Some(v) {
      var k :| 0 <= k < |fields| && fields[k] == f;
      BodyHoldsField(Object([]), fields, s, k);
      UntouchedSends(f, fields, s, v);
      hide BuildFrom, Sent, PathOf, ValidFieldName, AreCurrent, HasDeclaredType, ReadsBack;
    }
  }

  /** The field's own seed is sent as an empty string. */
  predicate SeedIsEmpty(f: Field, s: Submission) {
    f.value.Some? && Expand(f.value.value, s.entity, s.now).Ok? &&
    Typed(f, Expand(f.value.value, s.entity, s.now).value, s.codec) == Ok(String(""))
  }

  /** An empty string is not sent back: the place reads as if the form had been opened blank. So,
      whatever the field's type, it keeps the row's value exactly when the field's seed is sent as an
      empty string, which for a field that holds strings is the seed that expands to nothing. */
  lemma EmptyStringsAreDropped(fields: seq<Field>, s: Submission, body: Value, f: Field)
    requires NamesApart(fields) && AreCurrent(s.entered, fields, s.entity.raw, s.codec)
    requires BuildFrom(Object([]), fields, s) == Ok(body)
    requires f in fields && ReadNamed(s.entity.raw, f.name) == Some(String(""))
    ensures ReadNamed(body, f.name) == Some(String("")) <==> SeedIsEmpty(f, s)
    ensures HasDeclaredType(f, String("")) ==>
              (SeedIsEmpty(f, s) <==> f.value.Some? && Expand(f.value.value, s.entity, s.now) == Ok(""))
  {
    if HasDeclaredType(f, String("")) {
      SeedsOfStrings(f, s);
    }
    hide *;
    var k :| 0 <= k < |fields| && fields[k] == f;
    BodyHoldsField(Object([]), fields, s, k);
    ShownWhenEmpty(f, fields, s);
    ReadAsSeen(s.entity.raw, f.name);
    ReadAsSeen(body, f.name);
  }

  lemma SeedsOfStrings(f: Field, s: Submission)
    requires HasDeclaredType(f, String(""))
    ensures SeedIsEmpty(f, s) <==> f.value.Some? && Expand(f.value.value, s.entity, s.now) == Ok("")
  {
    hide Expand, IsIdPath;
  }

  lemma ShownWhenEmpty(f: Field, fields: seq<Field>, s: Submission)
    requires f in fields && AreCurrent(s.entered, fields, s.entity.raw, s.codec)
    requires ReadNamed(s.entity.raw, f.name) == Some(String(""))
    ensures Shown(f, s, Object([])) == String("") <==> SeedIsEmpty(f, s)
  {
    EmptyObjectHoldsNothing(PathOf(f.name));
    EnteredIsCurrent(f, fields, s, String(""));
    assert AsText(String(""), s.codec) == Some("");
    hide Sent, Sends, Seen, PathOf, Expand, ReadNamed, AreCurrent, AsText, SeedIsEmpty;
    SeedAlone(f, s);
  }

  lemma ReadAsSeen(v: Value, name: string)
    ensures ReadNamed(v, name).Some? ==> ValidFieldName(name)
    ensures ValidFieldName(name) ==> (ReadNamed(v, name) == Some(String("")) <==> Seen(v, PathOf(name)) == String(""))
  {
    hide ValidFieldName, PathOf, Read;
  }

  lemma SeedAlone(f: Field, s: Submission)
    requires f.name in s.entered ==> s.entered[f.name] == ""
    ensures Sends(f, s) && Sent(f, s).value.value == String("") <==> SeedIsEmpty(f, s)
  {
    hide Expand, Typed;
  }

  // ---- substitutions ----

  /** The substitution for so many days from now. */
  function DaysFromNow(days: nat): string {
    "$now+" + NatText(days) + "d"
  }

  /** `$now+<n>d` names the second exactly that many days from now; past year 9999 it names the epoch. */
  lemma ExpiryIsDaysFromNow(days: nat, entity: Entity, now: nat)
    requires now + days * 86400 <= I64_MAX
    ensures var text, t := Expand(DaysFromNow(days), entity, now), now + days * 86400;
            text.Ok? && SecondsOf(text.value) == Some(if t <= LAST_SECOND then t else 0)
  {
    hide *;
    NowPlus(days, entity, now);
    TimesReadBack(now + days * 86400);
  }

  lemma TimesReadBack(t: nat)
    ensures SecondsOf(TimeText(t)) == Some(if t <= LAST_SECOND then t else 0)
  {
    hide Rfc3339, SecondsOf;
    if t <= LAST_SECOND {
      StampsReadBack(t);
    } else {
      StampsReadBack(0);
    }
  }

  lemma NowPlus(days: nat, entity: Entity, now: nat)
    requires now + days * 86400 <= I64_MAX
    ensures Expand(DaysFromNow(days), entity, now) == Ok(TimeText(now + days * 86400))
  {
    hide *;
    DaysFromNowParts(days);
    ExpandDays(DaysFromNow(days), days, entity, now);
  }

  lemma ExpandDays(value: string, days: nat, entity: Entity, now: nat)
    requires now + days * 86400 <= I64_MAX
    requires StartsWith(value, "$") && value != "$ext_id" && StartsWith(value, "$now+") && |value| > 5
    requires EndsWith(value[5..], "d") && ParseUsize(value[5..|value| - 1]) == Some(days)
    ensures Expand(value, entity, now) == Ok(TimeText(now + days * 86400))
  {
    hide ParseUsize, StartsWith, EndsWith, TimeText;
  }

  lemma DaysFromNowParts(days: nat)
    requires days <= I64_MAX
    ensures var value := DaysFromNow(days);
            && StartsWith(value, "$") && value != "$ext_id" && StartsWith(value, "$now+") && |value| > 5
            && EndsWith(value[5..], "d") && ParseUsize(value[5..|value| - 1]) == Some(days)
  {
    var digits, value := NatText(days), DaysFromNow(days);
    NatOfNatText(days);
    hide NatText, NatOf;
    assert value[5..] == digits + "d" && value[5..|value| - 1] == digits;
    assert ParseUsize(digits) == Some(days) by {
      assert IsDigit(digits[0]) && !StartsWith(digits, "+");
    }
    assert value[1] == 'n';
  }
}
