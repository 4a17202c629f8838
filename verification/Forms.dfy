/**
 Forms and the bodies they send (`build_body` and `current_values` in `crates/core/src/actions.rs`).

 The JSON text of a value is serde's: reading and showing it are the two functions of a `Codec`.
 */
module Forms {
  import opened Wrappers
  import opened Text
  import opened Json
  import opened WritePath
  import opened Body
  import opened Calendar
  import opened Stamps
  import opened Actions

  datatype FieldType =
    | Text | Enum(words: seq<string>) | Bool | Integer | Reference(kind: Option<string>) | Json(skeleton: string)

  datatype Field = Field(name: string, ty: FieldType, required: bool, value: Option<string>)

  /** The row a form is about. */
  datatype Entity = Entity(extId: string, raw: Value)

  /** serde: reading JSON text, and the compact text of a value. */
  datatype Codec = Codec(read: string -> Option<Value>, show: Value -> string)

  datatype FormError =
    | Missing
    | NotAWholeNumber
    | BadJson
    | OutOfRange
    | UnknownSubstitution
    | BadWrite(error: WriteError)

  /** What a form is submitted with: the texts entered, the row, the time, and how JSON is written. */
  datatype Submission = Submission(entered: map<string, string>, entity: Entity, now: int, codec: Codec)

  // ---- substitutions ----

  const U64_MAX := 0xFFFF_FFFF_FFFF_FFFF

  /** A time as the stamp a body carries. The calendar of the `time` crate ends with year 9999:
      a later time is written as the epoch. */
  function TimeText(t: int): string {
    Rfc3339(if 0 <= t <= LAST_SECOND then t else 0)
  }

  /** `$ext_id` and `$now+<n>d`; a value without a dollar is itself. */
  function Expand(value: string, entity: Entity, now: int): Result<string, FormError> {
    if !StartsWith(value, "$") then Ok(value)
    else if value == "$ext_id" then Ok(entity.extId)
    else if StartsWith(value, "$now+") && EndsWith(value[5..], "d") && ParseUsize(value[5..|value| - 1]).Some? then
      var days := ParseUsize(value[5..|value| - 1]).value;
      if days * 86400 > U64_MAX || now + days * 86400 > I64_MAX then Err(OutOfRange)
      else Ok(TimeText(now + days * 86400))
    else Err(UnknownSubstitution)
  }

  // ---- values ----

  /** `str::parse::<i64>` */
  function ParseI64(s: string): Option<int> {
    var digits := Unsigned(s);
    if digits == "" || !All(digits, IsDigit) then None
    else
      var n := if StartsWith(s, "-") then 0 - NatOf(digits) else NatOf(digits);
      if -I64_MAX - 1 <= n <= I64_MAX then Some(n) else None
  }

  predicate IsIdPath(name: string) {
    var segments := Split(name, '.');
    segments[|segments| - 1] in ["extId", "uuid"]
  }

  /** What a field's text is in the body. */
  function Typed(f: Field, raw: string, codec: Codec): Result<Value, FormError> {
    match f.ty
    case Bool => Ok(Value.Bool(raw == "true" || raw == "yes"))
    case Integer => (var n := ParseI64(raw); if n.Some? then Ok(Number(n.value)) else Err(NotAWholeNumber))
    case Json(_) => (var v := codec.read(raw); if v.Some? then Ok(v.value) else Err(BadJson))
    case Reference(_) =>
      if IsIdPath(f.name) then Ok(String(raw))
      else
        var v := codec.read(raw);
        if v.Some? && v.value.Object? then Ok(v.value) else Ok(Object([Member("extId", String(raw))]))
    case _ => Ok(String(raw))
  }

  /** What was entered, else the field's own seed, else nothing. */
  function RawText(f: Field, s: Submission): Result<Option<string>, FormError> {
    if f.name in s.entered && s.entered[f.name] != "" then Ok(Some(s.entered[f.name]))
    else if f.value.Some? then
      var raw :- Expand(f.value.value, s.entity, s.now);
      Ok(Some(raw))
    else if f.required then Err(Missing)
    else Ok(None)
  }

  /** What a field sends: a value, or nothing at all. */
  function Sent(f: Field, s: Submission): Result<Option<Value>, FormError> {
    var raw :- RawText(f, s);
    if raw.None? then Ok(None)
    else
      var v :- Typed(f, raw.value, s.codec);
      Ok(Some(v))
  }

  function Lifted(r: Result<Value, WriteError>): Result<Value, FormError> {
    match r
    case Ok(v) => Ok(v)
    case Err(e) => Err(BadWrite(e))
  }

  /** The body with the fields written into it, one after the other. */
  function BuildFrom(body: Value, fields: seq<Field>, s: Submission): Result<Value, FormError>
    decreases |fields|
  {
    if fields == [] then Ok(body)
    else
      var v :- Sent(fields[0], s);
      if v.None? then BuildFrom(body, fields[1..], s)
      else
        var w :- Lifted(WriteNamed(body, fields[0].name, v.value));
        BuildFrom(w, fields[1..], s)
  }

  lemma BuildStep(body: Value, fields: seq<Field>, i: nat, s: Submission)
    requires i < |fields|
    ensures Sent(fields[i], s).Err? ==> BuildFrom(body, fields[i..], s) == Err(Sent(fields[i], s).error)
    ensures Sent(fields[i], s) == Ok(None) ==> BuildFrom(body, fields[i..], s) == BuildFrom(body, fields[i + 1..], s)
    ensures Sent(fields[i], s).Ok? && Sent(fields[i], s).value.Some? ==>
              BuildFrom(body, fields[i..], s) ==
                var w := WriteNamed(body, fields[i].name, Sent(fields[i], s).value.value);
                if w.Err? then Err(BadWrite(w.error)) else BuildFrom(w.value, fields[i + 1..], s)
  {
    assert fields[i..][0] == fields[i] && fields[i..][1..] == fields[i + 1..];
    hide Sent, WriteNamed;
  }

  lemma BuildEnds(body: Value, fields: seq<Field>, s: Submission)
    ensures BuildFrom(body, fields[|fields|..], s) == Ok(body)
    ensures BuildFrom(body, fields[0..], s) == BuildFrom(body, fields, s)
  {
    assert fields[0..] == fields;
  }

  method BuildBody(fields: seq<Field>, s: Submission) returns (r: Result<Value, FormError>)
    ensures r == BuildFrom(Object([]), fields, s)
  {
    var body := Object([]);
    BuildEnds(body, fields, s);
    hide Typed, Expand, BuildFrom, WriteNamed;
    var i := 0;
    while i < |fields|
      invariant 0 <= i <= |fields|
      invariant BuildFrom(body, fields[i..], s) == BuildFrom(Object([]), fields, s)
    {
      var f := fields[i];
      BuildStep(body, fields, i, s);
      i := i + 1;
      var raw: string;
      if f.name in s.entered && s.entered[f.name] != "" {
        raw := s.entered[f.name];
      } else if f.value.Some? {
        raw :- Expand(f.value.value, s.entity, s.now);
      } else if f.required {
        return Err(Missing);
      } else {
        continue;
      }
      var value :- Typed(f, raw, s.codec);
      var written := WriteAt(body, f.name, value);
      if written.Err? {
        return Err(BadWrite(written.error));
      }
      body := written.value;
    }
    BuildEnds(body, fields, s);
    r := Ok(body);
  }

  // ---- what a form starts with ----

  function AsText(v: Value, codec: Codec): Option<string> {
    match v
    case Null => None
    case String(s) => Some(s)
    case Bool(b) => Some(if b then "true" else "false")
    case Number(n) => Some(IntText(n))
    case _ => Some(codec.show(v))
  }

  /** What a field is on the entity, as the form edits it. */
  function Current(name: string, raw: Value, codec: Codec): Option<string> {
    var v := ReadNamed(raw, name);
    if v.None? then None else AsText(v.value, codec)
  }

  predicate IsField(fields: seq<Field>, name: string) {
    exists i :: 0 <= i < |fields| && fields[i].name == name
  }

  /** The fields that the document has a value for, and the texts of the values. */
  ghost predicate AreCurrent(m: map<string, string>, fields: seq<Field>, raw: Value, codec: Codec) {
    forall name :: (if name in m then Some(m[name]) else None) ==
                     (if IsField(fields, name) then Current(name, raw, codec) else None)
  }

  method CurrentValues(fields: seq<Field>, entity: Entity, codec: Codec) returns (m: map<string, string>)
    ensures AreCurrent(m, fields, entity.raw, codec)
  {
    m := map[];
    NothingIsCurrent(fields, entity.raw, codec);
    hide *;
    var i := 0;
    while i < |fields|
      invariant 0 <= i <= |fields|
      invariant AreCurrent(m, fields[..i], entity.raw, codec)
    {
      var name := fields[i].name;
      var v := ReadAt(entity.raw, name);
      ghost var before := m;
      var text := if v.None? then None else AsText(v.value, codec);
      if text.Some? {
        m := m[name := text.value];
      }
      TextIsCurrent(name, entity.raw, codec);
      CurrentStep(before, m, fields, i, entity.raw, codec, text);
      i := i + 1;
    }
    assert fields[..i] == fields;
  }

  lemma NothingIsCurrent(fields: seq<Field>, raw: Value, codec: Codec)
    ensures AreCurrent(map[], fields[..0], raw, codec)
  {
    assert forall name :: !IsField(fields[..0], name);
    hide Current, IsField;
  }

  lemma TextIsCurrent(name: string, raw: Value, codec: Codec)
    ensures Current(name, raw, codec) ==
              if ReadNamed(raw, name).None? then None else AsText(ReadNamed(raw, name).value, codec)
  {}

  lemma OneFieldMore(fields: seq<Field>, i: nat, name: string)
    requires i < |fields|
    ensures IsField(fields[..i + 1], name) <==> IsField(fields[..i], name) || fields[i].name == name
  {
    assert fields[..i + 1][i] == fields[i];
    if IsField(fields[..i], name) {
      var k :| 0 <= k < i && fields[..i][k].name == name;
      assert fields[..i + 1][k].name == name;
    }
    if IsField(fields[..i + 1], name) && fields[i].name != name {
      var k :| 0 <= k < i + 1 && fields[..i + 1][k].name == name;
      assert fields[..i][k].name == name;
    }
  }

  lemma CurrentStep(before: map<string, string>, m: map<string, string>, fields: seq<Field>, i: nat, raw: Value,
                    codec: Codec, text: Option<string>)
    requires i < |fields| && AreCurrent(before, fields[..i], raw, codec)
    requires text == Current(fields[i].name, raw, codec)
    requires m == if text.Some? then before[fields[i].name := text.value] else before
    ensures AreCurrent(m, fields[..i + 1], raw, codec)
  {
    hide Current, IsField;
    forall name
      ensures (if name in m then Some(m[name]) else None) ==
                (if IsField(fields[..i + 1], name) then Current(name, raw, codec) else None)
    {
      OneFieldMore(fields, i, name);
    }
  }
}
