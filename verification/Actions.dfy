/**
 Request bodies out of forms (`crates/core/src/actions.rs`): the walkers of the write grammar as the
 loops they are, `build_body`, `current_values`, and what a form left untouched sends.

 The JSON text of a value is serde's: reading and showing it are the two functions of a `Codec`.
 */
module Actions {
  import opened Wrappers
  import opened Text
  import opened Json
  import opened WritePath
  import opened Body

  // ---- the walkers ----

  function WriteNamed(body: Value, name: string, x: Value): Result<Value, WriteError> {
    if ValidFieldName(name) then Write(body, PathOf(name), x) else Err(NotAWritePath)
  }

  function ReadNamed(v: Value, name: string): Option<Value> {
    if ValidFieldName(name) then Read(v, PathOf(name)) else None
  }

  lemma PathSteps(name: string)
    ensures |PathOf(name)| == |Split(name, '.')|
    ensures forall i :: 0 <= i < |PathOf(name)| ==> PathOf(name)[i] == StepOf(Split(name, '.')[i])
  {}

  lemma ReadOneStep(v: Value, steps: seq<Step>, i: nat)
    requires i < |steps|
    ensures Read(v, steps[i..]) ==
              if Enter(v, steps[i]).None? then None else Read(Enter(v, steps[i]).value, steps[i + 1..])
  {
    assert steps[i..][0] == steps[i] && steps[i..][1..] == steps[i + 1..];
  }

  lemma ReadEnds(v: Value, steps: seq<Step>)
    ensures Read(v, steps[|steps|..]) == Some(v) && Read(v, steps[0..]) == Read(v, steps)
  {
    assert steps[0..] == steps;
  }

  /** One segment of the cursor's way. */
  method Follow(current: Value, s: Step) returns (next: Option<Value>)
    ensures next == Enter(current, s)
  {
    if !current.Object? || Get(current.members, s.key).None? {
      return None;
    }
    var child := Get(current.members, s.key).value;
    if s.index.Some? {
      if !child.Array? || |child.items| <= s.index.value {
        return None;
      }
      child := child.items[s.index.value];
    }
    next := Some(child);
  }

  method ReadAt(document: Value, name: string) returns (r: Option<Value>)
    ensures r == ReadNamed(document, name)
  {
    if !ValidFieldName(name) {
      return None;
    }
    var current := document;
    var segments := Split(name, '.');
    ghost var steps := PathOf(name);
    ReadStarts(document, name);
    hide *;
    var i := 0;
    while i < |segments|
      invariant 0 <= i <= |segments| == |steps|
      invariant Read(document, steps) == Read(current, steps[i..])
    {
      ReadOneStep(current, steps, i);
      var next := Follow(current, StepOf(segments[i]));
      if next.None? {
        return None;
      }
      current := next.value;
      i := i + 1;
    }
    ReadEnds(current, steps);
    r := Some(current);
  }

  lemma ReadStarts(document: Value, name: string)
    requires ValidFieldName(name)
    ensures |PathOf(name)| == |Split(name, '.')|
    ensures forall i :: 0 <= i < |PathOf(name)| ==> PathOf(name)[i] == StepOf(Split(name, '.')[i])
    ensures ReadNamed(document, name) == Read(document, PathOf(name)) == Read(document, PathOf(name)[0..])
  {
    PathSteps(name);
    ReadEnds(document, PathOf(name));
  }

  /** A value the cursor of a write has left, and the segment it left by. */
  datatype Frame = Frame(v: Value, step: Step)

  predicate IsTrail(trail: seq<Frame>) {
    forall i :: 0 <= i < |trail| ==> Base(trail[i].v, trail[i].step).Some?
  }

  /** What a result at the end of the trail is to the document at its start. */
  function Unwound(trail: seq<Frame>, r: Result<Value, WriteError>): Result<Value, WriteError>
    requires IsTrail(trail)
  {
    if trail == [] then r
    else
      var last := trail[|trail| - 1];
      Unwound(trail[..|trail| - 1], Behind(last.v, last.step, r))
  }

  lemma {:induction false} UnwoundRefusal(trail: seq<Frame>, depth: nat)
    requires IsTrail(trail)
    ensures Unwound(trail, Err(NotAnObject(depth))) == Err(NotAnObject(depth + |trail|))
    ensures Unwound(trail, Err(NotAnArray(depth))) == Err(NotAnArray(depth + |trail|))
  {
    if trail != [] {
      UnwoundRefusal(trail[..|trail| - 1], depth + 1);
    }
  }

  method Grow(items: seq<Value>, n: nat) returns (r: seq<Value>)
    ensures r == Grown(items, n)
  {
    r := items;
    while |r| <= n
      invariant |items| <= |r| && Grown(r, n) == Grown(items, n)
      decreases n + 1 - |r|
    {
      r := r + [Null];
    }
  }

  /** The write-back to everything the cursor came through. */
  method WriteBack(trail: seq<Frame>, w: Value) returns (body: Value)
    requires IsTrail(trail)
    ensures Unwound(trail, Ok(w)) == Ok(body)
  {
    body := w;
    var i := |trail|;
    assert trail[..i] == trail;
    while i > 0
      invariant 0 <= i <= |trail|
      invariant Unwound(trail, Ok(w)) == Unwound(trail[..i], Ok(body))
    {
      i := i - 1;
      assert trail[..i + 1][..i] == trail[..i];
      body := Replaced(trail[i].v, trail[i].step, body);
    }
  }

  /** The write from one segment on, in the loop's terms. */
  lemma WriteFrom(v: Value, steps: seq<Step>, i: nat, x: Value)
    requires i < |steps|
    ensures !v.Object? ==> Write(v, steps[i..], x) == Err(NotAnObject(0))
    ensures v.Object? && Base(v, steps[i]).None? ==> Write(v, steps[i..], x) == Err(NotAnArray(0))
    ensures Base(v, steps[i]).Some? ==>
              Write(v, steps[i..], x) == Behind(v, steps[i], Write(Base(v, steps[i]).value, steps[i + 1..], x))
  {
    assert steps[i..][0] == steps[i] && steps[i..][1..] == steps[i + 1..];
    WriteOneStep(v, steps[i..], x);
  }

  lemma WriteEnds(v: Value, steps: seq<Step>, x: Value)
    ensures Write(v, steps[|steps|..], x) == Ok(x) && Write(v, steps[0..], x) == Write(v, steps, x)
  {
    assert steps[0..] == steps;
  }

  /** What the cursor moves to, making what is not there. */
  method Descend(current: Value, s: Step) returns (next: Option<Value>)
    requires current.Object?
    ensures next == Base(current, s)
  {
    match s.index {
      case None =>
        next := Some(Entry(current.members, s.key, Object([])));
      case Some(n) =>
        var child := Entry(current.members, s.key, Array([]));
        if !child.Array? {
          return None;
        }
        var items := Grow(child.items, n);
        next := Some(ObjectOr(items[n]));
    }
  }

  method WriteAt(body: Value, name: string, x: Value) returns (r: Result<Value, WriteError>)
    ensures r == WriteNamed(body, name, x)
  {
    if !ValidFieldName(name) {
      return Err(NotAWritePath);
    }
    var current := body;
    var segments := Split(name, '.');
    ghost var steps := PathOf(name);
    WriteStarts(body, name, x);
    hide *;
    var trail: seq<Frame> := [];
    var i := 0;
    while i < |segments|
      invariant 0 <= i == |trail| <= |segments| == |steps| && IsTrail(trail)
      invariant Write(body, steps, x) == Unwound(trail, Write(current, steps[i..], x))
    {
      var s := StepOf(segments[i]);
      WriteMoves(trail, current, steps, i, x);
      if !current.Object? {
        return Err(NotAnObject(i));
      }
      var next := Descend(current, s);
      if next.None? {
        return Err(NotAnArray(i));
      }
      trail := trail + [Frame(current, s)];
      current := next.value;
      i := i + 1;
    }
    WriteEnds(current, steps, x);
    var w := WriteBack(trail, x);
    r := Ok(w);
  }

  /** One round of the loop: a refusal of the whole write, or one more frame on the trail. */
  lemma WriteMoves(trail: seq<Frame>, current: Value, steps: seq<Step>, i: nat, x: Value)
    requires IsTrail(trail) && |trail| == i < |steps|
    ensures !current.Object? ==> Unwound(trail, Write(current, steps[i..], x)) == Err(NotAnObject(i))
    ensures current.Object? && Base(current, steps[i]).None? ==>
              Unwound(trail, Write(current, steps[i..], x)) == Err(NotAnArray(i))
    ensures Base(current, steps[i]).Some? ==>
              IsTrail(trail + [Frame(current, steps[i])]) &&
              Unwound(trail, Write(current, steps[i..], x)) ==
                Unwound(trail + [Frame(current, steps[i])], Write(Base(current, steps[i]).value, steps[i + 1..], x))
  {
    UnwoundRefusal(trail, 0);
    WriteFrom(current, steps, i, x);
    if Base(current, steps[i]).Some? {
      UnwoundStep(trail, Frame(current, steps[i]), Write(Base(current, steps[i]).value, steps[i + 1..], x));
    }
    hide *;
  }

  lemma WriteStarts(body: Value, name: string, x: Value)
    requires ValidFieldName(name)
    ensures IsTrail([])
    ensures |PathOf(name)| == |Split(name, '.')|
    ensures forall i :: 0 <= i < |PathOf(name)| ==> PathOf(name)[i] == StepOf(Split(name, '.')[i])
    ensures WriteNamed(body, name, x) == Write(body, PathOf(name), x) == Unwound([], Write(body, PathOf(name)[0..], x))
  {
    PathSteps(name);
    WriteEnds(body, PathOf(name), x);
  }

  lemma UnwoundStep(trail: seq<Frame>, f: Frame, r: Result<Value, WriteError>)
    requires IsTrail(trail) && Base(f.v, f.step).Some?
    ensures IsTrail(trail + [f]) && Unwound(trail + [f], r) == Unwound(trail, Behind(f.v, f.step, r))
  {
    assert (trail + [f])[..|trail|] == trail;
  }
}
