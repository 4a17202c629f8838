/**
 Writing and reading one place of a JSON document (`write_at` and `read_at` in
 `crates/core/src/actions.rs`), and the laws that make the two a lens.
 */
module Body {
  import opened Wrappers
  import opened Json
  import opened WritePath

  /** Why a write is refused. `depth` is how many segments lead to the value that is in the way. */
  datatype WriteError =
    | NotAWritePath
    | NotAnObject(depth: nat)
    | NotAnArray(depth: nat)

  // ---- the places of a document ----

  /** `insert` in a map that keeps its order: in place when the key is there, else at the end. */
  function Insert(members: seq<Member>, key: string, v: Value): seq<Member> {
    if members == [] then [Member(key, v)]
    else if members[0].key == key then [Member(key, v)] + members[1..]
    else [members[0]] + Insert(members[1..], key, v)
  }

  /** `entry(key).or_insert(default)` */
  function Entry(members: seq<Member>, key: string, default: Value): Value {
    var v := Get(members, key);
    if v.Some? then v.value else default
  }

  /** The array with nulls behind it until it has an item `n`. */
  function Grown(items: seq<Value>, n: nat): seq<Value> {
    if n < |items| then items else items + seq(n + 1 - |items|, _ => Null)
  }

  function ObjectOr(v: Value): Value {
    if v.Object? then v else Object([])
  }

  /** The document with `x` written at the end of the path. */
  function Write(v: Value, steps: seq<Step>, x: Value): Result<Value, WriteError>
    decreases |steps|
  {
    if steps == [] then Ok(x)
    else if !v.Object? then Err(NotAnObject(0))
    else
      var Step(key, index) := steps[0];
      match index
      case None =>
        var child := Entry(v.members, key, Object([]));
        var w :- Deeper(Write(child, steps[1..], x));
        Ok(Object(Insert(v.members, key, w)))
      case Some(n) =>
        var child := Entry(v.members, key, Array([]));
        if !child.Array? then Err(NotAnArray(0))
        else
          var items := Grown(child.items, n);
          var w :- Deeper(Write(ObjectOr(items[n]), steps[1..], x));
          Ok(Object(Insert(v.members, key, Array(items[n := w]))))
  }

  /** A refusal one segment further down. */
  function Deeper(r: Result<Value, WriteError>): Result<Value, WriteError> {
    match r
    case Err(NotAnObject(d)) => Err(NotAnObject(d + 1))
    case Err(NotAnArray(d)) => Err(NotAnArray(d + 1))
    case _ => r
  }

  /** What one segment leads to. */
  function Enter(v: Value, s: Step): Option<Value> {
    var child := Lookup(v, s.key);
    if child.None? || s.index.None? then child
    else if child.value.Array? && s.index.value < |child.value.items| then Some(child.value.items[s.index.value])
    else None
  }

  function Read(v: Value, steps: seq<Step>): Option<Value> {
    if steps == [] then Some(v)
    else
      var child := Enter(v, steps[0]);
      if child.None? then None else Read(child.value, steps[1..])
  }

  /** What a reader sees at a path, an absent value being the same as null. */
  function Seen(v: Value, steps: seq<Step>): Value {
    var r := Read(v, steps);
    if r.Some? then r.value else Null
  }

  // ---- paths side by side ----

  datatype Turn = Key(key: string) | Index(n: nat)

  /** A path turn by turn: a segment with an index takes two. */
  function Turns(steps: seq<Step>): seq<Turn> {
    if steps == [] then [] else TurnsOf(steps[0]) + Turns(steps[1..])
  }

  function TurnsOf(s: Step): seq<Turn> {
    [Key(s.key)] + (if s.index.Some? then [Index(s.index.value)] else [])
  }

  /** Neither path leads through the other. */
  predicate Apart(p: seq<Step>, q: seq<Step>) {
    !(Turns(p) <= Turns(q)) && !(Turns(q) <= Turns(p))
  }

  lemma PrefixesBehind(a: seq<Turn>, b: seq<Turn>, c: seq<Turn>)
    requires b <= c
    ensures a + b <= a + c
  {}

  lemma ApartBehind(p: seq<Step>, q: seq<Step>)
    requires Apart(p, q)
    ensures p != [] && q != []
    ensures p[0] == q[0] ==> Apart(p[1..], q[1..])
    ensures p[0].key == q[0].key && p[0].index.None? && q[0].index.Some? ==> |p| > 1
    ensures p[0].key == q[0].key && p[0].index.Some? && q[0].index.None? ==> |q| > 1
  {
    if p[0] == q[0] {
      if Turns(p[1..]) <= Turns(q[1..]) {
        PrefixesBehind(TurnsOf(p[0]), Turns(p[1..]), Turns(q[1..]));
      }
      if Turns(q[1..]) <= Turns(p[1..]) {
        PrefixesBehind(TurnsOf(p[0]), Turns(q[1..]), Turns(p[1..]));
      }
    }
  }

  // ---- one step of a write ----

  lemma {:induction false} GetInserted(members: seq<Member>, key: string, v: Value, other: string)
    ensures Get(Insert(members, key, v), other) == if other == key then Some(v) else Get(members, other)
  {
    if members != [] && members[0].key != key {
      GetInserted(members[1..], key, v, other);
    }
  }

  lemma {:induction false} InsertTwice(members: seq<Member>, key: string, v: Value, w: Value)
    ensures Insert(Insert(members, key, v), key, w) == Insert(members, key, w)
  {
    if members != [] && members[0].key != key {
      InsertTwice(members[1..], key, v, w);
    }
  }

  lemma {:induction false} InsertWhatIsThere(members: seq<Member>, key: string)
    requires Get(members, key).Some?
    ensures Insert(members, key, Get(members, key).value) == members
  {
    if members[0].key == key {
      assert members == [members[0]] + members[1..];
    } else {
      InsertWhatIsThere(members[1..], key);
      assert members == [members[0]] + members[1..];
    }
  }

  /** What a write continues into behind its first segment, when nothing is in the way. */
  function Base(v: Value, s: Step): Option<Value> {
    if !v.Object? then None
    else match s.index
      case None => Some(Entry(v.members, s.key, Object([])))
      case Some(n) =>
        var child := Entry(v.members, s.key, Array([]));
        if child.Array? then Some(ObjectOr(Grown(child.items, n)[n])) else None
  }

  /** The document with what is behind its first segment replaced. */
  function Replaced(v: Value, s: Step, w: Value): Value
    requires Base(v, s).Some?
  {
    match s.index
    case None => Object(Insert(v.members, s.key, w))
    case Some(n) =>
      var items := Grown(Entry(v.members, s.key, Array([])).items, n);
      Object(Insert(v.members, s.key, Array(items[n := w])))
  }

  /** The write of the rest, carried back to the document. */
  function Behind(v: Value, s: Step, r: Result<Value, WriteError>): Result<Value, WriteError>
    requires Base(v, s).Some?
  {
    if r.Ok? then Ok(Replaced(v, s, r.value)) else Deeper(r)
  }

  lemma WriteOneStep(v: Value, steps: seq<Step>, x: Value)
    requires steps != []
    ensures Base(v, steps[0]).None? ==> Write(v, steps, x).Err?
    ensures Base(v, steps[0]).Some? ==>
              Write(v, steps, x) == Behind(v, steps[0], Write(Base(v, steps[0]).value, steps[1..], x))
  {}

  /** After a replacement the segment leads to the replacement; every other segment leads where it
      did, but for the nulls an array grew by and a value of the other kind under the same key. */
  lemma EnterReplaced(v: Value, s: Step, w: Value, t: Step)
    requires Base(v, s).Some?
    ensures s == t ==> Enter(Replaced(v, s, w), t) == Some(w)
    ensures s.key != t.key ==> Enter(Replaced(v, s, w), t) == Enter(v, t)
    ensures s.key == t.key && s.index.Some? && t.index.Some? && s != t ==>
              Enter(Replaced(v, s, w), t) == Enter(v, t) ||
              (Enter(v, t) == None && Enter(Replaced(v, s, w), t) == Some(Null))
    ensures s.key == t.key && s.index.Some? && t.index.None? ==>
              Enter(Replaced(v, s, w), t).Some? && Enter(Replaced(v, s, w), t).value.Array? &&
              (Enter(v, t) == None || Enter(v, t).value.Array?)
    ensures s.key == t.key && s.index.None? && t.index.Some? && w.Object? && Base(v, s).value.Object? ==>
              Enter(Replaced(v, s, w), t) == None == Enter(v, t)
  {
    if s.index.None? {
      GetInserted(v.members, s.key, w, t.key);
    } else {
      var items := Grown(Entry(v.members, s.key, Array([])).items, s.index.value);
      GetInserted(v.members, s.key, Array(items[s.index.value := w]), t.key);
    }
    hide Insert, Get;
  }

  /** What the write continues into is what is there, or an empty object in its place. */
  lemma BaseIsThere(v: Value, s: Step)
    requires Base(v, s).Some?
    ensures Enter(v, s) == None ==> Base(v, s).value == Object([])
    ensures Enter(v, s).Some? && s.index.None? ==> Base(v, s) == Enter(v, s)
    ensures Enter(v, s).Some? && s.index.Some? ==> Base(v, s).value == ObjectOr(Enter(v, s).value)
  {
    hide Get;
  }

  lemma NothingInsideScalars(v: Value, steps: seq<Step>)
    requires steps != [] && (!v.Object? || v.members == [])
    ensures Read(v, steps) == None
  {}

  lemma NullsReadAsNothing(steps: seq<Step>)
    ensures Seen(Null, steps) == Null
  {}

  // ---- the lens laws ----

  lemma {:induction false} WrittenIsAnObject(v: Value, steps: seq<Step>, x: Value)
    requires steps != [] && Write(v, steps, x).Ok?
    ensures v.Object? && Write(v, steps, x).value.Object?
  {}

  /** What was written is read back. */
  lemma {:induction false} ReadAfterWrite(v: Value, steps: seq<Step>, x: Value)
    requires Write(v, steps, x).Ok?
    ensures Read(Write(v, steps, x).value, steps) == Some(x)
    decreases |steps|
  {
    if steps != [] {
      WriteOneStep(v, steps, x);
      var s, base := steps[0], Base(v, steps[0]).value;
      hide Write, Base, Replaced, Enter;
      ReadAfterWrite(base, steps[1..], x);
      EnterReplaced(v, s, Write(base, steps[1..], x).value, s);
    }
  }

  /** Every path apart from the one written reads as before, an absent value being null. */
  lemma {:induction false} WriteLeavesTheRest(v: Value, p: seq<Step>, x: Value, q: seq<Step>)
    requires Write(v, p, x).Ok? && Apart(p, q)
    ensures Seen(Write(v, p, x).value, q) == Seen(v, q)
    decreases |p|
  {
    ApartBehind(p, q);
    WriteOneStep(v, p, x);
    var s, t, base := p[0], q[0], Base(v, p[0]).value;
    var w := Write(base, p[1..], x).value;
    EnterReplaced(v, s, w, t);
    BaseIsThere(v, s);
    if s == t {
      ApartBehind(p[1..], q[1..]);
      WriteLeavesTheRest(base, p[1..], x, q[1..]);
      NothingInsideScalars(Object([]), q[1..]);
      if Enter(v, s).Some? && !Enter(v, s).value.Object? {
        NothingInsideScalars(Enter(v, s).value, q[1..]);
      }
      hide Write, Base, Replaced, Enter, Apart;
    } else if s.key == t.key && s.index.None? {
      WrittenIsAnObject(base, p[1..], x);
      hide Write, Base, Replaced, Enter, Apart;
    } else if s.key == t.key && t.index.None? {
      var after, before := Enter(Replaced(v, s, w), t), Enter(v, t);
      NothingInsideScalars(after.value, q[1..]);
      if before.Some? {
        NothingInsideScalars(before.value, q[1..]);
      }
      hide Write, Base, Replaced, Enter, Apart;
    } else {
      NullsReadAsNothing(q[1..]);
      hide Write, Base, Replaced, Enter, Apart;
      assert Enter(Replaced(v, s, w), t) == Enter(v, t) ||
             (Enter(v, t) == None && Enter(Replaced(v, s, w), t) == Some(Null));
    }
  }

  /** A second write to the same path leaves nothing of the first. */
  lemma {:induction false} LastWriteWins(v: Value, steps: seq<Step>, x: Value, y: Value)
    requires Write(v, steps, x).Ok?
    ensures Write(Write(v, steps, x).value, steps, y) == Write(v, steps, y)
    decreases |steps|
  {
    if steps != [] {
      WriteOneStep(v, steps, x);
      WriteOneStep(v, steps, y);
      var s, base, rest := steps[0], Base(v, steps[0]).value, steps[1..];
      var w := Write(base, rest, x).value;
      LastWriteWins(base, rest, x, y);
      if rest != [] {
        WrittenIsAnObject(base, rest, x);
      }
      ReplacedTwice(v, s, w);
      WriteOneStep(Replaced(v, s, w), steps, y);
      assert rest == [] ==> Write(ObjectOr(w), rest, y) == Write(w, rest, y);
      hide Write, Base, Replaced;
    }
  }

  lemma ReplacedTwice(v: Value, s: Step, w: Value)
    requires Base(v, s).Some?
    ensures Base(Replaced(v, s, w), s) == Some(if s.index.Some? then ObjectOr(w) else w)
    ensures forall y :: Replaced(Replaced(v, s, w), s, y) == Replaced(v, s, y)
  {
    if s.index.None? {
      GetInserted(v.members, s.key, w, s.key);
      forall y ensures Replaced(Replaced(v, s, w), s, y) == Replaced(v, s, y) {
        InsertTwice(v.members, s.key, w, y);
      }
    } else {
      var n := s.index.value;
      var items := Grown(Entry(v.members, s.key, Array([])).items, n);
      var once := Array(items[n := w]);
      GetInserted(v.members, s.key, once, s.key);
      forall y ensures Replaced(Replaced(v, s, w), s, y) == Replaced(v, s, y) {
        InsertTwice(v.members, s.key, once, Array(items[n := y]));
        assert items[n := w][n := y] == items[n := y];
      }
    }
    hide Insert, Get;
  }

  /** Writing what is there already changes nothing. */
  lemma {:induction false} WriteWhatIsThere(v: Value, steps: seq<Step>)
    requires Read(v, steps).Some?
    ensures Write(v, steps, Read(v, steps).value) == Ok(v)
    decreases |steps|
  {
    if steps != [] {
      var s, x := steps[0], Read(v, steps).value;
      var child := Enter(v, s).value;
      WriteWhatIsThere(child, steps[1..]);
      ReplacedByItself(v, s);
      WriteOneStep(v, steps, x);
      BaseIsThere(v, s);
      assert steps[1..] != [] ==> child.Object?;
      hide Write, Base, Replaced, Enter;
    }
  }

  lemma ReplacedByItself(v: Value, s: Step)
    requires Enter(v, s).Some?
    ensures Base(v, s).Some? && Replaced(v, s, Enter(v, s).value) == v
  {
    InsertWhatIsThere(v.members, s.key);
    if s.index.Some? {
      var items := Get(v.members, s.key).value.items;
      assert items[s.index.value := items[s.index.value]] == items;
    }
    hide Insert, Get;
  }

  // ---- when a write is refused ----

  /** Everything on the way is there in the kind the path needs, or not there at all. */
  predicate Fits(v: Value, steps: seq<Step>) {
    && v.Object?
    && forall i :: 0 <= i < |steps| ==> FitsAt(v, steps, i)
  }

  predicate FitsAt(v: Value, steps: seq<Step>, i: nat)
    requires i < |steps|
  {
    var there := Read(v, steps[..i] + [Step(steps[i].key, None)]);
    && (steps[i].index.Some? ==> there.None? || there.value.Array?)
    && (steps[i].index.None? && i < |steps| - 1 ==> there.None? || there.value.Object?)
  }

  /** A write succeeds exactly when every value its path leads through is absent, or an object, or
      where the path has an index an array. A null in the way refuses it; a scalar array element
      does not, it is overwritten. */
  lemma {:induction false} WriteFits(v: Value, steps: seq<Step>, x: Value)
    requires steps != []
    ensures Write(v, steps, x).Ok? <==> Fits(v, steps)
    decreases |steps|
  {
    WriteOneStep(v, steps, x);
    var s := steps[0];
    FirstFits(v, steps);
    if Base(v, s).Some? && |steps| > 1 {
      var base := Base(v, s).value;
      WriteFits(base, steps[1..], x);
      if Fits(base, steps[1..]) {
        forall i | 0 <= i < |steps| ensures FitsAt(v, steps, i) {
          if i > 0 {
            LaterFits(v, steps, i - 1);
          }
        }
      }
      if Fits(v, steps) {
        forall i | 0 <= i < |steps| - 1 ensures FitsAt(base, steps[1..], i) {
          LaterFits(v, steps, i);
        }
      }
    }
    hide Write, Base, FitsAt;
  }

  lemma FirstFits(v: Value, steps: seq<Step>)
    requires steps != []
    ensures v.Object? && FitsAt(v, steps, 0) <==>
              Base(v, steps[0]).Some? && (|steps| > 1 ==> Base(v, steps[0]).value.Object?)
  {
    var s := steps[0];
    var q := steps[..0] + [Step(s.key, None)];
    assert q == [Step(s.key, None)] && q[1..] == [];
    assert Read(v, q) == Enter(v, q[0]);
    hide Get;
  }

  lemma LaterFits(v: Value, steps: seq<Step>, i: nat)
    requires i + 1 < |steps| && Base(v, steps[0]).Some? && Base(v, steps[0]).value.Object?
    ensures FitsAt(Base(v, steps[0]).value, steps[1..], i) <==> FitsAt(v, steps, i + 1)
  {
    var s, base := steps[0], Base(v, steps[0]).value;
    var last := Step(steps[i + 1].key, None);
    var q := steps[1..][..i] + [last];
    assert steps[..i + 1] + [last] == [s] + q;
    assert ([s] + q)[1..] == q;
    BaseIsThere(v, s);
    NothingInsideScalars(Object([]), q);
    if Enter(v, s).Some? && !Enter(v, s).value.Object? {
      NothingInsideScalars(Enter(v, s).value, q);
    }
    hide Base, Enter;
  }

  /** Nothing is in the way of the first `d` segments, and the next leads to a value that is no array
      where it has an index, and no object where it has none. */
  predicate StopsAt(v: Value, steps: seq<Step>, d: nat, e: WriteError) {
    && d < |steps| && v.Object? && !FitsAt(v, steps, d) && (forall i :: 0 <= i < d ==> FitsAt(v, steps, i))
    && e == if steps[d].index.Some? then NotAnArray(d) else NotAnObject(d + 1)
  }

  lemma FirstStep(v: Value, steps: seq<Step>, x: Value)
    requires steps != []
    ensures !v.Object? ==> Write(v, steps, x) == Err(NotAnObject(0))
    ensures v.Object? && Base(v, steps[0]).None? ==>
              steps[0].index.Some? && Write(v, steps, x) == Err(NotAnArray(0))
    ensures Base(v, steps[0]).Some? ==>
              var w := Write(Base(v, steps[0]).value, steps[1..], x);
              && (w.Ok? <==> Write(v, steps, x).Ok?)
              && (w.Err? ==> Write(v, steps, x) == Deeper(w))
  {}

  lemma StopsFirst(v: Value, steps: seq<Step>, x: Value)
    requires steps != [] && v.Object? && Write(v, steps, x).Err?
    requires Base(v, steps[0]).None? || (|steps| > 1 && !Base(v, steps[0]).value.Object?)
    ensures StopsAt(v, steps, 0, Write(v, steps, x).error)
  {
    var s := steps[0];
    FirstStep(v, steps, x);
    FirstFits(v, steps);
    if Base(v, s).Some? {
      FirstStep(Base(v, s).value, steps[1..], x);
      if s.index.Some? {
        ArraysLeadToObjects(v, s);
      }
    }
    hide Write, Base, FitsAt;
  }

  lemma StopsLater(v: Value, steps: seq<Step>, d: nat, e: WriteError)
    requires |steps| > 1 && v.Object? && Base(v, steps[0]).Some? && Base(v, steps[0]).value.Object?
    requires StopsAt(Base(v, steps[0]).value, steps[1..], d, e)
    ensures e.NotAnObject? ==> StopsAt(v, steps, d + 1, NotAnObject(e.depth + 1))
    ensures e.NotAnArray? ==> StopsAt(v, steps, d + 1, NotAnArray(e.depth + 1))
  {
    FirstFits(v, steps);
    hide Base, FitsAt;
    forall i | 0 <= i < d + 1 ensures FitsAt(v, steps, i) {
      if i > 0 {
        LaterFits(v, steps, i - 1);
      }
    }
    LaterFits(v, steps, d);
  }

  /** A refused write names the first value that is in the way. */
  lemma {:induction false} WriteStops(v: Value, steps: seq<Step>, x: Value)
    requires steps != [] && v.Object? && Write(v, steps, x).Err?
    ensures exists d: nat :: StopsAt(v, steps, d, Write(v, steps, x).error)
    decreases |steps|
  {
    FirstStep(v, steps, x);
    hide Base, StopsAt;
    if Base(v, steps[0]).None? || (|steps| > 1 && !Base(v, steps[0]).value.Object?) {
      StopsFirst(v, steps, x);
    } else {
      var base, rest := Base(v, steps[0]).value, steps[1..];
      assert rest != [];
      WriteStops(base, rest, x);
      hide Write;
      var d: nat :| StopsAt(base, rest, d, Write(base, rest, x).error);
      StopsLater(v, steps, d, Write(base, rest, x).error);
      StopsNames(base, rest, d, Write(base, rest, x).error);
      assert StopsAt(v, steps, d + 1, Write(v, steps, x).error);
    }
  }

  lemma StopsNames(v: Value, steps: seq<Step>, d: nat, e: WriteError)
    requires StopsAt(v, steps, d, e)
    ensures e.NotAnObject? || e.NotAnArray?
  {}

  lemma ArraysLeadToObjects(v: Value, s: Step)
    requires Base(v, s).Some? && s.index.Some?
    ensures Base(v, s).value.Object?
  {}
}
