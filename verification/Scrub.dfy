/**
 Taking credentials out of a row before it is written to disk (`scrub` in `crates/core/src/cache.rs`,
 by the rule of `crates/catalog/src/secret.rs`).
 */
module Scrub {
  import opened Wrappers
  import opened Text
  import opened Json
  import opened Secrets

  /** A member that is never written to disk. */
  predicate IsSecret(m: Member) {
    && !StartsWith(m.key, "$")
    && (|| LowerCase(m.key) == LowerCase(OPAQUE_KEY)
        || IsSecretName(m.key)
        || (m.key == "key" && m.value.String? && IsKeyMaterial(m.value.s)))
  }

  function Scrubbed(v: Value): Value {
    match v
    case Object(members) => Object(ScrubbedMembers(members))
    case Array(items) => Array(ScrubbedItems(items))
    case _ => v
  }

  function ScrubbedMembers(members: seq<Member>): seq<Member> {
    if members == [] then []
    else (if IsSecret(members[0]) then [] else [Member(members[0].key, Scrubbed(members[0].value))])
         + ScrubbedMembers(members[1..])
  }

  function ScrubbedItems(items: seq<Value>): (r: seq<Value>)
    ensures |r| == |items| && forall i :: 0 <= i < |items| ==> r[i] == Scrubbed(items[i])
  {
    if items == [] then [] else [Scrubbed(items[0])] + ScrubbedItems(items[1..])
  }

  // ---- the walk ----

  /** `Map::retain` by the rule. */
  function Retained(members: seq<Member>): seq<Member> {
    if members == [] then []
    else if IsSecret(members[0]) then Retained(members[1..])
    else [members[0]] + Retained(members[1..])
  }

  lemma {:induction false} RetainedAreKept(members: seq<Member>)
    ensures forall m :: m in Retained(members) ==> m in members && !IsSecret(m)
  {
    if members != [] {
      RetainedAreKept(members[1..]);
    }
  }

  /** The rule judges a member before the walk goes into it: the two passes are one. */
  lemma {:induction false} RetainThenScrub(members: seq<Member>)
    ensures ScrubbedMembers(Retained(members)) == ScrubbedMembers(members)
  {
    if members != [] {
      RetainThenScrub(members[1..]);
      if !IsSecret(members[0]) {
        assert Retained(members)[1..] == Retained(members[1..]);
      } else {
        assert Retained(members) == Retained(members[1..]);
      }
    }
  }

  /** What the loop over a map has still to do, when the members judged are all kept. */
  lemma ScrubbedStep(members: seq<Member>, i: nat)
    requires i < |members| && !IsSecret(members[i])
    ensures ScrubbedMembers(members[i..]) ==
              [Member(members[i].key, Scrubbed(members[i].value))] + ScrubbedMembers(members[i + 1..])
  {
    assert members[i..][0] == members[i] && members[i..][1..] == members[i + 1..];
  }

  method Retain(members: seq<Member>) returns (r: seq<Member>)
    ensures r == Retained(members)
  {
    r := [];
    assert members[0..] == members;
    hide IsSecret, Retained;
    var i := 0;
    while i < |members|
      invariant 0 <= i <= |members| && r + Retained(members[i..]) == Retained(members)
    {
      RetainedStep(members, i);
      if !IsSecret(members[i]) {
        r := r + [members[i]];
      }
      i := i + 1;
    }
    RetainedNothing(members[i..]);
  }

  lemma RetainedNothing(members: seq<Member>)
    ensures members == [] ==> Retained(members) == []
  {}

  lemma RetainedStep(members: seq<Member>, i: nat)
    requires i < |members|
    ensures IsSecret(members[i]) ==> Retained(members[i..]) == Retained(members[i + 1..])
    ensures !IsSecret(members[i]) ==> Retained(members[i..]) == [members[i]] + Retained(members[i + 1..])
  {
    assert members[i..][0] == members[i] && members[i..][1..] == members[i + 1..];
    hide IsSecret;
  }

  method ScrubTree(v: Value) returns (r: Value)
    ensures r == Scrubbed(v)
    decreases v
  {
    match v {
      case Object(members) =>
        var kept := Retain(members);
        RetainThenScrub(members);
        RetainedAreKept(members);
        assert kept[0..] == kept;
        var out := [];
        var i := 0;
        hide IsSecret, Scrubbed, Retained;
        while i < |kept|
          invariant 0 <= i <= |kept|
          invariant out + ScrubbedMembers(kept[i..]) == ScrubbedMembers(kept)
        {
          assert kept[i] in members;
          ScrubbedStep(kept, i);
          var inner := ScrubTree(kept[i].value);
          out := out + [Member(kept[i].key, inner)];
          i := i + 1;
        }
        assert kept[i..] == [] && ScrubbedMembers([]) == [];
        r := Object(out);
        ScrubbedObject(members);
      case Array(items) =>
        var out := [];
        var i := 0;
        while i < |items|
          invariant 0 <= i <= |items| && |out| == i
          invariant forall k :: 0 <= k < i ==> out[k] == Scrubbed(items[k])
        {
          var inner := ScrubTree(items[i]);
          out := out + [inner];
          i := i + 1;
        }
        assert out == ScrubbedItems(items);
        r := Array(out);
      case _ =>
        r := v;
    }
  }

  lemma ScrubbedObject(members: seq<Member>)
    ensures Scrubbed(Object(members)) == Object(ScrubbedMembers(members))
  {}

  // ---- nothing secret is left ----

  /** A member anywhere in a document, at any depth. */
  predicate Occurs(m: Member, v: Value) {
    match v
    case Object(members) => OccursInMembers(m, members)
    case Array(items) => OccursInItems(m, items)
    case _ => false
  }

  predicate OccursInMembers(m: Member, members: seq<Member>) {
    members != [] && (members[0] == m || Occurs(m, members[0].value) || OccursInMembers(m, members[1..]))
  }

  predicate OccursInItems(m: Member, items: seq<Value>) {
    items != [] && (Occurs(m, items[0]) || OccursInItems(m, items[1..]))
  }

  lemma SecretStaysJudged(m: Member)
    requires !IsSecret(m)
    ensures !IsSecret(Member(m.key, Scrubbed(m.value)))
  {}

  /** No secret is left, however deep. */
  lemma {:induction false} NothingSecretIsLeft(v: Value, m: Member)
    requires Occurs(m, Scrubbed(v))
    ensures !IsSecret(m)
    decreases v, 1
  {
    match v {
      case Object(members) => NoSecretMembers(members, m);
      case Array(items) => NoSecretItems(items, m);
      case _ =>
    }
  }

  lemma {:induction false} NoSecretMembers(members: seq<Member>, m: Member)
    requires OccursInMembers(m, ScrubbedMembers(members))
    ensures !IsSecret(m)
    decreases members, 0
  {
    var first, rest := members[0], ScrubbedMembers(members[1..]);
    hide IsSecret;
    if IsSecret(first) {
      assert ScrubbedMembers(members) == rest;
      NoSecretMembers(members[1..], m);
    } else {
      var kept := Member(first.key, Scrubbed(first.value));
      assert ScrubbedMembers(members) == [kept] + rest && ([kept] + rest)[1..] == rest;
      if kept == m {
        SecretStaysJudged(first);
      } else if Occurs(m, kept.value) {
        NothingSecretIsLeft(first.value, m);
      } else {
        NoSecretMembers(members[1..], m);
      }
    }
  }

  lemma {:induction false} NoSecretItems(items: seq<Value>, m: Member)
    requires OccursInItems(m, ScrubbedItems(items))
    ensures !IsSecret(m)
    decreases items, 0
  {
    assert ScrubbedItems(items)[1..] == ScrubbedItems(items[1..]);
    if Occurs(m, Scrubbed(items[0])) {
      NothingSecretIsLeft(items[0], m);
    } else {
      NoSecretItems(items[1..], m);
    }
  }

  // ---- nothing else is touched ----

  ghost predicate IsClean(v: Value) {
    forall m :: Occurs(m, v) ==> !IsSecret(m)
  }

  /** A document without secrets stays as it is. */
  lemma {:induction false} CleanIsKept(v: Value)
    requires IsClean(v)
    ensures Scrubbed(v) == v
    decreases v, 1
  {
    match v {
      case Object(members) =>
        assert forall m :: OccursInMembers(m, members) ==> Occurs(m, v);
        CleanMembersAreKept(members);
      case Array(items) =>
        assert forall m :: OccursInItems(m, items) ==> Occurs(m, v);
        CleanItemsAreKept(items);
      case _ =>
    }
  }

  lemma {:induction false} CleanMembersAreKept(members: seq<Member>)
    requires forall m :: OccursInMembers(m, members) ==> !IsSecret(m)
    ensures ScrubbedMembers(members) == members
    decreases members, 0
  {
    if members != [] {
      var first, rest := members[0], members[1..];
      assert OccursInMembers(first, members);
      assert forall m :: Occurs(m, first.value) ==> OccursInMembers(m, members);
      assert forall m :: OccursInMembers(m, rest) ==> OccursInMembers(m, members);
      CleanIsKept(first.value);
      CleanMembersAreKept(rest);
      assert members == [first] + rest;
    }
  }

  lemma {:induction false} CleanItemsAreKept(items: seq<Value>)
    requires forall m :: OccursInItems(m, items) ==> !IsSecret(m)
    ensures ScrubbedItems(items) == items
    decreases items, 0
  {
    if items != [] {
      assert forall m :: Occurs(m, items[0]) ==> OccursInItems(m, items);
      assert forall m :: OccursInItems(m, items[1..]) ==> OccursInItems(m, items);
      CleanIsKept(items[0]);
      CleanItemsAreKept(items[1..]);
      assert items == [items[0]] + items[1..];
    }
  }

  /** Scrubbing changes a document exactly when there is a secret in it; so a second time changes nothing. */
  lemma ScrubsExactlySecrets(v: Value)
    ensures Scrubbed(v) == v <==> IsClean(v)
    ensures Scrubbed(Scrubbed(v)) == Scrubbed(v)
  {
    forall m | Occurs(m, Scrubbed(v)) ensures !IsSecret(m) {
      NothingSecretIsLeft(v, m);
    }
    CleanIsKept(Scrubbed(v));
    if IsClean(v) {
      CleanIsKept(v);
    }
  }

  /** A way into a document: keys and positions. */
  datatype Turn = Key(key: string) | Position(n: nat)

  function Step(v: Value, t: Turn): Option<Value> {
    match t
    case Key(key) => Lookup(v, key)
    case Position(n) => if v.Array? && n < |v.items| then Some(v.items[n]) else None
  }

  function Find(v: Value, path: seq<Turn>): Option<Value> {
    if path == [] then Some(v)
    else
      var next := Step(v, path[0]);
      if next.None? then None else Find(next.value, path[1..])
  }

  /** No member on the way is a secret. */
  predicate WayIsKept(v: Value, path: seq<Turn>) {
    path != [] ==>
      var next := Step(v, path[0]);
      next.Some? ==>
        (path[0].Key? ==> !IsSecret(Member(path[0].key, next.value))) && WayIsKept(next.value, path[1..])
  }

  /** No object in the document has a key twice. */
  predicate IsDocument(v: Value) {
    match v
    case Object(members) => DistinctKeys(members) && MembersAreDocuments(members)
    case Array(items) => ItemsAreDocuments(items)
    case _ => true
  }

  predicate MembersAreDocuments(members: seq<Member>) {
    members != [] ==> IsDocument(members[0].value) && MembersAreDocuments(members[1..])
  }

  predicate ItemsAreDocuments(items: seq<Value>) {
    items != [] ==> IsDocument(items[0]) && ItemsAreDocuments(items[1..])
  }

  lemma {:induction false} NoSecretsUnderKey(members: seq<Member>, key: string)
    requires forall i :: 0 <= i < |members| ==> members[i].key != key
    ensures Get(ScrubbedMembers(members), key) == None
  {
    if members != [] {
      assert forall i :: 0 <= i < |members[1..]| ==> members[1..][i] == members[i + 1];
      NoSecretsUnderKey(members[1..], key);
      if !IsSecret(members[0]) {
        assert ScrubbedMembers(members)[1..] == ScrubbedMembers(members[1..]);
      } else {
        assert ScrubbedMembers(members) == ScrubbedMembers(members[1..]);
      }
    }
  }

  /** One key: gone when its member is a secret, else scrubbed in its place. */
  lemma {:induction false} GetScrubbed(members: seq<Member>, key: string)
    requires DistinctKeys(members)
    ensures Get(ScrubbedMembers(members), key) ==
              var there := Get(members, key);
              if there.None? || IsSecret(Member(key, there.value)) then None else Some(Scrubbed(there.value))
  {
    if members != [] {
      var rest := members[1..];
      assert forall i :: 0 <= i < |rest| ==> rest[i] == members[i + 1];
      assert members[0] == Member(members[0].key, members[0].value);
      if members[0].key == key {
        NoSecretsUnderKey(rest, key);
      } else {
        GetScrubbed(rest, key);
      }
      if IsSecret(members[0]) {
        assert ScrubbedMembers(members) == ScrubbedMembers(rest);
      } else {
        assert ScrubbedMembers(members)[1..] == ScrubbedMembers(rest);
      }
    }
  }

  lemma {:induction false} StepsAreDocuments(members: seq<Member>, key: string)
    requires MembersAreDocuments(members) && Get(members, key).Some?
    ensures IsDocument(Get(members, key).value)
  {
    if members[0].key != key {
      StepsAreDocuments(members[1..], key);
    }
  }

  lemma {:induction false} ItemsOfDocuments(items: seq<Value>, n: nat)
    requires ItemsAreDocuments(items) && n < |items|
    ensures IsDocument(items[n])
  {
    if n > 0 {
      ItemsOfDocuments(items[1..], n - 1);
    }
  }

  lemma StepScrubbed(v: Value, t: Turn)
    requires IsDocument(v)
    ensures Step(Scrubbed(v), t) ==
              var next := Step(v, t);
              if next.None? || (t.Key? && IsSecret(Member(t.key, next.value))) then None else Some(Scrubbed(next.value))
    ensures Step(v, t).Some? ==> IsDocument(Step(v, t).value)
  {
    match t {
      case Key(key) =>
        if v.Object? {
          GetScrubbed(v.members, key);
          if Get(v.members, key).Some? {
            StepsAreDocuments(v.members, key);
          }
        }
      case Position(n) =>
        if v.Array? && n < |v.items| {
          ItemsOfDocuments(v.items, n);
        }
    }
  }

  /** What is found in a scrubbed row: what was there, scrubbed, unless a secret is on the way. */
  lemma {:induction false} FoundAfterScrub(v: Value, path: seq<Turn>)
    requires IsDocument(v)
    ensures Find(Scrubbed(v), path) ==
              if Find(v, path).Some? && WayIsKept(v, path) then Some(Scrubbed(Find(v, path).value)) else None
    decreases |path|
  {
    if path != [] {
      StepScrubbed(v, path[0]);
      if Step(v, path[0]).Some? {
        FoundAfterScrub(Step(v, path[0]).value, path[1..]);
      }
      hide Step, Scrubbed, IsSecret, IsDocument;
    }
  }

  /** Schema annotations are always kept. */
  lemma AnnotationsAreKept(members: seq<Member>, key: string)
    requires DistinctKeys(members) && StartsWith(key, "$")
    ensures Get(members, key).Some? ==> Get(ScrubbedMembers(members), key) == Some(Scrubbed(Get(members, key).value))
  {
    GetScrubbed(members, key);
  }
}
