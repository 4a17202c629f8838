/**
 The session's answer to "may I" (`crates/core/src/can_i.rs`): a cell with a claim and a generation,
 and what every interleaving of its callers leaves visible. One call is one step: the lock.
 */
module CanI {
  import opened Wrappers
  import opened Text
  import opened Letters

  // ---- the answer ----

  datatype CanI = Yes(via: string) | No(missing: seq<string>) | Unknown(why: string)

  datatype CanIndex = CanIndex(roles: Option<seq<string>>, why: Option<string>) {
    /** Whether an action that accepts these roles is permitted. */
    function Can(accepted: seq<string>): CanI {
      if roles.None? then Unknown(if why.Some? then why.value else "resolving authorization policies")
      else if accepted == [] then Unknown("the spec lists no roles for this operation")
      else
        var via := FirstAccepted(roles.value, accepted);
        if via.Some? then Yes(via.value) else No(accepted)
    }
  }

  predicate Accepts(accepted: seq<string>, role: string) {
    exists i :: 0 <= i < |accepted| && LowerCase(accepted[i]) == LowerCase(role)
  }

  function FirstAccepted(mine: seq<string>, accepted: seq<string>): Option<string> {
    if mine == [] then None
    else if Accepts(accepted, mine[0]) then Some(mine[0])
    else FirstAccepted(mine[1..], accepted)
  }

  /** A refusal is never a guess: it is given exactly when the roles are known, the operation names
      some, and none of mine is among them. */
  lemma {:induction false} OnlyKnownRolesRefuse(index: CanIndex, accepted: seq<string>)
    ensures index.Can(accepted).No? <==>
              index.roles.Some? && accepted != [] &&
              forall i :: 0 <= i < |index.roles.value| ==> !Accepts(accepted, index.roles.value[i])
    ensures index.Can(accepted).Yes? ==>
              index.Can(accepted).via in index.roles.value && Accepts(accepted, index.Can(accepted).via)
  {
    if index.roles.Some? {
      NoneIsAccepted(index.roles.value, accepted);
    }
  }

  lemma {:induction false} NoneIsAccepted(mine: seq<string>, accepted: seq<string>)
    ensures FirstAccepted(mine, accepted).None? <==> forall i :: 0 <= i < |mine| ==> !Accepts(accepted, mine[i])
    ensures FirstAccepted(mine, accepted).Some? ==>
              FirstAccepted(mine, accepted).value in mine && Accepts(accepted, FirstAccepted(mine, accepted).value)
  {
    if mine != [] {
      NoneIsAccepted(mine[1..], accepted);
      assert forall i :: 1 <= i < |mine| ==> mine[i] == mine[1..][i - 1];
      assert mine[0] == mine[0..][0];
    }
  }

  /** One of the roles an operation names, in any case. */
  predicate IsAmong(accepted: seq<string>, role: string) {
    exists i :: 0 <= i < |accepted| && IsAnyCase(accepted[i], role)
  }

  /** The first of my roles that an operation names. */
  predicate IsFirstAmong(accepted: seq<string>, mine: seq<string>, k: nat) {
    k < |mine| && IsAmong(accepted, mine[k]) && forall j :: 0 <= j < k ==> !IsAmong(accepted, mine[j])
  }

  lemma AcceptsAnyCase(accepted: seq<string>, role: string)
    ensures Accepts(accepted, role) <==> IsAmong(accepted, role)
  {
    forall i | 0 <= i < |accepted|
      ensures LowerCase(accepted[i]) == LowerCase(role) <==> IsAnyCase(accepted[i], role)
    {
      BothFold(accepted[i], role);
    }
    hide LowerCase, IsAnyCase;
  }

  /** The role an answer names: the first of mine that counts. */
  ghost predicate IsVia(accepted: seq<string>, mine: seq<string>, via: string) {
    exists k: nat :: IsFirstAmong(accepted, mine, k) && mine[k] == via
  }

  lemma {:induction false} FirstIsFirst(mine: seq<string>, accepted: seq<string>)
    ensures forall via :: FirstAccepted(mine, accepted) == Some(via) <==> IsVia(accepted, mine, via)
  {
    if mine != [] {
      FirstIsFirst(mine[1..], accepted);
      AcceptsAnyCase(accepted, mine[0]);
      hide Accepts, IsAmong;
      if IsAmong(accepted, mine[0]) {
        assert IsFirstAmong(accepted, mine, 0);
      } else {
        FirstBehind(accepted, mine);
        hide IsFirstAmong;
        forall via ensures IsVia(accepted, mine, via) <==> IsVia(accepted, mine[1..], via) {
          if k: nat :| IsFirstAmong(accepted, mine, k) && mine[k] == via {
            assert IsFirstAmong(accepted, mine[1..], k - 1) && mine[1..][k - 1] == via;
          }
          if k: nat :| IsFirstAmong(accepted, mine[1..], k) && mine[1..][k] == via {
            assert IsFirstAmong(accepted, mine, k + 1) && mine[k + 1] == via;
          }
        }
      }
    }
  }

  lemma FirstBehind(accepted: seq<string>, mine: seq<string>)
    requires mine != [] && !IsAmong(accepted, mine[0])
    ensures forall k: nat :: IsFirstAmong(accepted, mine, k) ==> 0 < k < |mine|
    ensures forall k: nat :: IsFirstAmong(accepted, mine[1..], k) ==> k + 1 < |mine|
    ensures forall k: nat :: IsFirstAmong(accepted, mine[1..], k) <==> IsFirstAmong(accepted, mine, k + 1)
  {
    hide IsAmong;
    forall k: nat ensures IsFirstAmong(accepted, mine[1..], k) <==> IsFirstAmong(accepted, mine, k + 1) {
      assert forall j :: 0 <= j < |mine[1..]| ==> mine[1..][j] == mine[j + 1];
      assert forall j :: 1 <= j < |mine| ==> mine[j] == mine[1..][j - 1];
    }
  }

  /** The three answers: unknown without roles on either side, yes by the first of mine the operation
      names, and otherwise no, with all the operation names. */
  lemma AnswersMean(index: CanIndex, accepted: seq<string>)
    ensures var answer := index.Can(accepted);
            && (answer.Unknown? <==> index.roles.None? || accepted == [])
            && (forall via :: answer == Yes(via) <==>
                  index.roles.Some? && accepted != [] && IsVia(accepted, index.roles.value, via))
            && (answer.No? ==> answer.missing == accepted)
  {
    if index.roles.Some? {
      FirstIsFirst(index.roles.value, accepted);
    }
    hide FirstAccepted, IsVia;
  }

  // ---- the cell ----

  const DEFAULT := CanIndex(None, None)

  datatype Slot = Slot(index: CanIndex, claimed: bool, generation: nat)

  datatype Step = Claim | Set(generation: nat, index: CanIndex) | Restore(index: CanIndex) | Invalidate

  const START := Slot(DEFAULT, false, 0)

  function After(s: Slot, step: Step): Slot {
    match step
    case Claim => s.(claimed := true)
    case Set(generation, index) => if s.generation == generation then s.(index := index) else s
    case Restore(index) => if s.claimed then s else s.(index := index)
    case Invalidate => Slot(DEFAULT, false, s.generation + 1)
  }

  /** The generation a claim is given: nothing, when the claim was taken. */
  function Given(s: Slot): Option<nat> {
    if s.claimed then None else Some(s.generation)
  }

  class CanICell {
    var index: CanIndex
    var claimed: bool
    var generation: nat

    function State(): Slot
      reads this
    {
      Slot(index, claimed, generation)
    }

    constructor ()
      ensures State() == START
    {
      index, claimed, generation := DEFAULT, false, 0;
    }

    method TakeClaim() returns (r: Option<nat>)
      modifies this
      ensures State() == After(old(State()), Claim) && r == Given(old(State()))
    {
      if claimed {
        return None;
      }
      claimed := true;
      r := Some(generation);
    }

    method Get() returns (r: CanIndex)
      ensures r == State().index
    {
      r := index;
    }

    method Store(of: nat, resolved: CanIndex)
      modifies this
      ensures State() == After(old(State()), Set(of, resolved))
    {
      if generation == of {
        index := resolved;
      }
    }

    method Paint(cached: CanIndex)
      modifies this
      ensures State() == After(old(State()), Restore(cached))
    {
      if claimed {
        return;
      }
      index := cached;
    }

    method Reset()
      modifies this
      ensures State() == After(old(State()), Invalidate)
    {
      index, claimed, generation := DEFAULT, false, generation + 1;
    }
  }

  // ---- runs ----

  /** The cell after the first `n` steps of a run. */
  function At(run: seq<Step>, n: nat): Slot
    requires n <= |run|
  {
    if n == 0 then START else After(At(run, n - 1), run[n - 1])
  }

  /** What the claim at `i` was given. */
  predicate ClaimedAt(run: seq<Step>, i: nat, generation: nat) {
    i < |run| && run[i] == Claim && Given(At(run, i)) == Some(generation)
  }

  /** No reset from step `i` until after step `n`. */
  predicate NoResetBetween(run: seq<Step>, i: nat, n: nat)
    requires n <= |run|
  {
    forall k :: i <= k < n ==> run[k] != Invalidate
  }

  lemma {:induction false} GenerationsGrow(run: seq<Step>, i: nat, n: nat)
    requires i <= n <= |run|
    ensures At(run, i).generation <= At(run, n).generation
    ensures At(run, i).generation == At(run, n).generation <==> NoResetBetween(run, i, n)
    ensures At(run, i).generation == At(run, n).generation && At(run, i).claimed ==> At(run, n).claimed
    decreases n
  {
    if i < n {
      GenerationsGrow(run, i, n - 1);
      assert NoResetBetween(run, i, n) <==> NoResetBetween(run, i, n - 1) && run[n - 1] != Invalidate;
    }
  }

  /** No generation is claimed twice, and a later claim is of a later generation. */
  lemma ClaimedOnce(run: seq<Step>, i: nat, j: nat, g: nat, h: nat)
    requires i < j && ClaimedAt(run, i, g) && ClaimedAt(run, j, h)
    ensures g < h
  {
    GenerationsGrow(run, i, i + 1);
    GenerationsGrow(run, i + 1, j);
  }

  /** A claim is refused exactly when this generation has been claimed. */
  lemma {:induction false} RefusedIffClaimed(run: seq<Step>, n: nat)
    requires n <= |run|
    ensures At(run, n).claimed <==> exists i :: 0 <= i < n && ClaimedAt(run, i, At(run, n).generation)
    decreases n
  {
    if n > 0 {
      RefusedIffClaimed(run, n - 1);
      var g := At(run, n).generation;
      if run[n - 1] == Invalidate {
        forall i | 0 <= i < n ensures !ClaimedAt(run, i, g) {
          GenerationsGrow(run, i, n - 1);
        }
      } else {
        assert ClaimedAt(run, n - 1, g) <==> run[n - 1] == Claim && !At(run, n - 1).claimed;
        if At(run, n).claimed && !ClaimedAt(run, n - 1, g) {
          var i :| 0 <= i < n - 1 && ClaimedAt(run, i, g);
          assert i < n && ClaimedAt(run, i, g);
        }
      }
    }
  }

  /** Every stored resolution was claimed before: what `claim` hands out is all that `set` is called with. */
  predicate SetsAreClaimed(run: seq<Step>) {
    forall i :: 0 <= i < |run| && run[i].Set? ==> exists j :: 0 <= j < i && ClaimedAt(run, j, run[i].generation)
  }

  /** A restore that painted: nobody had claimed this generation. */
  predicate Paints(run: seq<Step>, i: nat)
    requires i < |run|
  {
    run[i].Restore? && !exists j :: 0 <= j < i && ClaimedAt(run, j, At(run, i).generation)
  }

  /** A resolution of the generation it arrives in. */
  predicate Lands(run: seq<Step>, i: nat)
    requires i < |run|
  {
    run[i].Set? && run[i].generation == At(run, i).generation
  }

  predicate Writes(run: seq<Step>, i: nat)
    requires i < |run|
  {
    Paints(run, i) || Lands(run, i)
  }

  /** The step whose index is visible: the last that wrote, when no reset came after it. */
  predicate IsShown(run: seq<Step>, i: nat, n: nat)
    requires i < n <= |run|
  {
    Writes(run, i) && NoResetBetween(run, i, n) && forall k :: i < k < n ==> !Writes(run, k)
  }

  predicate NothingShown(run: seq<Step>, n: nat)
    requires n <= |run|
  {
    forall i :: 0 <= i < n && Writes(run, i) ==> !NoResetBetween(run, i, n)
  }

  /** What is visible after any run: the last restore or resolution of this generation, else the default. */
  lemma {:induction false} VisibleIsLastWrite(run: seq<Step>, n: nat)
    requires n <= |run|
    ensures forall i :: 0 <= i < n && IsShown(run, i, n) ==> At(run, n).index == run[i].index
    ensures NothingShown(run, n) ==> At(run, n).index == DEFAULT
    ensures NothingShown(run, n) || exists i :: 0 <= i < n && IsShown(run, i, n)
    decreases n
  {
    if n > 0 {
      var last := n - 1;
      VisibleIsLastWrite(run, last);
      RefusedIffClaimed(run, last);
      assert Writes(run, last) <==>
             (run[last].Restore? && !At(run, last).claimed) ||
             (run[last].Set? && run[last].generation == At(run, last).generation);
      hide At, ClaimedAt, Paints, Lands;
      if run[last] == Invalidate {
        assert forall i :: 0 <= i < n ==> !NoResetBetween(run, i, n);
        assert At(run, n).index == DEFAULT by { LastStep(run, n); }
      } else if Writes(run, last) {
        LastStep(run, n);
        assert IsShown(run, last, n);
        assert forall i :: 0 <= i < last ==> !IsShown(run, i, n);
      } else {
        LastStep(run, n);
        assert forall i :: 0 <= i < last ==> (NoResetBetween(run, i, n) <==> NoResetBetween(run, i, last));
        assert forall i :: 0 <= i < last ==> (IsShown(run, i, n) <==> IsShown(run, i, last));
      }
    }
  }

  lemma LastStep(run: seq<Step>, n: nat)
    requires 0 < n <= |run|
    ensures At(run, n) == After(At(run, n - 1), run[n - 1])
  {}

  /** A visible resolution was claimed after the last reset: what a reset refuted never comes back. */
  lemma ShownSetsAreFresh(run: seq<Step>, i: nat, n: nat) returns (j: nat)
    requires i < n <= |run| && SetsAreClaimed(run) && IsShown(run, i, n) && run[i].Set?
    ensures j < i && ClaimedAt(run, j, run[i].generation) && NoResetBetween(run, j, n)
    ensures run[i].generation == At(run, n).generation
  {
    j :| 0 <= j < i && ClaimedAt(run, j, run[i].generation);
    GenerationsGrow(run, j, i);
    GenerationsGrow(run, i, n);
    GenerationsGrow(run, j, n);
  }

  /** A visible restore was made in this generation, before its claim. */
  lemma ShownRestoresAreUnclaimed(run: seq<Step>, i: nat, n: nat)
    requires i < n <= |run| && IsShown(run, i, n) && run[i].Restore?
    ensures At(run, i).generation == At(run, n).generation
    ensures forall j :: 0 <= j < n && ClaimedAt(run, j, At(run, n).generation) ==> i < j
  {
    GenerationsGrow(run, i, n);
  }
}
