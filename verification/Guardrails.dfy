/**
 The glob matcher every guardrail rule hangs on (`crates/core/src/guardrails.rs`).

 `Matches` is the meaning of a pattern, by recursion over the two inputs. `Glob` is the matcher
 the program runs: one loop, one backtrack point at the last star. It is proved to decide
 `Matches` for every pattern and text, within (|pattern| + 1) * (|text| + 1) steps.
 */
module Guardrails {
  import opened Wrappers

  newtype byte = b: int | 0 <= b < 256

  const STAR: byte := 42
  const QUESTION: byte := 63

  function LowerByte(b: byte): byte {
    if 65 <= b <= 90 then b + 32 else b
  }

  predicate SameIgnoringCase(a: byte, b: byte) {
    LowerByte(a) == LowerByte(b)
  }

  /** Whether one non-star pattern byte accepts one text byte. */
  predicate Accepts(p: byte, t: byte) {
    p == QUESTION || SameIgnoringCase(p, t)
  }

  /** What a pattern means: `*` is any run of bytes, `?` any one byte, the rest themselves. */
  ghost predicate Matches(p: seq<byte>, t: seq<byte>) {
    MatchesFrom(p, t, 0, 0)
  }

  /** The pattern from `i` on matches exactly the text from `j` on. */
  ghost predicate MatchesFrom(p: seq<byte>, t: seq<byte>, i: nat, j: nat)
    requires i <= |p| && j <= |t|
    decreases |p| - i, |t| - j
  {
    if i == |p| then j == |t|
    else if p[i] == STAR then
      MatchesFrom(p, t, i + 1, j) || (j < |t| && MatchesFrom(p, t, i, j + 1))
    else
      j < |t| && Accepts(p[i], t[j]) && MatchesFrom(p, t, i + 1, j + 1)
  }

  /** A star reaches from `j` whatever it reaches from further right. */
  lemma {:induction false} StarSwallows(p: seq<byte>, t: seq<byte>, i: nat, j: nat, k: nat)
    requires i < |p| && p[i] == STAR && j <= k <= |t|
    requires MatchesFrom(p, t, i, k)
    ensures MatchesFrom(p, t, i, j)
    decreases k - j
  {
    if j < k {
      StarSwallows(p, t, i, j + 1, k);
    }
  }

  /** ... and whatever it matches, it matches by giving up some suffix to the rest. */
  lemma {:induction false} StarYields(p: seq<byte>, t: seq<byte>, i: nat, j: nat) returns (k: nat)
    requires i < |p| && p[i] == STAR && j <= |t| && MatchesFrom(p, t, i, j)
    ensures j <= k <= |t| && MatchesFrom(p, t, i + 1, k)
    decreases |t| - j
  {
    if MatchesFrom(p, t, i + 1, j) {
      k := j;
    } else {
      k := StarYields(p, t, i, j + 1);
    }
  }

  /** The `n` pattern bytes from `i` hold no star and accept the `n` text bytes from `j`. */
  ghost predicate Aligned(p: seq<byte>, t: seq<byte>, i: nat, j: nat, n: nat) {
    n == 0 ||
    (i + n <= |p| && j + n <= |t| && Aligned(p, t, i, j, n - 1) &&
     p[i + n - 1] != STAR && Accepts(p[i + n - 1], t[j + n - 1]))
  }

  /** A star-free run of the pattern consumes exactly its own length, wherever it is tried. */
  lemma {:induction false} RunConsumes(p: seq<byte>, t: seq<byte>, i: nat, j: nat, n: nat, k: nat)
    requires i + n <= |p| && j <= |t| && k <= |t| && Aligned(p, t, i, j, n)
    ensures MatchesFrom(p, t, i, k) ==> k + n <= |t| && MatchesFrom(p, t, i + n, k + n)
    ensures k == j && j + n <= |t| ==>
              (MatchesFrom(p, t, i, j) <==> MatchesFrom(p, t, i + n, j + n))
  {
    if n > 0 {
      RunConsumes(p, t, i, j, n - 1, k);
    }
  }

  /** Where to resume after a mismatch: behind the latest star in the pattern, and at the first byte of
      the text that star has not taken. */
  datatype Backtrack = Backtrack(after: nat, from: nat)

  /** What the loop keeps: the whole question has become a question about this state. */
  ghost predicate Reduced(p: seq<byte>, t: seq<byte>, star: Option<Backtrack>, pi: nat, ti: nat) {
    && pi <= |p| && ti <= |t|
    && match star
       case None => Matches(p, t) <==> MatchesFrom(p, t, pi, ti)
       case Some(Backtrack(after, from)) =>
         && 1 <= after <= pi && from <= ti && pi - after == ti - from
         && p[after - 1] == STAR && Aligned(p, t, after, from, pi - after)
         && (Matches(p, t) <==> MatchesFrom(p, t, after - 1, from))
  }

  /** The exchange argument: once a later star is reached, only it matters. */
  lemma OnlyTheLastStarMatters(p: seq<byte>, t: seq<byte>, star: Option<Backtrack>, pi: nat, ti: nat)
    requires Reduced(p, t, star, pi, ti) && pi < |p| && p[pi] == STAR
    ensures Matches(p, t) <==> MatchesFrom(p, t, pi, ti)
  {
    match star {
      case None =>
      case Some(Backtrack(after, from)) =>
        if Matches(p, t) {
          var k := StarYields(p, t, after - 1, from);
          RunConsumes(p, t, after, from, pi - after, k);
          StarSwallows(p, t, pi, ti, k + (pi - after));
        }
        RunConsumes(p, t, after, from, pi - after, from);
    }
  }

  /** A mismatch rules out what the star has swallowed so far, and only that. */
  lemma MismatchMovesTheStar(p: seq<byte>, t: seq<byte>, star: Option<Backtrack>, pi: nat, ti: nat)
    requires Reduced(p, t, star, pi, ti) && ti < |t|
    requires pi < |p| ==> p[pi] != STAR && !Accepts(p[pi], t[ti])
    ensures star.None? ==> !Matches(p, t)
    ensures star.Some? ==>
              Reduced(p, t, Some(Backtrack(star.value.after, star.value.from + 1)), star.value.after,
                      star.value.from + 1)
  {
    assert !MatchesFrom(p, t, pi, ti);
    if star.Some? {
      RunConsumes(p, t, star.value.after, star.value.from, pi - star.value.after, star.value.from);
    }
  }

  /** With the text used up, letting the star swallow more cannot help: the rest only shortens. */
  lemma TextUsedUp(p: seq<byte>, t: seq<byte>, star: Option<Backtrack>, pi: nat)
    requires Reduced(p, t, star, pi, |t|)
    ensures Matches(p, t) <==> MatchesFrom(p, t, pi, |t|)
  {
    match star {
      case None =>
      case Some(Backtrack(after, from)) =>
        if Matches(p, t) {
          var k := StarYields(p, t, after - 1, from);
          RunConsumes(p, t, after, from, pi - after, k);
        }
        RunConsumes(p, t, after, from, pi - after, from);
    }
  }

  ghost function Swallowed(star: Option<Backtrack>): nat {
    if star.None? then 0 else star.value.from
  }

  /** The steps `turns` full passes over a pattern of this width can take. */
  ghost function Passes(turns: nat, width: nat): nat {
    if turns == 0 then 0 else Passes(turns - 1, width) + width
  }

  lemma {:induction false} PassesGrow(a: nat, b: nat, width: nat)
    requires a <= b
    ensures Passes(a, width) <= Passes(b, width)
    decreases b
  {
    if a < b {
      PassesGrow(a, b - 1, width);
    }
  }

  lemma {:induction false} PassesMultiply(turns: nat, width: nat)
    ensures Passes(turns, width) == turns * width
  {
    if turns > 0 {
      PassesMultiply(turns - 1, width);
      assert turns * width == (turns - 1) * width + width;
    }
  }

  lemma WithinBudget(swallowed: nat, p: nat, t: nat, pi: nat, steps: nat)
    requires swallowed <= t && pi <= p && steps <= Passes(swallowed, p + 1) + pi
    ensures steps < (p + 1) * (t + 1)
  {
    PassesGrow(swallowed, t, p + 1);
    PassesMultiply(t, p + 1);
  }

  /**
   The matcher itself. `steps` counts the turns of both loops; the lexicographic measure - the
   star only ever moves right, and between two moves the pattern index grows - bounds it.
   */
  method Glob(p: seq<byte>, t: seq<byte>) returns (matched: bool, ghost steps: nat)
    ensures matched <==> Matches(p, t)
    ensures steps <= (|p| + 1) * (|t| + 1)
  {
    var pi: nat, ti: nat := 0, 0;
    var star: Option<Backtrack> := None;
    steps := 0;
    while ti < |t|
      invariant Reduced(p, t, star, pi, ti)
      invariant steps <= Passes(Swallowed(star), |p| + 1) + pi
      decreases |t| - Swallowed(star), |p| - pi
    {
      steps := steps + 1;
      if pi < |p| && p[pi] == STAR {
        OnlyTheLastStarMatters(p, t, star, pi, ti);
        PassesGrow(Swallowed(star), ti, |p| + 1);
        star := Some(Backtrack(pi + 1, ti));
        pi := pi + 1;
      } else if pi < |p| && p[pi] == QUESTION {
        pi, ti := pi + 1, ti + 1;
      } else if pi < |p| && SameIgnoringCase(p[pi], t[ti]) {
        pi, ti := pi + 1, ti + 1;
      } else {
        MismatchMovesTheStar(p, t, star, pi, ti);
        match star {
          case None =>
            WithinBudget(0, |p|, |t|, pi, steps - 1);
            return false, steps;
          case Some(Backtrack(after, from)) =>
            star := Some(Backtrack(after, from + 1));
            pi, ti := after, from + 1;
        }
      }
    }
    TextUsedUp(p, t, star, pi);
    while pi < |p| && p[pi] == STAR
      invariant pi <= |p|
      invariant Matches(p, t) <==> MatchesFrom(p, t, pi, |t|)
      invariant steps <= Passes(Swallowed(star), |p| + 1) + pi
    {
      pi := pi + 1;
      steps := steps + 1;
    }
    matched := pi == |p|;
    WithinBudget(Swallowed(star), |p|, |t|, pi, steps);
  }
}
