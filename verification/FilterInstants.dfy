/**
 How the filter language orders two instants with fractions of a second (`instant_key` in
 `crates/mockpc/src/filter.rs`): by time, up to nine digits and for most longer ones.
 */
module FilterInstants {
  import opened Text
  import opened Stamps
  import opened Filter
  import opened FilterEval
  import opened Evidence

  /** A second of a four-digit year and its fraction, as a time stamp. */
  function Precise(secs: nat, fraction: string): string {
    var s := Rfc3339(secs);
    if fraction == "" || |s| < 19 then s else s[..19] + "." + fraction + "Z"
  }

  /** The first `n` digits of a fraction, zeros behind it, as a number. */
  function FractionOf(fraction: string, n: nat): nat
    requires All(fraction, IsDigit)
    decreases n
  {
    if n == 0 || fraction == "" then 0
    else (fraction[0] as int - '0' as int) * PowerOfTen(n - 1) + FractionOf(fraction[1..], n - 1)
  }

  /** The instant of a stamp, counted in the `n`th decimals of a second. */
  function InstantOf(secs: nat, fraction: string, n: nat): nat
    requires All(fraction, IsDigit)
  {
    secs * PowerOfTen(n) + FractionOf(fraction, n)
  }

  predicate IsProperPrefix(x: string, y: string) { x <= y && x != y }

  // ---- fractions ----

  lemma {:induction false} FractionIsLess(fraction: string, n: nat)
    requires All(fraction, IsDigit)
    ensures FractionOf(fraction, n) < PowerOfTen(n)
    decreases n
  {
    if n > 0 && fraction != "" {
      FractionIsLess(fraction[1..], n - 1);
      FractionAhead(fraction, n);
      assert PowerOfTen(n) == 10 * PowerOfTen(n - 1);
      hide FractionOf, PowerOfTen;
      DigitFits(fraction[0] as int - '0' as int, FractionOf(fraction[1..], n - 1), PowerOfTen(n - 1));
    } else {
      PowersArePositive(n);
    }
  }

  lemma DigitFits(d: nat, r: nat, unit: nat)
    requires d <= 9 && r < unit
    ensures d * unit + r < 10 * unit
  {
    assert d * unit <= 9 * unit;
  }

  lemma {:induction false} PowersArePositive(n: nat)
    ensures PowerOfTen(n) > 0
  {
    if n > 0 {
      PowersArePositive(n - 1);
    }
  }

  lemma {:induction false} ZerosAddNothing(fraction: string, k: nat, n: nat)
    requires All(fraction, IsDigit)
    ensures All(fraction + seq(k, _ => '0'), IsDigit)
    ensures FractionOf(fraction + seq(k, _ => '0'), n) == FractionOf(fraction, n)
    decreases |fraction| + k
  {
    var t := fraction + seq(k, _ => '0');
    if fraction != "" {
      if n > 0 {
        ZerosAddNothing(fraction[1..], k, n - 1);
        assert t[1..] == fraction[1..] + seq(k, _ => '0');
      }
    } else if k > 0 {
      if n > 0 {
        ZerosAddNothing("", k - 1, n - 1);
        assert t[1..] == "" + seq(k - 1, _ => '0');
      }
    } else {
      assert t == fraction;
    }
  }

  lemma PaddedFraction(fraction: string, n: nat)
    requires All(fraction, IsDigit)
    ensures All(PadRight(fraction, 9), IsDigit) && FractionOf(PadRight(fraction, 9), n) == FractionOf(fraction, n)
  {
    if |fraction| < 9 {
      ZerosAddNothing(fraction, 9 - |fraction|, n);
    }
  }

  lemma CompareHeads(c: char, d: char, s: string, t: string)
    requires IsAscii(c) && IsAscii(d)
    ensures CompareText([c] + s, [d] + t) == if c == d then CompareText(s, t) else CompareInts(c as int, d as int)
  {
    CompareTextBlocks([c], [d], s, t);
    assert Utf8([c]) == [c as int] && Utf8([d]) == [d as int] by {
      assert [c][1..] == "" && [d][1..] == "";
    }
    CompareEqual([c as int], [d as int]);
    assert c != d ==> [c] != [d];
    assert [c][0] == c && [d][0] == d;
  }

  /** What two fractions compare as in a key, before its `Z`: as numbers, unless one goes on where the
      other ends; then the longer comes first, although it is no less. */
  lemma {:induction false} FractionsOrder(x: string, y: string, n: nat)
    requires All(x, IsDigit) && All(y, IsDigit) && |x| <= n && |y| <= n
    ensures var o := CompareText(x + "Z", y + "Z");
            && (IsProperPrefix(x, y) ==> o == Greater && FractionOf(x, n) <= FractionOf(y, n))
            && (IsProperPrefix(y, x) ==> o == Less && FractionOf(x, n) >= FractionOf(y, n))
            && (!IsProperPrefix(x, y) && !IsProperPrefix(y, x) ==>
                  o == CompareInts(FractionOf(x, n), FractionOf(y, n)))
  {
    hide CompareText;
    if x == "" && y == "" {
      SameTextsCompareEqual("Z");
      assert x + "Z" == "Z" && y + "Z" == "Z";
    } else if x == "" {
      CompareHeads('Z', y[0], "", y[1..] + "Z");
      assert x + "Z" == ['Z'] + "" && y + "Z" == [y[0]] + (y[1..] + "Z");
    } else if y == "" {
      CompareHeads(x[0], 'Z', x[1..] + "Z", "");
      assert x + "Z" == [x[0]] + (x[1..] + "Z") && y + "Z" == ['Z'] + "";
    } else {
      CompareHeads(x[0], y[0], x[1..] + "Z", y[1..] + "Z");
      assert x + "Z" == [x[0]] + (x[1..] + "Z") && y + "Z" == [y[0]] + (y[1..] + "Z");
      if x[0] == y[0] {
        FractionsOrder(x[1..], y[1..], n - 1);
        SamePrefixes(x, y);
        SamePrefixes(y, x);
      } else {
        FirstDigitDecides(x, y, n);
      }
    }
  }

  lemma SamePrefixes(x: string, y: string)
    requires x != "" && y != "" && x[0] == y[0]
    ensures IsProperPrefix(x, y) <==> IsProperPrefix(x[1..], y[1..])
  {
    assert x == [x[0]] + x[1..] && y == [y[0]] + y[1..];
  }

  lemma FractionAhead(x: string, n: nat)
    requires All(x, IsDigit) && x != "" && n > 0
    ensures FractionOf(x, n) == (x[0] as int - '0' as int) * PowerOfTen(n - 1) + FractionOf(x[1..], n - 1)
  {}

  lemma FirstDigitDecides(x: string, y: string, n: nat)
    requires All(x, IsDigit) && All(y, IsDigit) && x != "" && y != "" && x[0] != y[0] && n > 0
    ensures CompareInts(FractionOf(x, n), FractionOf(y, n)) == CompareInts(x[0] as int, y[0] as int)
  {
    var c, d := x[0] as int - '0' as int, y[0] as int - '0' as int;
    FractionAhead(x, n);
    FractionAhead(y, n);
    FractionIsLess(x[1..], n - 1);
    FractionIsLess(y[1..], n - 1);
    hide FractionOf, PowerOfTen;
    HigherUnits(c, FractionOf(x[1..], n - 1), d, FractionOf(y[1..], n - 1), PowerOfTen(n - 1));
  }

  lemma HigherUnits(c: nat, r: nat, d: nat, q: nat, unit: nat)
    requires r < unit && q < unit && c != d
    ensures CompareInts(c * unit + r, d * unit + q) == CompareInts(c, d)
  {
    if c < d {
      assert (c + 1) * unit <= d * unit;
    } else {
      assert (d + 1) * unit <= c * unit;
    }
  }

  // ---- keys ----

  /** The date and time of a stamp, without its `Z`. */
  function Seconds(secs: nat): string {
    var s := Rfc3339(secs);
    if |s| < 19 then s else s[..19]
  }

  lemma SecondsText(secs: nat)
    requires secs <= LAST_SECOND
    ensures var t := Seconds(secs);
            && |t| == 19 && All(t, IsAscii) && '.' !in t && Rfc3339(secs) == t + "Z" && IsInstant(t + "Z")
  {
    hide Rfc3339, IsInstant;
    StampIsAnInstant(secs);
    var s := Rfc3339(secs);
    StampIsAWord(s);
    assert s == s[..19] + "Z";
  }

  /** A stamp with a fraction is an instant, and its key has the fraction padded to nine digits. */
  lemma KeyOfPrecise(secs: nat, fraction: string)
    requires secs <= LAST_SECOND && All(fraction, IsDigit)
    ensures IsInstant(Precise(secs, fraction))
    ensures InstantKey(Precise(secs, fraction)) == Seconds(secs) + ("." + (PadRight(fraction, 9) + "Z"))
  {
    SecondsText(secs);
    PreciseText(secs, fraction);
    hide *;
    if fraction == "" {
      KeyOfWhole(Seconds(secs));
    } else {
      KeyOfFraction(Seconds(secs), fraction);
    }
  }

  lemma PreciseText(secs: nat, fraction: string)
    requires secs <= LAST_SECOND
    ensures Precise(secs, fraction) == Seconds(secs) + (if fraction == "" then "" else "." + fraction) + "Z"
  {
    SecondsText(secs);
    hide Rfc3339, IsInstant;
    var t := Seconds(secs);
    assert t + "" + "Z" == t + "Z";
    assert t + ("." + fraction) + "Z" == t + "." + fraction + "Z";
    assert (t + "Z")[..19] == t;
  }

  lemma KeyOfWhole(t: string)
    requires |t| == 19 && All(t, IsAscii) && '.' !in t && IsInstant(t + "Z")
    ensures IsInstant(t + "" + "Z") && InstantKey(t + "" + "Z") == t + ("." + (PadRight("", 9) + "Z"))
  {
    var s := t + "Z";
    assert t + "" + "Z" == s && s[..|s| - 1] == t;
    NoPointToSplit(t);
    hide IsInstant, PadRight, SplitAtPoint;
    assert t + "." + PadRight("", 9) + "Z" == t + ("." + (PadRight("", 9) + "Z"));
  }

  lemma KeyOfFraction(t: string, fraction: string)
    requires |t| == 19 && All(t, IsAscii) && '.' !in t && IsInstant(t + "Z") && All(fraction, IsDigit)
    ensures IsInstant(t + ("." + fraction) + "Z")
    ensures InstantKey(t + ("." + fraction) + "Z") == t + ("." + (PadRight(fraction, 9) + "Z"))
  {
    var s := t + ("." + fraction) + "Z";
    FractionIsInstant(t, fraction);
    SplitsAtPoint(t, fraction);
    assert s[..|s| - 1] == t + ("." + fraction);
    hide IsInstant, PadRight, SplitAtPoint;
    assert t + "." + PadRight(fraction, 9) + "Z" == t + ("." + (PadRight(fraction, 9) + "Z"));
  }

  lemma FractionIsInstant(t: string, fraction: string)
    requires |t| == 19 && All(t, IsAscii) && IsInstant(t + "Z") && All(fraction, IsDigit)
    ensures IsInstant(t + ("." + fraction) + "Z")
  {
    var s, w := t + ("." + fraction) + "Z", t + "Z";
    assert All(s, IsAscii) && All(w, IsAscii);
    Utf8OfAscii(s);
    Utf8OfAscii(w);
    hide Utf8;
    assert s[4] == w[4] && s[7] == w[7] && s[10] == w[10];
    assert s[|s| - 1..] == "Z";
  }

  lemma {:induction false} SplitsAtPoint(t: string, fraction: string)
    requires '.' !in t
    ensures SplitAtPoint(t + ("." + fraction)) == (t, fraction)
  {
    var s := t + ("." + fraction);
    if t == "" {
      assert s == ['.'] + fraction && s[1..] == fraction;
    } else {
      assert s[1..] == t[1..] + ("." + fraction);
      SplitsAtPoint(t[1..], fraction);
      assert t == [t[0]] + t[1..];
    }
  }

  lemma SecondsOrder(a: nat, b: nat, x: string, y: string)
    requires a <= LAST_SECOND && b <= LAST_SECOND
    ensures CompareText(Seconds(a) + x, Seconds(b) + y) == if a == b then CompareText(x, y) else CompareInts(a, b)
  {
    SecondsText(a);
    SecondsText(b);
    StampsOrderAsInstants(a, b);
    hide CompareText, Seconds, Rfc3339, IsInstant;
    SameTextsCompareEqual("Z");
    CompareTextBlocks(Seconds(a), Seconds(b), "Z", "Z");
    CompareTextBlocks(Seconds(a), Seconds(b), x, y);
  }

  /** Two instants are ordered by time, whatever their fractions, exactly unless they fall in one second
      and one fraction, padded to nine digits, goes on where the other ends. */
  lemma KeysOrderAsInstantsIff(a: nat, f: string, b: nat, g: string, n: nat)
    requires a <= LAST_SECOND && b <= LAST_SECOND && All(f, IsDigit) && All(g, IsDigit)
    requires |f| <= n && |g| <= n && 9 <= n
    ensures var p, q := PadRight(f, 9), PadRight(g, 9);
            CompareText(InstantKey(Precise(a, f)), InstantKey(Precise(b, g)))
              == CompareInts(InstantOf(a, f, n), InstantOf(b, g, n)) <==>
            !(a == b && (IsProperPrefix(p, q) || IsProperPrefix(q, p)))
  {
    var p, q := PadRight(f, 9), PadRight(g, 9);
    KeyOfPrecise(a, f);
    KeyOfPrecise(b, g);
    PaddedFraction(f, n);
    PaddedFraction(g, n);
    assert |p| <= n && |q| <= n;
    InstantsCompare(a, f, b, g, n);
    hide *;
    SecondsOrder(a, b, "." + (p + "Z"), "." + (q + "Z"));
    PointsCompare(p + "Z", q + "Z");
    FractionsOrder(p, q, n);
    NotBothPrefixes(p, q);
    ComparedAlike(FractionOf(p, n), FractionOf(q, n));
  }

  lemma PointsCompare(x: string, y: string)
    ensures CompareText("." + x, "." + y) == CompareText(x, y)
  {
    CompareHeads('.', '.', x, y);
  }

  lemma NotBothPrefixes(x: string, y: string)
    ensures !(IsProperPrefix(x, y) && IsProperPrefix(y, x))
  {}

  lemma ComparedAlike(r: int, q: int)
    ensures r <= q ==> CompareInts(r, q) != Greater
    ensures r >= q ==> CompareInts(r, q) != Less
  {}

  lemma InstantsCompare(a: nat, f: string, b: nat, g: string, n: nat)
    requires All(f, IsDigit) && All(g, IsDigit)
    ensures CompareInts(InstantOf(a, f, n), InstantOf(b, g, n)) ==
              if a == b then CompareInts(FractionOf(f, n), FractionOf(g, n)) else CompareInts(a, b)
  {
    FractionIsLess(f, n);
    FractionIsLess(g, n);
    hide FractionOf, PowerOfTen;
    if a != b {
      HigherUnits(a, FractionOf(f, n), b, FractionOf(g, n), PowerOfTen(n));
    } else {
      SameUnits(a * PowerOfTen(n), FractionOf(f, n), FractionOf(g, n));
    }
  }

  lemma SameUnits(c: nat, r: nat, q: nat)
    ensures CompareInts(c + r, c + q) == CompareInts(r, q)
  {}

  /** So up to nine digits, the nanoseconds, keys always order as the instants do. */
  lemma NanosecondsOrder(a: nat, f: string, b: nat, g: string)
    requires a <= LAST_SECOND && b <= LAST_SECOND && All(f, IsDigit) && All(g, IsDigit) && |f| <= 9 && |g| <= 9
    ensures CompareText(InstantKey(Precise(a, f)), InstantKey(Precise(b, g)))
         == CompareInts(InstantOf(a, f, 9), InstantOf(b, g, 9))
  {
    KeysOrderAsInstantsIff(a, f, b, g, 9);
    hide InstantKey, Precise, CompareText;
  }

  /** A tenth digit puts an instant before the one without it, which is no later. */
  lemma TenthDigitComesFirst(secs: nat, f: string, d: char)
    requires secs <= LAST_SECOND && All(f, IsDigit) && |f| == 9 && IsDigit(d)
    ensures CompareText(InstantKey(Precise(secs, f + [d])), InstantKey(Precise(secs, f))) == Less
    ensures InstantOf(secs, f + [d], 10) >= InstantOf(secs, f, 10)
  {
    var g := f + [d];
    assert PadRight(f, 9) == f && PadRight(g, 9) == g;
    KeyOfPrecise(secs, f);
    KeyOfPrecise(secs, g);
    hide PadRight, Precise, Seconds, InstantKey, CompareText, IsInstant;
    SecondsOrder(secs, secs, "." + (g + "Z"), "." + (f + "Z"));
    CompareHeads('.', '.', g + "Z", f + "Z");
    FractionsOrder(g, f, 10);
  }
}
