/**
 Time stamps as text: the `2026-09-05T10:00:00Z` of `clock.rs` and `evidence.rs`, and the
 `20260905-100000` an export file is named with. Below year 10000 the first kind orders bytewise
 as the instants do, and reads back.
 */
module Stamps {
  import opened Wrappers
  import opened Text
  import opened Calendar

  /** The last second of year 9999: after it a year no longer fits four digits. */
  const LAST_SECOND := 253402300799

  function Rfc3339Text(d: Date, rem: nat): string
    requires IsDate(d) && d.year >= 0
  {
    Field(d.year, 4, '-') + (Field(d.month, 2, '-') + (Field(d.day, 2, 'T') + ClockText(rem)))
  }

  function ClockText(rem: nat): string {
    Field(rem / 3600, 2, ':') + (Field(rem % 3600 / 60, 2, ':') + Field(rem % 60, 2, 'Z'))
  }

  /** The day a second count falls on, and the seconds into that day. */
  function DayOf(secs: nat): nat { secs / 86400 }

  function SecondOfDay(secs: nat): nat { secs % 86400 }

  /** `clock.rs` and `evidence.rs`, which differ only in how the day count is converted. */
  function ClockRfc3339(secs: nat): string
    requires secs < U64_LIMIT
  {
    ThreeCopiesAreTheCalendar(secs);
    Rfc3339Text(ClockDate(secs), SecondOfDay(secs))
  }

  function EvidenceRfc3339(secs: nat): string
    requires secs < U64_LIMIT
  {
    ThreeCopiesAreTheCalendar(secs);
    Rfc3339Text(EvidenceDate(secs), SecondOfDay(secs))
  }

  /** `export.rs`: the name of an export file. */
  function ExportStamp(secs: nat): string
    requires secs < U64_LIMIT
  {
    ThreeCopiesAreTheCalendar(secs);
    var d, rem := StampDate(secs), SecondOfDay(secs);
    Padded(d.year, 4) + (Padded(d.month, 2) + (Field(d.day, 2, '-') +
    (Padded(rem / 3600, 2) + (Padded(rem % 3600 / 60, 2) + Padded(rem % 60, 2)))))
  }

  /** The stamp by the calendar: what both copies are compared with. */
  function Rfc3339(secs: nat): string {
    Rfc3339Text(DayAfterEpoch(DayOf(secs)), SecondOfDay(secs))
  }

  lemma StampsFollowTheCalendar(secs: nat)
    requires secs < U64_LIMIT
    ensures ClockRfc3339(secs) == EvidenceRfc3339(secs) == Rfc3339(secs)
  {
    ThreeCopiesAreTheCalendar(secs);
  }

  // ---- the order of stamps ----

  lemma LastDay()
    ensures DayOf(LAST_SECOND) == 2932896
    ensures DayAfterEpoch(2932896) == Date(9999, 12, 31)
  {
    hide DayNumber, IsDate;
    assert DayNumber(Date(9999, 12, 31)) == 2932896 && IsDate(Date(9999, 12, 31)) by { LastDayNumber(); }
    CivilDateInvertsDayNumber(Date(9999, 12, 31));
  }

  lemma LastDayNumber()
    ensures DayNumber(Date(9999, 12, 31)) == 2932896 && IsDate(Date(9999, 12, 31))
  {
    assert (12 + 9) % 12 == 9 && MarchStart(9999) == 3652059;
  }

  lemma FourDigitYears(secs: nat)
    ensures secs <= LAST_SECOND <==> DayAfterEpoch(DayOf(secs)).year <= 9999
  {
    LastDay();
    var day := DayOf(secs);
    if day < 2932896 {
      LaterDaysAreLater(day, 2932896);
    } else if day > 2932896 {
      assert DayAfterEpoch(2932897) == Date(10000, 1, 1);
      if day > 2932897 {
        LaterDaysAreLater(2932897, day);
      }
    }
  }

  function CompareDates(a: Date, b: Date): Ordering {
    if a.year != b.year then CompareInts(a.year, b.year)
    else if a.month != b.month then CompareInts(a.month, b.month)
    else CompareInts(a.day, b.day)
  }

  lemma CompareDateTexts(a: Date, b: Date, x: nat, y: nat)
    requires IsDate(a) && IsDate(b) && 0 <= a.year < 10000 && 0 <= b.year < 10000
    ensures CompareText(Rfc3339Text(a, x), Rfc3339Text(b, y))
         == if a == b then CompareText(ClockText(x), ClockText(y)) else CompareDates(a, b)
  {
    hide Field, Padded, CompareText;
    assert PowerOfTen(4) == 10000 && PowerOfTen(2) == 100;
    var da, db := Field(a.day, 2, 'T') + ClockText(x), Field(b.day, 2, 'T') + ClockText(y);
    CompareFields(a.year, b.year, 4, '-', Field(a.month, 2, '-') + da, Field(b.month, 2, '-') + db);
    CompareFields(a.month, b.month, 2, '-', da, db);
    CompareFields(a.day, b.day, 2, 'T', ClockText(x), ClockText(y));
  }

  lemma CompareClockTexts(x: nat, y: nat)
    requires x < 86400 && y < 86400
    ensures CompareText(ClockText(x), ClockText(y)) == CompareInts(x, y)
  {
    hide Field, CompareText, CompareInts;
    var a, b, c := x / 3600, x % 3600 / 60, x % 60;
    var d, e, f := y / 3600, y % 3600 / 60, y % 60;
    CompareThree(a, b, c, d, e, f);
    SecondsInParts(x);
    SecondsInParts(y);
    CompareParts(a, b, c, d, e, f);
  }

  lemma SecondsInParts(x: nat)
    requires x < 86400
    ensures x == 3600 * (x / 3600) + 60 * (x % 3600 / 60) + x % 60
    ensures x / 3600 < 24 && x % 3600 / 60 < 60 && x % 60 < 60
  {}

  lemma CompareParts(a: nat, b: nat, c: nat, d: nat, e: nat, f: nat)
    requires b < 60 && c < 60 && e < 60 && f < 60
    ensures CompareInts(3600 * a + 60 * b + c, 3600 * d + 60 * e + f) ==
              if a != d then CompareInts(a, d) else if b != e then CompareInts(b, e) else CompareInts(c, f)
  {}

  lemma CompareThree(a: nat, b: nat, c: nat, d: nat, e: nat, f: nat)
    requires a < 100 && b < 100 && c < 100 && d < 100 && e < 100 && f < 100
    ensures CompareText(Field(a, 2, ':') + (Field(b, 2, ':') + Field(c, 2, 'Z')),
                        Field(d, 2, ':') + (Field(e, 2, ':') + Field(f, 2, 'Z'))) ==
              if a != d then CompareInts(a, d) else if b != e then CompareInts(b, e) else CompareInts(c, f)
  {
    hide Field, Padded, CompareText;
    assert PowerOfTen(2) == 100;
    var x, y := Field(c, 2, 'Z'), Field(f, 2, 'Z');
    assert x + "" == x && y + "" == y;
    CompareFields(a, d, 2, ':', Field(b, 2, ':') + x, Field(e, 2, ':') + y);
    CompareFields(b, e, 2, ':', x, y);
    CompareFields(c, f, 2, 'Z', "", "");
    CompareTextBlocks("", "", "", "");
  }

  /** Comparing two stamps byte by byte compares their seconds, as long as years have four digits. */
  lemma StampsOrderAsInstants(a: nat, b: nat)
    requires a <= LAST_SECOND && b <= LAST_SECOND
    ensures CompareText(Rfc3339(a), Rfc3339(b)) == CompareInts(a, b)
  {
    hide CompareText, Rfc3339Text, ClockText;
    FourDigitYears(a);
    FourDigitYears(b);
    var da, db := DayOf(a), DayOf(b);
    CompareDateTexts(DayAfterEpoch(da), DayAfterEpoch(db), SecondOfDay(a), SecondOfDay(b));
    CompareClockTexts(SecondOfDay(a), SecondOfDay(b));
    if da < db {
      LaterDaysAreLater(da, db);
    } else if db < da {
      LaterDaysAreLater(db, da);
    }
  }

  /** From year 10000 on it no longer does: the first stamp of that year sorts before the last
      one that fits. */
  lemma YearTenThousandSortsFirst()
    ensures CompareText(Rfc3339(LAST_SECOND + 1), Rfc3339(LAST_SECOND)) == Less
  {
    LastDay();
    assert DayAfterEpoch(2932897) == Date(10000, 1, 1);
    assert DayOf(LAST_SECOND + 1) == 2932897;
    LeadingDigits();
    hide Padded, DayAfterEpoch;
    var a, b := Rfc3339(LAST_SECOND + 1), Rfc3339(LAST_SECOND);
    assert a[0] == '1' && b[0] == '9';
    LeadingDigitDecides(a, b);
  }

  lemma LeadingDigits()
    ensures Padded(10000, 4) != "" && Padded(10000, 4)[0] == '1'
    ensures Padded(9999, 4) != "" && Padded(9999, 4)[0] == '9'
  {
    assert NatText(10000)[0] == NatText(1000)[0] == NatText(100)[0] == NatText(10)[0] == '1';
    assert NatText(9999)[0] == NatText(999)[0] == NatText(99)[0] == '9';
    assert |NatText(9999)| == 4 by { assert |NatText(999)| == 3; }
    assert |NatText(10000)| == 5 by { assert |NatText(1000)| == 4; }
  }

  lemma LeadingDigitDecides(a: string, b: string)
    requires a != "" && b != "" && a[0] == '1' && b[0] == '9'
    ensures CompareText(a, b) == Less
  {}

  // ---- stamps read back ----

  predicate HasStampShape(s: string) {
    && |s| == 20 && s[4] == '-' && s[7] == '-' && s[10] == 'T' && s[13] == ':' && s[16] == ':' && s[19] == 'Z'
    && All(s[0..4], IsDigit) && All(s[5..7], IsDigit) && All(s[8..10], IsDigit)
    && All(s[11..13], IsDigit) && All(s[14..16], IsDigit) && All(s[17..19], IsDigit)
  }

  /** The second a whole-second UTC stamp names; `None` for any other text. */
  function SecondsOf(s: string): Option<int> {
    if !HasStampShape(s) then None else
    SecondsOfNumbers(Date(NatOf(s[0..4]), NatOf(s[5..7]), NatOf(s[8..10])),
                     NatOf(s[11..13]), NatOf(s[14..16]), NatOf(s[17..19]))
  }

  function SecondsOfNumbers(d: Date, h: nat, m: nat, sec: nat): Option<int> {
    if IsDate(d) && h < 24 && m < 60 && sec < 60 then Some(DayNumber(d) * 86400 + h * 3600 + m * 60 + sec) else None
  }

  /** A stamp put together from its six numbers comes apart into them. */
  lemma StampComesApart(y: string, mo: string, d: string, h: string, mi: string, sec: string) returns (s: string)
    requires |y| == 4 && |mo| == |d| == |h| == |mi| == |sec| == 2
    ensures s == (y + ['-']) + ((mo + ['-']) + ((d + ['T']) + ((h + [':']) + ((mi + [':']) + (sec + ['Z'])))))
    ensures |s| == 20
    ensures s[4] == '-' && s[7] == '-' && s[10] == 'T' && s[13] == ':' && s[16] == ':' && s[19] == 'Z'
    ensures s[0..4] == y && s[5..7] == mo && s[8..10] == d && s[11..13] == h && s[14..16] == mi && s[17..19] == sec
  {
    s := (y + ['-']) + ((mo + ['-']) + ((d + ['T']) + ((h + [':']) + ((mi + [':']) + (sec + ['Z'])))));
  }

  /** The six numbers of a stamp sit where `SecondsOf` looks for them. */
  lemma StampLayout(d: Date, rem: nat) returns (s: string)
    requires IsDate(d) && 0 <= d.year < 10000 && rem < 86400
    ensures s == Rfc3339Text(d, rem) && |s| == 20
    ensures s[4] == '-' && s[7] == '-' && s[10] == 'T' && s[13] == ':' && s[16] == ':' && s[19] == 'Z'
    ensures s[0..4] == LastDigits(d.year, 4) && s[5..7] == LastDigits(d.month, 2) && s[8..10] == LastDigits(d.day, 2)
    ensures s[11..13] == LastDigits(rem / 3600, 2) && s[14..16] == LastDigits(rem % 3600 / 60, 2) &&
            s[17..19] == LastDigits(rem % 60, 2)
  {
    assert PowerOfTen(4) == 10000 && PowerOfTen(2) == 100;
    hide Padded, LastDigits, PowerOfTen;
    PaddedIsFixedWidth(d.year, 4);
    PaddedIsFixedWidth(d.month, 2);
    PaddedIsFixedWidth(d.day, 2);
    PaddedIsFixedWidth(rem / 3600, 2);
    PaddedIsFixedWidth(rem % 3600 / 60, 2);
    PaddedIsFixedWidth(rem % 60, 2);
    s := StampComesApart(LastDigits(d.year, 4), LastDigits(d.month, 2), LastDigits(d.day, 2),
                         LastDigits(rem / 3600, 2), LastDigits(rem % 3600 / 60, 2), LastDigits(rem % 60, 2));
  }

  lemma StampNumbers(d: Date, rem: nat)
    requires IsDate(d) && 0 <= d.year < 10000 && rem < 86400
    ensures SecondsOf(Rfc3339Text(d, rem)) == SecondsOfNumbers(d, rem / 3600, rem % 3600 / 60, rem % 60)
  {
    var s := StampLayout(d, rem);
    assert PowerOfTen(4) == 10000 && PowerOfTen(2) == 100;
    hide Rfc3339Text, LastDigits, SecondsOfNumbers, NatOf;
    LastDigitsValue(d.year, 4);
    LastDigitsValue(d.month, 2);
    LastDigitsValue(d.day, 2);
    LastDigitsValue(rem / 3600, 2);
    LastDigitsValue(rem % 3600 / 60, 2);
    LastDigitsValue(rem % 60, 2);
  }

  /** A stamp names its second again. */
  lemma StampsReadBack(secs: nat)
    requires secs <= LAST_SECOND
    ensures SecondsOf(Rfc3339(secs)) == Some(secs)
  {
    hide DayNumber, Rfc3339Text, SecondsOf, IsDate;
    FourDigitYears(secs);
    StampNumbers(DayAfterEpoch(DayOf(secs)), SecondOfDay(secs));
    DayNumberInvertsCivilDate(DayOf(secs));
  }
}
