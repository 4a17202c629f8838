/**
 Seconds since the epoch to a civil date: the integer arithmetic three files carry a copy of
 (`crates/mockpc/src/clock.rs`, `crates/core/src/evidence.rs`, `crates/core/src/export.rs`),
 proved against the calendar itself, stepped one day at a time from 1970-01-01.
 */
module Calendar {

  datatype Date = Date(year: int, month: int, day: int)

  // ---- the Gregorian calendar, day by day ----

  predicate IsLeap(y: int) {
    y % 4 == 0 && (y % 100 != 0 || y % 400 == 0)
  }

  function MonthLength(y: int, m: int): int {
    if m == 2 then if IsLeap(y) then 29 else 28
    else if m == 4 || m == 6 || m == 9 || m == 11 then 30
    else 31
  }

  predicate IsDate(d: Date) {
    1 <= d.month <= 12 && 1 <= d.day <= MonthLength(d.year, d.month)
  }

  function Tomorrow(d: Date): Date {
    if d.day < MonthLength(d.year, d.month) then d.(day := d.day + 1)
    else if d.month < 12 then Date(d.year, d.month + 1, 1)
    else Date(d.year + 1, 1, 1)
  }

  const EPOCH := Date(1970, 1, 1)

  /** The date `n` days after the epoch, by walking there. */
  function DayAfterEpoch(n: nat): (d: Date)
    ensures IsDate(d) && d.year >= 1970
  {
    if n == 0 then EPOCH else Tomorrow(DayAfterEpoch(n - 1))
  }

  // ---- the arithmetic ----

  function YearOfEra(doe: nat): int {
    (doe - doe / 1460 + doe / 36524 - doe / 146096) / 365
  }

  function YearStart(yoe: int): int {
    365 * yoe + yoe / 4 - yoe / 100
  }

  /** The arithmetic all three copies share: `z` counts days from 0000-03-01. */
  function CivilFrom(z: int): Date {
    var era := z / 146097;
    var doe := z % 146097;
    var yoe := YearOfEra(doe);
    var doy := doe - YearStart(yoe);
    var mp := (5 * doy + 2) / 153;
    var d := doy - (153 * mp + 2) / 5 + 1;
    var mo := if mp < 10 then mp + 3 else mp - 9;
    var y := yoe + era * 400 + (if mo <= 2 then 1 else 0);
    Date(y, mo, d)
  }

  function CivilDate(days: nat): Date { CivilFrom(days + 719468) }

  const SECONDS_PER_DAY := 86400
  const I64_MAX := 0x7FFF_FFFF_FFFF_FFFF
  const U64_LIMIT := 0x1_0000_0000_0000_0000

  /** `clock.rs`: the day count through a checked conversion, a clamp where it would not fit. */
  function ClockDate(secs: nat): Date {
    var days := secs / SECONDS_PER_DAY;
    CivilFrom((if days <= I64_MAX then days else I64_MAX / 4) + 719468)
  }

  /** `evidence.rs`: the day count through a cast, which wraps where it would not fit. */
  function EvidenceDate(secs: nat): Date {
    var days := secs / SECONDS_PER_DAY;
    CivilFrom((if days <= I64_MAX then days else days - U64_LIMIT) + 719468)
  }

  /** `export.rs`: the same cast, and the year carried over January and February last. */
  function StampDate(secs: nat): Date {
    var days := secs / SECONDS_PER_DAY;
    var z := (if days <= I64_MAX then days else days - U64_LIMIT) + 719468;
    var era := z / 146097;
    var doe := z % 146097;
    var yoe := YearOfEra(doe);
    var y := yoe + era * 400;
    var doy := doe - YearStart(yoe);
    var mp := (5 * doy + 2) / 153;
    var d := doy - (153 * mp + 2) / 5 + 1;
    var mo := if mp < 10 then mp + 3 else mp - 9;
    Date(if mo <= 2 then y + 1 else y, mo, d)
  }

  // ---- years counted from the first of March, so the leap day comes last ----

  /** Days from the arithmetic's own origin, 0000-03-01, to the first of March of year `y`. */
  function MarchStart(y: int): int {
    365 * y + y / 4 - y / 100 + y / 400
  }

  function MarchLength(y: int): int {
    if IsLeap(y + 1) then 366 else 365
  }

  /** `c` whole centuries, `g` whole four-year cycles and `s` days into an era. */
  lemma YearOfEraInParts(c: nat, g: nat, s: nat)
    requires c <= 3 && g <= 24 && s <= 1460 && (g == 24 ==> c == 3 || s < 1460)
    requires !(c == 3 && g == 24 && s == 1460)
    ensures YearOfEra(36524 * c + 1461 * g + s) == 100 * c + 4 * g + (if s == 1460 then 3 else s / 365)
  {
    var doe := 36524 * c + 1461 * g + s;
    var e := if s >= 1460 - 24 * c - g then 1 else 0;
    assert doe / 36524 == c;
    assert doe / 146096 == 0;
    assert doe == 1460 * (25 * c + g + e) + (24 * c + g + s - 1460 * e);
    assert doe / 1460 == 25 * c + g + e;
    assert doe - doe / 1460 + doe / 36524 - doe / 146096 == 365 * (100 * c + 4 * g) + (s - e);
  }

  /** Which year of an era ends on a leap day. */
  lemma LeapInParts(c: nat, g: nat, j: nat)
    requires c <= 3 && g <= 24 && j <= 3
    ensures MarchLength(100 * c + 4 * g + j) == if j == 3 && (g < 24 || c == 3) then 366 else 365
    ensures YearStart(100 * c + 4 * g + j) == 36524 * c + 1461 * g + 365 * j
  {
    var y := 100 * c + 4 * g + j;
    assert y / 4 == 25 * c + g && y / 100 == c;
    if j == 3 {
      assert (y + 1) % 4 == 0;
      if g == 24 {
        assert y + 1 == 100 * (c + 1);
      } else {
        assert (y + 1) % 100 == 4 * g + 4;
      }
    } else {
      assert (y + 1) % 4 == j + 1;
    }
  }

  lemma DayParts(doe: nat) returns (c: nat, g: nat, s: nat)
    requires doe < 146096
    ensures doe == 36524 * c + 1461 * g + s
    ensures c <= 3 && g <= 24 && s <= 1460 && (g == 24 ==> c == 3 || s < 1460)
    ensures !(c == 3 && g == 24 && s == 1460)
  {
    var r: nat := doe % 36524;
    c, g, s := doe / 36524, r / 1461, r % 1461;
  }

  lemma YearParts(y: int) returns (era: int, c: nat, g: nat, j: nat)
    ensures y == 400 * era + (100 * c + 4 * g + j) && c <= 3 && g <= 24 && j <= 3
  {
    var yoe: nat := y % 400;
    era, c, g, j := y / 400, yoe / 100, yoe % 100 / 4, yoe % 4;
  }

  lemma LastDayOfEra()
    ensures YearOfEra(146096) == 399 && 146096 - YearStart(399) == 365 && MarchLength(399) == 366
  {}

  /** The year the arithmetic finds is the one whose days the day falls among. */
  lemma YearOfEraBrackets(doe: nat)
    requires doe < 146097
    ensures 0 <= YearOfEra(doe) < 400
    ensures 0 <= doe - YearStart(YearOfEra(doe)) < MarchLength(YearOfEra(doe))
  {
    hide YearOfEra, YearStart, MarchLength;
    if doe == 146096 {
      LastDayOfEra();
    } else {
      var c, g, s := DayParts(doe);
      YearOfEraInParts(c, g, s);
      LeapInParts(c, g, if s == 1460 then 3 else s / 365);
    }
  }

  /** Eras repeat: 400 years are 146097 days ... */
  lemma ErasRepeat(era: int, yoe: nat)
    requires yoe < 400
    ensures MarchStart(400 * era + yoe) == 146097 * era + YearStart(yoe)
  {
    var y := 400 * era + yoe;
    assert y / 4 == 100 * era + yoe / 4;
    assert y / 100 == 4 * era + yoe / 100;
    assert y / 400 == era;
  }

  lemma RemainderBy4Repeats(era: int, k: int)
    ensures (400 * era + k) % 4 == k % 4
  {
    assert 400 * era + k == 4 * (100 * era + k / 4) + k % 4;
  }

  lemma RemainderBy100Repeats(era: int, k: int)
    ensures (400 * era + k) % 100 == k % 100
  {
    assert 400 * era + k == 100 * (4 * era + k / 100) + k % 100;
  }

  lemma RemainderBy400Repeats(era: int, k: int)
    ensures (400 * era + k) % 400 == k % 400
  {
    assert 400 * era + k == 400 * (era + k / 400) + k % 400;
  }

  /** ... and leap years fall alike in each. */
  lemma LeapYearsRepeat(era: int, yoe: nat)
    ensures MarchLength(400 * era + yoe) == MarchLength(yoe)
  {
    RemainderBy4Repeats(era, yoe + 1);
    RemainderBy100Repeats(era, yoe + 1);
    RemainderBy400Repeats(era, yoe + 1);
    assert 400 * era + yoe + 1 == 400 * era + (yoe + 1);
  }

  lemma YearsAdvance(era: int, c: nat, g: nat, j: nat)
    requires c <= 3 && g <= 24 && j <= 3
    ensures MarchStart(400 * era + (100 * c + 4 * g + j) + 1)
         == 146097 * era + YearStart(100 * c + 4 * g + j) + MarchLength(100 * c + 4 * g + j)
  {
    hide MarchStart, YearStart, MarchLength;
    LeapInParts(c, g, j);
    if j < 3 {
      LeapInParts(c, g, j + 1);
      ErasRepeat(era, 100 * c + 4 * g + (j + 1));
    } else if g < 24 {
      LeapInParts(c, g + 1, 0);
      ErasRepeat(era, 100 * c + 4 * (g + 1));
    } else if c < 3 {
      LeapInParts(c + 1, 0, 0);
      ErasRepeat(era, 100 * (c + 1));
    } else {
      ErasRepeat(era + 1, 0);
      LeapInParts(0, 0, 0);
    }
  }

  lemma MarchStartsAdvance(y: int)
    ensures MarchStart(y + 1) == MarchStart(y) + MarchLength(y)
  {
    var era, c, g, j := YearParts(y);
    ErasRepeat(era, 100 * c + 4 * g + j);
    LeapYearsRepeat(era, 100 * c + 4 * g + j);
    YearsAdvance(era, c, g, j);
  }

  lemma {:induction false} MarchStartsIncrease(a: int, b: int)
    requires a < b
    ensures MarchStart(a + 1) <= MarchStart(b)
    decreases b - a
  {
    if a + 1 < b {
      MarchStartsAdvance(a + 1);
      MarchStartsIncrease(a + 1, b);
    }
  }

  /** The day count falls `doy` days after the first of March of year `y`. */
  ghost predicate Falls(days: nat, y: int, doy: nat) {
    days + 719468 == MarchStart(y) + doy && doy < MarchLength(y)
  }

  /** A day count falls in one year and on one day of it. */
  lemma FallsOnce(days: nat, a: int, i: nat, b: int, j: nat)
    requires Falls(days, a, i) && Falls(days, b, j)
    ensures a == b && i == j
  {
    MarchStartsAdvance(a);
    MarchStartsAdvance(b);
    if a < b {
      MarchStartsIncrease(a, b);
    } else if b < a {
      MarchStartsIncrease(b, a);
    }
  }

  lemma FallsWithinItsYear(days: nat, y: int, doy: nat)
    requires Falls(days, y, doy)
    ensures doy < MarchLength(y)
  {}

  lemma NextDayFalls(days: nat, y: int, doy: nat, y': int, doy': nat)
    requires Falls(days, y, doy) && Falls(days + 1, y', doy')
    ensures if doy + 1 < MarchLength(y) then y' == y && doy' == doy + 1 else y' == y + 1 && doy' == 0
  {
    MarchStartsAdvance(y);
    if doy + 1 < MarchLength(y) {
      FallsOnce(days + 1, y, doy + 1, y', doy');
    } else {
      FallsOnce(days + 1, y + 1, 0, y', doy');
    }
  }

  // ---- months within a March year ----

  /** The date `doy` days after the first of March of year `y`, as the arithmetic computes it. */
  function MarchDate(y: int, doy: nat): Date {
    var mp := (5 * doy + 2) / 153;
    var mo := if mp < 10 then mp + 3 else mp - 9;
    Date(if mo <= 2 then y + 1 else y, mo, doy - (153 * mp + 2) / 5 + 1)
  }

  lemma MarchDateSteps(y: int, doy: nat)
    requires doy < MarchLength(y)
    ensures IsDate(MarchDate(y, doy))
    ensures Tomorrow(MarchDate(y, doy)) ==
              if doy + 1 < MarchLength(y) then MarchDate(y, doy + 1) else MarchDate(y + 1, 0)
  {
    hide IsLeap;
    var mp := (5 * doy + 2) / 153;
    assert 0 <= mp <= 11;
  }

  /** Where in its March year a day count falls. */
  lemma CivilInParts(days: nat) returns (y: int, doy: nat)
    ensures Falls(days, y, doy) && CivilDate(days) == MarchDate(y, doy)
  {
    hide YearOfEra, YearStart, MarchStart, MarchLength;
    var z := days + 719468;
    var era, doe := z / 146097, z % 146097;
    var yoe := YearOfEra(doe);
    YearOfEraBrackets(doe);
    doy := doe - YearStart(yoe);
    y := yoe + era * 400;
    ErasRepeat(era, yoe);
    LeapYearsRepeat(era, yoe);
  }

  lemma CivilDateSteps(days: nat)
    ensures IsDate(CivilDate(days)) && CivilDate(days + 1) == Tomorrow(CivilDate(days))
  {
    hide *;
    var y, doy := CivilInParts(days);
    var y', doy' := CivilInParts(days + 1);
    NextDayFalls(days, y, doy, y', doy');
    FallsWithinItsYear(days, y, doy);
    MarchDateSteps(y, doy);
  }

  /** A date that starts at the epoch and steps to tomorrow is the calendar. */
  lemma {:induction false} SteppingIsTheCalendar(civil: nat -> Date, days: nat)
    requires civil(0) == EPOCH
    requires forall n: nat :: civil(n + 1) == Tomorrow(civil(n))
    ensures civil(days) == DayAfterEpoch(days)
  {
    if days > 0 {
      SteppingIsTheCalendar(civil, days - 1);
    }
  }

  lemma CivilDateOfEpoch()
    ensures CivilDate(0) == EPOCH
  {
    hide YearOfEra;
    assert YearOfEra(135080) == 369 by { YearOfEraOfEpoch(); }
    assert 719468 / 146097 == 4 && 719468 % 146097 == 135080;
  }

  lemma YearOfEraOfEpoch()
    ensures YearOfEra(135080) == 369
  {}

  /** The arithmetic is the calendar. */
  lemma CivilDateIsTheCalendar(days: nat)
    ensures CivilDate(days) == DayAfterEpoch(days)
    ensures IsDate(CivilDate(days))
  {
    hide CivilDate, CivilFrom, Tomorrow, IsDate;
    forall n: nat ensures CivilDate(n + 1) == Tomorrow(CivilDate(n)) {
      CivilDateSteps(n);
    }
    CivilDateOfEpoch();
    SteppingIsTheCalendar(CivilDate, days);
    CivilDateSteps(days);
  }

  lemma CopiesUseOneArithmetic(secs: nat)
    requires secs < U64_LIMIT
    ensures ClockDate(secs) == EvidenceDate(secs) == StampDate(secs) == CivilDate(secs / SECONDS_PER_DAY)
  {}

  /** All three copies are the calendar, for every second count the type holds. */
  lemma ThreeCopiesAreTheCalendar(secs: nat)
    requires secs < U64_LIMIT
    ensures ClockDate(secs) == DayAfterEpoch(secs / SECONDS_PER_DAY)
    ensures EvidenceDate(secs) == DayAfterEpoch(secs / SECONDS_PER_DAY)
    ensures StampDate(secs) == DayAfterEpoch(secs / SECONDS_PER_DAY)
  {
    hide CivilDate, CivilFrom, ClockDate, EvidenceDate, StampDate, DayAfterEpoch;
    CopiesUseOneArithmetic(secs);
    CivilDateIsTheCalendar(secs / SECONDS_PER_DAY);
  }

  // ---- the exact inverse ----

  /** The day count a date stands for. */
  function DayNumber(d: Date): int {
    var y := if d.month <= 2 then d.year - 1 else d.year;
    var mp := (d.month + 9) % 12;
    MarchStart(y) + (153 * mp + 2) / 5 + d.day - 1 - 719468
  }

  lemma LengthsOfYears(y: int)
    ensures MarchLength(y) <= 366
  {}

  lemma MonthIndex(mp: int)
    requires 0 <= mp <= 11
    ensures ((if mp < 10 then mp + 3 else mp - 9) + 9) % 12 == mp
  {}

  lemma DayNumberOfMarchDate(y: int, doy: nat)
    requires doy < MarchLength(y)
    ensures DayNumber(MarchDate(y, doy)) == MarchStart(y) + doy - 719468
  {
    hide MarchStart, MarchLength;
    LengthsOfYears(y);
    var mp := (5 * doy + 2) / 153;
    assert 0 <= mp <= 11;
    MonthIndex(mp);
    var d := MarchDate(y, doy);
    assert (d.month + 9) % 12 == mp;
    assert (if d.month <= 2 then d.year - 1 else d.year) == y;
  }

  lemma DayNumberInvertsCivilDate(days: nat)
    ensures DayNumber(DayAfterEpoch(days)) == days
  {
    hide DayNumber, MarchDate, CivilDate, CivilFrom;
    CivilDateIsTheCalendar(days);
    var y, doy := CivilInParts(days);
    DayNumberOfMarchDate(y, doy);
  }

  lemma DayNumberSteps(d: Date)
    requires IsDate(d)
    ensures DayNumber(Tomorrow(d)) == DayNumber(d) + 1
  {
    hide MarchStart;
    MarchStartsAdvance(d.year - 1);
  }

  predicate Before(a: Date, b: Date) {
    a.year < b.year || (a.year == b.year && (a.month < b.month || (a.month == b.month && a.day < b.day)))
  }

  lemma {:induction false} LaterDaysAreLater(m: nat, n: nat)
    requires m < n
    ensures Before(DayAfterEpoch(m), DayAfterEpoch(n))
  {
    if m + 1 < n {
      LaterDaysAreLater(m, n - 1);
    }
  }

  lemma DayNumberOfEpoch()
    ensures DayNumber(EPOCH) == 0
  {}

  /** Every date from the epoch on is reached by walking, in exactly `DayNumber` steps. */
  lemma {:induction false} CivilDateInvertsDayNumber(d: Date)
    requires IsDate(d) && d.year >= 1970
    ensures DayNumber(d) >= 0 && DayAfterEpoch(DayNumber(d)) == d
    decreases d.year, d.month, d.day
  {
    hide DayNumber, IsDate, MonthLength;
    if d == EPOCH {
      DayNumberOfEpoch();
    } else {
      var e := Yesterday(d);
      CivilDateInvertsDayNumber(e);
      DayNumberSteps(e);
    }
  }

  function Yesterday(d: Date): (e: Date)
    requires IsDate(d) && d.year >= 1970 && d != EPOCH
    ensures IsDate(e) && e.year >= 1970 && Tomorrow(e) == d && Before(e, d)
  {
    if d.day > 1 then d.(day := d.day - 1)
    else if d.month > 1 then Date(d.year, d.month - 1, MonthLength(d.year, d.month - 1))
    else Date(d.year - 1, 12, 31)
  }
}
