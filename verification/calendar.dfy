/** The UTC proleptic Gregorian calendar of ECMAScript time values: instants
    are integer milliseconds since 1970-01-01T00:00:00Z, day numbers count days
    since 1970-01-01, and a civil date is a (year, month, day) triple. */
module Calendar {

  const MsPerSecond := 1000
  const MsPerMinute := 60_000
  const MsPerHour := 3_600_000
  const MsPerDay := 86_400_000

  /** The day number an instant falls on (ECMAScript `Day(t)`, a floor division). */
  function DayNumber(t: int): int {
    t / MsPerDay
  }

  /** `getUTCHours()`: the hour of the UTC day an instant falls in. */
  function HourOf(t: int): (h: int)
    ensures 0 <= h < 24
    ensures DayNumber(t) * MsPerDay + h * MsPerHour <= t < DayNumber(t) * MsPerDay + (h + 1) * MsPerHour
  {
    (t / MsPerHour) % 24
  }

  /** `getUTCDay()` of day number `d`: 0 is Sunday and 6 is Saturday; day 0
      (1970-01-01) was a Thursday. */
  function WeekDay(d: int): (w: int)
    ensures 0 <= w < 7
  {
    (d + 4) % 7
  }

  /** The day after a Saturday is a Sunday; otherwise the week day goes up by one. */
  lemma WeekDayNext(d: int)
    ensures WeekDay(d + 1) == if WeekDay(d) == 6 then 0 else WeekDay(d) + 1
  {
  }

  predicate IsWeekend(d: int) {
    WeekDay(d) == 6 || WeekDay(d) == 0
  }

  datatype Date = Date(year: int, month: int, day: int)

  predicate IsLeapYear(y: int) {
    y % 4 == 0 && (y % 100 != 0 || y % 400 == 0)
  }

  function DaysInMonth(y: int, m: int): int
    requires 1 <= m <= 12
  {
    if m == 2 then (if IsLeapYear(y) then 29 else 28)
    else if m == 4 || m == 6 || m == 9 || m == 11 then 30
    else 31
  }

  predicate ValidDate(date: Date) {
    1 <= date.month <= 12 && 1 <= date.day <= DaysInMonth(date.year, date.month)
  }

  /** Year of era (0..399) of the `doe`-th day of a 400-year era that starts
      on a 1 March: the leap days are discounted so that every year counts 365. */
  function YearOfEra(doe: int): (yoe: int)
    requires 0 <= doe < 146097
    ensures 0 <= yoe < 400
    ensures 0 <= doe - EraYearStart(yoe) < EraYearLength(yoe)
  {
    YearOfEraSplit(doe);
    (doe - doe / 1460 + doe / 36524 - doe / 146096) / 365
  }

  /** Day of era on which year of era `yoe` starts. */
  function EraYearStart(yoe: int): int {
    365 * yoe + yoe / 4 - yoe / 100
  }

  /** Length of year of era `yoe`; it ends with the February of civil year
      `yoe + 1`, so it holds a leap day when that civil year is a leap year. */
  function EraYearLength(yoe: int): int {
    if IsLeapYear(yoe + 1) then 366 else 365
  }

  lemma DivPlus1460(x: int, y: int) ensures (1460 * x + y) / 1460 == x + y / 1460 {}
  lemma DivPlus365(x: int, y: int) ensures (365 * x + y) / 365 == x + y / 365 {}
  lemma DivPlus4(x: int, y: int) ensures (4 * x + y) / 4 == x + y / 4 {}
  lemma DivPlus100(x: int, y: int) ensures (100 * x + y) / 100 == x + y / 100 {}

  /** A day of era before the last one, taken apart into its century `c`
      (36524 days each), its four-year cycle `k` (1461 days each) within the
      century and its day `s` within the cycle. */
  lemma EraDayParts(doe: int) returns (c: int, k: int, s: int)
    requires 0 <= doe < 146096
    ensures 0 <= c <= 3 && 0 <= k <= 24 && 0 <= s < 1461 && (k == 24 ==> s < 1460)
    ensures doe == 36524 * c + 1461 * k + s
    ensures doe - doe / 1460 + doe / 36524 - doe / 146096
      == 365 * (100 * c + 4 * k) + s - (24 * c + k + s) / 1460
  {
    c := doe / 36524;
    var r := doe % 36524;
    k := r / 1461;
    s := r % 1461;
    assert doe == 1460 * (25 * c + k) + (24 * c + k + s);
    DivPlus1460(25 * c + k, 24 * c + k + s);
  }

  /** The year of era and its first day, in terms of the parts above. */
  lemma EraYearParts(c: int, k: int, s: int) returns (j: int)
    requires 0 <= c <= 3 && 0 <= k <= 24 && 0 <= s < 1461 && (k == 24 ==> s < 1460)
    ensures 0 <= j <= 3
    ensures var e := (24 * c + k + s) / 1460;
      (365 * (100 * c + 4 * k) + s - e) / 365 == 100 * c + 4 * k + j
      && 365 * j + e <= s < 365 * j + 365 + e
      && (s == 1460 ==> e == 1) && (s <= 1095 ==> e == 0)
    ensures EraYearStart(100 * c + 4 * k + j) == 36524 * c + 1461 * k + 365 * j
  {
    var e := (24 * c + k + s) / 1460;
    j := (s - e) / 365;
    DivPlus365(100 * c + 4 * k, s - e);
    YearStartParts(c, k, j);
  }

  /** Year of era `100c + 4k + j` starts after `c` centuries of 36524 days,
      `k` four-year cycles of 1461 days and `j` years of 365 days. */
  lemma YearStartParts(c: int, k: int, j: int)
    requires 0 <= k <= 24 && 0 <= j <= 3
    ensures EraYearStart(100 * c + 4 * k + j) == 36524 * c + 1461 * k + 365 * j
  {
    var yoe := 100 * c + 4 * k + j;
    assert yoe == 4 * (25 * c + k) + j;
    DivPlus4(25 * c + k, j);
    DivPlus100(c, 4 * k + j);
    assert yoe / 4 == 25 * c + k && yoe / 100 == c;
  }

  /** The day-of-era arithmetic lands in the year of era that holds the day. */
  lemma YearOfEraSplit(doe: int)
    requires 0 <= doe < 146097
    ensures var yoe := (doe - doe / 1460 + doe / 36524 - doe / 146096) / 365;
      0 <= yoe < 400 && 0 <= doe - EraYearStart(yoe) < EraYearLength(yoe)
  {
    var n := doe - doe / 1460 + doe / 36524 - doe / 146096;
    if doe == 146096 {
      assert n / 365 == 399;
      assert EraYearStart(399) == 145731;
      assert IsLeapYear(400);
    } else {
      var c, k, s := EraDayParts(doe);
      var j := EraYearParts(c, k, s);
      var yoe := 100 * c + 4 * k + j;
      assert n / 365 == yoe;
      assert doe - EraYearStart(yoe) == s - 365 * j;
      LeapDayParts(c, k, s, j);
    }
  }

  /** Only the last day of a four-year cycle that is not the last of a
      century is a 366th day of its year of era. */
  lemma LeapDayParts(c: int, k: int, s: int, j: int)
    requires 0 <= c <= 3 && 0 <= k <= 24 && 0 <= s < 1461 && (k == 24 ==> s < 1460)
    requires 0 <= j <= 3
    requires var e := (24 * c + k + s) / 1460;
      365 * j + e <= s < 365 * j + 365 + e && (s == 1460 ==> e == 1) && (s <= 1095 ==> e == 0)
    ensures s - 365 * j < EraYearLength(100 * c + 4 * k + j)
  {
    if s - 365 * j == 365 {
      var y := 100 * c + 4 * k + j + 1;
      assert j == 3 && k <= 23;
      assert y == 4 * (25 * c + k + 1);
      ModPlus4(25 * c + k + 1, 0);
      assert y == 100 * c + 4 * (k + 1) && 4 <= 4 * (k + 1) < 100;
      ModPlus100(c, 4 * (k + 1));
      assert IsLeapYear(y);
    }
  }

  lemma ModPlus4(x: int, y: int) ensures (4 * x + y) % 4 == y % 4 {}
  lemma ModPlus100(x: int, y: int) ensures (100 * x + y) % 100 == y % 100 {}
  lemma ModPlus400(x: int, y: int) ensures (400 * x + y) % 400 == y % 400 {}

  /** Month of a March-based year (0 is March, 11 is February) holding its
      `doy`-th day. */
  function MonthOfYear(doy: int): (mp: int)
    requires 0 <= doy <= 365
    ensures 0 <= mp < 12
    ensures MonthStart(mp) <= doy
    ensures mp < 11 ==> doy < MonthStart(mp + 1)
  {
    (5 * doy + 2) / 153
  }

  /** Day of a March-based year on which month `mp` starts. */
  function MonthStart(mp: int): int {
    (153 * mp + 2) / 5
  }

  /** The civil date of day number `d` (`getUTCFullYear`, `getUTCMonth() + 1`,
      `getUTCDate()`), computed era by era: an era is 400 years of 146097 days,
      counted from 0000-03-01 so that a leap day ends its year. */
  function CivilFromDays(d: int): (date: Date)
    ensures ValidDate(date)
  {
    var z := d + 719468;
    EraDate(z / 146097, z % 146097)
  }

  /** The civil date of day `doe` of era `era`. */
  function EraDate(era: int, doe: int): (date: Date)
    requires 0 <= doe < 146097
    ensures ValidDate(date)
  {
    var yoe := YearOfEra(doe);
    var doy := doe - EraYearStart(yoe);
    var mp := MonthOfYear(doy);
    var month := if mp < 10 then mp + 3 else mp - 9;
    var year := era * 400 + yoe + (if month <= 2 then 1 else 0);
    MonthDayFits(mp, doy, IsLeapYear(yoe + 1));
    LeapYearPeriod(era, yoe + 1);
    Date(year, month, doy - MonthStart(mp) + 1)
  }

  /** Day `doy` of a March-based year falls on a valid day of month `mp`;
      `leap` says whether the year ends with a 29 February. */
  lemma MonthDayFits(mp: int, doy: int, leap: bool)
    requires 0 <= mp < 12 && MonthStart(mp) <= doy && (mp < 11 ==> doy < MonthStart(mp + 1))
    requires 0 <= doy < (if leap then 366 else 365)
    ensures var month := if mp < 10 then mp + 3 else mp - 9;
      1 <= doy - MonthStart(mp) + 1
      <= (if month == 2 then (if leap then 29 else 28)
          else if month == 4 || month == 6 || month == 9 || month == 11 then 30
          else 31)
  {
    assert MonthStart(0) == 0 && MonthStart(1) == 31 && MonthStart(2) == 61;
    assert MonthStart(3) == 92 && MonthStart(4) == 122 && MonthStart(5) == 153;
    assert MonthStart(6) == 184 && MonthStart(7) == 214 && MonthStart(8) == 245;
    assert MonthStart(9) == 275 && MonthStart(10) == 306 && MonthStart(11) == 337;
  }

  /** The Gregorian leap-year rule repeats every 400 years. */
  lemma LeapYearPeriod(era: int, y: int)
    ensures IsLeapYear(era * 400 + y) == IsLeapYear(y)
  {
    ModPlus4(100 * era, y);
    ModPlus100(4 * era, y);
    ModPlus400(era, y);
  }

  /** The day number of a civil date; the inverse of `CivilFromDays`. */
  function DaysFromCivil(date: Date): int {
    var y := date.year - (if date.month <= 2 then 1 else 0);
    var era := y / 400;
    var yoe := y % 400;
    var mp := if date.month > 2 then date.month - 3 else date.month + 9;
    era * 146097 + EraYearStart(yoe) + MonthStart(mp) + date.day - 1 - 719468
  }

  /** Distinct day numbers have distinct civil dates: the day number can be
      read back from the date. */
  lemma DaysFromCivilOfCivilFromDays(d: int)
    ensures DaysFromCivil(CivilFromDays(d)) == d
  {
    var z := d + 719468;
    var era, doe := z / 146097, z % 146097;
    assert z == era * 146097 + doe && 0 <= doe < 146097;
    DaysFromCivilOfEraDate(era, doe);
    assert CivilFromDays(d) == EraDate(era, doe);
  }

  /** Day 0 is 1 January 1970, the ECMAScript epoch. */
  lemma EpochDate()
    ensures CivilFromDays(0) == Date(1970, 1, 1)
  {
    var doe := 719468 % 146097;
    assert 719468 / 146097 == 4 && doe == 135080;
    assert YearOfEra(doe) == 369;
    assert EraYearStart(369) == 134774 && MonthOfYear(306) == 10 && MonthStart(10) == 306;
  }

  /** Day 20140 is 21 February 2025: a day in the last month of a
      March-based year, after a leap day. */
  lemma FebruaryDate()
    ensures CivilFromDays(20140) == Date(2025, 2, 21)
  {
    var doe := (20140 + 719468) % 146097;
    assert (20140 + 719468) / 146097 == 5 && doe == 9123;
    assert YearOfEra(doe) == 24;
    assert EraYearStart(24) == 8766 && MonthOfYear(357) == 11 && MonthStart(11) == 337;
  }

  /** Day `doe` of era `era` is day number `era * 146097 + doe - 719468`. */
  lemma DaysFromCivilOfEraDate(era: int, doe: int)
    requires 0 <= doe < 146097
    ensures DaysFromCivil(EraDate(era, doe)) == era * 146097 + doe - 719468
  {
    var yoe := YearOfEra(doe);
    var doy := doe - EraYearStart(yoe);
    var mp := MonthOfYear(doy);
    var month := if mp < 10 then mp + 3 else mp - 9;
    var year := era * 400 + yoe + (if month <= 2 then 1 else 0);
    var day := doy - MonthStart(mp) + 1;
    assert EraDate(era, doe) == Date(year, month, day);
    DaysFromCivilParts(era, yoe, mp, day);
    assert DaysFromCivil(Date(year, month, day)) == era * 146097 + doe - 719468;
  }

  /** `DaysFromCivil` undoes the era, year-of-era and March-based month
      split that `CivilFromDays` makes. */
  lemma DaysFromCivilParts(era: int, yoe: int, mp: int, day: int)
    requires 0 <= yoe < 400 && 0 <= mp < 12
    ensures var month := if mp < 10 then mp + 3 else mp - 9;
      var year := era * 400 + yoe + (if month <= 2 then 1 else 0);
      DaysFromCivil(Date(year, month, day))
        == era * 146097 + EraYearStart(yoe) + MonthStart(mp) + day - 1 - 719468
  {
    DivModPlus400(era, yoe);
  }

  lemma DivModPlus400(x: int, y: int)
    requires 0 <= y < 400
    ensures (400 * x + y) / 400 == x && (400 * x + y) % 400 == y
  {}
}
