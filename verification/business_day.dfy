/** The `/extend-slots` handler (index.js:98-121): the next business day
    after a requested date, and the 08:00-16:00 UTC window on it. */
module BusinessDay {
  import opened Boundary
  import opened Calendar
  import opened Decimal

  /** `requested_datetime` as it arrives: falsy, a string that
      `new Date(requested_datetime + "Z")` cannot read, or one it reads as
      instant `t` (UTC milliseconds). */
  datatype DateField = Absent | Unparseable | At(t: int)

  /** The `{ start, end }` body of a successful answer. */
  datatype Window = Window(start: string, end: string)

  const MissingDateMessage := "Invalid input, 'requested_datetime' is required."
  const InvalidDateMessage :=
    "Invalid input, 'requested_datetime' must be a valid ISO date without timezone."

  /** index.js:112-114: moves forward one day at a time while the day is a
      Saturday or a Sunday. */
  function SkipWeekend(d: int): (r: int)
    ensures d <= r <= d + 2 && (WeekDay(d) != 6 ==> r <= d + 1)
    ensures !IsWeekend(r)
    ensures forall k :: d <= k < r ==> IsWeekend(k)
    decreases if WeekDay(d) == 6 then 2 else if WeekDay(d) == 0 then 1 else 0
  {
    WeekDayNext(d);
    WeekDayNext(d + 1);
    if IsWeekend(d) then SkipWeekend(d + 1) else d
  }

  /** The day the window is put on: one UTC day after the requested instant
      (index.js:111), then past any weekend. `setUTCDate(getUTCDate() + 1)`
      keeps the time of day, so it moves the instant to the next day number. */
  function NextBusinessDay(t: int): (d: int)
    ensures DayNumber(t) < d <= DayNumber(t) + 3
    ensures 1 <= WeekDay(d) <= 5
    ensures forall k :: DayNumber(t) < k < d ==> IsWeekend(k)
    ensures !IsWeekend(DayNumber(t) + 1) ==> d == DayNumber(t) + 1
    ensures 5 <= WeekDay(DayNumber(t)) || WeekDay(DayNumber(t)) == 0 ==> WeekDay(d) == 1
  {
    assert DayNumber(t + MsPerDay) == DayNumber(t) + 1;
    WeekDayNext(DayNumber(t));
    SkipWeekend(DayNumber(t + MsPerDay))
  }

  /** `${year}-${month}-${day}` with month and day padded to two digits and
      the year as `String` writes it. */
  function DateStamp(date: Date): string
    requires ValidDate(date)
  {
    ShowInt(date.year) + "-" + PadTwo(date.month) + "-" + PadTwo(date.day)
  }

  /** `POST /extend-slots` (index.js:98-121). */
  function ExtendSlots(requested: DateField): (r: Response<Window>)
    ensures requested.Absent? <==> r == BadRequest(MissingDateMessage)
    ensures requested.Unparseable? <==> r == BadRequest(InvalidDateMessage)
    ensures requested.At? <==> r.Ok?
    ensures r.Ok? ==> r.body == WindowOn(NextBusinessDay(requested.t))
  {
    match requested
    case Absent => BadRequest(MissingDateMessage)
    case Unparseable => BadRequest(InvalidDateMessage)
    case At(t) => Ok(WindowOn(NextBusinessDay(t)))
  }

  /** The 08:00-16:00 UTC window on day `d` (index.js:115-119): the year as
      `String` writes it, then the month and day padded to two digits. */
  function WindowOn(d: int): (w: Window)
    ensures ReadTimestamp(w.start) == Some(d * MsPerDay + 8 * MsPerHour)
    ensures ReadTimestamp(w.end) == Some(d * MsPerDay + 16 * MsPerHour)
  {
    var stamp := DateStamp(CivilFromDays(d));
    WindowStartReadsBack(d);
    WindowEndReadsBack(d);
    Window(stamp + "T08:00:00Z", stamp + "T16:00:00Z")
  }

  /** Reads a two-digit field. */
  function ReadTwoDigits(s: string): (r: Option<nat>)
    requires |s| == 2
  {
    if AllDigits(s) then Some(DigitsValue(s)) else None
  }

  /** The fields of `-MM-DDThh:mm:ssZ`. */
  datatype Clock = Clock(month: nat, day: nat, hour: nat, minute: nat, second: nat)

  /** Reads the part of a timestamp after the year: `-MM-DDThh:mm:ssZ`. */
  function ReadClock(tail: string): Option<Clock>
    requires |tail| == 16
  {
    if tail[0] != '-' || tail[3] != '-' || tail[6] != 'T' || tail[9] != ':' || tail[12] != ':' || tail[15] != 'Z' then None
    else
      match (ReadTwoDigits(tail[1..3]), ReadTwoDigits(tail[4..6]), ReadTwoDigits(tail[7..9]),
             ReadTwoDigits(tail[10..12]), ReadTwoDigits(tail[13..15]))
      case (Some(m), Some(d), Some(hh), Some(mm), Some(ss)) => Some(Clock(m, d, hh, mm, ss))
      case _ => None
  }

  /** Reads a timestamp `Y-MM-DDThh:mm:ssZ` (a UTC instant, the year in
      plain decimal, possibly negative) back into milliseconds; `None` when
      the text is not of that form or names no valid date or time. */
  function ReadTimestamp(s: string): Option<int> {
    if |s| < 17 then None
    else
      match (ReadInt(s[..|s| - 16]), ReadClock(s[|s| - 16..]))
      case (Some(y), Some(c)) =>
        if ValidDate(Date(y, c.month, c.day)) && c.hour < 24 && c.minute < 60 && c.second < 60 then
          Some(DaysFromCivil(Date(y, c.month, c.day)) * MsPerDay
               + c.hour * MsPerHour + c.minute * MsPerMinute + c.second * MsPerSecond)
        else None
      case _ => None
  }

  lemma ReadTwoDigitsPadTwo(n: nat)
    requires n < 100
    ensures |PadTwo(n)| == 2 && ReadTwoDigits(PadTwo(n)) == Some(n)
  {
    ReadNatPadTwo(n, []);
    assert PadTwo(n) + [] == PadTwo(n);
    DigitRunExact(PadTwo(n), 2);
  }

  /** The part after the year of a window timestamp reads back as its fields. */
  lemma ReadClockOf(month: nat, day: nat, hour: string, h: nat, suffix: string)
    requires month < 100 && day < 100 && |hour| == 2 && ReadTwoDigits(hour) == Some(h)
    requires suffix == "T" + hour + ":00:00Z"
    ensures var tail := "-" + PadTwo(month) + "-" + PadTwo(day) + suffix;
      |tail| == 16 && ReadClock(tail) == Some(Clock(month, day, h, 0, 0))
  {
    var mm, dd := PadTwo(month), PadTwo(day);
    ReadTwoDigitsPadTwo(month);
    ReadTwoDigitsPadTwo(day);
    ReadTwoDigitsPadTwo(0);
    assert PadTwo(0) == "00";
    ClockSlices(mm, dd, hour, suffix);
    ReadClockFields("-" + mm + "-" + dd + suffix, month, day, h);
  }

  /** Where the fields of `-MM-DDThh:00:00Z` sit. */
  lemma ClockSlices(mm: string, dd: string, hour: string, suffix: string)
    requires |mm| == 2 && |dd| == 2 && |hour| == 2 && suffix == "T" + hour + ":00:00Z"
    ensures var tail := "-" + mm + "-" + dd + suffix;
      && |tail| == 16
      && tail[0] == '-' && tail[3] == '-' && tail[6] == 'T' && tail[9] == ':' && tail[12] == ':' && tail[15] == 'Z'
      && tail[1..3] == mm && tail[4..6] == dd && tail[7..9] == hour
      && tail[10..12] == "00" && tail[13..15] == "00"
  {
    var tail := "-" + mm + "-" + dd + suffix;
    assert tail == ['-', mm[0], mm[1], '-', dd[0], dd[1], 'T', hour[0], hour[1], ':', '0', '0', ':', '0', '0', 'Z'];
  }

  /** A clock part with its separators in place reads as its five fields. */
  lemma ReadClockFields(tail: string, month: nat, day: nat, h: nat)
    requires |tail| == 16
    requires tail[0] == '-' && tail[3] == '-' && tail[6] == 'T' && tail[9] == ':' && tail[12] == ':' && tail[15] == 'Z'
    requires ReadTwoDigits(tail[1..3]) == Some(month) && ReadTwoDigits(tail[4..6]) == Some(day)
    requires ReadTwoDigits(tail[7..9]) == Some(h)
    requires tail[10..12] == "00" && tail[13..15] == "00" && ReadTwoDigits("00") == Some(0)
    ensures ReadClock(tail) == Some(Clock(month, day, h, 0, 0))
  {
  }

  /** A timestamp is read as its year prefix followed by its 16-character
      clock part. */
  lemma ReadTimestampSplit(y: string, tail: string, year: int, c: Clock, t: int)
    requires ReadInt(y) == Some(year) && |tail| == 16 && ReadClock(tail) == Some(c)
    requires ValidDate(Date(year, c.month, c.day)) && c.hour < 24 && c.minute < 60 && c.second < 60
    requires t == DaysFromCivil(Date(year, c.month, c.day)) * MsPerDay
      + c.hour * MsPerHour + c.minute * MsPerMinute + c.second * MsPerSecond
    ensures ReadTimestamp(y + tail) == Some(t)
  {
    var s := y + tail;
    ReadIntNonEmpty(y);
    assert s[..|s| - 16] == y && s[|s| - 16..] == tail;
    assert ReadInt(s[..|s| - 16]) == Some(year) && ReadClock(s[|s| - 16..]) == Some(c);
  }

  /** A window timestamp on `date`, the date of day number `d`, at `hour`
      o'clock reads back as that instant. */
  lemma StampReadsBack(date: Date, d: int, hour: string, h: nat, suffix: string)
    requires ValidDate(date) && DaysFromCivil(date) == d
    requires h < 24 && |hour| == 2 && ReadTwoDigits(hour) == Some(h)
    requires suffix == "T" + hour + ":00:00Z"
    ensures ReadTimestamp(DateStamp(date) + suffix) == Some(d * MsPerDay + h * MsPerHour)
  {
    var y := ShowInt(date.year);
    var tail := "-" + PadTwo(date.month) + "-" + PadTwo(date.day) + suffix;
    ReadClockOf(date.month, date.day, hour, h, suffix);
    ReadIntShowInt(date.year);
    StampSplits(date, suffix);
    ReadTimestampSplit(y, tail, date.year, Clock(date.month, date.day, h, 0, 0), d * MsPerDay + h * MsPerHour);
  }

  /** A timestamp's date part splits after the year. */
  lemma StampSplits(date: Date, suffix: string)
    requires ValidDate(date)
    ensures DateStamp(date) + suffix
         == ShowInt(date.year) + ("-" + PadTwo(date.month) + "-" + PadTwo(date.day) + suffix)
  {
  }

  lemma ReadHourLiterals()
    ensures ReadTwoDigits("08") == Some(8) && ReadTwoDigits("16") == Some(16)
    ensures "T08:00:00Z" == "T" + "08" + ":00:00Z" && "T16:00:00Z" == "T" + "16" + ":00:00Z"
  {
    assert "08"[..1] == "0" && "16"[..1] == "1";
    assert "0"[..0] == [] && "1"[..0] == [];
  }

  /** The window's opening timestamp reads back as 08:00 UTC of day `d`. */
  lemma WindowStartReadsBack(d: int)
    ensures ReadTimestamp(DateStamp(CivilFromDays(d)) + "T08:00:00Z") == Some(d * MsPerDay + 8 * MsPerHour)
  {
    DaysFromCivilOfCivilFromDays(d);
    ReadHourLiterals();
    StampReadsBack(CivilFromDays(d), d, "08", 8, "T08:00:00Z");
  }

  /** The window's closing timestamp reads back as 16:00 UTC of day `d`. */
  lemma WindowEndReadsBack(d: int)
    ensures ReadTimestamp(DateStamp(CivilFromDays(d)) + "T16:00:00Z") == Some(d * MsPerDay + 16 * MsPerHour)
  {
    DaysFromCivilOfCivilFromDays(d);
    ReadHourLiterals();
    StampReadsBack(CivilFromDays(d), d, "16", 16, "T16:00:00Z");
  }
}
