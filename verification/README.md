# Free-slot scheduling helpers, modelled in Dafny

This project models the four request handlers of `index.js`, a small Express
service that finds free time in a working day.

- `POST /occupied-slots` takes the occupied intervals of a day and a working
  window given as a start hour and an end hour. It sorts the intervals by
  start, then sweeps a cursor across them. It collects every gap the cursor
  jumps over, plus a trailing gap up to the end of the window. An empty
  result is sent as the string `"0"`.
- `POST /suggest-slots` answers with the first three free slots.
- `POST /extend-slots` moves a requested date one UTC day forward, then past
  any weekend. It answers with the 08:00-16:00 UTC window on that day.
- `POST /answer` reads the suggested slots out as a French sentence in
  UTC+1. An example is `le 21 février de 11 heures à 12 heures et de 14
  heures à 15 heures`.

The modules follow that structure:

- `Boundary` holds the shapes every handler shares: an optional value, a
  request field that should hold an array, and a response.
- `Intervals` defines intervals, coverage, and the stable sort by start.
- `FreeSlots` holds the sweep, the free-slot computation and the
  `/occupied-slots` handler.
- `Suggest` holds `/suggest-slots`.
- `Calendar` holds ECMAScript time values: day numbers, UTC hours, week
  days, and the proleptic Gregorian civil date of a day number together with
  its inverse.
- `Decimal` covers how JavaScript writes integers (`String(n)`,
  `padStart(2, '0')`), plus a reader that gets the numbers back.
- `BusinessDay` holds `/extend-slots`.
- `Answer` holds `/answer`.

Instants are integer milliseconds since 1970-01-01T00:00:00Z, as in
ECMAScript. Dafny's `/` and `%` with a positive divisor round toward
negative infinity, like ECMAScript's `Day(t)` and `HourFromTime(t)`, so
instants before 1970 are handled the same way.

The results of the text-building handlers are stated through independent
readers. `WindowOn` says that each timestamp it writes reads back, through
`ReadTimestamp`, as the intended instant. `Answer` says what
`ReadSentence` recovers from the sentence: the day and month of the first
slot, and the hour pair of every slot, in order. The readers accept only the
handlers' formats: a year without a leading zero, a day of exactly two
digits, and hours without a leading zero.

Behaviours of the handlers worth knowing:

- zero-length occupied intervals are kept: one splits a free stretch into
  two adjacent slots (`ZeroLengthSplits`), so the slots are not always
  maximal;
- free slots are not clipped to the working window: a gap before an
  occupied interval that starts after `endHour` runs past it (`OneOccupied`);
- intervals with equal starts keep their input order: the sort compares
  starts only;
- `startHour` and `endHour` must be JSON numbers; a numeric string is
  rejected;
- a window whose end is not after its start can still yield slots;
- an interval that ends before it starts is accepted; no slot ever holds an
  occupied instant, but the slots can then overlap and depend on input
  order (`MalformedOrderMatters`).

## Model

| member | source | states |
|---|---|---|
| Intervals.SortByStart | index.js:41-46 | the sorted list is ordered by start instant and holds exactly the input intervals (same multiset) |
| Intervals.SortByStartStable | index.js:46 | intervals sharing a start instant come out in the order they went in (the sort is stable) |
| Intervals.SortByStartSorted | index.js:46 | a list already ordered by start is left unchanged by the sort |
| Intervals.CoveredPermutation | index.js:41-46 | whether an instant is occupied does not depend on the order of the intervals, so sorting changes no coverage |
| FreeSlots.Horizon | index.js:59-61 | the furthest point the cursor can reach: no earlier than the window start, no earlier than any interval end, and equal to one of those |
| FreeSlots.SweepFrom | index.js:52-62 | the cursor never moves back: it ends no earlier than where it started |
| FreeSlots.SweepBounds | index.js:52-62 | the final cursor is past every interval end and is the starting cursor or one of those ends; every gap is non-empty and starts at or after the starting cursor |
| FreeSlots.SweepComplete | index.js:49-62 | every instant the cursor passes that no occupied interval contains lies in a recorded gap |
| FreeSlots.SweepSound | index.js:49-62 | over intervals sorted by start, well-formed or not, no recorded gap contains an occupied instant |
| FreeSlots.SweepAscending | index.js:49-62 | over sorted well-formed intervals the gaps are non-empty, ascending and disjoint, and end by the final cursor |
| FreeSlots.SweepBoundaries | index.js:52-61 | each gap starts at the window start or where an interval ends, and ends where an interval starts |
| FreeSlots.SweepSortedUnique | index.js:46-62 | two start-sorted orderings of the same well-formed intervals sweep to the same result, so ties in the sort do not matter |
| FreeSlots.SweepReachesHorizon | index.js:50-62 | the cursor ends at the horizon of the occupied intervals, whatever order they came in |
| FreeSlots.WithTrailing | index.js:64-70 | the gaps of the sweep are kept in order, and one slot from the cursor to the window end is appended exactly when the cursor stops short of the window end |
| FreeSlots.FreeSlots | index.js:36-70 | slots are non-empty and start no earlier than the window; every unoccupied instant of the window is in a slot; no slot holds an occupied instant; with well-formed intervals the slots are ascending |
| FreeSlots.FreeSlotsComplete | index.js:48-70 | every unoccupied instant from the window start to the later of the window end and the cursor lies in a slot |
| FreeSlots.FreeSlotsSound | index.js:48-70 | for any occupied intervals, no instant of any slot is occupied |
| FreeSlots.FreeSlotsAscending | index.js:48-70 | with well-formed intervals, the slots are ascending and pairwise disjoint |
| FreeSlots.FreeSlotsEndpoints | index.js:52-70 | every slot starts at the window start or where an interval ends, and ends at the window end or where an interval starts |
| FreeSlots.ZeroLengthSplits | index.js:41-70 | a zero-length interval in the middle of the window yields two adjacent slots, so slots are not always maximal |
| FreeSlots.FreeSlotsEndByHorizon | index.js:64-70 | with well-formed intervals, every slot except the trailing one ends by the horizon |
| FreeSlots.TrailingSlot | index.js:64-70 | a trailing slot from the horizon to the window end is emitted exactly when the intervals stop short of the window end, and it is the last slot |
| FreeSlots.NoFreeSlotIffOccupied | index.js:72-75 | with well-formed intervals, the result is empty (the `"0"` answer) exactly when every instant from the window start to the later of the window end and the horizon is occupied |
| FreeSlots.FreeSlotsOrderIndependent | index.js:40-70 | with well-formed intervals, two orderings of the same intervals give the same slots |
| FreeSlots.MalformedOrderMatters | index.js:40-70 | with an interval that ends before it starts, the input order changes the result, and a gap can be emitted twice |
| FreeSlots.OneOccupied | index.js:48-70 | one interval inside the window splits it in two; one that starts past the window end leaves one slot running past the window end |
| FreeSlots.FullyBooked | index.js:48-75 | an interval spanning the window leaves no slot, also when the window's end comes before its start |
| FreeSlots.OccupiedSlots | index.js:10-79 | a missing or empty `value` gives the first 400; otherwise non-numeric hours give the second 400; a truthy non-array with numeric hours gives a 500; a success carries the free slots of the window on the first interval's day, or `"0"` when there are none |
| Suggest.SuggestSlots | index.js:86-95 | answers with a 400 exactly when the field is missing, not an array or empty; otherwise with the first min(3, n) slots, a prefix of the input |
| Suggest.SuggestIdempotent | index.js:93 | suggesting again from the suggestions changes nothing |
| Suggest.SuggestionsAreFree | index.js:93 | suggestions drawn from computed free slots hold no occupied instant, and are ascending when the occupied intervals are well-formed |
| Calendar.HourOf | index.js:139-140 | the UTC hour is in 0..23 and places the instant inside that hour of its day |
| Calendar.WeekDay | index.js:112 | `getUTCDay` gives a week day in 0..6 |
| Calendar.WeekDayNext | index.js:112 | the week day advances by one each day, from Saturday (6) to Sunday (0) |
| Calendar.CivilFromDays | index.js:115-117 | the UTC year, month and day of a day number form a valid Gregorian date |
| Calendar.DaysFromCivilOfCivilFromDays | index.js:115-117 | the day number can be recovered from its civil date, so the date names the day |
| Calendar.EpochDate | index.js:115-117 | day 0 is 1 January 1970 |
| Calendar.FebruaryDate | index.js:115-117 | day 20140 is 21 February 2025 |
| Decimal.ShowNat | index.js:139-144 | `String(n)` is a non-empty run of digits, of one digit exactly below ten and with no leading zero |
| Decimal.PadTwo | index.js:116-117 | `padStart(2, '0')` gives two digits below 100, and leaves numbers from ten on unchanged |
| Decimal.ReadNatShowNat | index.js:142-144 | a number written with `String` reads back as that number, leaving the text after it |
| Decimal.ReadIntShowInt | index.js:115-118 | a year written with `String`, negative or not, reads back as that year |
| Decimal.ReadIntRejectsPadding | index.js:115 | the year reader rejects a year written with a leading zero, which `String` never writes |
| Decimal.ReadNumeral | index.js:139-144 | a numeral is read only without a leading zero, unless it is `0` itself, and then gives what the plain digit reader gives |
| Decimal.ReadNumeralShowNat | index.js:142-144 | a number written with `String` reads back as a numeral, leaving the text after it |
| Decimal.ReadNatPadTwo | index.js:116-117 | a padded two-digit field reads back as its number |
| BusinessDay.SkipWeekend | index.js:112-114 | the loop stops on the first day that is not a Saturday or a Sunday, at most two days on, and every day it skips is a weekend day |
| BusinessDay.NextBusinessDay | index.js:111-114 | the chosen day is one to three days after the requested day, is Monday to Friday, only weekend days lie between, it is the next day when that is a week day, and it is a Monday when the request falls Friday to Sunday |
| BusinessDay.StampReadsBack | index.js:115-119 | the date `${year}-${month}-${day}` of a valid date, followed by a two-digit hour and `:00:00Z`, reads back as that hour of the date's day |
| BusinessDay.WindowOn | index.js:115-120 | the `start` and `end` timestamps read back as 08:00 and 16:00 UTC of the chosen day |
| BusinessDay.WindowStartReadsBack | index.js:118 | the `start` string of the window on any day reads back as 08:00 UTC of that day |
| BusinessDay.WindowEndReadsBack | index.js:119 | the `end` string of the window on any day reads back as 16:00 UTC of that day |
| BusinessDay.ExtendSlots | index.js:98-121 | a missing date gives the first 400, an unreadable one the second, and a readable one a 200 with the window on the next business day |
| Answer.MonthName | index.js:138 | every French month name is a non-empty word without spaces |
| Answer.MonthNumberOfName | index.js:138 | every month name reads back as its own month, so no two months share a name |
| Answer.ShownHourWraps | index.js:135-140 | the hour shown in UTC+1 is the UTC hour plus one, wrapping from 23 to 0 |
| Answer.ShownDayNumber | index.js:135-137 | the day shown is the next UTC day exactly when the UTC hour is 23 |
| Answer.ShownDateNumber | index.js:135-138 | the shown date is the civil date of the start's UTC day, or of the next day when the UTC hour is 23 |
| Answer.ShowSlot | index.js:133-140 | the shown day (1..31) and month are those of the civil date whose day number is the start's UTC day, moved on by one when the UTC hour is 23; the shown start and end hours are the UTC hours plus one, modulo 24 |
| Answer.ShowSlots | index.js:132-140 | each slot of the list is shown on its own, in order |
| Answer.ReadHoursOf | index.js:142-144 | the `${startHour} heures à ${endHour} heures` text of a slot reads back as its hour pair, leaving the text after it |
| Answer.LeadReadsBack | index.js:141-142 | the dated piece of the first slot, followed by `et de` pieces, reads back as the slot's day, month and hours followed by the hours of the later pieces |
| Answer.ReadLatersOf | index.js:143-144 | the `et de` pieces of the later slots read back as their hour pairs, in order |
| Answer.Sentence | index.js:131-146 | the text is empty exactly when there are no slots, and otherwise starts with the dated piece of the first slot |
| Answer.SentenceShape | index.js:132-146 | the sentence built left to right is the dated piece of the first slot followed by the `et de` pieces of the others |
| Answer.SentenceReadsBack | index.js:131-146 | the sentence reads back as the day and month of the first slot and the start and end hours of every slot, in order |
| Answer.ShowSlotExample | index.js:133-140 | 2025-02-21T10:00Z to 11:00Z is shown as 21 February, from 11 to 12 |
| Answer.LeadExample | index.js:141-142 | the dated piece of that slot is `le 21 février de 11 heures à 12 heures` |
| Answer.AnswerExample | index.js:124-148 | the answer for that single slot is exactly `le 21 février de 11 heures à 12 heures` |
| Answer.Answer | index.js:124-148 | a missing, non-array or empty field gives the 400; otherwise the sentence reads back as the UTC+1 day and month of the first slot and, for every slot, its UTC hours plus one |

## Left out

- HTTP routing, JSON parsing, the port and the server start (index.js:1-7, 150-153) are outside the model. Each handler is a function from its request fields to a response.
- Timestamp parsing in `/occupied-slots` and `/answer` is not modelled. Intervals arrive as instants that have already been read. Strings that `new Date` cannot read (Invalid Date, with its `NaN` comparisons and `"NaN"` text) are not modelled, and neither is the `toISOString` serialisation of the slots on the way out (index.js:55-56, 67-68).
- The parser behind `new Date(requested_datetime + "Z")` is not modelled. `DateField` states only whether the value was falsy, unreadable, or read as an instant.
- FreeSlots.OccupiedSlots: the working window comes from the host's local time zone (`new Date(year, month, day, hour)`), so it is a parameter `localHour`. Hours that are not integers, `NaN` or infinite are not modelled.
- FreeSlots.OccupiedSlots: a truthy non-array whose `length` is 0 (such as `{ length: 0 }`) makes the handler answer the first 400. The model answers 500 for every non-array.
- FreeSlots.FreeSlots: ascending order is stated only for well-formed intervals (start not after end). A malformed interval can make the sweep emit overlapping slots (`MalformedOrderMatters`).
- Answer.Answer: the month is taken from the UTC date of the shifted start instant. The handler's `toLocaleString('fr-FR', { month: 'long' })` uses the host's local time zone, which can name a different month near a month boundary.
- Answer.Answer: the +1 hour shift is fixed whatever the season. This follows the handler, which adds one hour and does not consult daylight saving.
- BusinessDay.ExtendSlots: the window is stated through `ReadTimestamp`, which reads each timestamp back as an instant, rather than character by character.
- The range limit of ECMAScript time values (±8.64e15 ms) is not modelled. Integers are unbounded, so no date goes invalid at the edges.
