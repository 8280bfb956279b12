# Board and calendar grouping, modelled in Dafny

This project models the two small algorithmic cores of the obsidian-projects plugin. Both turn a list of
records (notes with frontmatter fields) into what a view displays:

- **Board grouper** (`obsidian-projects/src/components/views/Board/board.ts`, module `Board`). It puts
  records into one bucket per distinct non-empty string value of the status field. A reserved bucket,
  labelled with the localised "no status" text, takes every other record.
- **Calendar engine** (`src/ui/views/Calendar/calendar.ts`, module `Calendar`). It covers:
  - the five zoom levels (`month`, `2weeks`, `week`, `3days`, `day`);
  - stepping a date one zoom unit forward or back;
  - the visible window around an anchor date;
  - the title template for a window;
  - the day map, which files each record under every day from its start date to its end date;
  - listing a window's days and cutting them into grid rows.

Supporting modules:

- `Records`: the record, its field values (`Str`, `Date`, `Other`, `Missing`) and `Option`.
- `Dates`: day-granularity proleptic Gregorian arithmetic on day numbers. Day 0 is 1970-01-01, a
  Thursday. It covers ISO weekdays and weeks, civil dates in both directions, month bounds and the
  month step.
- `Seqs`: the order-preserving filter that both grouping functions reduce to, with its facts.

Both `groupRecordsByField` functions fill a dictionary step by step. They are modelled as methods with
loops, each proved against a filter specification. The loop bodies of the `forEach` callbacks are
separate methods (`FileRecord`). The `for...of` loop that creates the empty buckets is `InitBuckets`, and
the board's `forEach` loop is `FillBuckets`. The zoom-level, stepping, window and title code has no
loops, so it is modelled as functions.

Two behaviours of the code are easy to miss, and the model keeps both:

- **End on or before the start.** A calendar record whose end is a date on or before its start day is
  not filed at all. The `if / else if` at `src/ui/views/Calendar/calendar.ts:77-98` has no final
  `else`. `Calendar.Filing` and `Calendar.DroppedRecord` state this.
- **Order of `unique`.** `unique` returns the values in first-occurrence order, the insertion order of
  a JavaScript `Set`. `Board.Unique` proves that order, both within the mapped list and by the
  position of each value's first record.

## Model

| member | source | states |
|---|---|---|
| Calendar.IsCalendarInterval | src/ui/views/Calendar/calendar.ts:9-20 | true exactly when the string is the name of one of the five zoom levels |
| Calendar.AddInterval | src/ui/views/Calendar/calendar.ts:22-38 | always moves forward. `2weeks` adds 14 days, `week` adds 7, `3days` and `day` add 1. `month` goes to the same day of the next month, clamped to that month's length, which is 28 to 31 days later |
| Calendar.SubtractInterval | src/ui/views/Calendar/calendar.ts:40-56 | always moves back. 14, 7, 1 and 1 days; `month` goes to the same day of the previous month, clamped, 28 to 31 days earlier |
| Calendar.MonthStepForward | src/ui/views/Calendar/calendar.ts:27-28 | one month forward is 28 to 31 days |
| Calendar.MonthStepBackward | src/ui/views/Calendar/calendar.ts:45-46 | one month back is 28 to 31 days |
| Calendar.StepRoundTrip | src/ui/views/Calendar/calendar.ts:22-56 | for every zoom level but `month`, a step back undoes a step forward and vice versa |
| Calendar.MonthRoundTrip | src/ui/views/Calendar/calendar.ts:27-28 | on days 1 to 28 of a month, a month back undoes a month forward |
| Calendar.MonthStepClamps | src/ui/views/Calendar/calendar.ts:27-28 | from January 31st a month forward lands in February before the 31st, and a month back does not return to the start |
| Calendar.ComputeDateInterval | src/ui/views/Calendar/calendar.ts:105-127 | start <= anchor <= end. `week` is the Monday..Sunday of the anchor's ISO week. `2weeks` is 14 days from that Monday. `3days` is anchor..anchor+2 and `day` is anchor..anchor. `month` runs from a Monday to a Sunday, holds the month's first and last days within its first and last week, and has a length that is a multiple of 7, between 28 and 42 |
| Calendar.MonthSpan | src/ui/views/Calendar/calendar.ts:112-113 | the first and last day of a month are 27 to 30 days apart |
| Calendar.MonthWindow | src/ui/views/Calendar/calendar.ts:110-114 | the month window starts within a week before the month's first day and ends within a week after its last day. It is made of whole weeks, four to six of them |
| Calendar.GenerateTitle | src/ui/views/Calendar/calendar.ts:129-164 | the single-date template exactly when both ends are the same day. Otherwise the interval template with both ends: separator ", " and the shared year when both ends are in the same year, separator "" and no year otherwise |
| Calendar.TitleOfWindow | src/ui/views/Calendar/calendar.ts:105-137 | of the computed windows, only the `day` zoom level gets the single-date title |
| Calendar.GenerateDates | src/ui/views/Calendar/calendar.ts:166-178 | returns max(0, end - start + 1) days, where element i is start + i. A day is in the list exactly when it is in the window |
| Calendar.Take | src/ui/views/Calendar/calendar.ts:198-208 | the prefix of the input of length min(num, length), or empty when num <= 0 |
| Calendar.ChunkDates | src/ui/views/Calendar/calendar.ts:180-196 | for chunks >= 1: the rows read in order give back the input. Every row has 1..chunks days, and every row but the last has exactly chunks. No rows exactly when there are no dates |
| Calendar.Filing | src/ui/views/Calendar/calendar.ts:69-98 | a record is filed exactly when its start is a date and its end is unset, not a date, or a later day. It then spans from its start day to its end day when the end is a date, and covers the start day alone otherwise |
| Calendar.FileRecord | src/ui/views/Calendar/calendar.ts:65-98 | adds the record to every day it is filed under, creating a day's list on first use. Other days are unchanged |
| Calendar.GroupRecordsByField | src/ui/views/Calendar/calendar.ts:58-103 | a day is a key exactly when some record is filed under it, so no list is empty. Its list is exactly the records filed under that day, in input order |
| Calendar.DayCount | src/ui/views/Calendar/calendar.ts:77-97 | a record appears under a day as often as it occurs in the input if it is filed there, and never otherwise |
| Calendar.SingleDayFiling | src/ui/views/Calendar/calendar.ts:66-83 | a record with a start date and no end date appears exactly once, under its start day, and nowhere else |
| Calendar.MultiDayFiling | src/ui/views/Calendar/calendar.ts:85-97 | a record whose end day is after its start day appears exactly once under each day from start to end inclusive, and nowhere else |
| Calendar.DroppedRecord | src/ui/views/Calendar/calendar.ts:69-98 | a record with no start date, or with an end date on or before its start day, is under no day |
| Calendar.DayMapExample | src/ui/views/Calendar/calendar.ts:58-103 | records dated s and s+2..s+4 give day s -> [first], days s+2, s+3, s+4 -> [second], and nothing else |
| Dates.IsoWeekday | src/ui/views/Calendar/calendar.ts:117 | the ISO weekday is 1..7, and day 0 (1970-01-01) is a Thursday |
| Dates.StartOfIsoWeek | src/ui/views/Calendar/calendar.ts:117 | the Monday on or before the day, less than a week before it |
| Dates.EndOfIsoWeek | src/ui/views/Calendar/calendar.ts:121 | the Sunday on or after the day, less than a week after it |
| Dates.MondaysWeeksApart | src/ui/views/Calendar/calendar.ts:112-113 | two Mondays are a whole number of weeks apart |
| Dates.MonthLength | src/ui/views/Calendar/calendar.ts:113 | 30 days in April, June, September and November. February has 29 days in leap years and 28 otherwise. The other months have 31 |
| Dates.YearOf | src/ui/views/Calendar/calendar.ts:139 | the year whose January 1st is on or before the day and whose next January 1st is after it |
| Dates.Civil | src/ui/views/Calendar/calendar.ts:78 | the civil date of a day is valid and names that day back, so the `YYYY-MM-DD` key of a day names that day alone |
| Dates.CivilOfToDay | src/ui/views/Calendar/calendar.ts:91 | reading a valid civil date as a day number and back gives the same date |
| Dates.FirstOfMonth | src/ui/views/Calendar/calendar.ts:112 | on or before the day, with the same year and month and day-of-month 1 |
| Dates.LastOfMonth | src/ui/views/Calendar/calendar.ts:113 | on or after the day, with the same year and month and the month's last day-of-month |
| Dates.MonthsLater | src/ui/views/Calendar/calendar.ts:28 | a valid date exactly k calendar months later. The day of the month is kept, or clamped to the target month's last day when it does not exist there |
| Dates.AddMonths | src/ui/views/Calendar/calendar.ts:28 | the civil date k months later with the day clamped to the target month's length |
| Dates.NextMonth | src/ui/views/Calendar/calendar.ts:28 | one month later is the next month of the same year, or January of the next year with the same day. The day is clamped |
| Dates.PreviousMonth | src/ui/views/Calendar/calendar.ts:46 | one month earlier is the previous month of the same year, or December of the previous year with the same day. The day is clamped |
| Board.NotEmpty | obsidian-projects/src/components/views/Board/board.ts:5-7 | true exactly when the value is neither null nor undefined, that is, when it holds a value |
| Records.Lookup | obsidian-projects/src/components/views/Board/board.ts:11 | the value stored under the field, and `Missing` exactly when the field is absent or holds no value |
| Board.AsKey | obsidian-projects/src/components/views/Board/board.ts:12 | never undefined. A non-null key exactly when the value is a non-empty string, and the key is that string |
| Board.Keys | obsidian-projects/src/components/views/Board/board.ts:10-13 | a string is in the mapped and filtered list exactly when some record's field holds it as a non-empty string. "" is never in it |
| Board.Distinct | obsidian-projects/src/components/views/Board/board.ts:15-17 | no duplicates, and the same elements as the input |
| Board.DistinctFirstOccurrenceOrder | obsidian-projects/src/components/views/Board/board.ts:15-17 | the elements come in the order of their first occurrence in the input |
| Board.FirstRecord | obsidian-projects/src/components/views/Board/board.ts:10-13 | the index of the first record whose field holds the key |
| Board.KeysFollowRecords | obsidian-projects/src/components/views/Board/board.ts:10-13 | one key first occurs before another in the mapped list exactly when its first record comes before the other's |
| Board.Unique | obsidian-projects/src/components/views/Board/board.ts:9-18 | each non-empty string value of the field exactly once, in first-occurrence order: a value comes before another exactly when its first record does. Never "" and never a non-string value |
| Board.BucketOf | obsidian-projects/src/components/views/Board/board.ts:42-46 | the record's value when it is a non-empty string, and the reserved label otherwise |
| Board.InitBuckets | obsidian-projects/src/components/views/Board/board.ts:32-37 | one empty bucket per key, plus the reserved one |
| Board.FileRecord | obsidian-projects/src/components/views/Board/board.ts:39-47 | appends the record to the bucket of its value, or to the reserved bucket when it has no non-empty string value. Keys and all other buckets are unchanged |
| Board.FillBuckets | obsidian-projects/src/components/views/Board/board.ts:39-47 | starting from empty buckets, each bucket ends up holding exactly the records that belong in it, in input order |
| Board.GroupRecordsByField | obsidian-projects/src/components/views/Board/board.ts:20-50 | with the field unset or empty: the one reserved key, holding all records in order. Otherwise the key set is exactly `unique` plus the reserved label, and each bucket holds exactly its records in input order. The reserved bucket exists even when empty |
| Board.BucketIsAKey | obsidian-projects/src/components/views/Board/board.ts:30-45 | every record's bucket is among the keys created |
| Board.Partition | obsidian-projects/src/components/views/Board/board.ts:39-47 | a record sits in its own bucket as often as it occurs in the input, and in no other bucket |
| Board.LabelCollision | obsidian-projects/src/components/views/Board/board.ts:32-45 | a record whose value equals the reserved label shares the reserved bucket with records that have no string value. The label then also appears among the field's values |
| Board.BucketSizesSum | obsidian-projects/src/components/views/Board/board.ts:39-47 | the bucket sizes, summed over the keys, equal the number of records |
| Seqs.FilterKeepsOrder | obsidian-projects/src/components/views/Board/board.ts:39-47 | a bucket is the input read at increasing positions, namely the positions whose record belongs in it, so records keep their relative order |
| Seqs.FilterCount | src/ui/views/Calendar/calendar.ts:83 | a filtered list holds each passing element as often as the input, and no failing one |
| Seqs.FilterAppend | src/ui/views/Calendar/calendar.ts:96 | filtering a concatenation is concatenating the filtered parts, which is what appending record by record builds |

## Left out

- Time of day, time zones and daylight saving are not modelled. Dates are day numbers, and dayjs
  comparisons with the unit `"day"` become integer comparisons. `diff(..., "days")` at
  `src/ui/views/Calendar/calendar.ts:171` truncates. For the windows the code builds it equals the
  difference in days, and `Calendar.GenerateDates` uses that difference.
- `Calendar.AddInterval`, `Calendar.SubtractInterval`: the month step follows the date library's rule
  that the day is clamped to the target month's length. That library code is not part of this model,
  so the clamping is an assumption.
- `Calendar.GenerateTitle`: returns the chosen template and its parameters (`Calendar.Title`), not
  rendered text. Localised formatting is not modelled.
- The localisation store (`get(i18n).t(...)`) is not part of this model. The board's reserved label is
  the parameter `noStatus`.
- `isDate` and `isString` are not part of this model. A field value is one of `Str`, `Date`, `Other`
  and `Missing`. `Other` stands for numbers, booleans, lists and null. Only `Str("")` is falsy in a
  way the code distinguishes.
- `Calendar.ChunkDates`: requires `chunks >= 1`. With `chunks` 0 or negative and a non-empty list the
  source never ends: `take` returns no dates and `rest.slice(0)` leaves the rest unchanged. With an
  empty list it returns no rows, a call the precondition also rules out. Non-integer chunk sizes are
  not modelled.
- `Calendar.Take`: does not model skipping falsy elements, because dates are never falsy.
- `Board.GroupRecordsByField`, `Calendar.GroupRecordsByField`: key order is not modelled, because a
  Dafny `map` has none. The board inserts the reserved label first and then the values in `unique`'s
  order (`obsidian-projects/src/components/views/Board/board.ts:32-37`), and JavaScript objects also
  list integer-like keys before the others. The calendar's `YYYY-MM-DD` keys iterate in the order the
  records first fill each day (`src/ui/views/Calendar/calendar.ts:63-96`). Nothing in either core
  depends on that order.
- `Board.GroupRecordsByField`: aliasing is not modelled. With the field unset the source returns the
  caller's own `records` array as the reserved bucket
  (`obsidian-projects/src/components/views/Board/board.ts:27`), so later changes to one show in the
  other. The model returns a value.
- Object keys that clash with JavaScript prototype property names are not modelled. Both maps are
  plain `map`s.
- `src/main.ts` (plugin lifecycle, view and command registration, menus, settings persistence) is
  not part of this model. It is host glue with asynchronous I/O and no grouping logic.
