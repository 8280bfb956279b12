/**
 * The calendar view's engine (src/ui/views/Calendar/calendar.ts): zoom levels,
 * stepping and windowing a date, filing records under the days they span, choosing
 * the title template, and laying out the window's days as grid rows.
 *
 * Dates are day numbers (module Dates); the time of day, time zones and daylight
 * saving are not modelled. A `YYYY-MM-DD` day key names exactly one day, so the
 * day map is keyed by day number.
 */
module Calendar {
  import opened Records
  import opened Dates
  import opened Seqs

  /** The zoom levels: "month", "2weeks", "week", "3days", "day". */
  datatype CalendarInterval = Month | TwoWeeks | Week | ThreeDays | OneDay

  /** The string each zoom level is stored and compared as. */
  function Name(iv: CalendarInterval): string
  {
    match iv
    case Month => "month"
    case TwoWeeks => "2weeks"
    case Week => "week"
    case ThreeDays => "3days"
    case OneDay => "day"
  }

  /** `isCalendarInterval`: the string names one of the five zoom levels. */
  function IsCalendarInterval(value: string): (b: bool)
    ensures b <==> exists iv :: Name(iv) == value
  {
    match value
    case "month" => assert Name(Month) == value; true
    case "2weeks" => assert Name(TwoWeeks) == value; true
    case "week" => assert Name(Week) == value; true
    case "3days" => assert Name(ThreeDays) == value; true
    case "day" => assert Name(OneDay) == value; true
    case _ => false
  }

  /** A step of one month forward covers the current month's length, 28 to 31 days. */
  lemma MonthStepForward(d: Day)
    ensures 28 <= AddMonths(d, 1) - d <= 31
  {
    var c := Civil(d);
    NextMonth(c);
    var next := AddMonths(d, 1);
    assert ToDay(Civil(next)) == next;
    if c.month < 12 {
      assert DaysBeforeMonth(c.year, c.month + 1) == DaysBeforeMonth(c.year, c.month) + MonthLength(c.year, c.month);
    } else {
      YearStartStep(c.year);
    }
  }

  /** A step of one month backward covers the previous month's length, clamped: 28 to 31 days. */
  lemma MonthStepBackward(d: Day)
    ensures 28 <= d - AddMonths(d, -1) <= 31
  {
    var c := Civil(d);
    PreviousMonth(c);
    var prev := AddMonths(d, -1);
    assert ToDay(Civil(prev)) == prev;
    if c.month > 1 {
      assert DaysBeforeMonth(c.year, c.month) == DaysBeforeMonth(c.year, c.month - 1) + MonthLength(c.year, c.month - 1);
    } else {
      YearStartStep(c.year - 1);
    }
  }

  /** `addInterval`: one step of the zoom level forward. */
  function AddInterval(date: Day, iv: CalendarInterval): (r: Day)
    ensures date < r
    ensures iv.Month? ==> 28 <= r - date <= 31
    ensures iv.Month? ==> Civil(r) == MonthsLater(Civil(date), 1)
    ensures iv.TwoWeeks? ==> r == date + 14
    ensures iv.Week? ==> r == date + 7
    ensures iv.ThreeDays? || iv.OneDay? ==> r == date + 1
  {
    match iv
    case Month => MonthStepForward(date); AddMonths(date, 1)
    case TwoWeeks => date + 2 * 7
    case Week => date + 7
    case ThreeDays => date + 1
    case OneDay => date + 1
  }

  /** `subtractInterval`: one step of the zoom level backward. */
  function SubtractInterval(date: Day, iv: CalendarInterval): (r: Day)
    ensures r < date
    ensures iv.Month? ==> 28 <= date - r <= 31
    ensures iv.Month? ==> Civil(r) == MonthsLater(Civil(date), -1)
    ensures iv.TwoWeeks? ==> r == date - 14
    ensures iv.Week? ==> r == date - 7
    ensures iv.ThreeDays? || iv.OneDay? ==> r == date - 1
  {
    match iv
    case Month => MonthStepBackward(date); AddMonths(date, -1)
    case TwoWeeks => date - 2 * 7
    case Week => date - 7
    case ThreeDays => date - 1
    case OneDay => date - 1
  }

  /** For every zoom level but the month, a step back undoes a step forward and vice versa. */
  lemma StepRoundTrip(date: Day, iv: CalendarInterval)
    requires !iv.Month?
    ensures SubtractInterval(AddInterval(date, iv), iv) == date
    ensures AddInterval(SubtractInterval(date, iv), iv) == date
  {
  }

  /** The month steps undo each other on days 1 to 28, which every month has. */
  lemma MonthRoundTrip(date: Day)
    requires Civil(date).day <= 28
    ensures SubtractInterval(AddInterval(date, Month), Month) == date
  {
    var c := Civil(date);
    NextMonth(c);
    var next := AddInterval(date, Month);
    PreviousMonth(Civil(next));
    var back := SubtractInterval(next, Month);
    assert Civil(back) == c;
    assert ToDay(Civil(back)) == back;
  }

  /** The month steps do not undo each other on January 31st: the step clamps to February's end. */
  lemma MonthStepClamps(date: Day)
    requires Civil(date).month == 1 && Civil(date).day == 31
    ensures Civil(AddInterval(date, Month)).month == 2
    ensures Civil(AddInterval(date, Month)).day < 31
    ensures SubtractInterval(AddInterval(date, Month), Month) != date
  {
    var c := Civil(date);
    NextMonth(c);
    var next := AddInterval(date, Month);
    PreviousMonth(Civil(next));
  }

  /** A visible window `[start, end]`, both ends inclusive. */
  datatype DateInterval = DateInterval(start: Day, end: Day)

  /** `computeDateInterval`: the window the view shows around `anchor` at zoom level `iv`. */
  function ComputeDateInterval(anchor: Day, iv: CalendarInterval): (w: DateInterval)
    ensures w.start <= anchor <= w.end
    ensures iv.Month? ==>
      && IsoWeekday(w.start) == 1 && IsoWeekday(w.end) == 7
      && w.start <= FirstOfMonth(anchor) < w.start + 7
      && w.end - 7 < LastOfMonth(anchor) <= w.end
      && (w.end - w.start + 1) % 7 == 0
      && 28 <= w.end - w.start + 1 <= 42
    ensures iv.TwoWeeks? ==> IsoWeekday(w.start) == 1 && anchor < w.start + 7 && w.end == w.start + 13
    ensures iv.Week? ==> IsoWeekday(w.start) == 1 && w.end == w.start + 6
    ensures iv.ThreeDays? ==> w.start == anchor && w.end == anchor + 2
    ensures iv.OneDay? ==> w.start == anchor && w.end == anchor
  {
    match iv
    case Month =>
      MonthWindow(anchor);
      DateInterval(StartOfIsoWeek(FirstOfMonth(anchor)), EndOfIsoWeek(LastOfMonth(anchor)))
    case TwoWeeks =>
      MondaysWeeksApart(StartOfIsoWeek(anchor), StartOfIsoWeek(anchor + 7));
      DateInterval(StartOfIsoWeek(anchor), EndOfIsoWeek(anchor + 7))
    case Week => DateInterval(StartOfIsoWeek(anchor), EndOfIsoWeek(anchor))
    case ThreeDays => DateInterval(anchor, anchor + 2)
    case OneDay => DateInterval(anchor, anchor)
  }

  /** The month holding `d` runs from its first to its last day: 28 to 31 days. */
  lemma MonthSpan(d: Day)
    ensures 27 <= LastOfMonth(d) - FirstOfMonth(d) <= 30
  {
    var first, last := FirstOfMonth(d), LastOfMonth(d);
    assert ToDay(Civil(first)) == first && ToDay(Civil(last)) == last;
  }

  /** The month window: whole ISO weeks, Monday to Sunday, four to six of them, around the month. */
  lemma MonthWindow(anchor: Day)
    ensures var start, end := StartOfIsoWeek(FirstOfMonth(anchor)), EndOfIsoWeek(LastOfMonth(anchor));
      && start <= FirstOfMonth(anchor) < start + 7
      && end - 7 < LastOfMonth(anchor) <= end
      && (end - start + 1) % 7 == 0
      && 28 <= end - start + 1 <= 42
  {
    var first, last := FirstOfMonth(anchor), LastOfMonth(anchor);
    MonthSpan(anchor);
    var start, end := StartOfIsoWeek(first), EndOfIsoWeek(last);
    MondaysWeeksApart(start, StartOfIsoWeek(last));
    assert end - start + 1 == StartOfIsoWeek(last) - start + 7;
  }

  /** The template a title is rendered with, and its parameters; rendering itself is localisation. */
  datatype Title =
    | DateTitle(value: Day)
      // "views.calendar.date": the one day, with long month, day and year
    | IntervalTitle(from: Day, to: Day, separator: string, customYear: Option<int>)
      // "views.calendar.interval": with a shared year the endpoints show short month and
      // day; without one (customYear None, rendered "") each endpoint shows its own year

  /** `generateTitle`: the title template for a window. */
  function GenerateTitle(w: DateInterval): (t: Title)
    ensures t.DateTitle? <==> w.start == w.end
    ensures t.DateTitle? ==> t.value == w.start
    ensures t.IntervalTitle? ==> t.from == w.start && t.to == w.end
    ensures t.IntervalTitle? ==> (t.customYear.Some? <==> Civil(w.start).year == Civil(w.end).year)
    ensures t.IntervalTitle? && t.customYear.Some? ==>
      t.separator == ", " && t.customYear.value == Civil(w.start).year == Civil(w.end).year
    ensures t.IntervalTitle? && t.customYear.None? ==> t.separator == ""
  {
    if w.start == w.end then
      DateTitle(w.start)
    else if Civil(w.start).year == Civil(w.end).year then
      IntervalTitle(w.start, w.end, ", ", Some(Civil(w.start).year))
    else
      IntervalTitle(w.start, w.end, "", None)
  }

  /** Only the one-day zoom level gets the single-date title. */
  lemma TitleOfWindow(anchor: Day, iv: CalendarInterval)
    ensures GenerateTitle(ComputeDateInterval(anchor, iv)).DateTitle? <==> iv.OneDay?
  {
    var w := ComputeDateInterval(anchor, iv);
    if iv.Month? {
      assert w.end - w.start + 1 >= 28;
    }
  }

  /** `generateDates`: every day of the window, in order. */
  method GenerateDates(w: DateInterval) returns (dates: seq<Day>)
    ensures |dates| == if w.start <= w.end then w.end - w.start + 1 else 0
    ensures forall i :: 0 <= i < |dates| ==> dates[i] == w.start + i
    ensures forall d :: d in dates <==> w.start <= d <= w.end
  {
    dates := [];
    var numDays := w.end - w.start;
    var i := 0;
    while i <= numDays
      invariant 0 <= i
      invariant numDays >= 0 ==> i <= numDays + 1
      invariant numDays < 0 ==> i == 0
      invariant |dates| == i
      invariant forall j :: 0 <= j < i ==> dates[j] == w.start + j
    {
      dates := dates + [w.start + i];
      i := i + 1;
    }
    forall d | w.start <= d <= w.end
      ensures d in dates
    {
      assert dates[d - w.start] == d;
    }
  }

  /** The rows of a grid read one after the other. */
  function Flatten<T>(rows: seq<seq<T>>): seq<T>
  {
    if rows == [] then [] else Flatten(rows[..|rows| - 1]) + rows[|rows| - 1]
  }

  lemma FlattenSnoc<T>(rows: seq<seq<T>>, row: seq<T>)
    ensures Flatten(rows + [row]) == Flatten(rows) + row
  {
    assert (rows + [row])[..|rows|] == rows;
  }

  /** `take`: the first `num` elements of `arr`, or all of them when there are fewer. */
  method Take<T>(arr: seq<T>, num: int) returns (buffer: seq<T>)
    ensures |buffer| == if num <= 0 then 0 else Min(num, |arr|)
    ensures buffer == arr[..|buffer|]
  {
    buffer := [];
    var i := 0;
    while i < num && i < |arr|
      invariant 0 <= i <= |arr|
      invariant num <= 0 ==> i == 0
      invariant num > 0 ==> i <= num
      invariant buffer == arr[..i]
    {
      var el := arr[i];
      buffer := buffer + [el];
      i := i + 1;
    }
  }

  /**
   * `chunkDates`: the dates cut into consecutive rows of `chunks` days, the last row
   * possibly shorter. With `chunks` 0 or negative and `dates` non-empty the source
   * never ends (`take` returns no dates and the rest stays as it was); with `dates`
   * empty it returns no rows. The precondition rules out both calls.
   */
  method ChunkDates(dates: seq<Day>, chunks: int) returns (rows: seq<seq<Day>>)
    requires chunks >= 1
    ensures Flatten(rows) == dates
    ensures forall j :: 0 <= j < |rows| ==> 1 <= |rows[j]| <= chunks
    ensures forall j :: 0 <= j < |rows| - 1 ==> |rows[j]| == chunks
    ensures rows == [] <==> dates == []
  {
    rows := [];
    var rest := dates;
    while |rest| > 0
      invariant Flatten(rows) + rest == dates
      invariant forall j :: 0 <= j < |rows| ==> 1 <= |rows[j]| <= chunks
      invariant forall j :: 0 <= j < |rows| - 1 ==> |rows[j]| == chunks
      invariant rest != [] && rows != [] ==> |rows[|rows| - 1]| == chunks
      invariant rows == [] ==> rest == dates
      decreases |rest|
    {
      var chunked := Take(rest, chunks);
      FlattenSnoc(rows, chunked);
      rows := rows + [chunked];
      assert rest == chunked + rest[|chunked|..];
      rest := rest[|chunked|..];
    }
  }

  /** The days a record spans in the day map, both ends inclusive. */
  datatype Span = Span(first: Day, last: Day)

  /**
   * Which days `groupRecordsByField` files a record under: a record without a start
   * date is dropped; one whose end is missing or not a date is filed under its start
   * day; one whose end day is after its start day under every day from start to end;
   * and one whose end day is on or before its start day is dropped too.
   */
  function Filing(r: DataRecord, startField: string, endField: Option<string>): (f: Option<Span>)
    ensures f.Some? <==>
      (Lookup(r, startField).Date? &&
       (endField.None? || !Lookup(r, endField.value).Date? ||
        Lookup(r, startField).day < Lookup(r, endField.value).day))
    ensures f.Some? ==> f.value.first == Lookup(r, startField).day <= f.value.last
    ensures f.Some? && f.value.first < f.value.last ==>
      endField.Some? && Lookup(r, endField.value) == Date(f.value.last)
    ensures f.Some? ==>
      f.value.last == (if endField.Some? && Lookup(r, endField.value).Date?
                       then Lookup(r, endField.value).day else f.value.first)
  {
    var startValue := Lookup(r, startField);
    var endValue := if endField.Some? then Lookup(r, endField.value) else Missing;
    if !startValue.Date? then None
    else if !endValue.Date? then Some(Span(startValue.day, startValue.day))
    else if startValue.day < endValue.day then Some(Span(startValue.day, endValue.day))
    else None
  }

  /** The test for "filed under `day`". */
  function FiledOn(startField: string, endField: Option<string>, day: Day): DataRecord -> bool
  {
    r => var f := Filing(r, startField, endField); f.Some? && f.value.first <= day <= f.value.last
  }

  /**
   * The body of the `forEach` callback: files one record into the day map, creating a
   * day's list on first use.
   */
  method FileRecord(res: map<Day, seq<DataRecord>>, record: DataRecord, startField: string, endField: Option<string>)
    returns (res': map<Day, seq<DataRecord>>)
    ensures forall k :: k in res' <==> k in res || FiledOn(startField, endField, k)(record)
    ensures forall k :: k in res' ==>
      res'[k] == (if k in res then res[k] else []) + (if FiledOn(startField, endField, k)(record) then [record] else [])
  {
    res' := res;
    var dateValue := Lookup(record, startField);
    var endDateValue := if endField.Some? then Lookup(record, endField.value) else Missing;
    var start: Option<Day> := if dateValue.Date? then Some(dateValue.day) else None;
    var end: Option<Day> := if dateValue.Date? && endDateValue.Date? then Some(endDateValue.day) else None;
    if start.Some? && end.None? {
      var day := start.value;
      if day !in res' {
        res' := res'[day := []];
      }
      res' := res'[day := res'[day] + [record]];
    } else if start.Some? && end.Some? && start.value < end.value {
      var date := start.value;
      while date <= end.value
        invariant start.value <= date <= end.value + 1
        invariant forall k :: k in res' <==> (k in res || start.value <= k < date)
        invariant forall k :: k in res' ==>
          res'[k] == (if k in res then res[k] else []) + (if start.value <= k < date then [record] else [])
      {
        if date !in res' {
          res' := res'[date := []];
        }
        res' := res'[date := res'[date] + [record]];
        date := date + 1;
      }
    }
  }

  /**
   * `groupRecordsByField` (calendar): the day map. A day is a key exactly when some
   * record is filed under it, and its list holds those records in input order.
   */
  method GroupRecordsByField(records: seq<DataRecord>, startField: string, endField: Option<string>)
    returns (res: map<Day, seq<DataRecord>>)
    ensures forall day :: day in res <==> Filter(records, FiledOn(startField, endField, day)) != []
    ensures forall day :: day in res ==> res[day] == Filter(records, FiledOn(startField, endField, day))
  {
    res := map[];
    var i := 0;
    while i < |records|
      invariant 0 <= i <= |records|
      invariant forall k :: k in res <==> Filter(records[..i], FiledOn(startField, endField, k)) != []
      invariant forall k :: k in res ==> res[k] == Filter(records[..i], FiledOn(startField, endField, k))
    {
      var record := records[i];
      res := FileRecord(res, record, startField, endField);
      assert records[..i + 1] == records[..i] + [record];
      forall k
        ensures Filter(records[..i + 1], FiledOn(startField, endField, k))
          == Filter(records[..i], FiledOn(startField, endField, k))
             + (if FiledOn(startField, endField, k)(record) then [record] else [])
      {
        FilterAppend(records[..i], [record], FiledOn(startField, endField, k));
        FilterSingleton(record, FiledOn(startField, endField, k));
      }
      i := i + 1;
    }
    assert records[..i] == records;
  }

  /** How often a record appears under `day`: as often as in the input if it is filed there, else never. */
  lemma DayCount(records: seq<DataRecord>, startField: string, endField: Option<string>, r: DataRecord, day: Day)
    ensures multiset(Filter(records, FiledOn(startField, endField, day)))[r]
      == if FiledOn(startField, endField, day)(r) then multiset(records)[r] else 0
  {
    FilterCount(records, FiledOn(startField, endField, day), r);
  }

  /**
   * Single-day filing: a record (occurring once) with a start date and no end date
   * appears exactly once under its start day and under no other day.
   */
  lemma SingleDayFiling(records: seq<DataRecord>, startField: string, endField: Option<string>, r: DataRecord, day: Day)
    requires multiset(records)[r] == 1
    requires Lookup(r, startField).Date?
    requires endField.None? || !Lookup(r, endField.value).Date?
    ensures multiset(Filter(records, FiledOn(startField, endField, day)))[r]
      == if day == Lookup(r, startField).day then 1 else 0
  {
    DayCount(records, startField, endField, r, day);
  }

  /**
   * Multi-day filing: a record (occurring once) whose end day is after its start day
   * appears exactly once under each day from start to end, and under no other day.
   */
  lemma MultiDayFiling(records: seq<DataRecord>, startField: string, endField: Option<string>, r: DataRecord, day: Day)
    requires multiset(records)[r] == 1
    requires endField.Some?
    requires Lookup(r, startField).Date? && Lookup(r, endField.value).Date?
    requires Lookup(r, startField).day < Lookup(r, endField.value).day
    ensures multiset(Filter(records, FiledOn(startField, endField, day)))[r]
      == if Lookup(r, startField).day <= day <= Lookup(r, endField.value).day then 1 else 0
  {
    DayCount(records, startField, endField, r, day);
  }

  /**
   * Dropped records: without a start date, or with an end date on or before the start
   * day, a record is under no day at all.
   */
  lemma DroppedRecord(records: seq<DataRecord>, startField: string, endField: Option<string>, r: DataRecord, day: Day)
    requires !Lookup(r, startField).Date?
      || (endField.Some? && Lookup(r, endField.value).Date? && Lookup(r, startField).Date?
          && Lookup(r, endField.value).day <= Lookup(r, startField).day)
    ensures r !in Filter(records, FiledOn(startField, endField, day))
  {
    DayCount(records, startField, endField, r, day);
  }

  /**
   * A worked day map: one record dated day `s`, one spanning `s + 2` to `s + 4`.
   * The first is filed under `s` alone, the second under each of its three days.
   */
  lemma DayMapExample(s: Day, r1: DataRecord, r2: DataRecord, day: Day)
    requires r1.values == map["d" := Date(s)]
    requires r2.values == map["d" := Date(s + 2), "dEnd" := Date(s + 4)]
    ensures Filter([r1, r2], FiledOn("d", Some("dEnd"), day))
      == if day == s then [r1] else if s + 2 <= day <= s + 4 then [r2] else []
  {
    assert Lookup(r1, "dEnd") == Missing;
    FilterAppend([r1], [r2], FiledOn("d", Some("dEnd"), day));
    FilterSingleton(r1, FiledOn("d", Some("dEnd"), day));
    FilterSingleton(r2, FiledOn("d", Some("dEnd"), day));
    assert [r1, r2] == [r1] + [r2];
  }
}
