/** The part of the backend's `/predict` handler that is not machine
    learning: the inclusive daily date range, one calendar event per date
    with its class name, and the working/non-working day counts. The predicted
    labels are inputs. */
module Forecast {
  import opened Wrappers
  import opened Civil
  import opened Calendar

  /** `pd.date_range(start, end)`: every day from `start` to `end`, both
      included; empty when `start` is after `end`. */
  function DateRange(start: CivilDate, end: CivilDate): (r: seq<CivilDate>)
    ensures |r| == 0 <==> Before(end, start)
    ensures |r| > 0 ==> r[0] == start && r[|r| - 1] == end
    ensures forall i | 0 < i < |r| :: r[i] == NextDay(r[i - 1])
    ensures forall i | 0 <= i < |r| :: AtOrBefore(start, r[i]) && AtOrBefore(r[i], end)
    decreases if Before(end, start) then 0 else Key(end) - Key(start) + 1
  {
    if Before(end, start) then []
    else
      NextDayIsSuccessor(start);
      KeyOrder(start, NextDay(start));
      KeyOrder(start, end);
      if start == end then [start]
      else
        KeyOrder(NextDay(start), end);
        [start] + DateRange(NextDay(start), end)
  }

  predicate Increasing(dates: seq<CivilDate>)
  {
    forall i, j | 0 <= i < j < |dates| :: Before(dates[i], dates[j])
  }

  /** The dates of the range are strictly increasing. */
  lemma {:induction false} DateRangeIncreasing(start: CivilDate, end: CivilDate)
    ensures Increasing(DateRange(start, end))
    decreases if Before(end, start) then 0 else Key(end) - Key(start) + 1
  {
    var r := DateRange(start, end);
    if |r| > 1 {
      NextDayIsSuccessor(start);
      KeyOrder(start, NextDay(start));
      KeyOrder(start, end);
      KeyOrder(NextDay(start), end);
      DateRangeIncreasing(NextDay(start), end);
      var rest := DateRange(NextDay(start), end);
      assert r == [start] + rest;
      forall i, j | 0 <= i < j < |r| ensures Before(r[i], r[j]) {
        if i == 0 {
          var x := rest[j - 1];
          assert r[0] == start && r[j] == x;
          assert AtOrBefore(NextDay(start), x);
          KeyOrder(NextDay(start), x);
          KeyOrder(start, x);
          assert Key(start) < Key(x);
        } else {
          assert r[i] == rest[i - 1] && r[j] == rest[j - 1];
          assert 0 <= i - 1 < j - 1 < |rest|;
          assert Before(rest[i - 1], rest[j - 1]);
        }
      }
    }
  }

  /** In increasing dates no date appears twice. */
  lemma IncreasingDistinct(dates: seq<CivilDate>, i: nat, j: nat)
    requires Increasing(dates)
    requires i < |dates| && j < |dates| && dates[i] == dates[j]
    ensures i == j
  {
  }

  /** Different positions of the range hold different dates. */
  lemma DateRangeDistinct(start: CivilDate, end: CivilDate, i: nat, j: nat)
    requires i < |DateRange(start, end)| && j < |DateRange(start, end)|
    requires DateRange(start, end)[i] == DateRange(start, end)[j]
    ensures i == j
  {
    DateRangeIncreasing(start, end);
    IncreasingDistinct(DateRange(start, end), i, j);
  }

  /** Every date of a range between years 0 and 9999 can be formatted. */
  lemma DateRangeFormattable(start: CivilDate, end: CivilDate)
    requires 0 <= start.year && end.year <= 9999
    ensures FormattableDates(DateRange(start, end))
  {
    var r := DateRange(start, end);
    forall i | 0 <= i < |r| ensures 0 <= r[i].year <= 9999 {
      assert AtOrBefore(start, r[i]) && AtOrBefore(r[i], end);
    }
  }

  /** The class-name rule: rain first, then snow, then a working day, and
      `cold-day` for everything else. */
  function ClassName(weather: string, dayType: string): (c: string)
    ensures c in ["rain-style", "snow-style", "working-day", "cold-day"]
    ensures weather == "rain" ==> c == "rain-style"
  {
    if weather == "rain" then "rain-style"
    else if weather == "snow" then "snow-style"
    else if dayType == "Working Day" then "working-day"
    else "cold-day"
  }

  /** Every event gets exactly one of the four classes, by priority. */
  lemma ClassNamePriority(weather: string, dayType: string)
    ensures var c := ClassName(weather, dayType);
      && c in ["rain-style", "snow-style", "working-day", "cold-day"]
      && (c == "rain-style" <==> weather == "rain")
      && (c == "snow-style" <==> weather == "snow")
      && (c == "working-day" <==> weather != "rain" && weather != "snow" && dayType == "Working Day")
      && (c == "cold-day" <==> weather != "rain" && weather != "snow" && dayType != "Working Day")
  {
  }

  function Min3(a: nat, b: nat, c: nat): nat
  {
    if a <= b && a <= c then a else if b <= c then b else c
  }

  /** The event the loop builds for one date. */
  function EventFor(date: CivilDate, dayType: string, weather: string): (e: CalendarEvent)
    requires 0 <= date.year <= 9999
    ensures ParseIsoDate(e.start) == Some(date)
    ensures e.className == ClassName(weather, dayType)
  {
    ParseFormat(date);
    CalendarEvent(FormatIsoDate(date), ClassName(weather, dayType))
  }

  predicate FormattableDates(dates: seq<CivilDate>)
  {
    forall i | 0 <= i < |dates| :: 0 <= dates[i].year <= 9999
  }

  /** The events list: one event per position of
      `zip(dates_range, predicted_day_types_range, predicted_weather_labels_range)`. */
  function Events(dates: seq<CivilDate>, dayTypes: seq<string>, weathers: seq<string>): (events: seq<CalendarEvent>)
    requires FormattableDates(dates)
    ensures |events| == Min3(|dates|, |dayTypes|, |weathers|)
  {
    var n := Min3(|dates|, |dayTypes|, |weathers|);
    seq(n, k requires 0 <= k < n => EventFor(dates[k], dayTypes[k], weathers[k]))
  }

  method BuildEvents(dates: seq<CivilDate>, dayTypes: seq<string>, weathers: seq<string>)
    returns (events: seq<CalendarEvent>)
    requires FormattableDates(dates)
    ensures events == Events(dates, dayTypes, weathers)
    ensures forall k | 0 <= k < |events| ::
      && IsIsoShape(events[k].start) && ParseIsoDate(events[k].start) == Some(dates[k])
      && events[k].className == ClassName(weathers[k], dayTypes[k])
  {
    var n := Min3(|dates|, |dayTypes|, |weathers|);
    events := [];
    for k := 0 to n
      invariant |events| == k
      invariant forall j | 0 <= j < k :: events[j] == EventFor(dates[j], dayTypes[j], weathers[j])
    {
      var event := CalendarEvent(FormatIsoDate(dates[k]), ClassName(weathers[k], dayTypes[k]));
      events := events + [event];
    }
  }

  /** `(labels == wanted).sum()`: exact, case-sensitive comparison. */
  function CountLabel(labels: seq<string>, wanted: string): (n: nat)
    ensures n <= |labels|
  {
    if labels == [] then 0
    else CountLabel(labels[..|labels| - 1], wanted) + (if labels[|labels| - 1] == wanted then 1 else 0)
  }

  /** A label is counted in at most one of the two counts, so their sum is at
      most the number of labels; it is the number of labels exactly when
      every label is one of the two. */
  lemma {:induction false} DayTypeCounts(labels: seq<string>)
    ensures CountLabel(labels, "Working Day") + CountLabel(labels, "Non-working Day") <= |labels|
    ensures CountLabel(labels, "Working Day") + CountLabel(labels, "Non-working Day") == |labels| <==>
      forall i | 0 <= i < |labels| :: labels[i] == "Working Day" || labels[i] == "Non-working Day"
  {
    if labels != [] {
      var init := labels[..|labels| - 1];
      DayTypeCounts(init);
      assert forall i | 0 <= i < |init| :: init[i] == labels[i];
      assert "Working Day" != "Non-working Day";
    }
  }

  /** What the handler returns apart from the model metrics. */
  datatype Prediction = Prediction(events: seq<CalendarEvent>, workingDaysCount: nat, nonWorkingDaysCount: nat)

  method Predict(start: CivilDate, end: CivilDate, weathers: seq<string>, dayTypes: seq<string>)
    returns (p: Prediction)
    requires 0 <= start.year && end.year <= 9999
    ensures p.events == Events(DateRange(start, end), dayTypes, weathers)
    ensures p.workingDaysCount == CountLabel(dayTypes, "Working Day")
    ensures p.nonWorkingDaysCount == CountLabel(dayTypes, "Non-working Day")
  {
    var datesRange := DateRange(start, end);
    assert FormattableDates(datesRange);
    var workingDaysCount := CountLabel(dayTypes, "Working Day");
    var nonWorkingDaysCount := CountLabel(dayTypes, "Non-working Day");
    var events := BuildEvents(datesRange, dayTypes, weathers);
    p := Prediction(events, workingDaysCount, nonWorkingDaysCount);
  }

  /** With one prediction per date, there is one event per date of the
      range, in date order, each starting on its date in `YYYY-MM-DD` form;
      the predictions decide the class names and nothing else. */
  lemma EventsPerDate(start: CivilDate, end: CivilDate, weathers: seq<string>, dayTypes: seq<string>,
                      otherWeathers: seq<string>, otherDayTypes: seq<string>)
    requires 0 <= start.year && end.year <= 9999
    requires |weathers| == |dayTypes| == |otherWeathers| == |otherDayTypes| == |DateRange(start, end)|
    ensures var dates := DateRange(start, end);
      var events := Events(dates, dayTypes, weathers);
      && |events| == |dates|
      && (forall k | 0 <= k < |events| :: events[k].start == FormatIsoDate(dates[k]))
      && (forall k | 0 <= k < |events| :: events[k].start == Events(dates, otherDayTypes, otherWeathers)[k].start)
  {
  }

  /** The two counts together never exceed the number of dates. */
  lemma CountsWithinRange(start: CivilDate, end: CivilDate, dayTypes: seq<string>)
    requires |dayTypes| == |DateRange(start, end)|
    ensures CountLabel(dayTypes, "Working Day") + CountLabel(dayTypes, "Non-working Day") <= |DateRange(start, end)|
  {
    DayTypeCounts(dayTypes);
  }

  // ---- From the backend's events to the browser's calendar cells ----

  /** The `k`-th event names the `k`-th date and its class name. */
  lemma EventAt(dates: seq<CivilDate>, dayTypes: seq<string>, weathers: seq<string>, k: nat)
    requires FormattableDates(dates)
    requires k < |Events(dates, dayTypes, weathers)|
    ensures ParseIsoDate(Events(dates, dayTypes, weathers)[k].start) == Some(dates[k])
    ensures Events(dates, dayTypes, weathers)[k].className == ClassName(weathers[k], dayTypes[k])
  {
    ParseFormat(dates[k]);
  }

  /** Every event reads back as the date at its position. */
  lemma EventsParse(dates: seq<CivilDate>, dayTypes: seq<string>, weathers: seq<string>)
    requires FormattableDates(dates)
    ensures |Events(dates, dayTypes, weathers)| <= |dates|
    ensures forall k | 0 <= k < |Events(dates, dayTypes, weathers)| ::
      ParseIsoDate(Events(dates, dayTypes, weathers)[k].start) == Some(dates[k])
  {
    forall k | 0 <= k < |Events(dates, dayTypes, weathers)|
      ensures ParseIsoDate(Events(dates, dayTypes, weathers)[k].start) == Some(dates[k])
    {
      EventAt(dates, dayTypes, weathers, k);
    }
  }

  /** For increasing dates, each date's event tags the cell of the day after
      that date with that date's class name. */
  lemma ShiftedCellClass(dates: seq<CivilDate>, dayTypes: seq<string>, weathers: seq<string>, k: nat)
    requires FormattableDates(dates) && Increasing(dates)
    requires k < |Events(dates, dayTypes, weathers)|
    ensures var cell := NextDay(dates[k]);
      CellClass(Events(dates, dayTypes, weathers), cell.year, cell.month, cell.day) ==
        Some(ClassName(weathers[k], dayTypes[k]))
  {
    var events := Events(dates, dayTypes, weathers);
    var cell := NextDay(dates[k]);
    EventAt(dates, dayTypes, weathers, k);
    MatchesShiftedDay(events[k], dates[k], cell);
    var r := FindEvent(events, cell.year, cell.month, cell.day);
    assert r.Some?;
    var m := r.value;
    EventAt(dates, dayTypes, weathers, m);
    MatchesShiftedDay(events[m], dates[m], cell);
    NextDayInjective(dates[m], dates[k]);
    IncreasingDistinct(dates, m, k);
    ClassNamePriority(weathers[k], dayTypes[k]);
  }

  /** Each date's event tags exactly the cell of the day after that date
      (the calendar's one-day shift), with that date's class name. */
  lemma EventLandsOnShiftedDay(start: CivilDate, end: CivilDate, weathers: seq<string>, dayTypes: seq<string>, k: nat)
    requires 0 <= start.year && end.year <= 9999
    requires k < |Events(DateRange(start, end), dayTypes, weathers)|
    ensures var dates := DateRange(start, end);
      var cell := NextDay(dates[k]);
      CellClass(Events(dates, dayTypes, weathers), cell.year, cell.month, cell.day) ==
        Some(ClassName(weathers[k], dayTypes[k]))
  {
    DateRangeFormattable(start, end);
    DateRangeIncreasing(start, end);
    ShiftedCellClass(DateRange(start, end), dayTypes, weathers, k);
  }

  /** The cell a matching event tags is the day after its start date. */
  lemma TaggedCellIsShifted(events: seq<CalendarEvent>, dates: seq<CivilDate>, year: int, month: int, day: int)
    requires |events| <= |dates|
    requires forall k | 0 <= k < |events| :: ParseIsoDate(events[k].start) == Some(dates[k])
    requires CellClass(events, year, month, day).Some?
    ensures exists k | 0 <= k < |dates| :: NextDay(dates[k]) == Date(year, month, day)
  {
    var k := FindEvent(events, year, month, day).value;
    assert EventMatches(events[k], year, month, day);
    assert NextDay(dates[k]) == Date(year, month, day);
  }

  /** A cell that carries a class is the day after some date of the range. */
  lemma TaggedCellsComeFromDates(start: CivilDate, end: CivilDate, weathers: seq<string>, dayTypes: seq<string>,
                                 year: int, month: int, day: int)
    requires 0 <= start.year && end.year <= 9999
    requires CellClass(Events(DateRange(start, end), dayTypes, weathers), year, month, day).Some?
    ensures exists k | 0 <= k < |DateRange(start, end)| ::
      NextDay(DateRange(start, end)[k]) == Date(year, month, day)
  {
    var dates := DateRange(start, end);
    DateRangeFormattable(start, end);
    EventsParse(dates, dayTypes, weathers);
    TaggedCellIsShifted(Events(dates, dayTypes, weathers), dates, year, month, day);
  }
}
