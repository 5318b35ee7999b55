/** The calendar grid builder of the browser dashboard: the month walk
    (`getMonthsBetween`), one month's grid of day cells (`createMonthDiv`) and
    the whole calendar with its one-day shift and rows of four months
    (`generateCalendar`). */
module Calendar {
  import opened Wrappers
  import opened Civil

  /** One entry of the event feed: a date as `YYYY-MM-DD` text and a CSS class. */
  datatype CalendarEvent = CalendarEvent(start: string, className: string)

  /** A day of a month grid: its number, the class it is tagged with, and
      whether it is flagged as today. */
  datatype DayCell = DayCell(day: int, className: Option<string>, isToday: bool)

  datatype MonthGrid = MonthGrid(year: int, month: int, days: seq<DayCell>)

  /** A calendar of exactly one month is placed alone; any other number of
      months (zero included) goes into rows. */
  datatype Layout = Single(grid: MonthGrid) | Rows(rows: seq<seq<MonthGrid>>)

  // ---- The month walk ----

  /** One step of the walk: `setMonth(getMonth() + 1)` keeps the day number,
      which spills into the month after when the next month is too short, and
      `setDate(1)` then moves to day 1 of whichever month was reached. */
  function MonthStep(d: CivilDate): (r: CivilDate)
    ensures r.day == 1
    ensures MonthIndex(d) < MonthIndex(r) <= MonthIndex(d) + 2
    ensures var next := NextMonthStart(d);
      MonthIndex(r) == MonthIndex(d) + (if d.day > DaysInMonth(next.year, next.month) then 2 else 1)
  {
    var t := NextMonthStart(d);
    if d.day > DaysInMonth(t.year, t.month) then NextMonthStart(t) else t
  }

  /** The dates that `getMonthsBetween(cur, end)` pushes, in order. */
  function MonthsBetween(cur: CivilDate, end: CivilDate): (r: seq<CivilDate>)
    ensures |r| == 0 <==> Before(end, cur)
    ensures |r| > 0 ==> r[0] == cur && Before(end, MonthStep(r[|r| - 1]))
    ensures forall i | 0 < i < |r| :: r[i] == MonthStep(r[i - 1])
    ensures forall i | 0 <= i < |r| :: AtOrBefore(r[i], end)
    decreases if Before(end, cur) then 0 else MonthIndex(end) - MonthIndex(cur) + 2
  {
    if Before(end, cur) then []
    else
      MonthIndexOrder(cur, end);
      var rest := MonthsBetween(MonthStep(cur), end);
      assert rest != [] ==> rest[0] == MonthStep(cur);
      [cur] + rest
  }

  method GetMonthsBetween(startDate: CivilDate, endDate: CivilDate) returns (months: seq<CivilDate>)
    ensures months == MonthsBetween(startDate, endDate)
  {
    months := [];
    var currentDate := startDate;
    while AtOrBefore(currentDate, endDate)
      invariant months + MonthsBetween(currentDate, endDate) == MonthsBetween(startDate, endDate)
      decreases if Before(endDate, currentDate) then 0 else MonthIndex(endDate) - MonthIndex(currentDate) + 2
    {
      MonthIndexOrder(currentDate, endDate);
      months := months + [currentDate];
      currentDate := MonthStep(currentDate);
    }
  }

  /** The walk visits strictly increasing dates, all of them day 1 except the
      first, which is the start date itself. */
  lemma {:induction false} MonthsIncreasing(cur: CivilDate, end: CivilDate)
    ensures var r := MonthsBetween(cur, end);
      forall i, j | 0 <= i < j < |r| :: Before(r[i], r[j]) && r[j].day == 1
  {
    var r := MonthsBetween(cur, end);
    forall i | 0 < i < |r| ensures MonthIndex(r[i - 1]) < MonthIndex(r[i]) && r[i].day == 1 {
      assert r[i] == MonthStep(r[i - 1]);
    }
    MonthIndexChain(r);
    forall i, j | 0 <= i < j < |r| ensures Before(r[i], r[j]) {
      MonthIndexOrder(r[i], r[j]);
    }
  }

  lemma {:induction false} MonthIndexChain(r: seq<CivilDate>)
    requires forall i | 0 < i < |r| :: MonthIndex(r[i - 1]) < MonthIndex(r[i])
    ensures forall i, j | 0 <= i < j < |r| :: MonthIndex(r[i]) < MonthIndex(r[j])
  {
    if |r| > 1 {
      var init := r[..|r| - 1];
      MonthIndexChain(init);
      forall i, j | 0 <= i < j < |r| ensures MonthIndex(r[i]) < MonthIndex(r[j]) {
        if j < |r| - 1 {
          assert r[i] == init[i] && r[j] == init[j];
        } else if i < j - 1 {
          assert r[i] == init[i] && r[j - 1] == init[j - 1];
        }
      }
    }
  }

  /** From a day 1, the walk visits every month up to the month of `end`,
      one entry per month and none skipped. */
  lemma {:induction false} MonthsFromDayOne(cur: CivilDate, end: CivilDate)
    requires cur.day == 1
    ensures var r := MonthsBetween(cur, end);
      && |r| == (if MonthIndex(end) < MonthIndex(cur) then 0 else MonthIndex(end) - MonthIndex(cur) + 1)
      && forall i | 0 <= i < |r| :: MonthIndex(r[i]) == MonthIndex(cur) + i && r[i].day == 1
    decreases MonthIndex(end) - MonthIndex(cur)
  {
    if MonthIndex(end) >= MonthIndex(cur) {
      assert !Before(end, cur);
      var next := MonthStep(cur);
      assert next == NextMonthStart(cur);
      MonthsFromDayOne(next, end);
      assert MonthsBetween(cur, end) == [cur] + MonthsBetween(next, end);
    }
  }

  /** Without day overflow on the first step every month from the start's
      month to the end's month is visited exactly once. */
  lemma MonthsCoverAll(cur: CivilDate, end: CivilDate)
    requires AtOrBefore(cur, end)
    requires cur.day <= DaysInMonth(NextMonthStart(cur).year, NextMonthStart(cur).month)
    ensures var r := MonthsBetween(cur, end);
      && |r| == MonthIndex(end) - MonthIndex(cur) + 1
      && forall i | 0 <= i < |r| :: MonthIndex(r[i]) == MonthIndex(cur) + i
  {
    MonthIndexOrder(cur, end);
    MonthsFromDayOne(MonthStep(cur), end);
    assert MonthsBetween(cur, end) == [cur] + MonthsBetween(MonthStep(cur), end);
  }

  /** With day overflow on the first step (a day 29 to 31 start before a
      shorter month) the month after the start's month is never visited. */
  lemma MonthsSkipShortMonth(cur: CivilDate, end: CivilDate)
    requires AtOrBefore(cur, end)
    requires cur.day > DaysInMonth(NextMonthStart(cur).year, NextMonthStart(cur).month)
    ensures var r := MonthsBetween(cur, end);
      && |r| == (if MonthIndex(end) <= MonthIndex(cur) + 1 then 1 else MonthIndex(end) - MonthIndex(cur))
      && forall i | 0 <= i < |r| :: MonthIndex(r[i]) != MonthIndex(cur) + 1
  {
    MonthIndexOrder(cur, end);
    MonthsFromDayOne(MonthStep(cur), end);
    var r := MonthsBetween(cur, end);
    assert r == [cur] + MonthsBetween(MonthStep(cur), end);
    forall i | 0 <= i < |r| ensures MonthIndex(r[i]) != MonthIndex(cur) + 1 {
      if i > 0 {
        assert MonthIndex(r[i]) == MonthIndex(cur) + 2 + (i - 1);
      }
    }
  }

  /** A start and an end in the same month give exactly one entry. */
  lemma MonthsSameMonth(cur: CivilDate, end: CivilDate)
    requires AtOrBefore(cur, end) && cur.year == end.year && cur.month == end.month
    ensures MonthsBetween(cur, end) == [cur]
  {
    MonthIndexOrder(end, MonthStep(cur));
    assert MonthsBetween(MonthStep(cur), end) == [];
  }

  /** December steps to January 1 of the next year. */
  lemma MonthStepDecember(d: CivilDate)
    requires d.month == 12
    ensures MonthStep(d) == Date(d.year + 1, 1, 1)
  {
  }

  /** The walk over 2023-12-15 .. 2024-01-15 visits December and January. */
  lemma MonthsAcrossYearEnd()
    ensures MonthsBetween(Date(2023, 12, 15), Date(2024, 1, 15)) == [Date(2023, 12, 15), Date(2024, 1, 1)]
  {
    assert MonthStep(Date(2024, 1, 1)) == Date(2024, 2, 1);
    assert MonthsBetween(Date(2024, 2, 1), Date(2024, 1, 15)) == [];
    assert MonthsBetween(Date(2024, 1, 1), Date(2024, 1, 15)) == [Date(2024, 1, 1)];
  }

  /** From January 31, 2023 the first step lands on March 1: February is skipped. */
  lemma MonthsSkipFebruary()
    ensures MonthsBetween(Date(2023, 1, 31), Date(2023, 3, 6)) == [Date(2023, 1, 31), Date(2023, 3, 1)]
  {
    assert MonthStep(Date(2023, 1, 31)) == Date(2023, 3, 1);
    assert MonthsBetween(Date(2023, 4, 1), Date(2023, 3, 6)) == [];
    assert MonthsBetween(Date(2023, 3, 1), Date(2023, 3, 6)) == [Date(2023, 3, 1)];
  }

  // ---- One month's grid ----

  /** The `events.find` predicate: the event's date, read and moved forward
      one day, is the given day of the given month. An event whose date does
      not read as a date matches nothing. */
  predicate EventMatches(e: CalendarEvent, year: int, month: int, day: int)
    ensures EventMatches(e, year, month, day) ==> ParseIsoDate(e.start).Some? && Valid(Date(year, month, day))
  {
    match ParseIsoDate(e.start)
    case None => false
    case Some(d) =>
      var shifted := NextDay(d);
      shifted.year == year && shifted.month == month && shifted.day == day
  }

  /** An event matches the cell of `NextDay(d)` exactly when it starts on `d`. */
  lemma MatchesShiftedDay(e: CalendarEvent, d: CivilDate, cell: CivilDate)
    requires ParseIsoDate(e.start) == Some(d)
    ensures EventMatches(e, cell.year, cell.month, cell.day) <==> NextDay(d) == cell
  {
  }

  /** `events.find(...)`: the index of the first matching event. */
  function FindEvent(events: seq<CalendarEvent>, year: int, month: int, day: int): (r: Option<nat>)
    ensures r.Some? ==> r.value < |events| && EventMatches(events[r.value], year, month, day)
    ensures r.Some? ==> forall j | 0 <= j < r.value :: !EventMatches(events[j], year, month, day)
    ensures r.None? ==> forall j | 0 <= j < |events| :: !EventMatches(events[j], year, month, day)
  {
    if events == [] then None
    else if EventMatches(events[0], year, month, day) then Some(0)
    else
      match FindEvent(events[1..], year, month, day)
      case None => None
      case Some(k) => Some(k + 1)
  }

  /** The class a cell is tagged with: that of the first matching event,
      unless that class is empty (`event && event.className`). */
  function CellClass(events: seq<CalendarEvent>, year: int, month: int, day: int): (r: Option<string>)
    ensures r.Some? ==> r.value != "" && FindEvent(events, year, month, day).Some?
    ensures r.Some? ==> r.value == events[FindEvent(events, year, month, day).value].className
    ensures (forall k | 0 <= k < |events| :: !EventMatches(events[k], year, month, day)) ==> r.None?
  {
    match FindEvent(events, year, month, day)
    case None => None
    case Some(k) => if events[k].className == "" then None else Some(events[k].className)
  }

  /** A cell carries class `c` exactly when the first matching event has
      class `c` and `c` is not empty. */
  lemma CellClassIsFirstMatch(events: seq<CalendarEvent>, year: int, month: int, day: int, c: string)
    ensures CellClass(events, year, month, day) == Some(c) <==>
      exists k | 0 <= k < |events| ::
        && EventMatches(events[k], year, month, day)
        && (forall j | 0 <= j < k :: !EventMatches(events[j], year, month, day))
        && events[k].className == c && c != ""
  {
  }

  /** The today flag: same month and year as the current date and the
      current day of the month. */
  predicate IsToday(date: CivilDate, day: int, today: CivilDate)
    ensures IsToday(date, day, today) <==> Date(date.year, date.month, day) == today
  {
    date.month == today.month && date.year == today.year && day == today.day
  }

  function CellAt(date: CivilDate, events: seq<CalendarEvent>, today: CivilDate, day: int): DayCell
  {
    DayCell(day, CellClass(events, date.year, date.month, day), IsToday(date, day, today))
  }

  /** The grid that `createMonthDiv(date, events)` builds. */
  function MonthGridOf(date: CivilDate, events: seq<CalendarEvent>, today: CivilDate): (g: MonthGrid)
    ensures g.year == date.year && g.month == date.month
    ensures |g.days| == DaysInMonth(date.year, date.month)
    ensures forall k | 0 <= k < |g.days| :: g.days[k].day == k + 1
  {
    MonthGrid(date.year, date.month,
      seq(DaysInMonth(date.year, date.month), k requires 0 <= k => CellAt(date, events, today, k + 1)))
  }

  method CreateMonthDiv(date: CivilDate, events: seq<CalendarEvent>, today: CivilDate) returns (grid: MonthGrid)
    ensures grid == MonthGridOf(date, events, today)
    ensures grid.year == date.year && grid.month == date.month
    ensures |grid.days| == DaysInMonth(date.year, date.month)
    ensures forall k | 0 <= k < |grid.days| ::
      && grid.days[k].day == k + 1
      && grid.days[k].className == CellClass(events, date.year, date.month, k + 1)
      && (grid.days[k].isToday <==> IsToday(date, k + 1, today))
  {
    var daysInMonth := DaysInMonth(date.year, date.month);
    var cells: seq<DayCell> := [];
    for i := 1 to daysInMonth + 1
      invariant |cells| == i - 1
      invariant forall k | 0 <= k < i - 1 :: cells[k] == CellAt(date, events, today, k + 1)
    {
      var className := CellClass(events, date.year, date.month, i);
      cells := cells + [DayCell(i, className, IsToday(date, i, today))];
    }
    grid := MonthGrid(date.year, date.month, cells);
  }

  /** February has 29 cells in a leap year and 28 otherwise. */
  lemma FebruaryCells(date: CivilDate, events: seq<CalendarEvent>, today: CivilDate)
    requires date.month == 2
    ensures |MonthGridOf(date, events, today).days| == if IsLeapYear(date.year) then 29 else 28
  {
  }

  lemma February2024And2023(events: seq<CalendarEvent>, today: CivilDate)
    ensures |MonthGridOf(Date(2024, 2, 1), events, today).days| == 29
    ensures |MonthGridOf(Date(2023, 2, 1), events, today).days| == 28
  {
  }

  /** The today flag ignores the events, and at most one cell carries it. */
  lemma TodayFlag(date: CivilDate, e1: seq<CalendarEvent>, e2: seq<CalendarEvent>, today: CivilDate)
    ensures var g1, g2 := MonthGridOf(date, e1, today), MonthGridOf(date, e2, today);
      && (forall k | 0 <= k < |g1.days| :: g1.days[k].isToday == g2.days[k].isToday)
      && (forall k, k' | 0 <= k < k' < |g1.days| :: !(g1.days[k].isToday && g1.days[k'].isToday))
      && (forall k | 0 <= k < |g1.days| ::
            g1.days[k].isToday <==> date.year == today.year && date.month == today.month && k == today.day - 1)
  {
  }

  /** The text `2024-03-04` reads as March 4, 2024. */
  lemma ReadMarchFourth()
    ensures ParseIsoDate("2024-03-04") == Some(Date(2024, 3, 4))
  {
    assert FormatIsoDate(Date(2024, 3, 4)) == "2024-03-04";
    ParseFormat(Date(2024, 3, 4));
  }

  /** An event dated 2024-03-04 tags day 5 of March 2024 and no other day. */
  lemma ShiftedEventCell(today: CivilDate)
    ensures var g := MonthGridOf(Date(2024, 3, 1), [CalendarEvent("2024-03-04", "rain-day")], today);
      && |g.days| == 31
      && g.days[4].className == Some("rain-day")
      && forall k | 0 <= k < 31 && k != 4 :: g.days[k].className == None
  {
    var e := CalendarEvent("2024-03-04", "rain-day");
    ReadMarchFourth();
    assert NextDay(Date(2024, 3, 4)) == Date(2024, 3, 5);
    var g := MonthGridOf(Date(2024, 3, 1), [e], today);
    forall day | 1 <= day <= 31 ensures CellClass([e], 2024, 3, day) == if day == 5 then Some("rain-day") else None {
      MatchesShiftedDay(e, Date(2024, 3, 4), Date(2024, 3, day));
      assert FindEvent([e], 2024, 3, day) == if day == 5 then Some(0) else None;
    }
  }

  // ---- The whole calendar ----

  /** Months packed four to a row, left to right, top to bottom; no months
      still give one (empty) row. */
  function PackRows<T>(s: seq<T>): (rows: seq<seq<T>>)
    ensures |rows| >= 1
    decreases |s|
  {
    if |s| <= 4 then [s] else [s[..4]] + PackRows(s[4..])
  }

  function Concat<T>(rows: seq<seq<T>>): seq<T>
  {
    if rows == [] then [] else rows[0] + Concat(rows[1..])
  }

  /** There are `ceil(n / 4)` rows of at most four items (one row when
      `n == 0`). */
  lemma {:induction false} PackRowsCount<T>(s: seq<T>)
    ensures var rows := PackRows(s);
      && |rows| == (if |s| == 0 then 1 else (|s| + 3) / 4)
      && forall r | 0 <= r < |rows| :: |rows[r]| <= 4
    decreases |s|
  {
    if |s| > 4 {
      PackRowsCount(s[4..]);
      assert PackRows(s) == [s[..4]] + PackRows(s[4..]);
    }
  }

  /** Row `i / 4`, position `i % 4` holds item `i`. */
  lemma {:induction false} PackRowsIndex<T>(s: seq<T>)
    ensures var rows := PackRows(s);
      forall i | 0 <= i < |s| :: i / 4 < |rows| && i % 4 < |rows[i / 4]| && rows[i / 4][i % 4] == s[i]
    decreases |s|
  {
    if |s| > 4 {
      var rows := PackRows(s);
      var rest := PackRows(s[4..]);
      PackRowsIndex(s[4..]);
      assert rows == [s[..4]] + rest;
      forall i | 0 <= i < |s| ensures i / 4 < |rows| && i % 4 < |rows[i / 4]| && rows[i / 4][i % 4] == s[i] {
        if i >= 4 {
          var i' := i - 4;
          assert i' / 4 == i / 4 - 1 && i' % 4 == i % 4;
          assert rows[i / 4] == rest[i' / 4];
          assert s[4..][i'] == s[i];
        }
      }
    }
  }

  /** Reading the rows in order gives back the items. */
  lemma {:induction false} PackRowsConcat<T>(s: seq<T>)
    ensures Concat(PackRows(s)) == s
    decreases |s|
  {
    if |s| <= 4 {
      assert Concat(PackRows(s)) == s + Concat([]);
      assert s + [] == s;
    } else {
      PackRowsConcat(s[4..]);
      var rest := PackRows(s[4..]);
      assert PackRows(s) == [s[..4]] + rest;
      assert ([s[..4]] + rest)[1..] == rest;
      assert s[..4] + s[4..] == s;
    }
  }

  /** Adding one more item: a new row when the count is a positive multiple
      of four, otherwise the item joins the last row. */
  lemma {:induction false} PackRowsSnoc<T>(s: seq<T>, x: T)
    ensures var rows := PackRows(s);
      PackRows(s + [x]) ==
        if |s| > 0 && |s| % 4 == 0 then rows + [[x]]
        else rows[..|rows| - 1] + [rows[|rows| - 1] + [x]]
    decreases |s|
  {
    if |s| < 4 {
    } else if |s| == 4 {
      assert (s + [x])[..4] == s;
      assert (s + [x])[4..] == [x];
    } else {
      PackRowsSnoc(s[4..], x);
      assert |s[4..]| % 4 == |s| % 4 && |s[4..]| > 0;
      assert (s + [x])[..4] == s[..4];
      assert (s + [x])[4..] == s[4..] + [x];
      var rest := PackRows(s[4..]);
      assert PackRows(s) == [s[..4]] + rest;
      if |s| % 4 != 0 {
        assert ([s[..4]] + rest)[..|rest|] == [s[..4]] + rest[..|rest| - 1];
      }
    }
  }

  /** The loop step of `generateCalendar`: open a new row when `i > 0` and
      `i % 4 == 0`, then append the month to the current (last) row. */
  lemma AppendToRows<T>(before: seq<T>, x: T)
    ensures var rows := PackRows(before);
      var grown := if |before| > 0 && |before| % 4 == 0 then rows + [[]] else rows;
      grown[..|grown| - 1] + [grown[|grown| - 1] + [x]] == PackRows(before + [x])
  {
    PackRowsSnoc(before, x);
    var rows := PackRows(before);
    if |before| > 0 && |before| % 4 == 0 {
      var grown := rows + [[]];
      assert grown[..|grown| - 1] == rows;
      assert grown[|grown| - 1] + [x] == [x];
    }
  }

  function Grids(months: seq<CivilDate>, events: seq<CalendarEvent>, today: CivilDate): (grids: seq<MonthGrid>)
    ensures |grids| == |months|
  {
    seq(|months|, i requires 0 <= i < |months| => MonthGridOf(months[i], events, today))
  }

  /** One more month gives one more grid at the end. */
  lemma GridsSnoc(months: seq<CivilDate>, i: nat, events: seq<CalendarEvent>, today: CivilDate)
    requires i < |months|
    ensures Grids(months[..i + 1], events, today) == Grids(months[..i], events, today) + [MonthGridOf(months[i], events, today)]
  {
    assert months[..i + 1] == months[..i] + [months[i]];
  }

  /** The calendar that `generateCalendar(startDateStr, endDateStr, events)`
      builds: both endpoints moved forward one day, the months between them,
      one grid each. */
  function CalendarLayout(startDate: CivilDate, endDate: CivilDate, events: seq<CalendarEvent>, today: CivilDate): (r: Layout)
    ensures r.Single? <==> |MonthsBetween(NextDay(startDate), NextDay(endDate))| == 1
    ensures r.Rows? ==> |r.rows| >= 1
  {
    var months := MonthsBetween(NextDay(startDate), NextDay(endDate));
    if |months| == 1 then Single(MonthGridOf(months[0], events, today))
    else Rows(PackRows(Grids(months, events, today)))
  }

  method GenerateCalendar(startDate: CivilDate, endDate: CivilDate, events: seq<CalendarEvent>, today: CivilDate)
    returns (layout: Layout)
    ensures layout == CalendarLayout(startDate, endDate, events, today)
  {
    var shiftedStart := NextDay(startDate);
    var shiftedEnd := NextDay(endDate);
    var months := GetMonthsBetween(shiftedStart, shiftedEnd);
    if |months| == 1 {
      var monthGrid := CreateMonthDiv(months[0], events, today);
      layout := Single(monthGrid);
    } else {
      var rows := FillRows(months, events, today);
      layout := Rows(rows);
    }
  }

  /** The multi-month branch of `generateCalendar`: start with one empty row,
      open a new row before every fourth month, and append each month's grid
      to the current row. */
  method FillRows(months: seq<CivilDate>, events: seq<CalendarEvent>, today: CivilDate)
    returns (rows: seq<seq<MonthGrid>>)
    ensures rows == PackRows(Grids(months, events, today))
  {
    rows := [[]];
    assert months[..0] == [];
    for i := 0 to |months|
      invariant rows == PackRows(Grids(months[..i], events, today))
    {
      ghost var before := Grids(months[..i], events, today);
      if i > 0 && i % 4 == 0 {
        rows := rows + [[]];
      }
      var monthGrid := CreateMonthDiv(months[i], events, today);
      AppendToRows(before, monthGrid);
      rows := rows[..|rows| - 1] + [rows[|rows| - 1] + [monthGrid]];
      GridsSnoc(months, i, events, today);
    }
    assert months[..|months|] == months;
  }

  /** The shape of the calendar: a single grid for one month, otherwise
      `ceil(n / 4)` rows (one empty row for no month) with month `i` at row
      `i / 4`, position `i % 4`; and the first month shown is the month of the
      day after the start date. */
  lemma CalendarShape(startDate: CivilDate, endDate: CivilDate, events: seq<CalendarEvent>, today: CivilDate)
    ensures var months := MonthsBetween(NextDay(startDate), NextDay(endDate));
      var n := |months|;
      match CalendarLayout(startDate, endDate, events, today)
      case Single(g) => n == 1 && g == MonthGridOf(NextDay(startDate), events, today)
      case Rows(rows) =>
        && n != 1
        && |rows| == (if n == 0 then 1 else (n + 3) / 4)
        && (forall r | 0 <= r < |rows| :: |rows[r]| <= 4)
        && forall i | 0 <= i < n ::
             i / 4 < |rows| && i % 4 < |rows[i / 4]| && rows[i / 4][i % 4] == MonthGridOf(months[i], events, today)
  {
    var months := MonthsBetween(NextDay(startDate), NextDay(endDate));
    PackRowsCount(Grids(months, events, today));
    PackRowsIndex(Grids(months, events, today));
  }

  /** A start date after the end date gives one empty row. */
  lemma EmptyRange(startDate: CivilDate, endDate: CivilDate, events: seq<CalendarEvent>, today: CivilDate)
    requires Before(endDate, startDate)
    ensures CalendarLayout(startDate, endDate, events, today) == Rows([[]])
  {
    KeyOrder(endDate, startDate);
    NextDayIsSuccessor(startDate);
    NextDayIsSuccessor(endDate);
    KeyOrder(NextDay(endDate), NextDay(startDate));
    if !Before(NextDay(endDate), NextDay(startDate)) {
      KeyOrder(startDate, NextDay(endDate));
      KeyOrder(endDate, NextDay(endDate));
      KeyOrder(startDate, NextDay(startDate));
    }
  }

  /** For the range January 30 .. March 5, 2023 the calendar shows January
      and March only: after the one-day shift the walk starts on January 31. */
  lemma CalendarSkipsFebruary(events: seq<CalendarEvent>, today: CivilDate)
    ensures CalendarLayout(Date(2023, 1, 30), Date(2023, 3, 5), events, today) ==
      Rows([[MonthGridOf(Date(2023, 1, 31), events, today), MonthGridOf(Date(2023, 3, 1), events, today)]])
  {
    MonthsSkipFebruary();
    assert NextDay(Date(2023, 1, 30)) == Date(2023, 1, 31);
    assert NextDay(Date(2023, 3, 5)) == Date(2023, 3, 6);
    var months := [Date(2023, 1, 31), Date(2023, 3, 1)];
    var grids := Grids(months, events, today);
    assert grids == [MonthGridOf(Date(2023, 1, 31), events, today), MonthGridOf(Date(2023, 3, 1), events, today)];
    assert PackRows(grids) == [grids];
  }
}
