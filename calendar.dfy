/** The month view of `static/js/modules/calendar.js`. `renderCalendar`
    always draws the month of today's date (it reads neither
    `window.calendarMonth` nor `window.calendarYear`): a Monday-first grid
    of blank cells, then one cell per day listing at most three of the tasks
    whose `datetime` string starts with that day's `YYYY-MM-DD` key. Months
    are 0-based as in `Date.prototype.getMonth`. */
module Calendar {
  import opened Common
  import opened Gregorian

  /** A task as `/api/tasks` returns it to the calendar: the `datetime` is
      the string the date-time input produced, or missing. */
  datatype CalendarTask = CalendarTask(id: int, text: string, datetime: Option<string>)

  // ---------------------------------------------------------------------
  // Grid geometry
  // ---------------------------------------------------------------------

  /** The blank cells before day 1 when weeks start on Monday, given the
      weekday of day 1 (0 = Sunday). */
  function StartDay(firstDay: int): (s: int)
    requires 0 <= firstDay < 7
    ensures 0 <= s < 7
    ensures (s + 1) % 7 == firstDay
  {
    if firstDay == 0 then 6 else firstDay - 1
  }

  /** The blank cells before day 1 of month `month0` (0-based) of `year`. */
  function MonthStart(year: int, month0: int): (s: int)
    requires 0 <= month0 < 12
    ensures 0 <= s < 7
  {
    StartDay(Weekday(year, month0 + 1, 1))
  }

  /** The day numbers of one month are consecutive. */
  lemma {:induction false} DayOffset(year: int, month: int, day: int)
    requires ValidDate(year, month, day)
    ensures DaysFromCivil(year, month, day) == DaysFromCivil(year, month, 1) + day - 1
  {
  }

  /** The grid is laid out Monday first: day `day` sits in column
      `(MonthStart + day - 1) % 7`, and that column's weekday (0 = Monday)
      is the day's weekday shifted to start on Monday. */
  lemma {:induction false} ColumnIsWeekday(year: int, month0: int, day: int)
    requires 0 <= month0 < 12 && ValidDate(year, month0 + 1, day)
    ensures ((MonthStart(year, month0) + day - 1) % 7 + 1) % 7 == Weekday(year, month0 + 1, day)
  {
    var d1 := DaysFromCivil(year, month0 + 1, 1);
    DayOffset(year, month0 + 1, day);
    var w1 := (d1 + 4) % 7;
    var s := MonthStart(year, month0);
    assert (s + 1) % 7 == w1;
    ModShift(s, day - 1);
    ModShift(d1 + 4, day - 1);
    assert ((s + day - 1) % 7 + 1) % 7 == (s + 1 + day - 1) % 7 by {
      ModShift(s + day - 1, 1);
    }
    ModShift(s + 1, day - 1);
  }

  /** Adding to a number adds to its remainder modulo 7. */
  lemma {:induction false} ModShift(a: int, b: int)
    ensures (a + b) % 7 == (a % 7 + b) % 7
  {
    var q := a / 7;
    assert a == 7 * q + a % 7;
    assert a + b == 7 * q + (a % 7 + b);
  }

  /** `new Date(year, month0 + 1, 0).getDate()` is the length of the month:
      the day after it is the first of the next month. */
  lemma {:induction false} LastDayOfMonth(year: int, month0: int)
    requires 0 <= month0 < 12
    ensures var n := DaysInMonth(year, month0 + 1);
      && ValidDate(year, month0 + 1, n)
      && !ValidDate(year, month0 + 1, n + 1)
      && NextDay(year, month0 + 1, n) == if month0 < 11 then (year, month0 + 2, 1) else (year + 1, 1, 1)
  {
  }

  // ---------------------------------------------------------------------
  // Day keys and tasks of a day
  // ---------------------------------------------------------------------

  /** `${year}-${pad2(month0 + 1)}-${pad2(day)}`. */
  function DayKey(year: int, month0: int, day: nat): string
    requires 0 <= month0 < 12
  {
    IntToString(year) + "-" + Pad2(month0 + 1) + "-" + Pad2(day)
  }

  /** For a day below 100 the key ends in the two digits of the day,
      preceded by the year and the month's two digits. */
  lemma {:induction false} DayKeyShape(year: int, month0: int, day: nat)
    requires 0 <= month0 < 12 && day < 100
    ensures var key := DayKey(year, month0, day);
      && |key| == |IntToString(year)| + 6
      && key[..|IntToString(year)|] == IntToString(year)
      && DecimalValue(key[|key| - 2..]) == day
      && DecimalValue(key[|IntToString(year)| + 1..|IntToString(year)| + 3]) == month0 + 1
  {
    var y, m, d := IntToString(year), Pad2(month0 + 1), Pad2(day);
    var key := DayKey(year, month0, day);
    assert key == y + "-" + m + "-" + d;
    assert key[|key| - 2..] == d;
    assert key[|y| + 1..|y| + 3] == m;
    assert key[..|y|] == y;
  }

  /** Different days of a month have different keys of the same length. */
  lemma {:induction false} DayKeyInjective(year: int, month0: int, day1: nat, day2: nat)
    requires 0 <= month0 < 12 && day1 < 100 && day2 < 100 && day1 != day2
    ensures |DayKey(year, month0, day1)| == |DayKey(year, month0, day2)|
    ensures DayKey(year, month0, day1) != DayKey(year, month0, day2)
  {
    DayKeyShape(year, month0, day1);
    DayKeyShape(year, month0, day2);
  }

  predicate OnDay(t: CalendarTask, key: string)
  {
    Truthy(t.datetime) && StartsWith(t.datetime.value, key)
  }

  /** `data.tasks.filter(task => task.datetime && task.datetime.startsWith(key))`. */
  function DayTasks(tasks: seq<CalendarTask>, key: string): seq<CalendarTask>
  {
    Filter(tasks, (t: CalendarTask) => OnDay(t, key))
  }

  /** A task is listed on a day exactly when its datetime string starts
      with that day's key; no task is listed on two days of a month. */
  lemma {:induction false} DayTasksSpec(tasks: seq<CalendarTask>, year: int, month0: int, day1: nat, day2: nat)
    requires 0 <= month0 < 12 && day1 < 100 && day2 < 100 && day1 != day2
    ensures var key := DayKey(year, month0, day1);
      forall k :: 0 <= k < |tasks| ==> (tasks[k] in DayTasks(tasks, key) <== OnDay(tasks[k], key))
    ensures var key := DayKey(year, month0, day1);
      forall t :: t in DayTasks(tasks, key) ==> t in tasks && OnDay(t, key)
    ensures forall t :: t in DayTasks(tasks, DayKey(year, month0, day1)) ==>
      t !in DayTasks(tasks, DayKey(year, month0, day2))
  {
    var key1, key2 := DayKey(year, month0, day1), DayKey(year, month0, day2);
    DayKeyInjective(year, month0, day1, day2);
    forall t | t in DayTasks(tasks, key1)
      ensures t !in DayTasks(tasks, key2)
    {
      OneKeyPrefix(t.datetime.value, key1, key2);
    }
  }

  /** A string starts with at most one of two different keys of the same
      length. */
  lemma {:induction false} OneKeyPrefix(s: string, key1: string, key2: string)
    requires |key1| == |key2| && key1 != key2
    ensures !(StartsWith(s, key1) && StartsWith(s, key2))
  {
  }

  // ---------------------------------------------------------------------
  // Cells
  // ---------------------------------------------------------------------

  /** The "+k еще" note under a day that has more than three tasks. */
  function MoreNote(count: nat): Option<string>
  {
    if count > 3 then Some("+" + NatToString(count - 3) + " еще") else None
  }

  datatype Cell =
    | Blank
    | DayCell(day: nat, key: string, isToday: bool, shown: seq<CalendarTask>, more: Option<string>)

  /** The cell of day `day` of today's month. */
  function MakeCell(tasks: seq<CalendarTask>, year: int, month0: int, day: nat, today: nat): Cell
    requires 0 <= month0 < 12
  {
    var key := DayKey(year, month0, day);
    var dayTasks := DayTasks(tasks, key);
    var shown := if |dayTasks| <= 3 then dayTasks else dayTasks[..3];
    DayCell(day, key, day == today, shown, MoreNote(|dayTasks|))
  }

  /** A cell shows the first (at most) three of the day's tasks; the note
      appears exactly when more exist and counts the ones not shown. */
  lemma {:induction false} CellCap(tasks: seq<CalendarTask>, year: int, month0: int, day: nat, today: nat)
    requires 0 <= month0 < 12
    ensures var c := MakeCell(tasks, year, month0, day, today);
      var all := DayTasks(tasks, DayKey(year, month0, day));
      && |c.shown| == (if |all| < 3 then |all| else 3)
      && c.shown == all[..|c.shown|]
      && (c.more.Some? <==> |all| > 3)
      && (c.more.Some? ==> c.more.value == "+" + NatToString(|all| - |c.shown|) + " еще")
  {
  }

  /** `renderCalendar`'s two loops: `MonthStart` blank cells, then one cell
      per day of today's month. */
  method RenderGrid(tasks: seq<CalendarTask>, year: int, month0: int, today: nat) returns (cells: seq<Cell>)
    requires 0 <= month0 < 12
    ensures |cells| == MonthStart(year, month0) + DaysInMonth(year, month0 + 1)
    ensures forall i :: 0 <= i < MonthStart(year, month0) ==> cells[i] == Blank
    ensures forall day :: 1 <= day <= DaysInMonth(year, month0 + 1) ==>
      cells[MonthStart(year, month0) + day - 1] == MakeCell(tasks, year, month0, day, today)
  {
    var firstDay := Weekday(year, month0 + 1, 1);
    var daysInMonth := DaysInMonth(year, month0 + 1);
    var startDay := StartDay(firstDay);
    var blanks := BlankCells(startDay);
    var days := DayCells(tasks, year, month0, today, daysInMonth);
    cells := blanks + days;
    assert startDay == MonthStart(year, month0);
    forall k | startDay <= k < |cells|
      ensures cells[k] == days[k - startDay]
    {
    }
  }

  /** The first loop: `startDay` cells of the previous month. */
  method BlankCells(startDay: nat) returns (cells: seq<Cell>)
    ensures |cells| == startDay
    ensures forall i :: 0 <= i < startDay ==> cells[i] == Blank
  {
    cells := [];
    for i := 0 to startDay
      invariant |cells| == i
      invariant forall j :: 0 <= j < i ==> cells[j] == Blank
    {
      cells := cells + [Blank];
    }
  }

  /** `[f(1), ..., f(n)]`. */
  function Tabulate<T>(f: nat -> T, n: nat): (r: seq<T>)
    ensures |r| == n
  {
    if n == 0 then [] else Tabulate(f, n - 1) + [f(n)]
  }

  /** Position `i - 1` holds `f(i)`. */
  lemma {:induction false} TabulateAt<T>(f: nat -> T, n: nat)
    ensures forall i :: 1 <= i <= n ==> Tabulate(f, n)[i - 1] == f(i)
  {
    if n > 0 {
      TabulateAt(f, n - 1);
    }
  }

  /** The second loop: the cells of days 1..`daysInMonth`. */
  method DayCells(tasks: seq<CalendarTask>, year: int, month0: int, today: nat, daysInMonth: nat)
    returns (cells: seq<Cell>)
    requires 0 <= month0 < 12
    ensures |cells| == daysInMonth
    ensures forall day :: 1 <= day <= daysInMonth ==> cells[day - 1] == MakeCell(tasks, year, month0, day, today)
  {
    ghost var cellOf := (d: nat) => MakeCell(tasks, year, month0, d, today);
    cells := [];
    for day := 1 to daysInMonth + 1
      invariant cells == Tabulate(cellOf, day - 1)
    {
      cells := cells + [MakeCell(tasks, year, month0, day, today)];
    }
    TabulateAt(cellOf, daysInMonth);
    forall day | 1 <= day <= daysInMonth
      ensures cells[day - 1] == MakeCell(tasks, year, month0, day, today)
    {
      assert cells[day - 1] == cellOf(day);
    }
  }

  /** Exactly one day cell is marked as today when `today` is a day of the
      month; none otherwise. */
  lemma {:induction false} TodayMarkedOnce(tasks: seq<CalendarTask>, year: int, month0: int, today: nat, day: nat)
    requires 0 <= month0 < 12 && 1 <= day <= DaysInMonth(year, month0 + 1)
    ensures MakeCell(tasks, year, month0, day, today).isToday <==> day == today
    ensures MakeCell(tasks, year, month0, day, today).day == day
  {
  }

  // ---------------------------------------------------------------------
  // Navigation
  // ---------------------------------------------------------------------

  /** The previous-month button: month 0 wraps to 11, and landing on 11
      decrements the year. */
  function PrevMonth(month0: int, year: int): (int, int)
  {
    var m := if month0 == 0 then 11 else month0 - 1;
    (m, if m == 11 then year - 1 else year)
  }

  /** The next-month button: month 11 wraps to 0, and landing on 0
      increments the year. */
  function NextMonth(month0: int, year: int): (int, int)
  {
    var m := if month0 == 11 then 0 else month0 + 1;
    (m, if m == 0 then year + 1 else year)
  }

  /** On months 0..11 the buttons step the month count `12 * year + month`
      by one, stay within 0..11 and undo each other. */
  lemma {:induction false} NavigationSpec(month0: int, year: int)
    requires 0 <= month0 < 12
    ensures var (m, y) := NextMonth(month0, year);
      0 <= m < 12 && 12 * y + m == 12 * year + month0 + 1 && PrevMonth(m, y) == (month0, year)
    ensures var (m, y) := PrevMonth(month0, year);
      0 <= m < 12 && 12 * y + m == 12 * year + month0 - 1 && NextMonth(m, y) == (month0, year)
  {
  }

  /** `window.calendarMonth` and `window.calendarYear`. */
  class CalendarNav {
    var month: int
    var year: int

    /** `initCalendarGlobals`, given today's month and year. */
    constructor(todayMonth: int, todayYear: int)
      ensures month == todayMonth && year == todayYear
    {
      month := todayMonth;
      year := todayYear;
    }

    method Prev()
      modifies this
      ensures (month, year) == PrevMonth(old(month), old(year))
    {
      month := if month == 0 then 11 else month - 1;
      if month == 11 {
        year := year - 1;
      }
    }

    method Next()
      modifies this
      ensures (month, year) == NextMonth(old(month), old(year))
    {
      month := if month == 11 then 0 else month + 1;
      if month == 0 {
        year := year + 1;
      }
    }

    method Today(todayMonth: int, todayYear: int)
      modifies this
      ensures month == todayMonth && year == todayYear
    {
      month := todayMonth;
      year := todayYear;
    }
  }

  // ---------------------------------------------------------------------
  // Month names
  // ---------------------------------------------------------------------

  const MonthNames: seq<string> := [
    "Январь", "Февраль", "Март", "Апрель", "Май", "Июнь",
    "Июль", "Август", "Сентябрь", "Октябрь", "Ноябрь", "Декабрь"
  ]

  /** `getMonthName`: `months[i]`, undefined outside 0..11. */
  function MonthName(monthIndex: int): (r: Option<string>)
    ensures r.Some? <==> 0 <= monthIndex < 12
    ensures r.Some? ==> r.value == MonthNames[monthIndex] && r.value != ""
  {
    if 0 <= monthIndex < |MonthNames| then Some(MonthNames[monthIndex]) else None
  }
}
