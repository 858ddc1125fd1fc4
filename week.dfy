/** The week navigation of script.js: the board shows the Monday-first week
    holding `currentWeekStart`, which starts at the Monday of today's week and
    moves a week back or forward. Dates are modelled as local calendar day
    numbers (day 0 is Thursday 1 January 1970) with a time of day, so that
    `getDay`, `setDate` and `setHours` become arithmetic. */
module Week {

  import opened Wrappers
  import Grid

  /** Milliseconds since local midnight. */
  type TimeOfDay = t: int | 0 <= t < 86400000

  /** A local date and time of a `Date` object. */
  datatype LocalTime = LocalTime(day: int, time: TimeOfDay)

  /** `getDay()`: the weekday of a day number, 0 for Sunday. */
  function WeekdayOf(day: int): (w: Grid.DayOfWeek)
    ensures day == 0 ==> w == 4
    ensures day == 4 ==> w == Grid.Monday
  {
    (day + 4) % 7
  }

  /** Moving a date by a whole week keeps its weekday. */
  lemma WeekdayOfWeekShift(day: int)
    ensures WeekdayOf(day - 7) == WeekdayOf(day) && WeekdayOf(day + 7) == WeekdayOf(day)
  {
  }

  /** The weekday `i` days after a Monday is the weekday after Monday `i`
      times over. */
  lemma WeekdayAfterMonday(monday: int, i: int)
    requires WeekdayOf(monday) == Grid.Monday && 0 <= i < 7
    ensures WeekdayOf(monday + i) == (1 + i) % 7
  {
    var q := (monday + 4) / 7;
    assert monday + 4 == 7 * q + 1;
    assert monday + i + 4 == 7 * q + (1 + i);
  }

  /** `diff` in `getMonday`: the days back to the Monday of the week, the
      week running from Monday to Sunday. */
  function MondayOffset(w: Grid.DayOfWeek): (diff: int)
    ensures -6 <= diff <= 0
    ensures (w + diff) % 7 == Grid.Monday
  {
    if w == 0 then -6 else 1 - w
  }

  /** The offset is fixed by its two properties: no other offset in
      [-6, 0] lands on a Monday. */
  lemma MondayOffsetUnique(w: Grid.DayOfWeek, diff: int)
    requires -6 <= diff <= 0 && (w + diff) % 7 == Grid.Monday
    ensures diff == MondayOffset(w)
  {
  }

  /** The offset back to Monday undoes the grid's column index: a weekday's
      column is the number of days since that week's Monday. */
  lemma MondayOffsetIsColumn(w: Grid.DayOfWeek)
    ensures MondayOffset(w) == -Grid.ColumnIndex(w)
  {
  }

  /** `getMonday(date)`: midnight of the Monday on or before the date, in the
      same week. */
  function GetMonday(date: LocalTime): (m: LocalTime)
    ensures m.time == 0
    ensures WeekdayOf(m.day) == Grid.Monday
    ensures date.day - 6 <= m.day <= date.day
  {
    var d := date.day + MondayOffset(WeekdayOf(date.day));
    WeekdayAfterShift(date.day, MondayOffset(WeekdayOf(date.day)));
    LocalTime(d, 0)
  }

  /** Moving a date by `k` days moves its weekday by `k`, modulo 7. */
  lemma WeekdayAfterShift(day: int, k: int)
    ensures WeekdayOf(day + k) == (WeekdayOf(day) + k) % 7
  {
    var q := (day + 4) / 7;
    assert day + 4 == 7 * q + WeekdayOf(day);
    assert day + k + 4 == 7 * q + (WeekdayOf(day) + k);
  }

  /** Every moment of a week, Monday to Sunday, has that week's Monday as its
      `getMonday`. */
  lemma {:induction false} GetMondayOfWeek(m: LocalTime, date: LocalTime)
    requires m.time == 0 && WeekdayOf(m.day) == Grid.Monday
    requires m.day <= date.day < m.day + 7
    ensures GetMonday(date) == m
  {
    var g := GetMonday(date);
    WeekdayAfterMonday(m.day, date.day - m.day);
    WeekdayAfterMonday(g.day, date.day - g.day);
    assert date.day - m.day == date.day - g.day;
  }

  /** `getMonday` of a Monday midnight is itself; so it is idempotent. */
  lemma GetMondayIdempotent(date: LocalTime)
    ensures GetMonday(GetMonday(date)) == GetMonday(date)
  {
    GetMondayOfWeek(GetMonday(date), GetMonday(date));
  }

  /** A header cell: the date it names, the weekday of that date, and whether
      it is today (the `today` class). */
  datatype HeaderCell = HeaderCell(day: int, weekday: Grid.DayOfWeek, isToday: bool)

  /** The shared `currentWeekStart` the navigation buttons move. */
  class WeekView {

    var weekStart: LocalTime

    /** The week start is a Monday midnight. */
    predicate Valid()
      reads this
    {
      weekStart.time == 0 && WeekdayOf(weekStart.day) == Grid.Monday
    }

    /** `let currentWeekStart = getMonday(new Date())`, with today's date as a
        parameter. */
    constructor(today: LocalTime)
      ensures weekStart == GetMonday(today)
      ensures Valid()
    {
      weekStart := GetMonday(today);
    }

    /** The "previous week" button: `setDate(getDate() - 7)`. */
    method PreviousWeek()
      requires Valid()
      modifies this
      ensures weekStart == LocalTime(old(weekStart.day) - 7, old(weekStart.time))
      ensures Valid()
    {
      weekStart := LocalTime(weekStart.day - 7, weekStart.time);
      WeekdayOfWeekShift(weekStart.day + 7);
    }

    /** The "next week" button: `setDate(getDate() + 7)`. */
    method NextWeek()
      requires Valid()
      modifies this
      ensures weekStart == LocalTime(old(weekStart.day) + 7, old(weekStart.time))
      ensures Valid()
    {
      weekStart := LocalTime(weekStart.day + 7, weekStart.time);
      WeekdayOfWeekShift(weekStart.day - 7);
    }

    /** `renderWeekHeader()` given the number of day header cells found and
        today's date: nothing when there are not exactly seven, otherwise cell
        `i` names the week start plus `i` days and is marked when that is
        today. */
    method RenderWeekHeader(cellCount: int, today: LocalTime) returns (cells: Option<seq<HeaderCell>>)
      ensures cells.None? <==> cellCount != 7
      ensures cells.Some? ==> |cells.value| == 7
      ensures cells.Some? ==> forall i :: 0 <= i < 7 ==>
                cells.value[i].day == weekStart.day + i && cells.value[i].weekday == WeekdayOf(weekStart.day + i)
      ensures cells.Some? ==> forall i :: 0 <= i < 7 ==> (cells.value[i].isToday <==> today.day == weekStart.day + i)
      ensures cells.Some? && Valid() ==> forall i :: 0 <= i < 7 ==> Grid.ColumnIndex(cells.value[i].weekday) == i
    {
      if cellCount != 7 {
        return None;
      }
      var row: seq<HeaderCell> := [];
      var index := 0;
      while index < 7
        invariant 0 <= index <= 7 && |row| == index
        invariant forall i :: 0 <= i < index ==>
                    && row[i].day == weekStart.day + i && row[i].weekday == WeekdayOf(weekStart.day + i)
                    && (row[i].isToday <==> today.day == weekStart.day + i)
        invariant Valid() ==> forall i :: 0 <= i < index ==> Grid.ColumnIndex(row[i].weekday) == i
      {
        var dayDate := weekStart.day + index;
        if Valid() {
          HeaderColumn(weekStart.day, index);
        }
        row := row + [HeaderCell(dayDate, WeekdayOf(dayDate), dayDate == today.day)];
        index := index + 1;
      }
      return Some(row);
    }
  }

  /** Header cell `i` of a week starting on a Monday falls in grid column
      `i`, the column `renderCalendarEvents` gives that weekday. */
  lemma HeaderColumn(monday: int, i: int)
    requires WeekdayOf(monday) == Grid.Monday && 0 <= i < 7
    ensures Grid.ColumnIndex(WeekdayOf(monday + i)) == i
  {
    WeekdayAfterMonday(monday, i);
  }

  /** A week back and then a week forward returns to the same week start. */
  method PreviousThenNext(view: WeekView)
    requires view.Valid()
    modifies view
    ensures view.weekStart == old(view.weekStart) && view.Valid()
  {
    view.PreviousWeek();
    view.NextWeek();
  }
}
