/** The grid mapper inside `renderCalendarEvents` of events.js: each stored
    appointment is anchored in one cell of a Monday-first, seven-column grid
    whose 13 rows are the hours 08:00 to 20:00, with a block whose height is
    its duration in hours times 100 percent of a row. The weekday of an
    appointment's date, which the source obtains from `new Date(event.date)`
    and `getDay()`, is an input. */
module Grid {

  import opened Wrappers
  import opened Records
  import opened JsString
  import Conflict

  /** `Date.prototype.getDay`: 0 is Sunday, 1 Monday, ..., 6 Saturday. */
  type DayOfWeek = d: int | 0 <= d <= 6

  const Sunday: DayOfWeek := 0
  const Monday: DayOfWeek := 1
  const Saturday: DayOfWeek := 6

  /** The first hour shown and the number of hour rows (08:00 to 20:00). */
  const FirstHour := 8
  const HourRows := 13

  /** The colour a block gets when the event has none. */
  const DefaultColor: string := "#f8c8dc"

  /** The column of a weekday in the Monday-first grid: the weekday moved one
      place back, modulo 7. */
  function ColumnIndex(day: DayOfWeek): (c: int)
    ensures 0 <= c <= 6
    ensures (c + 1) % 7 == day
  {
    if day == 0 then 6 else day - 1
  }

  lemma ColumnExamples()
    ensures ColumnIndex(Sunday) == 6 && ColumnIndex(Monday) == 0 && ColumnIndex(Saturday) == 5
  {
  }

  /** `time.split(':').map(Number)` destructured into hours and minutes, with
      NaN as `None`. A missing second piece destructures to `undefined`, and
      arithmetic on `undefined` gives NaN. */
  function HourMinute(time: string): (hm: (Option<int>, Option<int>))
    ensures ':' !in time ==> hm == (ToNumber(time), None)
  {
    var parts := Split(time, ':');
    assert ':' !in time ==> parts == [time] by {
      if ':' !in time {
        SplitWithoutSeparator(time, ':');
      }
    }
    (ToNumber(parts[0]), if |parts| >= 2 then ToNumber(parts[1]) else None)
  }

  /** On a time the conflict checker accepts, the grid reads the same hours
      and minutes. */
  lemma HourMinuteOfClock(time: string)
    requires Conflict.ClockMinutes(time).Some?
    ensures var t := Conflict.ClockMinutes(time).value;
            HourMinute(time) == (Some(t / 60), Some(t % 60))
  {
    var h, m := time[..2], time[3..];
    assert time == h + [':'] + m;
    assert ':' !in h && ':' !in m by {
      assert forall i :: 0 <= i < |h| ==> IsDigit(h[i]);
      assert forall i :: 0 <= i < |m| ==> IsDigit(m[i]);
    }
    SplitAfterPiece(h, ':', m);
    SplitWithoutSeparator(m, ':');
    assert Split(time, ':') == [h, m];
  }

  /** `(endH - startH) + (endM - startM) / 60`: the length in hours, that is
      the difference of the two times in minutes divided by 60. */
  function Duration(startH: int, startM: int, endH: int, endM: int): (hours: real)
    ensures hours * 60.0 == ((endH * 60 + endM) - (startH * 60 + startM)) as real
  {
    (endH - startH) as real + (endM - startM) as real / 60.0
  }

  /** The block height `${durationHours * 100}%`. */
  function HeightPercent(hours: real): (h: real)
    ensures h / 100.0 == hours
    ensures 0.0 <= hours ==> 0.0 <= h
  {
    hours * 100.0
  }

  /** What one pass of the `forEach` callback does with an event:
      - `Throws`: a TypeError ends the loop, raised by `event.start.split` or
        `event.end.split` when the field is not a string, or by
        `targetColumn.querySelectorAll` when the date is invalid (its weekday
        is NaN, so `dayColumns[NaN]` is undefined);
      - `OutOfRange`: the range check rejects the start hour;
      - `NoCell`: the start hour is NaN, which passes the range check but
        finds no cell, so the event is skipped;
      - `Placed`: the anchor cell and the duration in hours (NaN as `None`). */
  datatype Placement = Throws | OutOfRange | NoCell | Placed(column: int, row: int, hours: Option<real>)

  /** The callback on an event whose date has weekday `day` (`None` for an
      Invalid Date, whose `getDay()` is NaN). Comparisons with NaN are false,
      so a NaN start hour or column passes the range check. */
  function Place(day: Option<DayOfWeek>, event: Record): (p: Placement)
    ensures StrField(event, Start).None? || StrField(event, End).None? ==> p.Throws?
    ensures StrField(event, Start).Some? && StrField(event, End).Some? ==>
              var startH := HourMinute(StrField(event, Start).value).0;
              var passes := startH.Some? ==> FirstHour <= startH.value < FirstHour + HourRows;
              && (p.OutOfRange? <==> !passes)
              && (p.Throws? <==> passes && day.None?)
              && (p.NoCell? <==> passes && day.Some? && startH.None?)
    ensures p.Placed? ==> day.Some? && p.column == ColumnIndex(day.value) && 0 <= p.row < HourRows
                          && p.row == HourMinute(StrField(event, Start).value).0.value - FirstHour
  {
    match (StrField(event, Start), StrField(event, End))
    case (Some(start), Some(end)) =>
      var (startH, startM) := HourMinute(start);
      var (endH, endM) := HourMinute(end);
      var columnIndex := match day case Some(d) => Some(ColumnIndex(d)) case None => None;
      if || (startH.Some? && (startH.value - 8 < 0 || startH.value - 8 > 12))
         || (columnIndex.Some? && (columnIndex.value < 0 || columnIndex.value > 6)) then
        OutOfRange
      else if columnIndex.None? then
        Throws
      else if startH.None? then
        NoCell
      else
        var hours := if startM.Some? && endH.Some? && endM.Some?
                     then Some(Duration(startH.value, startM.value, endH.value, endM.value)) else None;
        Placed(columnIndex.value, startH.value - 8, hours)
    case _ => Throws
  }

  /** For times the conflict checker accepts, an event is placed exactly when
      it starts between 08:00 and 20:59, in its weekday's column and the row
      of its start hour, with the length of its interval in hours. */
  lemma PlaceOfClockTimes(day: DayOfWeek, event: Record)
    requires Conflict.FieldClock(event, Start).Some? && Conflict.FieldClock(event, End).Some?
    ensures var s, e := Conflict.FieldClock(event, Start).value, Conflict.FieldClock(event, End).value;
            && (Place(Some(day), event).Placed? <==> FirstHour * 60 <= s < (FirstHour + HourRows) * 60)
            && (Place(Some(day), event).Placed? ==>
                  Place(Some(day), event) == Placed(ColumnIndex(day), s / 60 - FirstHour, Some((e - s) as real / 60.0)))
            && (!Place(Some(day), event).Placed? ==> Place(Some(day), event).OutOfRange?)
  {
    var start, end := StrField(event, Start).value, StrField(event, End).value;
    HourMinuteOfClock(start);
    HourMinuteOfClock(end);
    var s, e := Conflict.ClockMinutes(start).value, Conflict.ClockMinutes(end).value;
    var d := Duration(s / 60, s % 60, e / 60, e % 60);
    assert d * 60.0 == (e - s) as real;
  }

  /** The placement of an event with valid times starting in the grid's
      hours. */
  lemma PlacedAt(day: DayOfWeek, event: Record, s: int, e: int)
    requires Conflict.FieldClock(event, Start) == Some(s) && Conflict.FieldClock(event, End) == Some(e)
    requires FirstHour * 60 <= s < (FirstHour + HourRows) * 60
    ensures Place(Some(day), event) == Placed(ColumnIndex(day), s / 60 - FirstHour, Some((e - s) as real / 60.0))
  {
    PlaceOfClockTimes(day, event);
  }

  /** The worked example of a 09:00 to 12:30 appointment on a Monday: first
      column, second row, 3.5 hours, 350 percent. */
  lemma NineToHalfPastTwelve(event: Record)
    requires StrField(event, Start) == Some("09:00") && StrField(event, End) == Some("12:30")
    ensures Place(Some(Monday), event) == Placed(0, 1, Some(3.5))
    ensures HeightPercent(3.5) == 350.0
  {
    Conflict.ClockOfDigits('0', '9', '0', '0');
    Conflict.ClockOfDigits('1', '2', '3', '0');
    PlacedAt(Monday, event, 540, 750);
    assert (750 - 540) as real / 60.0 == 3.5;
  }

  /** A 09:00 to 10:00 appointment on a Monday: first column, second row,
      one hour, 100 percent. */
  lemma NineToTen(event: Record)
    requires StrField(event, Start) == Some("09:00") && StrField(event, End) == Some("10:00")
    ensures Place(Some(Monday), event) == Placed(0, 1, Some(1.0))
    ensures HeightPercent(1.0) == 100.0
  {
    Conflict.ClockOfDigits('0', '9', '0', '0');
    Conflict.ClockOfDigits('1', '0', '0', '0');
    PlacedAt(Monday, event, 540, 600);
    assert (600 - 540) as real / 60.0 == 1.0;
  }

  /** The edges of the range check: 08:00 is row 0 and 20:00 row 12, both
      placed; 07:00 and 21:00 are rejected. */
  lemma RangeEdges(day: DayOfWeek, event: Record)
    requires Conflict.FieldClock(event, Start).Some? && Conflict.FieldClock(event, End).Some?
    ensures Conflict.FieldClock(event, Start) == Some(8 * 60) ==> Place(Some(day), event).Placed? && Place(Some(day), event).row == 0
    ensures Conflict.FieldClock(event, Start) == Some(20 * 60) ==> Place(Some(day), event).Placed? && Place(Some(day), event).row == 12
    ensures Conflict.FieldClock(event, Start) == Some(7 * 60) ==> Place(Some(day), event).OutOfRange?
    ensures Conflict.FieldClock(event, Start) == Some(21 * 60) ==> Place(Some(day), event).OutOfRange?
  {
    PlaceOfClockTimes(day, event);
  }

  // ---------------------------------------------------------------------
  // The render loop
  // ---------------------------------------------------------------------

  /** The `event-block` element appended to the anchor cell. */
  datatype Block = Block(column: int, row: int, heightPercent: Option<real>, background: Value, eventId: Option<Value>)

  /** `event.color || '#f8c8dc'`. */
  function Background(event: Record): (v: Value)
    ensures Truthy(v)
    ensures Color in event && Truthy(event[Color]) ==> v == event[Color]
    ensures !(Color in event && Truthy(event[Color])) ==> v == Str(DefaultColor)
  {
    if Color in event && Truthy(event[Color]) then event[Color] else Str(DefaultColor)
  }

  /** The block of an event anchored in a cell: one cell height per hour, the
      event's colour or the default, and the event's id. */
  function BlockOf(event: Record, column: int, row: int, hours: Option<real>): (b: Block)
    ensures b.column == column && b.row == row
    ensures b.heightPercent.Some? <==> hours.Some?
    ensures hours.Some? ==> b.heightPercent.value / 100.0 == hours.value
    ensures b.background == Background(event) && Truthy(b.background)
    ensures b.eventId.Some? <==> Id in event
    ensures Id in event ==> b.eventId == Some(event[Id])
  {
    Block(column, row,
          match hours case Some(h) => Some(HeightPercent(h)) case None => None,
          Background(event),
          if Id in event then Some(event[Id]) else None)
  }

  /** The blocks `renderCalendarEvents` appends, in order: each placed event
      gives its block, rejected and skipped events give none, and a thrown
      TypeError ends the pass. `dayOf` gives the weekday of each event's date. */
  function Rendered(events: seq<Record>, dayOf: Record -> Option<DayOfWeek>): (blocks: seq<Block>)
    ensures |blocks| <= |events|
  {
    if events == [] then []
    else
      match Place(dayOf(events[0]), events[0])
      case Throws => []
      case Placed(column, row, hours) => [BlockOf(events[0], column, row, hours)] + Rendered(events[1..], dayOf)
      case _ => Rendered(events[1..], dayOf)
  }

  /** The `forEach` over the stored events. */
  method RenderCalendarEvents(events: seq<Record>, dayOf: Record -> Option<DayOfWeek>) returns (blocks: seq<Block>)
    ensures blocks == Rendered(events, dayOf)
  {
    blocks := [];
    var i := 0;
    while i < |events|
      invariant 0 <= i <= |events|
      invariant blocks + Rendered(events[i..], dayOf) == Rendered(events, dayOf)
    {
      var event := events[i];
      var placement := Place(dayOf(event), event);
      assert events[i..][0] == event && events[i..][1..] == events[i + 1..];
      if placement.Throws? {
        assert blocks == Rendered(events, dayOf);
        return;
      }
      if placement.Placed? {
        blocks := blocks + [BlockOf(event, placement.column, placement.row, placement.hours)];
      }
      i := i + 1;
    }
    assert events[i..] == [];
  }

  /** A rejected or skipped event does not stop the others: rendering with it
      gives the same blocks as rendering without it. */
  lemma {:induction false} SkippedEventIsInvisible(a: seq<Record>, e: Record, b: seq<Record>, dayOf: Record -> Option<DayOfWeek>)
    requires Place(dayOf(e), e).OutOfRange? || Place(dayOf(e), e).NoCell?
    ensures Rendered(a + [e] + b, dayOf) == Rendered(a + b, dayOf)
  {
    if a == [] {
      assert a + [e] + b == [e] + b && ([e] + b)[1..] == b && a + b == b;
    } else {
      assert (a + [e] + b)[0] == a[0] && (a + [e] + b)[1..] == a[1..] + [e] + b;
      assert (a + b)[0] == a[0] && (a + b)[1..] == a[1..] + b;
      SkippedEventIsInvisible(a[1..], e, b, dayOf);
    }
  }

  /** An event whose pass throws ends the pass: nothing after it is rendered.
      It throws when its start or end is not a string, or when its date is
      invalid and the lookup in `targetColumn.querySelectorAll` meets an
      undefined column. */
  lemma {:induction false} ThrowingEventEndsRendering(a: seq<Record>, e: Record, b: seq<Record>, dayOf: Record -> Option<DayOfWeek>)
    requires Place(dayOf(e), e).Throws?
    ensures Rendered(a + [e] + b, dayOf) == Rendered(a, dayOf)
  {
    if a == [] {
      assert a + [e] + b == [e] + b;
    } else {
      assert (a + [e] + b)[0] == a[0] && (a + [e] + b)[1..] == a[1..] + [e] + b;
      ThrowingEventEndsRendering(a[1..], e, b, dayOf);
    }
  }

  /** With no throwing event before it, a placed event's block is rendered. */
  lemma {:induction false} PlacedEventIsRendered(a: seq<Record>, e: Record, b: seq<Record>, dayOf: Record -> Option<DayOfWeek>)
    requires forall i :: 0 <= i < |a| ==> !Place(dayOf(a[i]), a[i]).Throws?
    requires Place(dayOf(e), e).Placed?
    ensures var p := Place(dayOf(e), e);
            BlockOf(e, p.column, p.row, p.hours) in Rendered(a + [e] + b, dayOf)
  {
    if a == [] {
      assert a + [e] + b == [e] + b && ([e] + b)[1..] == b;
    } else {
      assert (a + [e] + b)[0] == a[0] && (a + [e] + b)[1..] == a[1..] + [e] + b;
      PlacedEventIsRendered(a[1..], e, b, dayOf);
    }
  }
}
