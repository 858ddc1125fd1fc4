/** The appointment conflict checker of events.js (`isTimeSlotFree`): a
    proposed slot, a date with a start and an end time, is free unless some
    stored appointment on the same date, other than the one being edited,
    overlaps it. Times are compared as the `Date` values
    `new Date(date + "T" + time + ":00")`; on one date these are ordered as
    the minutes since midnight. */
module Conflict {

  import opened Wrappers
  import opened Records
  import opened JsString
  import DataManager

  /** Minutes since midnight of the local time `${date}T${s}:00`, or `None`
      for an Invalid Date. The ECMAScript date-time string format needs two
      digits of hours, a colon and two digits of minutes, hours up to 24,
      minutes up to 59, and 24 only as 24:00 (the next midnight). */
  function ClockMinutes(s: string): (m: Option<int>)
    ensures m.Some? ==> 0 <= m.value <= 24 * 60
  {
    if |s| == 5 && IsDigit(s[0]) && IsDigit(s[1]) && s[2] == ':' && IsDigit(s[3]) && IsDigit(s[4]) then
      var h := DigitsValue(s[..2]);
      var mi := DigitsValue(s[3..]);
      if mi <= 59 && (h <= 23 || (h == 24 && mi == 0)) then Some(h * 60 + mi) else None
    else None
  }

  /** The "HH:MM" text of a number of minutes; times are taken to be in this
      form, as the comment at events.js:282 reads them. */
  function FormatClock(t: int): (s: string)
    requires 0 <= t <= 24 * 60
    ensures |s| == 5 && s[2] == ':'
  {
    var h, m := t / 60, t % 60;
    [DigitChar(h / 10), DigitChar(h % 10), ':', DigitChar(m / 10), DigitChar(m % 10)]
  }

  /** Reading "HH:MM" spelled out digit by digit. */
  lemma ClockOfDigits(a: char, b: char, c: char, d: char)
    requires IsDigit(a) && IsDigit(b) && IsDigit(c) && IsDigit(d)
    ensures var h, m := (a as int - '0' as int) * 10 + (b as int - '0' as int),
                        (c as int - '0' as int) * 10 + (d as int - '0' as int);
            ClockMinutes([a, b, ':', c, d]) == if m <= 59 && (h <= 23 || (h == 24 && m == 0)) then Some(h * 60 + m) else None
  {
    var s := [a, b, ':', c, d];
    TwoDigitsValue(a, b);
    TwoDigitsValue(c, d);
    assert s[..2] == [a, b] && s[3..] == [c, d];
  }

  /** `n` is the two-digit number with digits `a` and `b`. */
  lemma TwoDigitNumber(n: int, a: int, b: int)
    requires 0 <= a <= 9 && 0 <= b <= 9 && n == a * 10 + b
    ensures n / 10 == a && n % 10 == b
  {
  }

  /** `t` minutes are `h` hours and `m` minutes. */
  lemma HoursAndMinutes(t: int, h: int, m: int)
    requires 0 <= m < 60 && t == h * 60 + m
    ensures t / 60 == h && t % 60 == m
  {
  }

  /** Every time of day, and the closing midnight, reads back as itself. */
  lemma ClockOfFormat(t: int)
    requires 0 <= t <= 24 * 60
    ensures ClockMinutes(FormatClock(t)) == Some(t)
  {
    var h, m := t / 60, t % 60;
    HoursAndMinutes(t, h, m);
    TwoDigitNumber(h, h / 10, h % 10);
    TwoDigitNumber(m, m / 10, m % 10);
    ClockOfDigits(DigitChar(h / 10), DigitChar(h % 10), DigitChar(m / 10), DigitChar(m % 10));
  }

  /** A time that reads as valid is exactly how its minutes are formatted. */
  lemma FormatOfClock(s: string)
    requires ClockMinutes(s).Some?
    ensures FormatClock(ClockMinutes(s).value) == s
  {
    var a, b, c, d := s[0] as int - '0' as int, s[1] as int - '0' as int, s[3] as int - '0' as int, s[4] as int - '0' as int;
    assert s == [s[0], s[1], ':', s[3], s[4]];
    ClockOfDigits(s[0], s[1], s[3], s[4]);
    var h, m := a * 10 + b, c * 10 + d;
    HoursAndMinutes(h * 60 + m, h, m);
    TwoDigitNumber(h, a, b);
    TwoDigitNumber(m, c, d);
  }

  /** The minutes of a stored time field, `None` when the field is missing or
      does not give a valid time. */
  function FieldClock(r: Record, key: Field): (f: Option<int>)
    ensures StrField(r, key).None? ==> f.None?
    ensures f.Some? ==> 0 <= f.value <= 24 * 60
    ensures f.Some? ==> StrField(r, key) == Some(FormatClock(f.value))
  {
    match StrField(r, key)
    case Some(s) =>
      if ClockMinutes(s).Some? then FormatOfClock(s); ClockMinutes(s) else None
    case None => None
  }

  /** The strict overlap test `newStart < existingEnd && newEnd > existingStart`
      of two half-open intervals. */
  predicate Overlap(newStart: int, newEnd: int, existingStart: int, existingEnd: int): (o: bool)
    ensures newStart < newEnd && existingStart < existingEnd ==>
              (o <==> exists t :: Within(newStart, newEnd, t) && Within(existingStart, existingEnd, t))
  {
    var later := if newStart < existingStart then existingStart else newStart;
    assert newStart < newEnd && existingStart < existingEnd && newStart < existingEnd && newEnd > existingStart ==>
             Within(newStart, newEnd, later) && Within(existingStart, existingEnd, later);
    newStart < existingEnd && newEnd > existingStart
  }

  /** Minute `t` lies in the half-open interval [start, end). */
  predicate Within(start: int, end: int, t: int) {
    start <= t < end
  }

  /** `excludeEventId && event.id === excludeEventId`: `null` and the empty
      string exclude nothing. */
  predicate Excluded(r: Record, exclude: Option<string>): (e: bool)
    ensures exclude.None? || exclude == Some("") ==> !e
    ensures e ==> exclude.Some? && HasId(r, exclude.value)
  {
    exclude.Some? && exclude.value != "" && HasId(r, exclude.value)
  }

  /** The `some` callback: the stored event `r` conflicts with the proposed
      slot. Comparisons with an Invalid Date are false. */
  predicate Conflicts(r: Record, date: string, start: string, end: string, exclude: Option<string>): (c: bool)
    ensures c ==> && ClockMinutes(start).Some? && ClockMinutes(end).Some?
                  && FieldClock(r, Start).Some? && FieldClock(r, End).Some?
    ensures var ns, ne, es, ee := ClockMinutes(start), ClockMinutes(end), FieldClock(r, Start), FieldClock(r, End);
            ns.Some? && ne.Some? && es.Some? && ee.Some? && ns.value < ne.value && es.value < ee.value ==>
              (c <==> && !Excluded(r, exclude) && StrField(r, Date) == Some(date)
                      && exists t :: Within(ns.value, ne.value, t) && Within(es.value, ee.value, t))
  {
    && !Excluded(r, exclude)
    && StrField(r, Date) == Some(date)
    && var ns, ne, es, ee := ClockMinutes(start), ClockMinutes(end), FieldClock(r, Start), FieldClock(r, End);
       ns.Some? && ne.Some? && es.Some? && ee.Some? && Overlap(ns.value, ne.value, es.value, ee.value)
  }

  /** `isTimeSlotFree(date, start, end, exclude)` over the stored events: true
      exactly when no stored event conflicts. */
  function IsTimeSlotFree(events: seq<Record>, date: string, start: string, end: string, exclude: Option<string>): (free: bool)
    ensures free <==> forall i :: 0 <= i < |events| ==> !Conflicts(events[i], date, start, end, exclude)
  {
    if events == [] then true
    else !Conflicts(events[0], date, start, end, exclude) && IsTimeSlotFree(events[1..], date, start, end, exclude)
  }

  /** A slot that ends when a stored event starts, or starts when it ends, is
      not in conflict with it: the comparisons are strict. */
  lemma TouchingDoesNotConflict(r: Record, date: string, start: string, end: string, exclude: Option<string>)
    requires || (ClockMinutes(end).Some? && ClockMinutes(end) == FieldClock(r, Start))
             || (ClockMinutes(start).Some? && ClockMinutes(start) == FieldClock(r, End))
    ensures !Conflicts(r, date, start, end, exclude)
  {
  }

  /** A stored event overlapping the slot on its date, and not excluded,
      makes the slot occupied. */
  lemma OverlapOccupies(events: seq<Record>, i: int, date: string, start: string, end: string, exclude: Option<string>)
    requires 0 <= i < |events| && !Excluded(events[i], exclude)
    requires StrField(events[i], Date) == Some(date)
    requires ClockMinutes(start).Some? && ClockMinutes(end).Some?
    requires FieldClock(events[i], Start).Some? && FieldClock(events[i], End).Some?
    requires Overlap(ClockMinutes(start).value, ClockMinutes(end).value,
                     FieldClock(events[i], Start).value, FieldClock(events[i], End).value)
    ensures !IsTimeSlotFree(events, date, start, end, exclude)
  {
  }

  /** The events of the slot's date. */
  function OnDate(events: seq<Record>, date: string): (r: seq<Record>)
    ensures forall i :: 0 <= i < |r| ==> StrField(r[i], Date) == Some(date)
    ensures forall x :: x in events && StrField(x, Date) == Some(date) ==> x in r
  {
    if events == [] then []
    else (if StrField(events[0], Date) == Some(date) then [events[0]] else []) + OnDate(events[1..], date)
  }

  /** Only the events of the slot's date matter: the answer is the same
      against the whole list and against its events of that date. */
  lemma {:induction false} OtherDatesIrrelevant(events: seq<Record>, date: string, start: string, end: string, exclude: Option<string>)
    ensures IsTimeSlotFree(events, date, start, end, exclude) == IsTimeSlotFree(OnDate(events, date), date, start, end, exclude)
  {
    if events != [] {
      OtherDatesIrrelevant(events[1..], date, start, end, exclude);
      var head := if StrField(events[0], Date) == Some(date) then [events[0]] else [];
      FreeOfConcat(head, OnDate(events[1..], date), date, start, end, exclude);
    }
  }

  /** The slot is free in a concatenation exactly when it is free in both parts. */
  lemma {:induction false} FreeOfConcat(a: seq<Record>, b: seq<Record>, date: string, start: string, end: string, exclude: Option<string>)
    ensures IsTimeSlotFree(a + b, date, start, end, exclude)
            == (IsTimeSlotFree(a, date, start, end, exclude) && IsTimeSlotFree(b, date, start, end, exclude))
  {
    if a == [] {
      assert a + b == b;
    } else {
      assert (a + b)[0] == a[0] && (a + b)[1..] == a[1..] + b;
      FreeOfConcat(a[1..], b, date, start, end, exclude);
    }
  }

  /** Excluding an id is checking against the store with that id's records
      deleted: an event re-checked with its own id excluded cannot conflict
      with itself. A `null` or empty exclusion excludes nothing. */
  lemma {:induction false} ExcludingIsDeleting(events: seq<Record>, date: string, start: string, end: string, id: string)
    requires id != ""
    ensures IsTimeSlotFree(events, date, start, end, Some(id))
            == IsTimeSlotFree(DataManager.RemoveById(events, id), date, start, end, None)
  {
    if events != [] {
      ExcludingIsDeleting(events[1..], date, start, end, id);
      var head := if HasId(events[0], id) then [] else [events[0]];
      FreeOfConcat(head, DataManager.RemoveById(events[1..], id), date, start, end, None);
    }
  }

  lemma EmptyExclusionExcludesNothing(events: seq<Record>, date: string, start: string, end: string)
    ensures IsTimeSlotFree(events, date, start, end, Some("")) == IsTimeSlotFree(events, date, start, end, None)
  {
  }

  /** The stored event `b` conflicts with the slot of the stored event `a`. */
  predicate Clash(a: Record, b: Record) {
    && StrField(a, Date).Some? && StrField(a, Start).Some? && StrField(a, End).Some?
    && Conflicts(b, StrField(a, Date).value, StrField(a, Start).value, StrField(a, End).value, None)
  }

  /** The overlap relation is symmetric: proposing `a` with `b` stored
      conflicts exactly when proposing `b` with `a` stored does. */
  lemma ClashSymmetric(a: Record, b: Record)
    ensures Clash(a, b) <==> Clash(b, a)
  {
  }

  /** No two stored events overlap. */
  predicate NoClashes(events: seq<Record>) {
    forall i, j :: 0 <= i < |events| && 0 <= j < |events| && i != j ==> !Clash(events[i], events[j])
  }

  /** Appending an event whose slot is free keeps the board free of
      overlapping events. */
  lemma AppendFreeKeepsNoClashes(events: seq<Record>, n: Record)
    requires NoClashes(events)
    requires StrField(n, Date).Some? && StrField(n, Start).Some? && StrField(n, End).Some?
    requires IsTimeSlotFree(events, StrField(n, Date).value, StrField(n, Start).value, StrField(n, End).value, None)
    ensures NoClashes(events + [n])
  {
    var date, start, end := StrField(n, Date).value, StrField(n, Start).value, StrField(n, End).value;
    var s := events + [n];
    forall i, j | 0 <= i < |s| && 0 <= j < |s| && i != j ensures !Clash(s[i], s[j]) {
      if i == |events| {
        assert !Conflicts(events[j], date, start, end, None);
      } else if j == |events| {
        assert !Conflicts(events[i], date, start, end, None);
        ClashSymmetric(s[i], s[j]);
      } else {
        assert s[i] == events[i] && s[j] == events[j];
      }
    }
  }

  /** Replacing the event with a given id by one whose slot is free once that
      id is excluded keeps the board free of overlapping events, provided ids
      are unique. */
  lemma ReplaceFreeKeepsNoClashes(events: seq<Record>, k: int, m: Record, id: string)
    requires NoClashes(events) && DataManager.UniqueIds(events)
    requires 0 <= k < |events| && id != "" && HasId(events[k], id)
    requires StrField(m, Date).Some? && StrField(m, Start).Some? && StrField(m, End).Some?
    requires IsTimeSlotFree(events, StrField(m, Date).value, StrField(m, Start).value, StrField(m, End).value, Some(id))
    ensures NoClashes(events[k := m])
  {
    var date, start, end := StrField(m, Date).value, StrField(m, Start).value, StrField(m, End).value;
    var s := events[k := m];
    forall i | 0 <= i < |events| && i != k ensures !Clash(m, events[i]) && !Clash(events[i], m) {
      assert StrField(events[k], Id) == Some(id);
      assert !HasId(events[i], id);
      assert !Conflicts(events[i], date, start, end, Some(id));
      ClashSymmetric(events[i], m);
    }
    forall i, j | 0 <= i < |s| && 0 <= j < |s| && i != j ensures !Clash(s[i], s[j]) {
      if i != k && j != k {
        assert s[i] == events[i] && s[j] == events[j];
      }
    }
  }

  /** Saving an event and reading it back does not change which slots it
      conflicts with. */
  lemma ConflictsOfStored(r: Record, date: string, start: string, end: string, exclude: Option<string>)
    ensures Conflicts(Stored(r), date, start, end, exclude) == Conflicts(r, date, start, end, exclude)
  {
    StoredStrField(r, Date);
    StoredStrField(r, Start);
    StoredStrField(r, End);
  }

  /** Saving the events keeps the board free of overlaps exactly when it was. */
  lemma StoredKeepsNoClashes(events: seq<Record>)
    ensures NoClashes(StoredList(events)) <==> NoClashes(events)
  {
    var s := StoredList(events);
    forall i, j | 0 <= i < |events| && 0 <= j < |events| ensures Clash(s[i], s[j]) == Clash(events[i], events[j]) {
      StoredStrField(events[i], Date);
      StoredStrField(events[i], Start);
      StoredStrField(events[i], End);
      var a := events[i];
      if StrField(a, Date).Some? && StrField(a, Start).Some? && StrField(a, End).Some? {
        ConflictsOfStored(events[j], StrField(a, Date).value, StrField(a, Start).value, StrField(a, End).value, None);
      }
    }
  }
}
