/**
 * src/components/DatePicker.tsx: the five-week calendar of the create page
 * and its toggle rule. Days are day numbers in the viewer's zone. How a
 * stored `yyyy-MM-dd` string is read back as a day of that zone, and how a
 * picked day is written as such a string, go through the timezone database;
 * they are the parameters `storedDay` and `encode`.
 */
module DatePicker {
  import opened Wrappers
  import opened Calendar
  import opened Lists

  /** The day of the week, Sunday first; 1970-01-01 was a Thursday. */
  function Weekday(d: Day): (w: int)
    ensures 0 <= w < 7
  {
    (d + 4) % 7
  }

  /** `startOfWeek(today)`: the Sunday on or before `today`. */
  function WeekStart(today: Day): (s: Day)
    ensures s <= today < s + 7
    ensures Weekday(s) == 0
  {
    today - Weekday(today)
  }

  /** `calendarDays`: 35 days from the start of this week. */
  function CalendarDays(today: Day): (days: seq<Day>)
    ensures |days| == 35
  {
    seq(35, i => WeekStart(today) + i)
  }

  /** The calendar is five whole weeks, Sunday to Saturday, and holds today. */
  lemma CalendarShape(today: Day)
    ensures var days := CalendarDays(today);
      && Weekday(days[0]) == 0
      && (forall i :: 0 <= i < 34 ==> days[i + 1] == days[i] + 1)
      && (forall i :: 0 <= i < 35 ==> Weekday(days[i]) == i % 7)
      && today in days
  {
    var days := CalendarDays(today);
    assert days[today - WeekStart(today)] == today;
    forall i | 0 <= i < 35
      ensures Weekday(days[i]) == i % 7
    {
      WeekdayStep(WeekStart(today), i);
    }
  }

  lemma WeekdayStep(sunday: Day, i: nat)
    requires Weekday(sunday) == 0
    ensures Weekday(sunday + i) == i % 7
  {
    var q := (sunday + 4) / 7;
    assert sunday + 4 == 7 * q;
    assert sunday + i + 4 == 7 * q + i;
  }

  /** The last millisecond of `today`: `endOfDay(todayInTimezone)`. */
  function EndOfDay(today: Day): Instant {
    today * MsPerDay + MsPerDay - 1
  }

  /** `isPast`: the day starts before the end of today. */
  predicate IsPast(day: Day, today: Day) {
    day * MsPerDay < EndOfDay(today)
  }

  /** A day is past exactly when it is today or earlier. */
  lemma IsPastIff(day: Day, today: Day)
    ensures IsPast(day, today) <==> day <= today
  {
    if day > today {
      assert day * MsPerDay >= (today + 1) * MsPerDay;
    }
  }

  /** The disabled cells are the calendar's first days, up to and including today. */
  lemma CalendarPastPrefix(today: Day, i: nat)
    requires i < 35
    ensures IsPast(CalendarDays(today)[i], today) <==> i <= Weekday(today)
  {
    IsPastIff(CalendarDays(today)[i], today);
  }

  /** `selectedDates.some(...isSameDay...)`: some stored entry falls on `day`; the render uses it too. */
  predicate OnDay(selected: seq<string>, day: Day, storedDay: string -> Day) {
    exists i :: 0 <= i < |selected| && storedDay(selected[i]) == day
  }

  /** The callback of the removal `filter`. */
  function OffDay(day: Day, storedDay: string -> Day): string -> bool {
    s => storedDay(s) != day
  }

  /**
   * `toggleDate(date)`: `None` when the day is past and `onChange` is not
   * called, else the list handed to `onChange`.
   */
  function ToggleDate(selected: seq<string>, day: Day, today: Day,
                      storedDay: string -> Day, encode: Day -> string): (r: Option<seq<string>>)
    ensures r.None? <==> day <= today
  {
    IsPastIff(day, today);
    if IsPast(day, today) then None
    else if OnDay(selected, day, storedDay) then Some(Filter(selected, OffDay(day, storedDay)))
    else Some(selected + [encode(day)])
  }

  /**
   * Toggling a selected future day removes every entry on that day and keeps
   * every other entry, as often as before and in the same order.
   */
  lemma ToggleSelectedRemoves(a: seq<string>, b: seq<string>, day: Day, today: Day,
                              storedDay: string -> Day, encode: Day -> string, x: string)
    requires today < day && OnDay(a + b, day, storedDay)
    ensures var r := ToggleDate(a + b, day, today, storedDay, encode).value;
      && !OnDay(r, day, storedDay)
      && multiset(r)[x] == (if storedDay(x) == day then 0 else multiset(a + b)[x])
      && r == Filter(a, OffDay(day, storedDay)) + Filter(b, OffDay(day, storedDay))
  {
    var keep := OffDay(day, storedDay);
    FilterCounts(a + b, keep, x);
    FilterAppend(a, b, keep);
  }

  /** Toggling an unselected future day appends exactly one date string. */
  lemma ToggleUnselectedAppends(selected: seq<string>, day: Day, today: Day,
                                storedDay: string -> Day, encode: Day -> string)
    requires today < day && !OnDay(selected, day, storedDay)
    ensures var r := ToggleDate(selected, day, today, storedDay, encode).value;
      |r| == |selected| + 1 && r[..|selected|] == selected && r[|selected|] == encode(day)
  {
  }

  /**
   * When the written string reads back as the same day, a toggle of a future
   * day flips what the button shows as selected; when it reads back as
   * another day, a newly picked day still shows as unselected.
   */
  lemma ToggleFlipsButton(selected: seq<string>, day: Day, today: Day,
                          storedDay: string -> Day, encode: Day -> string)
    requires today < day
    ensures var r := ToggleDate(selected, day, today, storedDay, encode).value;
      && (storedDay(encode(day)) == day ==> OnDay(r, day, storedDay) == !OnDay(selected, day, storedDay))
      && (storedDay(encode(day)) != day && !OnDay(selected, day, storedDay) ==> !OnDay(r, day, storedDay))
  {
    var r := ToggleDate(selected, day, today, storedDay, encode).value;
    if !OnDay(selected, day, storedDay) {
      if storedDay(encode(day)) == day {
        assert storedDay(r[|selected|]) == day;
      } else {
        forall i | 0 <= i < |r|
          ensures storedDay(r[i]) != day
        {
          if i < |selected| {
            assert r[i] == selected[i];
          }
        }
      }
    }
  }
}
