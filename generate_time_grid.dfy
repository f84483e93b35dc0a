/**
 * src/utils/generateTimeGrid.ts: the disabled-slot predicate over stored
 * ranges, the expansion of ranges into displayed days, and the fixed
 * catalogue of 48 half-hour slots.
 *
 * Slot ids and range endpoints are ISO-8601 `Z` instants; the part before
 * `T` of such a string is its UTC date, `Calendar.DayOf` of the instant.
 */
module GenerateTimeGrid {
  import opened Text
  import opened Calendar
  import opened Types

  // ---------------------------------------------------------------------------
  // disabledTimeSlot

  /**
   * One range disables a slot that lies strictly before its start on the
   * start's UTC date, or strictly after its end on the end's UTC date.
   */
  predicate DisabledBy(r: DateRange, slot: Instant) {
    (slot < r.startTime && DayOf(slot) == DayOf(r.startTime))
    || (slot > r.endTime && DayOf(slot) == DayOf(r.endTime))
  }

  /** `allDates.some(...)`, scanned left to right. */
  predicate SomeDisables(allDates: seq<DateRange>, slot: Instant) {
    |allDates| > 0 && (DisabledBy(allDates[0], slot) || SomeDisables(allDates[1..], slot))
  }

  /** `disabledTimeSlot(allDates, slotId)`. */
  predicate DisabledTimeSlot(allDates: seq<DateRange>, slot: Instant) {
    if |allDates| == 0 then false else SomeDisables(allDates, slot)
  }

  lemma DisabledNoRanges(slot: Instant)
    ensures !DisabledTimeSlot([], slot)
  {
  }

  /** The predicate is an existential over the ranges. */
  lemma {:induction false} DisabledIff(allDates: seq<DateRange>, slot: Instant)
    ensures DisabledTimeSlot(allDates, slot) <==> exists i :: 0 <= i < |allDates| && DisabledBy(allDates[i], slot)
  {
    SomeDisablesIff(allDates, slot);
  }

  lemma {:induction false} SomeDisablesIff(allDates: seq<DateRange>, slot: Instant)
    ensures SomeDisables(allDates, slot) <==> exists i :: 0 <= i < |allDates| && DisabledBy(allDates[i], slot)
    decreases |allDates|
  {
    if |allDates| > 0 {
      SomeDisablesIff(allDates[1..], slot);
      if exists i :: 0 <= i < |allDates| && DisabledBy(allDates[i], slot) {
        var i :| 0 <= i < |allDates| && DisabledBy(allDates[i], slot);
        if i > 0 {
          assert allDates[1..][i - 1] == allDates[i];
        }
      }
      if exists j :: 0 <= j < |allDates[1..]| && DisabledBy(allDates[1..][j], slot) {
        var j :| 0 <= j < |allDates[1..]| && DisabledBy(allDates[1..][j], slot);
        assert allDates[j + 1] == allDates[1..][j];
      }
    }
  }

  /** A slot at exactly a range's start instant is not disabled by that range. */
  lemma StartNotDisabled(r: DateRange)
    requires r.startTime <= r.endTime
    ensures !DisabledBy(r, r.startTime)
  {
  }

  /** Within a single range, from start to end inclusive, no slot is disabled. */
  lemma InsideSingleRangeEnabled(r: DateRange, slot: Instant)
    requires r.startTime <= slot <= r.endTime
    ensures !DisabledTimeSlot([r], slot)
  {
    DisabledIff([r], slot);
  }

  /** A slot whose UTC date is no range's start date nor end date is never disabled. */
  lemma OtherDayEnabled(allDates: seq<DateRange>, slot: Instant)
    requires forall i :: 0 <= i < |allDates| ==> DayOf(slot) != DayOf(allDates[i].startTime) && DayOf(slot) != DayOf(allDates[i].endTime)
    ensures !DisabledTimeSlot(allDates, slot)
  {
    DisabledIff(allDates, slot);
  }

  /** Adding ranges, before or after, never re-enables a disabled slot. */
  lemma DisabledMonotone(before: seq<DateRange>, allDates: seq<DateRange>, after: seq<DateRange>, slot: Instant)
    requires DisabledTimeSlot(allDates, slot)
    ensures DisabledTimeSlot(before + allDates + after, slot)
  {
    DisabledIff(allDates, slot);
    var i :| 0 <= i < |allDates| && DisabledBy(allDates[i], slot);
    var all := before + allDates + after;
    assert all[|before| + i] == allDates[i];
    DisabledIff(all, slot);
  }

  // ---------------------------------------------------------------------------
  // The commented-out test vectors (instants as written, `Z` taken for `z`).

  function SingleDateLate(): seq<DateRange> {
    [DateRange(IsoInstant(2025, 3, 29, 16, 0), IsoInstant(2025, 3, 30, 16, 0) - 1)]
  }

  function MultipleDates(): seq<DateRange> {
    [DateRange(IsoInstant(2025, 3, 29, 16, 0), IsoInstant(2025, 4, 1, 16, 0) - 1)]
  }

  function NonConsecutiveDates(): seq<DateRange> {
    [DateRange(IsoInstant(2025, 3, 29, 16, 0), IsoInstant(2025, 3, 30, 16, 0) - 1),
     DateRange(IsoInstant(2025, 4, 5, 17, 0), IsoInstant(2025, 4, 6, 19, 0) - 1)]
  }

  function CombineDates(): seq<DateRange> {
    [DateRange(IsoInstant(2025, 3, 29, 16, 0), IsoInstant(2025, 4, 1, 16, 0) - 1),
     DateRange(IsoInstant(2025, 4, 5, 17, 0), IsoInstant(2025, 4, 6, 19, 0) - 1)]
  }

  /** The day numbers of the test dates. */
  lemma TestDays()
    ensures DaysFromCivil(2025, 3, 29) == 20176 && DaysFromCivil(2025, 3, 30) == 20177
    ensures DaysFromCivil(2025, 4, 1) == 20179 && DaysFromCivil(2025, 4, 5) == 20183
    ensures DaysFromCivil(2025, 4, 6) == 20184
  {
  }

  lemma SingleDateLateCases()
    ensures DisabledTimeSlot(SingleDateLate(), IsoInstant(2025, 3, 29, 0, 0))
    ensures !DisabledTimeSlot(SingleDateLate(), IsoInstant(2025, 3, 29, 16, 0))
    ensures !DisabledTimeSlot(SingleDateLate(), IsoInstant(2025, 3, 30, 0, 0))
    ensures !DisabledTimeSlot(SingleDateLate(), IsoInstant(2025, 3, 30, 15, 30))
    ensures DisabledTimeSlot(SingleDateLate(), IsoInstant(2025, 3, 30, 23, 0))
  {
    TestDays();
    var r := SingleDateLate()[0];
    assert DisabledBy(r, IsoInstant(2025, 3, 29, 0, 0));
    assert DisabledBy(r, IsoInstant(2025, 3, 30, 23, 0));
    InsideSingleRangeEnabled(r, IsoInstant(2025, 3, 29, 16, 0));
    InsideSingleRangeEnabled(r, IsoInstant(2025, 3, 30, 0, 0));
    InsideSingleRangeEnabled(r, IsoInstant(2025, 3, 30, 15, 30));
  }

  lemma MultipleDatesCases()
    ensures DisabledTimeSlot(MultipleDates(), IsoInstant(2025, 3, 29, 3, 0))
    ensures !DisabledTimeSlot(MultipleDates(), IsoInstant(2025, 3, 29, 16, 0))
    ensures !DisabledTimeSlot(MultipleDates(), IsoInstant(2025, 3, 30, 16, 30))
    ensures !DisabledTimeSlot(MultipleDates(), IsoInstant(2025, 4, 1, 15, 30))
    ensures DisabledTimeSlot(MultipleDates(), IsoInstant(2025, 4, 1, 16, 0))
  {
    TestDays();
    var r := MultipleDates()[0];
    assert DisabledBy(r, IsoInstant(2025, 3, 29, 3, 0));
    assert DisabledBy(r, IsoInstant(2025, 4, 1, 16, 0));
    InsideSingleRangeEnabled(r, IsoInstant(2025, 3, 29, 16, 0));
    InsideSingleRangeEnabled(r, IsoInstant(2025, 3, 30, 16, 30));
    InsideSingleRangeEnabled(r, IsoInstant(2025, 4, 1, 15, 30));
  }

  /** The UTC date of `year-month-dayThh:mm` is that day. */
  lemma DayOfIso(year: int, month: int, day: int, hour: int, minute: int, d: Day)
    requires 1 <= month <= 12 && DaysFromCivil(year, month, day) == d
    requires 0 <= hour < 24 && 0 <= minute < 60
    ensures DayOf(IsoInstant(year, month, day, hour, minute)) == d
  {
  }

  /** The millisecond before `year-month-dayThh:00`, from 01:00 on, is still that day. */
  lemma DayOfIsoBefore(year: int, month: int, day: int, hour: int, d: Day)
    requires 1 <= month <= 12 && DaysFromCivil(year, month, day) == d
    requires 1 <= hour < 24
    ensures DayOf(IsoInstant(year, month, day, hour, 0) - 1) == d
  {
  }

  /** The UTC dates of the endpoints of the two-range vectors. */
  lemma VectorEndpointDays()
    ensures DayOf(IsoInstant(2025, 3, 29, 16, 0)) == 20176
    ensures DayOf(IsoInstant(2025, 3, 30, 16, 0) - 1) == 20177
    ensures DayOf(IsoInstant(2025, 4, 1, 16, 0) - 1) == 20179
    ensures DayOf(IsoInstant(2025, 4, 5, 17, 0)) == 20183
    ensures DayOf(IsoInstant(2025, 4, 6, 19, 0) - 1) == 20184
  {
    TestDays();
    DayOfIso(2025, 3, 29, 16, 0, 20176);
    DayOfIsoBefore(2025, 3, 30, 16, 20177);
    DayOfIsoBefore(2025, 4, 1, 16, 20179);
    DayOfIso(2025, 4, 5, 17, 0, 20183);
    DayOfIsoBefore(2025, 4, 6, 19, 20184);
  }

  /** With two ranges the predicate asks each of them. */
  lemma DisabledTwo(r0: DateRange, r1: DateRange, slot: Instant)
    ensures DisabledTimeSlot([r0, r1], slot) <==> DisabledBy(r0, slot) || DisabledBy(r1, slot)
  {
    var all := [r0, r1];
    DisabledIff(all, slot);
    assert all[0] == r0 && all[1] == r1;
  }

  /** The two-range vectors share the first range's start and the whole second range. */
  predicate TwoRangeVector(allDates: seq<DateRange>) {
    allDates == NonConsecutiveDates() || allDates == CombineDates()
  }

  /**
   * 03-29 16:00 is enabled in both vectors; 03-29 14:00, tested for
   * `nonConsecutiveDates` only, is disabled in both.
   */
  lemma TwoRangeFirstDay(allDates: seq<DateRange>)
    requires TwoRangeVector(allDates)
    ensures DisabledTimeSlot(allDates, IsoInstant(2025, 3, 29, 14, 0))
    ensures !DisabledTimeSlot(allDates, IsoInstant(2025, 3, 29, 16, 0))
  {
    TestDays();
    VectorEndpointDays();
    DayOfIso(2025, 3, 29, 14, 0, 20176);
    DisabledTwo(allDates[0], allDates[1], IsoInstant(2025, 3, 29, 14, 0));
    DayOfIso(2025, 3, 29, 16, 0, 20176);
    DisabledTwo(allDates[0], allDates[1], IsoInstant(2025, 3, 29, 16, 0));
  }

  lemma TwoRangeSecondStart(allDates: seq<DateRange>)
    requires TwoRangeVector(allDates)
    ensures DisabledTimeSlot(allDates, IsoInstant(2025, 4, 5, 12, 30))
    ensures !DisabledTimeSlot(allDates, IsoInstant(2025, 4, 5, 19, 30))
  {
    TestDays();
    VectorEndpointDays();
    DayOfIso(2025, 4, 5, 12, 30, 20183);
    DisabledTwo(allDates[0], allDates[1], IsoInstant(2025, 4, 5, 12, 30));
    DayOfIso(2025, 4, 5, 19, 30, 20183);
    DisabledTwo(allDates[0], allDates[1], IsoInstant(2025, 4, 5, 19, 30));
  }

  lemma TwoRangeSecondEnd(allDates: seq<DateRange>)
    requires TwoRangeVector(allDates)
    ensures !DisabledTimeSlot(allDates, IsoInstant(2025, 4, 6, 18, 30))
    ensures DisabledTimeSlot(allDates, IsoInstant(2025, 4, 6, 19, 30))
  {
    TestDays();
    VectorEndpointDays();
    DayOfIso(2025, 4, 6, 18, 30, 20184);
    DisabledTwo(allDates[0], allDates[1], IsoInstant(2025, 4, 6, 18, 30));
    DayOfIso(2025, 4, 6, 19, 30, 20184);
    DisabledTwo(allDates[0], allDates[1], IsoInstant(2025, 4, 6, 19, 30));
  }

  /**
   * The five expectations both two-range vectors share, and the 03-29 14:00
   * expectation of `nonConsecutiveDates`, which holds for `combineDates` too.
   */
  lemma TwoRangeCases(allDates: seq<DateRange>)
    requires allDates == NonConsecutiveDates() || allDates == CombineDates()
    ensures DisabledTimeSlot(allDates, IsoInstant(2025, 3, 29, 14, 0))
    ensures !DisabledTimeSlot(allDates, IsoInstant(2025, 3, 29, 16, 0))
    ensures DisabledTimeSlot(allDates, IsoInstant(2025, 4, 5, 12, 30))
    ensures !DisabledTimeSlot(allDates, IsoInstant(2025, 4, 5, 19, 30))
    ensures !DisabledTimeSlot(allDates, IsoInstant(2025, 4, 6, 18, 30))
    ensures DisabledTimeSlot(allDates, IsoInstant(2025, 4, 6, 19, 30))
  {
    TwoRangeFirstDay(allDates);
    TwoRangeSecondStart(allDates);
    TwoRangeSecondEnd(allDates);
  }

  lemma NonConsecutiveDatesCases()
    ensures !DisabledTimeSlot(NonConsecutiveDates(), IsoInstant(2025, 3, 30, 15, 0))
    ensures DisabledTimeSlot(NonConsecutiveDates(), IsoInstant(2025, 3, 30, 16, 0))
  {
    TestDays();
    var all := NonConsecutiveDates();
    DisabledIff(all, IsoInstant(2025, 3, 30, 15, 0));
    DisabledIff(all, IsoInstant(2025, 3, 30, 16, 0));
    assert DisabledBy(all[0], IsoInstant(2025, 3, 30, 16, 0));
  }

  /** The expectations only `combineDates` has, its 03-29 03:00 one among them. */
  lemma CombineDatesCases()
    ensures DisabledTimeSlot(CombineDates(), IsoInstant(2025, 3, 29, 3, 0))
    ensures !DisabledTimeSlot(CombineDates(), IsoInstant(2025, 3, 30, 16, 30))
    ensures !DisabledTimeSlot(CombineDates(), IsoInstant(2025, 4, 1, 15, 30))
    ensures DisabledTimeSlot(CombineDates(), IsoInstant(2025, 4, 1, 16, 0))
  {
    TestDays();
    VectorEndpointDays();
    DayOfIso(2025, 3, 29, 3, 0, 20176);
    DisabledTwo(CombineDates()[0], CombineDates()[1], IsoInstant(2025, 3, 29, 3, 0));
    var all := CombineDates();
    DisabledIff(all, IsoInstant(2025, 3, 30, 16, 30));
    DisabledIff(all, IsoInstant(2025, 4, 1, 15, 30));
    DisabledIff(all, IsoInstant(2025, 4, 1, 16, 0));
    assert DisabledBy(all[0], IsoInstant(2025, 4, 1, 16, 0));
  }

  // ---------------------------------------------------------------------------
  // generateDate

  /** The days `a, a+1, ..., b`; empty when `a > b`. */
  function DayInterval(a: Day, b: Day): (r: seq<Day>)
    ensures |r| == if a <= b then b - a + 1 else 0
    ensures forall i :: 0 <= i < |r| ==> r[i] == a + i
    decreases b - a
  {
    if a > b then [] else [a] + DayInterval(a + 1, b)
  }

  function Reverse(s: seq<Day>): (r: seq<Day>)
    ensures |r| == |s|
    ensures forall i :: 0 <= i < |s| ==> r[i] == s[|s| - 1 - i]
  {
    if |s| == 0 then [] else Reverse(s[1..]) + [s[0]]
  }

  /**
   * `eachDayOfInterval({start, end}, {in: tz(...)})`: every viewer-local day
   * from the day of the earlier endpoint to the day of the later one,
   * descending when `start` is after `end`. `localDay` is the day an
   * instant falls on in the viewer's timezone.
   */
  function EachDay(r: DateRange, localDay: Instant -> Day): seq<Day> {
    if r.startTime <= r.endTime then DayInterval(localDay(r.startTime), localDay(r.endTime))
    else Reverse(DayInterval(localDay(r.endTime), localDay(r.startTime)))
  }

  /** The local day of the earlier endpoint. */
  function LowDay(r: DateRange, localDay: Instant -> Day): Day {
    if r.startTime <= r.endTime then localDay(r.startTime) else localDay(r.endTime)
  }

  /** The local day of the later endpoint. */
  function HighDay(r: DateRange, localDay: Instant -> Day): Day {
    if r.startTime <= r.endTime then localDay(r.endTime) else localDay(r.startTime)
  }

  /** The days of a range are those between its endpoints' local days. */
  lemma EachDayMembers(r: DateRange, localDay: Instant -> Day, d: Day)
    ensures d in EachDay(r, localDay) <==> LowDay(r, localDay) <= d <= HighDay(r, localDay)
  {
    var lo, hi := LowDay(r, localDay), HighDay(r, localDay);
    var up := DayInterval(lo, hi);
    if lo <= d <= hi {
      assert up[d - lo] == d;
      if r.startTime > r.endTime {
        assert EachDay(r, localDay)[|up| - 1 - (d - lo)] == d;
      }
    }
  }

  /** A forward range yields its days ascending, a backward one descending. */
  lemma EachDayOrder(r: DateRange, localDay: Instant -> Day)
    ensures var s := EachDay(r, localDay);
      forall i :: 0 <= i < |s| - 1 ==> s[i + 1] == if r.startTime <= r.endTime then s[i] + 1 else s[i] - 1
  {
  }

  /** The days of each range, in input order. */
  function PerRange(ranges: seq<DateRange>, localDay: Instant -> Day): (per: seq<seq<Day>>)
    ensures |per| == |ranges|
    ensures forall i :: 0 <= i < |ranges| ==> per[i] == EachDay(ranges[i], localDay)
  {
    seq(|ranges|, i requires 0 <= i < |ranges| => EachDay(ranges[i], localDay))
  }

  /** `[...dateList, ...eachDays]` folded left to right. */
  function Concat(lists: seq<seq<Day>>): seq<Day> {
    if |lists| == 0 then [] else Concat(lists[..|lists| - 1]) + lists[|lists| - 1]
  }

  /** The list `dateList` holds once every range has been visited. */
  function ExpandRanges(ranges: seq<DateRange>, localDay: Instant -> Day): seq<Day> {
    Concat(PerRange(ranges, localDay))
  }

  function RenderDays(days: seq<Day>): (out: seq<string>)
    ensures |out| == |days|
    ensures forall i :: 0 <= i < |days| ==> out[i] == DayIso(days[i])
  {
    seq(|days|, i requires 0 <= i < |days| => DayIso(days[i]))
  }

  /**
   * `generateDate(allDates, userTimezone)`: each range's local days in
   * input order, concatenated without deduplication, as `yyyy-MM-dd`.
   */
  method GenerateDate(allDates: seq<DateRange>, localDay: Instant -> Day) returns (dates: seq<string>)
    ensures dates == RenderDays(ExpandRanges(allDates, localDay))
    ensures |allDates| == 0 ==> dates == []
  {
    if |allDates| == 0 {
      return [];
    }
    var dateList: seq<Day> := [];
    for i := 0 to |allDates|
      invariant dateList == ExpandRanges(allDates[..i], localDay)
    {
      var eachDays := EachDay(allDates[i], localDay);
      ghost var per := PerRange(allDates[..i + 1], localDay);
      assert per[..i] == PerRange(allDates[..i], localDay);
      dateList := dateList + eachDays;
    }
    assert allDates[..|allDates|] == allDates;
    dates := RenderDays(dateList);
  }

  lemma {:induction false} ConcatAppend(x: seq<seq<Day>>, y: seq<seq<Day>>)
    ensures Concat(x + y) == Concat(x) + Concat(y)
    decreases |y|
  {
    if |y| == 0 {
      assert x + y == x;
    } else {
      var y' := y[..|y| - 1];
      assert (x + y)[..|x + y| - 1] == x + y';
      assert (x + y)[|x + y| - 1] == y[|y| - 1];
      ConcatAppend(x, y');
    }
  }

  lemma {:induction false} ConcatMembers(lists: seq<seq<Day>>, d: Day)
    ensures d in Concat(lists) <==> exists i :: 0 <= i < |lists| && d in lists[i]
    decreases |lists|
  {
    if |lists| > 0 {
      var init := lists[..|lists| - 1];
      ConcatMembers(init, d);
      if exists i :: 0 <= i < |lists| && d in lists[i] {
        var i :| 0 <= i < |lists| && d in lists[i];
        if i < |init| {
          assert init[i] == lists[i];
        }
      }
      if exists i :: 0 <= i < |init| && d in init[i] {
        var i :| 0 <= i < |init| && d in init[i];
        assert lists[i] == init[i];
      }
    }
  }

  /** Expanding a concatenation of range lists concatenates the expansions. */
  lemma ExpandAppend(a: seq<DateRange>, b: seq<DateRange>, localDay: Instant -> Day)
    ensures ExpandRanges(a + b, localDay) == ExpandRanges(a, localDay) + ExpandRanges(b, localDay)
  {
    assert PerRange(a + b, localDay) == PerRange(a, localDay) + PerRange(b, localDay);
    ConcatAppend(PerRange(a, localDay), PerRange(b, localDay));
  }

  /** A day is listed iff some range covers it. */
  lemma ExpandMembers(ranges: seq<DateRange>, localDay: Instant -> Day, d: Day)
    ensures d in ExpandRanges(ranges, localDay) <==> exists i :: 0 <= i < |ranges| && d in EachDay(ranges[i], localDay)
  {
    ConcatMembers(PerRange(ranges, localDay), d);
  }

  /**
   * With UTC as the viewer's timezone, the combined test ranges list the
   * days 2025-03-29..04-01 then 04-05 and 04-06 (days 20176..20179, 20183, 20184).
   */
  lemma CombineDatesDays()
    ensures ExpandRanges(CombineDates(), DayOf) == [20176, 20177, 20178, 20179, 20183, 20184]
  {
    var all := CombineDates();
    FirstRangeDays();
    SecondRangeDays();
    var per := PerRange(all, DayOf);
    assert per[..1][..0] == [];
    assert Concat(per[..1]) == per[0];
    assert per[..2][..1] == per[..1];
    assert per[..2] == per;
  }

  lemma FirstRangeDays()
    ensures EachDay(CombineDates()[0], DayOf) == [20176, 20177, 20178, 20179]
  {
    TestDays();
    var r := CombineDates()[0];
    assert DayOf(r.startTime) == 20176 && DayOf(r.endTime) == 20179;
  }

  lemma SecondRangeDays()
    ensures EachDay(CombineDates()[1], DayOf) == [20183, 20184]
  {
    TestDays();
    var r := CombineDates()[1];
    assert DayOf(r.startTime) == 20183 && DayOf(r.endTime) == 20184;
  }

  // ---------------------------------------------------------------------------
  // generateTimeSlots

  datatype TimeSlot = TimeSlot(hour: string, minute: string)

  /** The two-digit rendering `n.toString().padStart(2, "0")`. */
  function Pad2(n: nat): string {
    PadStart(NatToString(n), 2)
  }

  /** Below 100 that is exactly two digits. */
  lemma Pad2Digits(n: nat)
    requires n < 100
    ensures Pad2(n) == [Digit(n / 10), Digit(n % 10)]
  {
    TwoDigits(n);
  }

  /** Entry `i` of the catalogue: hour `i / 2`, minute `"00"` or `"30"` as `i` is even or odd. */
  function CatalogEntry(i: nat): TimeSlot
    requires i < 48
  {
    TimeSlot(Pad2(i / 2), if i % 2 == 0 then "00" else "30")
  }

  /** Entry `i` reads as the two digits of hour `i / 2` and the minute `"00"` or `"30"`. */
  lemma CatalogEntryText(i: nat)
    requires i < 48
    ensures CatalogEntry(i).hour == [Digit(i / 2 / 10), Digit(i / 2 % 10)]
    ensures CatalogEntry(i).minute == if i % 2 == 0 then "00" else "30"
  {
    Pad2Digits(i / 2);
  }

  /**
   * `generateTimeSlots()`: 48 entries in hour-major order; entry `i` is hour
   * `i / 2` and minute `"00"` or `"30"` as `i` is even or odd.
   */
  method GenerateTimeSlots() returns (timeSlots: seq<TimeSlot>)
    ensures |timeSlots| == 48
    ensures forall i :: 0 <= i < 48 ==> timeSlots[i] == CatalogEntry(i)
  {
    timeSlots := [];
    var minutes := [0, 30];
    for hour := 0 to 24
      invariant |timeSlots| == 2 * hour && CatalogPrefix(timeSlots)
    {
      for k := 0 to 2
        invariant |timeSlots| == 2 * hour + k && CatalogPrefix(timeSlots)
      {
        var minute := minutes[k];
        assert minute == 30 * k;
        CatalogStep(timeSlots, hour, k, minute);
        timeSlots := timeSlots + [TimeSlot(Pad2(hour), Pad2(minute))];
      }
    }
  }

  /** `ts` is the start of the catalogue. */
  predicate CatalogPrefix(ts: seq<TimeSlot>)
    requires |ts| <= 48
  {
    forall i :: 0 <= i < |ts| ==> ts[i] == CatalogEntry(i)
  }

  lemma CatalogStep(ts: seq<TimeSlot>, hour: nat, k: nat, minute: nat)
    requires hour < 24 && k < 2 && minute == 30 * k
    requires |ts| == 2 * hour + k && CatalogPrefix(ts)
    ensures CatalogPrefix(ts + [TimeSlot(Pad2(hour), Pad2(minute))])
  {
    var e := TimeSlot(Pad2(hour), Pad2(minute));
    EntryAt(hour, k, minute);
    forall i | 0 <= i < |ts| + 1
      ensures (ts + [e])[i] == CatalogEntry(i)
    {
      if i < |ts| {
        assert (ts + [e])[i] == ts[i];
      }
    }
  }

  lemma HalfOf(hour: nat, k: nat)
    requires k < 2
    ensures (2 * hour + k) / 2 == hour && (2 * hour + k) % 2 == k
  {
  }

  lemma MinuteTexts()
    ensures Pad2(0) == "00" && Pad2(30) == "30"
  {
    Pad2Zero();
    Pad2Thirty();
  }

  lemma Pad2Zero()
    ensures Pad2(0) == "00"
  {
    Pad2Digits(0);
    assert Digit(0) == '0';
  }

  lemma Pad2Thirty()
    ensures Pad2(30) == "30"
  {
    Pad2Digits(30);
    assert 30 / 10 == 3 && 30 % 10 == 0;
    assert Digit(3) == '3' && Digit(0) == '0';
  }

  lemma EntryAt(hour: nat, k: nat, minute: nat)
    requires hour < 24 && k < 2 && minute == 30 * k
    ensures TimeSlot(Pad2(hour), Pad2(minute)) == CatalogEntry(2 * hour + k)
  {
    var i := 2 * hour + k;
    HalfOf(hour, k);
    MinuteTexts();
    assert CatalogEntry(i).hour == Pad2(hour);
    if k == 0 {
      assert minute == 0 && CatalogEntry(i).minute == "00";
    } else {
      assert minute == 30 && CatalogEntry(i).minute == "30";
    }
  }

  /** The catalogue never lists a slot twice. */
  lemma TimeSlotsDistinct(timeSlots: seq<TimeSlot>, i: int, j: int)
    requires |timeSlots| == 48
    requires forall k :: 0 <= k < 48 ==> timeSlots[k] == CatalogEntry(k)
    requires 0 <= i < j < 48
    ensures timeSlots[i] != timeSlots[j]
  {
    CatalogEntryText(i);
    CatalogEntryText(j);
    if timeSlots[i].hour == timeSlots[j].hour {
      assert timeSlots[i].hour[0] == timeSlots[j].hour[0] && timeSlots[i].hour[1] == timeSlots[j].hour[1];
      DigitInjective(i / 2 / 10, j / 2 / 10);
      DigitInjective(i / 2 % 10, j / 2 % 10);
      assert i / 2 == j / 2;
      assert timeSlots[i].minute[0] != timeSlots[j].minute[0];
    }
  }
}
