/**
 * The layout code that src/components/GroupAvailabilityGrid.tsx and
 * src/components/TimeGrid.tsx both contain, word for word: the 48 numeric
 * half-hour rows, the `HH:MM` row label, the chronological copy of the
 * dates, the spacer before a column whose date does not follow the previous
 * one, and the `${date}_${hour}_${minute}` cell slot id.
 *
 * A date prop is a `yyyy-MM-dd` string; the model holds it as its day
 * number and renders it back with `Calendar.DayIso`.
 */
module GridLayout {
  import opened Text
  import opened Calendar
  import GroupConsecutiveDates

  /** One row of the grid: `{hour, minute}` as numbers. */
  datatype HalfHour = HalfHour(hour: nat, minute: nat)

  /** Row `i` is hour `i / 2`, minute 0 or 30 as `i` is even or odd. */
  function Row(i: nat): HalfHour {
    HalfHour(i / 2, 30 * (i % 2))
  }

  /** `for (hour = 0; hour < 24; hour++) for (minute of [0, 30]) timeSlots.push({hour, minute})`. */
  method TimeSlots() returns (timeSlots: seq<HalfHour>)
    ensures |timeSlots| == 48
    ensures forall i :: 0 <= i < 48 ==> timeSlots[i] == Row(i)
  {
    timeSlots := [];
    var minutes := [0, 30];
    for hour := 0 to 24
      invariant |timeSlots| == 2 * hour
      invariant forall i :: 0 <= i < 2 * hour ==> timeSlots[i] == Row(i)
    {
      for k := 0 to 2
        invariant |timeSlots| == 2 * hour + k
        invariant forall i :: 0 <= i < 2 * hour + k ==> timeSlots[i] == Row(i)
      {
        RowAt(hour, k);
        timeSlots := timeSlots + [HalfHour(hour, minutes[k])];
      }
    }
  }

  lemma RowAt(hour: nat, k: nat)
    requires k < 2
    ensures Row(2 * hour + k) == HalfHour(hour, [0, 30][k])
  {
    assert (2 * hour + k) / 2 == hour && (2 * hour + k) % 2 == k;
  }

  /** The rows run from 00:00 to 23:30, each half an hour after the previous one. */
  lemma RowsAreHalfHours(i: nat)
    requires i < 48
    ensures Row(i).hour < 24 && (Row(i).minute == 0 || Row(i).minute == 30)
    ensures Row(i).hour * 60 + Row(i).minute == 30 * i
  {
    assert i == 2 * (i / 2) + i % 2;
  }

  /** `formatTime(hour, minute)`: both numbers zero-padded to two digits, joined by `:`. */
  function FormatTime(hour: nat, minute: nat): (s: string)
    requires hour < 100 && minute < 100
    ensures s == [Digit(hour / 10), Digit(hour % 10), ':', Digit(minute / 10), Digit(minute % 10)]
  {
    TwoDigits(hour);
    TwoDigits(minute);
    PadStart(NatToString(hour), 2) + ":" + PadStart(NatToString(minute), 2)
  }

  /** Different times of day have different labels. */
  lemma FormatTimeInjective(h1: nat, m1: nat, h2: nat, m2: nat)
    requires h1 < 100 && m1 < 100 && h2 < 100 && m2 < 100
    requires FormatTime(h1, m1) == FormatTime(h2, m2)
    ensures h1 == h2 && m1 == m2
  {
    var a, b := FormatTime(h1, m1), FormatTime(h2, m2);
    assert a[0] == b[0] && a[1] == b[1] && a[3] == b[3] && a[4] == b[4];
    DigitInjective(h1 / 10, h2 / 10);
    DigitInjective(h1 % 10, h2 % 10);
    DigitInjective(m1 / 10, m2 / 10);
    DigitInjective(m1 % 10, m2 % 10);
  }

  /** The row label: `HH:00` on full hours, empty on half hours. */
  function RowLabel(row: HalfHour): (text: string)
    requires row.hour < 100
    ensures row.minute == 0 ==> text == [Digit(row.hour / 10), Digit(row.hour % 10), ':', '0', '0']
    ensures row.minute != 0 ==> text == ""
  {
    if row.minute == 0 then FormatTime(row.hour, 0) else ""
  }

  /** Every even row is labelled with its hour, every odd row is blank. */
  lemma RowLabels(i: nat)
    requires i < 48
    ensures i % 2 == 0 ==> RowLabel(Row(i)) == [Digit(i / 2 / 10), Digit(i / 2 % 10), ':', '0', '0']
    ensures i % 2 == 1 ==> RowLabel(Row(i)) == ""
  {
  }

  /** `[...dates].sort(...)` by instant: a sorted permutation, the prop itself untouched. */
  function SortedDates(dates: seq<Day>): (sorted: seq<Day>)
    ensures Sorted(sorted) && multiset(sorted) == multiset(dates)
  {
    Sort(dates)
  }

  /** Column `index` gets a spacer: it is not first and its date is not one day after the previous one. */
  predicate NeedsSpacing(sortedDates: seq<Day>, index: nat)
    requires index < |sortedDates|
  {
    index > 0 && !GroupConsecutiveDates.Consecutive(sortedDates[index - 1], sortedDates[index])
  }

  /** The number of columns among the first `n` that get a spacer. */
  function SpacerCount(sortedDates: seq<Day>, n: nat): nat
    requires n <= |sortedDates|
  {
    if n == 0 then 0 else SpacerCount(sortedDates, n - 1) + (if NeedsSpacing(sortedDates, n - 1) then 1 else 0)
  }

  lemma {:induction false} SpacersAreBreaks(s: seq<Day>, n: nat)
    requires 0 < n <= |s|
    ensures SpacerCount(s, n) == GroupConsecutiveDates.Breaks(s[..n])
    decreases n
  {
    if n > 1 {
      SpacersAreBreaks(s, n - 1);
      assert s[..n][..n - 1] == s[..n - 1];
      assert s[..n][n - 2] == s[n - 2] && s[..n][n - 1] == s[n - 1];
    }
  }

  /**
   * The spacers split the columns into the runs of consecutive days that
   * `groupConsecutiveDates` builds: one spacer fewer than there are runs.
   */
  lemma SpacersSeparateRuns(sortedDates: seq<Day>)
    requires |sortedDates| > 0
    ensures SpacerCount(sortedDates, |sortedDates|) + 1 == |GroupConsecutiveDates.Runs(sortedDates)|
  {
    SpacersAreBreaks(sortedDates, |sortedDates|);
    assert sortedDates[..|sortedDates|] == sortedDates;
    GroupConsecutiveDates.RunsCount(sortedDates);
  }

  /** The cell slot id `${date}_${hour}_${minute}`, numbers unpadded. */
  function CellSlotId(date: Day, hour: nat, minute: nat): string {
    DayIso(date) + "_" + NatToString(hour) + "_" + NatToString(minute)
  }

  /** Cutting at the first `_` recovers both parts when the first has none. */
  lemma SplitAtUnderscore(a: string, b: string, a': string, b': string)
    requires '_' !in a && '_' !in a'
    requires a + "_" + b == a' + "_" + b'
    ensures a == a' && b == b'
  {
    var x := a + "_" + b;
    assert x[|a|] == '_' && (a' + "_" + b')[|a'|] == '_';
    assert |a| == |a'|;
    assert a == x[..|a|] == a';
    assert b == x[|a| + 1..] == b';
  }

  lemma NoUnderscoreInDigits(s: string)
    requires IsDigitString(s)
    ensures '_' !in s
  {
  }

  lemma SplitThree(a: string, b: string, c: string, a': string, b': string, c': string)
    requires '_' !in a && '_' !in b && '_' !in a' && '_' !in b'
    requires a + "_" + b + "_" + c == a' + "_" + b' + "_" + c'
    ensures a == a' && b == b' && c == c'
  {
    assert a + "_" + b + "_" + c == a + "_" + (b + "_" + c);
    assert a' + "_" + b' + "_" + c' == a' + "_" + (b' + "_" + c');
    SplitAtUnderscore(a, b + "_" + c, a', b' + "_" + c');
    SplitAtUnderscore(b, c, b', c');
  }

  lemma SlotIdParts(date1: string, h1: nat, m1: nat, date2: string, h2: nat, m2: nat)
    requires '_' !in date1 && '_' !in date2
    requires date1 + "_" + NatToString(h1) + "_" + NatToString(m1) == date2 + "_" + NatToString(h2) + "_" + NatToString(m2)
    ensures date1 == date2 && h1 == h2 && m1 == m2
  {
    NoUnderscoreInDigits(NatToString(h1));
    NoUnderscoreInDigits(NatToString(h2));
    SplitThree(date1, NatToString(h1), NatToString(m1), date2, NatToString(h2), NatToString(m2));
    NatToStringInjective(h1, h2);
    NatToStringInjective(m1, m2);
  }

  /** Two cells share a slot id only if they share the date, the hour and the minute. */
  lemma CellSlotIdInjective(d1: Day, h1: nat, m1: nat, d2: Day, h2: nat, m2: nat)
    requires CellSlotId(d1, h1, m1) == CellSlotId(d2, h2, m2)
    ensures d1 == d2 && h1 == h2 && m1 == m2
  {
    SlotIdParts(DayIso(d1), h1, m1, DayIso(d2), h2, m2);
    DayIsoInjective(d1, d2);
  }
}
