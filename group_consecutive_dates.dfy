/**
 * src/utils/groupConsecutiveDates.ts: compacts a list of selected days into
 * ranges of consecutive days, rendered as
 * `{startDate: "<day>T00:00:00", endDate: "<day>T23:59:59.999"}`.
 */
module GroupConsecutiveDates {
  import opened Calendar

  /** A run of consecutive days, first and last day included. */
  datatype DayRange = DayRange(startDay: Day, endDay: Day)

  /** The object the source emits for a run. */
  datatype RangeStrings = RangeStrings(startDate: string, endDate: string)

  function RenderRange(r: DayRange): RangeStrings {
    RangeStrings(DayIso(r.startDay) + "T00:00:00", DayIso(r.endDay) + "T23:59:59.999")
  }

  function RenderAll(rs: seq<DayRange>): (out: seq<RangeStrings>)
    ensures |out| == |rs|
    ensures forall k :: 0 <= k < |rs| ==> out[k] == RenderRange(rs[k])
  {
    seq(|rs|, k requires 0 <= k < |rs| => RenderRange(rs[k]))
  }

  /** `differenceInDays(current, previous) === 1` on two `YYYY-MM-DD` days. */
  predicate Consecutive(previous: Day, current: Day) {
    current - previous == 1
  }

  /**
   * The runs the single pass builds from an ascending list of days, defined
   * on prefixes exactly as the loop extends them: a day one after its
   * predecessor extends the last run, any other day opens a new one.
   */
  function Runs(s: seq<Day>): (r: seq<DayRange>)
    ensures |s| > 0 ==> |r| > 0
  {
    if |s| == 0 then []
    else if |s| == 1 then [DayRange(s[0], s[0])]
    else
      var p := Runs(s[..|s| - 1]);
      var last := s[|s| - 1];
      if Consecutive(s[|s| - 2], last) then p[..|p| - 1] + [DayRange(p[|p| - 1].startDay, last)]
      else p + [DayRange(last, last)]
  }

  /** The ranges for any list of selected days: dedupe, sort, then merge runs. */
  function GroupDays(selectedDates: seq<Day>): seq<DayRange> {
    Runs(SortedSet(selectedDates))
  }

  /** The number of adjacent pairs of `s` that are not consecutive days. */
  function Breaks(s: seq<Day>): nat {
    if |s| <= 1 then 0
    else Breaks(s[..|s| - 1]) + (if Consecutive(s[|s| - 2], s[|s| - 1]) then 0 else 1)
  }

  /**
   * `groupConsecutiveDates`. The empty list yields no ranges; otherwise the
   * loop walks the sorted distinct days, extending the current range's end
   * or pushing it and starting a new one.
   */
  method GroupConsecutiveDatesOf(selectedDates: seq<Day>) returns (result: seq<RangeStrings>)
    ensures result == RenderAll(GroupDays(selectedDates))
  {
    if |selectedDates| == 0 {
      return [];
    }
    var sortedDates := SortedSet(selectedDates);
    assert selectedDates[0] in sortedDates;
    var ranges: seq<DayRange> := [];
    var currentRange := DayRange(sortedDates[0], sortedDates[0]);
    var i := 1;
    while i < |sortedDates|
      invariant 1 <= i <= |sortedDates|
      invariant ranges + [currentRange] == Runs(sortedDates[..i])
    {
      RunsStep(sortedDates, i);
      ghost var p := ranges + [currentRange];
      assert p[..|p| - 1] == ranges && p[|p| - 1] == currentRange;
      if Consecutive(sortedDates[i - 1], sortedDates[i]) {
        currentRange := currentRange.(endDay := sortedDates[i]);
      } else {
        ranges := ranges + [currentRange];
        currentRange := DayRange(sortedDates[i], sortedDates[i]);
      }
      i := i + 1;
    }
    ranges := ranges + [currentRange];
    assert sortedDates[..i] == sortedDates;
    result := RenderAll(ranges);
  }

  /** One step of the pass: how the runs of a prefix grow by the next day. */
  lemma RunsStep(s: seq<Day>, i: nat)
    requires 1 <= i < |s|
    ensures var p := Runs(s[..i]);
      Runs(s[..i + 1]) ==
        if Consecutive(s[i - 1], s[i]) then p[..|p| - 1] + [DayRange(p[|p| - 1].startDay, s[i])]
        else p + [DayRange(s[i], s[i])]
  {
    assert s[..i + 1][..i] == s[..i];
  }

  // ---------------------------------------------------------------------------
  // What the ranges are

  /** Day `d` lies in one of the ranges. */
  predicate Covered(rs: seq<DayRange>, d: Day) {
    exists k :: 0 <= k < |rs| && InRange(rs[k], d)
  }

  predicate InRange(r: DayRange, d: Day) {
    r.startDay <= d <= r.endDay
  }

  /** Every range is non-empty and each one ends more than a day before the next begins. */
  predicate Separated(rs: seq<DayRange>) {
    && NonEmpty(rs)
    && (forall j, k :: 0 <= j < k < |rs| ==> rs[j].endDay + 1 < rs[k].startDay)
  }

  /** Every range's first day is not after its last. */
  predicate NonEmpty(rs: seq<DayRange>) {
    forall k :: 0 <= k < |rs| ==> rs[k].startDay <= rs[k].endDay
  }

  lemma NonEmptyExtendLast(p: seq<DayRange>, last: Day)
    requires |p| > 0 && NonEmpty(p) && p[|p| - 1].endDay < last
    ensures NonEmpty(p[..|p| - 1] + [DayRange(p[|p| - 1].startDay, last)])
  {
    var r := p[..|p| - 1] + [DayRange(p[|p| - 1].startDay, last)];
    assert forall k :: 0 <= k < |p| - 1 ==> r[k] == p[k];
  }

  lemma NonEmptyAppend(p: seq<DayRange>, last: Day)
    requires NonEmpty(p)
    ensures NonEmpty(p + [DayRange(last, last)])
  {
    var r := p + [DayRange(last, last)];
    assert forall k :: 0 <= k < |p| ==> r[k] == p[k];
  }

  /** The runs start at the first day and end at the last. */
  lemma {:induction false} RunsEnds(s: seq<Day>)
    requires |s| > 0
    ensures Runs(s)[0].startDay == s[0] && Runs(s)[|Runs(s)| - 1].endDay == s[|s| - 1]
    decreases |s|
  {
    if |s| > 1 {
      var pre := s[..|s| - 1];
      RunsEnds(pre);
      var p := Runs(pre);
      if Consecutive(s[|s| - 2], s[|s| - 1]) && |p| > 1 {
        assert Runs(s)[0] == p[0];
      }
    }
  }

  /** Moving the last range's end later keeps the ranges separated. */
  lemma SeparatedExtendLast(p: seq<DayRange>, last: Day)
    requires |p| > 0 && Separated(p) && p[|p| - 1].endDay < last
    ensures Separated(p[..|p| - 1] + [DayRange(p[|p| - 1].startDay, last)])
  {
    var r := p[..|p| - 1] + [DayRange(p[|p| - 1].startDay, last)];
    assert forall k :: 0 <= k < |p| - 1 ==> r[k] == p[k];
  }

  /** A one-day range more than a day after the last range keeps the ranges separated. */
  lemma SeparatedAppend(p: seq<DayRange>, last: Day)
    requires |p| > 0 && Separated(p) && p[|p| - 1].endDay + 1 < last
    ensures Separated(p + [DayRange(last, last)])
  {
    var r := p + [DayRange(last, last)];
    var m := |p|;
    assert forall k :: 0 <= k < m ==> r[k] == p[k];
    forall j | 0 <= j < m ensures r[j].endDay + 1 < r[m].startDay {
      assert p[j].endDay <= p[m - 1].endDay;
    }
  }

  /** On an ascending list of distinct days the runs are non-empty and pairwise separated. */
  lemma {:induction false} RunsSeparated(s: seq<Day>)
    requires StrictlySorted(s)
    ensures Separated(Runs(s))
    decreases |s|
  {
    if |s| > 1 {
      var pre := s[..|s| - 1];
      RunsSeparated(pre);
      RunsEnds(pre);
      var p := Runs(pre);
      var last := s[|s| - 1];
      assert p[|p| - 1].endDay == s[|s| - 2] < last;
      if Consecutive(s[|s| - 2], last) {
        SeparatedExtendLast(p, last);
      } else {
        SeparatedAppend(p, last);
      }
    }
  }

  /** Every run begins and ends on a day of the list. */
  lemma {:induction false} RunsMembers(s: seq<Day>)
    ensures forall k :: 0 <= k < |Runs(s)| ==> Runs(s)[k].startDay in s && Runs(s)[k].endDay in s
    decreases |s|
  {
    if |s| > 1 {
      var pre := s[..|s| - 1];
      RunsMembers(pre);
      var p := Runs(pre);
      var r := Runs(s);
      assert forall d :: d in pre ==> d in s;
      if Consecutive(s[|s| - 2], s[|s| - 1]) {
        assert forall k :: 0 <= k < |p| - 1 ==> r[k] == p[k];
        assert r[|r| - 1] == DayRange(p[|p| - 1].startDay, s[|s| - 1]);
      } else {
        assert forall k :: 0 <= k < |p| ==> r[k] == p[k];
      }
    }
  }

  /** Every run's first day is not after its last, whatever the input order. */
  lemma {:induction false} RunsOrdered(s: seq<Day>)
    ensures forall k :: 0 <= k < |Runs(s)| ==> Runs(s)[k].startDay <= Runs(s)[k].endDay
    decreases |s|
  {
    if |s| > 1 {
      var pre := s[..|s| - 1];
      RunsOrdered(pre);
      RunsEnds(pre);
      var p := Runs(pre);
      assert NonEmpty(p);
      if Consecutive(s[|s| - 2], s[|s| - 1]) {
        NonEmptyExtendLast(p, s[|s| - 1]);
      } else {
        NonEmptyAppend(p, s[|s| - 1]);
      }
      assert NonEmpty(Runs(s));
    }
  }

  /** A day covered by the runs is a day of the list. */
  lemma {:induction false} RunsCoverSound(s: seq<Day>, d: Day)
    requires Covered(Runs(s), d)
    ensures d in s
    decreases |s|
  {
    if |s| > 1 {
      var pre := s[..|s| - 1];
      var last := s[|s| - 1];
      assert s == pre + [last];
      RunsEnds(pre);
      var p := Runs(pre);
      var r := Runs(s);
      var k :| 0 <= k < |r| && InRange(r[k], d);
      if Consecutive(s[|s| - 2], last) {
        if k < |r| - 1 {
          assert r[k] == p[k];
          RunsCoverSound(pre, d);
        } else if d != last {
          assert InRange(p[|p| - 1], d);
          RunsCoverSound(pre, d);
        }
      } else if k < |p| {
        assert r[k] == p[k];
        RunsCoverSound(pre, d);
      }
    }
  }

  /** Every day of the list is covered by the runs. */
  lemma {:induction false} RunsCoverComplete(s: seq<Day>, d: Day)
    requires d in s
    ensures Covered(Runs(s), d)
    decreases |s|
  {
    if |s| == 1 {
      assert InRange(Runs(s)[0], d);
    } else {
      var pre := s[..|s| - 1];
      var last := s[|s| - 1];
      assert s == pre + [last];
      RunsEnds(pre);
      var p := Runs(pre);
      var r := Runs(s);
      if d in pre {
        RunsCoverComplete(pre, d);
        var k :| 0 <= k < |p| && InRange(p[k], d);
        if Consecutive(s[|s| - 2], last) && k == |p| - 1 {
          assert InRange(r[k], d);
        } else {
          assert r[k] == p[k];
        }
      } else if Consecutive(s[|s| - 2], last) {
        RunsOrdered(pre);
        assert InRange(r[|r| - 1], d);
      } else {
        assert InRange(r[|r| - 1], d);
      }
    }
  }

  /** The number of runs is one more than the number of breaks between adjacent days. */
  lemma {:induction false} RunsCount(s: seq<Day>)
    requires |s| > 0
    ensures |Runs(s)| == 1 + Breaks(s)
    decreases |s|
  {
    if |s| > 1 {
      RunsCount(s[..|s| - 1]);
    }
  }

  // ---------------------------------------------------------------------------
  // Properties of groupConsecutiveDates

  /** No selected days, no ranges. */
  lemma GroupEmpty()
    ensures GroupDays([]) == []
  {
  }

  /**
   * The ranges are ascending, non-empty, pairwise separated by more than one
   * day (so no two could be merged), begin and end on selected days, and
   * cover exactly the selected days; each selected day lies in exactly one range.
   */
  lemma GroupDaysCorrect(selectedDates: seq<Day>)
    ensures Separated(GroupDays(selectedDates))
    ensures forall k :: 0 <= k < |GroupDays(selectedDates)| ==>
      GroupDays(selectedDates)[k].startDay in selectedDates && GroupDays(selectedDates)[k].endDay in selectedDates
    ensures forall d :: Covered(GroupDays(selectedDates), d) <==> d in selectedDates
    ensures forall d, j, k ::
      (0 <= j < |GroupDays(selectedDates)| && 0 <= k < |GroupDays(selectedDates)|
       && InRange(GroupDays(selectedDates)[j], d) && InRange(GroupDays(selectedDates)[k], d))
      ==> j == k
  {
    var s := SortedSet(selectedDates);
    RunsSeparated(s);
    RunsMembers(s);
    forall d ensures Covered(Runs(s), d) <==> d in selectedDates {
      if d in s { RunsCoverComplete(s, d); }
      if Covered(Runs(s), d) { RunsCoverSound(s, d); }
    }
  }

  /** The number of ranges is one plus the number of non-consecutive adjacent pairs of sorted distinct days. */
  lemma GroupDaysCount(selectedDates: seq<Day>)
    requires |selectedDates| > 0
    ensures |GroupDays(selectedDates)| == 1 + Breaks(SortedSet(selectedDates))
  {
    assert selectedDates[0] in SortedSet(selectedDates);
    RunsCount(SortedSet(selectedDates));
  }

  /** The ranges depend only on which days were selected: not on their order, not on repetitions. */
  lemma GroupDaysSameDays(a: seq<Day>, b: seq<Day>)
    requires forall d :: d in a <==> d in b
    ensures GroupDays(a) == GroupDays(b)
  {
    SortedSetOfSameDays(a, b);
  }

  /** Selecting a day again does not change the ranges. */
  lemma GroupDaysDuplicate(selectedDates: seq<Day>, i: nat)
    requires i < |selectedDates|
    ensures GroupDays(selectedDates + [selectedDates[i]]) == GroupDays(selectedDates)
  {
    GroupDaysSameDays(selectedDates + [selectedDates[i]], selectedDates);
  }

  /**
   * Each emitted object is `<first day>T00:00:00` to `<last day>T23:59:59.999`
   * of a range whose first day is not after its last, both selected days.
   */
  lemma RenderedShape(selectedDates: seq<Day>, k: nat)
    requires k < |RenderAll(GroupDays(selectedDates))|
    ensures exists first, last ::
      && first <= last && first in selectedDates && last in selectedDates
      && RenderAll(GroupDays(selectedDates))[k].startDate == DayIso(first) + "T00:00:00"
      && RenderAll(GroupDays(selectedDates))[k].endDate == DayIso(last) + "T23:59:59.999"
  {
    GroupDaysCorrect(selectedDates);
    var r := GroupDays(selectedDates)[k];
    assert RenderAll(GroupDays(selectedDates))[k] == RenderRange(r);
    assert r.startDay <= r.endDay && r.startDay in selectedDates && r.endDay in selectedDates;
  }

  lemma ExampleMaySorted()
    ensures SortedSet([19480, 19478, 19479, 19482, 19486]) == [19478, 19479, 19480, 19482, 19486]
  {
    var s := [19480, 19478, 19479, 19482, 19486];
    var t := [19478, 19479, 19480, 19482, 19486];
    assert forall k :: k in s <==> k in t;
    StrictlySortedUnique(SortedSet(s), t);
  }

  lemma ExampleMayRuns()
    ensures Runs([19478, 19479, 19480, 19482, 19486])
      == [DayRange(19478, 19480), DayRange(19482, 19482), DayRange(19486, 19486)]
  {
    var t := [19478, 19479, 19480, 19482, 19486];
    assert t[..1] == [19478];
    assert t[..2] == [19478, 19479];
    assert t[..3] == [19478, 19479, 19480];
    assert t[..4] == [19478, 19479, 19480, 19482];
    assert t[..2][..1] == t[..1] && t[..3][..2] == t[..2] && t[..4][..3] == t[..3] && t[..4] == t[..|t| - 1];
    assert Runs(t[..2]) == [DayRange(19478, 19479)];
    assert Runs(t[..3]) == [DayRange(19478, 19480)];
    assert Runs(t[..4]) == [DayRange(19478, 19480), DayRange(19482, 19482)];
  }

  /**
   * The example of src/utils/groupConsecutiveDates.test.ts:5-20: May 3, 1, 2, 5
   * and 9 of 2023 give the ranges May 1-3, May 5 and May 9.
   */
  lemma ExampleMay2023()
    ensures GroupDays([
      DaysFromCivil(2023, 5, 3), DaysFromCivil(2023, 5, 1), DaysFromCivil(2023, 5, 2),
      DaysFromCivil(2023, 5, 5), DaysFromCivil(2023, 5, 9)])
      == [DayRange(DaysFromCivil(2023, 5, 1), DaysFromCivil(2023, 5, 3)),
          DayRange(DaysFromCivil(2023, 5, 5), DaysFromCivil(2023, 5, 5)),
          DayRange(DaysFromCivil(2023, 5, 9), DaysFromCivil(2023, 5, 9))]
  {
    assert DaysFromCivil(2023, 5, 1) == 19478 && DaysFromCivil(2023, 5, 2) == 19479;
    assert DaysFromCivil(2023, 5, 3) == 19480 && DaysFromCivil(2023, 5, 5) == 19482;
    assert DaysFromCivil(2023, 5, 9) == 19486;
    ExampleMaySorted();
    ExampleMayRuns();
  }
}
