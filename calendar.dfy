/**
 * Calendar days and instants. A day is a count of days since 1970-01-01 and
 * an instant a count of milliseconds since 1970-01-01T00:00:00.000Z, so the
 * order of zero-padded `YYYY-MM-DD` strings and of ISO-8601 `Z` strings is
 * the order of these integers.
 */
module Calendar {
  import opened Text

  type Day = int
  type Instant = int

  const MsPerDay: int := 86400000
  const MsPerHour: int := 3600000
  const MsPerMinute: int := 60000

  /**
   * The UTC calendar day of an instant: the `YYYY-MM-DD` part before the `T`
   * of its ISO-8601 `Z` rendering. Dafny's division rounds toward negative
   * infinity for a positive divisor, as the calendar does.
   */
  function DayOf(t: Instant): (d: Day)
    ensures d * MsPerDay <= t < d * MsPerDay + MsPerDay
  {
    t / MsPerDay
  }

  /** Day number of a proleptic Gregorian date (H. Hinnant's days_from_civil). */
  function DaysFromCivil(year: int, month: int, day: int): Day
    requires 1 <= month <= 12
  {
    var y := if month <= 2 then year - 1 else year;
    var era := y / 400;
    var yoe := y - era * 400;
    var mp := if month > 2 then month - 3 else month + 9;
    var doy := (153 * mp + 2) / 5 + day - 1;
    var doe := yoe * 365 + yoe / 4 - yoe / 100 + doy;
    era * 146097 + doe - 719468
  }

  datatype CivilDate = CivilDate(year: int, month: int, day: int)

  /** Proleptic Gregorian date of a day number (H. Hinnant's civil_from_days). */
  function CivilFromDays(z: Day): CivilDate {
    var z' := z + 719468;
    var era := z' / 146097;
    CivilOfEraDay(era, z' - era * 146097)
  }

  /** Days from 1 March of year 0 of the era to 1 March of year `y` of the era. */
  function YearStart(y: int): int {
    365 * y + y / 4 - y / 100
  }

  /** civil_from_days from the era and the day of the era on. */
  function CivilOfEraDay(era: int, doe: int): CivilDate {
    var yoe := YearOfEra(doe);
    CivilOfYearDay(era, yoe, doe - YearStart(yoe))
  }

  /** civil_from_days' estimate of the year within the era from the day of the era. */
  function YearOfEra(doe: int): int {
    (doe - doe / 1460 + doe / 36524 - doe / 146096) / 365
  }

  /** civil_from_days from the era, the year of the era and the day of that year (from 1 March) on. */
  function CivilOfYearDay(era: int, yoe: int, doy: int): CivilDate {
    var mp := (5 * doy + 2) / 153;
    var d := doy - (153 * mp + 2) / 5 + 1;
    var m := if mp < 10 then mp + 3 else mp - 9;
    CivilDate(if m <= 2 then yoe + era * 400 + 1 else yoe + era * 400, m, d)
  }

  /** Text made of digits and minus signs only. */
  predicate NumericText(s: string) {
    forall i :: 0 <= i < |s| ==> s[i] == '-' || '0' <= s[i] <= '9'
  }

  lemma NumericConcat(a: string, b: string)
    requires NumericText(a) && NumericText(b)
    ensures NumericText(a + b)
  {
    forall i | 0 <= i < |a + b| ensures (a + b)[i] == '-' || '0' <= (a + b)[i] <= '9' {
      if i < |a| { assert (a + b)[i] == a[i]; } else { assert (a + b)[i] == b[i - |a|]; }
    }
  }

  lemma PadNumeric(s: string, width: nat)
    requires NumericText(s)
    ensures NumericText(PadStart(s, width))
  {
  }

  /** The `yyyy-MM-dd` text of a date: zero-padded year, month and day joined by `-`. */
  function DateText(c: CivilDate): string {
    PadStart(IntToString(c.year), 4) + "-" + PadStart(IntToString(c.month), 2) + "-" + PadStart(IntToString(c.day), 2)
  }

  lemma DateTextNumeric(c: CivilDate)
    ensures NumericText(DateText(c))
  {
    var y, m, dd := PadStart(IntToString(c.year), 4), PadStart(IntToString(c.month), 2), PadStart(IntToString(c.day), 2);
    PadNumeric(IntToString(c.year), 4);
    PadNumeric(IntToString(c.month), 2);
    PadNumeric(IntToString(c.day), 2);
    NumericConcat(y, "-");
    NumericConcat(y + "-", m);
    NumericConcat(y + "-" + m, "-");
    NumericConcat(y + "-" + m + "-", dd);
  }

  /** A calendar date rendered as `yyyy-MM-dd`. */
  function RenderCivil(c: CivilDate): (s: string)
    ensures NumericText(s)
  {
    DateTextNumeric(c);
    DateText(c)
  }

  /** A day rendered as `yyyy-MM-dd` (the format of `format(date, "yyyy-MM-dd")`). */
  function DayIso(d: Day): (s: string)
    ensures NumericText(s)
    ensures '_' !in s && 'T' !in s
  {
    var s := RenderCivil(CivilFromDays(d));
    assert forall i :: 0 <= i < |s| ==> s[i] != '_' && s[i] != 'T';
    s
  }

  // ---------------------------------------------------------------------------
  // Day numbers and calendar dates are in one-to-one correspondence

  /**
   * Within an era of 146097 days, the estimate of the year of the era lies in
   * 0..399 and leaves a day of the year in 0..365. Writing the day of the era
   * as 36524 days per century, 1461 per four years and a remainder turns each
   * division into one Dafny can see.
   */
  lemma YearOfEraBounds(doe: int)
    requires 0 <= doe < 146097
    ensures 0 <= YearOfEra(doe) <= 399 && 0 <= doe - YearStart(YearOfEra(doe)) <= 365
  {
    if doe == 146096 {
      assert YearOfEra(doe) == 399;
      assert YearStart(399) == 145731;
    } else {
      var c := doe / 36524;
      var r := doe % 36524;
      var p := r / 1461;
      var s := r % 1461;
      assert doe == 36524 * c + 1461 * p + s;
      assert 0 <= c <= 3 && 0 <= p <= 24 && 0 <= s <= 1460;
      assert doe / 146096 == 0;
      var t := (24 * c + p + s) / 1460;
      assert 0 <= t <= 1;
      assert doe == 1460 * (25 * c + p) + 24 * c + p + s;
      assert doe / 1460 == 25 * c + p + t;
      var k := if s / 365 < 3 then s / 365 else 3;
      assert (s - t) / 365 == k;
      var yoe := 100 * c + 4 * p + k;
      assert doe - doe / 1460 + doe / 36524 - doe / 146096 == 365 * (100 * c + 4 * p) + (s - t);
      assert YearOfEra(doe) == yoe;
      assert yoe / 4 == 25 * c + p;
      assert yoe / 100 == c;
      assert YearStart(yoe) == 36524 * c + 1461 * p + 365 * k;
    }
  }

  /** A day of the year counted from 1 March gives a month index 0..11 and a day 1..31. */
  lemma MonthOfYearBounds(doy: int)
    requires 0 <= doy <= 365
    ensures var mp := (5 * doy + 2) / 153;
      0 <= mp <= 11 && 1 <= doy - (153 * mp + 2) / 5 + 1 <= 31
  {
  }

  /** The last steps of `CivilFromDays` are undone by `DaysFromCivil`. */
  lemma CivilOfYearDayInverse(era: int, yoe: int, doy: int, z: Day)
    requires 0 <= yoe <= 399 && 0 <= doy <= 365
    requires z + 719468 == era * 146097 + YearStart(yoe) + doy
    ensures var c := CivilOfYearDay(era, yoe, doy);
      1 <= c.month <= 12 && 1 <= c.day <= 31 && DaysFromCivil(c.year, c.month, c.day) == z
  {
    MonthOfYearBounds(doy);
    var mp := (5 * doy + 2) / 153;
    var m := if mp < 10 then mp + 3 else mp - 9;
    var year := if m <= 2 then yoe + era * 400 + 1 else yoe + era * 400;
    var y := if m <= 2 then year - 1 else year;
    assert y == yoe + era * 400;
    assert y / 400 == era;
  }

  /** The steps of `CivilFromDays` within one era are undone by `DaysFromCivil`. */
  lemma CivilOfEraDayInverse(era: int, doe: int, z: Day)
    requires 0 <= doe < 146097 && z + 719468 == era * 146097 + doe
    ensures var c := CivilOfEraDay(era, doe);
      1 <= c.month <= 12 && 1 <= c.day <= 31 && DaysFromCivil(c.year, c.month, c.day) == z
  {
    YearOfEraBounds(doe);
    CivilOfYearDayInverse(era, YearOfEra(doe), doe - YearStart(YearOfEra(doe)), z);
  }

  /**
   * `CivilFromDays` yields a month 1..12 and a day 1..31, and
   * `DaysFromCivil` maps that date back to the day it came from.
   */
  lemma CivilRoundTrip(z: Day)
    ensures var c := CivilFromDays(z);
      && 1 <= c.month <= 12 && 1 <= c.day <= 31
      && DaysFromCivil(c.year, c.month, c.day) == z
  {
    var era := (z + 719468) / 146097;
    CivilOfEraDayInverse(era, z + 719468 - era * 146097, z);
  }

  /** Different days have different calendar dates. */
  lemma CivilFromDaysInjective(a: Day, b: Day)
    requires CivilFromDays(a) == CivilFromDays(b)
    ensures a == b
  {
    CivilRoundTrip(a);
    CivilRoundTrip(b);
  }

  /** A number 0..99 is written as two digits after zero-padding. */
  lemma TwoDigitField(n: int)
    requires 0 <= n < 100
    ensures PadStart(IntToString(n), 2) == [Digit(n / 10), Digit(n % 10)]
  {
    TwoDigits(n);
  }

  /**
   * The rendering of a date with a month 1..12 and a day 1..31 ends with
   * `-MM-dd`, preceded by the zero-padded year.
   */
  lemma RenderCivilFields(c: CivilDate)
    requires 1 <= c.month <= 12 && 1 <= c.day <= 31
    ensures RenderCivil(c) == PadStart(IntToString(c.year), 4) + DateTail(c.month, c.day)
  {
    var y, m, d := PadStart(IntToString(c.year), 4), PadStart(IntToString(c.month), 2), PadStart(IntToString(c.day), 2);
    TwoDigitField(c.month);
    TwoDigitField(c.day);
    JoinTail(y, m, d, c.month, c.day);
  }

  lemma JoinTail(y: string, m: string, d: string, month: int, day: int)
    requires 0 <= month < 100 && 0 <= day < 100
    requires m == [Digit(month / 10), Digit(month % 10)] && d == [Digit(day / 10), Digit(day % 10)]
    ensures y + "-" + m + "-" + d == y + DateTail(month, day)
  {
    assert "-" + m + "-" + d == DateTail(month, day);
    assert y + "-" + m + "-" + d == y + ("-" + m + "-" + d);
  }

  /** The `-MM-dd` end of a rendered date. */
  function DateTail(month: int, day: int): seq<char>
    requires 0 <= month < 100 && 0 <= day < 100
  {
    ['-', Digit(month / 10), Digit(month % 10), '-', Digit(day / 10), Digit(day % 10)]
  }

  /** Texts of equal-length tails split the same way. */
  lemma SplitTail(y1: string, t1: seq<char>, y2: string, t2: seq<char>)
    requires |t1| == |t2| && y1 + t1 == y2 + t2
    ensures y1 == y2 && t1 == t2
  {
    var s := y1 + t1;
    assert y1 == s[..|y1|] && y2 == s[..|y2|];
    assert t1 == s[|y1|..] && t2 == s[|y2|..];
  }

  lemma NatToStringStep(n: nat)
    requires n >= 10
    ensures NatToString(n) == NatToString(n / 10) + [Digit(n % 10)]
  {
  }

  /** The digits of a year 1000..9999. */
  lemma FourDigitNat(n: int)
    requires 1000 <= n < 10000
    ensures PadStart(IntToString(n), 4) == YearDigits(n)
  {
    assert n / 10 / 100 == n / 1000 && n / 10 / 10 % 10 == n / 100 % 10;
    NatToStringStep(n);
    ThreeDigitNat(n / 10);
  }

  /** The digits of a number 100..999. */
  lemma ThreeDigitNat(n: nat)
    requires 100 <= n < 1000
    ensures NatToString(n) == [Digit(n / 100), Digit(n / 10 % 10), Digit(n % 10)]
  {
    assert n / 10 / 10 == n / 100;
    NatToStringStep(n);
    NatToStringStep(n / 10);
  }

  /** Zero-padding a text of `k` < `width` characters puts `width - k` zeros in front. */
  lemma PadShort(s: string, width: nat)
    requires |s| < width
    ensures PadStart(s, width) == seq(width - |s|, _ => '0') + s
  {
  }

  /** The four digits of a year 0..9999. */
  function YearDigits(n: int): seq<char>
    requires 0 <= n < 10000
  {
    [Digit(n / 1000), Digit(n / 100 % 10), Digit(n / 10 % 10), Digit(n % 10)]
  }

  /** A year 0..9999 renders as its four decimal digits, with leading zeros. */
  lemma FourDigitYear(n: int)
    requires 0 <= n < 10000
    ensures PadStart(IntToString(n), 4) == YearDigits(n)
  {
    if n >= 1000 {
      FourDigitNat(n);
    } else if n >= 100 {
      ThreeDigitYear(n);
    } else {
      TwoDigitYear(n);
    }
  }

  lemma ThreeDigitYear(n: int)
    requires 100 <= n < 1000
    ensures PadStart(IntToString(n), 4) == YearDigits(n)
  {
    ThreeDigitNat(n);
    PadShort(NatToString(n), 4);
    assert n / 1000 == 0 && n / 100 % 10 == n / 100;
  }

  lemma TwoDigitYear(n: int)
    requires 0 <= n < 100
    ensures PadStart(IntToString(n), 4) == YearDigits(n)
  {
    TwoDigits(n);
    assert n / 1000 == 0 && n / 100 % 10 == 0 && n / 10 % 10 == n / 10;
    if n >= 10 {
      PadShort(NatToString(n), 4);
    } else {
      PadShort(NatToString(n), 2);
      PadShort(NatToString(n), 4);
    }
  }

  /**
   * A date of a year 0..9999 renders as `yyyy-MM-dd`: ten characters, the
   * year's four digits, a `-`, the month's two digits, a `-` and the day's
   * two digits.
   */
  lemma RenderCivilDigits(c: CivilDate)
    requires 0 <= c.year < 10000 && 1 <= c.month <= 12 && 1 <= c.day <= 31
    ensures RenderCivil(c) == [Digit(c.year / 1000), Digit(c.year / 100 % 10), Digit(c.year / 10 % 10), Digit(c.year % 10),
                               '-', Digit(c.month / 10), Digit(c.month % 10), '-', Digit(c.day / 10), Digit(c.day % 10)]
  {
    RenderCivilFields(c);
    FourDigitYear(c.year);
    JoinYear(PadStart(IntToString(c.year), 4), DateTail(c.month, c.day));
  }

  lemma JoinYear(y: string, tail: string)
    requires |y| == 4 && |tail| == 6
    ensures y + tail == [y[0], y[1], y[2], y[3], tail[0], tail[1], tail[2], tail[3], tail[4], tail[5]]
  {
  }

  /** Different years render to different zero-padded texts. */
  lemma YearTextInjective(y1: int, y2: int)
    requires PadStart(IntToString(y1), 4) == PadStart(IntToString(y2), 4)
    ensures y1 == y2
  {
    if IntToString(y1)[0] == '0' {
      IntLeadingZero(y1);
    }
    if IntToString(y2)[0] == '0' {
      IntLeadingZero(y2);
    }
    PadStartInjective(IntToString(y1), IntToString(y2), 4);
    IntToStringInjective(y1, y2);
  }

  /** Two numbers below 100 with the same two digits are equal. */
  lemma TwoDigitsInjective(a: int, b: int)
    requires 0 <= a < 100 && 0 <= b < 100
    requires [Digit(a / 10), Digit(a % 10)] == [Digit(b / 10), Digit(b % 10)]
    ensures a == b
  {
    DigitInjective(a / 10, b / 10);
    DigitInjective(a % 10, b % 10);
  }

  /** Different dates with months 1..12 and days 1..31 render differently. */
  lemma RenderCivilInjective(c1: CivilDate, c2: CivilDate)
    requires 1 <= c1.month <= 12 && 1 <= c1.day <= 31
    requires 1 <= c2.month <= 12 && 1 <= c2.day <= 31
    requires RenderCivil(c1) == RenderCivil(c2)
    ensures c1 == c2
  {
    RenderCivilFields(c1);
    RenderCivilFields(c2);
    var tail1, tail2 := DateTail(c1.month, c1.day), DateTail(c2.month, c2.day);
    SplitTail(PadStart(IntToString(c1.year), 4), tail1, PadStart(IntToString(c2.year), 4), tail2);
    YearTextInjective(c1.year, c2.year);
    assert tail1[1..3] == tail2[1..3] && tail1[4..] == tail2[4..];
    TwoDigitsInjective(c1.month, c2.month);
    TwoDigitsInjective(c1.day, c2.day);
  }

  /** Different days render to different `yyyy-MM-dd` texts. */
  lemma DayIsoInjective(a: Day, b: Day)
    requires DayIso(a) == DayIso(b)
    ensures a == b
  {
    CivilRoundTrip(a);
    CivilRoundTrip(b);
    RenderCivilInjective(CivilFromDays(a), CivilFromDays(b));
  }

  /**
   * A day of a year 0..9999 renders as the four digits of its year, the two
   * of its month and the two of its day of month, and that calendar date
   * maps back to the day.
   */
  lemma DayIsoDigits(d: Day)
    requires 0 <= CivilFromDays(d).year < 10000
    ensures var c := CivilFromDays(d);
      && 1 <= c.month <= 12 && 1 <= c.day <= 31
      && DaysFromCivil(c.year, c.month, c.day) == d
      && DayIso(d) == [Digit(c.year / 1000), Digit(c.year / 100 % 10), Digit(c.year / 10 % 10), Digit(c.year % 10),
                       '-', Digit(c.month / 10), Digit(c.month % 10), '-', Digit(c.day / 10), Digit(c.day % 10)]
  {
    CivilRoundTrip(d);
    RenderCivilDigits(CivilFromDays(d));
  }

  /** The instant `year-month-dayThh:mm:00.000Z`. */
  function IsoInstant(year: int, month: int, day: int, hour: int, minute: int): Instant
    requires 1 <= month <= 12
  {
    DaysFromCivil(year, month, day) * MsPerDay + hour * MsPerHour + minute * MsPerMinute
  }

  // ---------------------------------------------------------------------------
  // A rendered date, step by step

  /** Day 19478 falls in era 5, year 23 of the era, day 61 from 1 March. */
  lemma CivilOfMay1st2023()
    ensures CivilFromDays(19478) == CivilDate(2023, 5, 1)
  {
    assert 738946 / 146097 == 5;
    assert 8461 / 1460 == 5;
    assert 8461 / 36524 == 0;
    assert 8461 / 146096 == 0;
    assert 8456 / 365 == 23;
    assert 23 / 4 == 5;
    assert 23 / 100 == 0;
    assert 307 / 153 == 2;
    assert 308 / 5 == 61;
  }

  lemma RenderYear2023()
    ensures PadStart(IntToString(2023), 4) == "2023"
  {
    assert NatToString(2) == "2" && NatToString(20) == "20" && NatToString(202) == "202" && NatToString(2023) == "2023";
  }

  lemma RenderMayFirst()
    ensures PadStart(IntToString(5), 2) == "05" && PadStart(IntToString(1), 2) == "01"
  {
    assert IntToString(5) == "5" && IntToString(1) == "1";
  }

  /** Day 19478 renders as `2023-05-01`: digits are zero-padded to 4-2-2. */
  lemma DayIsoMay1st2023()
    ensures DayIso(19478) == "2023-05-01"
  {
    CivilOfMay1st2023();
    RenderYear2023();
    RenderMayFirst();
  }

  // ---------------------------------------------------------------------------
  // Sorting days

  predicate Sorted(s: seq<Day>) {
    forall i, j :: 0 <= i < j < |s| ==> s[i] <= s[j]
  }

  predicate StrictlySorted(s: seq<Day>) {
    forall i, j :: 0 <= i < j < |s| ==> s[i] < s[j]
  }

  function Insert(x: Day, s: seq<Day>): (r: seq<Day>)
    requires Sorted(s)
    ensures Sorted(r)
    ensures multiset(r) == multiset(s) + multiset{x}
    ensures r[0] == if s == [] || x <= s[0] then x else s[0]
  {
    if s == [] || x <= s[0] then
      ConsSorted(x, s);
      [x] + s
    else
      var rest := Insert(x, s[1..]);
      assert s == [s[0]] + s[1..];
      assert multiset(s) == multiset{s[0]} + multiset(s[1..]);
      assert forall k :: 0 <= k < |rest| ==> s[0] <= rest[k] by {
        forall k | 0 <= k < |rest| ensures s[0] <= rest[k] {
          assert rest[k] in multiset(s[1..]) + multiset{x};
        }
      }
      ConsSorted(s[0], rest);
      [s[0]] + rest
  }

  lemma ConsSorted(h: Day, t: seq<Day>)
    requires Sorted(t) && forall k :: 0 <= k < |t| ==> h <= t[k]
    ensures Sorted([h] + t)
  {
  }

  /**
   * Ascending sort of day numbers, keeping duplicates: the order in which the
   * grids' comparator `new Date(a).getTime() - new Date(b).getTime()` leaves
   * `YYYY-MM-DD` strings.
   */
  function Sort(s: seq<Day>): (r: seq<Day>)
    ensures Sorted(r)
    ensures multiset(r) == multiset(s)
  {
    if s == [] then [] else
      assert s == [s[0]] + s[1..];
      Insert(s[0], Sort(s[1..]))
  }

  function InsertUnique(x: Day, s: seq<Day>): (r: seq<Day>)
    requires StrictlySorted(s)
    ensures StrictlySorted(r)
    ensures forall k :: k in r <==> k in s || k == x
  {
    if s == [] || x < s[0] then
      [x] + s
    else if x == s[0] then
      s
    else
      var rest := InsertUnique(x, s[1..]);
      assert forall k :: k in s <==> k == s[0] || k in s[1..] by { assert s == [s[0]] + s[1..]; }
      forall k | 0 <= k < |rest| ensures s[0] < rest[k] {
        assert rest[k] in rest;
        if rest[k] != x {
          var j :| 0 <= j < |s[1..]| && s[1..][j] == rest[k];
          assert s[j + 1] == rest[k];
        }
      }
      [s[0]] + rest
  }

  /**
   * `[...new Set(days)].sort()`: the distinct days in ascending order.
   * Sorting the strings in code-unit order is ascending day order because
   * they are zero-padded `YYYY-MM-DD`.
   */
  function SortedSet(s: seq<Day>): (r: seq<Day>)
    ensures StrictlySorted(r)
    ensures forall k :: k in r <==> k in s
  {
    if s == [] then [] else InsertUnique(s[0], SortedSet(s[1..]))
  }

  /** Two strictly ascending sequences with the same elements are equal. */
  lemma {:induction false} StrictlySortedUnique(a: seq<Day>, b: seq<Day>)
    requires StrictlySorted(a) && StrictlySorted(b)
    requires forall k :: k in a <==> k in b
    ensures a == b
    decreases |a|
  {
    if a != [] { assert a[0] in a; }
    if b != [] { assert b[0] in b; }
    if a != [] && b != [] {
      assert a[0] == b[0];
      forall k ensures k in a[1..] <==> k in b[1..] {
        assert k in a <==> k == a[0] || k in a[1..] by { assert a == [a[0]] + a[1..]; }
        assert k in b <==> k == b[0] || k in b[1..] by { assert b == [b[0]] + b[1..]; }
      }
      StrictlySortedUnique(a[1..], b[1..]);
      assert a == [a[0]] + a[1..] && b == [b[0]] + b[1..];
    }
  }

  /** The sorted set of days depends only on which days occur, not on order or repetition. */
  lemma SortedSetOfSameDays(a: seq<Day>, b: seq<Day>)
    requires forall k :: k in a <==> k in b
    ensures SortedSet(a) == SortedSet(b)
  {
    StrictlySortedUnique(SortedSet(a), SortedSet(b));
  }
}
