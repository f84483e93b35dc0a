# when_free: the availability core in Dafny

when_free is a small scheduling web app. An organiser picks candidate days and
creates a meeting. Each participant signs up by name and marks the half-hour
slots they are free. A results page aggregates those slots, and a heat map
shows how many people are free in each cell.

This project models the app's own logic as Dafny and proves what that logic
promises:

- `GroupConsecutiveDates`: compacting selected days into runs of
  consecutive days (`src/utils/groupConsecutiveDates.ts`).
- `GenerateTimeGrid`: the disabled-slot predicate, the expansion of stored
  ranges into days, and the fixed catalogue of 48 half-hour slots
  (`src/utils/generateTimeGrid.ts`).
- `OverlappingSlots` and `MeetingService`: the per-slot aggregation with
  counts, names, rounded percentages and a stable ranking
  (`src/utils/getOverlappingSlots.ts`, and its copy inside
  `src/lib/meetingService.ts`).
- `GridLayout`, `GroupAvailabilityGrid` and `TimeGrid`: the layout both grids
  share (48 rows, `HH:MM` labels, date sort, spacer rule, slot ids), the
  heat-map cell data and colour, and the selection grid's cell test and drag
  flag.
- `MeetingStore`: the client store as a class whose actions replace fields
  (`src/store/meetingStore.ts`).
- `MeetingUtils`: the case-insensitive participant lookup
  (`src/lib/utils.ts`).
- `DatePicker`: the five-week calendar and its toggle rule.
- `TimezoneSelect`: the zone search and the picker's open/close state.
- Supporting modules: `Calendar` (day numbers, Gregorian rendering, sorting),
  `Text` (the JavaScript string operations used), `Lists` (`filter`),
  `Types` and `Wrappers`.

Representation:

- A day is an integer count of days since 1970-01-01. Zero-padded
  `YYYY-MM-DD` strings compare like those integers.
- An instant is an integer count of milliseconds. The date part before the
  `T` of an ISO-8601 `Z` string is `instant / 86400000`.
- Slot ids are opaque strings wherever the code only compares them.
- The grid's `${date}_${hour}_${minute}` id is built explicitly and proved
  injective.
- Anything that goes through the timezone database is a function parameter:
  - `localDay` is the viewer-local day of an instant;
  - `storedDay` is the day a stored `yyyy-MM-dd` string reads back as;
  - `encode` is the string a picked day is written as.
- Values the backend returns (new ids, fetched meetings and participants)
  are method parameters.

Behaviours of the code that the model keeps:

- **Run compaction.** `groupConsecutiveDates` removes repeated days itself.
  It emits the literal local strings `<day>T00:00:00` and
  `<day>T23:59:59.999` as range endpoints.
- **Sign-up collisions.** The store's `signupMeeting` compares names exactly
  and re-appends a returning user. Only `findExistParticipant` ignores case.
- **Malformed ranges.** `generateDate` does not check that a range's end
  follows its start. `eachDayOfInterval` then lists the days backwards, and
  `EachDay` models that.

## Model

| member | source | states |
|---|---|---|
| GroupConsecutiveDates.GroupConsecutiveDatesOf | src/utils/groupConsecutiveDates.ts:8-37 | The loop's output equals the rendering of the runs of the sorted distinct days. Empty input gives `[]`. |
| GroupConsecutiveDates.RunsStep | src/utils/groupConsecutiveDates.ts:19-32 | One loop step: a day one after its predecessor extends the last run; any other day opens a one-day run. |
| GroupConsecutiveDates.GroupEmpty | src/utils/groupConsecutiveDates.ts:9 | No selected days give no ranges. |
| GroupConsecutiveDates.GroupDaysCorrect | src/utils/groupConsecutiveDates.ts:19-34 | Ranges are non-empty and ascending. Each ends more than a day before the next begins, so none could merge. Every range begins and ends on selected days. A day is covered iff it was selected, and it lies in exactly one range. |
| GroupConsecutiveDates.GroupDaysCount | src/utils/groupConsecutiveDates.ts:19-34 | The number of ranges is one plus the number of adjacent sorted distinct days whose difference is not 1. |
| GroupConsecutiveDates.GroupDaysSameDays | src/utils/groupConsecutiveDates.ts:11 | The ranges depend only on which days were selected, not on their order or repetition. |
| GroupConsecutiveDates.GroupDaysDuplicate | src/utils/groupConsecutiveDates.test.ts:22-49 | Selecting an already selected day again leaves the ranges unchanged. |
| GroupConsecutiveDates.RenderedShape | src/utils/groupConsecutiveDates.ts:14-30 | Every emitted object is `<s>T00:00:00` to `<e>T23:59:59.999` for selected days with s ≤ e. |
| GroupConsecutiveDates.RunsSeparated | src/utils/groupConsecutiveDates.ts:23-31 | On ascending distinct days the runs are non-empty and separated by gaps of more than one day. |
| GroupConsecutiveDates.RunsCoverSound | src/utils/groupConsecutiveDates.ts:19-34 | A day inside some run is a day of the list. |
| GroupConsecutiveDates.RunsCoverComplete | src/utils/groupConsecutiveDates.ts:19-34 | Every day of the list lies inside some run. |
| GroupConsecutiveDates.RunsMembers | src/utils/groupConsecutiveDates.ts:24-30 | Every run starts and ends on a day of the list. |
| GroupConsecutiveDates.RunsOrdered | src/utils/groupConsecutiveDates.ts:14-30 | Every run's first day is not after its last day. |
| GroupConsecutiveDates.RunsEnds | src/utils/groupConsecutiveDates.ts:14-34 | The first run starts at the first day; the last run ends at the last day. |
| GroupConsecutiveDates.RunsCount | src/utils/groupConsecutiveDates.ts:19-34 | Each non-consecutive adjacent pair pushes one range: the number of runs is 1 + the number of breaks. |
| GroupConsecutiveDates.ExampleMay2023 | src/utils/groupConsecutiveDates.test.ts:5-20 | May 3, 1, 2, 5 and 9 of 2023 give May 1-3, May 5 and May 9. |
| GroupConsecutiveDates.ExampleMaySorted | src/utils/groupConsecutiveDates.ts:11 | The example's days, deduplicated and sorted, are in ascending order. |
| GroupConsecutiveDates.ExampleMayRuns | src/utils/groupConsecutiveDates.ts:19-34 | The scan over the example's sorted days yields the three expected runs. |
| Calendar.SortedSet | src/utils/groupConsecutiveDates.ts:11 | `[...new Set(days)].sort()` is strictly ascending and holds exactly the input's days. |
| Calendar.SortedSetOfSameDays | src/utils/groupConsecutiveDates.ts:11 | Two lists with the same days sort to the same sequence. |
| Calendar.StrictlySortedUnique | src/utils/groupConsecutiveDates.ts:11 | Two strictly ascending sequences with the same elements are equal. |
| Calendar.Sort | src/components/GroupAvailabilityGrid.tsx:81-83 | The sort of day numbers is ascending and a permutation. |
| Calendar.Insert | src/components/GroupAvailabilityGrid.tsx:81-83 | Inserting into an ascending list keeps it ascending and adds exactly the element. The new head is the smaller of the element and the old head. |
| Calendar.InsertUnique | src/utils/groupConsecutiveDates.ts:11 | Inserting into a strictly ascending list keeps it strictly ascending and holds exactly the old elements and the new one. |
| Calendar.CivilRoundTrip | src/utils/generateTimeGrid.ts:55 | Every day number has a calendar date with a month 1..12 and a day 1..31, and that date maps back to the day. |
| Calendar.CivilFromDaysInjective | src/utils/generateTimeGrid.ts:55 | Different days have different calendar dates. |
| Calendar.RenderCivilFields | src/utils/generateTimeGrid.ts:55 | A `yyyy-MM-dd` rendering is the zero-padded year followed by `-`, the month's two digits, `-` and the day's two digits. |
| Calendar.RenderCivilDigits | src/utils/generateTimeGrid.ts:55 | A date of a year 0..9999 renders as exactly ten characters: four year digits, `-`, two month digits, `-`, two day digits. |
| Calendar.YearTextInjective | src/utils/generateTimeGrid.ts:55 | Different years give different zero-padded year texts. |
| Calendar.RenderCivilInjective | src/utils/generateTimeGrid.ts:55 | Different dates with valid months and days render to different texts. |
| Calendar.DayIsoInjective | src/components/TimeGrid.tsx:124 | Different days render to different `yyyy-MM-dd` texts. |
| Calendar.DayIsoDigits | src/utils/generateTimeGrid.ts:55 | A day of a year 0..9999 renders as its year's, month's and day's digits, and that date maps back to the day. |
| Calendar.DayIsoMay1st2023 | src/utils/groupConsecutiveDates.test.ts:14 | Day 19478 renders as `2023-05-01`, zero-padded 4-2-2. |
| Calendar.DayIso | src/utils/generateTimeGrid.ts:55 | A rendered date has only digits and `-`, so it holds no `_` and no `T`, the separators of slot ids and range endpoints. |
| Calendar.DayOf | src/utils/generateTimeGrid.ts:25 | The UTC date of an instant is the day whose 24 hours contain it. |
| GenerateTimeGrid.DisabledNoRanges | src/utils/generateTimeGrid.ts:20 | With no ranges no slot is disabled. |
| GenerateTimeGrid.DisabledIff | src/utils/generateTimeGrid.ts:19-30 | A slot is disabled iff some range has it strictly before the start on the start's UTC date, or strictly after the end on the end's UTC date. |
| GenerateTimeGrid.SomeDisablesIff | src/utils/generateTimeGrid.ts:22 | `allDates.some(...)` holds iff some range disables the slot. |
| GenerateTimeGrid.StartNotDisabled | src/utils/generateTimeGrid.ts:24-27 | A slot at exactly a range's start is not disabled by that range. |
| GenerateTimeGrid.InsideSingleRangeEnabled | src/utils/generateTimeGrid.ts:22-29 | With one range, every slot from start to end inclusive is enabled. |
| GenerateTimeGrid.OtherDayEnabled | src/utils/generateTimeGrid.ts:22-29 | A slot whose UTC date is no range's start or end date is enabled. |
| GenerateTimeGrid.DisabledMonotone | src/utils/generateTimeGrid.ts:22 | Adding ranges before or after never re-enables a disabled slot. |
| GenerateTimeGrid.SingleDateLateCases | src/utils/generateTimeGrid.test.ts:70-90 | The five expectations of the `singleDateLate` case hold. |
| GenerateTimeGrid.MultipleDatesCases | src/utils/generateTimeGrid.test.ts:92-107 | The five expectations of the `multipleDates` case hold. |
| GenerateTimeGrid.TwoRangeCases | src/utils/generateTimeGrid.test.ts:116-200 | The five expectations both two-range cases share (03-29 16:00, 04-05 12:30 and 19:30, 04-06 18:30 and 19:30) hold for both. So does the 03-29 14:00 expectation, which only `nonConsecutiveDates` tests. |
| GenerateTimeGrid.TwoRangeFirstDay | src/utils/generateTimeGrid.test.ts:117-128 | 03-29 16:00 is enabled in both two-range cases. 03-29 14:00, tested for `nonConsecutiveDates` only, is disabled in both. |
| GenerateTimeGrid.TwoRangeSecondStart | src/utils/generateTimeGrid.test.ts:141-152 | 04-05 12:30 is disabled and 19:30 is not, in both two-range cases. |
| GenerateTimeGrid.TwoRangeSecondEnd | src/utils/generateTimeGrid.test.ts:153-164 | 04-06 18:30 is enabled and 19:30 disabled, in both two-range cases. |
| GenerateTimeGrid.NonConsecutiveDatesCases | src/utils/generateTimeGrid.test.ts:129-140 | 03-30 15:00 is enabled and 16:00 disabled for `nonConsecutiveDates`. |
| GenerateTimeGrid.CombineDatesCases | src/utils/generateTimeGrid.test.ts:174-188 | For `combineDates`: 03-29 03:00 is disabled, 03-30 16:30 and 04-01 15:30 are enabled, and 04-01 16:00 is disabled. |
| GenerateTimeGrid.VectorEndpointDays | src/utils/generateTimeGrid.test.ts:40-49 | The UTC dates of the two-range vectors' endpoints. |
| GenerateTimeGrid.TestDays | src/utils/generateTimeGrid.test.ts:10-49 | The day numbers of 2025-03-29, 03-30, 04-01, 04-05 and 04-06. |
| GenerateTimeGrid.DayOfIso | src/utils/generateTimeGrid.ts:25 | The UTC date of a `yyyy-MM-ddTHH:mm:00Z` instant is its own date. |
| GenerateTimeGrid.DayOfIsoBefore | src/utils/generateTimeGrid.ts:25 | The millisecond before a full hour other than midnight is on the same UTC date. |
| GenerateTimeGrid.DisabledTwo | src/utils/generateTimeGrid.ts:22-29 | With two ranges, `some` asks each of the two. |
| GenerateTimeGrid.GenerateDate | src/utils/generateTimeGrid.ts:38-56 | The loop's output is each range's local days, in input order, concatenated without deduplication and rendered as `yyyy-MM-dd`. No ranges give `[]`. |
| GenerateTimeGrid.EachDayMembers | src/utils/generateTimeGrid.ts:44-50 | A range yields exactly the local days between its endpoints' local days. |
| GenerateTimeGrid.EachDayOrder | src/utils/generateTimeGrid.ts:44-50 | A forward range lists its days ascending; a backward one lists them descending. |
| GenerateTimeGrid.DayInterval | src/utils/generateTimeGrid.ts:44-50 | `a..b` has b-a+1 days `a+i`, and none when a > b. |
| GenerateTimeGrid.Reverse | src/utils/generateTimeGrid.ts:44-50 | The backward listing is the forward one read from the end. |
| GenerateTimeGrid.ExpandAppend | src/utils/generateTimeGrid.ts:43-53 | Expanding a concatenation of range lists concatenates the expansions. |
| GenerateTimeGrid.ExpandMembers | src/utils/generateTimeGrid.ts:43-53 | A day is listed iff some range covers it. |
| GenerateTimeGrid.ConcatAppend | src/utils/generateTimeGrid.ts:52 | The repeated spread `[...dateList, ...eachDays]` distributes over concatenation. |
| GenerateTimeGrid.ConcatMembers | src/utils/generateTimeGrid.ts:52 | A day is in the spread result iff it is in one of the spread lists. |
| GenerateTimeGrid.CombineDatesDays | src/utils/generateTimeGrid.test.ts:201-208 | In UTC, `combineDates` lists 03-29..04-01, then 04-05 and 04-06. |
| GenerateTimeGrid.FirstRangeDays | src/utils/generateTimeGrid.test.ts:41-44 | The first `combineDates` range covers 03-29..04-01 in UTC. |
| GenerateTimeGrid.SecondRangeDays | src/utils/generateTimeGrid.test.ts:45-48 | The second `combineDates` range covers 04-05 and 04-06 in UTC. |
| GenerateTimeGrid.GenerateTimeSlots | src/utils/generateTimeGrid.ts:58-70 | The nested loop builds 48 entries; entry i is hour i/2 and minute "00" or "30" as i is even or odd. |
| GenerateTimeGrid.CatalogEntryText | src/utils/generateTimeGrid.ts:63-64 | Every catalogue hour is two digits, and every minute is "00" or "30". |
| GenerateTimeGrid.Pad2Digits | src/utils/generateTimeGrid.ts:63-64 | `n.toString().padStart(2, "0")` for n < 100 is n's tens digit, then its units digit. |
| GenerateTimeGrid.TimeSlotsDistinct | src/utils/generateTimeGrid.ts:58-70 | The catalogue never lists a slot twice. |
| OverlappingSlots.GetOverlappingSlots | src/utils/getOverlappingSlots.ts:17-50 | The loops' output is the ranked tally of all visits. No participants give `[]`. |
| OverlappingSlots.CountParticipant | src/utils/getOverlappingSlots.ts:26-34 | The outer callback for one participant adds exactly that participant's visits to the dictionary. Key order, counts and names all track the visits. |
| OverlappingSlots.TracksStep | src/utils/getOverlappingSlots.ts:28-32 | Creating the entry when absent, then adding 1 and pushing the name, keeps the dictionary in step with the visits. |
| OverlappingSlots.TracksEntries | src/utils/getOverlappingSlots.ts:37-42 | `Object.entries(...).map(...)` over the tracked dictionary equals the tally in key order. |
| OverlappingSlots.Percentage | src/utils/getOverlappingSlots.ts:41 | `Math.round(count / total * 100)` is the integer r with r ≤ 100·count/total + ½ < r + 1 (half up). |
| OverlappingSlots.PercentageBounds | src/utils/getOverlappingSlots.ts:41 | For count ≤ total the percentage lies in 0..100. It is ≥ 1 iff 200·count ≥ total, and it is 100 when count = total. |
| OverlappingSlots.OverlappingEmpty | src/utils/getOverlappingSlots.ts:17-19 | No participants give an empty result. |
| OverlappingSlots.OverlappingCorrect | src/utils/getOverlappingSlots.ts:21-50 | The result is ranked and lists each slot once. It lists exactly the slots someone picked. Each count equals the slot's occurrences across all lists and the number of names. Names are in participant order, and each percentage is the rounded share of everyone. |
| OverlappingSlots.EntryFields | src/utils/getOverlappingSlots.ts:26-41 | For every entry: count = occurrences = number of names; names are the pickers in order; percentage = Percentage(count, total). |
| OverlappingSlots.ListsIffPicked | src/utils/getOverlappingSlots.ts:21-42 | A slot is listed iff some participant picked it. |
| OverlappingSlots.RankedEntries | src/utils/getOverlappingSlots.ts:37-50 | Every ranked entry is the tally entry of its own slot, and that slot is a dictionary key. |
| OverlappingSlots.OverlappingStable | src/utils/getOverlappingSlots.ts:45-50 | Entries tied on count and percentage keep their first-seen order. |
| OverlappingSlots.OverlappingPercentRange | src/utils/getOverlappingSlots.ts:26-41 | With duplicate-free lists every count is 1..total and every percentage 0..100. A percentage is ≥ 1 iff 200·count ≥ total, so it always is ≥ 1 with at most 200 participants. |
| OverlappingSlots.EntryBounds | src/utils/getOverlappingSlots.ts:26-41 | The bounds of `OverlappingPercentRange` for one entry. |
| OverlappingSlots.OccurrencesAtMost | src/utils/getOverlappingSlots.ts:26-34 | With duplicate-free lists a slot occurs at most once per participant. |
| OverlappingSlots.SortByRank | src/utils/getOverlappingSlots.ts:45-50 | The sort is a permutation, ordered by count descending, then percentage descending. |
| OverlappingSlots.InsertKeepsRanked | src/utils/getOverlappingSlots.ts:45-50 | Placing an entry before the first entry that does not outrank it keeps the list ranked. |
| OverlappingSlots.InsertRanked | src/utils/getOverlappingSlots.ts:45-50 | Insertion adds exactly the one entry. |
| OverlappingSlots.SortTier | src/utils/getOverlappingSlots.ts:45-50 | The sort is stable: the entries of each (count, percentage) tier keep their order. |
| OverlappingSlots.InsertTier | src/utils/getOverlappingSlots.ts:45-50 | Insertion puts the new entry first within its tier and leaves other tiers alone. |
| OverlappingSlots.SortDistinct | src/utils/getOverlappingSlots.ts:45-50 | Sorting keeps slot ids distinct. |
| OverlappingSlots.InsertDistinct | src/utils/getOverlappingSlots.ts:45-50 | Inserting an entry with a new slot id keeps slot ids distinct. |
| OverlappingSlots.KeysIff | src/utils/getOverlappingSlots.ts:28-30 | A slot is a dictionary key iff it was visited at least once. |
| OverlappingSlots.KeysDistinct | src/utils/getOverlappingSlots.ts:28-30 | Each key appears once in the key order. |
| OverlappingSlots.CountIsNames | src/utils/getOverlappingSlots.ts:31-32 | `count` always equals `participants.length`. |
| OverlappingSlots.CountAll | src/utils/getOverlappingSlots.ts:26-34 | The count and names of a slot depend on the participants' lists alone: occurrences, and names per occurrence in participant order. |
| OverlappingSlots.CountAppend | src/utils/getOverlappingSlots.ts:26-34 | Counting over two visit sequences in a row adds the counts and concatenates the names. |
| OverlappingSlots.CountVisitsOf | src/utils/getOverlappingSlots.ts:27-33 | One participant's walk counts a slot as often as their list holds it, and adds their name that many times. |
| OverlappingSlots.OccurrencesIff | src/utils/getOverlappingSlots.ts:26-34 | A slot occurs at least once iff some participant's list holds it. |
| OverlappingSlots.TwoParticipantsExample | src/utils/getOverlappingSlots.ts:21-50 | Participants {a, b} and {a} give a (2 people, 100%) before b (1 person, 50%). |
| OverlappingSlots.RepeatedSlotExample | src/utils/getOverlappingSlots.ts:26-41 | A list that repeats a slot counts it twice, so one participant gets 200%. |
| MeetingService.GetOverlappingSlots | src/lib/meetingService.ts:169-203 | The service's aggregation is the utility's, with the id field named `slot`. |
| MeetingService.ServiceOverlapping | src/lib/meetingService.ts:190-195 | Entry k of the result is entry k of the utility's ranked result, with `slotId` renamed to `slot`. |
| MeetingService.ServiceOverlappingCorrect | src/lib/meetingService.ts:169-203 | No participants give `[]`. Slots are distinct and counts never increase along the list. The listed slots are exactly the picked ones. Each count is the slot's number of occurrences and the length of its name list. The names are the pickers' in participant order, and the percentage is the rounded share of everyone. |
| GridLayout.TimeSlots | src/components/TimeGrid.tsx:20-25 | The nested loop gives 48 rows; row i is hour i/2 and minute 0 or 30. |
| GridLayout.RowsAreHalfHours | src/components/GroupAvailabilityGrid.tsx:19-24 | Rows run 00:00..23:30; row i begins 30·i minutes after midnight. |
| GridLayout.RowAt | src/components/TimeGrid.tsx:20-25 | Row 2h+k is hour h at minute 0 or 30, as k is 0 or 1. |
| GridLayout.FormatTime | src/components/GroupAvailabilityGrid.tsx:27-31 | `formatTime` is two hour digits, `:`, then two minute digits. |
| GridLayout.FormatTimeInjective | src/components/TimeGrid.tsx:28-32 | Different times get different labels. |
| GridLayout.RowLabel | src/components/TimeGrid.tsx:118-119 | Full hours are labelled `HH:00`; half hours are blank. |
| GridLayout.RowLabels | src/components/TimeGrid.tsx:115-119 | Every even row shows its hour; every odd row is blank. |
| GridLayout.SortedDates | src/components/GroupAvailabilityGrid.tsx:81-83 | The sorted copy is ascending and a permutation of the dates. |
| GridLayout.SpacersAreBreaks | src/components/TimeGrid.tsx:128-130 | The spacer count among the first n columns is the number of non-consecutive adjacent pairs. |
| GridLayout.SpacersSeparateRuns | src/components/GroupAvailabilityGrid.tsx:96-97 | There is one spacer fewer than there are runs of consecutive dates. |
| GridLayout.CellSlotIdInjective | src/components/TimeGrid.tsx:124 | Two cells share a slot id only when they share date, hour and minute. |
| GridLayout.SlotIdParts | src/components/GroupAvailabilityGrid.tsx:48 | `${date}_${hour}_${minute}` with an underscore-free date determines all three parts. |
| GridLayout.SplitAtUnderscore | src/components/TimeGrid.tsx:124 | A join at `_` whose left parts have no `_` determines both parts. |
| GridLayout.SplitThree | src/components/TimeGrid.tsx:124 | A three-part join at `_` whose first two parts have no `_` determines all three parts. |
| GroupAvailabilityGrid.GetAvailabilityData | src/components/GroupAvailabilityGrid.tsx:47-69 | The loop lists the names of the participants who hold the cell id, and counts them. Percentage is 0 with nobody, else the rounded share. |
| GroupAvailabilityGrid.AvailableNamesCorrect | src/components/GroupAvailabilityGrid.tsx:52-57 | Each participant is counted at most once. A name is listed iff a participant with that name holds the slot. |
| GroupAvailabilityGrid.CellPercentageRange | src/components/GroupAvailabilityGrid.tsx:59-62 | A cell's percentage lies in 0..100, and is 0 when nobody is available. |
| GroupAvailabilityGrid.NamesForAreAvailable | src/components/GroupAvailabilityGrid.tsx:52-57 | With duplicate-free lists, the cell names equal the aggregation's names for the same id. |
| GroupAvailabilityGrid.CellAgreesWithRanking | src/components/GroupAvailabilityGrid.tsx:47-69 | With duplicate-free lists, a cell and the ranked entry for its id agree on count, names and percentage. |
| GroupAvailabilityGrid.HeatLegend | src/components/GroupAvailabilityGrid.tsx:72-78 | On 0..100 `getHeatColor` gives the legend's bands: 0, 1-25, 26-50, 51-75, 76-100. |
| GroupAvailabilityGrid.HeatMonotone | src/components/GroupAvailabilityGrid.tsx:72-78 | A higher percentage never gets a lighter colour. |
| GroupAvailabilityGrid.WhiteIffBelowHalfPercent | src/components/GroupAvailabilityGrid.tsx:73 | A cell is white iff its count is below half a percent of everyone. |
| TimeGrid.ToggleFlipsOneCell | src/components/TimeGrid.tsx:124-125 | Toggling a cell's id in the store flips that cell's `isSelected`. Every cell with another date, hour or minute keeps its state. |
| TimeGrid.DragState.constructor | src/components/TimeGrid.tsx:48 | Dragging starts off. |
| TimeGrid.DragState.MouseDown | src/components/TimeGrid.tsx:65-68 | Mouse-down sets `isDragging` and forwards the slot id. |
| TimeGrid.DragState.GlobalMouseUp | src/components/TimeGrid.tsx:70-72 | Any window mouse-up clears `isDragging`. |
| MeetingStore.Store.constructor | src/store/meetingStore.ts:33-36 | The initial state: an all-null meeting, no participants, no user, no slots. |
| MeetingStore.Store.SetMeeting | src/store/meetingStore.ts:38-41 | The meeting becomes the spread of the patch over it; nothing else changes. |
| MeetingStore.ApplyPatchFields | src/store/meetingStore.ts:38-41 | Supplied fields take the supplied value; all other fields stay. |
| MeetingStore.ApplyPatchCompose | src/store/meetingStore.ts:38-41 | Two `setMeeting`s equal one with the merged patch, the later one winning. |
| MeetingStore.ApplyPatchIdempotent | src/store/meetingStore.ts:38-41 | Repeating a patch changes nothing more; the empty patch changes nothing. |
| MeetingStore.Store.CreateMeeting | src/store/meetingStore.ts:43-66 | The meeting is the inputs plus the returned id. Participants are `[organizer]` and the organizer is the current user. The returned value is the meeting id, and `selectedSlots` stays. |
| MeetingStore.Store.FetchMeeting | src/store/meetingStore.ts:68-77 | Meeting and participants become the fetched values; the user and slots stay. |
| MeetingStore.Store.SignupMeeting | src/store/meetingStore.ts:79-108 | The current user is the first exact-name match, else a new participant. The user is appended to the participants, and `selectedSlots` becomes the user's slot list. |
| MeetingStore.SignupUser | src/store/meetingStore.ts:82-95 | The user always has the name. A matching participant is reused; otherwise the user is new, with the service's id and no slots. |
| MeetingStore.Appended | src/store/meetingStore.ts:100-102 | The list grows by exactly the user at the end; a null list becomes `[user]`. |
| MeetingStore.SignupIsCaseSensitive | src/store/meetingStore.ts:82-84 | "alice" does not find "Alice" at sign-up, while `findExistParticipant` does. |
| MeetingStore.SignupDuplicatesReturningUser | src/store/meetingStore.ts:97-104 | Signing up a returning user appends a second copy of them. |
| MeetingStore.Store.UpdateAvailability | src/store/meetingStore.ts:110-122 | Participants become the slot replacement of the old list; nothing else changes. |
| MeetingStore.ReplaceSlotsEffect | src/store/meetingStore.ts:113-118 | Every participant with the name gets the new slots; all others are untouched. Ids, names and length stay, and a null list becomes `[]`. |
| MeetingStore.ReplaceSlotsIdempotent | src/store/meetingStore.ts:113-118 | Submitting the same slots twice equals submitting them once. |
| MeetingStore.Store.ToggleSlot | src/store/meetingStore.ts:124-135 | With a slot list, it becomes the toggled list and `ok` is true. With a new user's undefined list the code throws before `set`: nothing changes and `ok` is false. Other fields stay. |
| MeetingStore.WithoutSlot | src/store/meetingStore.ts:129 | The result lacks the id, keeps every other listed id, and adds nothing. |
| MeetingStore.RemoveKeepsOthers | src/store/meetingStore.ts:128-129 | Removal drops every occurrence of the id. Every other id keeps its count, and order is kept because removal commutes with concatenation. |
| MeetingStore.AddAppends | src/store/meetingStore.ts:130-131 | Adding appends the id once at the end, even when it is already listed. |
| MeetingStore.AddThenRemove | src/store/meetingStore.ts:124-135 | Adding an absent id and removing it again restores the list. |
| MeetingStore.RemoveIdempotent | src/store/meetingStore.ts:128-129 | Removing twice equals removing once. |
| Lists.Filter | src/store/meetingStore.ts:129 | `filter` keeps only elements the callback accepts, drawn from the list, and keeps every accepted one. |
| Lists.FilterAppend | src/components/TimezoneSelect.tsx:21-23 | `filter` commutes with concatenation, so kept elements stay in order. |
| Lists.FilterCounts | src/components/DatePicker.tsx:58-61 | Every kept value keeps all its occurrences; every dropped value keeps none. |
| Lists.FilterKeepsAll | src/components/TimezoneSelect.tsx:21-23 | A list whose every element is accepted comes back unchanged. |
| Lists.FilterAgree | src/components/TimezoneSelect.tsx:21-23 | Callbacks that agree everywhere filter alike. |
| Lists.FilterIdempotent | src/store/meetingStore.ts:129 | Filtering twice equals filtering once. |
| MeetingUtils.FirstIndex | src/lib/utils.ts:19-21 | `find` stops at the first match: there is no match before it. |
| MeetingUtils.Find | src/lib/utils.ts:19-21 | `undefined` iff nothing matches; otherwise the element at the first matching index. |
| MeetingUtils.FindAgree | src/lib/utils.ts:19-21 | Callbacks that agree on every participant find the same one. |
| MeetingUtils.FindExistParticipant | src/lib/utils.ts:17-23 | Absent participants give null. A result is a participant of the meeting whose lower-cased name equals the lower-cased query. |
| MeetingUtils.FindExistParticipantCorrect | src/lib/utils.ts:17-23 | Null iff no name matches up to case. Otherwise the result is the first participant that matches. |
| MeetingUtils.QueryCaseInvariant | src/lib/utils.ts:20 | Queries equal up to case find the same participant. |
| MeetingUtils.AliceExample | src/lib/utils.ts:20 | "alice" finds the participant "Alice". |
| MeetingUtils.FirstIndexAgree | src/lib/utils.ts:19-21 | Callbacks that agree everywhere stop at the same index. |
| Text.ToLower | src/lib/utils.ts:20 | The result keeps the length and has no capital A-Z left. Each capital becomes its small letter (code + 32), and every other character is kept. |
| Text.LowerChar | src/lib/utils.ts:20 | Upper-case ASCII letters become lower-case letters; every other character is unchanged. |
| Text.ToLowerIdempotent | src/components/TimezoneSelect.tsx:22 | Lower-casing twice equals lower-casing once. |
| Text.ContainsIff | src/components/TimezoneSelect.tsx:22 | `includes` holds iff the needle occurs at some position. |
| Text.TrimEmptyIff | src/components/TimezoneSelect.tsx:18 | `trim()` gives "" iff every character is white space. |
| Text.TrimStart | src/components/TimezoneSelect.tsx:18 | Leading white space is dropped; the rest is a suffix, starting with a non-blank character. |
| Text.TrimEnd | src/components/TimezoneSelect.tsx:18 | Trailing white space is dropped; the rest is a prefix, empty iff the text is all white space. |
| Text.NatToStringInjective | src/components/TimeGrid.tsx:124 | Different numbers never render to the same digits. |
| Text.NatToString | src/components/TimeGrid.tsx:124 | `${n}` is a non-empty digit string, one character long iff n < 10. |
| Text.PadStart | src/utils/generateTimeGrid.ts:63-64 | `padStart(w, "0")` left-pads with zeros to width w and never truncates. |
| Text.TwoDigits | src/components/TimeGrid.tsx:28-32 | A number below 100 padded to two characters is its tens digit, then its units digit. |
| DatePicker.CalendarDays | src/components/DatePicker.tsx:31-34 | The calendar has 35 days. |
| DatePicker.CalendarShape | src/components/DatePicker.tsx:31-34 | It starts on the Sunday of this week, runs over consecutive days, each column on one weekday, and contains today. |
| DatePicker.WeekStart | src/components/DatePicker.tsx:31 | `startOfWeek(today)` is a Sunday, at most six days before today. |
| DatePicker.Weekday | src/components/DatePicker.tsx:31 | Days of the week are numbered 0..6, Sunday first. |
| DatePicker.WeekdayStep | src/components/DatePicker.tsx:31-34 | i days after a Sunday is weekday i mod 7. |
| DatePicker.IsPastIff | src/components/DatePicker.tsx:42 | A day is before the end of today iff it is today or earlier. |
| DatePicker.CalendarPastPrefix | src/components/DatePicker.tsx:96-97 | Given the cells' days in the chosen zone, the disabled buttons are exactly the calendar's first days, up to and including today. |
| DatePicker.ToggleDate | src/components/DatePicker.tsx:37-67 | `onChange` is not called exactly when the day is today or earlier. |
| DatePicker.ToggleSelectedRemoves | src/components/DatePicker.tsx:50-62 | Toggling a selected future day leaves no entry on that day. Every other entry keeps its count, and order is kept. |
| DatePicker.ToggleUnselectedAppends | src/components/DatePicker.tsx:63-66 | Toggling an unselected future day appends exactly the day's string. |
| DatePicker.ToggleFlipsButton | src/components/DatePicker.tsx:100-106 | The render test is the same predicate as the toggle's. If the written string reads back as the same day, a toggle flips the button. If it reads back as another day, a newly picked day stays unselected. |
| TimezoneSelect.BlankShowsAll | src/components/TimezoneSelect.tsx:18-19 | A term of white space only shows every zone in its order. |
| TimezoneSelect.SearchSoundComplete | src/components/TimezoneSelect.tsx:21-24 | Any other term shows exactly the matching zones of the list, keeping order and multiplicity. |
| TimezoneSelect.SearchIgnoresCase | src/components/TimezoneSelect.tsx:22 | Lower-casing the term does not change the result. |
| TimezoneSelect.LowerKeepsWhitespace | src/components/TimezoneSelect.tsx:18-22 | A term is blank iff its lower-cased form is. |
| TimezoneSelect.ZonePicker.constructor | src/components/TimezoneSelect.tsx:10-19 | On mount the term is empty, the list is closed and every zone is shown. |
| TimezoneSelect.ZonePicker.SetSearchTerm | src/components/TimezoneSelect.tsx:17-26 | Typing sets the term, and the effect shows the filter of the list for it. |
| TimezoneSelect.ZonePicker.ToggleOpen | src/components/TimezoneSelect.tsx:32 | Clicking the field flips `isOpen` and keeps the rest. |
| TimezoneSelect.ZonePicker.Choose | src/components/TimezoneSelect.tsx:61-64 | Choosing hands the zone to `onChange` and closes the list. |

## Left out

- **Firestore I/O.** The service functions of `src/lib/meetingService.ts`, the participant fetch of `src/utils/getOverlappingSlots.ts:15`, and the awaited service calls of the store are left out. Their results (participants, meetings, new ids) are parameters. Their failures, which the code rethrows, are not modelled.
- **Timezones.** `eachDayOfInterval(..., {in: tz(...)})`, `utcToZonedTime`, `zonedTimeToUtc`, `startOfDay` and `new Date()` depend on the timezone database and the clock. They are the parameters `localDay`, `storedDay`, `encode` and `today`, so DST is not modelled. `src/utils/tzUtils.ts` is not part of this model.
- **DatePicker's stored-day encoding.** Writing a day as the UTC date of its local midnight can give the previous day for zones east of UTC. That conversion stays behind `encode`, and `ToggleFlipsButton` states what happens either way.
- **The active test at `src/utils/generateTimeGrid.test.ts:53-60`.** It calls `disabledTimeSlot` with three arguments and `Date` fields; the modelled two-argument code takes neither.
  - The commented test cases are modelled instead, with `Z` for `z`.
  - Their `MM-dd` expectations for `generateDate` are replaced by what the code emits, which is `yyyy-MM-dd` without deduplication.
- **The `generateDate` doc comment** (`src/utils/generateTimeGrid.ts:32-37`). It promises unique `MM-dd` strings; the code is modelled instead.
- **Date strings.**
  - Dates are day numbers, and instants are milliseconds.
  - Parsing of invalid date strings is not modelled; `new Date("bad")` would be `NaN`.
  - Comparing a `Z` string with `isBefore` is modelled as comparing instants.
- **Output sorts and sorting.**
  - `GroupConsecutiveDates.GroupConsecutiveDatesOf` sorts day numbers. That matches the code's string sort only for four-digit years, since the strings are zero-padded.
  - `GridLayout.SortedDates` is an ascending sort of day numbers. The comparator is stable, and the order among equal dates is not observable here.
- GroupConsecutiveDates.Consecutive: counts the difference of day numbers. The code's `differenceInDays` (`src/utils/groupConsecutiveDates.ts:20-23`) compares the parsed UTC midnights by local clock fields. Across a DST fall-back it gives 0 for adjacent days. For example, "2024-11-03" and "2024-11-04" in America/New_York give two ranges, where the model gives one. The timezone database is not modelled.
- DatePicker.CalendarPastPrefix: takes each cell's day and `today` as days of the chosen zone. The cell dates are already shifted into that zone (`src/components/DatePicker.tsx:26-33`). The code applies `utcToZonedTime` to them a second time (lines 39 and 96). With a chosen zone west of the browser's, that second shift moves a cell to the previous day. Tomorrow then shows disabled too, and a click on a cell toggles the day before. Neither this lemma nor `DatePicker.ToggleDate`'s `day` parameter models that shift.
- **Null input.** `groupConsecutiveDates(null)` returns `[]` through `?.`. The model's input is a list, so its empty case stands for both.
- **String operations.** `Text.ToLower` maps only A-Z: `toLowerCase` of non-ASCII letters is not modelled. `Math.round` on floating point is modelled as exact half-up rounding of `100 * count / total`.
- **`Object.entries` key order.** JavaScript lists integer-like keys first, in numeric order, whatever the insertion order. Slot ids are never integer-like (they contain `_`, `-` or `T`), so insertion order is modelled.
- **OverlappingSlots.OverlappingPercentRange: weaker than "1..100 for duplicate-free lists".** That claim is false above 200 participants: one person out of 201 rounds to 0%. The lemma proves 0..100, and ≥ 1 exactly when 200·count ≥ total.
- **OverlappingSlots.RepeatedSlotExample.** Nothing in the code bounds a percentage when a list repeats a slot. `toggleSlot` appends without deduplication, so a repeated id gives 200%.
- **MeetingStore.Store.SignupMeeting: no stale state.** The code reads the participants before awaiting the service and writes from the state after it. Without concurrency both are the same list in the model.
- **The ZonePicker mount.** The mount effect that shows every zone is folded into `TimezoneSelect.ZonePicker.constructor`. The zone list itself, from `Intl.supportedValuesOf`, is a constructor parameter.
- **DOM and display.**
  - These are not modelled: the `select-none` body class (`src/components/TimeGrid.tsx:50-62`), the mouse-up listener registration (lines 74-79), and `onMouseEnter`/`onSlotToggle` forwarding.
  - Also left out: date-fns display formats (`EEE, MMM d`, `MMMM yyyy`), legends, tooltips and month grouping.
- **Pages, results grouper and helpers.** Pages and pure UI components are left out: `src/app`, `SignupCard`, `AvailabilityTabs` and `Fallback`. So are the results page's window grouper, and `cn` in `src/lib/utils.ts`, a class-name wrapper.
