/**
 * src/components/GroupAvailabilityGrid.tsx: the heat map of the results
 * page. Each cell counts the participants whose list holds the cell's slot
 * id, takes the rounded share of all participants and maps it to one of
 * five colours. The rows, labels, date order and spacers are `GridLayout`.
 */
module GroupAvailabilityGrid {
  import opened Wrappers
  import opened Types
  import opened Calendar
  import opened GridLayout
  import OverlappingSlots

  /** What `getAvailabilityData` returns for one cell. */
  datatype Availability = Availability(count: nat, percentage: int, availableParticipants: seq<string>)

  /** `participant.availableSlots?.includes(slotId)`: an absent list holds nothing. */
  predicate HasSlot(p: Participant, slotId: string) {
    p.availableSlots.Some? && slotId in p.availableSlots.value
  }

  /**
   * The names of the participants holding `slotId`, in participant order:
   * each holder adds their name once, and two holders with the same name
   * are both listed.
   */
  function AvailableNames(ps: seq<Participant>, slotId: string): seq<string> {
    if |ps| == 0 then []
    else AvailableNames(ps[..|ps| - 1], slotId) + (if HasSlot(ps[|ps| - 1], slotId) then [ps[|ps| - 1].name] else [])
  }

  /** One more participant appends their name exactly when they hold the slot. */
  lemma AvailableNamesStep(ps: seq<Participant>, i: nat, slotId: string)
    requires i < |ps|
    ensures AvailableNames(ps[..i + 1], slotId)
      == AvailableNames(ps[..i], slotId) + (if HasSlot(ps[i], slotId) then [ps[i].name] else [])
  {
    assert ps[..i + 1][..i] == ps[..i];
  }

  /** The cell percentage: 0 without participants, else the rounded share. */
  function Share(count: nat, total: nat): (r: int)
    ensures total == 0 ==> r == 0
    ensures total > 0 ==> r == OverlappingSlots.Percentage(count, total)
  {
    if total > 0 then OverlappingSlots.Percentage(count, total) else 0
  }

  /** `getAvailabilityData(date, hour, minute)`. */
  method GetAvailabilityData(participants: seq<Participant>, date: Day, hour: nat, minute: nat) returns (data: Availability)
    ensures var slotId := CellSlotId(date, hour, minute);
      data.availableParticipants == AvailableNames(participants, slotId)
      && data.count == |data.availableParticipants|
      && data.percentage == Share(data.count, |participants|)
  {
    var slotId := CellSlotId(date, hour, minute);
    var count := 0;
    var availableParticipants: seq<string> := [];
    for i := 0 to |participants|
      invariant availableParticipants == AvailableNames(participants[..i], slotId)
      invariant count == |availableParticipants|
    {
      AvailableNamesStep(participants, i, slotId);
      var participant := participants[i];
      if participant.availableSlots.Some? && slotId in participant.availableSlots.value {
        count := count + 1;
        availableParticipants := availableParticipants + [participant.name];
      }
    }
    assert participants[..|participants|] == participants;
    var percentage := if |participants| > 0 then OverlappingSlots.Percentage(count, |participants|) else 0;
    data := Availability(count, percentage, availableParticipants);
  }

  /** Each participant is counted at most once, and exactly the holders' names are listed. */
  lemma {:induction false} AvailableNamesCorrect(ps: seq<Participant>, slotId: string)
    ensures |AvailableNames(ps, slotId)| <= |ps|
    ensures forall n :: n in AvailableNames(ps, slotId) <==> exists q :: 0 <= q < |ps| && HasSlot(ps[q], slotId) && ps[q].name == n
    decreases |ps|
  {
    if |ps| > 0 {
      var init := ps[..|ps| - 1];
      AvailableNamesCorrect(init, slotId);
      forall n ensures n in AvailableNames(ps, slotId) <==> exists q :: 0 <= q < |ps| && HasSlot(ps[q], slotId) && ps[q].name == n {
        if exists q :: 0 <= q < |ps| && HasSlot(ps[q], slotId) && ps[q].name == n {
          var q :| 0 <= q < |ps| && HasSlot(ps[q], slotId) && ps[q].name == n;
          if q < |init| {
            assert init[q] == ps[q];
          }
        }
        if exists q :: 0 <= q < |init| && HasSlot(init[q], slotId) && init[q].name == n {
          var q :| 0 <= q < |init| && HasSlot(init[q], slotId) && init[q].name == n;
          assert ps[q] == init[q];
        }
      }
    }
  }

  /** Every cell percentage lies in 0..100, and is 0 when nobody is available. */
  lemma CellPercentageRange(ps: seq<Participant>, slotId: string)
    ensures var c := |AvailableNames(ps, slotId)|;
      0 <= Share(c, |ps|) <= 100 && (c == 0 ==> Share(c, |ps|) == 0)
  {
    AvailableNamesCorrect(ps, slotId);
    var c := |AvailableNames(ps, slotId)|;
    if |ps| > 0 {
      OverlappingSlots.PercentageBounds(c, |ps|);
    }
  }

  lemma {:induction false} NamesForAreAvailable(ps: seq<Participant>, slotId: string)
    requires forall q :: 0 <= q < |ps| ==> OverlappingSlots.NoDuplicates(SlotsOf(ps[q]))
    ensures OverlappingSlots.NamesFor(ps, slotId) == AvailableNames(ps, slotId)
    decreases |ps|
  {
    if |ps| > 0 {
      var last := ps[|ps| - 1];
      NamesForAreAvailable(ps[..|ps| - 1], slotId);
      OverlappingSlots.NoDuplicatesOnce(SlotsOf(last), slotId);
      assert slotId in SlotsOf(last) <==> HasSlot(last, slotId);
      assert slotId in SlotsOf(last) <==> multiset(SlotsOf(last))[slotId] > 0;
      if HasSlot(last, slotId) {
        assert OverlappingSlots.Repeat(last.name, 1) == [last.name];
      }
    }
  }

  /**
   * When nobody lists a slot twice, a heat-map cell and the ranked list
   * agree on the slot: the same count, the same names and the same percentage.
   */
  lemma CellAgreesWithRanking(ps: seq<Participant>, k: nat)
    requires |ps| > 0 && k < |OverlappingSlots.Overlapping(ps)|
    requires forall q :: 0 <= q < |ps| ==> OverlappingSlots.NoDuplicates(SlotsOf(ps[q]))
    ensures var e := OverlappingSlots.Overlapping(ps)[k];
      && e.participants == AvailableNames(ps, e.slotId)
      && e.count == |AvailableNames(ps, e.slotId)|
      && e.percentage == Share(e.count, |ps|)
  {
    var e := OverlappingSlots.Overlapping(ps)[k];
    OverlappingSlots.EntryFields(ps, k);
    NamesForAreAvailable(ps, e.slotId);
  }

  // ---------------------------------------------------------------------------
  // getHeatColor

  datatype HeatColor = White | Blue100 | Blue300 | Blue500 | Blue700

  /** The colour's rank, lightest first. */
  function Level(c: HeatColor): nat {
    match c
    case White => 0
    case Blue100 => 1
    case Blue300 => 2
    case Blue500 => 3
    case Blue700 => 4
  }

  function GetHeatColor(percentage: int): HeatColor {
    if percentage == 0 then White
    else if percentage <= 25 then Blue100
    else if percentage <= 50 then Blue300
    else if percentage <= 75 then Blue500
    else Blue700
  }

  /** The legend: 0%, 1-25%, 26-50%, 51-75%, 76-100%, one band per colour. */
  lemma HeatLegend(percentage: int)
    requires 0 <= percentage <= 100
    ensures Level(GetHeatColor(percentage)) == (percentage + 24) / 25
  {
  }

  /** A higher percentage never gets a lighter colour. */
  lemma HeatMonotone(p: int, q: int)
    requires 0 <= p <= q
    ensures Level(GetHeatColor(p)) <= Level(GetHeatColor(q))
  {
  }

  /**
   * A cell is white exactly when its rounded share is 0, that is when fewer
   * than half a percent of the participants picked it (`200 * c < |ps|`).
   */
  lemma WhiteIffBelowHalfPercent(ps: seq<Participant>, slotId: string)
    requires |ps| > 0
    ensures var c := |AvailableNames(ps, slotId)|;
      GetHeatColor(Share(c, |ps|)) == White <==> 200 * c < |ps|
  {
    AvailableNamesCorrect(ps, slotId);
    OverlappingSlots.PercentageBounds(|AvailableNames(ps, slotId)|, |ps|);
  }
}
