/**
 * src/lib/meetingService.ts, `getOverlappingSlots`: the same aggregation as
 * src/utils/getOverlappingSlots.ts, except that each result names its slot
 * id in a field called `slot`.
 */
module MeetingService {
  import opened Types
  import OverlappingSlots

  /** One element of the service's result array. */
  datatype SlotOverlap = SlotOverlap(slot: string, count: nat, participants: seq<string>, percentage: int)

  function Rename(e: OverlappingSlots.SlotStat): SlotOverlap {
    SlotOverlap(e.slotId, e.count, e.participants, e.percentage)
  }

  /** The utility's result, entry for entry, with the id field renamed. */
  function ServiceOverlapping(ps: seq<Participant>): (r: seq<SlotOverlap>)
    ensures |r| == |OverlappingSlots.Overlapping(ps)|
    ensures forall k :: 0 <= k < |r| ==> r[k] == Rename(OverlappingSlots.Overlapping(ps)[k])
  {
    var stats := OverlappingSlots.Overlapping(ps);
    seq(|stats|, k requires 0 <= k < |stats| => Rename(stats[k]))
  }

  /**
   * `getOverlappingSlots(meetingId)` after the participant fetch. Its body
   * is line for line the utility's, so the model runs that walk and renames
   * the id field.
   */
  method GetOverlappingSlots(participants: seq<Participant>) returns (results: seq<SlotOverlap>)
    ensures results == ServiceOverlapping(participants)
  {
    var stats := OverlappingSlots.GetOverlappingSlots(participants);
    results := seq(|stats|, k requires 0 <= k < |stats| => Rename(stats[k]));
  }

  /**
   * No participants give no entries; otherwise every `slot` is a slot
   * someone picked, every picked slot is listed once, with its count of
   * pickers, the pickers' names in participant order and the rounded
   * share of everyone, and counts never increase along the list.
   */
  lemma ServiceOverlappingCorrect(ps: seq<Participant>)
    ensures |ps| == 0 ==> ServiceOverlapping(ps) == []
    ensures var r := ServiceOverlapping(ps);
      forall j, k :: 0 <= j < k < |r| ==> r[j].slot != r[k].slot && r[j].count >= r[k].count
    ensures var r := ServiceOverlapping(ps);
      forall s :: (exists k :: 0 <= k < |r| && r[k].slot == s) <==> OverlappingSlots.Picked(ps, s)
    ensures var r := ServiceOverlapping(ps);
      forall k :: 0 <= k < |r| ==> r[k].count == OverlappingSlots.Occurrences(ps, r[k].slot)
    ensures var r := ServiceOverlapping(ps);
      forall k :: 0 <= k < |r| ==>
        && r[k].count == |r[k].participants|
        && r[k].participants == OverlappingSlots.NamesFor(ps, r[k].slot)
        && r[k].percentage == OverlappingSlots.Percentage(r[k].count, |ps|)
  {
    if |ps| > 0 {
      ServiceRankedDistinct(ps);
      ServiceListsPicked(ps);
      ServiceEntryFields(ps);
    }
  }

  lemma ServiceRankedDistinct(ps: seq<Participant>)
    requires |ps| > 0
    ensures var r := ServiceOverlapping(ps);
      forall j, k :: 0 <= j < k < |r| ==> r[j].slot != r[k].slot && r[j].count >= r[k].count
  {
    OverlappingSlots.OverlappingCorrect(ps);
  }

  lemma ServiceListsPicked(ps: seq<Participant>)
    requires |ps| > 0
    ensures var r := ServiceOverlapping(ps);
      forall s :: (exists k :: 0 <= k < |r| && r[k].slot == s) <==> OverlappingSlots.Picked(ps, s)
  {
    OverlappingSlots.OverlappingCorrect(ps);
    var stats := OverlappingSlots.Overlapping(ps);
    var r := ServiceOverlapping(ps);
    forall s ensures (exists k :: 0 <= k < |r| && r[k].slot == s) <==> OverlappingSlots.Lists(stats, s) {
      if exists k :: 0 <= k < |r| && r[k].slot == s {
        var k :| 0 <= k < |r| && r[k].slot == s;
        assert stats[k].slotId == s;
      }
      if OverlappingSlots.Lists(stats, s) {
        var k :| 0 <= k < |stats| && stats[k].slotId == s;
        assert r[k].slot == s;
      }
    }
  }

  lemma ServiceEntryFields(ps: seq<Participant>)
    requires |ps| > 0
    ensures var r := ServiceOverlapping(ps);
      forall k :: 0 <= k < |r| ==> r[k].count == OverlappingSlots.Occurrences(ps, r[k].slot)
    ensures var r := ServiceOverlapping(ps);
      forall k :: 0 <= k < |r| ==>
        && r[k].count == |r[k].participants|
        && r[k].participants == OverlappingSlots.NamesFor(ps, r[k].slot)
        && r[k].percentage == OverlappingSlots.Percentage(r[k].count, |ps|)
  {
    OverlappingSlots.OverlappingCorrect(ps);
  }
}
