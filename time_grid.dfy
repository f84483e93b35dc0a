/**
 * src/components/TimeGrid.tsx: the selection grid of the meeting page. The
 * rows, labels, date order, spacers and slot ids are `GridLayout`; this
 * module adds the per-cell selection test and the drag flag.
 */
module TimeGrid {
  import opened Calendar
  import opened GridLayout
  import MeetingStore

  /** `selectedSlots.includes(slotId)` for the cell's slot id. */
  predicate IsSelected(selectedSlots: seq<string>, date: Day, hour: nat, minute: nat) {
    CellSlotId(date, hour, minute) in selectedSlots
  }

  /**
   * Toggling a cell's slot id in the store flips that one cell: removal
   * deselects it, adding selects it, and every cell with a different date,
   * hour or minute keeps its state.
   */
  lemma ToggleFlipsOneCell(slots: seq<string>, date: Day, hour: nat, minute: nat, isSelect: bool,
                           date2: Day, hour2: nat, minute2: nat)
    requires date != date2 || hour != hour2 || minute != minute2
    ensures var after := MeetingStore.Toggled(slots, CellSlotId(date, hour, minute), isSelect);
      && IsSelected(after, date, hour, minute) == !isSelect
      && IsSelected(after, date2, hour2, minute2) == IsSelected(slots, date2, hour2, minute2)
  {
    var id, other := CellSlotId(date, hour, minute), CellSlotId(date2, hour2, minute2);
    if id == other {
      CellSlotIdInjective(date, hour, minute, date2, hour2, minute2);
    }
    var after := MeetingStore.Toggled(slots, id, isSelect);
    if isSelect && other in slots {
      var i :| 0 <= i < |slots| && slots[i] == other;
      assert slots[i] in after;
    }
  }

  /** The drag flag of the grid. */
  class DragState {
    var isDragging: bool

    constructor()
      ensures !isDragging
    {
      isDragging := false;
    }

    /** `handleMouseDown`: set the flag, then hand the slot id to the page's `onMouseDown`. */
    method MouseDown(slotId: string) returns (forwarded: string)
      modifies this
      ensures isDragging && forwarded == slotId
    {
      isDragging := true;
      forwarded := slotId;
    }

    /** `handleGlobalMouseUp`: any mouse-up on the window ends the drag. */
    method GlobalMouseUp()
      modifies this
      ensures !isDragging
    {
      isDragging := false;
    }
  }
}
